/** The peer-to-peer download protocol of client.py (and client_gui.py):
    request, reply carrying the file size, acknowledgement, then the raw
    bytes. The serving side is a function from the local repository and the
    decoded request to the sequence of socket actions it performs; the
    receiving side's loop is a method proved against `Received`. */
module Transfer {
  import opened Protocol

  /** A download request as the serving peer decodes it. `NotDownload` is a
      decoded request whose command is something else; `Unreadable` is a
      payload that is not JSON or lacks the `command` or `filename` key. */
  datatype PeerRequest = Download(filename: string) | NotDownload | Unreadable

  /** The serving peer's reply: success with the file's byte length, or an
      error message. */
  datatype PeerResponse = Granted(filename: string, size: nat) | Denied(message: string)

  /** What the serving peer does on its socket, in order. `ReadAck` is one
      read whose content is not inspected. */
  datatype Action = Respond(response: PeerResponse) | ReadAck | SendAll(data: seq<byte>) | Close

  /** `handle_peer_request`: answer one download request from the local
      repository `repo` (file name to content). */
  function Serve(repo: map<string, seq<byte>>, req: PeerRequest): (script: seq<Action>)
    ensures |script| > 0 && script[|script| - 1] == Close
    ensures forall i :: 0 <= i < |script| - 1 ==> !script[i].Close?
    ensures (exists i :: 0 <= i < |script| && script[i].SendAll?) <==> req.Download? && req.filename in repo
    ensures forall i :: 0 <= i < |script| && script[i].SendAll? ==>
      && 0 < i && script[i - 1] == ReadAck
      && req.Download? && req.filename in repo && script[i].data == repo[req.filename]
    ensures forall i :: 0 <= i < |script| && script[i].Respond? && script[i].response.Granted? ==>
      && req.Download? && req.filename in repo
      && script[i].response == Granted(req.filename, |repo[req.filename]|)
    ensures req.Download? && req.filename in repo ==>
      |script| == 4 && script[0] == Respond(Granted(req.filename, |repo[req.filename]|)) && script[1] == ReadAck
    ensures req.Download? && req.filename !in repo ==> script == [Respond(Denied("File not found")), Close]
    ensures !req.Download? ==> script == [Close]
  {
    match req
    case Download(filename) =>
      if filename in repo then
        var fileData := repo[filename];
        var script := [Respond(Granted(filename, |fileData|)), ReadAck, SendAll(fileData), Close];
        assert script[2].SendAll?;
        script
      else
        [Respond(Denied("File not found")), Close]
    case _ => [Close]
  }

  /** All bytes of a sequence of reads, in order. */
  function Concat(chunks: seq<seq<byte>>): seq<byte>
    decreases |chunks|
  {
    if chunks == [] then [] else chunks[0] + Concat(chunks[1..])
  }

  /** No read in the sequence is the empty read that signals a closed socket. */
  predicate NonEmpty(chunks: seq<seq<byte>>) {
    forall i :: 0 <= i < |chunks| ==> chunks[i] != []
  }

  /** The bytes `download_from_peer` keeps from the reads `stream` when `size`
      bytes were announced: it reads while it holds fewer than `size` bytes and
      stops at the first empty read; past the end of `stream` every read is
      empty. */
  function Received(size: int, stream: seq<seq<byte>>): seq<byte>
    decreases |stream|
  {
    if size <= 0 || stream == [] || stream[0] == [] then []
    else stream[0] + Received(size - |stream[0]|, stream[1..])
  }

  /** What is kept is always what was sent, in order; it is everything
      announced when the sender delivered that much, and it falls short only
      when the connection closed first. */
  lemma {:induction false} ReceivedPrefix(size: int, stream: seq<seq<byte>>)
    ensures Received(size, stream) <= Concat(stream)
    ensures NonEmpty(stream) && size <= |Concat(stream)| ==> size <= |Received(size, stream)|
    ensures NonEmpty(stream) && |Received(size, stream)| < size ==> Received(size, stream) == Concat(stream)
    ensures size <= 0 ==> Received(size, stream) == []
    decreases |stream|
  {
    if size > 0 && stream != [] && stream[0] != [] {
      var tail := stream[1..];
      assert NonEmpty(stream) ==> NonEmpty(tail) by {
        forall i | NonEmpty(stream) && 0 <= i < |tail| ensures tail[i] != [] {
          assert tail[i] == stream[i + 1];
        }
      }
      ReceivedPrefix(size - |stream[0]|, tail);
      assert Received(size, stream) == stream[0] + Received(size - |stream[0]|, tail);
      assert Concat(stream) == stream[0] + Concat(tail);
    }
  }

  /** One read of `Received`, seen from a loop that already holds `data`: a
      non-empty chunk while bytes are still due is appended whole. */
  lemma ReceivedStep(data: seq<byte>, size: int, stream: seq<seq<byte>>)
    requires 0 < size && stream != [] && stream[0] != []
    ensures data + Received(size, stream) == (data + stream[0]) + Received(size - |stream[0]|, stream[1..])
  {
    var later := Received(size - |stream[0]|, stream[1..]);
    assert data + (stream[0] + later) == (data + stream[0]) + later;
  }

  /** The receive loop of `download_from_peer`. */
  method Receive(size: int, stream: seq<seq<byte>>) returns (data: seq<byte>)
    ensures data == Received(size, stream)
  {
    data := [];
    var i := 0;
    while |data| < size
      invariant 0 <= i <= |stream|
      invariant data + Received(size - |data|, stream[i..]) == Received(size, stream)
      decreases |stream| - i
    {
      var chunk := if i < |stream| then stream[i] else [];
      if chunk == [] {
        break;
      }
      assert stream[i..][0] == chunk && stream[i..][1..] == stream[i + 1..];
      ReceivedStep(data, size - |data|, stream[i..]);
      data := data + chunk;
      i := i + 1;
    }
  }

  /** The two sides agree: however the network splits the bytes a serving
      peer streams, the requester that reads them to the end keeps exactly
      the served file, and the size it was told is that file's length. */
  lemma ServeThenReceive(repo: map<string, seq<byte>>, filename: string, chunks: seq<seq<byte>>)
    requires filename in repo
    requires NonEmpty(chunks) && Concat(chunks) == repo[filename]
    ensures Serve(repo, Download(filename))[0] == Respond(Granted(filename, |repo[filename]|))
    ensures Received(|repo[filename]|, chunks) == repo[filename]
  {
    ReceivedPrefix(|repo[filename]|, chunks);
    var data := Received(|repo[filename]|, chunks);
    assert data <= repo[filename] && |data| >= |repo[filename]|;
  }
}
