/** The peer side of client.py (and client_gui.py): the `P2PClient` object,
    whose repository directory `client_repo_<hostname>` is the map `repo`
    that publish and download write. Each socket conversation is an input
    parameter (the reply that came back, the reads that arrived) and an
    output (what was sent), so the branch structure is what is verified. */
module Peer {
  import opened Protocol
  import opened Transfer

  /** Local files by name. */
  type Store = map<string, seq<byte>>

  /** A path given to publish: a file outside the repository (looked up in
      the rest of the local disk) or the repository's own copy of a name. */
  datatype LocalPath = Outside(path: string) | InRepo(name: string)

  /** The exceptions the client catches and reports as `str(e)`. */
  datatype Fault =
    | FileNotFound(path: LocalPath)
    | SameFile(path: LocalPath)
    | MissingKey(key: string)
    | Network(reason: string)

  /** The second component of every `(bool, message)` pair the client returns. */
  datatype Message = Text(text: string) | Raised(fault: Fault)

  /** What the client writes on a socket to another peer. */
  datatype PeerSend = Ask(request: PeerRequest) | Ack

  /** The branch `fetch` takes on the tracker's reply. */
  datatype Choice = Chosen(peer: PeerEntry) | NoPeer(message: Message)

  /** `Path.exists` / `os.path.exists` */
  predicate Exists(repo: Store, disk: Store, p: LocalPath) {
    match p
    case Outside(path) => path in disk
    case InRepo(name) => name in repo
  }

  function Content(repo: Store, disk: Store, p: LocalPath): seq<byte>
    requires Exists(repo, disk, p)
  {
    match p
    case Outside(path) => disk[path]
    case InRepo(name) => repo[name]
  }

  /** `shutil.copy2(src, repository / filename)`: a missing source raises
      FileNotFoundError; a source that is the destination itself raises
      SameFileError; otherwise the content is copied. */
  function Copy(repo: Store, disk: Store, src: LocalPath, filename: string): Result<seq<byte>, Fault> {
    if !Exists(repo, disk, src) then Failure(FileNotFound(src))
    else if src == InRepo(filename) then Failure(SameFile(src))
    else Success(Content(repo, disk, src))
  }

  datatype Result<T, E> = Success(value: T) | Failure(error: E)

  /** `str(e)` of the exception raised when a tracker or peer exchange breaks. */
  function Broken<R>(reply: Reply<R>): Message
    requires !reply.Answer?
  {
    Raised(Network(reply.reason))
  }

  /** The stateless part of `fetch`: what to do with the tracker's reply. Only
      the first listed holder is ever tried. */
  function ChoosePeer(lookup: Reply<Response>): (choice: Choice)
    ensures choice.Chosen? <==> lookup.Answer? && lookup.response.Peers? && lookup.response.peers != []
    ensures choice.Chosen? ==> choice.peer == lookup.response.peers[0]
    ensures !lookup.Answer? ==> choice == NoPeer(Raised(Network(lookup.reason)))
    ensures lookup.Answer? && !lookup.response.IsSuccess() ==>
      choice == NoPeer(Text(lookup.response.MessageOr("Unknown error")))
    ensures lookup.Answer? && lookup.response.Peers? && lookup.response.peers == [] ==>
      choice == NoPeer(Text("No peers found with the file"))
    ensures lookup.Answer? && lookup.response.IsSuccess() && !lookup.response.Peers? ==>
      choice == NoPeer(Raised(MissingKey("peers")))
  {
    match lookup
    case Answer(response) =>
      if !response.IsSuccess() then NoPeer(Text(response.MessageOr("Unknown error")))
      else if !response.Peers? then NoPeer(Raised(MissingKey("peers")))
      else if response.peers == [] then NoPeer(Text("No peers found with the file"))
      else Chosen(response.peers[0])
    case _ => NoPeer(Broken(lookup))
  }

  class PeerClient {
    const hostname: string
    const clientPort: int
    var repo: Store

    /** The repository directory is created if missing and kept if present. */
    constructor (hostname: string, clientPort: int, existing: Store)
      ensures this.hostname == hostname && this.clientPort == clientPort && repo == existing
    {
      this.hostname := hostname;
      this.clientPort := clientPort;
      repo := existing;
    }

    /** The text `str(path)` of a local path. */
    function PathText(p: LocalPath): string {
      match p
      case Outside(path) => path
      case InRepo(name) => "client_repo_" + hostname + "/" + name
    }

    /** `connect_to_server`: register this peer's transfer port. */
    method Register(reply: Reply<Response>) returns (ok: bool, message: Message, sent: seq<Request>)
      ensures sent == if reply.RequestSent() then [Request.Register(hostname, "127.0.0.1", clientPort)] else []
      ensures ok <==> reply.Answer? && reply.response.IsSuccess()
      ensures reply.Answer? ==> message == Text(reply.response.MessageOr("Unknown error"))
      ensures !reply.Answer? ==> message == Raised(Network(reply.reason))
    {
      sent := if reply.RequestSent() then [Request.Register(hostname, "127.0.0.1", clientPort)] else [];
      match reply
      case Answer(response) =>
        ok, message := response.IsSuccess(), Text(response.MessageOr("Unknown error"));
      case _ =>
        ok, message := false, Broken(reply);
    }

    /** The tracker notification both publish variants end with. */
    method Notify(filename: string, reply: Reply<Response>) returns (ok: bool, sent: seq<Request>)
      ensures sent == if reply.RequestSent() then [Request.Publish(hostname, filename)] else []
      ensures ok <==> reply.Answer? && reply.response.IsSuccess()
    {
      sent := if reply.RequestSent() then [Request.Publish(hostname, filename)] else [];
      ok := reply.Answer? && reply.response.IsSuccess();
    }

    /** `publish` of client.py: check the source exists, copy it into the
        repository, then tell the tracker. The copy stays when the tracker
        refuses. */
    method Publish(src: LocalPath, filename: string, disk: Store, reply: Reply<Response>)
      returns (ok: bool, message: Message, sent: seq<Request>)
      modifies this
      ensures !Exists(old(repo), disk, src) ==>
        !ok && message == Text("Local file not found: " + PathText(src)) && sent == [] && repo == old(repo)
      ensures Exists(old(repo), disk, src) && src == InRepo(filename) ==>
        !ok && message == Raised(SameFile(src)) && sent == [] && repo == old(repo)
      ensures Exists(old(repo), disk, src) && src != InRepo(filename) ==>
        && repo == old(repo)[filename := Content(old(repo), disk, src)]
        && sent == (if reply.RequestSent() then [Request.Publish(hostname, filename)] else [])
        && (ok <==> reply.Answer? && reply.response.IsSuccess())
        && (ok ==> message == Text("File published successfully"))
        && (reply.Answer? && !ok ==> message == Text(reply.response.MessageOr("Unknown error")))
        && (!reply.Answer? ==> message == Raised(Network(reply.reason)))
    {
      if !Exists(repo, disk, src) {
        return false, Text("Local file not found: " + PathText(src)), [];
      }
      var copied := Copy(repo, disk, src, filename);
      if copied.Failure? {
        return false, Raised(copied.error), [];
      }
      repo := repo[filename := copied.value];
      ok, sent := Notify(filename, reply);
      if ok {
        message := Text("File published successfully");
      } else if reply.Answer? {
        message := Text(reply.response.MessageOr("Unknown error"));
      } else {
        message := Broken(reply);
      }
    }

    /** `publish` of client_gui.py: no existence check of its own, so a missing
        source surfaces as the copy's FileNotFoundError; the tracker's own
        message is returned on success too. */
    method PublishGui(src: LocalPath, filename: string, disk: Store, reply: Reply<Response>)
      returns (ok: bool, message: Message, sent: seq<Request>)
      modifies this
      ensures !Exists(old(repo), disk, src) ==>
        !ok && message == Raised(FileNotFound(src)) && sent == [] && repo == old(repo)
      ensures Exists(old(repo), disk, src) && src == InRepo(filename) ==>
        !ok && message == Raised(SameFile(src)) && sent == [] && repo == old(repo)
      ensures Exists(old(repo), disk, src) && src != InRepo(filename) ==>
        && repo == old(repo)[filename := Content(old(repo), disk, src)]
        && sent == (if reply.RequestSent() then [Request.Publish(hostname, filename)] else [])
        && (ok <==> reply.Answer? && reply.response.IsSuccess())
        && (reply.Answer? ==> message == Text(reply.response.MessageOr("Unknown error")))
        && (!reply.Answer? ==> message == Raised(Network(reply.reason)))
    {
      var copied := Copy(repo, disk, src, filename);
      if copied.Failure? {
        return false, Raised(copied.error), [];
      }
      repo := repo[filename := copied.value];
      ok, sent := Notify(filename, reply);
      if reply.Answer? {
        message := Text(reply.response.MessageOr("Unknown error"));
      } else {
        message := Broken(reply);
      }
    }

    /** `download_from_peer`: ask for the file; on a success reply send the
        acknowledgement, then read until `size` bytes or an empty read, and
        write what arrived over any local file of that name. */
    method DownloadFromPeer(peer: PeerEntry, filename: string, reply: Reply<PeerResponse>, stream: seq<seq<byte>>)
      returns (ok: bool, message: Message, sent: seq<PeerSend>)
      modifies this
      ensures ok <==> reply.Answer? && reply.response.Granted?
      ensures ok ==> sent == [Ask(Download(filename)), Ack]
      ensures !ok ==> sent == if reply.RequestSent() then [Ask(Download(filename))] else []
      ensures ok ==> repo == old(repo)[filename := Received(reply.response.size, stream)]
      ensures !ok ==> repo == old(repo)
      ensures ok ==> message == Text("File downloaded from " + peer.hostname)
      ensures reply.Answer? && reply.response.Denied? ==> message == Text(reply.response.message)
      ensures !reply.Answer? ==> message == Raised(Network(reply.reason))
    {
      sent := if reply.RequestSent() then [Ask(Download(filename))] else [];
      if !reply.Answer? {
        return false, Broken(reply), sent;
      }
      var response := reply.response;
      if !response.Granted? {
        return false, Text(response.message), sent;
      }
      sent := sent + [Ack];
      var fileData := Receive(response.size, stream);
      repo := repo[filename := fileData];
      ok, message := true, Text("File downloaded from " + peer.hostname);
    }

    /** The part of `fetch` the two variants below share: ask the tracker,
        then download from the first holder only. */
    method LocateAndDownload(filename: string, lookup: Reply<Response>, transfer: Reply<PeerResponse>, stream: seq<seq<byte>>)
      returns (ok: bool, message: Message, toTracker: seq<Request>, toPeer: seq<PeerSend>)
      modifies this
      ensures toTracker == if lookup.RequestSent() then [Request.Fetch(hostname, filename)] else []
      ensures ChoosePeer(lookup).NoPeer? ==>
        !ok && message == ChoosePeer(lookup).message && toPeer == [] && repo == old(repo)
      ensures ChoosePeer(lookup).Chosen? ==>
        && (ok <==> transfer.Answer? && transfer.response.Granted?)
        && (toPeer != [] <==> transfer.RequestSent())
        && (!ok ==> toPeer == if transfer.RequestSent() then [Ask(Download(filename))] else [])
        && (transfer.Answer? && transfer.response.Denied? ==> message == Text(transfer.response.message))
        && (!transfer.Answer? ==> message == Raised(Network(transfer.reason)))
      ensures ok ==>
        && ChoosePeer(lookup).Chosen?
        && toPeer == [Ask(Download(filename)), Ack]
        && repo == old(repo)[filename := Received(transfer.response.size, stream)]
        && message == Text("File downloaded from " + ChoosePeer(lookup).peer.hostname)
      ensures !ok ==> repo == old(repo)
    {
      toTracker := if lookup.RequestSent() then [Request.Fetch(hostname, filename)] else [];
      var choice := ChoosePeer(lookup);
      if choice.NoPeer? {
        return false, choice.message, toTracker, [];
      }
      ok, message, toPeer := DownloadFromPeer(choice.peer, filename, transfer, stream);
    }

    /** `fetch` as written: after a successful download it publishes
        `client_repo_<hostname>/<filename>` under `filename`, i.e. copies the
        downloaded file onto itself. The copy raises SameFileError, the
        failure is discarded, and the tracker is never told, so the fetched
        file is not announced. The source is the repository's own copy, so no
        other file of the disk is read. */
    method Fetch(filename: string, lookup: Reply<Response>, transfer: Reply<PeerResponse>,
                 stream: seq<seq<byte>>, announce: Reply<Response>)
      returns (ok: bool, message: Message, toTracker: seq<Request>, toPeer: seq<PeerSend>)
      modifies this
      ensures toTracker == if lookup.RequestSent() then [Request.Fetch(hostname, filename)] else []
      ensures ChoosePeer(lookup).NoPeer? ==>
        !ok && message == ChoosePeer(lookup).message && toPeer == [] && repo == old(repo)
      ensures ChoosePeer(lookup).Chosen? ==>
        && (ok <==> transfer.Answer? && transfer.response.Granted?)
        && (toPeer != [] <==> transfer.RequestSent())
        && (!ok ==> toPeer == if transfer.RequestSent() then [Ask(Download(filename))] else [])
        && (transfer.Answer? && transfer.response.Denied? ==> message == Text(transfer.response.message))
        && (!transfer.Answer? ==> message == Raised(Network(transfer.reason)))
      ensures ok ==>
        && toPeer == [Ask(Download(filename)), Ack]
        && repo == old(repo)[filename := Received(transfer.response.size, stream)]
        && message == Text("File downloaded from " + ChoosePeer(lookup).peer.hostname)
      ensures !ok ==> repo == old(repo)
    {
      ok, message, toTracker, toPeer := LocateAndDownload(filename, lookup, transfer, stream);
      if ok {
        var published, note, announced := Publish(InRepo(filename), filename, map[], announce);
        toTracker := toTracker + announced;
      }
    }

    /** `fetch` as evidently intended: after a successful download the file,
        already in the repository, is announced to the tracker directly. The
        announcement is best-effort: its reply does not change the result. */
    method FetchAndAnnounce(filename: string, lookup: Reply<Response>, transfer: Reply<PeerResponse>,
                            stream: seq<seq<byte>>, announce: Reply<Response>)
      returns (ok: bool, message: Message, toTracker: seq<Request>, toPeer: seq<PeerSend>)
      modifies this
      ensures ok ==> (toTracker ==
        [Request.Fetch(hostname, filename)] + if announce.RequestSent() then [Request.Publish(hostname, filename)] else [])
      ensures !ok ==> toTracker == if lookup.RequestSent() then [Request.Fetch(hostname, filename)] else []
      ensures ChoosePeer(lookup).NoPeer? ==>
        !ok && message == ChoosePeer(lookup).message && toPeer == [] && repo == old(repo)
      ensures ChoosePeer(lookup).Chosen? ==>
        && (ok <==> transfer.Answer? && transfer.response.Granted?)
        && (toPeer != [] <==> transfer.RequestSent())
        && (!ok ==> toPeer == if transfer.RequestSent() then [Ask(Download(filename))] else [])
        && (transfer.Answer? && transfer.response.Denied? ==> message == Text(transfer.response.message))
        && (!transfer.Answer? ==> message == Raised(Network(transfer.reason)))
      ensures ok ==>
        && toPeer == [Ask(Download(filename)), Ack]
        && repo == old(repo)[filename := Received(transfer.response.size, stream)]
        && message == Text("File downloaded from " + ChoosePeer(lookup).peer.hostname)
      ensures !ok ==> repo == old(repo)
    {
      ok, message, toTracker, toPeer := LocateAndDownload(filename, lookup, transfer, stream);
      if ok {
        var published, announced := Notify(filename, announce);
        toTracker := toTracker + announced;
      }
    }
  }
}
