/** Tracker and peers together: what a peer's fetch does with a reply the
    tracker actually produces, and two complete runs in which requests flow
    from clients to the tracker and bytes from one peer to another. */
module Scenarios {
  import opened Protocol
  import R = Registry
  import T = Tracker
  import opened Transfer
  import opened Peer

  /** On a reply computed by the tracker, `fetch` picks the first holder in
      registry order, never itself, and otherwise surfaces the tracker's own
      error message; its "No peers found with the file" branch and its missing
      `peers` key branch are never taken. */
  lemma FetchOnTrackerReply(r: R.Registry, filename: string, requester: string)
    requires R.Valid(r)
    ensures var choice := ChoosePeer(Answer(R.FetchReply(r, filename, requester)));
      && (choice.Chosen? <==> exists h :: h in r.clients && R.Holds(r.clients, h, filename, requester))
      && (choice.Chosen? ==>
            && choice.peer == R.Holders(r.hosts, r.clients, filename, requester)[0]
            && choice.peer.hostname != requester
            && R.Holds(r.clients, choice.peer.hostname, filename, requester))
      && (choice.NoPeer? ==> choice.message == Text("No peers found with file: " + filename))
  {
    R.HoldersExact(r.hosts, r.clients, filename, requester);
    var reply := R.FetchReply(r, filename, requester);
    if reply.Peers? {
      assert reply.peers[0] in reply.peers;
    }
  }

  /** A host registers, publishes a.txt and b.txt, then a.txt again: the
      republish leaves its record as the second publish made it. */
  method PublishThenRepublish(now: int) returns (tracker: T.Tracker)
    ensures fresh(tracker) && tracker.Valid() && tracker.hosts == ["alice"]
    ensures tracker.clients["alice"] == R.ClientInfo("127.0.0.1", 7000, ["a.txt", "b.txt"], now + 1)
  {
    tracker := new T.Tracker();
    var _ := tracker.Register("alice", "127.0.0.1", 7000, now);
    var _ := tracker.Publish("alice", "a.txt", now);
    var _ := tracker.Publish("alice", "b.txt", now + 1);
    assert tracker.clients["alice"].files == ["a.txt", "b.txt"];
    var _ := tracker.Publish("alice", "a.txt", now + 2);
  }

  /** Register, publish, republish, ping and re-register one host. The late
      ping comes exactly `AliveWindow` seconds after the last first-time
      publish: the republish did not refresh `lastSeen`, and the window is
      strict. */
  method HostLifecycle(now: int) returns (catalogue: seq<string>, aliveSoon: bool, aliveLate: bool, afterReregister: seq<string>)
    ensures catalogue == ["a.txt", "b.txt"]
    ensures aliveSoon && !aliveLate
    ensures afterReregister == []
  {
    var tracker := PublishThenRepublish(now);
    var found := tracker.Discover("alice");
    catalogue := found.files;
    var early := tracker.Ping("alice", now + 1 + 59);
    var late := tracker.Ping("alice", now + 1 + 60);
    aliveSoon, aliveLate := early.alive, late.alive;
    var _ := tracker.Register("alice", "127.0.0.1", 7000, now + 100);
    var again := tracker.Discover("alice");
    afterReregister := again.files;
  }

  /** Alice and Bob register with the tracker, each sending its own
      transfer port. */
  method BothRegister() returns (tracker: T.Tracker, alice: PeerClient, bob: PeerClient)
    ensures fresh(tracker) && fresh(alice) && fresh(bob)
    ensures tracker.Valid() && tracker.hosts == ["alice", "bob"]
    ensures tracker.clients["alice"] == R.ClientInfo("127.0.0.1", 7000, [], 0)
    ensures tracker.clients["bob"] == R.ClientInfo("127.0.0.1", 7001, [], 0)
    ensures alice.hostname == "alice" && alice.repo == map[]
    ensures bob.hostname == "bob" && bob.repo == map[]
  {
    tracker := new T.Tracker();
    alice := new PeerClient("alice", 7000, map[]);
    bob := new PeerClient("bob", 7001, map[]);
    var registered := tracker.Register(alice.hostname, "127.0.0.1", alice.clientPort, 0);
    var _, _, sentA := alice.Register(Answer(registered));
    assert sentA == [Request.Register("alice", "127.0.0.1", 7000)];
    registered := tracker.Register(bob.hostname, "127.0.0.1", bob.clientPort, 0);
    var _, _, sentB := bob.Register(Answer(registered));
    assert sentB == [Request.Register("bob", "127.0.0.1", 7001)];
  }

  /** Then Alice publishes `doc.txt` from her disk: the file lands in her
      repository and in her catalogue at the tracker. */
  method AlicePublishes(doc: seq<byte>) returns (tracker: T.Tracker, alice: PeerClient, bob: PeerClient)
    ensures fresh(tracker) && fresh(alice) && fresh(bob)
    ensures tracker.Valid() && tracker.hosts == ["alice", "bob"]
    ensures tracker.clients["alice"] == R.ClientInfo("127.0.0.1", 7000, ["doc.txt"], 1)
    ensures tracker.clients["bob"] == R.ClientInfo("127.0.0.1", 7001, [], 0)
    ensures alice.hostname == "alice" && alice.repo == map["doc.txt" := doc]
    ensures bob.hostname == "bob" && bob.repo == map[]
  {
    tracker, alice, bob := BothRegister();
    var disk := map["/home/alice/doc.txt" := doc];
    var published := tracker.Publish("alice", "doc.txt", 1);
    var ok, _, sent := alice.Publish(Outside("/home/alice/doc.txt"), "doc.txt", disk, Answer(published));
    assert ok && sent == [Request.Publish("alice", "doc.txt")];
  }

  /** Bob asks the tracker who holds `doc.txt`: Alice alone. */
  method BobLooksUp(doc: seq<byte>) returns (tracker: T.Tracker, alice: PeerClient, bob: PeerClient, lookup: Response)
    ensures fresh(tracker) && fresh(alice) && fresh(bob)
    ensures tracker.Valid() && tracker.hosts == ["alice", "bob"]
    ensures tracker.clients["bob"] == R.ClientInfo("127.0.0.1", 7001, [], 0)
    ensures alice.repo == map["doc.txt" := doc]
    ensures bob.hostname == "bob" && bob.repo == map[]
    ensures lookup == Peers([PeerEntry("alice", "127.0.0.1", 7000)])
  {
    tracker, alice, bob := AlicePublishes(doc);
    lookup := tracker.Fetch("doc.txt", "bob");
    var alicePeer := PeerEntry("alice", "127.0.0.1", 7000);
    assert tracker.hosts[..1] == ["alice"] && tracker.hosts[..1][..0] == [];
    assert R.Holders(tracker.hosts[..1], tracker.clients, "doc.txt", "bob") == [alicePeer];
    assert R.Holders(tracker.hosts, tracker.clients, "doc.txt", "bob") == [alicePeer];
  }

  /** The registry after `reqs` reach the tracker one after another, each
      handled on its own connection at clock `now`. */
  function Delivered(r: R.Registry, reqs: seq<Request>, now: int): R.Registry
    decreases |reqs|
  {
    if reqs == [] then r else R.Handle(Delivered(r, reqs[..|reqs| - 1], now), reqs[|reqs| - 1], now).0
  }

  /** Hand the tracker, in order, the requests a peer sent it. */
  method Deliver(tracker: T.Tracker, reqs: seq<Request>, now: int)
    requires tracker.Valid()
    modifies tracker
    ensures tracker.Valid() && tracker.State() == Delivered(old(tracker.State()), reqs, now)
  {
    ghost var before := tracker.State();
    var k := 0;
    while k < |reqs|
      invariant 0 <= k <= |reqs|
      invariant tracker.Valid() && tracker.State() == Delivered(before, reqs[..k], now)
    {
      var _ := tracker.Dispatch(reqs[k], now);
      assert reqs[..k + 1][..k] == reqs[..k];
      k := k + 1;
    }
    assert reqs[..|reqs|] == reqs;
  }

  /** Bob fetches `doc.txt`: the tracker names Alice only, Alice's transfer
      server streams the file in whatever chunks the network delivers, and Bob
      keeps exactly those bytes. Whatever else Bob sends the tracker after its
      lookup then reaches it: with the corrected fetch that is the
      announcement, so the tracker lists Bob as a holder. */
  method ShareAndFetch(doc: seq<byte>, chunks: seq<seq<byte>>)
    returns (peers: seq<PeerEntry>, bobCopy: seq<byte>, toTracker: seq<Request>, bobCatalogue: seq<string>)
    requires NonEmpty(chunks) && Concat(chunks) == doc
    ensures peers == [PeerEntry("alice", "127.0.0.1", 7000)]
    ensures bobCopy == doc
    ensures toTracker == [Request.Fetch("bob", "doc.txt"), Request.Publish("bob", "doc.txt")]
    ensures bobCatalogue == ["doc.txt"]
  {
    var tracker, alice, bob, lookup := BobLooksUp(doc);
    peers := lookup.peers;

    ServeThenReceive(alice.repo, "doc.txt", chunks);
    var granted := Serve(alice.repo, Download("doc.txt"))[0].response;

    // The tracker's answer to the announcement, should it arrive.
    var announced := R.Publish(tracker.State(), "bob", "doc.txt", 2).1;
    var fetched, _, sent, toPeer := bob.FetchAndAnnounce("doc.txt", Answer(lookup), Answer(granted), chunks, Answer(announced));
    assert fetched && toPeer == [Ask(Download("doc.txt")), Ack];
    toTracker := sent;
    bobCopy := bob.repo["doc.txt"];

    // The first request is the lookup BobLooksUp already served.
    ghost var before := tracker.State();
    Deliver(tracker, toTracker[1..], 2);
    assert toTracker[1..][..0] == [];
    assert tracker.State() == R.Publish(before, "bob", "doc.txt", 2).0;
    var found := tracker.Discover("bob");
    bobCatalogue := found.files;
  }

  /** The same fetch with `fetch` as written: Bob keeps the bytes, but his
      self-publish copies the file onto itself and fails, so after the lookup
      Bob sends the tracker nothing. His catalogue stays empty and later
      fetches by others will not find him. */
  method ShareAndFetchAsWritten(doc: seq<byte>, chunks: seq<seq<byte>>)
    returns (bobCopy: seq<byte>, toTracker: seq<Request>, bobCatalogue: seq<string>)
    requires NonEmpty(chunks) && Concat(chunks) == doc
    ensures bobCopy == doc
    ensures toTracker == [Request.Fetch("bob", "doc.txt")]
    ensures bobCatalogue == []
  {
    var tracker, alice, bob, lookup := BobLooksUp(doc);

    ServeThenReceive(alice.repo, "doc.txt", chunks);
    var granted := Serve(alice.repo, Download("doc.txt"))[0].response;

    var announced := R.Publish(tracker.State(), "bob", "doc.txt", 2).1;
    var fetched, _, sent, _ := bob.Fetch("doc.txt", Answer(lookup), Answer(granted), chunks, Answer(announced));
    assert fetched;
    toTracker := sent;
    bobCopy := bob.repo["doc.txt"];

    Deliver(tracker, toTracker[1..], 2);
    var found := tracker.Discover("bob");
    bobCatalogue := found.files;
  }
}
