/** The tracker process of server.py (and its copy in server_gui.py): the
    `P2PServer` object whose `clients` dictionary the handlers update in
    place, and the per-connection loop of `handle_client`. Every handler holds
    the registry lock for its whole access, so each method below is one
    atomic step and the registry's history is the sequence of those steps. */
module Tracker {
  import opened Protocol
  import R = Registry

  /** Number of frames a connection answers: those before the first frame
      that ends it (an empty read, or a payload that raises). */
  function Answered(inbox: seq<Frame>): (n: nat)
    ensures n <= |inbox|
    ensures n < |inbox| ==> inbox[n].Closed? || inbox[n].Unhandled?
    ensures forall i :: 0 <= i < n ==> !inbox[i].Closed? && !inbox[i].Unhandled?
    decreases |inbox|
  {
    if inbox == [] || inbox[0].Closed? || inbox[0].Unhandled? then 0
    else 1 + Answered(inbox[1..])
  }

  /** What one connection does to the registry and what it sends back:
      one response per frame until the connection ends. */
  function Session(r: R.Registry, inbox: seq<Frame>): (out: (R.Registry, seq<Response>))
    ensures R.Valid(r) ==> R.Valid(out.0)
    ensures |out.1| == Answered(inbox)
    decreases |inbox|
  {
    if inbox == [] then (r, [])
    else
      match inbox[0]
      case Closed => (r, [])
      case Unhandled => (r, [])
      case Undecodable =>
        var (r', sent) := Session(r, inbox[1..]);
        (r', [Failed("Invalid JSON")] + sent)
      case Message(req, now) =>
        var (r1, resp) := R.Handle(r, req, now);
        var (r2, sent) := Session(r1, inbox[1..]);
        (r2, [resp] + sent)
  }

  /** A connection never removes a host or moves it in the key order. */
  lemma {:induction false} SessionGrows(r: R.Registry, inbox: seq<Frame>)
    ensures var r' := Session(r, inbox).0;
      r.hosts <= r'.hosts && r.clients.Keys <= r'.clients.Keys
    decreases |inbox|
  {
    if inbox != [] {
      match inbox[0]
      case Closed =>
      case Unhandled =>
      case Undecodable =>
        SessionGrows(r, inbox[1..]);
      case Message(req, now) =>
        var r1 := R.Handle(r, req, now).0;
        R.HandleGrows(r, req, now);
        SessionGrows(r1, inbox[1..]);
    }
  }

  /** One step of `Session`, seen from a loop that has already sent `sent`: a
      frame that ends the connection, or one answer appended to what was sent
      followed by the rest of the connection. */
  lemma SessionStep(r: R.Registry, inbox: seq<Frame>, sent: seq<Response>)
    requires inbox != []
    ensures inbox[0].Closed? || inbox[0].Unhandled? ==> Session(r, inbox) == (r, [])
    ensures inbox[0].Undecodable? ==>
      && Session(r, inbox).0 == Session(r, inbox[1..]).0
      && sent + Session(r, inbox).1 == (sent + [Failed("Invalid JSON")]) + Session(r, inbox[1..]).1
    ensures inbox[0].Message? ==>
      var out := R.Handle(r, inbox[0].request, inbox[0].now);
      && Session(r, inbox).0 == Session(out.0, inbox[1..]).0
      && sent + Session(r, inbox).1 == (sent + [out.1]) + Session(out.0, inbox[1..]).1
  {
    if inbox[0].Undecodable? {
      var later := Session(r, inbox[1..]).1;
      assert sent + ([Failed("Invalid JSON")] + later) == (sent + [Failed("Invalid JSON")]) + later;
    } else if inbox[0].Message? {
      var out := R.Handle(r, inbox[0].request, inbox[0].now);
      var later := Session(out.0, inbox[1..]).1;
      assert sent + ([out.1] + later) == (sent + [out.1]) + later;
    }
  }

  /** The i-th response of a connection answers the i-th frame: "Invalid JSON"
      for undecodable input, and otherwise the handler's reply computed on the
      registry as the first i frames left it. */
  lemma {:induction false} SessionAnswers(r: R.Registry, inbox: seq<Frame>, i: nat)
    requires i < Answered(inbox)
    ensures inbox[i].Undecodable? || inbox[i].Message?
    ensures inbox[i].Undecodable? ==> Session(r, inbox).1[i] == Failed("Invalid JSON")
    ensures inbox[i].Message? ==>
      Session(r, inbox).1[i] == R.Handle(Session(r, inbox[..i]).0, inbox[i].request, inbox[i].now).1
    ensures inbox[i].Message? && inbox[i].request.Unknown? ==> Session(r, inbox).1[i] == Failed("Unknown command")
    decreases i
  {
    var f := inbox[0];
    if f.Undecodable? {
      assert Session(r, inbox) == (Session(r, inbox[1..]).0, [Failed("Invalid JSON")] + Session(r, inbox[1..]).1);
      if i == 0 {
        assert inbox[..0] == [];
      } else {
        SessionAnswers(r, inbox[1..], i - 1);
        assert inbox[..i][0] == f && inbox[..i][1..] == inbox[1..][..i - 1];
      }
    } else {
      assert f.Message?;
      var r1 := R.Handle(r, f.request, f.now).0;
      assert Session(r, inbox) == (Session(r1, inbox[1..]).0, [R.Handle(r, f.request, f.now).1] + Session(r1, inbox[1..]).1);
      if i == 0 {
        assert inbox[..0] == [];
      } else {
        SessionAnswers(r1, inbox[1..], i - 1);
        assert inbox[..i][0] == f && inbox[..i][1..] == inbox[1..][..i - 1];
      }
    }
  }

  class Tracker {
    var hosts: seq<string>
    var clients: map<string, R.ClientInfo>

    /** The registry this object currently holds. */
    function State(): R.Registry
      reads this
    {
      R.Registry(hosts, clients)
    }

    ghost predicate Valid()
      reads this
    {
      R.Valid(State())
    }

    constructor ()
      ensures Valid() && State() == R.Empty
    {
      hosts := [];
      clients := map[];
    }

    /** `handle_register` */
    method Register(hostname: string, ip: string, port: int, now: int) returns (resp: Response)
      requires Valid()
      modifies this
      ensures Valid()
      ensures State() == R.Register(old(State()), hostname, ip, port, now)
      ensures resp == Done("Client registered")
    {
      if hostname !in clients {
        hosts := hosts + [hostname];
      }
      clients := clients[hostname := R.ClientInfo(ip, port, [], now)];
      resp := Done("Client registered");
    }

    /** `handle_publish` */
    method Publish(hostname: string, filename: string, now: int) returns (resp: Response)
      requires Valid()
      modifies this
      ensures Valid()
      ensures (State(), resp) == R.Publish(old(State()), hostname, filename, now)
    {
      if hostname !in clients {
        return Failed("Client not registered");
      }
      var info := clients[hostname];
      if filename !in info.files {
        clients := clients[hostname := info.(files := info.files + [filename], lastSeen := now)];
      }
      resp := Done("File " + filename + " published");
    }

    /** `handle_fetch`: scan the registry in order, collecting every other
        host that lists the file. */
    method Fetch(filename: string, requester: string) returns (resp: Response)
      requires Valid()
      ensures resp == R.FetchReply(State(), filename, requester)
    {
      var peers: seq<PeerEntry> := [];
      var i := 0;
      while i < |hosts|
        invariant 0 <= i <= |hosts|
        invariant peers == R.Holders(hosts[..i], clients, filename, requester)
      {
        var hostname := hosts[i];
        var info := clients[hostname];
        if filename in info.files && hostname != requester {
          peers := peers + [R.EntryOf(hostname, info)];
        }
        assert hosts[..i + 1][..i] == hosts[..i];
        i := i + 1;
      }
      assert hosts[..i] == hosts;
      if peers != [] {
        resp := Peers(peers);
      } else {
        resp := Failed("No peers found with file: " + filename);
      }
    }

    /** `handle_discover` */
    method Discover(hostname: string) returns (resp: Response)
      ensures resp == R.Discover(State(), hostname)
    {
      if hostname in clients {
        resp := Files(hostname, clients[hostname].files);
      } else {
        resp := Failed("Host " + hostname + " not found");
      }
    }

    /** `handle_ping` */
    method Ping(hostname: string, now: int) returns (resp: Response)
      ensures resp == R.Ping(State(), hostname, now)
    {
      if hostname in clients {
        var lastSeen := clients[hostname].lastSeen;
        var isAlive := now - lastSeen < R.AliveWindow;
        resp := Liveness(hostname, isAlive, lastSeen);
      } else {
        resp := Failed("Host " + hostname + " not found");
      }
    }

    /** `get_client_list`: a copy of the registry, keys in the same order. */
    method ClientList() returns (snapshot: R.Registry)
      requires Valid()
      ensures R.Valid(snapshot)
      ensures snapshot.hosts == hosts && snapshot.clients == clients
    {
      snapshot := R.Registry(hosts, clients);
    }

    /** The command dispatch inside `handle_client`'s loop. */
    method Dispatch(req: Request, now: int) returns (resp: Response)
      requires Valid()
      modifies this
      ensures Valid()
      ensures (State(), resp) == R.Handle(old(State()), req, now)
    {
      match req
      case Register(hostname, ip, port) =>
        resp := Register(hostname, ip, port, now);
      case Publish(hostname, filename) =>
        resp := Publish(hostname, filename, now);
      case Fetch(hostname, filename) =>
        resp := Fetch(filename, hostname);
      case Discover(hostname) =>
        resp := Discover(hostname);
      case Ping(hostname) =>
        resp := Ping(hostname, now);
      case Unknown =>
        resp := Failed("Unknown command");
    }

    /** `handle_client`: read frames until an empty read or a payload that
        raises, answering each other frame once. */
    method HandleClient(inbox: seq<Frame>) returns (sent: seq<Response>)
      requires Valid()
      modifies this
      ensures Valid()
      ensures (State(), sent) == Session(old(State()), inbox)
    {
      sent := [];
      var i := 0;
      assert inbox[0..] == inbox;
      while i < |inbox|
        invariant 0 <= i <= |inbox|
        invariant Valid()
        invariant Session(State(), inbox[i..]).0 == Session(old(State()), inbox).0
        invariant sent + Session(State(), inbox[i..]).1 == Session(old(State()), inbox).1
      {
        ghost var before := State();
        ghost var rest := inbox[i..];
        SessionStep(before, rest, sent);
        assert rest[0] == inbox[i] && rest[1..] == inbox[i + 1..];
        match inbox[i] {
          case Closed =>
            break;
          case Unhandled =>
            break;
          case Undecodable =>
            sent := sent + [Failed("Invalid JSON")];
          case Message(req, now) =>
            var resp := Dispatch(req, now);
            sent := sent + [resp];
        }
        i := i + 1;
      }
      assert Session(State(), inbox[i..]) == (State(), []);
      assert sent + [] == sent;
    }
  }
}
