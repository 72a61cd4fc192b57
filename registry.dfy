/** The tracker's registry as a value, and what each of the five handlers does
    to it. The registry is the `clients` dictionary of server.py: a Python dict
    keeps its keys in insertion order and re-assigning an existing key keeps
    its place, so it is modelled as the key order `hosts` plus the map
    `clients`. The class `Tracker.Tracker` updates such a pair in place and is
    proved against the functions here. */
module Registry {
  import opened Protocol

  /** One registered peer: where its transfer server listens, the files it
      has announced (in publish order) and the clock reading of its last
      registration or first-time publish. */
  datatype ClientInfo = ClientInfo(ip: string, port: int, files: seq<string>, lastSeen: int)

  datatype Registry = Registry(hosts: seq<string>, clients: map<string, ClientInfo>)

  /** A ping reports a host alive when it was seen less than this many seconds ago. */
  const AliveWindow: int := 60

  const Empty: Registry := Registry([], map[])

  predicate NoDuplicates<T(==)>(s: seq<T>) {
    forall i, j :: 0 <= i < j < |s| ==> s[i] != s[j]
  }

  /** The registry invariant: `hosts` lists every key of `clients` once, and no
      host's catalogue names a file twice. */
  ghost predicate Valid(r: Registry) {
    && NoDuplicates(r.hosts)
    && (forall h :: h in r.clients <==> h in r.hosts)
    && (forall h :: h in r.clients ==> NoDuplicates(r.clients[h].files))
  }

  /** `handle_register`: the entry for `hostname` becomes a fresh record with an
      empty catalogue, whatever was there before. */
  function Register(r: Registry, hostname: string, ip: string, port: int, now: int): (r': Registry)
    ensures Valid(r) ==> Valid(r')
    ensures hostname in r'.clients
    ensures r'.clients[hostname].ip == ip && r'.clients[hostname].port == port
    ensures r'.clients[hostname].files == [] && r'.clients[hostname].lastSeen == now
    ensures r'.clients.Keys == r.clients.Keys + {hostname}
    ensures forall h :: h in r.clients && h != hostname ==> r'.clients[h] == r.clients[h]
    ensures r.hosts <= r'.hosts
    ensures hostname in r.clients ==> r'.hosts == r.hosts
    ensures hostname !in r.clients ==> r'.hosts == r.hosts + [hostname]
  {
    var hosts := if hostname in r.clients then r.hosts else r.hosts + [hostname];
    Registry(hosts, r.clients[hostname := ClientInfo(ip, port, [], now)])
  }

  /** `handle_publish`: an unregistered host is refused and nothing changes;
      otherwise the file is appended to the host's catalogue, and its
      `lastSeen` bumped, only when the name is not there yet. */
  function Publish(r: Registry, hostname: string, filename: string, now: int): (out: (Registry, Response))
    ensures Valid(r) ==> Valid(out.0)
    ensures out.0.hosts == r.hosts && out.0.clients.Keys == r.clients.Keys
    ensures forall h :: h in r.clients && h != hostname ==> out.0.clients[h] == r.clients[h]
    ensures hostname !in r.clients ==> out == (r, Failed("Client not registered"))
    ensures hostname in r.clients ==>
      && out.1 == Done("File " + filename + " published")
      && filename in out.0.clients[hostname].files
      && (filename in r.clients[hostname].files ==> out.0 == r)
      && (filename !in r.clients[hostname].files ==>
            out.0.clients[hostname] ==
              r.clients[hostname].(files := r.clients[hostname].files + [filename], lastSeen := now))
  {
    if hostname !in r.clients then
      (r, Failed("Client not registered"))
    else
      var info := r.clients[hostname];
      var info' := if filename !in info.files
        then info.(files := info.files + [filename], lastSeen := now)
        else info;
      (Registry(r.hosts, r.clients[hostname := info']), Done("File " + filename + " published"))
  }

  /** Whether `h` is a peer a fetch by `requester` should report for `filename`. */
  predicate Holds(clients: map<string, ClientInfo>, h: string, filename: string, requester: string) {
    h in clients && h != requester && filename in clients[h].files
  }

  function EntryOf(h: string, info: ClientInfo): PeerEntry {
    PeerEntry(h, info.ip, info.port)
  }

  /** The holders `handle_fetch` collects, scanning `hosts` in order. */
  function Holders(hosts: seq<string>, clients: map<string, ClientInfo>, filename: string, requester: string)
    : seq<PeerEntry>
    decreases |hosts|
  {
    if hosts == [] then []
    else
      var last := hosts[|hosts| - 1];
      Holders(hosts[..|hosts| - 1], clients, filename, requester)
        + (if Holds(clients, last, filename, requester) then [EntryOf(last, clients[last])] else [])
  }

  /** The scan is exact: it reports every listed host that holds the file and
      is not the requester, with its registered address, and nothing else; a
      key order without repeats yields no host twice. */
  lemma {:induction false} HoldersExact(hosts: seq<string>, clients: map<string, ClientInfo>, filename: string, requester: string)
    ensures var peers := Holders(hosts, clients, filename, requester);
      && |peers| <= |hosts|
      && (forall p :: p in peers ==>
            p.hostname in hosts && Holds(clients, p.hostname, filename, requester)
            && p == EntryOf(p.hostname, clients[p.hostname]))
      && (forall h :: h in hosts && Holds(clients, h, filename, requester) ==> EntryOf(h, clients[h]) in peers)
      && (NoDuplicates(hosts) ==> forall i, j :: 0 <= i < j < |peers| ==> peers[i].hostname != peers[j].hostname)
    decreases |hosts|
  {
    if hosts != [] {
      var init := hosts[..|hosts| - 1];
      var last := hosts[|hosts| - 1];
      HoldersExact(init, clients, filename, requester);
      assert hosts == init + [last];
      assert NoDuplicates(hosts) ==> NoDuplicates(init) && last !in init by {
        if NoDuplicates(hosts) {
          forall k | 0 <= k < |init| ensures init[k] != last {
            assert init[k] == hosts[k];
          }
        }
      }
    }
  }

  /** `handle_fetch`'s reply: the holders, or an error exactly when there is
      none. The error does not tell a file nobody published from a file only
      the requester holds. */
  function FetchReply(r: Registry, filename: string, requester: string): (resp: Response)
    ensures resp.Peers? || resp.Failed?
    ensures Valid(r) ==> (resp.Failed? <==> forall h :: h in r.clients ==> !Holds(r.clients, h, filename, requester))
    ensures resp.Failed? ==> resp.message == "No peers found with file: " + filename
    ensures resp.Peers? ==> resp.peers == Holders(r.hosts, r.clients, filename, requester)
    ensures resp.Peers? ==> forall p :: p in resp.peers ==> p.hostname != requester
  {
    HoldersExact(r.hosts, r.clients, filename, requester);
    var peers := Holders(r.hosts, r.clients, filename, requester);
    if peers != [] then assert peers[0] in peers; Peers(peers) else Failed("No peers found with file: " + filename)
  }

  /** `handle_discover`: a registered host's catalogue in publish order. */
  function Discover(r: Registry, hostname: string): (resp: Response)
    ensures resp.Files? <==> hostname in r.clients
    ensures resp.Files? ==> resp.hostname == hostname && resp.files == r.clients[hostname].files
    ensures !resp.Files? ==> resp == Failed("Host " + hostname + " not found")
  {
    if hostname in r.clients then Files(hostname, r.clients[hostname].files)
    else Failed("Host " + hostname + " not found")
  }

  /** `handle_ping`: alive means seen less than `AliveWindow` seconds before `now`. */
  function Ping(r: Registry, hostname: string, now: int): (resp: Response)
    ensures resp.Liveness? <==> hostname in r.clients
    ensures resp.Liveness? ==>
      && resp.hostname == hostname
      && resp.lastSeen == r.clients[hostname].lastSeen
      && (resp.alive <==> now - r.clients[hostname].lastSeen < AliveWindow)
    ensures !resp.Liveness? ==> resp == Failed("Host " + hostname + " not found")
  {
    if hostname in r.clients then
      var lastSeen := r.clients[hostname].lastSeen;
      Liveness(hostname, now - lastSeen < AliveWindow, lastSeen)
    else Failed("Host " + hostname + " not found")
  }

  /** The dispatch in `handle_client`: one request, handled atomically. */
  function Handle(r: Registry, req: Request, now: int): (out: (Registry, Response))
    ensures Valid(r) ==> Valid(out.0)
    ensures !req.Register? && !req.Publish? ==> out.0 == r
    ensures req.Unknown? ==> out.1 == Failed("Unknown command")
    ensures req.Register? ==> out.1 == Done("Client registered")
  {
    match req
    case Register(h, ip, port) => (Register(r, h, ip, port, now), Done("Client registered"))
    case Publish(h, f) => Publish(r, h, f, now)
    case Fetch(h, f) => (r, FetchReply(r, f, h))
    case Discover(h) => (r, Discover(r, h))
    case Ping(h) => (r, Ping(r, h, now))
    case Unknown => (r, Failed("Unknown command"))
  }

  /** No command removes a host or moves it in the key order. */
  lemma HandleGrows(r: Registry, req: Request, now: int)
    ensures var r' := Handle(r, req, now).0;
      r.hosts <= r'.hosts && r.clients.Keys <= r'.clients.Keys
  {
    match req
    case Register(h, ip, port) =>
      assert r.hosts <= Register(r, h, ip, port, now).hosts;
    case _ =>
  }

  /** A run of publishes from one host, one after another; the i-th publish
      reads the clock as `times[i]`. */
  function PublishAll(r: Registry, hostname: string, names: seq<string>, times: seq<int>): (r': Registry)
    requires |times| == |names|
    ensures Valid(r) ==> Valid(r')
    decreases |names|
  {
    if names == [] then r
    else PublishAll(Publish(r, hostname, names[0], times[0]).0, hostname, names[1..], times[1..])
  }

  /** One first-time publish appends the name and keeps the host registered. */
  lemma PublishFresh(r: Registry, hostname: string, filename: string, now: int)
    requires hostname in r.clients && filename !in r.clients[hostname].files
    ensures var r' := Publish(r, hostname, filename, now).0;
      && hostname in r'.clients && r'.clients[hostname].files == r.clients[hostname].files + [filename]
      && r'.clients[hostname].lastSeen == now
  {
  }

  /** The tail of a duplicate-free list of names, none of them in `files`,
      is duplicate-free and avoids `files` plus the head. */
  lemma TailStaysFresh(files: seq<string>, names: seq<string>)
    requires names != [] && NoDuplicates(names)
    requires forall n :: n in names ==> n !in files
    ensures NoDuplicates(names[1..])
    ensures forall n :: n in names[1..] ==> n !in files + [names[0]]
  {
    var rest := names[1..];
    forall i, j | 0 <= i < j < |rest| ensures rest[i] != rest[j] {
      assert rest[i] == names[i + 1] && rest[j] == names[j + 1];
    }
    forall n | n in rest ensures n !in files + [names[0]] {
      var k :| 0 <= k < |rest| && rest[k] == n;
      assert n == names[k + 1] && names[k + 1] in names;
    }
  }

  /** Publishing N distinct new names from a registered host, in whatever order
      the lock admits them, grows its catalogue by exactly those N names. */
  lemma {:induction false} PublishDistinctNames(r: Registry, hostname: string, names: seq<string>, times: seq<int>)
    requires hostname in r.clients && |times| == |names|
    requires NoDuplicates(names)
    requires forall n :: n in names ==> n !in r.clients[hostname].files
    ensures hostname in PublishAll(r, hostname, names, times).clients
    ensures PublishAll(r, hostname, names, times).clients[hostname].files == r.clients[hostname].files + names
    ensures |PublishAll(r, hostname, names, times).clients[hostname].files| == |r.clients[hostname].files| + |names|
    ensures multiset(PublishAll(r, hostname, names, times).clients[hostname].files)
         == multiset(r.clients[hostname].files) + multiset(names)
    ensures names != [] ==> PublishAll(r, hostname, names, times).clients[hostname].lastSeen == times[|times| - 1]
    decreases |names|
  {
    var files := r.clients[hostname].files;
    if names == [] {
      assert files + names == files;
    } else {
      var r1 := Publish(r, hostname, names[0], times[0]).0;
      assert && hostname in r1.clients && r1.clients[hostname].files == files + [names[0]]
             && r1.clients[hostname].lastSeen == times[0]
             && NoDuplicates(names[1..]) && (forall n :: n in names[1..] ==> n !in r1.clients[hostname].files) by {
        assert names[0] in names;
        PublishFresh(r, hostname, names[0], times[0]);
        TailStaysFresh(files, names);
      }
      PublishDistinctNames(r1, hostname, names[1..], times[1..]);
      assert files + [names[0]] + names[1..] == files + names;
    }
  }

  /** Once a registered host has published a file, every other peer's fetch
      lists that host among the holders. */
  lemma PublishMakesHolder(r: Registry, hostname: string, filename: string, now: int, requester: string)
    requires Valid(r) && hostname in r.clients && hostname != requester
    ensures var r' := Publish(r, hostname, filename, now).0;
      && FetchReply(r', filename, requester).Peers?
      && EntryOf(hostname, r'.clients[hostname]) in FetchReply(r', filename, requester).peers
  {
    var r' := Publish(r, hostname, filename, now).0;
    assert hostname in r'.hosts;
    assert Holds(r'.clients, hostname, filename, requester);
    HoldersExact(r'.hosts, r'.clients, filename, requester);
  }
}
