# P2P file sharing: tracker registry and peer transfer in Dafny

This project models the core of a small peer-to-peer file-sharing system.

A central **tracker** (`P2PServer` in server.py, copied into server_gui.py,
where it logs through a callback instead of `print` and its `start`/`stop`
catch errors) keeps a registry of peers: for every hostname, the IP address and
port of its transfer server, the list of file names it has announced, and the
time it was last seen. Peers talk to the tracker with five JSON commands:
`register`, `publish`, `fetch`, `discover` and `ping`. Each **peer**
(`P2PClient` in client.py, and in client_gui.py with small differences) keeps a
local repository directory. It publishes files into that directory and
announces them to the tracker. It fetches a file by asking the tracker for
holders and downloading from the first holder. Its transfer server streams a
file to other peers after a size-announcing reply and an acknowledgement.

Modules, one per part of the program:

- `Protocol` (protocol.dfy): the messages on the wire, already decoded.
  - Tracker requests and replies.
  - The frames a tracker connection reads.
  - `Reply<R>`, the outcome of one request/response exchange as the client sees it: the server was unreachable, the reply was garbled, or an answer came back.
- `Registry` (registry.dfy): the registry as a value. Each handler is a function on it, and the lemmas say how the handlers compose. A Python dict keeps insertion order, so the registry is a key order `hosts` plus a map `clients`.
- `Tracker` (tracker.dfy): the `P2PServer` object. It is a class whose fields the handlers update in place, and each method is proved against the matching `Registry` function. `handle_client`'s loop is proved against the recursive `Session` function.
- `Transfer` (transfer.dfy): the peer-to-peer download protocol.
  - The serving side is the script of socket actions it performs.
  - The receiving loop is proved against `Received`, and both sides are proved to agree.
- `Peer` (peer.dfy): the `P2PClient` object. Its repository is a map field that `publish` and downloads write. Each socket conversation is an input (the reply or the reads that arrived) and an output (what was sent).
- `Scenarios` (scenarios.dfy): tracker and peers together.
  - One host's lifecycle.
  - Two peers sharing a file, with the corrected `fetch` and with `fetch` as written.

## Model

| member | source | states |
|---|---|---|
| Registry.Register | server.py:90-105 | The host's entry becomes a fresh record: the given ip and port, an empty file list and lastSeen = now. Every other entry is unchanged. A new host goes to the end of the key order; a re-registering host keeps its place. The registry invariant is kept. |
| Registry.Publish | server.py:107-121 | An unregistered host gets "Client not registered" and nothing changes. Otherwise the reply is "File f published" and f is in the host's catalogue. A name already there changes nothing, lastSeen included. A new name is appended and sets lastSeen = now. Other hosts and the key order are untouched. |
| Registry.HoldersExact | server.py:128-136 | The scan returns exactly the entries (hostname, ip, port) of the hosts that list the file and are not the requester. It is sound and complete, and names no host twice. |
| Registry.FetchReply | server.py:123-142 | On a registry that keeps its invariant, fetch fails with "No peers found with file: f" exactly when no host other than the requester lists f. Otherwise it returns the holders in registry order, never the requester. |
| Registry.Discover | server.py:144-157 | A registered host's catalogue is returned in publish order. An unknown host gets "Host h not found". |
| Registry.Ping | server.py:159-179 | A registered host is alive exactly when now − lastSeen < 60, and its lastSeen is reported. An unknown host gets "Host h not found". |
| Registry.Handle | server.py:62-77 | Dispatch keeps the invariant. fetch, discover, ping and unknown commands leave the registry unchanged. An unknown command gets "Unknown command", and register always gets "Client registered". |
| Registry.HandleGrows | server.py:62-77 | No command removes a host or moves it in the key order, and no key disappears. |
| Registry.PublishAll | server.py:107-121 | A run of publishes keeps the registry invariant. Each publish reads its own clock value (`times[i]`), as each `handle_publish` calls `time.time()`. |
| Registry.PublishDistinctNames | server_gui.py:126-140 | Publishing N distinct new names from a registered host, in any order, grows its catalogue by exactly those N names (as a list and as a multiset). This holds whatever clock each publish reads, and `last_seen` ends at the last publish's reading. No update is lost. |
| Registry.PublishMakesHolder | server_gui.py:126-161 | Once a registered host has published f, every other peer's fetch of f succeeds and lists that host. |
| Tracker.Answered | server.py:57-60 | A connection answers exactly the frames before the first empty read or the first payload whose handling raises. |
| Tracker.Session | server.py:54-88 | One connection keeps the registry invariant and sends one response per answered frame. |
| Tracker.SessionGrows | server.py:54-88 | A connection only adds hosts and keys: the key order before it is a prefix of the key order after it. |
| Tracker.SessionAnswers | server_gui.py:73-107 | For a connection served alone, the i-th response answers the i-th frame. Undecodable JSON gets "Invalid JSON" and the connection goes on. Any other frame gets the handler's reply on the registry as the earlier frames left it; an unknown command gets "Unknown command". |
| Tracker.Tracker.constructor | server.py:14-20 | The tracker starts with an empty registry. |
| Tracker.Tracker.Register | server_gui.py:109-124 | Registering updates the fields in place to Registry.Register of the old state and answers "Client registered". |
| Tracker.Tracker.Publish | server_gui.py:126-140 | Publishing updates the fields in place to Registry.Publish of the old state, with the same reply. |
| Tracker.Tracker.Fetch | server_gui.py:142-161 | The scan loop over the registry returns exactly Registry.FetchReply. |
| Tracker.Tracker.Discover | server_gui.py:163-176 | The reply is Registry.Discover of the current state. |
| Tracker.Tracker.Ping | server_gui.py:178-198 | The reply is Registry.Ping of the current state. |
| Tracker.Tracker.ClientList | server_gui.py:210-213 | The snapshot has the same key order and entries as the live registry, and satisfies the invariant. |
| Tracker.Tracker.Dispatch | server_gui.py:81-98 | One command moves the state and produces the reply exactly as Registry.Handle does. |
| Tracker.Tracker.HandleClient | server_gui.py:73-107 | The read loop leaves the registry and the responses sent exactly as Session describes. |
| Transfer.Serve | client.py:81-114 | The serving peer always closes the socket, and only at the end. It sends file bytes exactly when a download names a file it has. Those bytes are the whole file and come after the acknowledgement read. A present file gets exactly four steps: a success reply carrying its length, one acknowledgement read, one send of the whole file, and the close. A missing file gets "File not found". Anything else is closed silently. |
| Transfer.ReceivedPrefix | client.py:219-226 | The bytes kept are always a prefix of what arrived. They are at least the announced size when the sender delivered that many. They are cut short only by the connection closing, and nothing is read when size ≤ 0. |
| Transfer.Receive | client_gui.py:190-198 | The receive loop keeps exactly Received(size, reads). |
| Transfer.ServeThenReceive | client.py:91-105 | However the network splits the stream, the requester that reads to the end keeps exactly the served file, and it was told that file's length. |
| Peer.ChoosePeer | client.py:169-182 | fetch reacts to the tracker's reply as follows. A failure returns the tracker's message (default "Unknown error"). A success without a peers key raises KeyError. An empty list gives "No peers found with the file". Otherwise the first holder, and only it, is tried. A broken exchange reports the exception. |
| Peer.PeerClient.constructor | client.py:14-23 | The peer keeps its hostname, its transfer port and the repository directory's existing content. |
| Peer.PeerClient.Register | client.py:25-45 | The peer sends its hostname, 127.0.0.1 and its transfer port. It succeeds exactly on a success reply and returns the tracker's message, or the exception text. |
| Peer.PeerClient.Notify | client.py:128-146 | The publish notification names this host and the file. It succeeds exactly on a success reply. |
| Peer.PeerClient.Publish | client.py:116-149 | A missing source gives "Local file not found: path": nothing is copied or sent. Otherwise the file is copied into the repository and announced. Success is exactly a success reply, with "File published successfully". The copy stays even when the tracker refuses. Copying a repository file onto itself raises SameFileError. |
| Peer.PeerClient.PublishGui | client_gui.py:107-130 | There is no existence check: a missing source raises the copy's FileNotFoundError. Otherwise it behaves as Publish, but it returns the tracker's own message. |
| Peer.PeerClient.DownloadFromPeer | client_gui.py:169-210 | The download succeeds exactly on a success reply, and only then is the acknowledgement sent. The repository file is overwritten with exactly Received(size, reads), and the message names the peer. A refusal returns the peer's message and the repository is unchanged. |
| Peer.PeerClient.LocateAndDownload | client_gui.py:132-158 | fetch asks the tracker, then downloads from the first holder only. The repository changes only on a successful download. When that download fails, the peer got at most the one download request and never an acknowledgement. |
| Peer.PeerClient.Fetch | client.py:151-195 | This is fetch as written. It returns the download's own result. A refused download returns the peer's message, a broken one the exception. A failed download sent the peer at most the one download request and no acknowledgement; the ack is sent only on a grant. After a successful download, the only request the tracker ever sees is the fetch itself: the self-publish never reaches it. |
| Peer.PeerClient.FetchAndAnnounce | client.py:186-192 | This is fetch as intended. Like Fetch, it returns the download's own result, with the same failure messages, and a failed download sent the peer at most the one download request. After a successful download the file is announced: the tracker sees the fetch and then a publish of the file by this host. |
| Scenarios.FetchOnTrackerReply | client.py:169-182 | On a reply the tracker actually produces, fetch picks the first holder in registry order, which is never itself. Otherwise it returns the tracker's "No peers found with file: f"; its own empty-list and missing-key branches are never taken. |
| Scenarios.PublishThenRepublish | server.py:107-121 | After register, publish a.txt, publish b.txt and a republish of a.txt, the host's record is [a.txt, b.txt] with lastSeen from the b.txt publish. |
| Scenarios.HostLifecycle | test_suite.py:63-129 | A host registers and publishes a.txt, b.txt, then a.txt again. Its catalogue is [a.txt, b.txt]. It is alive 59 s after its last new publish and not at 60 s, so the republish did not refresh it. Re-registering empties its catalogue. |
| Scenarios.BothRegister | client.py:25-45 | Two peers register, and the tracker holds their ports in registration order with empty catalogues. |
| Scenarios.AlicePublishes | client.py:116-149 | A published file lands in the peer's repository and in its tracker catalogue. |
| Scenarios.BobLooksUp | server.py:123-142 | With Alice and Bob registered and only Alice holding doc.txt, Bob's fetch gets exactly [alice 127.0.0.1:7000]. |
| Scenarios.ShareAndFetch | test_suite.py:151-185 | Bob fetches from Alice with the corrected fetch. The tracker names only Alice, and Bob keeps exactly her bytes. Bob sends the tracker the lookup and then a publish of doc.txt. Once those requests are handed to the tracker, his catalogue there is [doc.txt]. |
| Scenarios.ShareAndFetchAsWritten | client.py:186-192 | With fetch as written, Bob keeps the bytes, but he sends the tracker only the lookup. Once that is handed to the tracker, his catalogue there is still empty. |

## Left out

- Sockets, the accept loops, per-connection threads and the registry lock are not modelled directly. Each handler takes the lock for its whole access (server.py:96,112,129,148,163), so it is one atomic step. The `running` flag, `start` and `stop` only control the loops.
- Tracker.SessionAnswers and Tracker.Tracker.HandleClient describe a connection served alone. The lock is released between frames, so another connection's register or publish can land between frame i-1 and frame i. The i-th reply is then computed on that interleaved registry, not on the state the connection's own earlier frames left. The model does not capture those interleavings inside one connection. The clients in client.py and client_gui.py open one connection per request, so for them each connection is a single frame, that is, a single `Registry.Handle` step.
- JSON encoding and decoding are not modelled, nor the single 4096-byte `recv` per message. A message split across reads or longer than 4096 bytes is seen as a broken frame. If the cut falls between whole characters, the JSON fails to parse, the tracker sends "Invalid JSON" and goes on reading (the `Undecodable` frame). If it falls inside a multi-byte UTF-8 character, `.decode` at server.py:58 raises outside the JSON guard, and the connection closes with no reply (the `Unhandled` frame). A broken peer reply becomes `Garbled`.
- A request missing `hostname`, `filename`, `ip` or `port` is not modelled. Python would use `None` as a key; requests here always carry those fields.
- Time is an integer number of seconds. `time.time()` is a float, and the `strftime` of `last_seen` in the ping reply is not modelled; the reply carries the raw number.
- Tracker.Tracker.ClientList: `dict(self.clients)` is a shallow copy that shares the inner records with the live registry. The model returns a value, so that aliasing is not captured.
- Transfer.Serve: a file that disappears between the existence check and the read raises, and the connection is just closed. Filesystem races are not modelled.
- The content of the acknowledgement is not checked by the serving peer. The model records only that one read happens.
- The repository directory is a map from file names to bytes. Path normalisation and `copy2`'s metadata copy are not modelled; `str(path)` is `client_repo_<hostname>/<name>`.
- Exceptions are not modelled beyond the ones the model names: an unreachable host, a garbled reply, FileNotFoundError, SameFileError and KeyError for `peers`. Each is reported as its message.
- `list_repository_files`, `start_peer_server` and `accept_peer_connections` are left out. So are the command-line `main` functions, both Tkinter GUIs, demo.py and test_suite.py, which are drivers around the core.
- Peer.PeerClient.Fetch models client.py's `fetch`. client_gui.py's `fetch` self-publishes through its own `publish` (Peer.PeerClient.PublishGui). With the file present, that raises SameFileError in the same way, so the outcome is the same.
- Only a first-time publish refreshes `last_seen` (server.py:116-118). A republish of a name already listed changes nothing.
- A host's files are a list in publish order without duplicates (server.py:116-117), not a set.
- `fetch` means to announce the fetched file (its own comment, client.py:187), but the announcement never reaches the tracker; see Findings.
- Peer.PeerClient.DownloadFromPeer: the connection to the chosen holder's address (`peer['ip']`, `peer['port']`, client.py:201) is not modelled; the peer reply is an input, so no output records which address was dialled. The holder's hostname appears only in the success message.

## Findings

| source | as written | input that shows it | evidently intended | confidence | as-written member | corrected member |
|---|---|---|---|---|---|---|
| client.py:186-189 | After a successful download, `fetch` calls `publish(repository_path/filename, filename)`. The destination is that same path, so `shutil.copy2` raises SameFileError. `publish` returns (False, …) and `fetch` ignores it, so no publish reaches the tracker. client_gui.py:160-162 does the same. | Alice publishes doc.txt, and Bob fetches doc.txt successfully. Bob's catalogue at the tracker stays []. | The fetched file is announced, so the fetcher becomes a holder that other peers' fetches list. | high; not executed | Scenarios.ShareAndFetchAsWritten | Scenarios.ShareAndFetch |
