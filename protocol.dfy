/** Messages exchanged between peers and the tracker, and between two peers.
    The source sends untyped JSON objects; here every object shape the code
    reads or writes is one constructor, and JSON encoding is left out. */
module Protocol {

  /** One octet of file content. */
  type byte = b: int | 0 <= b < 256

  /** One holder as the tracker lists it in a fetch reply. */
  datatype PeerEntry = PeerEntry(hostname: string, ip: string, port: int)

  /** A decoded tracker request, by its `command` field. `Unknown` stands for
      every other command value, including a missing one. */
  datatype Request =
    | Register(hostname: string, ip: string, port: int)
    | Publish(hostname: string, filename: string)
    | Fetch(hostname: string, filename: string)
    | Discover(hostname: string)
    | Ping(hostname: string)
    | Unknown

  /** A tracker response. Every constructor but `Failed` carries
      `status: success`; `Failed` carries `status: error` and a message. */
  datatype Response =
    | Done(message: string)
    | Peers(peers: seq<PeerEntry>)
    | Files(hostname: string, files: seq<string>)
    | Liveness(hostname: string, alive: bool, lastSeen: int)
    | Failed(message: string)
  {
    /** `response['status'] == 'success'` */
    predicate IsSuccess() {
      !Failed?
    }

    /** `response.get('message', default)` */
    function MessageOr(default: string): string {
      if Done? || Failed? then message else default
    }
  }

  /** What one `recv` on a tracker connection yields.
      `Closed` is the empty read; `Undecodable` is a payload that is not JSON;
      `Unhandled` is a payload whose handling raises outside the JSON guard
      (JSON that is not an object, or bytes that are not UTF-8); `Message`
      is a decoded request, handled at clock reading `now`. */
  datatype Frame =
    | Closed
    | Undecodable
    | Unhandled
    | Message(request: Request, now: int)

  /** How a request/response exchange over a fresh socket can end, as seen by
      the side that sent the request: the connection could not be opened
      (nothing was sent), the reply could not be read or decoded (the request
      was sent), or a decoded reply arrived. */
  datatype Reply<R> =
    | Unreachable(reason: string)
    | Garbled(reason: string)
    | Answer(response: R)
  {
    /** Whether the request reached the other side's socket. */
    predicate RequestSent() {
      !Unreachable?
    }
  }

}
