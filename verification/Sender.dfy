/**
 The outbound side of an APNs client as a state machine: a queue of messages, and a socket whose send buffer
 holds the message that is being written. `SslTcpClient` is proved to follow these functions; what they keep
 over whole runs is proved in `SenderRuns`.
 */
module Sender {
  import opened Bytes
  import opened SocketErrors

  datatype Status = Offline | Connecting | Online

  datatype Timer = Initial | KeepAlive | Reconnect | Never

  /** One attempt to write: an error, how many bytes went out before it, and whether it ends the connection. */
  datatype Flush = Flush(err: int, count: nat, drops: bool)

  /**
   One socket object: how many messages had been completed when it was made, the part of its send buffer that
   is written and the rest of it, all the bytes that it has taken since, and whether it has a connection now.
   */
  datatype Link = Link(first: nat, written: ByteString, rest: ByteString, accepted: ByteString, connected: bool)

  /**
   One connection to the peer: how many messages had been completed when it was opened, how much of the head
   was then in the send buffer as written already, and the bytes that this connection has carried.
   */
  datatype Conn = Conn(first: nat, skipped: ByteString, bytes: ByteString)

  /**
   `queued` and `signalled` are the reconnect request: the place in the pool's queue and the pool's event.
   `enqueued`, `completed`, `past` and `conns` are history: all messages ever queued, those taken off the
   queue, the sockets that were thrown away, and all connections, of which the last may still be open.
   */
  datatype Outbound = Outbound(
    queue: seq<ByteString>, link: Link, status: Status, timer: Timer,
    notified: bool, queued: bool, signalled: bool,
    enqueued: seq<ByteString>, completed: seq<ByteString>, past: seq<Link>, conns: seq<Conn>)

  function NewLink(first: nat): Link {
    Link(first, [], [], [], false)
  }

  const START := Outbound([], NewLink(0), Offline, Initial, false, false, false, [], [], [], [])

  function Buffer(l: Link): ByteString {
    l.written + l.rest
  }

  /** A message is copied into the send buffer only when that is empty. */
  function Fill(l: Link, message: ByteString): Link {
    if Buffer(l) == [] then l.(rest := message) else l
  }

  /** Without a connection nothing is written, and the attempt fails. */
  function WriteError(l: Link, f: Flush): int {
    if l.connected then f.err else ENOTCONN
  }

  /** The bytes that go out: on success the whole rest, otherwise a part of it. */
  function Sends(l: Link, f: Flush): ByteString {
    if !l.connected then []
    else if f.err == NO_ERROR then l.rest
    else l.rest[..if f.count < |l.rest| then f.count else |l.rest|]
  }

  /** After a success the send buffer is empty again. */
  function WriteOut(l: Link, f: Flush): Link {
    var out := Sends(l, f);
    if WriteError(l, f) == NO_ERROR then l.(written := [], rest := [], accepted := l.accepted + out)
    else
      l.(written := l.written + out, rest := l.rest[|out|..], accepted := l.accepted + out,
         connected := l.connected && !f.drops)
  }

  /** What goes out goes out on the last connection. */
  function Carry(conns: seq<Conn>, out: ByteString): seq<Conn> {
    if conns == [] then conns
    else
      var last := conns[|conns| - 1];
      conns[..|conns| - 1] + [last.(bytes := last.bytes + out)]
  }

  function Enqueue(v: Outbound, message: ByteString): Outbound {
    v.(queue := v.queue + [message], enqueued := v.enqueued + [message], notified := true)
  }

  function RequestConnect(v: Outbound): Outbound {
    v.(queued := true, signalled := true)
  }

  function TrySend(v: Outbound, f: Flush): Outbound {
    if v.queue == [] then v
    else
      var l := Fill(v.link, v.queue[0]);
      var w := v.(link := WriteOut(l, f), conns := if l.connected then Carry(v.conns, Sends(l, f)) else v.conns);
      if WriteError(l, f) == NO_ERROR
      then w.(queue := v.queue[1..], completed := v.completed + [v.queue[0]], notified := v.notified || |v.queue| > 1)
      else RequestConnect(w)
  }

  /** The socket and its send buffer go; the queue stays. */
  function Timeout(v: Outbound): Outbound {
    v.(timer := KeepAlive, status := Offline, past := v.past + [v.link], link := NewLink(|v.completed|))
  }

  function GoOffline(v: Outbound): Outbound {
    v.(status := Offline, timer := Never)
  }

  function GoConnecting(v: Outbound): Outbound {
    if v.status.Connecting? then v else v.(status := Connecting, timer := Reconnect)
  }

  function GoOnline(v: Outbound): Outbound {
    v.(status := Online, timer := KeepAlive)
  }

  /** The socket loses its connection; the client learns of it later, or never. */
  function Lose(v: Outbound): Outbound {
    v.(link := v.link.(connected := false))
  }

  /** A new connection of the same socket object: the send buffer stays as it is. */
  function Connect(v: Outbound): Outbound {
    v.(link := v.link.(connected := true), conns := v.conns + [Conn(|v.completed|, v.link.written, [])])
  }

  /** The pool's task, as far as this client goes. Any event clears them all, and a database event goes first. */
  function PoolRun(v: Outbound, lcsEvent: bool, connected: bool): Outbound {
    var w := v.(signalled := false);
    if lcsEvent || !v.signalled || !v.queued then w
    else if !v.status.Offline? then w.(queued := false)
    else if connected then GoOnline(Connect(w)).(queued := false, notified := true)
    else Lose(w)
  }

  datatype Event =
    | Publish(message: ByteString)
    | SendEvent(flush: Flush)
    | TimeoutEvent(advance: bool)
    | ConnectionLost
    | Disconnected
    | ConnectStarted
    | ConnectDone
    | PoolEvent(lcs: bool, connected: bool)

  /** The send event is taken before the client acts on it; the advance client reconnects after a timeout. */
  function Step(v: Outbound, e: Event): Outbound {
    match e
    case Publish(message) => Enqueue(v, message)
    case SendEvent(f) => TrySend(v.(notified := false), f)
    case TimeoutEvent(advance) => if advance then RequestConnect(Timeout(v)) else Timeout(v)
    case ConnectionLost => Lose(v)
    case Disconnected => GoOffline(v)
    case ConnectStarted => GoConnecting(v)
    case ConnectDone => v.(timer := KeepAlive)
    case PoolEvent(lcs, connected) => PoolRun(v, lcs, connected)
  }
}
