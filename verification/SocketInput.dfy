/** What a session's socket has to offer, and what one wake-up of the session makes of it. */
module SocketInput {
  import opened Bytes
  import opened Protocol
  import opened Framing
  import opened Session

  /** What the next reads will meet: bytes that are there, nothing for now, or the end of the connection. */
  datatype Ready = Data(bytes: ByteString) | Again | Gone(err: int)

  /** The rest of the input, and whether the socket is still connected. */
  datatype Input = Input(script: seq<Ready>, live: bool)

  datatype Served = Served(session: Session, ops: seq<RegistryOp>, input: Input)

  /** The request buffer, and the largest chunk that `ReadRequest` reports as a request. */
  const BUFFER_SIZE := 2048
  const DUMP_SIZE := 2000

  function Weight(script: seq<Ready>): nat {
    if script == [] then 0
    else (if script[0].Data? then 1 + |script[0].bytes| else 1) + Weight(script[1..])
  }

  /** The script after a read of at most `n` of the bytes that are there. */
  function Rest(script: seq<Ready>, n: nat): (r: seq<Ready>)
    requires script != [] && script[0].Data? && n > 0
    ensures Weight(r) < Weight(script)
  {
    var b := script[0].bytes;
    if |b| <= n then script[1..]
    else
      var r := [Data(b[n..])] + script[1..];
      assert r[1..] == script[1..];
      r
  }

  /** Everything that is there now is thrown away; without a connection nothing is read. */
  function Drain(input: Input): (r: Input)
    ensures Weight(r.script) <= Weight(input.script)
    decreases |input.script|
  {
    if !input.live || input.script == [] then input
    else
      match input.script[0]
      case Data(_) => Drain(input.(script := input.script[1..]))
      case Again => input.(script := input.script[1..])
      case Gone(_) => Input(input.script[1..], false)
  }

  lemma DrainRest(input: Input, n: nat)
    requires input.live && input.script != [] && input.script[0].Data? && n > 0
    ensures Drain(input.(script := Rest(input.script, n))) == Drain(input)
  {}

  /** A send of the session may have found the connection gone. */
  function SeenBy(input: Input, s: Session): Input {
    input.(live := input.live && !s.dropped)
  }

  /** The read event of one wake-up: chunk after chunk until nothing is there. A chunk that fills the buffer is lost. */
  function Serve(s: Session, input: Input, env: Env): Served
    decreases Weight(input.script)
  {
    if !input.live || input.script == [] then Served(s, [], input)
    else
      var tail := input.(script := input.script[1..]);
      match input.script[0]
      case Again => Served(s, [], tail)
      case Gone(_) => Served(s, [], tail.(live := false))
      case Data(b) =>
        if |b| >= BUFFER_SIZE - 1 then Serve(s, input.(script := Rest(input.script, BUFFER_SIZE - 1)), env)
        else
          var o := Play(s, Split(b), env);
          var next := SeenBy(tail, o.session);
          After(o.ops, Serve(o.session, if o.rc == MQTT_ERR_SUCCESS then next else Drain(next), env))
  }

  function After(ops: seq<RegistryOp>, later: Served): Served {
    later.(ops := ops + later.ops)
  }
}
