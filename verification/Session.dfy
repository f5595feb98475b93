/**
 One MQTT session as a state machine over frames. `MqttServer` is proved to follow these functions;
 what they keep over whole runs is proved in `SessionRuns`.
 */
module Session {
  import opened Bytes
  import opened SocketErrors
  import opened Protocol
  import opened PacketReader
  import opened Framing
  import opened Connect

  datatype Status = New | Connected | Disconnecting

  /** What one handler call does to the registry that all sessions share. */
  datatype RegistryOp = Keep | Insert(key: ByteString) | Erase(key: ByteString)

  /**
   What a session cannot foresee: the JSON library, the result of its n-th `Send`, and whether that send, if it
   fails, finds the connection gone.
   */
  datatype Env = Env(json: JsonLookup, sendResult: nat -> int, drops: nat -> bool)

  datatype LogEntry =
    | Handled(frame: Frame, before: Status)
    | Pushed(bytes: ByteString)

  datatype Sent = Sent(bytes: ByteString, err: int)

  /**
   `status`, `clientId`, `header`, `timeout` and `msgList` are the fields of the object, and `dropped` is the
   socket's knowledge that a send found the connection gone. The rest is history: frames handled and messages
   pushed, everything produced with the result of its `Send`, what the socket took, and how many queued messages
   the write event has taken off unsent.
   */
  datatype Session = Session(
    status: Status, clientId: ByteString, header: Header, timeout: int, msgList: seq<ByteString>, dropped: bool,
    log: seq<LogEntry>, produced: seq<Sent>, accepted: seq<ByteString>, discarded: nat)

  datatype Effect = Effect(session: Session, op: RegistryOp, rc: int)

  datatype Outcome = Outcome(session: Session, ops: seq<RegistryOp>, rc: int)

  const PINGRESP_BYTES: ByteString := [PINGRESP, 0]

  function ConnackBytes(code: Byte): ByteString {
    [CONNACK, 2, 0, code]
  }

  function FreshSession(header: Header, timeout: int): Session {
    Session(New, [], header, timeout, [], false, [], [], [], 0)
  }

  predicate IsType(f: Frame, messageType: Byte) {
    HighNibble(f.command) == messageType
  }

  /** The session's name in the registry: a device token is twice as long as a user name. */
  function Doubled(user: ByteString): ByteString {
    user + user
  }

  /** The return code that the CONNACK carries. */
  function ConnackCode(v: Verdict): Byte {
    match v
    case NoName => MQTT_ERR_PROTOCOL
    case EmptyName => MQTT_ERR_PROTOCOL
    case WrongName => MQTT_ERR_PROTOCOL
    case NoHeader => MQTT_ERR_INVAL
    case BadJson => MQTT_ERR_INVAL
    case BadUser(_) => MQTT_ERR_CONN_REFUSED
    case Accepted(_, _) => MQTT_ERR_SUCCESS
  }

  /** What the handler returns for a refused CONNECT. */
  function RefusalCode(v: Verdict): int {
    if v.NoName? || v.NoHeader? then 1 else if v.EmptyName? then 3 else MQTT_ERR_PROTOCOL
  }

  /** The raw user name is stored before its length is checked. */
  function ClientIdAfter(v: Verdict, before: ByteString): ByteString {
    match v
    case BadUser(user) => user
    case Accepted(_, user) => Doubled(user)
    case _ => before
  }

  /** A message is handed to the socket once; if the socket does not take it, it is queued. */
  function Send(s: Session, bytes: ByteString, env: Env): Session {
    var n := |s.produced|;
    var err := env.sendResult(n);
    var t := s.(produced := s.produced + [Sent(bytes, err)]);
    if err == NO_ERROR then t.(accepted := s.accepted + [bytes])
    else t.(msgList := s.msgList + [bytes], dropped := s.dropped || env.drops(n))
  }

  function NextSendResult(s: Session, env: Env): int {
    env.sendResult(|s.produced|)
  }

  function Handle(s: Session, f: Frame, env: Env): Effect {
    Route(s.(log := s.log + [Handled(f, s.status)]), f, env)
  }

  function Route(s: Session, f: Frame, env: Env): Effect {
    if IsType(f, PINGREQ) then Effect(Send(s, PINGRESP_BYTES, env), Keep, NextSendResult(s, env))
    else if IsType(f, CONNECT) then TakeConnect(s, f.payload, env)
    else if IsType(f, DISCONNECT)
    then Effect(s.(status := Disconnecting, timeout := 1), Erase(s.clientId), MQTT_ERR_SUCCESS)
    else Effect(s, Keep, MQTT_ERR_PROTOCOL)
  }

  function TakeConnect(s: Session, payload: ByteString, env: Env): Effect {
    if !s.status.New? then Effect(s.(timeout := 1), Erase(s.clientId), MQTT_ERR_PROTOCOL)
    else Conclude(s.(header := Overlay(s.header, payload)), Judge(payload, env.json), env)
  }

  function Conclude(s: Session, v: Verdict, env: Env): Effect {
    var id := ClientIdAfter(v, s.clientId);
    var t := Send(s.(clientId := id), ConnackBytes(ConnackCode(v)), env);
    if v.Accepted?
    then Effect(t.(status := Connected, timeout := v.keepAlive * 2000), Insert(id), NextSendResult(s, env))
    else Effect(t.(timeout := 1), Erase(id), RefusalCode(v))
  }

  /** Nothing but a CONNECT reaches the handlers of a session that is still new. */
  function Receive(s: Session, f: Frame, env: Env): Effect {
    if s.status.New? && !IsType(f, CONNECT) then Effect(s, Keep, MQTT_ERR_PROTOCOL) else Handle(s, f, env)
  }

  /** The first frame of a buffer; a malformed header is refused before anything is handled. */
  function ReceiveBytes(s: Session, b: ByteString, env: Env): Effect
    requires b != []
  {
    match ParseFrame(b)
    case Malformed => Effect(s, Keep, MQTT_ERR_PROTOCOL)
    case Partial(f) => Receive(s, f, env)
    case Whole(f, _) => Receive(s, f, env)
  }

  /** The frames of one buffer, one after the other, until one of them is not handled successfully. */
  function Play(s: Session, x: Stream, env: Env): Outcome
    decreases |x.frames|
  {
    if x.frames == [] then Outcome(s, [], if x.ending.Broken? then MQTT_ERR_PROTOCOL else MQTT_ERR_SUCCESS)
    else
      var e := Receive(s, x.frames[0], env);
      if e.rc != MQTT_ERR_SUCCESS then Outcome(e.session, [e.op], e.rc)
      else Resume(e, Play(e.session, Stream(x.frames[1..], x.ending), env))
  }

  function Resume(e: Effect, later: Outcome): Outcome {
    Outcome(later.session, [e.op] + later.ops, later.rc)
  }

  // ---------- PUBLISH, pushed by a provider ----------

  /** Bit `i` of a two's complement integer. */
  function Bit(n: int, i: nat): (b: int)
    ensures 0 <= b <= 1
    decreases i
  {
    if i == 0 then n % 2 else Bit(n / 2, i - 1)
  }

  /** `PUBLISH | (dup << 3) | (qos << 1)`, kept in one byte. */
  function PublishCommand(dup: bool, qos: int): Byte {
    2 * Bit(qos, 0) + 4 * Bit(qos, 1) + (if dup || Bit(qos, 2) == 1 then 8 else 0)
    + 0x30 + 64 * Bit(qos, 5) + 128 * Bit(qos, 6)
  }

  /** The length of message id and body goes into a single byte. */
  function PublishFrame(mid: Word, body: ByteString, qos: int, dup: bool): ByteString {
    [PublishCommand(dup, qos), (|body| + 2) % 0x100] + WriteWord(mid) + body
  }

  function Push(s: Session, bytes: ByteString, env: Env): Session {
    Send(s.(log := s.log + [Pushed(bytes)]), bytes, env)
  }

  /** The write event takes the head off the queue; the call that would send it is not there. */
  function DropQueued(s: Session): Session {
    if s.msgList == [] then s else s.(msgList := s.msgList[1..], discarded := s.discarded + 1)
  }
}
