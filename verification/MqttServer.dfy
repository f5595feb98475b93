/** The MQTT session object: its handlers, its receive loop and `Run`. */
module Server {
  import opened Bytes
  import opened SocketErrors
  import opened Protocol
  import opened RemainingLength
  import opened PacketReader
  import opened Packet
  import opened Framing
  import opened Connect
  import opened Session
  import opened SessionHandler
  import opened SessionRuns
  import opened SocketInput

  datatype ReadResult = NoData | RequestArrived | TooBig | Failed(err: int)

  datatype Events = Events(read: bool, write: bool, zmq: bool, timeout: bool, kill: bool)

  /** Why a CONNECT header is refused: the code for the CONNACK and the value that the handler returns. */
  datatype Refusal = None | Refusal(connack: Byte, rc: int)

  function CheckName(wasRead: bool, name: ByteString): Refusal {
    if !wasRead then Refusal(MQTT_ERR_PROTOCOL, 1)
    else if name == [] then Refusal(MQTT_ERR_PROTOCOL, 3)
    else if !IsProtocolName(name) then Refusal(MQTT_ERR_PROTOCOL, MQTT_ERR_PROTOCOL)
    else Refusal.None
  }

  function HeaderRefusal(v: Verdict): Refusal {
    if v.BadJson? || v.BadUser? || v.Accepted? then Refusal.None else Refusal(ConnackCode(v), RefusalCode(v))
  }

  /** The refusal of a header, by the stages in which it is read. */
  lemma RefusalByStages(p: ByteString, json: JsonLookup)
    ensures var first := Read(p, String);
            HeaderRefusal(Judge(p, json)) ==
            match first.item
            case None => CheckName(false, [])
            case Some(i) =>
              if CheckName(true, i.t).Refusal? then CheckName(true, i.t)
              else if |first.rest| < 4 then Refusal(MQTT_ERR_INVAL, 1)
              else Refusal.None
  {}

  /** Every entry of the registry is a connected session of that name, a user name written twice. */
  ghost predicate Consistent(r: MqttSessionHandler<MqttServer>)
    reads r, r.sessions.Values
  {
    forall k :: k in r.sessions ==>
      r.sessions[k].connectStatus == Connected && r.sessions[k].clientId == k && IsToken(k)
  }

  class MqttServer {
    const env: Env
    const registry: MqttSessionHandler<MqttServer>

    var connectStatus: Status
    var protocolName: Text
    var protocolVersion: Byte
    var flag: Byte
    var keepAlive: Word
    var clientId: ByteString
    var timeout: int
    var fMsgList: seq<ByteString>
    var writeSignalled: bool

    // The socket, a member by value: what it was given, what it took, and what it has to offer.
    var produced: seq<Sent>
    var accepted: seq<ByteString>
    var script: seq<Ready>
    var live: bool
    var dropped: bool

    // The input stream, a member by value.
    const fRequestBuffer: array<Byte>
    var fCurOffset: nat

    var fObjectHolders: nat

    ghost var log: seq<LogEntry>
    ghost var discarded: nat

    ghost predicate Valid()
      reads this
    {
      fRequestBuffer.Length == BUFFER_SIZE && fCurOffset < BUFFER_SIZE
    }

    ghost function ConnectHeader(): Header
      reads this
    {
      Header(protocolName, protocolVersion, flag, keepAlive)
    }

    ghost function View(): Session
      reads this
    {
      Session(connectStatus, clientId, ConnectHeader(), timeout, fMsgList, dropped,
              log, produced, accepted, discarded)
    }

    predicate IsLiveSession()
      reads this
    {
      live && !dropped
    }

    ghost function Pending(): Input
      reads this
    {
      Input(script, IsLiveSession())
    }

    constructor (env: Env, registry: MqttSessionHandler<MqttServer>, header: Header, timeout: int, script: seq<Ready>)
      ensures Valid() && this.env == env && this.registry == registry && fresh(fRequestBuffer)
      ensures View() == FreshSession(header, timeout) && Pending() == Input(script, true) && !writeSignalled
    {
      this.env, this.registry := env, registry;
      connectStatus, clientId, fMsgList, writeSignalled := New, [], [], false;
      protocolName, protocolVersion, flag, keepAlive := header.name, header.version, header.flags, header.keepAlive;
      this.timeout, this.script, live, dropped := timeout, script, true, false;
      produced, accepted, log, discarded := [], [], [], 0;
      fRequestBuffer := new Byte[BUFFER_SIZE];
      fCurOffset, fObjectHolders := 0, 0;
    }

    // ---------- output ----------

    /** `Socket::Send`, and the queueing that every caller does when the socket does not take the message. */
    method SendOrQueue(buf: ByteString) returns (err: int)
      modifies this`produced, this`accepted, this`fMsgList, this`dropped
      ensures View() == Send(old(View()), buf, env) && err == NextSendResult(old(View()), env)
      ensures Produces(old(View()), View(), buf, err)
    {
      var n := |produced|;
      err := env.sendResult(n);
      produced := produced + [Sent(buf, err)];
      if err != NO_ERROR {
        fMsgList := fMsgList + [buf];
        dropped := dropped || env.drops(n);
      } else {
        accepted := accepted + [buf];
      }
    }

    method SendConnack(result: Byte) returns (err: int)
      modifies this`produced, this`accepted, this`fMsgList, this`dropped
      ensures View() == Send(old(View()), ConnackBytes(result), env) && err == NextSendResult(old(View()), env)
      ensures exists m :: ReadsAsConnack(m, result) && Produces(old(View()), View(), m, err)
    {
      ConnackReads(result);
      err := SendOrQueue([CONNACK, 2, 0, result]);
      assert ReadsAsConnack([CONNACK, 2, 0, result], result);
    }

    /** `buf` has room for 2048 bytes, four of which precede the payload. */
    method SendPublish(mid: Word, payload: ByteString, qos: int, dup: bool) returns (err: int)
      requires |payload| <= 2044
      modifies this`produced, this`accepted, this`fMsgList, this`dropped, this`log
      ensures View() == Push(old(View()), PublishFrame(mid, payload, qos, dup), env)
      ensures err == NextSendResult(old(View()), env)
      ensures exists m :: IsPublishOf(m, mid, payload, qos, dup) && PushesTo(old(View()), View(), m, err)
    {
      var buf := new Byte[2048];
      var pos := 0;
      buf[pos] := PublishCommand(dup, qos);
      pos := pos + 1;
      buf[pos] := (|payload| + 2) % 0x100;
      pos := pos + 1;
      buf[pos] := mid / 0x100;
      pos := pos + 1;
      buf[pos] := mid % 0x100;
      pos := pos + 1;
      forall i | 0 <= i < |payload| {
        buf[pos + i] := payload[i];
      }
      pos := pos + |payload|;
      log := log + [Pushed(buf[..pos])];
      assert buf[..pos] == PublishFrame(mid, payload, qos, dup);
      PublishMeaning(mid, payload, qos, dup);
      err := SendOrQueue(buf[..pos]);
      assert PushesTo(old(View()), View(), buf[..pos], err);
    }

    method ServerDisconnect()
      modifies this`timeout, registry`sessions
      ensures View() == old(View()).(timeout := 1)
      ensures registry.sessions == Apply(old(registry.sessions), Erase(clientId), this)
    {
      var num := registry.DeleteMqttSession(clientId);
      timeout := 1;
    }

    // ---------- handlers ----------

    /** The log is written here; whoever was registered consistently still is. */
    method PacketHandle(packet: MqttPacket) returns (rc: int)
      requires packet.Valid() && packet.pos == 0
      modifies this, registry`sessions, packet`pos
      ensures var e := Handle(old(View()), Frame(old(packet.command), old(packet.Contents())), env);
              View() == e.session && registry.sessions == Apply(old(registry.sessions), e.op, this) && rc == e.rc
      ensures old(Consistent(registry)) ==> Consistent(registry)
      ensures unchanged(`script, `live, `fCurOffset, `writeSignalled, `fObjectHolders)
    {
      ghost var f := Frame(packet.command, packet.Contents());
      ghost var e := Handle(View(), f, env);
      HandleKeepsNames(View(), f, env);
      log := log + [Handled(f, connectStatus)];
      rc := RoutePacket(packet);
      ghost var m := old(registry.sessions);
      forall k | old(Consistent(registry)) && k in registry.sessions
        ensures var s := registry.sessions[k]; s.connectStatus == Connected && s.clientId == k && IsToken(k)
      {
        if k in m && e.op != Insert(k) {
          assert registry.sessions[k] == m[k] && m[k] in m.Values;
        }
      }
    }

    method RoutePacket(packet: MqttPacket) returns (rc: int)
      requires packet.Valid() && packet.pos == 0
      modifies this, registry`sessions, packet`pos
      ensures var e := Route(old(View()), Frame(old(packet.command), old(packet.Contents())), env);
              View() == e.session && registry.sessions == Apply(old(registry.sessions), e.op, this) && rc == e.rc
      ensures unchanged(`script, `live, `fCurOffset, `writeSignalled, `fObjectHolders)
    {
      var messageType := HighNibble(packet.command);
      if messageType == PINGREQ {
        rc := HandlePingreq();
      } else if messageType == CONNECT {
        rc := HandleConnect(packet);
      } else if messageType == DISCONNECT {
        rc := HandleDisconnect();
      } else {
        rc := MQTT_ERR_PROTOCOL;
      }
    }

    method HandlePingreq() returns (err: int)
      modifies this`produced, this`accepted, this`fMsgList, this`dropped
      ensures View() == Send(old(View()), PINGRESP_BYTES, env) && err == NextSendResult(old(View()), env)
      ensures Produces(old(View()), View(), [0xD0, 0], err)
    {
      err := SendOrQueue([PINGRESP, 0]);
    }

    method HandleDisconnect() returns (rc: int)
      modifies this`connectStatus, this`timeout, registry`sessions
      ensures View() == old(View()).(status := Disconnecting, timeout := 1)
      ensures registry.sessions == Apply(old(registry.sessions), Erase(clientId), this) && rc == MQTT_ERR_SUCCESS
    {
      connectStatus := Disconnecting;
      ServerDisconnect();
      rc := MQTT_ERR_SUCCESS;
    }

    /** The refusal `v` of a CONNECT that met the session `s`; the timer may be set already. */
    method RefuseConnect(code: Byte, ghost s: Session, ghost v: Verdict)
      requires !v.Accepted? && code == ConnackCode(v)
      requires View() == s.(clientId := ClientIdAfter(v, s.clientId), timeout := timeout)
      modifies this`produced, this`accepted, this`fMsgList, this`dropped, this`timeout, registry`sessions
      ensures View() == Conclude(s, v, env).session
      ensures registry.sessions == Apply(old(registry.sessions), Conclude(s, v, env).op, this)
    {
      var err := SendConnack(code);
      ServerDisconnect();
    }

    method HandleConnect(packet: MqttPacket) returns (rc: int)
      requires packet.Valid() && packet.pos == 0
      modifies this`connectStatus, this`protocolName, this`protocolVersion, this`flag, this`keepAlive, this`clientId
      modifies this`timeout, this`produced, this`accepted, this`fMsgList, this`dropped, registry`sessions, packet`pos
      ensures var e := TakeConnect(old(View()), old(packet.Contents()), env);
              View() == e.session && registry.sessions == Apply(old(registry.sessions), e.op, this) && rc == e.rc
    {
      if connectStatus != New {
        ServerDisconnect();
        return MQTT_ERR_PROTOCOL;
      }
      var refusal := ReadConnectHeader(packet);
      assert View() == old(View()).(header := Overlay(old(ConnectHeader()), packet.Contents()));
      if refusal.Refusal? {
        RefuseConnect(refusal.connack, View(), Judge(packet.Contents(), env.json));
        rc := refusal.rc;
      } else {
        rc := ConnectUser(packet);
      }
    }

    /** The first half of `mqtt_handle_connect`: the header fields, up to the first that is missing or wrong. */
    method ReadConnectHeader(packet: MqttPacket) returns (refusal: Refusal)
      requires packet.Valid() && packet.pos == 0
      modifies this`protocolName, this`protocolVersion, this`flag, this`keepAlive, packet`pos
      ensures packet.Valid() && ConnectHeader() == Overlay(old(ConnectHeader()), packet.Contents())
      ensures refusal == HeaderRefusal(Judge(packet.Contents(), env.json))
      ensures refusal.None? ==> packet.payload != null
      ensures refusal.None? ==> Judge(packet.Contents(), env.json) == JudgeUser(packet.Unread(), keepAlive, env.json)
    {
      ghost var p := packet.Contents();
      assert packet.Unread() == p;
      refusal := ReadProtocolName(packet);
      assert packet.Contents() == p;
      RefusalByStages(p, env.json);
      if refusal.None? {
        refusal := FinishHeader(packet, old(ConnectHeader()), p);
      }
    }

    /** The header `h` met the payload `p`, of which the protocol name has been read. */
    method FinishHeader(packet: MqttPacket, ghost h: Header, ghost p: ByteString) returns (refusal: Refusal)
      requires packet.Valid() && packet.Contents() == p && packet.Unread() == Read(p, String).rest
      requires Read(p, String).item.Some? && CheckName(true, Read(p, String).item.value.t).None?
      requires ConnectHeader() == h.(name := Read(p, String).item.value.t)
      modifies this`protocolVersion, this`flag, this`keepAlive, packet`pos
      ensures packet.Valid() && packet.Contents() == p && ConnectHeader() == Overlay(h, p)
      ensures refusal == HeaderRefusal(Judge(p, env.json))
      ensures refusal.None? ==> packet.payload != null
      ensures refusal.None? ==> Judge(p, env.json) == JudgeUser(packet.Unread(), keepAlive, env.json)
    {
      RefusalByStages(p, env.json);
      refusal := ReadFixedHeader(packet);
      assert packet.Contents() == p;
    }

    method ReadProtocolName(packet: MqttPacket) returns (refusal: Refusal)
      requires packet.Valid()
      modifies this`protocolName, packet`pos
      ensures packet.Valid() && packet.Unread() == Read(old(packet.Unread()), String).rest
      ensures match Read(old(packet.Unread()), String).item
              case None => protocolName == old(protocolName) && refusal == CheckName(false, [])
              case Some(i) => protocolName == i.t && refusal == CheckName(true, protocolName)
    {
      ghost var item := Read(packet.Unread(), String).item;
      var rc, name := packet.ReadString(protocolName);
      assert item.Some? <==> rc == MQTT_ERR_SUCCESS;
      protocolName := name;
      refusal := CheckName(rc == MQTT_ERR_SUCCESS, protocolName);
    }

    method ReadFixedHeader(packet: MqttPacket) returns (refusal: Refusal)
      requires packet.Valid()
      modifies this`protocolVersion, this`flag, this`keepAlive, packet`pos
      ensures packet.Valid()
      ensures var rest := old(packet.Unread());
              && protocolVersion == (if |rest| >= 1 then rest[0] else old(protocolVersion))
              && flag == (if |rest| >= 2 then rest[1] else old(flag))
              && (if |rest| >= 4 then keepAlive / 0x100 == rest[2] && keepAlive % 0x100 == rest[3]
                  else keepAlive == old(keepAlive))
              && refusal == (if |rest| >= 4 then Refusal.None else Refusal(MQTT_ERR_INVAL, 1))
              && (|rest| >= 4 ==> packet.Unread() == rest[4..])
    {
      refusal := Refusal(MQTT_ERR_INVAL, 1);
      var rc;
      rc, protocolVersion := packet.ReadUint8(protocolVersion);
      if rc != MQTT_ERR_SUCCESS {
        return;
      }
      rc, flag := packet.ReadUint8(flag);
      if rc != MQTT_ERR_SUCCESS {
        return;
      }
      rc, keepAlive := packet.ReadUint16(keepAlive);
      if rc == MQTT_ERR_SUCCESS {
        refusal := Refusal.None;
      }
    }

    /** The second half: the JSON text, the user name in it, and the registration. */
    method ConnectUser(packet: MqttPacket) returns (rc: int)
      requires packet.Valid() && packet.payload != null
      modifies this`connectStatus, this`clientId
      modifies this`timeout, this`produced, this`accepted, this`fMsgList, this`dropped, registry`sessions
      ensures var e := Conclude(old(View()), JudgeUser(old(packet.Unread()), keepAlive, env.json), env);
              View() == e.session && registry.sessions == Apply(old(registry.sessions), e.op, this) && rc == e.rc
      ensures match env.json(old(packet.Unread()))
              case None => clientId == old(clientId)
              case Some(user) =>
                if |user| != 16 then clientId == user else |clientId| == 32 && clientId[..16] == clientId[16..] == user
    {
      timeout := keepAlive * 2000;
      var input := packet.GetJsonMsg();
      var root := env.json(input);
      if root.None? {
        RefuseConnect(MQTT_ERR_INVAL, old(View()), BadJson);
        return MQTT_ERR_PROTOCOL;
      }
      clientId := root.value;
      if |clientId| != USERNAME_LENGTH {
        RefuseConnect(MQTT_ERR_CONN_REFUSED, old(View()), BadUser(clientId));
        return MQTT_ERR_PROTOCOL;
      }
      clientId := clientId + root.value;
      assert clientId[..16] == clientId[16..] == root.value;
      rc := AcceptConnect(old(View()), root.value);
    }

    /** The acceptance of a CONNECT that met the session `s`. */
    method AcceptConnect(ghost s: Session, ghost user: ByteString) returns (rc: int)
      requires View() == s.(clientId := Doubled(user), timeout := keepAlive * 2000)
      modifies this`connectStatus
      modifies this`produced, this`accepted, this`fMsgList, this`dropped, registry`sessions
      ensures var e := Conclude(s, Accepted(keepAlive, user), env);
              View() == e.session && registry.sessions == Apply(old(registry.sessions), e.op, this) && rc == e.rc
    {
      connectStatus := Connected;
      var inserted := registry.AddMqttSession(clientId, this);
      rc := SendConnack(MQTT_ERR_SUCCESS);
    }

    // ---------- framing ----------

    /** The do-while loop over the Remaining Length bytes, with the 32-bit accumulators of the source. */
    method ReadRemainingLength(pBuffer: array<Byte>, nLen: int) returns (tooLong: bool, count: nat, length: nat)
      requires 0 < nLen < pBuffer.Length
      ensures tooLong <==> ParseFrame(pBuffer[..nLen]).Malformed?
      ensures !tooLong ==>
                var r := ParseFrame(pBuffer[..nLen]);
                && 1 <= count <= MAX_LENGTH_BYTES && length <= MAX_LENGTH
                && (r.Whole? <==> length + count + 1 <= nLen)
                && (r.Whole? ==> r.size == length + count + 1 &&
                                 r.frame.payload == pBuffer[count + 1..count + 1 + length % 0x1_0000])
    {
      tooLong, count, length := false, 0, 0;
      var mult := 1;
      var buf := 1;
      var more := true;
      ghost var a := pBuffer[..];
      assert a[..nLen] == pBuffer[..nLen];
      while more
        invariant buf == count + 1 && count <= MAX_LENGTH_BYTES && count <= nLen
        invariant mult == Pow128(count) && length == Base128(a[1..count + 1])
        invariant forall i :: 1 <= i < count ==> a[i] >= 128
        invariant more ==> buf <= nLen && (count > 0 ==> a[count] >= 128)
        invariant !more ==> count > 0 && (a[count] < 128 || count == nLen)
        decreases MAX_LENGTH_BYTES - count, more
      {
        if count + 1 > MAX_LENGTH_BYTES {
          HeaderTooLong(a, nLen);
          tooLong := true;
          return;
        }
        DigitRead(a, count);
        count := count + 1;
        length := ToUint32(length + pBuffer[buf] % 128 * mult);
        mult := ToUint32(mult * 128);
        more := pBuffer[buf] >= 128 && buf + 1 <= nLen;
        buf := buf + 1;
      }
      HeaderRead(a, nLen, count);
      LengthFits(a[1..count + 1]);
    }

    /**
     One frame: header, payload copied out, dispatch, and then the rest of the buffer moved to its front.
     The result depends on the received bytes only; `left` says how many of them remain, and is negative
     after a frame that the buffer cut short.
     */
    method ProcessRecvMsg(pBuffer: array?<Byte>, nLen: int) returns (rc: int, left: int)
      requires 0 <= nLen < 0x8000_0000
      requires pBuffer != null ==> nLen < pBuffer.Length
      modifies this, registry`sessions, pBuffer
      ensures unchanged(`script, `live, `fCurOffset, `writeSignalled, `fObjectHolders)
      ensures pBuffer == null || nLen == 0 ==>
                rc == MQTT_ERR_PROTOCOL && left == nLen && View() == old(View()) && unchanged(registry)
      ensures pBuffer != null && nLen > 0 ==>
                var b := old(pBuffer[..nLen]);
                var e := ReceiveBytes(old(View()), b, env);
                && View() == e.session && registry.sessions == Apply(old(registry.sessions), e.op, this) && rc == e.rc
                && (rc == MQTT_ERR_SUCCESS ==>
                      if ParseFrame(b).Whole? then left == nLen - ParseFrame(b).size else left < 0)
                && (rc != MQTT_ERR_SUCCESS ==> left == nLen)
                && (0 <= left ==> pBuffer[..left] == b[nLen - left..])
      ensures old(Consistent(registry)) ==> Consistent(registry)
      ensures pBuffer != null ==> forall i :: nLen <= i < pBuffer.Length ==> pBuffer[i] == old(pBuffer[i])
      ensures pBuffer != null && 0 < left < nLen ==> forall i :: left <= i < nLen ==> pBuffer[i] == 0
      ensures pBuffer != null && !(0 < left < nLen) ==> unchanged(pBuffer)
    {
      left := nLen;
      if pBuffer == null || nLen == 0 {
        return MQTT_ERR_PROTOCOL, nLen;
      }
      var buf, size;
      rc, buf, size := Dispatch(pBuffer, nLen);
      if rc == MQTT_ERR_SUCCESS {
        left := Consume(pBuffer, nLen, buf, size);
      }
    }

    /** The part of `ProcessRecvMsg` that leaves the buffer alone. */
    method Dispatch(pBuffer: array<Byte>, nLen: int) returns (rc: int, buf: nat, size: nat)
      requires 0 < nLen < pBuffer.Length && nLen < 0x8000_0000
      modifies this, registry`sessions
      ensures unchanged(`script, `live, `fCurOffset, `writeSignalled, `fObjectHolders)
      ensures var e := ReceiveBytes(old(View()), pBuffer[..nLen], env);
              View() == e.session && registry.sessions == Apply(old(registry.sessions), e.op, this) && rc == e.rc
      ensures old(Consistent(registry)) ==> Consistent(registry)
      ensures rc == MQTT_ERR_SUCCESS ==>
                match ParseFrame(pBuffer[..nLen])
                case Malformed => false
                case Partial(_) => nLen < size < 0x8000_0000
                case Whole(_, n) => size == buf == n
    {
      buf, size := 0, 0;
      if connectStatus == New && HighNibble(pBuffer[0]) != CONNECT {
        return MQTT_ERR_PROTOCOL, 0, 0;
      }
      var tooLong, packet;
      tooLong, packet, buf, size := ReadFrame(pBuffer, nLen);
      if tooLong {
        return MQTT_ERR_PROTOCOL, 0, 0;
      }
      ghost var f := Frame(packet.command, packet.Contents());
      assert ReceiveBytes(View(), pBuffer[..nLen], env) == Handle(View(), f, env);
      rc := PacketHandle(packet);
    }

    /** The packet that goes to the handlers; `size` is what its header says it takes, `buf` where it ends. */
    method ReadFrame(pBuffer: array<Byte>, nLen: int) returns (tooLong: bool, packet: MqttPacket, buf: nat, size: nat)
      requires 0 < nLen < pBuffer.Length && nLen < 0x8000_0000
      ensures fresh(packet) && packet.Valid() && packet.pos == 0
      ensures tooLong <==> ParseFrame(pBuffer[..nLen]).Malformed?
      ensures match ParseFrame(pBuffer[..nLen])
              case Malformed => true
              case Partial(f) => nLen < size <= MAX_LENGTH + 5 && f == Frame(packet.command, packet.Contents())
              case Whole(f, n) => size == buf == n && f == Frame(packet.command, packet.Contents())
    {
      packet := new MqttPacket();
      var previous := packet.SetCommand(pBuffer[0]);
      var remainingCount, remainingLength;
      tooLong, remainingCount, remainingLength := ReadRemainingLength(pBuffer, nLen);
      buf := remainingCount + 1;
      size := remainingLength + remainingCount + 1;
      SmallUint32(nLen);
      SmallUint32(if tooLong then 0 else size);
      ghost var r := ParseFrame(pBuffer[..nLen]);
      if !tooLong && remainingLength > 0 && ToUint32(size) <= ToUint32(nLen) {
        packet.SetReceivePayload(pBuffer, buf, remainingLength);
        buf := buf + remainingLength;
      }
      assert r.Whole? ==> buf == size && packet.Contents() == r.frame.payload;
      assert r.Partial? ==> packet.Contents() == [] == r.frame.payload;
    }

    /** Takes the frame off the buffer: `memmove` of the bytes behind it, `memset` of the bytes they leave. */
    static method Consume(pBuffer: array<Byte>, nLen: int, buf: nat, size: nat) returns (left: int)
      requires 0 < nLen < pBuffer.Length && nLen < 0x8000_0000
      requires 0 < size < 0x8000_0000 && (size <= nLen ==> buf == size)
      modifies pBuffer
      ensures left == nLen - size
      ensures 0 <= left ==> pBuffer[..left] == old(pBuffer[size..nLen])
      ensures 0 < left ==> forall i :: left <= i < nLen ==> pBuffer[i] == 0
      ensures forall i :: nLen <= i < pBuffer.Length ==> pBuffer[i] == old(pBuffer[i])
      ensures left <= 0 ==> unchanged(pBuffer)
    {
      left := ToInt32(ToUint32(nLen) - size);
      SmallInt32(nLen - size);
      if left > 0 {
        ghost var rest := pBuffer[size..nLen];
        forall i | 0 <= i < left {
          pBuffer[i] := pBuffer[buf + i];
        }
        assert forall i :: 0 <= i < left ==> pBuffer[i] == rest[i];
        forall i | left <= i < nLen {
          pBuffer[i] := 0;
        }
        assert forall i :: 0 <= i < left ==> pBuffer[i] == rest[i];
      }
    }

    // ---------- Task::Run ----------

    /** The inner loop of `Run`: frame after frame off the front of the same buffer. */
    method ProcessRequest(pBuffer: array<Byte>, length: int) returns (err: int, nLen: int)
      requires 0 <= length < pBuffer.Length && length < 0x8000_0000
      modifies this, registry`sessions, pBuffer
      ensures err == NO_ERROR ==>
                var x := Split(old(pBuffer[..length]));
                nLen <= 0 && (nLen == 0 <==> x.ending == Consumed) && (nLen < 0 <==> x.ending == CutShort)
      ensures var o := Play(old(View()), Split(old(pBuffer[..length])), env);
              && View() == o.session && err == o.rc
              && registry.sessions == ApplyAll(old(registry.sessions), o.ops, this)
      ensures old(Consistent(registry)) ==> Consistent(registry)
      ensures unchanged(`script, `live, `fCurOffset, `writeSignalled, `fObjectHolders)
    {
      err, nLen := NO_ERROR, length;
      ghost var ending := Split(pBuffer[..length]).ending;
      ghost var o := Play(View(), Split(pBuffer[..length]), env);
      ghost var m := ApplyAll(registry.sessions, o.ops, this);
      while err == NO_ERROR && nLen > 0
        invariant nLen <= length
        invariant err == NO_ERROR ==> ending == EndingOf(pBuffer, nLen)
        invariant old(Consistent(registry)) ==> Consistent(registry)
        invariant unchanged(`script, `live, `fCurOffset, `writeSignalled, `fObjectHolders)
        invariant err == NO_ERROR && nLen > 0 ==>
                    Leads(View(), Split(pBuffer[..nLen]), o, m)
        invariant err == NO_ERROR && nLen <= 0 ==> Leads(View(), Stream([], Consumed), o, m)
        invariant err != NO_ERROR ==> View() == o.session && err == o.rc && registry.sessions == m
        decreases err == NO_ERROR, nLen
      {
        err, nLen := NextFrame(pBuffer, nLen, o, m);
      }
    }

    /** How a buffer ends of which `nLen` bytes are left; a frame that was cut short has left less than none. */
    static ghost function EndingOf(pBuffer: array<Byte>, nLen: int): Ending
      requires nLen <= pBuffer.Length
      reads pBuffer
    {
      if nLen > 0 then Split(pBuffer[..nLen]).ending else if nLen == 0 then Consumed else CutShort
    }

    method NextFrame(pBuffer: array<Byte>, nLen: int, ghost o: Outcome, ghost m: map<ByteString, MqttServer>)
      returns (err: int, left: int)
      requires 0 < nLen < pBuffer.Length && nLen < 0x8000_0000
      requires Leads(View(), Split(pBuffer[..nLen]), o, m)
      modifies this, registry`sessions, pBuffer
      ensures unchanged(`script, `live, `fCurOffset, `writeSignalled, `fObjectHolders)
      ensures err == NO_ERROR ==>
                left < nLen && Leads(View(), if left > 0 then Split(pBuffer[..left]) else Stream([], Consumed), o, m)
      ensures err != NO_ERROR ==> View() == o.session && err == o.rc && registry.sessions == m && left == nLen
      ensures err == NO_ERROR ==> EndingOf(pBuffer, left) == old(EndingOf(pBuffer, nLen))
      ensures old(Consistent(registry)) ==> Consistent(registry)
    {
      ghost var b := pBuffer[..nLen];
      PlayBytes(View(), b, env, registry.sessions, this);
      err, left := ProcessRecvMsg(pBuffer, nLen);
      if err == NO_ERROR && left > 0 {
        assert pBuffer[..left] == b[ParseFrame(b).size..];
      }
    }

    /** Playing `x` from here ends like the outcome `o`, and leaves the registry as `m`. */
    ghost predicate Leads(s: Session, x: Stream, o: Outcome, m: map<ByteString, MqttServer>)
      reads registry`sessions
    {
      var p := Play(s, x, env);
      p.session == o.session && p.rc == o.rc && ApplyAll(registry.sessions, p.ops, this) == m
    }

    /** `TCPRequestStream::ReadRequest`: one read of at most 2047 bytes into the request buffer. */
    method ReadRequest() returns (r: ReadResult)
      requires Valid()
      modifies this`script, this`live, this`fCurOffset, fRequestBuffer
      ensures Valid()
      ensures old(Consistent(registry)) ==> Consistent(registry)
      ensures !old(Pending()).live ==> r == Failed(ENOTCONN) && unchanged(`script, `live)
      ensures old(Pending()).live && old(script) == [] ==> r == NoData && unchanged(`script, `live)
      ensures old(Pending()).live && old(script) != [] ==>
                match old(script)[0]
                case Again => r == NoData && script == old(script)[1..] && live == old(live)
                case Gone(err) => r == Failed(err) && script == old(script)[1..] && !live
                case Data(b) =>
                  && live == old(live) && script == Rest(old(script), BUFFER_SIZE - 1)
                  && if |b| >= BUFFER_SIZE - 1 then r == TooBig
                     else r == RequestArrived && fCurOffset == |b| && fRequestBuffer[..|b|] == b
    {
      fCurOffset := 0;
      if !IsLiveSession() {
        return Failed(ENOTCONN);
      }
      if script == [] {
        return NoData;
      }
      match script[0]
      case Again =>
        script := script[1..];
        r := NoData;
      case Gone(err) =>
        script, live := script[1..], false;
        r := Failed(err);
      case Data(b) =>
        var n := if |b| < BUFFER_SIZE - 1 then |b| else BUFFER_SIZE - 1;
        forall i | 0 <= i < n {
          fRequestBuffer[i] := b[i];
        }
        script := Rest(script, BUFFER_SIZE - 1);
        fCurOffset := n;
        r := if n == BUFFER_SIZE - 1 then TooBig else RequestArrived;
    }

    /** A read into the dump buffer; true as long as it got something. */
    method ReadDump() returns (gotData: bool)
      modifies this`script, this`live
      ensures gotData <==> old(Pending()).live && old(script) != [] && old(script)[0].Data?
      ensures gotData ==> live == old(live) && script == Rest(old(script), DUMP_SIZE)
      ensures !gotData ==> Pending() == Drain(old(Pending()))
    {
      gotData := IsLiveSession() && script != [] && script[0].Data?;
      if gotData {
        script := Rest(script, DUMP_SIZE);
      } else if IsLiveSession() && script != [] {
        live := live && script[0].Again?;
        script := script[1..];
      }
    }

    method CleanupRequest()
      modifies this`script, this`live
      ensures View() == old(View()) && Pending() == Drain(old(Pending()))
      ensures old(Consistent(registry)) ==> Consistent(registry)
    {
      var gotData := true;
      while gotData
        invariant if gotData then Drain(Pending()) == Drain(old(Pending())) else Pending() == Drain(old(Pending()))
        decreases gotData, Weight(script)
      {
        if IsLiveSession() && script != [] && script[0].Data? {
          DrainRest(Pending(), DUMP_SIZE);
        }
        gotData := ReadDump();
      }
    }

    /** `Run`, woken up by its events. The queue that the write event empties is not sent anywhere. */
    method Run(events: Events) returns (rc: int)
      requires Valid()
      modifies this, registry`sessions, fRequestBuffer
      ensures Valid()
      ensures events.timeout || events.kill ==>
                rc == -1 && View() == old(View()) && Pending() == old(Pending()) && unchanged(registry)
      ensures !events.timeout && !events.kill ==>
                var r := if events.read then Serve(old(View()), old(Pending()), env)
                         else Served(old(View()), [], old(Pending()));
                && registry.sessions == ApplyAll(old(registry.sessions), r.ops, this)
                && (r.input.live ==> rc == 0 && Pending() == r.input &&
                                     View() == (if events.write then DropQueued(r.session) else r.session))
                && (!r.input.live ==> Pending() == Drain(r.input) && View() == r.session &&
                                      rc == if fObjectHolders == 0 then -1 else 0)
                && writeSignalled == (old(writeSignalled) || (events.write && r.input.live && |r.session.msgList| > 1))
      ensures old(Consistent(registry)) ==> Consistent(registry)
    {
      if events.timeout || events.kill {
        return -1;
      }
      var read, write, zmq := events.read, events.write, events.zmq;
      ghost var r := if read then Serve(View(), Pending(), env) else Served(View(), [], Pending());
      ghost var m := ApplyAll(registry.sessions, r.ops, this);
      while IsLiveSession()
        invariant Valid() && fObjectHolders == old(fObjectHolders)
        invariant old(Consistent(registry)) ==> Consistent(registry)
        invariant write == events.write ==> writeSignalled == old(writeSignalled)
        invariant write != events.write ==> writeSignalled == (old(writeSignalled) || |r.session.msgList| > 1)
        invariant read ==> ServeLeads(View(), Pending(), r, m)
        invariant !read ==> Pending() == r.input && registry.sessions == m
        invariant !read ==> View() == if write == events.write then r.session else DropQueued(r.session)
        invariant write == events.write || (!read && IsLiveSession() && events.write)
        decreases Weight(script), read, write, zmq
      {
        if read {
          var gone;
          read, gone := ServeChunk(r, m);
          if gone {
            break;
          }
        } else if write {
          DropQueuedMessage();
          write := false;
        } else if zmq {
          zmq := false;
        } else {
          return 0;
        }
      }
      CleanupRequest();
      rc := if fObjectHolders == 0 then -1 else 0;
    }

    /** One pass through the read branch of `Run`: is the read event still set, and has the client gone away? */
    method ServeChunk(ghost r: Served, ghost m: map<ByteString, MqttServer>) returns (read: bool, gone: bool)
      requires Valid() && IsLiveSession() && ServeLeads(View(), Pending(), r, m)
      modifies this, registry`sessions, fRequestBuffer
      ensures Valid() && fObjectHolders == old(fObjectHolders) && writeSignalled == old(writeSignalled)
      ensures read ==> !gone && Weight(script) < old(Weight(script)) && ServeLeads(View(), Pending(), r, m)
      ensures !read ==> Weight(script) <= old(Weight(script)) && Pending() == r.input && View() == r.session &&
                        registry.sessions == m && gone == !IsLiveSession()
      ensures old(Consistent(registry)) ==> Consistent(registry)
    {
      var result := ReadRequest();
      read, gone := result == TooBig || result == RequestArrived, result.Failed?;
      if result == RequestArrived {
        AnswerRequest(old(Pending()), r, m);
      }
    }

    /** The request that `ReadRequest` has read off the front of `input`. */
    method AnswerRequest(ghost input: Input, ghost r: Served, ghost m: map<ByteString, MqttServer>)
      requires Valid() && input.live && input.script != [] && input.script[0].Data?
      requires Pending() == input.(script := input.script[1..]) && ServeLeads(View(), input, r, m)
      requires fRequestBuffer[..fCurOffset] == input.script[0].bytes && fCurOffset < BUFFER_SIZE - 1
      modifies this, registry`sessions, fRequestBuffer
      ensures Valid() && fObjectHolders == old(fObjectHolders) && writeSignalled == old(writeSignalled)
      ensures Weight(script) <= old(Weight(script)) && ServeLeads(View(), Pending(), r, m)
      ensures old(Consistent(registry)) ==> Consistent(registry)
    {
      ServeStep(View(), input, env, registry.sessions, this);
      var err, left := ProcessRequest(fRequestBuffer, fCurOffset);
      if err != NO_ERROR {
        CleanupRequest();
      }
    }

    /** Serving `input` from here ends like `r`, and leaves the registry as `m`. */
    ghost predicate ServeLeads(s: Session, input: Input, r: Served, m: map<ByteString, MqttServer>)
      reads registry`sessions
    {
      var q := Serve(s, input, env);
      q.session == r.session && q.input == r.input && ApplyAll(registry.sessions, q.ops, this) == m
    }

    /** The write event: the head of the queue goes, and what is behind it asks for another event. */
    method DropQueuedMessage()
      modifies this`fMsgList, this`discarded, this`writeSignalled
      ensures View() == DropQueued(old(View()))
      ensures fMsgList == if old(fMsgList) == [] then [] else old(fMsgList)[1..]
      ensures writeSignalled == (old(writeSignalled) || |old(fMsgList)| > 1)
      ensures old(Consistent(registry)) ==> Consistent(registry)
    {
      if fMsgList != [] {
        fMsgList := fMsgList[1..];
        discarded := discarded + 1;
        if fMsgList != [] {
          writeSignalled := true;
        }
      }
    }
  }

  /** Playing a buffer is handling its first frame, and then, if that succeeds, playing what is behind it. */
  lemma PlayBytes<S>(s: Session, b: ByteString, env: Env, m: map<ByteString, S>, self: S)
    requires b != []
    ensures var o, e := Play(s, Split(b), env), ReceiveBytes(s, b, env);
            if e.rc != MQTT_ERR_SUCCESS
            then o.session == e.session && o.rc == e.rc && ApplyAll(m, o.ops, self) == Apply(m, e.op, self)
            else
              var x := if ParseFrame(b).Whole? then Split(b[ParseFrame(b).size..]) else Stream([], Consumed);
              var q := Play(e.session, x, env);
              && o.session == q.session && o.rc == q.rc
              && ApplyAll(m, o.ops, self) == ApplyAll(Apply(m, e.op, self), q.ops, self)
  {
    var e := ReceiveBytes(s, b, env);
    assert ApplyAll(m, [e.op], self) == Apply(m, e.op, self) by {
      assert [e.op][1..] == [];
    }
    match ParseFrame(b)
    case Malformed =>
    case Partial(f) =>
      assert [f][1..] == [];
    case Whole(f, size) =>
      var x := Split(b[size..]);
      assert Prepend(f, x).frames[1..] == x.frames;
  }

  /** One chunk of the read event, with its effect on the registry. */
  lemma ServeStep<S>(s: Session, input: Input, env: Env, m: map<ByteString, S>, self: S)
    requires input.live && input.script != [] && input.script[0].Data? && |input.script[0].bytes| < BUFFER_SIZE - 1
    ensures var o := Play(s, Split(input.script[0].bytes), env);
            var next := SeenBy(input.(script := input.script[1..]), o.session);
            var q := Serve(o.session, if o.rc == MQTT_ERR_SUCCESS then next else Drain(next), env);
            var r := Serve(s, input, env);
            && r.session == q.session && r.input == q.input
            && ApplyAll(m, r.ops, self) == ApplyAll(ApplyAll(m, o.ops, self), q.ops, self)
  {
    var o := Play(s, Split(input.script[0].bytes), env);
    var next := SeenBy(input.(script := input.script[1..]), o.session);
    var q := Serve(o.session, if o.rc == MQTT_ERR_SUCCESS then next else Drain(next), env);
    ApplyConcat(m, o.ops, q.ops, self);
  }
}
