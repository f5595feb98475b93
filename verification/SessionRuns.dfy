/** What a session keeps, whatever frames, pushes and socket results it meets. */
module SessionRuns {
  import opened Bytes
  import opened SocketErrors
  import opened Protocol
  import opened PacketReader
  import opened RemainingLength
  import opened Framing
  import opened Connect
  import opened Session

  // ---------- status and identity ----------

  /** The log entry of a CONNECT that was accepted. */
  predicate Accepts(e: LogEntry, json: JsonLookup) {
    e.Handled? && IsType(e.frame, CONNECT) && e.before.New? && Judge(e.frame.payload, json).Accepted?
  }

  predicate IsDisconnect(e: LogEntry) {
    e.Handled? && IsType(e.frame, DISCONNECT)
  }

  function Rank(s: Status): int {
    match s
    case New => 0
    case Connected => 1
    case Disconnecting => 2
  }

  /** The user name that the CONNECT carried, twice, is `id`. */
  predicate AcceptedUser(e: LogEntry, json: JsonLookup, id: ByteString)
    requires Accepts(e, json)
  {
    var user := Judge(e.frame.payload, json).user;
    |user| == USERNAME_LENGTH && id == user + user
  }

  /** Entry `i` is the one CONNECT that was accepted, and it made the session what it is. */
  ghost predicate Established(s: Session, i: int, json: JsonLookup) {
    && 0 <= i < |s.log|
    && Accepts(s.log[i], json)
    && AcceptedUser(s.log[i], json, s.clientId)
    && forall j :: 0 <= j < |s.log| && s.log[j].Handled? ==>
         && (s.log[j].before.New? <==> j <= i)
         && (Accepts(s.log[j], json) ==> j == i)
  }

  ghost predicate NeverAccepted(s: Session, json: JsonLookup) {
    forall j :: 0 <= j < |s.log| && s.log[j].Handled? ==> s.log[j].before.New? && !Accepts(s.log[j], json)
  }

  /** The status never goes back, and only CONNECT frames are handled while it is `New`. */
  ghost predicate Ordered(s: Session) {
    && (forall j :: 0 <= j < |s.log| && s.log[j].Handled? ==>
          && Rank(s.log[j].before) <= Rank(s.status)
          && (s.log[j].before.New? ==> IsType(s.log[j].frame, CONNECT)))
    && forall i, j :: 0 <= i < j < |s.log| && s.log[i].Handled? && s.log[j].Handled? ==>
         Rank(s.log[i].before) <= Rank(s.log[j].before)
  }

  /** The status is what the history of handled frames says. */
  ghost predicate StatusInv(s: Session, json: JsonLookup) {
    && Ordered(s)
    && (s.status.New? ==> NeverAccepted(s, json))
    && (!s.status.New? ==> exists i :: Established(s, i, json))
    && (s.status.Disconnecting? <==> exists i :: 0 <= i < |s.log| && IsDisconnect(s.log[i]))
  }

  /** What handling one frame does to status and identity. */
  ghost predicate StatusStep(s: Session, t: Session, e: LogEntry, json: JsonLookup) {
    && e.Handled? && e.before == s.status && t.log == s.log + [e]
    && (s.status.New? ==> IsType(e.frame, CONNECT))
    && (if Accepts(e, json) then t.status == Connected && AcceptedUser(e, json, t.clientId)
        else if IsDisconnect(e) then t.status == Disconnecting && t.clientId == s.clientId
        else t.status == s.status && (s.status.New? || t.clientId == s.clientId))
  }

  lemma StepKeepsStatusInv(s: Session, t: Session, e: LogEntry, json: JsonLookup)
    requires StatusInv(s, json) && StatusStep(s, t, e, json)
    ensures StatusInv(t, json) && Rank(s.status) <= Rank(t.status)
  {
    assert t.log[|s.log|] == e;
    assert forall j :: 0 <= j < |s.log| ==> t.log[j] == s.log[j];
    StepKeepsEstablished(s, t, e, json);
    if s.status.Disconnecting? && !IsDisconnect(e) {
      var i :| 0 <= i < |s.log| && IsDisconnect(s.log[i]);
      assert IsDisconnect(t.log[i]);
    }
  }

  lemma StepKeepsEstablished(s: Session, t: Session, e: LogEntry, json: JsonLookup)
    requires StatusInv(s, json) && StatusStep(s, t, e, json)
    ensures !t.status.New? ==> exists i :: Established(t, i, json)
  {
    if Accepts(e, json) {
      assert Established(t, |s.log|, json);
    } else if !s.status.New? {
      var i :| Established(s, i, json);
      assert Established(t, i, json);
    }
  }

  lemma ReceiveKeepsStatusInv(s: Session, f: Frame, env: Env)
    requires StatusInv(s, env.json)
    ensures StatusInv(Receive(s, f, env).session, env.json)
    ensures Rank(s.status) <= Rank(Receive(s, f, env).session.status)
  {
    if !(s.status.New? && !IsType(f, CONNECT)) {
      StepKeepsStatusInv(s, Handle(s, f, env).session, Handled(f, s.status), env.json);
    }
  }

  lemma PushKeepsStatusInv(s: Session, bytes: ByteString, env: Env)
    requires StatusInv(s, env.json)
    ensures StatusInv(Push(s, bytes, env), env.json)
  {
    var t := Push(s, bytes, env);
    PushKeepsOrder(s, t, bytes, env.json);
    PushKeepsEstablished(s, t, bytes, env.json);
    PushKeepsDisconnect(s, t, bytes);
  }

  lemma PushKeepsOrder(s: Session, t: Session, bytes: ByteString, json: JsonLookup)
    requires Ordered(s) && t.log == s.log + [Pushed(bytes)] && t.status == s.status
    ensures Ordered(t) && (NeverAccepted(s, json) ==> NeverAccepted(t, json))
  {
    assert t.log[|s.log|] == Pushed(bytes) && forall j :: 0 <= j < |s.log| ==> t.log[j] == s.log[j];
  }

  lemma PushKeepsDisconnect(s: Session, t: Session, bytes: ByteString)
    requires t.log == s.log + [Pushed(bytes)]
    ensures (exists i :: 0 <= i < |t.log| && IsDisconnect(t.log[i])) <==>
            exists i :: 0 <= i < |s.log| && IsDisconnect(s.log[i])
  {
    assert t.log[|s.log|] == Pushed(bytes) && forall j :: 0 <= j < |s.log| ==> t.log[j] == s.log[j];
    if i :| 0 <= i < |s.log| && IsDisconnect(s.log[i]) {
      assert IsDisconnect(t.log[i]);
    }
  }

  lemma PushKeepsEstablished(s: Session, t: Session, bytes: ByteString, json: JsonLookup)
    requires StatusInv(s, json) && t.log == s.log + [Pushed(bytes)]
    requires t.status == s.status && t.clientId == s.clientId
    ensures !t.status.New? ==> exists i :: Established(t, i, json)
  {
    if !s.status.New? {
      var i :| Established(s, i, json);
      assert Established(t, i, json);
    }
  }

  /** The key of every entry: a 16-byte user name written twice. */
  predicate IsToken(k: ByteString) {
    |k| == 2 * USERNAME_LENGTH && k[..USERNAME_LENGTH] == k[USERNAME_LENGTH..]
  }

  /** A session gives up its name only together with its entry, and takes a name only while it has no entry. */
  lemma HandleKeepsNames(s: Session, f: Frame, env: Env)
    ensures var e := Handle(s, f, env);
            && (e.op.Insert? ==>
                  s.status.New? && e.session.status.Connected? && e.session.clientId == e.op.key && IsToken(e.op.key))
            && (s.status.Connected? ==>
                  (e.session.status.Connected? && e.session.clientId == s.clientId) || e.op == Erase(s.clientId))
  {
    if s.status.New? && IsType(f, CONNECT) && Judge(f.payload, env.json).Accepted? {
      var user := Judge(f.payload, env.json).user;
      assert Doubled(user)[..USERNAME_LENGTH] == user == Doubled(user)[USERNAME_LENGTH..];
    }
  }

  // ---------- what succeeds, and the timer ----------

  lemma HandleLogs(s: Session, f: Frame, env: Env)
    ensures Handle(s, f, env).session.log == s.log + [Handled(f, s.status)]
  {}

  /** The CONNECT that a new session accepts under the name `k`. */
  predicate ConnectsAs(s: Session, f: Frame, json: JsonLookup, k: ByteString) {
    && s.status.New? && IsType(f, CONNECT)
    && var v := Judge(f.payload, json);
    v.Accepted? && k == v.user + v.user
  }

  /**
   The frames after which the buffer goes on: a DISCONNECT, and a PINGREQ or an accepted CONNECT whose response
   the socket took, of which a new session admits only the CONNECT.
   */
  lemma SucceedsIff(s: Session, f: Frame, env: Env)
    ensures Receive(s, f, env).rc == MQTT_ERR_SUCCESS <==>
            if s.status.New?
            then (exists k :: ConnectsAs(s, f, env.json, k)) && NextSendResult(s, env) == NO_ERROR
            else IsType(f, DISCONNECT) || (IsType(f, PINGREQ) && NextSendResult(s, env) == NO_ERROR)
  {
    if s.status.New? && IsType(f, CONNECT) && Judge(f.payload, env.json).Accepted? {
      var user := Judge(f.payload, env.json).user;
      assert ConnectsAs(s, f, env.json, user + user);
    }
  }

  predicate IsLateConnect(e: LogEntry) {
    e.Handled? && IsType(e.frame, CONNECT) && e.before.Connected?
  }

  /**
   The timer runs out at once after every refused CONNECT and every DISCONNECT, and otherwise it is twice the
   keep-alive time of the accepted CONNECT, in milliseconds.
   */
  ghost predicate TimerInv(s: Session) {
    match s.status
    case New => (exists i :: 0 <= i < |s.log| && s.log[i].Handled?) ==> s.timeout == 1
    case Disconnecting => s.timeout == 1
    case Connected =>
      if exists i :: 0 <= i < |s.log| && IsLateConnect(s.log[i]) then s.timeout == 1
      else s.timeout == s.header.keepAlive * 2000
  }

  lemma AcceptedKeepAlive(h: Header, p: ByteString, json: JsonLookup)
    ensures Judge(p, json).Accepted? ==> Overlay(h, p).keepAlive == Judge(p, json).keepAlive
  {}

  lemma ReceiveKeepsTimerInv(s: Session, f: Frame, env: Env)
    requires TimerInv(s) && StatusInv(s, env.json)
    ensures TimerInv(Receive(s, f, env).session)
  {
    var t, e := Receive(s, f, env).session, Handled(f, s.status);
    AcceptedKeepAlive(s.header, f.payload, env.json);
    if !(s.status.New? && !IsType(f, CONNECT)) {
      HandleLogs(s, f, env);
      assert t.log[|s.log|] == e && forall i :: 0 <= i < |s.log| ==> t.log[i] == s.log[i];
      if s.status.New? {
        assert forall i :: 0 <= i < |t.log| ==> !IsLateConnect(t.log[i]);
      }
    }
  }

  lemma PushKeepsTimerInv(s: Session, bytes: ByteString, env: Env)
    requires TimerInv(s)
    ensures TimerInv(Push(s, bytes, env))
  {
    var t := Push(s, bytes, env);
    assert t.log[|s.log|] == Pushed(bytes) && forall i :: 0 <= i < |s.log| ==> t.log[i] == s.log[i];
  }

  // ---------- responses ----------

  /** The responses that a log entry calls for. */
  function Reply(e: LogEntry, json: JsonLookup): seq<ByteString> {
    match e
    case Pushed(bytes) => [bytes]
    case Handled(f, before) =>
      if IsType(f, PINGREQ) then [PINGRESP_BYTES]
      else if IsType(f, CONNECT) && before.New? then [ConnackBytes(ConnackCode(Judge(f.payload, json)))]
      else []
  }

  function Replies(log: seq<LogEntry>, json: JsonLookup): seq<ByteString> {
    if log == [] then [] else Replies(log[..|log| - 1], json) + Reply(log[|log| - 1], json)
  }

  function AllBytes(sent: seq<Sent>): seq<ByteString> {
    if sent == [] then [] else AllBytes(sent[..|sent| - 1]) + [sent[|sent| - 1].bytes]
  }

  /** The messages among `sent` that the socket took, or that it did not take. */
  function Taken(sent: seq<Sent>, byTheSocket: bool): seq<ByteString> {
    if sent == [] then []
    else
      var last := sent[|sent| - 1];
      Taken(sent[..|sent| - 1], byTheSocket) + if (last.err == NO_ERROR) == byTheSocket then [last.bytes] else []
  }

  /**
   Each message was taken by the socket or queued when it was produced, and the queue has lost only what the
   write event dropped from its head.
   */
  ghost predicate QueueInv(s: Session, env: Env) {
    && s.accepted == Taken(s.produced, true)
    && s.discarded <= |Taken(s.produced, false)|
    && s.msgList == Taken(s.produced, false)[s.discarded..]
    && forall i :: 0 <= i < |s.produced| ==> s.produced[i].err == env.sendResult(i)
  }

  /** The socket knows that the connection is gone exactly if one of the failed sends has found that. */
  ghost predicate DroppedInv(s: Session, env: Env) {
    s.dropped <==> exists i :: 0 <= i < |s.produced| && s.produced[i].err != NO_ERROR && env.drops(i)
  }

  /** Responses are exactly those that the log calls for, in order. */
  ghost predicate ReplyInv(s: Session, env: Env) {
    QueueInv(s, env) && DroppedInv(s, env) && AllBytes(s.produced) == Replies(s.log, env.json)
  }

  ghost predicate SameQueue(s: Session, t: Session) {
    && t.produced == s.produced && t.accepted == s.accepted
    && t.msgList == s.msgList && t.discarded == s.discarded && t.dropped == s.dropped
  }

  /** One message is produced: the socket takes it, or it goes to the end of the queue. */
  ghost predicate Produces(s: Session, t: Session, m: ByteString, err: int) {
    && t.produced == s.produced + [Sent(m, err)] && t.discarded == s.discarded
    && (if err == NO_ERROR then t.accepted == s.accepted + [m] && t.msgList == s.msgList
        else t.accepted == s.accepted && t.msgList == s.msgList + [m])
  }

  lemma SendKeepsQueueInv(s: Session, bytes: ByteString, env: Env)
    requires QueueInv(s, env)
    ensures QueueInv(Send(s, bytes, env), env)
    ensures AllBytes(Send(s, bytes, env).produced) == AllBytes(s.produced) + [bytes]
  {
    var last := Sent(bytes, env.sendResult(|s.produced|));
    assert (s.produced + [last])[..|s.produced|] == s.produced;
  }

  lemma SendKeepsDropped(s: Session, bytes: ByteString, env: Env)
    requires DroppedInv(s, env)
    ensures DroppedInv(Send(s, bytes, env), env)
  {
    var t, n := Send(s, bytes, env), |s.produced|;
    assert t.produced[n].err == env.sendResult(n) && forall i :: 0 <= i < n ==> t.produced[i] == s.produced[i];
    if i :| 0 <= i < n && s.produced[i].err != NO_ERROR && env.drops(i) {
      assert t.produced[i].err != NO_ERROR;
    }
  }

  /** A log entry and the response that it calls for, sent or queued, keep the account straight. */
  lemma StepKeepsReplyInv(s: Session, t: Session, e: LogEntry, env: Env)
    requires ReplyInv(s, env) && t.log == s.log + [e]
    requires var r := Reply(e, env.json);
             if r == [] then SameQueue(s, t) else SameQueue(Send(s, r[0], env), t)
    ensures ReplyInv(t, env)
  {
    assert t.log[..|s.log|] == s.log;
    assert Replies(t.log, env.json) == Replies(s.log, env.json) + Reply(e, env.json);
    var r := Reply(e, env.json);
    if r == [] {
      SameQueueInv(s, t, env);
    } else {
      SendKeepsQueueInv(s, r[0], env);
      SendKeepsDropped(s, r[0], env);
      SameQueueInv(Send(s, r[0], env), t, env);
      assert r == [r[0]];
    }
  }

  lemma SameQueueInv(s: Session, t: Session, env: Env)
    requires QueueInv(s, env) && DroppedInv(s, env) && SameQueue(s, t)
    ensures QueueInv(t, env) && DroppedInv(t, env)
  {}

  /** A handler produces the response that its log entry calls for, and nothing else. */
  lemma HandleReplies(s: Session, f: Frame, env: Env)
    ensures var t, r := Handle(s, f, env).session, Reply(Handled(f, s.status), env.json);
            if r == [] then SameQueue(s, t) else |r| == 1 && SameQueue(Send(s, r[0], env), t)
  {}

  lemma ReceiveKeepsReplyInv(s: Session, f: Frame, env: Env)
    requires ReplyInv(s, env)
    ensures ReplyInv(Receive(s, f, env).session, env)
  {
    if !(s.status.New? && !IsType(f, CONNECT)) {
      HandleReplies(s, f, env);
      HandleLogs(s, f, env);
      StepKeepsReplyInv(s, Handle(s, f, env).session, Handled(f, s.status), env);
    }
  }

  lemma PushKeepsReplyInv(s: Session, bytes: ByteString, env: Env)
    requires ReplyInv(s, env)
    ensures ReplyInv(Push(s, bytes, env), env)
  {
    StepKeepsReplyInv(s, Push(s, bytes, env), Pushed(bytes), env);
  }

  lemma DropKeepsInvariants(s: Session, env: Env)
    requires StatusInv(s, env.json) && ReplyInv(s, env)
    ensures StatusInv(DropQueued(s), env.json) && ReplyInv(DropQueued(s), env)
  {
    if !s.status.New? {
      var i :| Established(s, i, env.json);
      assert Established(DropQueued(s), i, env.json);
    }
  }

  // ---------- the code of a CONNACK ----------

  /** A payload that begins with a length-prefixed protocol name. */
  function Named(name: Text, rest: ByteString): ByteString {
    Write(Str(name)) + rest
  }

  lemma NamedIff(p: ByteString, name: Text, rest: ByteString)
    ensures p == Named(name, rest) <==> Read(p, String) == Reading(Some(Str(name)), rest)
  {
    ReadIff(p, String, Str(name), rest);
  }

  ghost predicate BehindProtocolName(p: ByteString, rest: ByteString) {
    exists name: Text :: p == Named(name, rest) && IsProtocolName(name)
  }

  lemma BehindProtocolNameIff(p: ByteString, rest: ByteString)
    ensures BehindProtocolName(p, rest) <==> NamedRest(p) == Some(rest)
  {
    var first := Read(p, String);
    forall name: Text ensures p == Named(name, rest) <==> first == Reading(Some(Str(name)), rest) {
      NamedIff(p, name, rest);
    }
    if first.item.Some? && first.rest == rest {
      assert p == Named(first.item.value.t, rest);
    }
  }

  /**
   Code 2 says that the payload does not begin with the protocol name, code 3 that something is missing behind
   it or the text is not JSON, code 5 that the user name does not have 16 bytes, and code 0 none of these.
   */
  ghost predicate CodeMeans(code: Byte, p: ByteString, json: JsonLookup) {
    && (code == 2 <==> !exists rest: ByteString :: BehindProtocolName(p, rest))
    && (code == 3 <==> exists rest: ByteString ::
          BehindProtocolName(p, rest) && (|rest| < 4 || json(rest[4..]).None?))
    && (code == 5 <==> exists rest: ByteString ::
          BehindProtocolName(p, rest) && |rest| >= 4 && json(rest[4..]).Some? && |json(rest[4..]).value| != 16)
    && (code == 0 <==> exists rest: ByteString ::
          BehindProtocolName(p, rest) && |rest| >= 4 && json(rest[4..]).Some? && |json(rest[4..]).value| == 16)
  }

  /** What follows the protocol name at the front of a payload. */
  function NamedRest(p: ByteString): Option<ByteString> {
    var first := Read(p, String);
    if first.item.Some? && IsProtocolName(first.item.value.t) then Some(first.rest) else None
  }

  function CodeFor(behind: Option<ByteString>, json: JsonLookup): Byte {
    match behind
    case None => 2
    case Some(rest) =>
      if |rest| < 4 || json(rest[4..]).None? then 3 else if |json(rest[4..]).value| != 16 then 5 else 0
  }

  lemma CodeOfVerdict(p: ByteString, json: JsonLookup)
    ensures ConnackCode(Judge(p, json)) == CodeFor(NamedRest(p), json)
  {}

  lemma CodeForMeans(p: ByteString, behind: Option<ByteString>, json: JsonLookup)
    requires forall rest: ByteString :: BehindProtocolName(p, rest) <==> behind == Some(rest)
    ensures CodeMeans(CodeFor(behind, json), p, json)
  {
    if behind.Some? {
      assert BehindProtocolName(p, behind.value);
    }
  }

  lemma ConnackCodeMeaning(p: ByteString, json: JsonLookup)
    ensures CodeMeans(ConnackCode(Judge(p, json)), p, json)
  {
    CodeOfVerdict(p, json);
    forall rest: ByteString ensures BehindProtocolName(p, rest) <==> NamedRest(p) == Some(rest) {
      BehindProtocolNameIff(p, rest);
    }
    CodeForMeans(p, NamedRest(p), json);
  }

  /** The peer reads `m` as one CONNACK with this return code, the second of the two bytes of its payload. */
  ghost predicate ReadsAsConnack(m: ByteString, code: Byte) {
    |m| == 4 && ParseFrame(m) == Whole(Frame(0x20, [0, code]), 4)
  }

  /** `m` is the CONNACK that answers the CONNECT payload `p`, and its code says what is wrong with that. */
  ghost predicate IsConnackFor(m: ByteString, p: ByteString, json: JsonLookup) {
    |m| == 4 && ReadsAsConnack(m, m[3]) && CodeMeans(m[3], p, json)
  }

  lemma ConnackReads(code: Byte)
    ensures ReadsAsConnack(ConnackBytes(code), code)
  {
    var m := ConnackBytes(code);
    MoreRunIff(m[1..], 0);
    assert m[1..2] == [2] && Base128([2]) == 2 + 128 * Base128([2][1..]);
    assert m[2..4] == [0, code];
  }

  lemma SendProduces(s: Session, m: ByteString, env: Env)
    ensures Produces(s, Send(s, m, env), m, env.sendResult(|s.produced|))
  {}

  /** A CONNECT that meets a new session is answered by exactly one CONNACK, taken by the socket or queued. */
  lemma ConnectIsAnswered(s: Session, f: Frame, env: Env)
    requires s.status.New? && IsType(f, CONNECT)
    ensures exists m :: IsConnackFor(m, f.payload, env.json) &&
                        Produces(s, Receive(s, f, env).session, m, env.sendResult(|s.produced|))
  {
    var code := ConnackCode(Judge(f.payload, env.json));
    ConnackReads(code);
    ConnackCodeMeaning(f.payload, env.json);
    SendProduces(s, ConnackBytes(code), env);
    HandleReplies(s, f, env);
    assert IsConnackFor(ConnackBytes(code), f.payload, env.json);
  }

  // ---------- what a handler returns ----------

  /**
   What the handler of a first CONNECT returns: 1 if a field cannot be read, 3 if the protocol name is empty, 2 if
   the name is wrong, the text is not JSON or the user name does not have 16 bytes, and otherwise the result of `Send`.
   */
  ghost predicate ReturnMeans(rc: int, p: ByteString, json: JsonLookup, sent: int) {
    if !exists name: Text, rest: ByteString :: p == Named(name, rest) then rc == 1
    else exists name: Text, rest: ByteString :: p == Named(name, rest) && rc == ReturnFor(name, rest, json, sent)
  }

  function ReturnFor(name: Text, rest: ByteString, json: JsonLookup, sent: int): int {
    if name == [] then 3
    else if !IsProtocolName(name) then 2
    else if |rest| < 4 then 1
    else if json(rest[4..]).None? || |json(rest[4..]).value| != 16 then 2
    else sent
  }

  function ConnectReturn(v: Verdict, sent: int): int {
    if v.Accepted? then sent else RefusalCode(v)
  }

  lemma NamedReturn(p: ByteString, json: JsonLookup, sent: int)
    ensures var first := Read(p, String);
            ConnectReturn(Judge(p, json), sent) ==
            if first.item.None? then 1 else ReturnFor(first.item.value.t, first.rest, json, sent)
  {}

  lemma ConnectReturnMeaning(p: ByteString, json: JsonLookup, sent: int)
    ensures ReturnMeans(ConnectReturn(Judge(p, json), sent), p, json, sent)
  {
    var first := Read(p, String);
    NamedReturn(p, json, sent);
    if first.item.Some? {
      NamedIff(p, first.item.value.t, first.rest);
    } else {
      forall name: Text, rest: ByteString ensures p != Named(name, rest) {
        NamedIff(p, name, rest);
      }
    }
  }

  /** Any other frame of a new session, a later CONNECT and an unknown type are protocol errors, code 2. */
  lemma ReturnCodeMeaning(s: Session, f: Frame, env: Env)
    ensures var rc, sent := Receive(s, f, env).rc, env.sendResult(|s.produced|);
            var messageType := f.command / 16;
            if messageType == 1 && s.status.New? then ReturnMeans(rc, f.payload, env.json, sent)
            else if s.status.New? || messageType == 1 then rc == 2
            else if messageType == 12 then rc == sent
            else rc == if messageType == 14 then 0 else 2
  {
    TypeNumbers(f);
    if s.status.New? && IsType(f, CONNECT) {
      FirstConnectReturns(s, f, env);
    } else {
      OthersReturn(s, f, env);
    }
  }

  lemma TypeNumbers(f: Frame)
    ensures IsType(f, CONNECT) <==> f.command / 16 == 1
    ensures IsType(f, PINGREQ) <==> f.command / 16 == 12
    ensures IsType(f, DISCONNECT) <==> f.command / 16 == 14
  {}

  lemma FirstConnectReturns(s: Session, f: Frame, env: Env)
    requires s.status.New? && IsType(f, CONNECT)
    ensures ReturnMeans(Receive(s, f, env).rc, f.payload, env.json, env.sendResult(|s.produced|))
  {
    ConnectReturnMeaning(f.payload, env.json, env.sendResult(|s.produced|));
  }

  lemma OthersReturn(s: Session, f: Frame, env: Env)
    requires !(s.status.New? && IsType(f, CONNECT))
    ensures Receive(s, f, env).rc ==
            if s.status.New? || IsType(f, CONNECT) then 2
            else if IsType(f, PINGREQ) then env.sendResult(|s.produced|)
            else if IsType(f, DISCONNECT) then 0 else 2
  {}

  /** A length field that does not end within four bytes is a protocol error, and nothing is handled. */
  lemma MalformedIsRefused(s: Session, b: ByteString, env: Env)
    requires |b| > 4 && forall i :: 1 <= i <= 4 ==> b[i] >= 128
    ensures ReceiveBytes(s, b, env) == Effect(s, Keep, 2) && Play(s, Split(b), env) == Outcome(s, [], 2)
  {
    MalformedIff(b);
  }

  // ---------- counting responses ----------

  function Pings(log: seq<LogEntry>): nat {
    if log == [] then 0
    else
      var last := log[|log| - 1];
      Pings(log[..|log| - 1]) + if last.Handled? && IsType(last.frame, PINGREQ) then 1 else 0
  }

  function FirstConnects(log: seq<LogEntry>): nat {
    if log == [] then 0
    else
      var last := log[|log| - 1];
      FirstConnects(log[..|log| - 1]) +
      if last.Handled? && IsType(last.frame, CONNECT) && last.before.New? then 1 else 0
  }

  function Acceptances(log: seq<LogEntry>, json: JsonLookup): nat {
    if log == [] then 0
    else Acceptances(log[..|log| - 1], json) + if Accepts(log[|log| - 1], json) then 1 else 0
  }

  function Connacks(bytes: seq<ByteString>): nat {
    if bytes == [] then 0
    else
      var last := bytes[|bytes| - 1];
      Connacks(bytes[..|bytes| - 1]) + if last != [] && HighNibble(last[0]) == CONNACK then 1 else 0
  }

  /** Whatever is pushed is a PUBLISH. */
  ghost predicate OnlyPublishPushed(log: seq<LogEntry>) {
    forall i :: 0 <= i < |log| && log[i].Pushed? ==> log[i].bytes != [] && HighNibble(log[i].bytes[0]) / 16 % 4 == 3
  }

  lemma CountReply(e: LogEntry, json: JsonLookup)
    requires OnlyPublishPushed([e])
    ensures multiset(Reply(e, json))[PINGRESP_BYTES] == Pings([e])
    ensures multiset(Reply(e, json))[ConnackBytes(MQTT_ERR_SUCCESS)] == Acceptances([e], json)
    ensures Connacks(Reply(e, json)) == FirstConnects([e])
  {
    var one := [e];
    assert one[..0] == [] && one[0] == e;
    if Reply(e, json) != [] {
      var r := Reply(e, json)[0];
      assert Reply(e, json) == [r] && Connacks([]) == 0 && Reply(e, json)[..0] == [];
      if e.Pushed? {
        assert r[0] / 16 != 0xD && r[0] / 16 != 2;
      }
    }
  }

  lemma {:induction false} CountReplies(log: seq<LogEntry>, json: JsonLookup)
    requires OnlyPublishPushed(log)
    ensures multiset(Replies(log, json))[PINGRESP_BYTES] == Pings(log)
    ensures multiset(Replies(log, json))[ConnackBytes(MQTT_ERR_SUCCESS)] == Acceptances(log, json)
    ensures Connacks(Replies(log, json)) == FirstConnects(log)
  {
    if log != [] {
      var init, e := log[..|log| - 1], log[|log| - 1];
      CountReplies(init, json);
      assert OnlyPublishPushed([e]) by {
        assert [e][0] == log[|log| - 1];
      }
      CountReply(e, json);
      var before, now := Replies(init, json), Reply(e, json);
      assert Replies(log, json) == before + now;
      assert multiset(before + now) == multiset(before) + multiset(now);
      ConnacksAppend(before, now);
    }
  }

  lemma ConnacksAppend(a: seq<ByteString>, b: seq<ByteString>)
    requires |b| <= 1
    ensures Connacks(a + b) == Connacks(a) + Connacks(b)
  {
    if b == [] {
      assert a + b == a;
    } else {
      assert (a + b)[..|a|] == a && b[..0] == [];
    }
  }

  lemma {:induction false} AcceptancesZero(log: seq<LogEntry>, json: JsonLookup)
    ensures Acceptances(log, json) == 0 <==> forall i :: 0 <= i < |log| ==> !Accepts(log[i], json)
  {
    if log != [] {
      AcceptancesZero(log[..|log| - 1], json);
      assert forall i :: 0 <= i < |log| - 1 ==> log[i] == log[..|log| - 1][i];
      assert Accepts(log[|log| - 1], json) ==> !forall i :: 0 <= i < |log| ==> !Accepts(log[i], json);
    }
  }

  lemma {:induction false} AcceptancesOne(log: seq<LogEntry>, i: int, json: JsonLookup)
    requires 0 <= i < |log| && Accepts(log[i], json)
    requires forall j :: 0 <= j < |log| && Accepts(log[j], json) ==> j == i
    ensures Acceptances(log, json) == 1
  {
    var init := log[..|log| - 1];
    if i == |log| - 1 {
      AcceptancesZero(init, json);
    } else {
      AcceptancesOne(init, i, json);
    }
  }

  /** The log entries that call for a message: pushes, PINGREQs, and CONNECTs that met a new session. */
  predicate CallsForMessage(e: LogEntry) {
    e.Pushed? || IsType(e.frame, PINGREQ) || (IsType(e.frame, CONNECT) && e.before.New?)
  }

  function Called(log: seq<LogEntry>): nat {
    if log == [] then 0 else Called(log[..|log| - 1]) + if CallsForMessage(log[|log| - 1]) then 1 else 0
  }

  /** `m` is what the log entry calls for: a PINGRESP, the CONNACK for its payload, or the message that was pushed. */
  ghost predicate Answers(m: ByteString, e: LogEntry, json: JsonLookup) {
    match e
    case Pushed(bytes) => m == bytes
    case Handled(f, before) => if IsType(f, PINGREQ) then m == [0xD0, 0] else IsConnackFor(m, f.payload, json)
  }

  lemma ReplyAnswers(e: LogEntry, json: JsonLookup)
    ensures var r := Reply(e, json);
            if CallsForMessage(e) then |r| == 1 && Answers(r[0], e, json) else r == []
  {
    if e.Handled? && IsType(e.frame, CONNECT) {
      ConnackReads(ConnackCode(Judge(e.frame.payload, json)));
      ConnackCodeMeaning(e.frame.payload, json);
    }
  }

  lemma {:induction false} RepliesAnswer(log: seq<LogEntry>, j: nat, json: JsonLookup)
    requires j < |log|
    ensures |Replies(log, json)| == Called(log)
    ensures CallsForMessage(log[j]) ==>
              Called(log[..j]) < Called(log) && Answers(Replies(log, json)[Called(log[..j])], log[j], json)
  {
    var init, n := log[..|log| - 1], |log| - 1;
    ReplyAnswers(log[n], json);
    if n > 0 {
      RepliesAnswer(init, if j < n then j else 0, json);
    }
    if j < n {
      assert init[..j] == log[..j] && init[j] == log[j];
    }
  }

  lemma {:induction false} AllBytesAt(sent: seq<Sent>, i: nat)
    requires i < |sent|
    ensures |AllBytes(sent)| == |sent| && AllBytes(sent)[i] == sent[i].bytes
  {
    if |sent| > 1 {
      AllBytesAt(sent[..|sent| - 1], if i < |sent| - 1 then i else 0);
    }
  }

  /** The messages produced are the answers to the log entries that call for one, in order. */
  ghost predicate AnswersLog(s: Session, json: JsonLookup) {
    && |s.produced| == Called(s.log)
    && forall j :: 0 <= j < |s.log| && CallsForMessage(s.log[j]) ==>
         && Called(s.log[..j]) < |s.produced|
         && Answers(s.produced[Called(s.log[..j])].bytes, s.log[j], json)
  }

  lemma ProducedAnswersLog(s: Session, env: Env)
    requires ReplyInv(s, env)
    ensures AnswersLog(s, env.json)
  {
    if s.produced != [] {
      AllBytesAt(s.produced, 0);
    }
    if s.log != [] {
      RepliesAnswer(s.log, 0, env.json);
    }
    forall j | 0 <= j < |s.log| && CallsForMessage(s.log[j])
      ensures Called(s.log[..j]) < |s.produced|
      ensures Answers(s.produced[Called(s.log[..j])].bytes, s.log[j], env.json)
    {
      RepliesAnswer(s.log, j, env.json);
      AllBytesAt(s.produced, Called(s.log[..j]));
    }
  }

  /**
   The messages produced answer the log entry by entry: a PINGRESP a PINGREQ, a CONNACK a CONNECT that met a new
   session, with the code for its payload; and there is one positive CONNACK in a lifetime.
   */
  lemma ResponseAccounting(s: Session, env: Env)
    requires StatusInv(s, env.json) && ReplyInv(s, env) && OnlyPublishPushed(s.log)
    ensures AnswersLog(s, env.json)
    ensures multiset(AllBytes(s.produced))[[0xD0, 0]] == Pings(s.log)
    ensures multiset(AllBytes(s.produced))[[0x20, 2, 0, 0]] == if s.status.New? then 0 else 1
    ensures Connacks(AllBytes(s.produced)) == FirstConnects(s.log)
  {
    ProducedAnswersLog(s, env);
    CountReplies(s.log, env.json);
    if s.status.New? {
      AcceptancesZero(s.log, env.json);
    } else {
      var i :| Established(s, i, env.json);
      AcceptancesOne(s.log, i, env.json);
    }
  }

  // ---------- buffers ----------

  function Frames(log: seq<LogEntry>): seq<Frame> {
    if log == [] then []
    else
      var last := log[|log| - 1];
      Frames(log[..|log| - 1]) + if last.Handled? then [last.frame] else []
  }

  lemma FramesSnoc(log: seq<LogEntry>, f: Frame, before: Status)
    ensures Frames(log + [Handled(f, before)]) == Frames(log) + [f]
  {
    assert (log + [Handled(f, before)])[..|log|] == log;
  }

  /** How many frames of a buffer reach the handlers. */
  function Reached(s: Session, x: Stream, env: Env): (k: nat)
    ensures k <= |x.frames|
    decreases |x.frames|
  {
    if x.frames == [] || (s.status.New? && !IsType(x.frames[0], CONNECT)) then 0
    else
      var e := Handle(s, x.frames[0], env);
      if e.rc != MQTT_ERR_SUCCESS then 1 else 1 + Reached(e.session, Stream(x.frames[1..], x.ending), env)
  }

  lemma PrefixStep(frames: seq<Frame>, k: nat)
    requires frames != [] && k <= |frames[1..]|
    ensures [frames[0]] + frames[1..][..k] == frames[..k + 1]
  {}

  /** What reaches the handlers is a prefix of the parser's frames, in order; all of them if the buffer succeeds. */
  lemma {:induction false} DispatchIsPrefix(s: Session, x: Stream, env: Env)
    ensures Frames(Play(s, x, env).session.log) == Frames(s.log) + x.frames[..Reached(s, x, env)]
    ensures Play(s, x, env).rc == MQTT_ERR_SUCCESS ==> Reached(s, x, env) == |x.frames| && !x.ending.Broken?
    decreases |x.frames|
  {
    if x.frames != [] && !(s.status.New? && !IsType(x.frames[0], CONNECT)) {
      var f := x.frames[0];
      var e := Handle(s, f, env);
      HandleLogs(s, f, env);
      FramesSnoc(s.log, f, s.status);
      if e.rc == MQTT_ERR_SUCCESS {
        var rest := Stream(x.frames[1..], x.ending);
        DispatchIsPrefix(e.session, rest, env);
        PrefixStep(x.frames, Reached(e.session, rest, env));
      }
    }
  }

  /**
   The cut is at the first failure and nowhere else: every buffer that stops before the last frame that was
   reached succeeds, and a buffer that stops right after the cut fails in the same way as the whole one.
   */
  lemma {:induction false} CutAtFirstFailure(s: Session, x: Stream, env: Env)
    ensures forall j :: 0 <= j < Reached(s, x, env) ==>
              Play(s, Stream(x.frames[..j], Consumed), env).rc == MQTT_ERR_SUCCESS
    ensures var k := Reached(s, x, env);
            k < |x.frames| ==>
              && Play(s, x, env).rc != MQTT_ERR_SUCCESS
              && Play(s, Stream(x.frames[..k + 1], Consumed), env) == Play(s, x, env)
    decreases |x.frames|
  {
    if x.frames != [] && !(s.status.New? && !IsType(x.frames[0], CONNECT)) {
      var f := x.frames[0];
      var e := Handle(s, f, env);
      if e.rc == MQTT_ERR_SUCCESS {
        var rest := Stream(x.frames[1..], x.ending);
        CutAtFirstFailure(e.session, rest, env);
        var n := Reached(e.session, rest, env);
        forall j | 1 <= j < n + 1 ensures Play(s, Stream(x.frames[..j], Consumed), env).rc == MQTT_ERR_SUCCESS {
          assert x.frames[..j][1..] == rest.frames[..j - 1];
        }
        if n < |rest.frames| {
          assert x.frames[..n + 2][1..] == rest.frames[..n + 1];
        }
      }
    }
  }

  /**
   A buffer of encoded frames that the handlers accept one after the other is handled to its last byte: exactly
   these frames reach the handlers, in order, and nothing is left.
   */
  lemma EncodedFramesAreHandled(s: Session, fs: seq<Frame>, env: Env)
    requires forall i :: 0 <= i < |fs| ==> |fs[i].payload| < 0x1_0000
    requires Play(s, Stream(fs, Consumed), env).rc == MQTT_ERR_SUCCESS
    ensures var x := Split(EncodeStream(fs));
            && x.ending == Consumed && Play(s, x, env).rc == MQTT_ERR_SUCCESS
            && Frames(Play(s, x, env).session.log) == Frames(s.log) + fs
  {
    RoundTripIff(fs);
    DispatchIsPrefix(s, Stream(fs, Consumed), env);
    assert fs[..|fs|] == fs;
  }

  /** Two buffers played one after the other are their joined frames played at once. */
  lemma {:induction false} PlayJoin(s: Session, x: Stream, y: Stream, env: Env)
    ensures var r := Play(s, x, env);
            Play(s, Join(x, y), env) ==
            if r.rc != MQTT_ERR_SUCCESS then r
            else var q := Play(r.session, y, env); Outcome(q.session, r.ops + q.ops, q.rc)
    decreases |x.frames|
  {
    if x.ending.Broken? {
      assert Join(x, y) == x;
      BrokenFails(s, x, env);
    } else if x.frames == [] {
      assert x.frames + y.frames == y.frames;
      assert Join(x, y) == y;
    } else {
      var e := Receive(s, x.frames[0], env);
      var rest := Stream(x.frames[1..], x.ending);
      PlayJoin(e.session, rest, y, env);
      assert Join(x, y).frames[1..] == rest.frames + y.frames;
      assert Join(x, y).frames[0] == x.frames[0];
      assert Stream(Join(x, y).frames[1..], y.ending) == Join(rest, y);
    }
  }

  lemma {:induction false} BrokenFails(s: Session, x: Stream, env: Env)
    requires x.ending.Broken?
    ensures Play(s, x, env).rc != MQTT_ERR_SUCCESS
    decreases |x.frames|
  {
    if x.frames != [] {
      BrokenFails(Receive(s, x.frames[0], env).session, Stream(x.frames[1..], x.ending), env);
    }
  }

  // ---------- PUBLISH ----------

  lemma PublishCommandIff(dup: bool, qos: int)
    ensures var c := PublishCommand(dup, qos);
            && (HighNibble(c) == PUBLISH && (c / 8 % 2 == 1) == dup && c / 2 % 4 == qos <==> 0 <= qos < 4)
            && HighNibble(c) / 16 % 4 == 3
  {
    CommandBits(Bit(qos, 0), Bit(qos, 1), if dup || Bit(qos, 2) == 1 then 1 else 0, Bit(qos, 5), Bit(qos, 6));
    if 0 <= qos < 4 {
      SmallBits(qos);
    }
  }

  /** The RETAIN bit is never set. */
  lemma PublishCommandValue(dup: bool, qos: int)
    ensures PublishCommand(dup, qos) % 2 == 0 && PublishCommand(dup, qos) / 16 % 4 == 3
    ensures 0 <= qos < 4 ==> PublishCommand(dup, qos) == 2 * qos + if dup then 0x38 else 0x30
  {
    CommandBits(Bit(qos, 0), Bit(qos, 1), if dup || Bit(qos, 2) == 1 then 1 else 0, Bit(qos, 5), Bit(qos, 6));
    if 0 <= qos < 4 {
      SmallBits(qos);
    }
  }

  lemma SmallBits(qos: int)
    requires 0 <= qos < 4
    ensures Bit(qos, 0) + 2 * Bit(qos, 1) == qos && Bit(qos, 2) == Bit(qos, 5) == Bit(qos, 6) == 0
  {
    assert Bit(qos, 1) == qos / 2;
    assert Bit(0, 4) == 0;
  }

  lemma CommandBits(b1: nat, b2: nat, b3: nat, b6: nat, b7: nat)
    requires b1 <= 1 && b2 <= 1 && b3 <= 1 && b6 <= 1 && b7 <= 1
    ensures var c := 2 * b1 + 4 * b2 + 8 * b3 + 0x30 + 64 * b6 + 128 * b7;
            && c % 2 == 0 && c / 2 % 4 == b1 + 2 * b2 && c / 8 % 2 == b3
            && c / 16 % 4 == 3 && c - c % 16 == 0x30 + 64 * b6 + 128 * b7
  {}

  /** The framing takes a pushed PUBLISH up to its last byte exactly when the body has at most 125 bytes. */
  lemma PublishRoundTripIff(mid: Word, body: ByteString, qos: int, dup: bool)
    ensures var p := PublishFrame(mid, body, qos, dup);
            ParseFrame(p) == Whole(Frame(p[0], WriteWord(mid) + body), |p|) <==> |body| <= 125
  {
    if |body| <= 125 {
      ShortPublish(mid, body, qos, dup);
    } else {
      LongPublish(mid, body, qos, dup);
    }
  }

  lemma ShortPublish(mid: Word, body: ByteString, qos: int, dup: bool)
    requires |body| <= 125
    ensures var p := PublishFrame(mid, body, qos, dup);
            ParseFrame(p) == Whole(Frame(p[0], WriteWord(mid) + body), |p|)
  {
    var p := PublishFrame(mid, body, qos, dup);
    var f := Frame(p[0], WriteWord(mid) + body);
    assert EncodeLength(|f.payload|) == [|body| + 2];
    assert EncodeFrame(f) + [] == p;
    assert Clip(f) == f;
    ParseEncoded(f, []);
  }

  lemma LongPublish(mid: Word, body: ByteString, qos: int, dup: bool)
    requires |body| > 125
    ensures var p := PublishFrame(mid, body, qos, dup);
            ParseFrame(p).Whole? ==> ParseFrame(p).size != |p|
  {
    var p := PublishFrame(mid, body, qos, dup);
    var more := MoreRun(p[1..]);
    if more < MAX_LENGTH_BYTES && 1 + more < |p| {
      var digits := p[1..more + 2];
      LowDigit(digits);
      assert digits[0] == (|body| + 2) % 0x100;
      if more == 0 {
        assert Base128(digits) < 128;
      }
    }
  }

  /** What the receiver reads off the payload is the message id, and the rest is the body. */
  lemma PublishPayload(mid: Word, body: ByteString)
    ensures Read(WriteWord(mid) + body, Uint16) == Reading(Some(U16(mid)), body)
  {
    ReadIff(WriteWord(mid) + body, Uint16, U16(mid), body);
  }

  /** `m` is a PUBLISH of this body; up to 125 bytes of that, the peer takes all of `m` and reads back id and body. */
  ghost predicate IsPublishOf(m: ByteString, mid: Word, body: ByteString, qos: int, dup: bool) {
    && |m| == |body| + 4 && m[1] == (|body| + 2) % 0x100 && m[2] == mid / 0x100 && m[3] == mid % 0x100 && m[4..] == body
    && m[0] / 16 % 4 == 3 && m[0] % 2 == 0
    && (0 <= qos < 4 ==> 2 * qos + (if dup then 0x38 else 0x30) == m[0])
    && (|body| <= 125 ==>
          && ParseFrame(m) == Whole(Frame(m[0], m[2..]), |m|)
          && Read(m[2..], Uint16) == Reading(Some(U16(mid)), body))
  }

  lemma PublishMeaning(mid: Word, body: ByteString, qos: int, dup: bool)
    ensures IsPublishOf(PublishFrame(mid, body, qos, dup), mid, body, qos, dup)
  {
    var m := PublishFrame(mid, body, qos, dup);
    assert m[2..] == WriteWord(mid) + body && m[4..] == body;
    PublishCommandValue(dup, qos);
    PublishPayload(mid, body);
    if |body| <= 125 {
      ShortPublish(mid, body, qos, dup);
    }
  }

  /** A push produces exactly one message, the PUBLISH, and leaves the session otherwise as it was. */
  ghost predicate PushesTo(s: Session, t: Session, m: ByteString, err: int) {
    && Produces(s, t, m, err) && t.log == s.log + [Pushed(m)]
    && t.status == s.status && t.clientId == s.clientId && t.header == s.header && t.timeout == s.timeout
  }

  lemma PushPublishes(s: Session, mid: Word, body: ByteString, qos: int, dup: bool, env: Env)
    ensures var m := PublishFrame(mid, body, qos, dup);
            && PushesTo(s, Push(s, m, env), m, env.sendResult(|s.produced|))
            && IsPublishOf(m, mid, body, qos, dup)
  {
    PublishMeaning(mid, body, qos, dup);
  }

  lemma LowDigit(s: ByteString)
    requires s != []
    ensures Base128(s) % 128 == s[0] % 128
  {}
}
