/**
 Any number of sessions that share one registry. A step is one frame handled by one session, one push by a
 provider, or one write event; steps of different sessions interleave in every order.
 */
module World {
  import opened Bytes
  import opened SocketErrors
  import opened Protocol
  import opened Framing
  import opened Connect
  import opened Session
  import opened SessionRuns
  import opened SessionHandler

  datatype World = World(sessions: map<nat, Session>, registry: map<ByteString, nat>)

  datatype Event =
    | Open(id: nat, header: Header, timeout: int)
    | Arrive(id: nat, frame: Frame)
    | Publish(token: ByteString, mid: Word, body: ByteString, qos: int, dup: bool)
    | WriteReady(id: nat)

  const EMPTY := World(map[], map[])

  function Step(w: World, e: Event, envs: nat -> Env): World {
    match e
    case Open(id, header, timeout) =>
      if id in w.sessions then w else w.(sessions := w.sessions[id := FreshSession(header, timeout)])
    case Arrive(id, f) =>
      if id !in w.sessions then w
      else
        var r := Receive(w.sessions[id], f, envs(id));
        World(w.sessions[id := r.session], Apply(w.registry, r.op, id))
    case Publish(token, mid, body, qos, dup) =>
      if token !in w.registry || w.registry[token] !in w.sessions then w
      else
        var id := w.registry[token];
        w.(sessions := w.sessions[id := Push(w.sessions[id], PublishFrame(mid, body, qos, dup), envs(id))])
    case WriteReady(id) =>
      if id !in w.sessions then w else w.(sessions := w.sessions[id := DropQueued(w.sessions[id])])
  }

  function RunAll(w: World, es: seq<Event>, envs: nat -> Env): World {
    if es == [] then w else Step(RunAll(w, es[..|es| - 1], envs), es[|es| - 1], envs)
  }

  lemma RunSnoc(w: World, es: seq<Event>, e: Event, envs: nat -> Env)
    ensures RunAll(w, es + [e], envs) == Step(RunAll(w, es, envs), e, envs)
  {
    assert (es + [e])[..|es|] == es;
  }

  // ---------- the invariant ----------

  ghost predicate SessionInv(s: Session, env: Env) {
    StatusInv(s, env.json) && TimerInv(s) && ReplyInv(s, env) && OnlyPublishPushed(s.log)
  }

  ghost predicate RegistryInv(w: World) {
    forall k :: k in w.registry ==>
      && w.registry[k] in w.sessions
      && w.sessions[w.registry[k]].status.Connected?
      && w.sessions[w.registry[k]].clientId == k
  }

  ghost predicate Inv(w: World, envs: nat -> Env) {
    RegistryInv(w) && forall id :: id in w.sessions ==> SessionInv(w.sessions[id], envs(id))
  }

  lemma FreshSessionInv(header: Header, timeout: int, env: Env)
    ensures SessionInv(FreshSession(header, timeout), env)
  {}

  lemma ReceiveKeepsSessionInv(s: Session, f: Frame, env: Env)
    requires SessionInv(s, env)
    ensures SessionInv(Receive(s, f, env).session, env)
  {
    ReceiveKeepsStatusInv(s, f, env);
    ReceiveKeepsTimerInv(s, f, env);
    ReceiveKeepsReplyInv(s, f, env);
    HandleLogs(s, f, env);
  }

  lemma PushKeepsSessionInv(s: Session, mid: Word, body: ByteString, qos: int, dup: bool, env: Env)
    requires SessionInv(s, env)
    ensures SessionInv(Push(s, PublishFrame(mid, body, qos, dup), env), env)
  {
    var bytes := PublishFrame(mid, body, qos, dup);
    PushKeepsStatusInv(s, bytes, env);
    PushKeepsTimerInv(s, bytes, env);
    PushKeepsReplyInv(s, bytes, env);
    PushKeepsPublish(s, mid, body, qos, dup, env);
  }

  lemma PushKeepsPublish(s: Session, mid: Word, body: ByteString, qos: int, dup: bool, env: Env)
    requires OnlyPublishPushed(s.log)
    ensures OnlyPublishPushed(Push(s, PublishFrame(mid, body, qos, dup), env).log)
  {
    var log := Push(s, PublishFrame(mid, body, qos, dup), env).log;
    PublishCommandIff(dup, qos);
    assert forall i :: 0 <= i < |s.log| ==> log[i] == s.log[i];
  }

  lemma RegistryStep(w: World, id: nat, t: Session, op: RegistryOp)
    requires RegistryInv(w) && id in w.sessions
    requires op.Insert? ==> w.sessions[id].status.New? && t.status.Connected? && t.clientId == op.key
    requires w.sessions[id].status.Connected? ==>
               (t.status.Connected? && t.clientId == w.sessions[id].clientId) || op == Erase(w.sessions[id].clientId)
    ensures RegistryInv(World(w.sessions[id := t], Apply(w.registry, op, id)))
  {}

  lemma UpdateKeepsInv(w: World, id: nat, t: Session, registry: map<ByteString, nat>, envs: nat -> Env)
    requires Inv(w, envs) && SessionInv(t, envs(id)) && RegistryInv(World(w.sessions[id := t], registry))
    ensures Inv(World(w.sessions[id := t], registry), envs)
  {}

  lemma StepKeepsInv(w: World, e: Event, envs: nat -> Env)
    requires Inv(w, envs)
    ensures Inv(Step(w, e, envs), envs)
  {
    match e
    case Open(id, header, timeout) =>
      OpenKeepsInv(w, id, header, timeout, envs);
    case Arrive(id, f) =>
      if id in w.sessions {
        ArriveKeepsInv(w, id, f, envs);
      }
    case Publish(token, mid, body, qos, dup) =>
      if token in w.registry {
        PublishKeepsInv(w, token, mid, body, qos, dup, envs);
      }
    case WriteReady(id) =>
      if id in w.sessions {
        WriteKeepsInv(w, id, envs);
      }
  }

  lemma OpenKeepsInv(w: World, id: nat, header: Header, timeout: int, envs: nat -> Env)
    requires Inv(w, envs)
    ensures id !in w.sessions ==> Inv(w.(sessions := w.sessions[id := FreshSession(header, timeout)]), envs)
  {
    FreshSessionInv(header, timeout, envs(id));
    if id !in w.sessions {
      UpdateKeepsInv(w, id, FreshSession(header, timeout), w.registry, envs);
    }
  }

  lemma PublishKeepsInv(w: World, token: ByteString, mid: Word, body: ByteString, qos: int, dup: bool, envs: nat -> Env)
    requires Inv(w, envs) && token in w.registry
    ensures var id := w.registry[token];
            var t := Push(w.sessions[id], PublishFrame(mid, body, qos, dup), envs(id));
            Inv(w.(sessions := w.sessions[id := t]), envs)
  {
    var id := w.registry[token];
    PushKeepsSessionInv(w.sessions[id], mid, body, qos, dup, envs(id));
    var t := Push(w.sessions[id], PublishFrame(mid, body, qos, dup), envs(id));
    RegistryStep(w, id, t, Keep);
    UpdateKeepsInv(w, id, t, w.registry, envs);
  }

  lemma DropKeepsSessionInv(s: Session, env: Env)
    requires SessionInv(s, env)
    ensures SessionInv(DropQueued(s), env)
  {
    DropKeepsInvariants(s, env);
  }

  lemma WriteKeepsInv(w: World, id: nat, envs: nat -> Env)
    requires Inv(w, envs) && id in w.sessions
    ensures Inv(w.(sessions := w.sessions[id := DropQueued(w.sessions[id])]), envs)
  {
    DropKeepsSessionInv(w.sessions[id], envs(id));
    RegistryStep(w, id, DropQueued(w.sessions[id]), Keep);
    UpdateKeepsInv(w, id, DropQueued(w.sessions[id]), w.registry, envs);
  }

  lemma ArriveKeepsInv(w: World, id: nat, f: Frame, envs: nat -> Env)
    requires Inv(w, envs) && id in w.sessions
    ensures var r := Receive(w.sessions[id], f, envs(id));
            Inv(World(w.sessions[id := r.session], Apply(w.registry, r.op, id)), envs)
  {
    var r := Receive(w.sessions[id], f, envs(id));
    ReceiveKeepsSessionInv(w.sessions[id], f, envs(id));
    HandleKeepsNames(w.sessions[id], f, envs(id));
    RegistryStep(w, id, r.session, r.op);
    UpdateKeepsInv(w, id, r.session, Apply(w.registry, r.op, id), envs);
  }

  /** The invariant holds after every interleaving of any number of sessions. */
  lemma {:induction false} EveryRunKeepsInv(w: World, es: seq<Event>, envs: nat -> Env)
    requires Inv(w, envs)
    ensures Inv(RunAll(w, es, envs), envs)
  {
    if es != [] {
      EveryRunKeepsInv(w, es[..|es| - 1], envs);
      StepKeepsInv(RunAll(w, es[..|es| - 1], envs), es[|es| - 1], envs);
    }
  }

  // ---------- buffers are runs ----------

  function Arrivals(id: nat, frames: seq<Frame>): seq<Event> {
    if frames == [] then [] else [Arrive(id, frames[0])] + Arrivals(id, frames[1..])
  }

  lemma {:induction false} RunCons(w: World, e: Event, es: seq<Event>, envs: nat -> Env)
    ensures RunAll(w, [e] + es, envs) == RunAll(Step(w, e, envs), es, envs)
    decreases |es|
  {
    var all := [e] + es;
    if es == [] {
      assert all == [] + [e];
      RunSnoc(w, [], e, envs);
    } else {
      var init, last := es[..|es| - 1], es[|es| - 1];
      assert all[..|all| - 1] == [e] + init;
      RunCons(w, e, init, envs);
    }
  }

  lemma {:induction false} OpsBound(s: Session, x: Stream, env: Env)
    ensures |Play(s, x, env).ops| <= |x.frames|
    ensures x.frames != [] ==> Play(s, x, env).ops != []
    decreases |x.frames|
  {
    if x.frames != [] {
      OpsBound(Receive(s, x.frames[0], env).session, Stream(x.frames[1..], x.ending), env);
    }
  }

  /** Handling one buffer is a run of frame steps of one session: all frames up to the first that fails. */
  lemma {:induction false} BufferIsRun(w: World, id: nat, x: Stream, envs: nat -> Env)
    requires id in w.sessions
    ensures var o := Play(w.sessions[id], x, envs(id));
            && |o.ops| <= |x.frames|
            && RunAll(w, Arrivals(id, x.frames[..|o.ops|]), envs) ==
               World(w.sessions[id := o.session], ApplyAll(w.registry, o.ops, id))
    decreases |x.frames|
  {
    var s := w.sessions[id];
    if x.frames == [] {
      assert w.sessions[id := s] == w.sessions;
    } else {
      var f, rest := x.frames[0], Stream(x.frames[1..], x.ending);
      var e := Receive(s, f, envs(id));
      var w' := World(w.sessions[id := e.session], Apply(w.registry, e.op, id));
      var n := |Play(s, x, envs(id)).ops|;
      OpsBound(s, x, envs(id));
      assert x.frames[..n] == [f] + x.frames[1..][..n - 1];
      assert Arrivals(id, x.frames[..n]) == [Arrive(id, f)] + Arrivals(id, rest.frames[..n - 1]);
      RunCons(w, Arrive(id, f), Arrivals(id, rest.frames[..n - 1]), envs);
      if e.rc == MQTT_ERR_SUCCESS {
        BufferIsRun(w', id, rest, envs);
        var t := Play(e.session, rest, envs(id)).session;
        assert w.sessions[id := e.session][id := t] == w.sessions[id := t];
      }
    }
  }

  // ---------- what an entry means ----------

  /** The key is the user name that this CONNECT carries, in its first and again in its second half. */
  predicate NamesTwice(k: ByteString, f: Frame, json: JsonLookup) {
    var v := Judge(f.payload, json);
    v.Accepted? && |k| == 32 && k[..16] == v.user && k[16..] == v.user
  }

  /**
   In every world that can be reached, an entry names a connected session that sent one accepted CONNECT with
   a 16-byte user name, and its key is that user name twice; no session has two entries.
   */
  lemma EntryMeaning(es: seq<Event>, envs: nat -> Env, k: ByteString)
    requires k in RunAll(EMPTY, es, envs).registry
    ensures var w := RunAll(EMPTY, es, envs);
            && w.registry[k] in w.sessions
            && var s := w.sessions[w.registry[k]];
            && s.status.Connected? && s.clientId == k
            && (exists i :: Established(s, i, envs(w.registry[k]).json) &&
                            NamesTwice(k, s.log[i].frame, envs(w.registry[k]).json))
            && forall j :: j in w.registry && w.registry[j] == w.registry[k] ==> j == k
  {
    EveryRunKeepsInv(EMPTY, es, envs);
    var w := RunAll(EMPTY, es, envs);
    var s := w.sessions[w.registry[k]];
    var json := envs(w.registry[k]).json;
    var i :| Established(s, i, json);
    assert NamesTwice(k, s.log[i].frame, json);
  }

  /**
   In every run the status of a session is what its frames say: new as long as no CONNECT was accepted, and
   exactly one is accepted otherwise; disconnecting exactly after a DISCONNECT; only CONNECT frames reach the
   handlers of a new session; the statuses at which frames were handled never go back; and the timer is set
   for the keep-alive time only while the session is connected and has not sent a second CONNECT.
   */
  lemma EveryRunStatus(es: seq<Event>, envs: nat -> Env, id: nat)
    requires id in RunAll(EMPTY, es, envs).sessions
    ensures var s, json := RunAll(EMPTY, es, envs).sessions[id], envs(id).json;
            && (s.status.New? <==> forall i :: 0 <= i < |s.log| ==> !Accepts(s.log[i], json))
            && (forall i, j :: 0 <= i < j < |s.log| ==> !(Accepts(s.log[i], json) && Accepts(s.log[j], json)))
            && (s.status.Disconnecting? <==> exists i :: 0 <= i < |s.log| && IsDisconnect(s.log[i]))
            && Ordered(s) && TimerInv(s)
  {
    EveryRunKeepsInv(EMPTY, es, envs);
    var s, json := RunAll(EMPTY, es, envs).sessions[id], envs(id).json;
    assert StatusInv(s, json);
    if !s.status.New? {
      var i :| Established(s, i, json);
      assert Accepts(s.log[i], json);
    }
  }

  /** Every session of every run answers for its responses. */
  lemma EveryRunAccounts(es: seq<Event>, envs: nat -> Env, id: nat)
    requires id in RunAll(EMPTY, es, envs).sessions
    ensures var s := RunAll(EMPTY, es, envs).sessions[id];
            && AnswersLog(s, envs(id).json)
            && multiset(AllBytes(s.produced))[[0xD0, 0]] == Pings(s.log)
            && multiset(AllBytes(s.produced))[[0x20, 2, 0, 0]] == (if s.status.New? then 0 else 1)
            && Connacks(AllBytes(s.produced)) == FirstConnects(s.log)
            && s.accepted == Taken(s.produced, true)
            && s.discarded <= |Taken(s.produced, false)|
            && s.msgList == Taken(s.produced, false)[s.discarded..]
            && s.discarded == Emptied(es, envs, id)
  {
    EveryRunKeepsInv(EMPTY, es, envs);
    ResponseAccounting(RunAll(EMPTY, es, envs).sessions[id], envs(id));
    DiscardedIsEmptied(es, envs, id);
  }

  /** How many write events of `id` have met a message in its queue. */
  function Emptied(es: seq<Event>, envs: nat -> Env, id: nat): nat {
    if es == [] then 0
    else
      var init, e := es[..|es| - 1], es[|es| - 1];
      var w := RunAll(EMPTY, init, envs);
      Emptied(init, envs, id) +
      if e == WriteReady(id) && id in w.sessions && w.sessions[id].msgList != [] then 1 else 0
  }

  function Discarded(w: World, id: nat): nat {
    if id in w.sessions then w.sessions[id].discarded else 0
  }

  lemma ReceiveDiscardsNothing(s: Session, f: Frame, env: Env)
    ensures Receive(s, f, env).session.discarded == s.discarded
  {}

  lemma StepDiscards(w: World, e: Event, envs: nat -> Env, id: nat)
    ensures Discarded(Step(w, e, envs), id) == Discarded(w, id) +
            if e == WriteReady(id) && id in w.sessions && w.sessions[id].msgList != [] then 1 else 0
  {
    if e.Arrive? && e.id in w.sessions {
      ReceiveDiscardsNothing(w.sessions[e.id], e.frame, envs(e.id));
    }
  }

  /** Each of them takes one message off, and nothing else does. */
  lemma {:induction false} DiscardedIsEmptied(es: seq<Event>, envs: nat -> Env, id: nat)
    ensures Discarded(RunAll(EMPTY, es, envs), id) == Emptied(es, envs, id)
  {
    if es != [] {
      DiscardedIsEmptied(es[..|es| - 1], envs, id);
      StepDiscards(RunAll(EMPTY, es[..|es| - 1], envs), es[|es| - 1], envs, id);
    }
  }

  // ---------- how an entry comes and goes ----------

  lemma InsertsIff(s: Session, f: Frame, env: Env, k: ByteString)
    ensures Receive(s, f, env).op == Insert(k) <==> ConnectsAs(s, f, env.json, k)
  {}

  lemma ApplyEntersIff(m: map<ByteString, nat>, op: RegistryOp, self: nat, k: ByteString, id: nat)
    requires !(k in m && m[k] == id)
    ensures k in Apply(m, op, self) && Apply(m, op, self)[k] == id <==> op == Insert(k) && self == id && k !in m
  {}

  /** A step gives `id` the entry `k` exactly when it is the CONNECT of `id` accepted under a name still free. */
  lemma EntersIff(w: World, e: Event, envs: nat -> Env, k: ByteString, id: nat)
    requires !(k in w.registry && w.registry[k] == id)
    ensures var after := Step(w, e, envs).registry;
            k in after && after[k] == id <==>
            && e.Arrive? && e.id == id && id in w.sessions && k !in w.registry
            && ConnectsAs(w.sessions[id], e.frame, envs(id).json, k)
  {
    if e.Arrive? && e.id in w.sessions {
      InsertsIff(w.sessions[e.id], e.frame, envs(e.id), k);
      ApplyEntersIff(w.registry, Receive(w.sessions[e.id], e.frame, envs(e.id)).op, e.id, k, id);
    }
  }

  /** The frames that take the entry `k` away: a later CONNECT or a DISCONNECT of a session of that name, or a
      refused CONNECT of a session whose name, or whose raw user name, equals it. */
  predicate Evicts(w: World, e: Event, envs: nat -> Env, k: ByteString) {
    && e.Arrive? && e.id in w.sessions
    && var s := w.sessions[e.id];
       if s.status.New?
       then
         && IsType(e.frame, CONNECT)
         && var v := Judge(e.frame.payload, envs(e.id).json);
            !v.Accepted? && (if v.BadUser? then v.user else s.clientId) == k
       else (IsType(e.frame, CONNECT) || IsType(e.frame, DISCONNECT)) && s.clientId == k
  }

  lemma LeavesIff(w: World, e: Event, envs: nat -> Env, k: ByteString)
    requires k in w.registry
    ensures k !in Step(w, e, envs).registry <==> Evicts(w, e, envs, k)
    ensures k in Step(w, e, envs).registry ==> Step(w, e, envs).registry[k] == w.registry[k]
  {}

  /**
   An established owner is never overwritten: an entry has the same owner after a run, and at every moment
   of it, exactly when no frame of the run takes it away.
   */
  lemma {:induction false} OwnerStaysIff(w: World, es: seq<Event>, envs: nat -> Env, k: ByteString)
    requires k in w.registry
    ensures (forall i :: 0 <= i < |es| ==> !Evicts(RunAll(w, es[..i], envs), es[i], envs, k)) <==>
            forall i :: 0 <= i <= |es| ==>
              k in RunAll(w, es[..i], envs).registry && RunAll(w, es[..i], envs).registry[k] == w.registry[k]
  {
    if forall i :: 0 <= i < |es| ==> !Evicts(RunAll(w, es[..i], envs), es[i], envs, k) {
      forall i | 0 <= i <= |es|
        ensures k in RunAll(w, es[..i], envs).registry && RunAll(w, es[..i], envs).registry[k] == w.registry[k]
      {
        OwnerStaysUpTo(w, es, envs, k, i);
      }
    } else {
      var i :| 0 <= i < |es| && Evicts(RunAll(w, es[..i], envs), es[i], envs, k);
      var before := RunAll(w, es[..i], envs);
      PrefixStep(w, es, envs, i);
      if k in before.registry {
        LeavesIff(before, es[i], envs, k);
        assert k !in RunAll(w, es[..i + 1], envs).registry;
      }
    }
  }

  lemma PrefixStep(w: World, es: seq<Event>, envs: nat -> Env, i: nat)
    requires i < |es|
    ensures RunAll(w, es[..i + 1], envs) == Step(RunAll(w, es[..i], envs), es[i], envs)
  {
    assert es[..i + 1][..i] == es[..i];
  }

  lemma {:induction false} OwnerStaysUpTo(w: World, es: seq<Event>, envs: nat -> Env, k: ByteString, i: nat)
    requires k in w.registry && i <= |es|
    requires forall j :: 0 <= j < |es| ==> !Evicts(RunAll(w, es[..j], envs), es[j], envs, k)
    ensures k in RunAll(w, es[..i], envs).registry && RunAll(w, es[..i], envs).registry[k] == w.registry[k]
    decreases i
  {
    if i > 0 {
      OwnerStaysUpTo(w, es, envs, k, i - 1);
      PrefixStep(w, es, envs, i - 1);
      LeavesIff(RunAll(w, es[..i - 1], envs), es[i - 1], envs, k);
    }
  }

  // ---------- who has an entry at the end of a run ----------

  function Before(es: seq<Event>, envs: nat -> Env, i: nat): World
    requires i <= |es|
  {
    RunAll(EMPTY, es[..i], envs)
  }

  /** Event `i` is the CONNECT of `id` that is accepted under the name `k`. */
  predicate AcceptedAt(es: seq<Event>, envs: nat -> Env, id: nat, k: ByteString, i: nat) {
    && i < |es| && es[i].Arrive? && es[i].id == id && id in Before(es, envs, i).sessions
    && ConnectsAs(Before(es, envs, i).sessions[id], es[i].frame, envs(id).json, k)
  }

  predicate Holds(w: World, k: ByteString, id: nat) {
    k in w.registry && w.registry[k] == id
  }

  predicate IsNew(w: World, id: nat) {
    id in w.sessions ==> w.sessions[id].status.New?
  }

  lemma AcceptedName(s: Session, f: Frame, env: Env)
    ensures var t := Receive(s, f, env).session;
            if s.status.New? then !t.status.New? ==> ConnectsAs(s, f, env.json, t.clientId)
            else !t.status.New? && t.clientId == s.clientId
    ensures forall k :: ConnectsAs(s, f, env.json, k) ==> !Receive(s, f, env).session.status.New?
  {}

  lemma PushKeepsName(s: Session, bytes: ByteString, env: Env)
    ensures Push(s, bytes, env).status == s.status && Push(s, bytes, env).clientId == s.clientId
  {}

  /** Whatever is not a frame of `id` leaves its status and its name alone. */
  lemma OthersKeepName(w: World, e: Event, envs: nat -> Env, id: nat)
    requires !(e.Arrive? && e.id == id)
    ensures var v := Step(w, e, envs);
            && IsNew(v, id) == IsNew(w, id)
            && (!IsNew(w, id) ==> v.sessions[id].clientId == w.sessions[id].clientId)
  {
    if e.Publish? && e.token in w.registry && w.registry[e.token] in w.sessions {
      var owner := w.registry[e.token];
      PushKeepsName(w.sessions[owner], PublishFrame(e.mid, e.body, e.qos, e.dup), envs(owner));
    }
  }

  lemma ArriveSets(w: World, f: Frame, envs: nat -> Env, id: nat)
    requires id in w.sessions
    ensures var v := Step(w, Arrive(id, f), envs);
            id in v.sessions && v.sessions[id] == Receive(w.sessions[id], f, envs(id)).session
  {}

  /** A session stops being new by its accepted CONNECT only, and then keeps its name. */
  lemma NewUntilAccepted(w: World, e: Event, envs: nat -> Env, id: nat)
    ensures var v := Step(w, e, envs);
            && (!IsNew(w, id) ==> !IsNew(v, id) && v.sessions[id].clientId == w.sessions[id].clientId)
            && (IsNew(w, id) && !IsNew(v, id) ==>
                  && e.Arrive? && e.id == id && id in w.sessions
                  && ConnectsAs(w.sessions[id], e.frame, envs(id).json, v.sessions[id].clientId))
  {
    if e.Arrive? && e.id == id {
      if id in w.sessions {
        ArriveSets(w, e.frame, envs, id);
        AcceptedName(w.sessions[id], e.frame, envs(id));
      }
    } else {
      OthersKeepName(w, e, envs, id);
    }
  }

  lemma {:induction false} AcceptedBefore(es: seq<Event>, envs: nat -> Env, id: nat, n: nat) returns (i: nat)
    requires n <= |es| && !IsNew(Before(es, envs, n), id)
    ensures i < n && AcceptedAt(es, envs, id, Before(es, envs, n).sessions[id].clientId, i)
    decreases n
  {
    if n == 0 {
      assert false;
    } else {
      AcceptedNow(es, envs, id, n - 1);
      if IsNew(Before(es, envs, n - 1), id) {
        i := n - 1;
      } else {
        i := AcceptedBefore(es, envs, id, n - 1);
      }
    }
  }

  lemma AcceptedNow(es: seq<Event>, envs: nat -> Env, id: nat, i: nat)
    requires i < |es| && !IsNew(Before(es, envs, i + 1), id)
    ensures var k := Before(es, envs, i + 1).sessions[id].clientId;
            if IsNew(Before(es, envs, i), id) then AcceptedAt(es, envs, id, k, i)
            else Before(es, envs, i).sessions[id].clientId == k
  {
    PrefixStep(EMPTY, es, envs, i);
    NewUntilAccepted(Before(es, envs, i), es[i], envs, id);
  }

  lemma {:induction false} NotNewStays(es: seq<Event>, envs: nat -> Env, id: nat, a: nat, b: nat)
    requires a <= b <= |es| && !IsNew(Before(es, envs, a), id)
    ensures !IsNew(Before(es, envs, b), id)
    decreases b
  {
    if a < b {
      NotNewStays(es, envs, id, a, b - 1);
      PrefixStep(EMPTY, es, envs, b - 1);
      NewUntilAccepted(Before(es, envs, b - 1), es[b - 1], envs, id);
    }
  }

  lemma AcceptedEnds(es: seq<Event>, envs: nat -> Env, id: nat, k: ByteString, i: nat)
    requires AcceptedAt(es, envs, id, k, i)
    ensures IsNew(Before(es, envs, i), id) && !IsNew(Before(es, envs, i + 1), id)
  {
    PrefixStep(EMPTY, es, envs, i);
    AcceptedName(Before(es, envs, i).sessions[id], es[i].frame, envs(id));
  }

  lemma AcceptedOnce(es: seq<Event>, envs: nat -> Env, id: nat, k: ByteString, i: nat, l: ByteString, j: nat)
    requires AcceptedAt(es, envs, id, k, i) && AcceptedAt(es, envs, id, l, j)
    ensures i == j
  {
    AcceptedEnds(es, envs, id, k, i);
    AcceptedEnds(es, envs, id, l, j);
    if i < j {
      NotNewStays(es, envs, id, i + 1, j);
    } else if j < i {
      NotNewStays(es, envs, id, j + 1, i);
    }
  }

  /** An entry that is not evicted stays. */
  lemma {:induction false} HoldsOn(es: seq<Event>, envs: nat -> Env, id: nat, k: ByteString, a: nat, b: nat)
    requires a <= b <= |es| && Holds(Before(es, envs, a), k, id)
    requires forall j :: a <= j < b ==> !Evicts(Before(es, envs, j), es[j], envs, k)
    ensures Holds(Before(es, envs, b), k, id)
    decreases b
  {
    if a < b {
      HoldsOn(es, envs, id, k, a, b - 1);
      PrefixStep(EMPTY, es, envs, b - 1);
      LeavesIff(Before(es, envs, b - 1), es[b - 1], envs, k);
    }
  }

  /** A session that is not new and has no entry never gets one. */
  lemma {:induction false} NeverRegains(es: seq<Event>, envs: nat -> Env, id: nat, k: ByteString, a: nat, b: nat)
    requires a <= b <= |es| && !IsNew(Before(es, envs, a), id) && !Holds(Before(es, envs, a), k, id)
    ensures !Holds(Before(es, envs, b), k, id)
    decreases b
  {
    if a < b {
      NeverRegains(es, envs, id, k, a, b - 1);
      NotNewStays(es, envs, id, a, b - 1);
      PrefixStep(EMPTY, es, envs, b - 1);
      EntersIff(Before(es, envs, b - 1), es[b - 1], envs, k, id);
    }
  }

  lemma NewHoldsNothing(es: seq<Event>, envs: nat -> Env, id: nat, k: ByteString, i: nat)
    requires i <= |es| && IsNew(Before(es, envs, i), id)
    ensures !Holds(Before(es, envs, i), k, id)
  {
    EveryRunKeepsInv(EMPTY, es[..i], envs);
  }

  /** The name was free when the CONNECT arrived, and no later event took the entry away. */
  predicate Undisturbed(es: seq<Event>, envs: nat -> Env, k: ByteString, i: nat)
    requires i < |es|
  {
    k !in Before(es, envs, i).registry && forall j :: i < j < |es| ==> !Evicts(Before(es, envs, j), es[j], envs, k)
  }

  lemma HoldsIffUndisturbed(es: seq<Event>, envs: nat -> Env, id: nat, k: ByteString, i: nat)
    requires AcceptedAt(es, envs, id, k, i)
    ensures Holds(Before(es, envs, |es|), k, id) <==> Undisturbed(es, envs, k, i)
  {
    AcceptedEnds(es, envs, id, k, i);
    NewHoldsNothing(es, envs, id, k, i);
    PrefixStep(EMPTY, es, envs, i);
    EntersIff(Before(es, envs, i), es[i], envs, k, id);
    if k in Before(es, envs, i).registry {
      NeverRegains(es, envs, id, k, i + 1, |es|);
    } else if j :| i < j < |es| && Evicts(Before(es, envs, j), es[j], envs, k) {
      EvictedForGood(es, envs, id, k, i + 1, j);
    } else {
      HoldsOn(es, envs, id, k, i + 1, |es|);
    }
  }

  lemma EvictedLoses(es: seq<Event>, envs: nat -> Env, id: nat, k: ByteString, j: nat)
    requires j < |es| && Evicts(Before(es, envs, j), es[j], envs, k)
    ensures !Holds(Before(es, envs, j + 1), k, id)
  {
    PrefixStep(EMPTY, es, envs, j);
    EvictsErases(Before(es, envs, j), es[j], envs, k);
  }

  lemma EvictedForGood(es: seq<Event>, envs: nat -> Env, id: nat, k: ByteString, i: nat, j: nat)
    requires i <= j < |es| && !IsNew(Before(es, envs, i), id) && Evicts(Before(es, envs, j), es[j], envs, k)
    ensures !Holds(Before(es, envs, |es|), k, id)
  {
    NotNewStays(es, envs, id, i, j + 1);
    EvictedLoses(es, envs, id, k, j);
    NeverRegains(es, envs, id, k, j + 1, |es|);
  }

  lemma EvictsErases(w: World, e: Event, envs: nat -> Env, k: ByteString)
    requires Evicts(w, e, envs, k)
    ensures k !in Step(w, e, envs).registry
  {}

  /**
   A session whose CONNECT was accepted, so every connected one, has its entry at the end of a run exactly if
   the name was free when that CONNECT, of which there is only one, arrived, and no later event evicted it.
   */
  lemma RegisteredIff(es: seq<Event>, envs: nat -> Env, id: nat) returns (i: nat)
    requires !IsNew(RunAll(EMPTY, es, envs), id)
    ensures var w := RunAll(EMPTY, es, envs);
            var k := w.sessions[id].clientId;
            && AcceptedAt(es, envs, id, k, i) && NamesTwice(k, es[i].frame, envs(id).json)
            && (forall l, j :: AcceptedAt(es, envs, id, l, j) ==> j == i)
            && (k in w.registry && w.registry[k] == id <==> Undisturbed(es, envs, k, i))
  {
    assert es[..|es|] == es;
    i := AcceptedBefore(es, envs, id, |es|);
    var k := RunAll(EMPTY, es, envs).sessions[id].clientId;
    forall l, j | AcceptedAt(es, envs, id, l, j) ensures j == i {
      AcceptedOnce(es, envs, id, k, i, l, j);
    }
    HoldsIffUndisturbed(es, envs, id, k, i);
    AcceptedNamesTwice(Before(es, envs, i).sessions[id], es[i].frame, envs(id), k);
  }

  lemma AcceptedNamesTwice(s: Session, f: Frame, env: Env, k: ByteString)
    requires ConnectsAs(s, f, env.json, k)
    ensures NamesTwice(k, f, env.json)
  {
    var user := Judge(f.payload, env.json).user;
    assert (user + user)[..16] == user == (user + user)[16..];
  }

  /** Two sessions that were accepted under the same name gave the same user name. */
  lemma SameKeySameUser(es: seq<Event>, envs: nat -> Env, k: ByteString, a: nat, i: nat, b: nat, j: nat)
    requires AcceptedAt(es, envs, a, k, i) && AcceptedAt(es, envs, b, k, j)
    ensures Judge(es[i].frame.payload, envs(a).json).user == Judge(es[j].frame.payload, envs(b).json).user
  {
    AcceptedNamesTwice(Before(es, envs, i).sessions[a], es[i].frame, envs(a), k);
    AcceptedNamesTwice(Before(es, envs, j).sessions[b], es[j].frame, envs(b), k);
  }

  // ---------- pushes ----------

  /**
   A push makes the one session that connected under the token produce exactly one message, the PUBLISH of this body,
   which the socket takes or which goes to the end of the queue; no other session changes. Without an entry nothing
   happens at all.
   */
  lemma PushReachesOwner(es: seq<Event>, envs: nat -> Env, token: ByteString,
                         mid: Word, body: ByteString, qos: int, dup: bool)
    ensures var w := RunAll(EMPTY, es, envs);
            var after := Step(w, Publish(token, mid, body, qos, dup), envs);
            && after.registry == w.registry
            && (token !in w.registry ==> after == w)
            && (token in w.registry ==>
                  var id := w.registry[token];
                  && id in w.sessions && w.sessions[id].status.Connected? && w.sessions[id].clientId == token
                  && id in after.sessions && after.sessions == w.sessions[id := after.sessions[id]]
                  && exists m :: IsPublishOf(m, mid, body, qos, dup) &&
                                 PushesTo(w.sessions[id], after.sessions[id], m,
                                          envs(id).sendResult(|w.sessions[id].produced|)))
  {
    EveryRunKeepsInv(EMPTY, es, envs);
    var w := RunAll(EMPTY, es, envs);
    if token in w.registry {
      PushPublishes(w.sessions[w.registry[token]], mid, body, qos, dup, envs(w.registry[token]));
      PublishStep(w, token, mid, body, qos, dup, envs);
    }
  }

  lemma PublishStep(w: World, token: ByteString, mid: Word, body: ByteString, qos: int, dup: bool, envs: nat -> Env)
    requires token in w.registry && w.registry[token] in w.sessions
    ensures var id := w.registry[token];
            Step(w, Publish(token, mid, body, qos, dup), envs) ==
            w.(sessions := w.sessions[id := Push(w.sessions[id], PublishFrame(mid, body, qos, dup), envs(id))])
  {}

  // ---------- connected sessions without an entry ----------

  lemma LaterConnect(s: Session, f: Frame, env: Env)
    requires !s.status.New? && IsType(f, CONNECT)
    ensures var r := Receive(s, f, env);
            r.op == Erase(s.clientId) && r.session.status == s.status && r.session.clientId == s.clientId
  {}

  lemma AcceptedConnect(s: Session, f: Frame, env: Env, k: ByteString)
    requires ConnectsAs(s, f, env.json, k)
    ensures var r := Receive(s, f, env);
            r.op == Insert(k) && r.session.status.Connected? && r.session.clientId == k
    ensures AllBytes(Receive(s, f, env).session.produced) == AllBytes(s.produced) + [ConnackBytes(MQTT_ERR_SUCCESS)]
  {
    InsertsIff(s, f, env, k);
    HandleKeepsNames(s, f, env);
    var r := Receive(s, f, env).session;
    assert r.produced[..|s.produced|] == s.produced;
  }

  lemma RawNameConnect(s: Session, f: Frame, env: Env, k: ByteString)
    requires s.status.New? && IsType(f, CONNECT) && Judge(f.payload, env.json) == BadUser(k)
    ensures Receive(s, f, env).op == Erase(k)
  {}

  /** Some CONNECT payload is accepted, or refused for its user name, whatever that is. */
  function SomeConnect(): Frame {
    Frame(CONNECT, ConnectPayload(Header(PROTOCOL_NAME, 3, 0, 60), []))
  }

  function Fixed(user: ByteString): Env {
    Env(text => Some(user), n => NO_ERROR, n => false)
  }

  lemma SomeConnectVerdict(user: ByteString)
    ensures Judge(SomeConnect().payload, Fixed(user).json) ==
            if |user| == USERNAME_LENGTH then Accepted(60, user) else BadUser(user)
  {
    var h := Header(PROTOCOL_NAME, 3, 0, 60);
    HeaderRoundTrip(h, [], h, Fixed(user).json);
  }

  lemma ArriveStep(w: World, id: nat, f: Frame, envs: nat -> Env)
    requires id in w.sessions
    ensures var r := Receive(w.sessions[id], f, envs(id));
            Step(w, Arrive(id, f), envs) == World(w.sessions[id := r.session], Apply(w.registry, r.op, id))
  {}

  /** Two sessions are open, and the first one has connected under the name `user`. */
  lemma FirstConnected(user: ByteString, envs: nat -> Env) returns (es: seq<Event>)
    requires |user| == USERNAME_LENGTH && envs(0) == Fixed(user)
    ensures var w := RunAll(EMPTY, es, envs);
            && w.sessions.Keys == {0, 1} && w.registry == map[user + user := 0]
            && w.sessions[0].status.Connected? && w.sessions[0].clientId == user + user
            && w.sessions[1] == FreshSession(Header(PROTOCOL_NAME, 3, 0, 60), 0)
  {
    var h := Header(PROTOCOL_NAME, 3, 0, 60);
    es := [] + [Open(0, h, 0)] + [Open(1, h, 0)] + [Arrive(0, SomeConnect())];
    RunSnoc(EMPTY, [], Open(0, h, 0), envs);
    RunSnoc(EMPTY, [] + [Open(0, h, 0)], Open(1, h, 0), envs);
    RunSnoc(EMPTY, [] + [Open(0, h, 0)] + [Open(1, h, 0)], Arrive(0, SomeConnect()), envs);
    var w := World(map[0 := FreshSession(h, 0), 1 := FreshSession(h, 0)], map[]);
    assert Step(Step(EMPTY, Open(0, h, 0), envs), Open(1, h, 0), envs) == w;
    SomeConnectVerdict(user);
    AcceptedConnect(w.sessions[0], SomeConnect(), envs(0), user + user);
    ArriveStep(w, 0, SomeConnect(), envs);
  }

  /** A connected session need not have an entry: its own second CONNECT takes it away. */
  lemma ConnectedButUnregistered(user: ByteString)
    requires |user| == USERNAME_LENGTH
    ensures exists es: seq<Event>, envs: nat -> Env ::
              var w := RunAll(EMPTY, es, envs);
              0 in w.sessions && w.sessions[0].status.Connected? && w.sessions[0].clientId !in w.registry
  {
    var envs: nat -> Env := id => Fixed(user);
    var es := FirstConnected(user, envs);
    var w := RunAll(EMPTY, es, envs);
    LaterConnect(w.sessions[0], SomeConnect(), envs(0));
    ArriveStep(w, 0, SomeConnect(), envs);
    RunSnoc(EMPTY, es, Arrive(0, SomeConnect()), envs);
    var v := RunAll(EMPTY, es + [Arrive(0, SomeConnect())], envs);
    assert 0 in v.sessions && v.sessions[0].status.Connected? && v.sessions[0].clientId !in v.registry;
  }

  /** A CONNECT under a taken name is accepted and answered with code 0, but the entry stays with its owner. */
  lemma TakenNameIsAccepted(user: ByteString)
    requires |user| == USERNAME_LENGTH
    ensures exists es: seq<Event>, envs: nat -> Env ::
              var w := RunAll(EMPTY, es, envs);
              && 1 in w.sessions && w.sessions[1].status.Connected? && w.sessions[1].clientId == user + user
              && AllBytes(w.sessions[1].produced) == [ConnackBytes(0)]
              && w.registry == map[user + user := 0]
  {
    var envs: nat -> Env := id => Fixed(user);
    var es := FirstConnected(user, envs);
    var w := RunAll(EMPTY, es, envs);
    SomeConnectVerdict(user);
    AcceptedConnect(w.sessions[1], SomeConnect(), envs(1), user + user);
    ArriveStep(w, 1, SomeConnect(), envs);
    RunSnoc(EMPTY, es, Arrive(1, SomeConnect()), envs);
    var v := RunAll(EMPTY, es + [Arrive(1, SomeConnect())], envs);
    assert 1 in v.sessions && v.sessions[1].status.Connected? && v.sessions[1].clientId == user + user;
    assert AllBytes(v.sessions[1].produced) == [ConnackBytes(0)];
  }

  /** The refused CONNECT of another session, whose raw user name is the token, takes the entry of its owner away. */
  lemma RefusedConnectEvicts(user: ByteString)
    requires |user| == USERNAME_LENGTH
    ensures exists es: seq<Event>, envs: nat -> Env ::
              var w := RunAll(EMPTY, es, envs);
              && 0 in w.sessions && w.sessions[0].status.Connected? && w.sessions[0].clientId == user + user
              && 1 in w.sessions && w.sessions[1].status.New? && w.registry == map[]
  {
    var envs: nat -> Env := id => Fixed(if id == 0 then user else user + user);
    var es := FirstConnected(user, envs);
    var w := RunAll(EMPTY, es, envs);
    SomeConnectVerdict(user + user);
    RawNameConnect(w.sessions[1], SomeConnect(), envs(1), user + user);
    HandleKeepsNames(w.sessions[1], SomeConnect(), envs(1));
    AcceptedName(w.sessions[1], SomeConnect(), envs(1));
    ArriveStep(w, 1, SomeConnect(), envs);
    RunSnoc(EMPTY, es, Arrive(1, SomeConnect()), envs);
    var v := RunAll(EMPTY, es + [Arrive(1, SomeConnect())], envs);
    assert v.registry == map[];
    assert v.sessions[1].status.New?;
  }
}
