/**
 In which state a run leaves a client: every flag of it, its timer and its status are what the last event that
 touches them says. The events are described by what they meet and by their outcome, not by what they do.
 */
module ClientState {
  import opened Bytes
  import opened Sender
  import opened SenderRuns

  // ---------- the last event decides ----------

  function Moment(es: seq<Event>, i: nat): Outbound {
    if i <= |es| then RunAll(START, es[..i]) else START
  }

  /** Some event of the run sets, and none after it clears. */
  ghost predicate SetLast(es: seq<Event>, sets: (Outbound, Event) -> bool, clears: (Outbound, Event) -> bool) {
    exists i :: 0 <= i < |es| && sets(Moment(es, i), es[i]) &&
                forall j :: i < j < |es| ==> !clears(Moment(es, j), es[j])
  }

  ghost predicate Untouched(es: seq<Event>, clears: (Outbound, Event) -> bool) {
    forall j :: 0 <= j < |es| ==> !clears(Moment(es, j), es[j])
  }

  ghost predicate Decides(on: Outbound -> bool, sets: (Outbound, Event) -> bool, clears: (Outbound, Event) -> bool) {
    forall v, e :: on(Step(v, e)) <==> sets(v, e) || (on(v) && !clears(v, e))
  }

  lemma MomentStep(es: seq<Event>, i: nat)
    requires i < |es|
    ensures Moment(es, i + 1) == Step(Moment(es, i), es[i])
  {
    RunStep(START, es, i);
  }

  lemma MomentPrefix(es: seq<Event>, n: nat, i: nat)
    requires i <= n <= |es|
    ensures Moment(es[..n], i) == Moment(es, i)
  {
    assert es[..n][..i] == es[..i];
  }

  lemma {:induction false} LastDecides(es: seq<Event>, on: Outbound -> bool,
                                       sets: (Outbound, Event) -> bool, clears: (Outbound, Event) -> bool)
    requires Decides(on, sets, clears)
    ensures on(RunAll(START, es)) <==> SetLast(es, sets, clears) || (on(START) && Untouched(es, clears))
  {
    if es != [] {
      var n := |es| - 1;
      LastDecides(es[..n], on, sets, clears);
      LastStep(es, sets, clears);
      MomentStep(es, n);
      assert es[..n + 1] == es;
    }
  }

  lemma LastStep(es: seq<Event>, sets: (Outbound, Event) -> bool, clears: (Outbound, Event) -> bool)
    requires es != []
    ensures var n := |es| - 1;
            var v := Moment(es, n);
            && (SetLast(es, sets, clears) <==>
                  sets(v, es[n]) || (SetLast(es[..n], sets, clears) && !clears(v, es[n])))
            && (Untouched(es, clears) <==> Untouched(es[..n], clears) && !clears(v, es[n]))
  {
    var n := |es| - 1;
    forall i: nat | i <= n ensures Moment(es[..n], i) == Moment(es, i) {
      MomentPrefix(es, n, i);
    }
    if SetLast(es[..n], sets, clears) && !clears(Moment(es, n), es[n]) {
      SetStays(es, sets, clears);
    }
    if SetLast(es, sets, clears) && !sets(Moment(es, n), es[n]) {
      SetBefore(es, sets, clears);
    }
  }

  lemma SetStays(es: seq<Event>, sets: (Outbound, Event) -> bool, clears: (Outbound, Event) -> bool)
    requires es != [] && !clears(Moment(es, |es| - 1), es[|es| - 1])
    requires forall i: nat :: i < |es| ==> Moment(es[..|es| - 1], i) == Moment(es, i)
    requires SetLast(es[..|es| - 1], sets, clears)
    ensures SetLast(es, sets, clears)
  {
    var init := es[..|es| - 1];
    var i :| 0 <= i < |init| && sets(Moment(init, i), init[i]) &&
             forall j :: i < j < |init| ==> !clears(Moment(init, j), init[j]);
    forall j | i < j < |es| ensures !clears(Moment(es, j), es[j]) {
      if j < |init| {
        assert !clears(Moment(init, j), init[j]);
      }
    }
    assert sets(Moment(es, i), es[i]);
  }

  lemma SetBefore(es: seq<Event>, sets: (Outbound, Event) -> bool, clears: (Outbound, Event) -> bool)
    requires es != [] && !sets(Moment(es, |es| - 1), es[|es| - 1])
    requires forall i: nat :: i < |es| ==> Moment(es[..|es| - 1], i) == Moment(es, i)
    requires SetLast(es, sets, clears)
    ensures SetLast(es[..|es| - 1], sets, clears) && !clears(Moment(es, |es| - 1), es[|es| - 1])
  {
    var init := es[..|es| - 1];
    var i :| 0 <= i < |es| && sets(Moment(es, i), es[i]) &&
             forall j :: i < j < |es| ==> !clears(Moment(es, j), es[j]);
    forall j | i < j < |init| ensures !clears(Moment(init, j), init[j]) {
      assert !clears(Moment(es, j), es[j]);
    }
    assert sets(Moment(init, i), init[i]);
  }

  // ---------- events by their outcome ----------

  predicate SendFails(v: Outbound, e: Event) {
    e.SendEvent? && v.queue != [] && (!v.link.connected || e.flush.err != 0)
  }

  /** A message goes out to its end, and another one is waiting. */
  predicate SendsWithMore(v: Outbound, e: Event) {
    e.SendEvent? && |v.queue| > 1 && v.link.connected && e.flush.err == 0
  }

  /** The pool sees the request of this client: its connect event is set, and no database event goes first. */
  predicate PoolLooks(v: Outbound, e: Event) {
    e.PoolEvent? && !e.lcs && v.signalled && v.queued
  }

  predicate Connects(v: Outbound, e: Event) {
    PoolLooks(v, e) && v.status.Offline? && e.connected
  }

  predicate ConnectFails(v: Outbound, e: Event) {
    PoolLooks(v, e) && v.status.Offline? && !e.connected
  }

  predicate StartsConnecting(v: Outbound, e: Event) {
    e.ConnectStarted? && !v.status.Connecting?
  }

  // ---------- wake-ups ----------

  predicate AsksToSend(v: Outbound, e: Event) {
    e.Publish? || SendsWithMore(v, e) || Connects(v, e)
  }

  predicate TakesSendEvent(v: Outbound, e: Event) {
    e.SendEvent?
  }

  /** A send event is due exactly if one was asked for since the last one. */
  lemma NotifiedIff(es: seq<Event>)
    ensures RunAll(START, es).notified <==> SetLast(es, AsksToSend, TakesSendEvent)
  {
    LastDecides(es, (v: Outbound) => v.notified, AsksToSend, TakesSendEvent);
  }

  predicate AsksToConnect(v: Outbound, e: Event) {
    SendFails(v, e) || (e.TimeoutEvent? && e.advance)
  }

  predicate AnswersRequest(v: Outbound, e: Event) {
    PoolLooks(v, e) && !ConnectFails(v, e)
  }

  /**
   The client stands in the pool's queue exactly if it has asked for a connection and the pool has not answered that
   since; a connect that fails is no answer, and leaves the request where it is.
   */
  lemma QueuedIff(es: seq<Event>)
    ensures RunAll(START, es).queued <==> SetLast(es, AsksToConnect, AnswersRequest)
  {
    LastDecides(es, (v: Outbound) => v.queued, AsksToConnect, AnswersRequest);
  }

  predicate PoolTurn(v: Outbound, e: Event) {
    e.PoolEvent?
  }

  /** The connect event is set exactly if a connection was asked for since the last turn of the pool. */
  lemma SignalledIff(es: seq<Event>)
    ensures RunAll(START, es).signalled <==> SetLast(es, AsksToConnect, PoolTurn)
  {
    LastDecides(es, (v: Outbound) => v.signalled, AsksToConnect, PoolTurn);
  }

  // ---------- the connection ----------

  predicate EndsConnection(v: Outbound, e: Event) {
    || e.ConnectionLost? || e.TimeoutEvent? || ConnectFails(v, e)
    || (e.SendEvent? && v.queue != [] && e.flush.err != 0 && e.flush.drops)
  }

  lemma StepConnected(v: Outbound, e: Event)
    ensures Step(v, e).link.connected <==> Connects(v, e) || (v.link.connected && !EndsConnection(v, e))
  {}

  lemma ConnectedIff(es: seq<Event>)
    ensures RunAll(START, es).link.connected <==> SetLast(es, Connects, EndsConnection)
  {
    forall v, e {
      StepConnected(v, e);
    }
    LastDecides(es, (v: Outbound) => v.link.connected, Connects, EndsConnection);
  }

  // ---------- status ----------

  predicate GoesOffline(v: Outbound, e: Event) {
    e.TimeoutEvent? || e.Disconnected?
  }

  predicate Starts(v: Outbound, e: Event) {
    e.ConnectStarted?
  }

  predicate LeavesOffline(v: Outbound, e: Event) {
    e.ConnectStarted? || Connects(v, e)
  }

  predicate LeavesOnline(v: Outbound, e: Event) {
    e.ConnectStarted? || GoesOffline(v, e)
  }

  lemma StatusIff(es: seq<Event>)
    ensures var s := RunAll(START, es).status;
            && (s.Offline? <==> SetLast(es, GoesOffline, LeavesOffline) || Untouched(es, LeavesOffline))
            && (s.Online? <==> SetLast(es, Connects, LeavesOnline))
            && (s.Connecting? <==> SetLast(es, Starts, GoesOffline))
  {
    OfflineIff(es);
    OnlineIff(es);
    ConnectingIff(es);
  }

  lemma StepStatus(v: Outbound, e: Event)
    ensures Step(v, e).status ==
            if GoesOffline(v, e) then Offline else if Starts(v, e) then Connecting
            else if Connects(v, e) then Online else v.status
  {}

  lemma OfflineIff(es: seq<Event>)
    ensures RunAll(START, es).status.Offline? <==>
            SetLast(es, GoesOffline, LeavesOffline) || Untouched(es, LeavesOffline)
  {
    forall v, e {
      StepStatus(v, e);
    }
    LastDecides(es, (v: Outbound) => v.status.Offline?, GoesOffline, LeavesOffline);
  }

  lemma OnlineIff(es: seq<Event>)
    ensures RunAll(START, es).status.Online? <==> SetLast(es, Connects, LeavesOnline)
  {
    forall v, e {
      StepStatus(v, e);
    }
    LastDecides(es, (v: Outbound) => v.status.Online?, Connects, LeavesOnline);
  }

  lemma ConnectingIff(es: seq<Event>)
    ensures RunAll(START, es).status.Connecting? <==> SetLast(es, Starts, GoesOffline)
  {
    forall v, e {
      StepStatus(v, e);
    }
    LastDecides(es, (v: Outbound) => v.status.Connecting?, Starts, GoesOffline);
  }

  // ---------- the timer ----------

  predicate Disconnects(v: Outbound, e: Event) {
    e.Disconnected?
  }

  predicate KeepsAlive(v: Outbound, e: Event) {
    e.TimeoutEvent? || e.ConnectDone? || Connects(v, e)
  }

  predicate Rearms(v: Outbound, e: Event) {
    KeepsAlive(v, e) || StartsConnecting(v, e)
  }

  predicate SetsTimer(v: Outbound, e: Event) {
    Rearms(v, e) || Disconnects(v, e)
  }

  predicate OtherThanReconnect(v: Outbound, e: Event) {
    KeepsAlive(v, e) || Disconnects(v, e)
  }

  predicate OtherThanKeepAlive(v: Outbound, e: Event) {
    StartsConnecting(v, e) || Disconnects(v, e)
  }

  predicate Nothing(v: Outbound, e: Event) {
    false
  }

  /**
   The timer is off exactly after a disconnect that no timeout, no start or end of a connect and no successful connect
   of the pool has followed; otherwise it runs, for the time that the last of these events has set.
   */
  lemma TimerIff(es: seq<Event>)
    ensures var t := RunAll(START, es).timer;
            && (t.Never? <==> SetLast(es, Disconnects, Rearms))
            && (t.KeepAlive? <==> SetLast(es, KeepsAlive, OtherThanKeepAlive))
            && (t.Reconnect? <==> SetLast(es, StartsConnecting, OtherThanReconnect))
            && (t.Initial? <==> Untouched(es, SetsTimer))
  {
    TimerOffIff(es);
    KeepAliveIff(es);
    ReconnectIff(es);
    InitialIff(es);
  }

  lemma StepTimer(v: Outbound, e: Event)
    ensures Step(v, e).timer ==
            if KeepsAlive(v, e) then KeepAlive else if StartsConnecting(v, e) then Reconnect
            else if Disconnects(v, e) then Never else v.timer
  {}

  lemma TimerOffIff(es: seq<Event>)
    ensures RunAll(START, es).timer.Never? <==> SetLast(es, Disconnects, Rearms)
  {
    forall v, e {
      StepTimer(v, e);
    }
    LastDecides(es, (v: Outbound) => v.timer.Never?, Disconnects, Rearms);
  }

  lemma KeepAliveIff(es: seq<Event>)
    ensures RunAll(START, es).timer.KeepAlive? <==> SetLast(es, KeepsAlive, OtherThanKeepAlive)
  {
    forall v, e {
      StepTimer(v, e);
    }
    LastDecides(es, (v: Outbound) => v.timer.KeepAlive?, KeepsAlive, OtherThanKeepAlive);
  }

  lemma ReconnectIff(es: seq<Event>)
    ensures RunAll(START, es).timer.Reconnect? <==> SetLast(es, StartsConnecting, OtherThanReconnect)
  {
    forall v, e {
      StepTimer(v, e);
    }
    LastDecides(es, (v: Outbound) => v.timer.Reconnect?, StartsConnecting, OtherThanReconnect);
  }

  lemma InitialIff(es: seq<Event>)
    ensures RunAll(START, es).timer.Initial? <==> Untouched(es, SetsTimer)
  {
    forall v, e {
      StepTimer(v, e);
    }
    LastDecides(es, (v: Outbound) => v.timer.Initial?, Nothing, SetsTimer);
  }

  // ---------- waiting for good ----------

  /**
   An advance client is left waiting for the next publish exactly if a message is pending, no event is due for it, and
   a disconnect has put its timer off for good.
   */
  lemma StrandedRunIff(es: seq<Event>)
    ensures var v := RunAll(START, es);
            Stranded(v, true) <==>
            && v.queue != [] && !SetLast(es, AsksToSend, TakesSendEvent)
            && !(SetLast(es, AsksToConnect, AnswersRequest) && SetLast(es, AsksToConnect, PoolTurn))
            && SetLast(es, Disconnects, Rearms)
  {
    NotifiedIff(es);
    QueuedIff(es);
    SignalledIff(es);
    TimerOffIff(es);
  }

  /** So it never is, whatever sends and connects fail, in a run without a disconnect. */
  lemma NeverStranded(es: seq<Event>)
    requires forall i :: 0 <= i < |es| ==> !es[i].Disconnected?
    ensures !Stranded(RunAll(START, es), true)
  {
    TimerOffIff(es);
  }
}
