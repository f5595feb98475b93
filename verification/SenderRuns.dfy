/** What the outbound side keeps over every run: bytes, messages and wake-ups. */
module SenderRuns {
  import opened Bytes
  import opened SocketErrors
  import opened Sender

  // ---------- the invariant ----------

  /** The messages that are not in the send buffer. */
  function NotCopied(v: Outbound): seq<ByteString> {
    if Buffer(v.link) == [] || v.queue == [] then v.queue else v.queue[1..]
  }

  /** A non-empty send buffer holds the head of the queue. */
  predicate BufferInv(v: Outbound) {
    Buffer(v.link) != [] ==> v.queue != [] && Buffer(v.link) == v.queue[0]
  }

  /** What the socket has taken: the messages completed on it, and the written part of the buffer. */
  ghost predicate StreamInv(v: Outbound) {
    && v.enqueued == v.completed + v.queue
    && v.link.first <= |v.completed|
    && v.link.accepted == Flatten(v.completed[v.link.first..]) + v.link.written
  }

  /** `bytes` is the messages from `first` up to `next`, and then at most a part of the message `next`. */
  ghost predicate Covers(first: nat, bytes: ByteString, next: nat, enqueued: seq<ByteString>) {
    && first <= next <= |enqueued|
    && Flatten(enqueued[first..next]) <= bytes
    && var part := bytes[|Flatten(enqueued[first..next])|..];
    part == [] || (next < |enqueued| && part <= enqueued[next])
  }

  /** A socket that was thrown away took the messages up to `next`, where its successor starts, and a part of that. */
  ghost predicate PastLink(l: Link, next: nat, enqueued: seq<ByteString>) {
    Covers(l.first, l.accepted, next, enqueued)
  }

  function NextFirst(v: Outbound, i: nat): nat
    requires i < |v.past|
  {
    if i + 1 < |v.past| then v.past[i + 1].first else v.link.first
  }

  ghost predicate PastInv(v: Outbound) {
    && (forall i :: 0 <= i < |v.past| ==> PastLink(v.past[i], NextFirst(v, i), v.enqueued))
    && (if v.past == [] then v.link.first == 0 else v.past[0].first == 0)
  }

  /** What a connection was meant to carry: what it skips and what it carries are whole messages, and then a part. */
  ghost predicate ConnSpan(c: Conn, next: nat, enqueued: seq<ByteString>) {
    Covers(c.first, c.skipped + c.bytes, next, enqueued)
  }

  /** Where a connection ended: the messages completed when its successor was opened, or by now. */
  function ConnEnd(v: Outbound, i: nat): nat
    requires i < |v.conns|
  {
    if i + 1 < |v.conns| then v.conns[i + 1].first else |v.completed|
  }

  function LastConn(v: Outbound): Conn
    requires v.conns != []
  {
    v.conns[|v.conns| - 1]
  }

  /** The last connection carries exactly what has been completed since it was opened, and the written part. */
  ghost predicate LastExact(v: Outbound) {
    && v.conns != [] && LastConn(v).first <= |v.completed|
    && LastConn(v).skipped + LastConn(v).bytes == Flatten(v.completed[LastConn(v).first..]) + v.link.written
  }

  ghost predicate ConnsInv(v: Outbound) {
    && (forall i :: 0 <= i < |v.conns| ==> ConnSpan(v.conns[i], ConnEnd(v, i), v.enqueued))
    && (if v.conns == [] then v.completed == [] else v.conns[0].first == 0)
    && (v.link.connected ==> LastExact(v))
  }

  ghost predicate Inv(v: Outbound) {
    BufferInv(v) && StreamInv(v) && PastInv(v) && ConnsInv(v)
  }

  // ---------- every step keeps it ----------

  lemma CoversGrows(first: nat, bytes: ByteString, next: nat, enqueued: seq<ByteString>, message: ByteString)
    requires Covers(first, bytes, next, enqueued)
    ensures Covers(first, bytes, next, enqueued + [message])
  {
    assert (enqueued + [message])[first..next] == enqueued[first..next];
  }

  /** What is exactly so many messages and a part of the next covers them. */
  lemma ExactCovers(first: nat, bytes: ByteString, completed: seq<ByteString>, queue: seq<ByteString>, part: ByteString)
    requires first <= |completed| && bytes == Flatten(completed[first..]) + part
    requires part == [] || (queue != [] && part <= queue[0])
    ensures Covers(first, bytes, |completed|, completed + queue)
  {
    assert (completed + queue)[first..|completed|] == completed[first..];
    assert bytes[|Flatten(completed[first..])|..] == part;
  }

  lemma EnqueueKeepsPast(v: Outbound, message: ByteString)
    requires PastInv(v)
    ensures PastInv(Enqueue(v, message))
  {
    var w := Enqueue(v, message);
    forall i | 0 <= i < |w.past| ensures PastLink(w.past[i], NextFirst(w, i), w.enqueued) {
      CoversGrows(v.past[i].first, v.past[i].accepted, NextFirst(v, i), v.enqueued, message);
    }
  }

  lemma EnqueueKeepsConns(v: Outbound, message: ByteString)
    requires ConnsInv(v)
    ensures ConnsInv(Enqueue(v, message))
  {
    var w := Enqueue(v, message);
    forall i | 0 <= i < |w.conns| ensures ConnSpan(w.conns[i], ConnEnd(w, i), w.enqueued) {
      var c := v.conns[i];
      assert ConnSpan(c, ConnEnd(v, i), v.enqueued);
      CoversGrows(c.first, c.skipped + c.bytes, ConnEnd(v, i), v.enqueued, message);
    }
  }

  lemma EnqueueKeepsInv(v: Outbound, message: ByteString)
    requires Inv(v)
    ensures Inv(Enqueue(v, message))
  {
    EnqueueKeepsPast(v, message);
    EnqueueKeepsConns(v, message);
    assert v.completed + (v.queue + [message]) == v.enqueued + [message];
  }

  lemma TrySendKeepsBuffer(v: Outbound, f: Flush)
    requires BufferInv(v)
    ensures BufferInv(TrySend(v, f))
  {
    if v.queue != [] && WriteError(Fill(v.link, v.queue[0]), f) != NO_ERROR {
      FailureKeepsBuffer(Fill(v.link, v.queue[0]), f);
    }
  }

  lemma FailureKeepsBuffer(l: Link, f: Flush)
    requires WriteError(l, f) != NO_ERROR
    ensures Buffer(WriteOut(l, f)) == Buffer(l)
  {
    var out := Sends(l, f);
    assert out == l.rest[..|out|];
    assert l.written + l.rest[..|out|] + l.rest[|out|..] == l.written + l.rest;
  }

  /** The bytes that went out while a message was written: those before, and those of this attempt. */
  lemma WriteOutStream(l: Link, f: Flush, taken: ByteString, done: ByteString)
    requires taken == done + l.written
    ensures WriteError(l, f) == NO_ERROR ==> taken + Sends(l, f) == done + Buffer(l)
    ensures WriteError(l, f) != NO_ERROR ==> taken + Sends(l, f) == done + WriteOut(l, f).written
  {}

  lemma TrySendKeepsStream(v: Outbound, f: Flush)
    requires BufferInv(v) && StreamInv(v)
    ensures StreamInv(TrySend(v, f))
  {
    if v.queue != [] {
      var head, first, done := v.queue[0], v.link.first, v.completed[v.link.first..];
      var l := Fill(v.link, head);
      WriteOutStream(l, f, l.accepted, Flatten(done));
      if WriteError(l, f) == NO_ERROR {
        assert Buffer(l) == head;
        CompleteOne(v.completed, first, head);
        assert v.completed + [head] + v.queue[1..] == v.completed + v.queue;
      }
    }
  }

  lemma CompleteOne(completed: seq<ByteString>, first: nat, head: ByteString)
    requires first <= |completed|
    ensures Flatten((completed + [head])[first..]) == Flatten(completed[first..]) + head
  {
    FlattenSnoc(completed[first..], head);
    assert (completed + [head])[first..] == completed[first..] + [head];
  }

  lemma CarryParts(conns: seq<Conn>, out: ByteString)
    requires conns != []
    ensures var d, n := Carry(conns, out), |conns| - 1;
            && |d| == |conns| && d[..n] == conns[..n] && d[n] == conns[n].(bytes := conns[n].bytes + out)
  {}

  lemma TrySendKeepsLast(v: Outbound, f: Flush)
    requires BufferInv(v) && LastExact(v) && v.link.connected && v.queue != []
    ensures LastExact(TrySend(v, f))
  {
    var head, c := v.queue[0], LastConn(v);
    var l := Fill(v.link, head);
    var out := Sends(l, f);
    CarryParts(v.conns, out);
    WriteOutStream(l, f, c.skipped + c.bytes, Flatten(v.completed[c.first..]));
    assert c.skipped + (c.bytes + out) == (c.skipped + c.bytes) + out;
    if WriteError(l, f) == NO_ERROR {
      assert Buffer(l) == head;
      CompleteOne(v.completed, c.first, head);
    }
  }

  lemma WrittenIsPart(v: Outbound)
    requires BufferInv(v)
    ensures v.link.written == [] || (v.queue != [] && v.link.written <= v.queue[0])
  {}

  lemma EarlierConns(v: Outbound, w: Outbound, i: nat)
    requires v.conns != [] && |w.conns| == |v.conns| && LastConn(w).first == LastConn(v).first
    requires w.conns[..|v.conns| - 1] == v.conns[..|v.conns| - 1] && i < |v.conns| - 1
    ensures w.conns[i] == v.conns[i] && ConnEnd(w, i) == ConnEnd(v, i)
  {
    var n := |v.conns| - 1;
    assert w.conns[i] == w.conns[..n][i];
    if i + 1 < n {
      assert w.conns[i + 1] == w.conns[..n][i + 1];
    }
  }

  /** Only the last connection grows. */
  lemma GrowthKeepsConns(v: Outbound, w: Outbound)
    requires ConnsInv(v) && LastExact(w) && BufferInv(w) && StreamInv(w) && w.enqueued == v.enqueued
    requires v.conns != [] && |w.conns| == |v.conns| && LastConn(w).first == LastConn(v).first
    requires w.conns[..|v.conns| - 1] == v.conns[..|v.conns| - 1]
    ensures ConnsInv(w)
  {
    LastSpan(w);
    forall i | 0 <= i < |w.conns| ensures ConnSpan(w.conns[i], ConnEnd(w, i), w.enqueued) {
      if i < |v.conns| - 1 {
        EarlierConns(v, w, i);
        assert ConnSpan(v.conns[i], ConnEnd(v, i), v.enqueued);
      }
    }
    if |v.conns| > 1 {
      EarlierConns(v, w, 0);
    }
  }

  lemma LastSpan(w: Outbound)
    requires LastExact(w) && BufferInv(w) && StreamInv(w)
    ensures ConnSpan(LastConn(w), |w.completed|, w.enqueued)
  {
    var c := LastConn(w);
    WrittenIsPart(w);
    ExactCovers(c.first, c.skipped + c.bytes, w.completed, w.queue, w.link.written);
  }

  lemma TrySendKeepsConns(v: Outbound, f: Flush)
    requires Inv(v) && v.queue != [] && v.link.connected
    ensures ConnsInv(TrySend(v, f))
  {
    TrySendKeepsLast(v, f);
    TrySendKeepsBuffer(v, f);
    TrySendKeepsStream(v, f);
    CarryParts(v.conns, Sends(Fill(v.link, v.queue[0]), f));
    GrowthKeepsConns(v, TrySend(v, f));
  }

  lemma PastFrame(v: Outbound, w: Outbound)
    requires PastInv(v) && w.past == v.past && w.link.first == v.link.first && w.enqueued == v.enqueued
    ensures PastInv(w)
  {
    forall i | 0 <= i < |w.past| ensures PastLink(w.past[i], NextFirst(w, i), w.enqueued) {
      assert NextFirst(w, i) == NextFirst(v, i);
    }
  }

  lemma ConnsFrame(v: Outbound, w: Outbound)
    requires ConnsInv(v) && w.conns == v.conns && w.completed == v.completed && w.enqueued == v.enqueued
    requires w.link.connected ==> v.link.connected && w.link.written == v.link.written
    ensures ConnsInv(w)
  {
    forall i | 0 <= i < |w.conns| ensures ConnSpan(w.conns[i], ConnEnd(w, i), w.enqueued) {
      assert ConnEnd(w, i) == ConnEnd(v, i);
    }
  }

  lemma NoConnectionNoWrite(v: Outbound, f: Flush)
    requires !v.link.connected
    ensures var w := TrySend(v, f);
            && w.conns == v.conns && w.completed == v.completed && w.enqueued == v.enqueued
            && w.link.written == v.link.written && !w.link.connected
  {}

  lemma TrySendFrame(v: Outbound, f: Flush)
    ensures var w := TrySend(v, f);
            w.past == v.past && w.link.first == v.link.first && w.enqueued == v.enqueued && (v.queue == [] ==> w == v)
  {}

  lemma TrySendKeepsInv(v: Outbound, f: Flush)
    requires Inv(v)
    ensures Inv(TrySend(v, f))
  {
    TrySendKeepsBuffer(v, f);
    TrySendKeepsStream(v, f);
    TrySendFrame(v, f);
    PastFrame(v, TrySend(v, f));
    if v.link.connected {
      if v.queue != [] {
        TrySendKeepsConns(v, f);
      }
    } else {
      NoConnectionNoWrite(v, f);
      ConnsFrame(v, TrySend(v, f));
    }
  }

  lemma ThrownAwayLink(v: Outbound)
    requires BufferInv(v) && StreamInv(v)
    ensures PastLink(v.link, |v.completed|, v.enqueued)
  {
    WrittenIsPart(v);
    ExactCovers(v.link.first, v.link.accepted, v.completed, v.queue, v.link.written);
  }

  lemma TimeoutKeepsInv(v: Outbound)
    requires Inv(v)
    ensures Inv(Timeout(v))
  {
    var w := Timeout(v);
    ThrownAwayLink(v);
    forall i | 0 <= i < |w.past| ensures PastLink(w.past[i], NextFirst(w, i), w.enqueued) {
      if i < |v.past| {
        assert PastLink(v.past[i], NextFirst(v, i), v.enqueued);
      }
    }
    assert w.completed[w.link.first..] == [];
    ConnsFrame(v, w);
  }

  lemma FrameKeepsInv(v: Outbound, w: Outbound)
    requires Inv(v)
    requires w.queue == v.queue && w.enqueued == v.enqueued && w.completed == v.completed
    requires w.past == v.past && w.conns == v.conns
    requires w.link == v.link || w.link == v.link.(connected := false)
    ensures Inv(w)
  {
    PastFrame(v, w);
    ConnsFrame(v, w);
  }

  lemma ConnectKeepsInv(v: Outbound)
    requires Inv(v)
    ensures Inv(Connect(v))
  {
    var w := Connect(v);
    PastFrame(v, w);
    WrittenIsPart(v);
    assert v.completed[|v.completed|..] == [];
    ExactCovers(|v.completed|, v.link.written, v.completed, v.queue, v.link.written);
    assert v.link.written + [] == v.link.written;
    forall i | 0 <= i < |w.conns| ensures ConnSpan(w.conns[i], ConnEnd(w, i), w.enqueued) {
      if i < |v.conns| {
        assert ConnEnd(w, i) == ConnEnd(v, i);
        assert ConnSpan(v.conns[i], ConnEnd(v, i), v.enqueued);
      }
    }
  }

  lemma PoolRunKeepsInv(v: Outbound, lcsEvent: bool, connected: bool)
    requires Inv(v)
    ensures Inv(PoolRun(v, lcsEvent, connected))
  {
    var w := v.(signalled := false);
    FrameKeepsInv(v, w);
    if !lcsEvent && v.signalled && v.queued && v.status.Offline? && connected {
      ConnectKeepsInv(w);
      FrameKeepsInv(Connect(w), PoolRun(v, lcsEvent, connected));
    } else {
      FrameKeepsInv(w, PoolRun(v, lcsEvent, connected));
    }
  }

  lemma StepKeepsInv(v: Outbound, e: Event)
    requires Inv(v)
    ensures Inv(Step(v, e))
  {
    match e
    case Publish(message) =>
      EnqueueKeepsInv(v, message);
    case SendEvent(f) =>
      FrameKeepsInv(v, v.(notified := false));
      TrySendKeepsInv(v.(notified := false), f);
    case TimeoutEvent(advance) =>
      TimeoutKeepsInv(v);
      FrameKeepsInv(Timeout(v), RequestConnect(Timeout(v)));
    case PoolEvent(lcs, connected) =>
      PoolRunKeepsInv(v, lcs, connected);
    case _ =>
      StatusKeepsInv(v, e);
  }

  lemma StatusKeepsInv(v: Outbound, e: Event)
    requires Inv(v) && (e.ConnectionLost? || e.Disconnected? || e.ConnectStarted? || e.ConnectDone?)
    ensures Inv(Step(v, e))
  {
    StatusFrame(v, e);
    FrameKeepsInv(v, Step(v, e));
  }

  lemma StatusFrame(v: Outbound, e: Event)
    requires e.ConnectionLost? || e.Disconnected? || e.ConnectStarted? || e.ConnectDone?
    ensures var w := Step(v, e);
            && w.queue == v.queue && w.enqueued == v.enqueued && w.completed == v.completed
            && w.past == v.past && w.conns == v.conns
            && (w.link == v.link || w.link == v.link.(connected := false))
  {}

  // ---------- runs ----------

  function RunAll(v: Outbound, es: seq<Event>): Outbound
    decreases |es|
  {
    if es == [] then v else RunAll(Step(v, es[0]), es[1..])
  }

  lemma {:induction false} EveryRunKeepsInv(v: Outbound, es: seq<Event>)
    requires Inv(v)
    ensures Inv(RunAll(v, es))
    decreases |es|
  {
    if es != [] {
      StepKeepsInv(v, es[0]);
      EveryRunKeepsInv(Step(v, es[0]), es[1..]);
    }
  }

  lemma {:induction false} RunSnoc(v: Outbound, es: seq<Event>, e: Event)
    ensures RunAll(v, es + [e]) == Step(RunAll(v, es), e)
    decreases |es|
  {
    if es == [] {
      assert es + [e] == [e] && [e][1..] == [];
    } else {
      assert (es + [e])[1..] == es[1..] + [e];
      RunSnoc(Step(v, es[0]), es[1..], e);
    }
  }

  lemma StartInv()
    ensures Inv(START)
  {}

  /**
   For the life of one socket: the bytes it took, the unwritten rest of its send buffer and the messages not
   yet copied are, in this order, exactly the messages queued since it was made, or waiting when it was made.
   */
  lemma SocketConservation(v: Outbound)
    requires Inv(v)
    ensures v.link.accepted + v.link.rest + Flatten(NotCopied(v)) == Flatten(v.enqueued[v.link.first..])
  {
    QueuedSince(v);
    HeadFirst(v);
    Regroup(Flatten(v.completed[v.link.first..]), v.link.written, v.link.rest, Flatten(NotCopied(v)), Flatten(v.queue));
  }

  lemma QueuedSince(v: Outbound)
    requires StreamInv(v)
    ensures Flatten(v.enqueued[v.link.first..]) == Flatten(v.completed[v.link.first..]) + Flatten(v.queue)
  {
    assert v.enqueued[v.link.first..] == v.completed[v.link.first..] + v.queue;
    FlattenConcat(v.completed[v.link.first..], v.queue);
  }

  lemma HeadFirst(v: Outbound)
    requires BufferInv(v)
    ensures Flatten(v.queue) == Buffer(v.link) + Flatten(NotCopied(v))
  {}

  lemma Regroup(done: ByteString, written: ByteString, rest: ByteString, behind: ByteString, pending: ByteString)
    requires pending == (written + rest) + behind
    ensures (done + written) + rest + behind == done + pending
  {}

  function Published(es: seq<Event>): seq<ByteString> {
    if es == [] then []
    else (if es[0].Publish? then [es[0].message] else []) + Published(es[1..])
  }

  lemma StepEnqueues(v: Outbound, e: Event)
    ensures Step(v, e).enqueued == v.enqueued + if e.Publish? then [e.message] else []
    ensures v.completed <= Step(v, e).completed
  {}

  lemma {:induction false} RunEnqueues(v: Outbound, es: seq<Event>)
    ensures RunAll(v, es).enqueued == v.enqueued + Published(es)
    ensures v.completed <= RunAll(v, es).completed
    decreases |es|
  {
    if es != [] {
      StepEnqueues(v, es[0]);
      RunEnqueues(Step(v, es[0]), es[1..]);
    }
  }

  /** Over every run, messages completed and messages pending are the messages queued, in order. */
  lemma EveryRunConserves(es: seq<Event>)
    ensures var v := RunAll(START, es); v.completed + v.queue == Published(es)
  {
    StartInv();
    EveryRunKeepsInv(START, es);
    RunEnqueues(START, es);
  }

  /**
   Every socket of a run carried its messages whole and in order: what it took is the messages between its
   own start and the start of its successor, followed by at most a part of the successor's first message.
   */
  lemma EverySocketInOrder(es: seq<Event>, i: nat)
    requires i < |RunAll(START, es).past|
    ensures var v := RunAll(START, es);
            PastLink(v.past[i], NextFirst(v, i), Published(es)) && (i == 0 ==> v.past[i].first == 0)
  {
    StartInv();
    EveryRunKeepsInv(START, es);
    RunEnqueues(START, es);
    var v := RunAll(START, es);
    assert PastLink(v.past[i], NextFirst(v, i), v.enqueued);
    assert [] + Published(es) == Published(es);
  }

  // ---------- connections ----------

  /** A connection keeps where it started, through every step. */
  lemma StepKeepsStarts(v: Outbound, e: Event, i: nat)
    requires i < |v.conns|
    ensures |Step(v, e).conns| >= |v.conns|
    ensures Step(v, e).conns[i].first == v.conns[i].first && Step(v, e).conns[i].skipped == v.conns[i].skipped
  {}

  lemma {:induction false} RunKeepsStarts(v: Outbound, es: seq<Event>, i: nat)
    requires i < |v.conns|
    ensures |RunAll(v, es).conns| >= |v.conns|
    ensures var w := RunAll(v, es); w.conns[i].first == v.conns[i].first && w.conns[i].skipped == v.conns[i].skipped
    decreases |es|
  {
    if es != [] {
      StepKeepsStarts(v, es[0], i);
      RunKeepsStarts(Step(v, es[0]), es[1..], i);
    }
  }

  /**
   Over every run, connections follow each other without a gap: what a connection skips and what it carries
   are the messages from its own start up to the start of its successor, and at most a part of the next.
   */
  lemma EveryConnectionInOrder(es: seq<Event>, i: nat)
    requires i < |RunAll(START, es).conns|
    ensures var v := RunAll(START, es);
            ConnSpan(v.conns[i], ConnEnd(v, i), Published(es)) && (i == 0 ==> v.conns[i].first == 0)
  {
    StartInv();
    EveryRunKeepsInv(START, es);
    RunEnqueues(START, es);
    var v := RunAll(START, es);
    assert ConnSpan(v.conns[i], ConnEnd(v, i), v.enqueued);
    assert [] + Published(es) == Published(es);
  }

  /** A socket that has no connection and has written nothing stays so, or opens a connection from the head. */
  lemma UnsentStep(v: Outbound, e: Event)
    requires !v.link.connected && v.link.written == []
    ensures var w := Step(v, e);
            if |w.conns| > |v.conns| then w.conns == v.conns + [Conn(|v.completed|, [], [])]
            else !w.link.connected && w.link.written == [] && w.conns == v.conns && w.completed == v.completed
  {}

  lemma {:induction false} UnsentRun(v: Outbound, es: seq<Event>)
    requires !v.link.connected && v.link.written == []
    ensures var w := RunAll(v, es);
            |w.conns| > |v.conns| ==> w.conns[|v.conns|].first == |v.completed| && w.conns[|v.conns|].skipped == []
    decreases |es|
  {
    if es != [] {
      UnsentStep(v, es[0]);
      var w := Step(v, es[0]);
      if |w.conns| > |v.conns| {
        RunKeepsStarts(w, es[1..], |v.conns|);
      } else {
        UnsentRun(w, es[1..]);
      }
    }
  }

  /** Whatever follows a timeout, no message is lost, and the next connection starts with the first byte of the head. */
  lemma TimeoutRestartsHead(v: Outbound, es: seq<Event>)
    ensures Timeout(v).queue == v.queue && Timeout(v).completed == v.completed
    ensures var w := RunAll(Timeout(v), es);
            |w.conns| > |v.conns| ==> w.conns[|v.conns|].first == |v.completed| && w.conns[|v.conns|].skipped == []
  {
    UnsentRun(Timeout(v), es);
  }

  // ---------- wake-ups ----------

  /** Somebody will look after the queue: it is empty, or the client or the pool has an event coming. */
  predicate Awake(v: Outbound) {
    v.queue == [] || v.notified || (v.queued && v.signalled)
  }

  /** No step of the client itself loses the wake-up. */
  lemma ClientStepKeepsAwake(v: Outbound, e: Event)
    requires Awake(v) && !e.PoolEvent?
    ensures Awake(Step(v, e))
  {}

  /**
   A turn of the pool keeps it exactly when nothing is pending, a send event is still coming, or the pool
   really connects this client: no database event in the same turn, the client offline, the connect successful.
   */
  lemma PoolKeepsAwakeIff(v: Outbound, lcs: bool, connected: bool)
    requires Awake(v)
    ensures Awake(PoolRun(v, lcs, connected)) <==>
            v.queue == [] || v.notified || (!lcs && v.queued && v.signalled && v.status.Offline? && connected)
  {}

  /** The turn of the pool that loses the wake-up of this client. */
  predicate Loses(v: Outbound, e: Event) {
    && e.PoolEvent? && v.queue != [] && !v.notified
    && !(!e.lcs && v.queued && v.signalled && v.status.Offline? && e.connected)
  }

  lemma {:induction false} RunStep(v: Outbound, es: seq<Event>, i: nat)
    requires i < |es|
    ensures RunAll(v, es[..i + 1]) == Step(RunAll(v, es[..i]), es[i])
    decreases i
  {
    var w := Step(v, es[0]);
    if i == 0 {
      assert es[..1][1..] == [];
    } else {
      RunStep(w, es[1..], i - 1);
      assert es[..i + 1][1..] == es[1..][..i] && es[..i][1..] == es[1..][..i - 1];
    }
  }

  /** Somebody looks after a pending message at every moment of a run exactly when no turn of the pool loses that. */
  lemma AwakeThroughoutIff(es: seq<Event>)
    ensures (forall i :: 0 <= i <= |es| ==> Awake(RunAll(START, es[..i]))) <==>
            forall i :: 0 <= i < |es| ==> !Loses(RunAll(START, es[..i]), es[i])
  {
    if forall i :: 0 <= i < |es| ==> !Loses(RunAll(START, es[..i]), es[i]) {
      forall i | 0 <= i <= |es| ensures Awake(RunAll(START, es[..i])) {
        AwakeUpTo(es, i);
      }
    } else {
      var i :| 0 <= i < |es| && Loses(RunAll(START, es[..i]), es[i]);
      var v := RunAll(START, es[..i]);
      RunStep(START, es, i);
      if Awake(v) {
        PoolKeepsAwakeIff(v, es[i].lcs, es[i].connected);
        assert !Awake(RunAll(START, es[..i + 1]));
      }
    }
  }

  lemma {:induction false} AwakeUpTo(es: seq<Event>, i: nat)
    requires i <= |es| && forall j :: 0 <= j < |es| ==> !Loses(RunAll(START, es[..j]), es[j])
    ensures Awake(RunAll(START, es[..i]))
    decreases i
  {
    if i > 0 {
      var v := RunAll(START, es[..i - 1]);
      AwakeUpTo(es, i - 1);
      RunStep(START, es, i - 1);
      if es[i - 1].PoolEvent? {
        PoolKeepsAwakeIff(v, es[i - 1].lcs, es[i - 1].connected);
      } else {
        ClientStepKeepsAwake(v, es[i - 1]);
      }
    }
  }

  /** A timeout of the advance client brings the wake-up back, and asks for a connection that can be made. */
  lemma TimeoutRecovers(v: Outbound)
    ensures var w := Step(v, TimeoutEvent(true));
            && Awake(w)
            && Step(w, PoolEvent(false, true)).status.Online? && Step(w, PoolEvent(false, true)).notified
  {}

  /** A client that is not offline has its timer running, so such a timeout is still to come. */
  predicate TimerRuns(v: Outbound) {
    && (v.status.Online? ==> v.timer.KeepAlive?)
    && (v.status.Connecting? ==> v.timer.KeepAlive? || v.timer.Reconnect?)
  }

  lemma {:induction false} EveryRunKeepsTimer(v: Outbound, es: seq<Event>)
    requires TimerRuns(v)
    ensures TimerRuns(RunAll(v, es))
    decreases |es|
  {
    if es != [] {
      EveryRunKeepsTimer(Step(v, es[0]), es[1..]);
    }
  }

  /**
   What can happen to a client by itself, when nothing new is published and the network is silent: an event
   that was asked for, a turn of the pool, a timeout while the timer is set, and the loss of the connection.
   */
  predicate Due(v: Outbound, e: Event, advance: bool) {
    match e
    case SendEvent(_) => v.notified
    case TimeoutEvent(a) => a == advance && !v.timer.Never?
    case PoolEvent(lcs, _) => lcs || v.signalled
    case ConnectionLost => true
    case _ => false
  }

  predicate DueRun(v: Outbound, es: seq<Event>, advance: bool)
    decreases |es|
  {
    es == [] || (Due(v, es[0], advance) && DueRun(Step(v, es[0]), es[1..], advance))
  }

  predicate Stranded(v: Outbound, advance: bool) {
    !Awake(v) && (!advance || v.timer.Never?)
  }

  lemma {:induction false} StrandedStays(v: Outbound, es: seq<Event>, advance: bool)
    requires Stranded(v, advance) && DueRun(v, es, advance)
    ensures Stranded(RunAll(v, es), advance) && RunAll(v, es).queue == v.queue
    decreases |es|
  {
    if es != [] {
      assert Stranded(Step(v, es[0]), advance) && Step(v, es[0]).queue == v.queue;
      StrandedStays(Step(v, es[0]), es[1..], advance);
    }
  }

  /**
   A client that has lost its wake-up waits for the next publish, or for the network, exactly if its timer is
   off; without the reconnect request of the advance client it waits in any case.
   */
  lemma StrandedIff(v: Outbound, advance: bool)
    requires !Awake(v)
    ensures (forall es: seq<Event> :: DueRun(v, es, advance) ==>
               RunAll(v, es).queue == v.queue && !Awake(RunAll(v, es))) <==>
            !advance || v.timer.Never?
    ensures forall message: ByteString :: Awake(Step(v, Publish(message)))
  {
    if !advance || v.timer.Never? {
      forall es: seq<Event> | DueRun(v, es, advance)
        ensures RunAll(v, es).queue == v.queue && !Awake(RunAll(v, es))
      {
        StrandedStays(v, es, advance);
      }
    } else {
      var es := [TimeoutEvent(true)];
      assert es[1..] == [];
      assert DueRun(v, es, advance) && RunAll(v, es) == Step(v, es[0]);
      assert Awake(RunAll(v, es));
    }
  }

  /**
   A send that fails while the client counts as online: the pool then takes the request and does nothing. If
   the connection is then reported lost, the timer goes off too, and the message waits for the next publish.
   */
  lemma LostWakeup(message: ByteString, count: nat, drops: bool)
    ensures exists es: seq<Event> ::
              RunAll(START, es).queue == [message] && !Awake(RunAll(START, es)) && RunAll(START, es).timer.KeepAlive?
    ensures exists es: seq<Event> :: RunAll(START, es).queue == [message] && Stranded(RunAll(START, es), true)
  {
    var request, connect, fail := TimeoutEvent(true), PoolEvent(false, true), SendEvent(Flush(1, count, drops));
    var v1 := Step(START, request);
    var v2 := Step(v1, connect);
    var v3 := Step(v2, Publish(message));
    var v4 := Step(v3, fail);
    var v5 := Step(v4, connect);
    var es := [] + [request] + [connect] + [Publish(message)] + [fail] + [connect];
    RunSnoc(START, [], request);
    RunSnoc(START, [] + [request], connect);
    RunSnoc(START, [] + [request] + [connect], Publish(message));
    RunSnoc(START, [] + [request] + [connect] + [Publish(message)], fail);
    RunSnoc(START, [] + [request] + [connect] + [Publish(message)] + [fail], connect);
    RunSnoc(START, es, Disconnected);
    assert v2.status.Online? && v4.queue == [message] && v5.queue == [message] && !Awake(v5);
    assert RunAll(START, es) == v5;
    assert RunAll(START, es + [Disconnected]) == GoOffline(v5);
  }
}
