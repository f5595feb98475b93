/** End to end: what the peer makes of the bytes that each connection carried. */
module ApnsDelivery {
  import opened Bytes
  import opened SocketErrors
  import opened Sender
  import opened SenderRuns
  import opened ApnsRequest

  lemma {:induction false} EncodeAllAt(rs: seq<Request>, i: nat)
    requires i < |rs|
    ensures |EncodeAll(rs)| == |rs| && EncodeAll(rs)[i] == Encode(rs[i])
  {
    if i > 0 {
      EncodeAllAt(rs[1..], i - 1);
    } else if |rs| > 1 {
      EncodeAllAt(rs[1..], 0);
    }
  }

  lemma EncodeAllSlice(rs: seq<Request>, a: nat, b: nat)
    requires a <= b <= |rs|
    ensures |EncodeAll(rs)| == |rs| && EncodeAll(rs)[a..b] == EncodeAll(rs[a..b])
  {
    EncodeAllLength(rs);
    EncodeAllLength(rs[a..b]);
    forall i | 0 <= i < b - a ensures EncodeAll(rs)[a + i] == EncodeAll(rs[a..b])[i] {
      EncodeAllAt(rs, a + i);
      EncodeAllAt(rs[a..b], i);
      assert rs[a..b][i] == rs[a + i];
    }
    assert EncodeAll(rs)[a..b] == EncodeAll(rs[a..b]);
  }

  lemma EncodeAllLength(rs: seq<Request>)
    ensures |EncodeAll(rs)| == |rs|
  {
    if rs != [] {
      EncodeAllAt(rs, 0);
    }
  }

  lemma {:induction false} EncodeAllSnoc(rs: seq<Request>, r: Request)
    ensures EncodeAll(rs + [r]) == EncodeAll(rs) + [Encode(r)]
  {
    if rs == [] {
      assert rs + [r] == [r];
    } else {
      assert (rs + [r])[1..] == rs[1..] + [r];
      EncodeAllSnoc(rs[1..], r);
    }
  }

  /** A stream that was cut inside `r`, or right behind it. */
  lemma CutParses(rs: seq<Request>, r: Request, part: ByteString)
    requires part <= Encode(r)
    ensures ParseAll(Flatten(EncodeAll(rs)) + part) == if part == Encode(r) then rs + [r] else rs
  {
    if part == Encode(r) {
      EncodeAllSnoc(rs, r);
      FlattenSnoc(EncodeAll(rs), Encode(r));
      ParseStream(rs + [r], []);
      assert Flatten(EncodeAll(rs + [r])) + [] == Flatten(EncodeAll(rs)) + part;
    } else {
      ParsePart(r, part);
      ParseStream(rs, part);
    }
  }

  /** The peer gets whole requests from `first` up to `next`, and perhaps the next one, if that was written whole. */
  ghost predicate Delivers(first: nat, bytes: ByteString, next: nat, rs: seq<Request>) {
    && first <= next <= |rs|
    && (ParseAll(bytes) == rs[first..next] || (next < |rs| && ParseAll(bytes) == rs[first..next + 1]))
  }

  lemma SplitCover(first: nat, bytes: ByteString, next: nat, rs: seq<Request>) returns (part: ByteString)
    requires Covers(first, bytes, next, EncodeAll(rs))
    ensures first <= next <= |rs| && bytes == Flatten(EncodeAll(rs[first..next])) + part
    ensures part == [] || (next < |rs| && part <= Encode(rs[next]))
  {
    EncodeAllSlice(rs, 0, 0);
    EncodeAllSlice(rs, first, next);
    var n := |Flatten(EncodeAll(rs)[first..next])|;
    part := bytes[n..];
    assert bytes == bytes[..n] + part;
    if part != [] {
      EncodeAllAt(rs, next);
    }
  }

  lemma CoverDelivers(first: nat, bytes: ByteString, next: nat, rs: seq<Request>)
    requires Covers(first, bytes, next, EncodeAll(rs))
    ensures Delivers(first, bytes, next, rs)
  {
    var part := SplitCover(first, bytes, next, rs);
    StreamDelivers(first, bytes, next, rs, rs[first..next], part);
  }

  lemma SliceSnoc(rs: seq<Request>, a: nat, b: nat)
    requires a <= b < |rs|
    ensures rs[a..b + 1] == rs[a..b] + [rs[b]]
  {}

  lemma StreamDelivers(first: nat, bytes: ByteString, next: nat, rs: seq<Request>, mid: seq<Request>, part: ByteString)
    requires first <= next <= |rs| && mid == rs[first..next] && bytes == Flatten(EncodeAll(mid)) + part
    requires part == [] || (next < |rs| && part <= Encode(rs[next]))
    ensures Delivers(first, bytes, next, rs)
  {
    if part == [] {
      ParseStream(mid, part);
    } else {
      var r := rs[next];
      CutParses(mid, r, part);
      SliceSnoc(rs, first, next);
    }
  }

  /** A connection that skips nothing hands over whole requests, from the one that was pending when it was opened. */
  lemma SpanDelivers(c: Conn, next: nat, rs: seq<Request>)
    requires ConnSpan(c, next, EncodeAll(rs)) && c.skipped == []
    ensures Delivers(c.first, c.bytes, next, rs)
  {
    assert [] + c.bytes == c.bytes;
    CoverDelivers(c.first, c.bytes, next, rs);
  }

  /**
   If requests are published, then over every run, however writes are cut and fail, connections follow each
   other without a gap, and each one that was opened while no byte of the head counted as written hands the
   peer whole requests in order: from the first that was not completed when it was opened, up to the first
   that was not completed when its successor was opened, which may itself have arrived already. The others
   begin behind the skipped bytes of the same stream.
   */
  lemma EveryConnectionDelivers(rs: seq<Request>, es: seq<Event>)
    requires Published(es) == EncodeAll(rs)
    ensures var v := RunAll(START, es);
            && (forall i :: 0 <= i < |v.conns| ==>
                  && ConnSpan(v.conns[i], ConnEnd(v, i), EncodeAll(rs))
                  && (v.conns[i].skipped == [] ==> Delivers(v.conns[i].first, v.conns[i].bytes, ConnEnd(v, i), rs)))
            && |v.completed| <= |rs| && v.completed == EncodeAll(rs[..|v.completed|])
            && (if v.conns == [] then v.completed == [] else v.conns[0].first == 0)
  {
    var v := RunAll(START, es);
    forall i | 0 <= i < |v.conns|
      ensures ConnSpan(v.conns[i], ConnEnd(v, i), EncodeAll(rs))
      ensures v.conns[i].skipped == [] ==> Delivers(v.conns[i].first, v.conns[i].bytes, ConnEnd(v, i), rs)
    {
      EveryConnectionInOrder(es, i);
      if v.conns[i].skipped == [] {
        SpanDelivers(v.conns[i], ConnEnd(v, i), rs);
      }
    }
    EveryRunConserves(es);
    CompletedRequests(v.completed, v.queue, rs);
    StartInv();
    EveryRunKeepsInv(START, es);
  }

  lemma CompletedRequests(completed: seq<ByteString>, queue: seq<ByteString>, rs: seq<Request>)
    requires completed + queue == EncodeAll(rs)
    ensures |completed| <= |rs| && completed == EncodeAll(rs[..|completed|])
  {
    EncodeAllSlice(rs, 0, 0);
    EncodeAllSlice(rs, 0, |completed|);
    assert completed == (completed + queue)[0..|completed|];
    assert rs[0..|completed|] == rs[..|completed|];
  }

  // ---------- when a connection may be opened ----------

  /** Connection `n` has handed over whole requests as long as it lasted. */
  ghost predicate DeliversIn(w: Outbound, n: nat, first: nat, rs: seq<Request>) {
    |w.conns| > n && Delivers(first, w.conns[n].bytes, ConnEnd(w, n), rs)
  }

  /** So has the connection that `Connect(v)` opens, after the events `es`. */
  ghost predicate DeliversAfter(v: Outbound, es: seq<Event>, rs: seq<Request>) {
    DeliversIn(RunAll(Connect(v), es), |v.conns|, |v.completed|, rs)
  }

  lemma {:induction false} EncodeAllConcat(a: seq<Request>, b: seq<Request>)
    ensures EncodeAll(a + b) == EncodeAll(a) + EncodeAll(b)
  {
    if a == [] {
      assert a + b == b;
    } else {
      assert (a + b)[1..] == a[1..] + b;
      EncodeAllConcat(a[1..], b);
    }
  }

  lemma CleanConnectDelivers(v: Outbound, rs: seq<Request>, es: seq<Event>, more: seq<Request>)
    requires Inv(v) && v.enqueued == EncodeAll(rs) && v.link.written == []
    requires Published(es) == EncodeAll(more)
    ensures DeliversAfter(v, es, rs + more)
  {
    var u, n := Connect(v), |v.conns|;
    var w := RunAll(u, es);
    ConnectKeepsInv(v);
    EveryRunKeepsInv(u, es);
    RunKeepsStarts(u, es, n);
    RunEnqueues(u, es);
    EncodeAllConcat(rs, more);
    assert ConnSpan(w.conns[n], ConnEnd(w, n), w.enqueued);
    SpanDelivers(w.conns[n], ConnEnd(w, n), rs + more);
  }

  const SUCCESS := Flush(NO_ERROR, 0, false)

  /** The head is sent to its end, but the connection carries only what was left of it. */
  lemma RestCompletesHead(v: Outbound)
    requires Inv(v) && v.link.written != []
    ensures var w := Step(Connect(v), SendEvent(SUCCESS));
            && v.queue != [] && |v.link.rest| < |v.queue[0]|
            && w.completed == v.completed + [v.queue[0]] && w.enqueued == v.enqueued
            && w.conns == v.conns + [Conn(|v.completed|, v.link.written, v.link.rest)]
            && w.link.accepted == v.link.accepted + v.link.rest
  {
    var u := Connect(v);
    CarryParts(u.conns, v.link.rest);
    assert [] + v.link.rest == v.link.rest;
  }

  lemma ShortDoesNotDeliver(n: nat, bytes: ByteString, rs: seq<Request>)
    requires n < |rs| && |bytes| < |Encode(rs[n])|
    ensures !Delivers(n, bytes, n + 1, rs)
  {
    ParseFits(bytes);
    assert ParseAll(bytes) != [] ==> ParseAll(bytes)[0] != rs[n];
    assert rs[n..n + 1][0] == rs[n];
    assert n + 1 < |rs| ==> rs[n..n + 2][0] == rs[n];
  }

  lemma RestAfterConnect(v: Outbound)
    requires Inv(v) && v.link.written != []
    ensures v.queue != [] && |v.link.rest| < |v.queue[0]|
    ensures var w, n := RunAll(Connect(v), [] + [SendEvent(SUCCESS)]), |v.conns|;
            |w.conns| == n + 1 && w.conns[n].bytes == v.link.rest && ConnEnd(w, n) == |v.completed| + 1
  {
    RunSnoc(Connect(v), [], SendEvent(SUCCESS));
    RestCompletesHead(v);
  }

  lemma HeadIsRequest(v: Outbound, rs: seq<Request>)
    requires Inv(v) && v.enqueued == EncodeAll(rs) && v.queue != []
    ensures |v.completed| < |rs| && v.queue[0] == Encode(rs[|v.completed|])
  {
    EncodeAllSlice(rs, 0, 0);
    assert v.enqueued[|v.completed|] == v.queue[0];
    EncodeAllAt(rs, |v.completed|);
  }

  lemma DirtyConnectFails(v: Outbound, rs: seq<Request>)
    requires Inv(v) && v.enqueued == EncodeAll(rs) && v.link.written != []
    ensures !DeliversAfter(v, [] + [SendEvent(SUCCESS)], rs)
  {
    RestAfterConnect(v);
    HeadIsRequest(v, rs);
    ShortConnFails(RunAll(Connect(v), [] + [SendEvent(SUCCESS)]), |v.conns|, |v.completed|, rs);
  }

  lemma ShortConnFails(w: Outbound, n: nat, first: nat, rs: seq<Request>)
    requires |w.conns| > n && ConnEnd(w, n) == first + 1
    requires first < |rs| && |w.conns[n].bytes| < |Encode(rs[first])|
    ensures !DeliversIn(w, n, first, rs)
  {
    ShortDoesNotDeliver(first, w.conns[n].bytes, rs);
  }

  /**
   A connection of a socket object hands over whole requests from the first pending one, in every future of
   publishes, writes, failures, timeouts and further connections, exactly if no byte of the head counts as
   written when it is opened.
   */
  lemma ConnectDeliversIff(v: Outbound, rs: seq<Request>)
    requires Inv(v) && v.enqueued == EncodeAll(rs)
    ensures (forall es: seq<Event>, more: seq<Request> ::
               Published(es) == EncodeAll(more) ==> DeliversAfter(v, es, rs + more)) <==>
            v.link.written == []
  {
    if v.link.written == [] {
      forall es: seq<Event>, more: seq<Request> | Published(es) == EncodeAll(more)
        ensures DeliversAfter(v, es, rs + more)
      {
        CleanConnectDelivers(v, rs, es, more);
      }
    } else {
      var es, more: seq<Request> := [] + [SendEvent(SUCCESS)], [];
      NothingPublished(SendEvent(SUCCESS));
      DirtyConnectFails(v, rs);
      assert rs + more == rs;
      assert !DeliversAfter(v, es, rs + more);
    }
  }

  lemma NothingPublished(e: Event)
    requires !e.Publish?
    ensures Published([] + [e]) == EncodeAll([])
  {
    var es := [] + [e];
    assert es[1..] == [];
    assert Published(es) == [] + Published(es[1..]);
  }

  /** Connected, one message queued, one byte of it written, and then the connection drops. */
  lemma PartlySent(m: ByteString)
    requires |m| > 1
    ensures var v := RunAll(START, [] + [TimeoutEvent(true)] + [PoolEvent(false, true)] + [Publish(m)]
                                   + [SendEvent(Flush(1, 1, true))]);
            && v.queue == [m] && v.completed == [] && v.enqueued == [m] && v.queued && v.signalled
            && v.link.written == m[..1] && v.link.rest == m[1..] && v.link.accepted == m[..1]
            && v.conns == [Conn(0, [], m[..1])]
  {
    var request, connect, send := TimeoutEvent(true), PoolEvent(false, true), SendEvent(Flush(1, 1, true));
    RunSnoc(START, [], request);
    RunSnoc(START, [] + [request], connect);
    RunSnoc(START, [] + [request] + [connect], Publish(m));
    RunSnoc(START, [] + [request] + [connect] + [Publish(m)], send);
    var v := Step(Step(Step(START, request), connect), Publish(m));
    assert v.conns == [Conn(0, [], [])] && v.link.written == [] && v.link.rest == [];
    assert Sends(Fill(v.link, m), Flush(1, 1, true)) == m[..1];
  }

  /** Through the pool, the send goes the same way as on the bare connection. */
  lemma ReconnectedSend(v: Outbound)
    requires v.status.Offline? && v.queued && v.signalled && v.queue != []
    ensures var w, u := Step(PoolRun(v, false, true), SendEvent(SUCCESS)), Step(Connect(v), SendEvent(SUCCESS));
            w.completed == u.completed && w.enqueued == u.enqueued && w.conns == u.conns && w.link == u.link
  {}

  /** The states of the run: before and after the disconnect, after the second connect, after the second send. */
  lemma DisconnectAndRetry(m: ByteString)
    returns (es: seq<Event>, v: Outbound, d: Outbound, p: Outbound, w: Outbound)
    requires |m| > 1
    ensures v.queue == [m] && v.completed == [] && v.enqueued == [m] && v.queued && v.signalled
    ensures v.link.written == m[..1] && v.link.rest == m[1..] && v.link.accepted == m[..1]
    ensures v.conns == [Conn(0, [], m[..1])] && Inv(v)
    ensures d == Step(v, Disconnected) && p == Step(d, PoolEvent(false, true)) && w == Step(p, SendEvent(SUCCESS))
    ensures w == RunAll(START, es)
  {
    PartlySent(m);
    es := [] + [TimeoutEvent(true)] + [PoolEvent(false, true)] + [Publish(m)] + [SendEvent(Flush(1, 1, true))];
    v := RunAll(START, es);
    StartInv();
    EveryRunKeepsInv(START, es);
    d, p, w, es := Append(es, Disconnected, PoolEvent(false, true), SendEvent(SUCCESS));
  }

  lemma Append(es: seq<Event>, a: Event, b: Event, c: Event)
    returns (x: Outbound, y: Outbound, z: Outbound, all: seq<Event>)
    ensures x == Step(RunAll(START, es), a) && y == Step(x, b) && z == Step(y, c) && z == RunAll(START, all)
  {
    RunSnoc(START, es, a);
    RunSnoc(START, es + [a], b);
    RunSnoc(START, es + [a] + [b], c);
    x, y, all := RunAll(START, es + [a]), RunAll(START, es + [a] + [b]), es + [a] + [b] + [c];
    z := RunAll(START, all);
  }

  /** And then the pool connects the same socket again, and the send succeeds. */
  lemma RestSent(m: ByteString)
    requires |m| > 1
    ensures exists es: seq<Event> ::
              var v := RunAll(START, es);
              && Published(es) == [m] && v.completed == [m] && |v.conns| == 2
              && v.conns[1].first == 0 && v.conns[1].bytes == m[1..] && v.link.accepted == m
  {
    var es, v, d, p, w := DisconnectAndRetry(m);
    DisconnectStep(v, d);
    StepKeepsInv(v, Disconnected);
    SecondSend(d, p, w, m);
    RunEnqueues(START, es);
    assert [] + Published(es) == Published(es);
  }

  lemma DisconnectStep(v: Outbound, d: Outbound)
    requires d == Step(v, Disconnected)
    ensures d == v.(status := Offline, timer := Never)
  {}

  lemma SecondSend(v: Outbound, p: Outbound, w: Outbound, m: ByteString)
    requires Inv(v) && |m| > 1 && v.queue == [m] && v.completed == [] && v.enqueued == [m] && v.queued && v.signalled
    requires v.link.written == m[..1] && v.link.rest == m[1..] && v.link.accepted == m[..1]
    requires v.conns == [Conn(0, [], m[..1])] && v.status.Offline?
    requires p == Step(v, PoolEvent(false, true)) && w == Step(p, SendEvent(SUCCESS))
    ensures w.completed == [m] && w.enqueued == [m] && |w.conns| == 2
    ensures w.conns[1].first == 0 && w.conns[1].bytes == m[1..] && w.link.accepted == m
  {
    assert p == PoolRun(v, false, true);
    RestCompletesHead(v);
    ReconnectedSend(v);
    assert m[..1] + m[1..] == m;
  }

  /**
   A run that opens such a connection: one byte of a request goes out, the connection drops, the pool connects
   the same socket again, and the send succeeds. The request counts as completed, and its peer got all but the
   first byte of it.
   */
  lemma MidMessageConnection(r: Request)
    ensures exists es: seq<Event> ::
              var v := RunAll(START, es);
              && Published(es) == EncodeAll([r]) && v.completed == [Encode(r)] && |v.conns| == 2
              && v.conns[1].bytes == Encode(r)[1..] && v.link.accepted == Encode(r)
              && ParseAll(v.conns[1].bytes) != [r] && !Delivers(v.conns[1].first, v.conns[1].bytes, 1, [r])
  {
    var m := Encode(r);
    RestSent(m);
    var es: seq<Event> :|
      var v := RunAll(START, es);
      && Published(es) == [m] && v.completed == [m] && |v.conns| == 2
      && v.conns[1].first == 0 && v.conns[1].bytes == m[1..] && v.link.accepted == m;
    assert EncodeAll([r]) == [m];
    ShortDoesNotDeliver(0, m[1..], [r]);
    assert [r][0..1] == [r];
  }
}
