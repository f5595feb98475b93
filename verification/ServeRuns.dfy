/** What the read event makes of a connection's input, and what it throws away. */
module ServeRuns {
  import opened Bytes
  import opened Protocol
  import opened RemainingLength
  import opened SocketErrors
  import opened Framing
  import opened Session
  import opened SessionRuns
  import opened SocketInput

  function AllData(chunks: seq<ByteString>): seq<Ready> {
    if chunks == [] then [] else [Data(chunks[0])] + AllData(chunks[1..])
  }

  // ---------- what a failure throws away ----------

  lemma {:induction false} DrainSkipsData(junk: seq<ByteString>, tail: seq<Ready>)
    ensures Drain(Input(AllData(junk) + tail, true)) == Drain(Input(tail, true))
  {
    if junk == [] {
      assert AllData(junk) + tail == tail;
    } else {
      var input := Input(AllData(junk) + tail, true);
      assert input.script[1..] == AllData(junk[1..]) + tail;
      DrainSkipsData(junk[1..], tail);
    }
  }

  /** The bytes that are there now, up to the first read that gets none. */
  function Available(script: seq<Ready>): seq<ByteString> {
    if script == [] || !script[0].Data? then [] else [script[0].bytes] + Available(script[1..])
  }

  /**
   Everything that is there now is thrown away, together with the read that gets nothing, and no more than that:
   the drain stops at the first read that would block, at the end of the connection, or at the end of the input.
   */
  lemma {:induction false} DrainStops(junk: seq<ByteString>, tail: seq<Ready>)
    ensures Drain(Input(AllData(junk), true)) == Input([], true)
    ensures Drain(Input(AllData(junk) + [Again] + tail, true)) == Input(tail, true)
    ensures forall err :: Drain(Input(AllData(junk) + [Gone(err)] + tail, true)) == Input(tail, false)
    ensures Drain(Input(tail, false)) == Input(tail, false)
  {
    assert AllData(junk) + [] == AllData(junk);
    DrainSkipsData(junk, []);
    assert AllData(junk) + [Again] + tail == AllData(junk) + ([Again] + tail);
    DrainSkipsData(junk, [Again] + tail);
    assert ([Again] + tail)[1..] == tail;
    forall err ensures Drain(Input(AllData(junk) + [Gone(err)] + tail, true)) == Input(tail, false) {
      assert AllData(junk) + [Gone(err)] + tail == AllData(junk) + ([Gone(err)] + tail);
      DrainSkipsData(junk, [Gone(err)] + tail);
      assert ([Gone(err)] + tail)[1..] == tail;
    }
  }

  /** Every input has one of these forms. */
  lemma {:induction false} AvailableSplits(script: seq<Ready>)
    ensures AllData(Available(script)) <= script
    ensures var rest := script[|AllData(Available(script))|..]; rest == [] || !rest[0].Data?
  {
    if script != [] && script[0].Data? {
      AvailableSplits(script[1..]);
      var more := AllData(Available(script[1..]));
      assert Available(script)[1..] == Available(script[1..]);
      assert script == [script[0]] + script[1..];
      assert script[1 + |more|..] == script[1..][|more|..];
    }
  }

  lemma ServeFailure(s: Session, b: ByteString, tail: seq<Ready>, env: Env)
    requires |b| < BUFFER_SIZE - 1 && Play(s, Split(b), env).rc != MQTT_ERR_SUCCESS
    ensures var o := Play(s, Split(b), env);
            Serve(s, Input([Data(b)] + tail, true), env) ==
            After(o.ops, Serve(o.session, Drain(SeenBy(Input(tail, true), o.session)), env))
  {
    assert ([Data(b)] + tail)[1..] == tail;
  }

  /**
   After a chunk that is not handled to its end, the input that is there already has no effect: it is read and
   thrown away, or stays unread if the failure was a send that found the connection gone.
   */
  lemma FailureDropsInput(s: Session, b: ByteString, junk: seq<ByteString>, tail: seq<Ready>, env: Env)
    requires |b| < BUFFER_SIZE - 1 && Play(s, Split(b), env).rc != MQTT_ERR_SUCCESS
    ensures var long := Serve(s, Input([Data(b)] + AllData(junk) + tail, true), env);
            var short := Serve(s, Input([Data(b)] + tail, true), env);
            && long.session == short.session && long.ops == short.ops
            && (!Play(s, Split(b), env).session.dropped ==> long == short)
  {
    ServeFailure(s, b, AllData(junk) + tail, env);
    ServeFailure(s, b, tail, env);
    DrainSkipsData(junk, tail);
    assert [Data(b)] + AllData(junk) + tail == [Data(b)] + (AllData(junk) + tail);
  }

  /**
   What comes behind that input is not lost: after a chunk that failed on a live connection, serving goes on with the
   first read behind the one that got nothing, and it ends at once if that one met the end of the connection.
   */
  lemma FailureKeepsLaterInput(s: Session, b: ByteString, junk: seq<ByteString>, tail: seq<Ready>, env: Env)
    requires |b| < BUFFER_SIZE - 1 && Play(s, Split(b), env).rc != MQTT_ERR_SUCCESS
    requires !Play(s, Split(b), env).session.dropped
    ensures var o := Play(s, Split(b), env);
            && Serve(s, Input([Data(b)] + AllData(junk) + [Again] + tail, true), env) ==
               After(o.ops, Serve(o.session, Input(tail, true), env))
            && forall err :: Serve(s, Input([Data(b)] + AllData(junk) + [Gone(err)] + tail, true), env) ==
                             Served(o.session, o.ops, Input(tail, false))
  {
    ServeAfterFailure(s, b, junk, Again, tail, env);
    forall err {
      ServeAfterFailure(s, b, junk, Gone(err), tail, env);
    }
    EmptyServe(Play(s, Split(b), env), tail, env);
  }

  lemma EmptyServe(o: Outcome, tail: seq<Ready>, env: Env)
    ensures After(o.ops, Serve(o.session, Input(tail, false), env)) == Served(o.session, o.ops, Input(tail, false))
  {
    assert o.ops + [] == o.ops;
  }

  lemma ServeAfterFailure(s: Session, b: ByteString, junk: seq<ByteString>, stop: Ready, tail: seq<Ready>, env: Env)
    requires |b| < BUFFER_SIZE - 1 && Play(s, Split(b), env).rc != MQTT_ERR_SUCCESS && !stop.Data?
    requires !Play(s, Split(b), env).session.dropped
    ensures var o := Play(s, Split(b), env);
            Serve(s, Input([Data(b)] + AllData(junk) + [stop] + tail, true), env) ==
            After(o.ops, Serve(o.session, Input(tail, stop.Again?), env))
  {
    DrainStops(junk, tail);
    ServeFailure(s, b, AllData(junk) + [stop] + tail, env);
    assert [Data(b)] + AllData(junk) + [stop] + tail == [Data(b)] + (AllData(junk) + [stop] + tail);
  }

  /** A send that found the connection gone ends the serving, and everything behind it stays unread. */
  lemma DroppedEndsServing(s: Session, b: ByteString, tail: seq<Ready>, env: Env)
    requires |b| < BUFFER_SIZE - 1 && Play(s, Split(b), env).session.dropped
    ensures var o := Play(s, Split(b), env);
            Serve(s, Input([Data(b)] + tail, true), env) == Served(o.session, o.ops, Input(tail, false))
  {
    assert ([Data(b)] + tail)[1..] == tail;
    assert Play(s, Split(b), env).ops + [] == Play(s, Split(b), env).ops;
  }

  /** Everything a chunk that fills the buffer brings is lost, up to the size of the buffer. */
  lemma FullBufferIsLost(s: Session, b: ByteString, c: ByteString, tail: seq<Ready>, env: Env)
    requires |b| == 2047
    ensures Serve(s, Input([Data(b + c)] + tail, true), env) ==
            Serve(s, Input((if c == [] then [] else [Data(c)]) + tail, true), env)
  {
    var long := [Data(b + c)] + tail;
    assert (b + c)[BUFFER_SIZE - 1..] == c;
    assert long[1..] == tail;
    if c != [] {
      assert Rest(long, BUFFER_SIZE - 1) == [Data(c)] + tail;
    } else {
      assert [] + tail == tail;
    }
  }

  // ---------- reads that end between frames ----------

  /** A send that finds the connection gone is a failure, so a success leaves the connection up. */
  lemma {:induction false} SuccessKeepsConnection(s: Session, x: Stream, env: Env)
    requires Play(s, x, env).rc == MQTT_ERR_SUCCESS
    ensures Play(s, x, env).session.dropped == s.dropped
    decreases |x.frames|
  {
    if x.frames != [] {
      SuccessfulFrame(s, x.frames[0], env);
      SuccessKeepsConnection(Receive(s, x.frames[0], env).session, Stream(x.frames[1..], x.ending), env);
    }
  }

  lemma SuccessfulFrame(s: Session, f: Frame, env: Env)
    ensures Receive(s, f, env).rc == MQTT_ERR_SUCCESS ==> Receive(s, f, env).session.dropped == s.dropped
  {}

  lemma FlattenSplit(chunks: seq<ByteString>)
    requires chunks != [] && Split(chunks[0]).ending != CutShort
    ensures Split(Flatten(chunks)) == Join(Split(chunks[0]), Split(Flatten(chunks[1..])))
  {
    SplitAppend(chunks[0], Flatten(chunks[1..]));
  }

  lemma ServeChunkFirst(s: Session, b: ByteString, tail: seq<Ready>, env: Env)
    requires |b| < BUFFER_SIZE - 1 && Play(s, Split(b), env).rc == MQTT_ERR_SUCCESS && !s.dropped
    ensures var o := Play(s, Split(b), env);
            !o.session.dropped &&
            Serve(s, Input([Data(b)] + tail, true), env) == After(o.ops, Serve(o.session, Input(tail, true), env))
  {
    SuccessKeepsConnection(s, Split(b), env);
    assert ([Data(b)] + tail)[1..] == tail;
  }

  /** The input behind a read that got nothing; the end of the connection is seen by that read. */
  function Behind(tail: seq<Ready>): Input {
    if tail == [] then Input([], true) else Input(tail[1..], tail[0].Again?)
  }

  /** How the reads of a byte stream end, with `o` the outcome of playing the stream, and `tail` what lies behind it. */
  ghost predicate EndsLike(r: Served, o: Outcome, tail: seq<Ready>, env: Env) {
    if o.rc == MQTT_ERR_SUCCESS then r == Served(o.session, o.ops, Behind(tail))
    else if o.session.dropped then r.session == o.session && r.ops == o.ops && !r.input.live
    else r == After(o.ops, Serve(o.session, Behind(tail), env))
  }

  /**
   If no read stops inside a frame, serving the reads one by one is playing the concatenated byte stream: the same
   frames, the same session, the same registry operations. If that succeeds, the wake-up ends with the first read that
   gets nothing, and leaves what is behind it for the next one; if it fails, serving goes on behind that read.
   */
  lemma {:induction false} ServeIsStream(s: Session, chunks: seq<ByteString>, tail: seq<Ready>, env: Env)
    requires !s.dropped && (tail == [] || !tail[0].Data?)
    requires forall i :: 0 <= i < |chunks| ==> |chunks[i]| < BUFFER_SIZE - 1 && Split(chunks[i]).ending != CutShort
    ensures EndsLike(Serve(s, Input(AllData(chunks) + tail, true), env),
                     Play(s, Split(Flatten(chunks)), env), tail, env)
    decreases |chunks|
  {
    if chunks == [] {
      assert AllData(chunks) + tail == tail;
    } else if Play(s, Split(chunks[0]), env).rc == MQTT_ERR_SUCCESS {
      SuccessKeepsConnection(s, Split(chunks[0]), env);
      ServeIsStream(Play(s, Split(chunks[0]), env).session, chunks[1..], tail, env);
      SuccessEnds(s, chunks, tail, env);
    } else {
      FailureEnds(s, chunks, tail, env);
    }
  }

  lemma SuccessEnds(s: Session, chunks: seq<ByteString>, tail: seq<Ready>, env: Env)
    requires chunks != [] && |chunks[0]| < BUFFER_SIZE - 1 && Split(chunks[0]).ending != CutShort
    requires Play(s, Split(chunks[0]), env).rc == MQTT_ERR_SUCCESS && !s.dropped
    requires var t := Play(s, Split(chunks[0]), env).session;
             EndsLike(Serve(t, Input(AllData(chunks[1..]) + tail, true), env),
                      Play(t, Split(Flatten(chunks[1..])), env), tail, env)
    ensures EndsLike(Serve(s, Input(AllData(chunks) + tail, true), env),
                     Play(s, Split(Flatten(chunks)), env), tail, env)
  {
    var o := Play(s, Split(chunks[0]), env);
    PlayChunks(s, chunks, env);
    AllDataCons(chunks, tail);
    ServeChunkFirst(s, chunks[0], AllData(chunks[1..]) + tail, env);
    AfterEnds(o, Serve(o.session, Input(AllData(chunks[1..]) + tail, true), env),
              Play(o.session, Split(Flatten(chunks[1..])), env), tail, env);
  }

  lemma AllDataCons(chunks: seq<ByteString>, tail: seq<Ready>)
    requires chunks != []
    ensures AllData(chunks) + tail == [Data(chunks[0])] + (AllData(chunks[1..]) + tail)
  {}

  lemma PlayChunks(s: Session, chunks: seq<ByteString>, env: Env)
    requires chunks != [] && Split(chunks[0]).ending != CutShort
    ensures var o := Play(s, Split(chunks[0]), env);
            var q := Play(o.session, Split(Flatten(chunks[1..])), env);
            Play(s, Split(Flatten(chunks)), env) ==
            if o.rc != MQTT_ERR_SUCCESS then o else Outcome(q.session, o.ops + q.ops, q.rc)
  {
    FlattenSplit(chunks);
    PlayJoin(s, Split(chunks[0]), Split(Flatten(chunks[1..])), env);
  }

  lemma FailureEnds(s: Session, chunks: seq<ByteString>, tail: seq<Ready>, env: Env)
    requires chunks != [] && |chunks[0]| < BUFFER_SIZE - 1 && Split(chunks[0]).ending != CutShort
    requires Play(s, Split(chunks[0]), env).rc != MQTT_ERR_SUCCESS && (tail == [] || !tail[0].Data?)
    ensures EndsLike(Serve(s, Input(AllData(chunks) + tail, true), env),
                     Play(s, Split(Flatten(chunks)), env), tail, env)
  {
    PlayChunks(s, chunks, env);
    AllDataCons(chunks, tail);
    FailedChunkEnds(s, chunks[0], chunks[1..], tail, env);
  }

  lemma FailedChunkEnds(s: Session, b: ByteString, rest: seq<ByteString>, tail: seq<Ready>, env: Env)
    requires |b| < BUFFER_SIZE - 1 && Play(s, Split(b), env).rc != MQTT_ERR_SUCCESS
    requires tail == [] || !tail[0].Data?
    ensures EndsLike(Serve(s, Input([Data(b)] + (AllData(rest) + tail), true), env), Play(s, Split(b), env), tail, env)
  {
    var o := Play(s, Split(b), env);
    ServeFailure(s, b, AllData(rest) + tail, env);
    if o.session.dropped {
      EmptyServe(o, AllData(rest) + tail, env);
    } else {
      DrainSkipsData(rest, tail);
      DrainNoData(tail);
    }
  }

  lemma DrainNoData(tail: seq<Ready>)
    requires tail == [] || !tail[0].Data?
    ensures Drain(Input(tail, true)) == Behind(tail)
  {}

  lemma AfterEnds(first: Outcome, r: Served, q: Outcome, tail: seq<Ready>, env: Env)
    requires EndsLike(r, q, tail, env)
    ensures EndsLike(After(first.ops, r), Outcome(q.session, first.ops + q.ops, q.rc), tail, env)
  {
    var later := Serve(q.session, Behind(tail), env).ops;
    assert first.ops + (q.ops + later) == (first.ops + q.ops) + later;
  }

  // ---------- the largest frame ----------

  /** The longest encoded frame that a read can bring. */
  const MAX_FRAME := 2046

  /** `after` is `before` and then only frames that are short enough. */
  ghost predicate GrowsBySmall(before: seq<Frame>, after: seq<Frame>) {
    before <= after && forall i :: |before| <= i < |after| ==> |EncodeFrame(after[i])| <= MAX_FRAME
  }

  lemma GrowsTransitive(a: seq<Frame>, b: seq<Frame>, c: seq<Frame>)
    requires GrowsBySmall(a, b) && GrowsBySmall(b, c)
    ensures GrowsBySmall(a, c)
  {
    assert forall i :: 0 <= i < |b| ==> c[i] == b[i];
  }

  lemma {:induction false} SplitIsSmall(b: ByteString)
    requires |b| <= MAX_FRAME
    ensures forall i :: 0 <= i < |Split(b).frames| ==> |EncodeFrame(Split(b).frames[i])| <= MAX_FRAME
    decreases |b|
  {
    if b != [] {
      match ParseFrame(b)
      case Malformed =>
      case Partial(f) =>
        assert EncodeLength(0) == [0];
      case Whole(f, size) =>
        WholeFrameSize(b);
        SplitIsSmall(b[size..]);
    }
  }

  lemma PlayGrowsBySmall(s: Session, b: ByteString, env: Env)
    requires |b| <= MAX_FRAME
    ensures GrowsBySmall(Frames(s.log), Frames(Play(s, Split(b), env).session.log))
  {
    SplitIsSmall(b);
    DispatchIsPrefix(s, Split(b), env);
  }

  /** Whatever the connection brings, no frame longer than 2046 bytes reaches a handler. */
  lemma {:induction false} ServeGrowsBySmall(s: Session, input: Input, env: Env)
    ensures GrowsBySmall(Frames(s.log), Frames(Serve(s, input, env).session.log))
    decreases Weight(input.script)
  {
    if input.live && input.script != [] && input.script[0].Data? {
      var b := input.script[0].bytes;
      if |b| >= BUFFER_SIZE - 1 {
        ServeGrowsBySmall(s, input.(script := Rest(input.script, BUFFER_SIZE - 1)), env);
      } else {
        var o := Play(s, Split(b), env);
        var next := SeenBy(input.(script := input.script[1..]), o.session);
        var r := if o.rc == MQTT_ERR_SUCCESS then next else Drain(next);
        PlayGrowsBySmall(s, b, env);
        ServeGrowsBySmall(o.session, r, env);
        GrowsTransitive(Frames(s.log), Frames(o.session.log), Frames(Serve(o.session, r, env).session.log));
      }
    }
  }

  function EncodeEach(fs: seq<Frame>): seq<ByteString> {
    if fs == [] then [] else [EncodeFrame(fs[0])] + EncodeEach(fs[1..])
  }

  lemma {:induction false} EncodeEachParts(fs: seq<Frame>)
    requires forall i :: 0 <= i < |fs| ==> |EncodeFrame(fs[i])| <= MAX_FRAME
    ensures Flatten(EncodeEach(fs)) == EncodeStream(fs)
    ensures forall i :: 0 <= i < |EncodeEach(fs)| ==>
              |EncodeEach(fs)[i]| <= MAX_FRAME && Split(EncodeEach(fs)[i]).ending == Consumed
  {
    if fs != [] {
      OneFrame(fs[0]);
      EncodeEachParts(fs[1..]);
    }
  }

  lemma OneFrame(f: Frame)
    requires |EncodeFrame(f)| <= MAX_FRAME
    ensures Split(EncodeFrame(f)).ending == Consumed
  {
    var e := EncodeFrame(f);
    ParseEncoded(f, []);
    assert e + [] == e;
    assert e[|e|..] == [];
  }

  /** Read by read, these frames are what the handlers get. */
  ghost predicate ReachHandlers(s: Session, chunks: seq<ByteString>, fs: seq<Frame>, env: Env) {
    Frames(Serve(s, Input(AllData(chunks), true), env).session.log) == Frames(s.log) + fs
  }

  lemma OneFrameARead(s: Session, fs: seq<Frame>, env: Env)
    requires !s.dropped && Play(s, Stream(fs, Consumed), env).rc == MQTT_ERR_SUCCESS
    requires forall i :: 0 <= i < |fs| ==> |EncodeFrame(fs[i])| <= MAX_FRAME
    ensures Flatten(EncodeEach(fs)) == EncodeStream(fs) && ReachHandlers(s, EncodeEach(fs), fs, env)
  {
    EncodeEachParts(fs);
    ServeIsStream(s, EncodeEach(fs), [], env);
    assert AllData(EncodeEach(fs)) + [] == AllData(EncodeEach(fs));
    EncodedFramesAreHandled(s, fs, env);
  }

  lemma OnlySmallFrames(s: Session, chunks: seq<ByteString>, fs: seq<Frame>, env: Env)
    requires ReachHandlers(s, chunks, fs, env)
    ensures forall i :: 0 <= i < |fs| ==> |EncodeFrame(fs[i])| <= MAX_FRAME
  {
    ServeGrowsBySmall(s, Input(AllData(chunks), true), env);
    var before, all := Frames(s.log), Frames(s.log) + fs;
    forall i | 0 <= i < |fs| ensures |EncodeFrame(fs[i])| <= MAX_FRAME {
      assert all[|before| + i] == fs[i];
    }
  }

  /**
   Frames that the handlers accept can reach them, unchanged and all of them, under some division of the encoded
   stream into reads exactly if each of them has at most 2046 bytes: the real limit of the receive buffer.
   */
  lemma ReachHandlersIff(s: Session, fs: seq<Frame>, env: Env)
    requires !s.dropped && Play(s, Stream(fs, Consumed), env).rc == MQTT_ERR_SUCCESS
    ensures (exists chunks: seq<ByteString> ::
               Flatten(chunks) == EncodeStream(fs) && ReachHandlers(s, chunks, fs, env)) <==>
            forall i :: 0 <= i < |fs| ==> |EncodeFrame(fs[i])| <= MAX_FRAME
  {
    if forall i :: 0 <= i < |fs| ==> |EncodeFrame(fs[i])| <= MAX_FRAME {
      OneFrameARead(s, fs, env);
    }
    forall chunks: seq<ByteString> | ReachHandlers(s, chunks, fs, env)
      ensures forall i :: 0 <= i < |fs| ==> |EncodeFrame(fs[i])| <= MAX_FRAME
    {
      OnlySmallFrames(s, chunks, fs, env);
    }
  }

  // ---------- invariants ----------

  lemma {:induction false} PlayKeepsInvariants(s: Session, x: Stream, env: Env)
    requires StatusInv(s, env.json) && ReplyInv(s, env)
    ensures StatusInv(Play(s, x, env).session, env.json) && ReplyInv(Play(s, x, env).session, env)
    decreases |x.frames|
  {
    if x.frames != [] {
      var e := Receive(s, x.frames[0], env);
      ReceiveKeepsStatusInv(s, x.frames[0], env);
      ReceiveKeepsReplyInv(s, x.frames[0], env);
      PlayKeepsInvariants(e.session, Stream(x.frames[1..], x.ending), env);
    }
  }

  /** Whatever the input, one wake-up keeps status, identity and responses of the session consistent. */
  lemma {:induction false} ServeKeepsInvariants(s: Session, input: Input, env: Env)
    requires StatusInv(s, env.json) && ReplyInv(s, env)
    ensures StatusInv(Serve(s, input, env).session, env.json) && ReplyInv(Serve(s, input, env).session, env)
    decreases Weight(input.script)
  {
    if input.live && input.script != [] && input.script[0].Data? {
      var b := input.script[0].bytes;
      if |b| >= BUFFER_SIZE - 1 {
        ServeKeepsInvariants(s, input.(script := Rest(input.script, BUFFER_SIZE - 1)), env);
      } else {
        var o := Play(s, Split(b), env);
        var next := SeenBy(input.(script := input.script[1..]), o.session);
        PlayKeepsInvariants(s, Split(b), env);
        ServeKeepsInvariants(o.session, if o.rc == MQTT_ERR_SUCCESS then next else Drain(next), env);
      }
    }
  }
}
