/**
 The frames of a received buffer, read off the original bytes without moving any of them.
 `MqttServer.ProcessRecvMsg` is proved to follow this parser although it shifts the buffer in place.
 */
module Framing {
  import opened Bytes
  import opened RemainingLength

  /** What is handed to the packet handler: the command byte and the copied-out payload. */
  datatype Frame = Frame(command: Byte, payload: ByteString)

  /** `Partial`: the buffer ends inside the frame, which is handed over with no payload all the same. */
  datatype Parse =
    | Malformed
    | Partial(frame: Frame)
    | Whole(frame: Frame, size: nat)

  datatype Ending = Consumed | CutShort | Broken

  /** All the frames of a buffer, and how the buffer ends. */
  datatype Stream = Stream(frames: seq<Frame>, ending: Ending)

  function ParseFrame(s: ByteString): (r: Parse)
    requires s != []
    ensures r.Whole? ==> 2 <= r.size <= |s| && |r.frame.payload| <= r.size - 2
    ensures !r.Malformed? ==> r.frame.command == s[0]
  {
    var more := MoreRun(s[1..]);
    if more >= MAX_LENGTH_BYTES then Malformed
    else if 1 + more == |s| then Partial(Frame(s[0], []))
    else
      var length := Base128(s[1..more + 2]);
      var start := more + 2;
      if start + length > |s| then Partial(Frame(s[0], []))
      else Whole(Frame(s[0], s[start..start + length % 0x1_0000]), start + length)
  }

  function Split(s: ByteString): Stream {
    if s == [] then Stream([], Consumed)
    else
      match ParseFrame(s)
      case Malformed => Stream([], Broken)
      case Partial(f) => Stream([f], CutShort)
      case Whole(f, size) => Prepend(f, Split(s[size..]))
  }

  function Prepend(f: Frame, x: Stream): Stream {
    Stream([f] + x.frames, x.ending)
  }

  /** A frame as section 2.1 of MQTT V3.1 lays it out. */
  function EncodeFrame(f: Frame): ByteString {
    [f.command] + EncodeLength(|f.payload|) + f.payload
  }

  function EncodeStream(fs: seq<Frame>): ByteString {
    if fs == [] then [] else EncodeFrame(fs[0]) + EncodeStream(fs[1..])
  }

  /** The payload length goes through a 16-bit parameter. */
  function Clip(f: Frame): Frame {
    Frame(f.command, f.payload[..|f.payload| % 0x1_0000])
  }

  function ClipAll(fs: seq<Frame>): seq<Frame> {
    if fs == [] then [] else [Clip(fs[0])] + ClipAll(fs[1..])
  }

  /** A header is refused exactly when its four length bytes all ask for one more. */
  lemma MalformedIff(s: ByteString)
    requires s != []
    ensures ParseFrame(s).Malformed? <==>
            |s| > MAX_LENGTH_BYTES && forall i :: 1 <= i <= MAX_LENGTH_BYTES ==> s[i] >= 128
  {
    var t := s[1..];
    var more := MoreRun(t);
    MoreRunIff(t, more);
    if more < MAX_LENGTH_BYTES && more < |t| {
      assert s[more + 1] == t[more];
    } else if more >= MAX_LENGTH_BYTES {
      assert forall i :: 1 <= i <= MAX_LENGTH_BYTES ==> s[i] == t[i - 1];
    }
  }

  /**
   What the decoding loop has seen when it stops after `count` length bytes of `a`, of which only the first
   `nLen` bytes were received: a header that reaches the byte behind them is as good as an unfinished frame,
   whatever that byte is.
   */
  lemma HeaderRead(a: ByteString, nLen: nat, count: nat)
    requires 1 <= count <= nLen < |a| && count <= MAX_LENGTH_BYTES
    requires forall i :: 1 <= i < count ==> a[i] >= 128
    requires a[count] < 128 || count == nLen
    ensures var r, length := ParseFrame(a[..nLen]), Base128(a[1..count + 1]);
            && !r.Malformed?
            && (r.Whole? <==> length + count + 1 <= nLen)
            && (r.Whole? ==> r.size == length + count + 1 &&
                             r.frame.payload == a[count + 1..count + 1 + length % 0x1_0000])
  {
    var s := a[..nLen];
    MalformedIff(s);
    if count < nLen {
      HeaderReadWhole(a, nLen, count);
    } else {
      MoreRunIff(s[1..], nLen - 1);
    }
  }

  lemma HeaderReadWhole(a: ByteString, nLen: nat, count: nat)
    requires 1 <= count < nLen < |a| && count <= MAX_LENGTH_BYTES
    requires a[count] < 128 && forall i :: 1 <= i < count ==> a[i] >= 128
    ensures var length := Base128(a[1..count + 1]);
            ParseFrame(a[..nLen]) ==
            if length + count + 1 > nLen then Partial(Frame(a[0], []))
            else Whole(Frame(a[0], a[count + 1..count + 1 + length % 0x1_0000]), length + count + 1)
  {
    var s := a[..nLen];
    var start, length := count + 1, Base128(a[1..count + 1]);
    MoreRunIff(s[1..], count - 1);
    assert s[1..start] == a[1..start];
    if length + start <= nLen {
      assert s[start..start + length % 0x1_0000] == a[start..start + length % 0x1_0000];
    }
  }

  /** One turn of the decoding loop. */
  lemma DigitRead(a: ByteString, count: nat)
    requires count + 1 < |a| && count < MAX_LENGTH_BYTES
    ensures ToUint32(Base128(a[1..count + 1]) + a[count + 1] % 128 * Pow128(count)) == Base128(a[1..count + 2])
    ensures ToUint32(Pow128(count) * 128) == Pow128(count + 1)
  {
    AccumulatorsFit(a[1..count + 1], a[count + 1]);
    assert a[1..count + 2] == a[1..count + 1] + [a[count + 1]];
  }

  lemma HeaderTooLong(a: ByteString, nLen: nat)
    requires MAX_LENGTH_BYTES < nLen < |a|
    requires forall i :: 1 <= i <= MAX_LENGTH_BYTES ==> a[i] >= 128
    ensures ParseFrame(a[..nLen]).Malformed?
  {
    MalformedIff(a[..nLen]);
  }

  lemma ParseEncoded(f: Frame, rest: ByteString)
    requires |f.payload| <= MAX_LENGTH
    ensures ParseFrame(EncodeFrame(f) + rest) == Whole(Clip(f), |EncodeFrame(f)|)
  {
    var n := |f.payload|;
    var e := EncodeLength(n);
    var s := EncodeFrame(f) + rest;
    assert s[1..] == e + (f.payload + rest);
    assert MoreRun(s[1..]) == |e| - 1 by {
      EncodedRun(n, f.payload + rest);
    }
    assert |e| <= MAX_LENGTH_BYTES by {
      FourBytesIffInRange(n);
    }
    assert Base128(s[1..|e| + 1]) == n by {
      assert s[1..|e| + 1] == e;
      DecodeEncoded(n);
    }
    PayloadPart(f, rest, n % 0x1_0000);
  }

  lemma PayloadPart(f: Frame, rest: ByteString, n: nat)
    requires n <= |f.payload|
    ensures var start := 1 + |EncodeLength(|f.payload|)|;
            (EncodeFrame(f) + rest)[start..start + n] == f.payload[..n]
  {}

  /** A buffer holding whole encoded frames gives those frames back, each clipped to its 16-bit length. */
  lemma {:induction false} StreamRoundTrip(fs: seq<Frame>)
    requires forall i :: 0 <= i < |fs| ==> |fs[i].payload| <= MAX_LENGTH
    ensures Split(EncodeStream(fs)) == Stream(ClipAll(fs), Consumed)
  {
    if fs != [] {
      var rest := EncodeStream(fs[1..]);
      ParseEncoded(fs[0], rest);
      assert (EncodeFrame(fs[0]) + rest)[|EncodeFrame(fs[0])|..] == rest;
      StreamRoundTrip(fs[1..]);
    }
  }

  lemma {:induction false} ClipAllIff(fs: seq<Frame>)
    ensures ClipAll(fs) == fs <==> forall i :: 0 <= i < |fs| ==> |fs[i].payload| < 0x1_0000
  {
    if fs != [] {
      var f := fs[0];
      ClipAllIff(fs[1..]);
      assert ClipAll(fs)[0] == Clip(f) && ClipAll(fs)[1..] == ClipAll(fs[1..]);
      if |f.payload| >= 0x1_0000 {
        assert |Clip(f).payload| < |f.payload|;
      } else {
        assert f.payload[..|f.payload| % 0x1_0000] == f.payload;
      }
      assert fs == [f] + fs[1..];
      assert (forall i :: 0 <= i < |fs| ==> |fs[i].payload| < 0x1_0000) <==>
             |f.payload| < 0x1_0000 && forall i :: 0 <= i < |fs[1..]| ==> |fs[1..][i].payload| < 0x1_0000
      by {
        assert forall i :: 1 <= i < |fs| ==> fs[i] == fs[1..][i - 1];
      }
    }
  }

  /** Of the frames that section 2.1 allows, exactly those below 64 KiB survive the round trip. */
  lemma RoundTripIff(fs: seq<Frame>)
    requires forall i :: 0 <= i < |fs| ==> |fs[i].payload| <= MAX_LENGTH
    ensures Split(EncodeStream(fs)) == Stream(fs, Consumed) <==>
            forall i :: 0 <= i < |fs| ==> |fs[i].payload| < 0x1_0000
  {
    StreamRoundTrip(fs);
    ClipAllIff(fs);
  }

  lemma {:induction false} EncodedContinues(n: nat, i: nat)
    requires i + 1 < |EncodeLength(n)|
    ensures EncodeLength(n)[i] >= 128
  {
    if i > 0 {
      EncodedContinues(n / 128, i - 1);
    }
  }

  /** A buffer that stops inside an encoded frame gives that frame with an empty payload, never a clipped one. */
  lemma ProperPrefixIsPartial(f: Frame, n: nat)
    requires |f.payload| <= MAX_LENGTH && 0 < n < |EncodeFrame(f)|
    ensures ParseFrame(EncodeFrame(f)[..n]) == Partial(Frame(f.command, []))
  {
    var e, s := EncodeLength(|f.payload|), EncodeFrame(f)[..n];
    FourBytesIffInRange(|f.payload|);
    if n <= |e| {
      forall i | 0 <= i < n - 1 ensures s[1..][i] >= 128 {
        EncodedContinues(|f.payload|, i);
      }
      MoreRunIff(s[1..], n - 1);
    } else {
      assert s[1..] == e + f.payload[..n - 1 - |e|];
      EncodedRun(|f.payload|, f.payload[..n - 1 - |e|]);
      assert s[1..|e| + 1] == e;
      DecodeEncoded(|f.payload|);
    }
  }

  /** A frame taken whole off a buffer is, in its prescribed encoding, no longer than what it took there. */
  lemma WholeFrameSize(s: ByteString)
    requires s != [] && |s| < 0x1_0000 && ParseFrame(s).Whole?
    ensures |EncodeFrame(ParseFrame(s).frame)| <= ParseFrame(s).size
  {
    var more := MoreRun(s[1..]);
    var digits := s[1..more + 2];
    SmallBufferKeepsPayload(s);
    Base128Bound(digits);
    EncodedSize(Base128(digits), more + 1);
  }

  /** In a buffer of at most 65535 bytes the 16-bit length never cuts a payload: it reaches to the end of its frame. */
  lemma SmallBufferKeepsPayload(s: ByteString)
    requires s != [] && |s| < 0x1_0000 && ParseFrame(s).Whole?
    ensures ParseFrame(s).frame.payload == s[MoreRun(s[1..]) + 2..ParseFrame(s).size]
  {
    var more := MoreRun(s[1..]);
    assert Base128(s[1..more + 2]) % 0x1_0000 == Base128(s[1..more + 2]);
  }

  // ---------- where the stream may be cut by a read ----------

  /** What a receiver sees that parses two consecutive reads one after the other. */
  function Join(x: Stream, y: Stream): Stream {
    if x.ending.Broken? then x else Stream(x.frames + y.frames, y.ending)
  }

  lemma JoinPrepend(f: Frame, x: Stream, y: Stream)
    ensures Join(Prepend(f, x), y) == Prepend(f, Join(x, y))
  {
    assert ([f] + x.frames) + y.frames == [f] + (x.frames + y.frames);
  }

  /** A run that ends inside `a` is not changed by what follows. */
  lemma MoreRunAppend(a: ByteString, b: ByteString)
    ensures MoreRun(a) < |a| ==> MoreRun(a + b) == MoreRun(a)
    ensures MoreRun(a) == |a| ==> MoreRun(a + b) == |a| + MoreRun(b)
  {
    MoreRunIff(a, MoreRun(a));
    MoreRunIff(b, MoreRun(b));
    MoreRunIff(a + b, if MoreRun(a) < |a| then MoreRun(a) else |a| + MoreRun(b));
  }

  lemma ParseStable(a: ByteString, b: ByteString)
    requires a != []
    ensures !ParseFrame(a).Partial? ==> ParseFrame(a + b) == ParseFrame(a)
  {
    var more := MoreRun(a[1..]);
    assert (a + b)[1..] == a[1..] + b;
    MoreRunAppend(a[1..], b);
    if more < MAX_LENGTH_BYTES && 1 + more < |a| {
      var start, length := more + 2, Base128(a[1..more + 2]);
      assert (a + b)[1..start] == a[1..start];
      if start + length <= |a| {
        assert (a + b)[start..start + length % 0x1_0000] == a[start..start + length % 0x1_0000];
      }
    }
  }

  /** One more byte after an unfinished frame still leaves one frame, the same command. */
  lemma PartialPlusByte(a: ByteString)
    requires a != [] && ParseFrame(a).Partial?
    ensures |Split(a + [0]).frames| == 1
  {
    var s := a + [0];
    var more := MoreRun(a[1..]);
    var zero: ByteString := [0];
    assert s[1..] == a[1..] + zero;
    MoreRunAppend(a[1..], zero);
    assert MoreRun(s[1..]) == more;
    if 1 + more < |a| {
      assert s[1..more + 2] == a[1..more + 2];
    }
    assert !ParseFrame(s).Malformed?;
    if ParseFrame(s).Whole? {
      assert ParseFrame(s).size == |s|;
      assert s[ParseFrame(s).size..] == [];
    }
  }

  lemma {:induction false} SplitAppend(a: ByteString, b: ByteString)
    requires Split(a).ending != CutShort
    ensures Split(a + b) == Join(Split(a), Split(b))
    decreases |a|
  {
    if a == [] {
      assert a + b == b;
    } else {
      ParseStable(a, b);
      if ParseFrame(a).Whole? {
        var size := ParseFrame(a).size;
        var f := ParseFrame(a).frame;
        assert (a + b)[size..] == a[size..] + b;
        SplitAppend(a[size..], b);
        JoinPrepend(f, Split(a[size..]), Split(b));
      }
    }
  }

  lemma {:induction false} CutShortPlusByte(a: ByteString)
    requires Split(a).ending == CutShort
    ensures |Split(a + [0]).frames| == |Split(a).frames|
    decreases |a|
  {
    if ParseFrame(a).Partial? {
      PartialPlusByte(a);
    } else {
      ParseStable(a, [0]);
      var size := ParseFrame(a).size;
      assert (a + [0])[size..] == a[size..] + [0];
      CutShortPlusByte(a[size..]);
    }
  }

  /**
   Frames are not reassembled across reads: parsing two reads one after the other agrees with
   parsing them as one, whatever comes second, exactly when the first does not stop inside a frame.
   */
  lemma CutIsTransparentIff(a: ByteString)
    ensures (forall b: ByteString :: Split(a + b) == Join(Split(a), Split(b))) <==> Split(a).ending != CutShort
  {
    if Split(a).ending == CutShort {
      CutShortPlusByte(a);
      var zero: ByteString := [0];
      assert |Split(zero).frames| == 1;
      assert Split(a + zero) != Join(Split(a), Split(zero));
    } else {
      forall b: ByteString ensures Split(a + b) == Join(Split(a), Split(b)) {
        SplitAppend(a, b);
      }
    }
  }
}
