/** The Remaining Length field of section 2.1 of MQTT V3.1: base 128, least significant digit first. */
module RemainingLength {
  import opened Bytes

  const MAX_LENGTH := 268435455
  const MAX_LENGTH_BYTES := 4

  /** The encoding that section 2.1 prescribes to the sender. */
  function EncodeLength(n: nat): ByteString {
    if n < 128 then [n] else [128 + n % 128] + EncodeLength(n / 128)
  }

  /** The number that a digit string stands for, whatever its continuation bits. */
  function Base128(s: ByteString): nat {
    if s == [] then 0 else s[0] % 128 + 128 * Base128(s[1..])
  }

  /** How many bytes at the front carry the continuation bit. */
  function MoreRun(s: ByteString): (n: nat)
    ensures n <= |s|
  {
    if s != [] && s[0] >= 128 then 1 + MoreRun(s[1..]) else 0
  }

  function Pow128(k: nat): (p: nat)
    ensures p > 0
  {
    if k == 0 then 1 else 128 * Pow128(k - 1)
  }

  lemma {:induction false} Base128Bound(s: ByteString)
    ensures Base128(s) < Pow128(|s|)
  {
    if s != [] {
      Base128Bound(s[1..]);
    }
  }

  lemma LengthFits(s: ByteString)
    requires |s| <= MAX_LENGTH_BYTES
    ensures Base128(s) <= MAX_LENGTH && Pow128(|s|) <= MAX_LENGTH + 1
  {
    Base128Bound(s);
    PowMonotone(|s|, MAX_LENGTH_BYTES);
    FourDigits();
  }

  /** One turn of the decoding loop leaves both 32-bit accumulators without wrap-around. */
  lemma AccumulatorsFit(s: ByteString, b: Byte)
    requires |s| < MAX_LENGTH_BYTES
    ensures ToUint32(Base128(s) + b % 128 * Pow128(|s|)) == Base128(s + [b])
    ensures ToUint32(Pow128(|s|) * 128) == Pow128(|s| + 1)
  {
    Base128Snoc(s, b);
    NoWrap(Base128(s + [b]), s + [b]);
  }

  lemma NoWrap(n: nat, s: ByteString)
    requires |s| <= MAX_LENGTH_BYTES && n == Base128(s)
    ensures ToUint32(n) == n && ToUint32(Pow128(|s|)) == Pow128(|s|)
  {
    LengthFits(s);
  }

  /** One turn of the decoding loop adds one digit at the significant end. */
  lemma {:induction false} Base128Snoc(s: ByteString, b: Byte)
    ensures Base128(s + [b]) == Base128(s) + (b % 128) * Pow128(|s|)
  {
    if s == [] {
      assert s + [b] == [b];
    } else {
      assert (s + [b])[1..] == s[1..] + [b];
      Base128Snoc(s[1..], b);
      assert 128 * ((b % 128) * Pow128(|s| - 1)) == (b % 128) * Pow128(|s|);
    }
  }

  lemma FourDigits()
    ensures Pow128(MAX_LENGTH_BYTES) == MAX_LENGTH + 1
  {
    assert Pow128(1) == 128 * Pow128(0);
    assert Pow128(2) == 128 * Pow128(1);
    assert Pow128(3) == 128 * Pow128(2);
  }

  lemma {:induction false} EncodedSize(n: nat, k: nat)
    requires k > 0 && n < Pow128(k)
    ensures |EncodeLength(n)| <= k
    decreases k
  {
    if n >= 128 {
      EncodedSize(n / 128, k - 1);
    }
  }

  /** Decoding inverts the prescribed encoding. */
  lemma {:induction false} DecodeEncoded(n: nat)
    ensures Base128(EncodeLength(n)) == n
  {
    if n >= 128 {
      var d: Byte := 128 + n % 128;
      assert ([d] + EncodeLength(n / 128))[1..] == EncodeLength(n / 128);
      DecodeEncoded(n / 128);
    }
  }

  /** Four bytes are enough for exactly the lengths that section 2.1 allows. */
  lemma FourBytesIffInRange(n: nat)
    ensures |EncodeLength(n)| <= MAX_LENGTH_BYTES <==> n <= MAX_LENGTH
  {
    FourDigits();
    if n <= MAX_LENGTH {
      EncodedSize(n, MAX_LENGTH_BYTES);
    } else {
      DecodeEncoded(n);
      Base128Bound(EncodeLength(n));
      PowMonotone(|EncodeLength(n)|, MAX_LENGTH_BYTES);
    }
  }

  lemma {:induction false} PowMonotone(j: nat, k: nat)
    ensures j <= k ==> Pow128(j) <= Pow128(k)
    decreases k
  {
    if j < k {
      PowMonotone(j, k - 1);
    }
  }

  /** The weights of the four digits, in the order in which section 2.1 multiplies them up. */
  lemma DigitWeights(a: Byte, b: Byte, c: Byte, d: Byte)
    ensures Base128([a]) == a % 128
    ensures Base128([a, b]) == a % 128 + b % 128 * 128
    ensures Base128([a, b, c]) == a % 128 + b % 128 * 128 + c % 128 * 16384
    ensures Base128([a, b, c, d]) == a % 128 + b % 128 * 128 + c % 128 * 16384 + d % 128 * 2097152
  {
    assert [a, b, c, d] == [a] + ([b] + ([c] + [d]));
    assert [a, b, c] == [a] + ([b] + [c]) && [a, b] == [a] + [b];
    FirstDigit(d, []);
    FirstDigit(c, []);
    FirstDigit(b, []);
    FirstDigit(a, []);
    FirstDigit(c, [d]);
    FirstDigit(b, [c]);
    FirstDigit(a, [b]);
    FirstDigit(b, [c] + [d]);
    FirstDigit(a, [b] + [c]);
    FirstDigit(a, [b] + ([c] + [d]));
  }

  lemma FirstDigit(b: Byte, s: ByteString)
    ensures Base128([b] + s) == b % 128 + 128 * Base128(s)
    ensures [b] + [] == [b]
  {
    assert ([b] + s)[1..] == s;
  }

  /** Every byte but the last asks for one more. */
  lemma {:induction false} EncodedRun(n: nat, rest: ByteString)
    ensures EncodeLength(n) != [] && MoreRun(EncodeLength(n) + rest) == |EncodeLength(n)| - 1
  {
    if n < 128 {
      assert ([n] + rest)[0] == n;
    } else {
      var b: Byte := 128 + n % 128;
      var e := EncodeLength(n / 128);
      EncodedRun(n / 128, rest);
      assert ([b] + e + rest)[1..] == e + rest;
    }
  }

  lemma {:induction false} MoreRunIff(s: ByteString, n: nat)
    ensures MoreRun(s) == n <==> n <= |s| && (forall i :: 0 <= i < n ==> s[i] >= 128) && (n < |s| ==> s[n] < 128)
  {
    if s != [] && s[0] >= 128 {
      var t := s[1..];
      if n > 0 {
        MoreRunIff(t, n - 1);
        assert forall i :: 1 <= i < |s| ==> s[i] == t[i - 1];
      }
    }
  }

  /** A received length field is the prescribed one exactly when it has no superfluous leading zero digit. */
  lemma {:induction false} ReencodeIffMinimal(s: ByteString)
    requires s != [] && MoreRun(s) == |s| - 1
    ensures EncodeLength(Base128(s)) == s <==> (|s| == 1 || s[|s| - 1] != 0)
  {
    var last := s[|s| - 1];
    MoreRunIff(s, |s| - 1);
    if |s| > 1 {
      var t := s[1..];
      var high := Base128(t);
      assert t[|t| - 1] == last && s[0] >= 128;
      ReencodeIffMinimal(t);
      DigitAndRest(s[0] % 128, high);
      if last != 0 {
        PositiveIfTopDigit(t);
      }
      ReencodeStep(s);
    }
  }

  lemma DigitAndRest(digit: nat, high: nat)
    requires digit < 128
    ensures (digit + 128 * high) % 128 == digit && (digit + 128 * high) / 128 == high
  {}

  lemma EncodeStep(digit: Byte, high: nat)
    requires digit < 128
    ensures EncodeLength(digit + 128 * high) == if high == 0 then [digit] else [128 + digit] + EncodeLength(high)
  {
    var n: nat := digit + 128 * high;
    DigitAndRest(digit, high);
    assert n < 128 <==> high == 0;
  }

  lemma ReencodeStep(s: ByteString)
    requires |s| > 1 && s[0] >= 128
    ensures EncodeLength(Base128(s)) == s <==> Base128(s[1..]) > 0 && EncodeLength(Base128(s[1..])) == s[1..]
  {
    SplitDigit(s);
    ReencodeDigit(Base128(s), s, s[0] - 128, Base128(s[1..]), s[1..]);
  }

  lemma SplitDigit(s: ByteString)
    requires |s| > 1 && s[0] >= 128
    ensures s == [128 + (s[0] - 128)] + s[1..] && Base128(s) == (s[0] - 128) + 128 * Base128(s[1..])
  {
    assert s == [s[0]] + s[1..];
    FirstDigit(s[0], s[1..]);
    WithoutTopBit(s[0]);
  }

  lemma WithoutTopBit(b: Byte)
    requires b >= 128
    ensures b % 128 == b - 128
  {}

  lemma ReencodeDigit(n: nat, s: ByteString, digit: Byte, high: nat, t: ByteString)
    requires digit < 128 && n == digit + 128 * high && s == [128 + digit] + t
    ensures EncodeLength(n) == s <==> high > 0 && EncodeLength(high) == t
  {
    EncodeStep(digit, high);
    if high == 0 {
      assert [digit][0] != ([128 + digit] + t)[0];
    } else {
      ConsInjective(128 + digit, EncodeLength(high), t);
    }
  }

  lemma ConsInjective(b: Byte, x: ByteString, y: ByteString)
    ensures [b] + x == [b] + y <==> x == y
  {
    assert ([b] + x)[1..] == x && ([b] + y)[1..] == y;
  }

  lemma {:induction false} PositiveIfTopDigit(s: ByteString)
    requires s != [] && s[|s| - 1] % 128 != 0
    ensures Base128(s) > 0
  {
    if |s| > 1 {
      PositiveIfTopDigit(s[1..]);
    }
  }
}
