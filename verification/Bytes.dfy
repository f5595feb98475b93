/** Bytes, 16-bit words and byte strings, as the C++ code reads and writes them. */
module Bytes {
  type Byte = b: int | 0 <= b < 0x100
  type Word = w: int | 0 <= w < 0x1_0000
  type ByteString = seq<Byte>

  datatype Option<+T> = None | Some(value: T)

  /** `(msb << 8) + lsb`. */
  function WordOf(msb: Byte, lsb: Byte): Word {
    msb * 0x100 + lsb
  }

  /** `b & 0xF0`: the message type of an MQTT command byte. */
  function HighNibble(b: Byte): Byte {
    b - b % 16
  }

  /** The value kept by an `unsigned int`. */
  function ToUint32(n: int): int {
    n % 0x1_0000_0000
  }

  /** The value kept by an `int`. */
  function ToInt32(n: int): int {
    var u := ToUint32(n);
    if u < 0x8000_0000 then u else u - 0x1_0000_0000
  }

  lemma SmallUint32(n: int)
    requires 0 <= n < 0x1_0000_0000
    ensures ToUint32(n) == n
  {}

  lemma SmallInt32(n: int)
    requires -0x8000_0000 <= n < 0x8000_0000
    ensures ToInt32(n) == n
  {}

  function Flatten(parts: seq<ByteString>): ByteString {
    if parts == [] then [] else parts[0] + Flatten(parts[1..])
  }

  lemma {:induction false} FlattenConcat(a: seq<ByteString>, b: seq<ByteString>)
    ensures Flatten(a + b) == Flatten(a) + Flatten(b)
  {
    if a == [] {
      assert a + b == b;
    } else {
      assert (a + b)[1..] == a[1..] + b;
      FlattenConcat(a[1..], b);
    }
  }

  lemma FlattenSnoc(parts: seq<ByteString>, last: ByteString)
    ensures Flatten(parts + [last]) == Flatten(parts) + last
  {
    FlattenConcat(parts, [last]);
    assert Flatten([last]) == last + Flatten([last][1..]);
  }
}
