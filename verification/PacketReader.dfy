/** The fields that a cursor reads off a payload, and how they are laid out. */
module PacketReader {
  import opened Bytes

  type Text = t: ByteString | |t| < 0x1_0000

  datatype Item = U8(b: Byte) | U16(w: Word) | Str(t: Text)
  datatype Shape = Uint8 | Uint16 | String

  /** `rest` is what is still unread afterwards, also when nothing could be read. */
  datatype Reading = Reading(item: Option<Item>, rest: ByteString)

  datatype Items = Items(items: seq<Item>, rest: ByteString)

  function ShapeOf(i: Item): Shape {
    match i
    case U8(_) => Uint8
    case U16(_) => Uint16
    case Str(_) => String
  }

  function Shapes(items: seq<Item>): seq<Shape> {
    if items == [] then [] else [ShapeOf(items[0])] + Shapes(items[1..])
  }

  function WriteWord(w: Word): ByteString {
    [w / 0x100, w % 0x100]
  }

  function Write(i: Item): ByteString {
    match i
    case U8(b) => [b]
    case U16(w) => WriteWord(w)
    case Str(t) => WriteWord(|t|) + t
  }

  function WriteAll(items: seq<Item>): ByteString {
    if items == [] then [] else Write(items[0]) + WriteAll(items[1..])
  }

  /** A string whose length field is there but whose bytes are not still uses up the length field. */
  function Read(u: ByteString, s: Shape): Reading {
    match s
    case Uint8 => if |u| < 1 then Reading(None, u) else Reading(Some(U8(u[0])), u[1..])
    case Uint16 => if |u| < 2 then Reading(None, u) else Reading(Some(U16(WordOf(u[0], u[1]))), u[2..])
    case String =>
      if |u| < 2 then Reading(None, u)
      else
        var n := WordOf(u[0], u[1]);
        if 2 + n > |u| then Reading(None, u[2..])
        else Reading(Some(Str(u[2..2 + n])), u[2 + n..])
  }

  /** Reads one field after the other and stops at the first that is not there. */
  function ReadAll(u: ByteString, shapes: seq<Shape>): Option<Items> {
    if shapes == [] then Some(Items([], u))
    else
      var first := Read(u, shapes[0]);
      if first.item.None? then None
      else
        match ReadAll(first.rest, shapes[1..])
        case None => None
        case Some(more) => Some(Items([first.item.value] + more.items, more.rest))
  }

  lemma ReadIff(u: ByteString, s: Shape, i: Item, rest: ByteString)
    ensures Read(u, s) == Reading(Some(i), rest) <==> s == ShapeOf(i) && u == Write(i) + rest
  {
    var r := Read(u, s);
    if r.item.Some? {
      assert u == Write(r.item.value) + r.rest;
    }
    if s == ShapeOf(i) && u == Write(i) + rest {
      match i
      case U8(b) =>
        assert u[1..] == rest;
      case U16(w) =>
        assert u[2..] == rest;
      case Str(t) =>
        assert u[0] == |t| / 0x100 && u[1] == |t| % 0x100;
        assert u[2..2 + |t|] == t && u[2 + |t|..] == rest;
    }
  }

  /**
   Reading and writing are inverse to each other: fields of the given shapes come back with the bytes
   behind them left over exactly when the payload is those fields written out, followed by those bytes.
   */
  lemma {:induction false} ReadAllIff(u: ByteString, shapes: seq<Shape>, items: seq<Item>, rest: ByteString)
    ensures ReadAll(u, shapes) == Some(Items(items, rest)) <==> shapes == Shapes(items) && u == WriteAll(items) + rest
    decreases |shapes|
  {
    if shapes == [] {
      assert WriteAll([]) + rest == rest;
    } else if items != [] {
      var i, tail := items[0], WriteAll(items[1..]) + rest;
      assert WriteAll(items) + rest == Write(i) + tail;
      assert shapes == [shapes[0]] + shapes[1..] && items == [i] + items[1..];
      ReadIff(u, shapes[0], i, tail);
      var first := Read(u, shapes[0]);
      ReadAllIff(first.rest, shapes[1..], items[1..], rest);
      if first.item.Some? {
        ReadIff(u, shapes[0], first.item.value, first.rest);
      }
    }
  }

  /** Every sequence of reads, failed ones included, leaves a suffix of what was unread. */
  function Skip(u: ByteString, shapes: seq<Shape>): ByteString {
    if shapes == [] then u else Skip(Read(u, shapes[0]).rest, shapes[1..])
  }

  lemma {:induction false} ReadsLeaveSuffix(u: ByteString, shapes: seq<Shape>)
    ensures Suffix(Skip(u, shapes), u)
    decreases |shapes|
  {
    if shapes != [] {
      var rest := Read(u, shapes[0]).rest;
      ReadLeavesSuffix(u, shapes[0]);
      ReadsLeaveSuffix(rest, shapes[1..]);
      SuffixTransitive(Skip(rest, shapes[1..]), rest, u);
    }
  }

  predicate Suffix(t: ByteString, u: ByteString) {
    |t| <= |u| && t == u[|u| - |t|..]
  }

  lemma ReadLeavesSuffix(u: ByteString, s: Shape)
    ensures Suffix(Read(u, s).rest, u)
  {}

  lemma SuffixTransitive(t: ByteString, u: ByteString, w: ByteString)
    requires Suffix(t, u) && Suffix(u, w)
    ensures Suffix(t, w)
  {}
}
