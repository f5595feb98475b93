/** The APNs request messages, simple and enhanced, and the byte stream that they make. */
module ApnsRequest {
  import opened Bytes
  import opened PacketReader

  const TOKEN_SIZE := 32

  type Token = t: ByteString | |t| == TOKEN_SIZE witness seq(TOKEN_SIZE, i => 0)
  type Quad = n: int | 0 <= n < 0x1_0000_0000

  datatype Request =
    | Simple(token: Token, payload: Text)
    | Enhanced(id: Quad, expiry: Quad, token: Token, payload: Text)

  datatype Parsed = Parsed(request: Request, size: nat)

  /** `htonl`. */
  function WriteQuad(n: Quad): ByteString {
    WriteWord(n / 0x1_0000) + WriteWord(n % 0x1_0000)
  }

  function QuadOf(a: Byte, b: Byte, c: Byte, d: Byte): Quad {
    WordOf(a, b) * 0x1_0000 + WordOf(c, d)
  }

  function EncodeTail(token: Token, payload: Text): ByteString {
    WriteWord(TOKEN_SIZE) + token + WriteWord(|payload|) + payload
  }

  function Encode(r: Request): ByteString {
    match r
    case Simple(token, payload) => [0] + EncodeTail(token, payload)
    case Enhanced(id, expiry, token, payload) => [1] + (WriteQuad(id) + WriteQuad(expiry)) + EncodeTail(token, payload)
  }

  function EncodeAll(rs: seq<Request>): seq<ByteString> {
    if rs == [] then [] else [Encode(rs[0])] + EncodeAll(rs[1..])
  }

  datatype Tail = Tail(token: Token, payload: Text)

  /** The token and the payload, each behind its length, when all of it is there. */
  function ParseTail(s: ByteString): Option<Tail> {
    if |s| < TOKEN_SIZE + 4 || WordOf(s[0], s[1]) != TOKEN_SIZE then None
    else
      var n := WordOf(s[TOKEN_SIZE + 2], s[TOKEN_SIZE + 3]);
      if |s| < TOKEN_SIZE + 4 + n then None
      else Some(Tail(s[2..TOKEN_SIZE + 2], s[TOKEN_SIZE + 4..TOKEN_SIZE + 4 + n]))
  }

  /** How the receiver takes one request off the front of the stream. */
  function Parse(s: ByteString): Option<Parsed> {
    if s == [] || s[0] > 1 then None
    else if s[0] == 0 then
      match ParseTail(s[1..])
      case None => None
      case Some(t) => Some(Parsed(Simple(t.token, t.payload), TOKEN_SIZE + 5 + |t.payload|))
    else if |s| < 9 then None
    else
      match ParseTail(s[9..])
      case None => None
      case Some(t) =>
        var r := Enhanced(QuadOf(s[1], s[2], s[3], s[4]), QuadOf(s[5], s[6], s[7], s[8]), t.token, t.payload);
        Some(Parsed(r, TOKEN_SIZE + 13 + |t.payload|))
  }

  /** All the requests that have arrived completely. */
  function ParseAll(s: ByteString): seq<Request>
    decreases |s|
  {
    match Parse(s)
    case None => []
    case Some(p) => if p.size == 0 then [] else [p.request] + ParseAll(s[p.size..])
  }

  lemma ParseEncodedTail(token: Token, payload: Text, rest: ByteString)
    ensures ParseTail(EncodeTail(token, payload) + rest) == Some(Tail(token, payload))
  {
    var head := WriteWord(TOKEN_SIZE) + token;
    var s := EncodeTail(token, payload) + rest;
    assert s == head + (WriteWord(|payload|) + (payload + rest));
    assert s[0] == 0 && s[1] == TOKEN_SIZE;
    assert s[2..TOKEN_SIZE + 2] == token;
    assert s[TOKEN_SIZE + 2] == |payload| / 0x100 && s[TOKEN_SIZE + 3] == |payload| % 0x100;
    assert s[TOKEN_SIZE + 4..] == payload + rest;
    assert s[TOKEN_SIZE + 4..TOKEN_SIZE + 4 + |payload|] == payload;
  }

  lemma QuadRoundTrip(n: Quad)
    ensures var q := WriteQuad(n); |q| == 4 && QuadOf(q[0], q[1], q[2], q[3]) == n
  {}

  lemma EnhancedParts(id: Quad, expiry: Quad, tail: ByteString)
    ensures var s := [1] + (WriteQuad(id) + WriteQuad(expiry)) + tail;
            && |s| >= 9 && s[9..] == tail
            && QuadOf(s[1], s[2], s[3], s[4]) == id && QuadOf(s[5], s[6], s[7], s[8]) == expiry
  {
    QuadRoundTrip(id);
    QuadRoundTrip(expiry);
  }

  lemma ParseSimple(token: Token, payload: Text, rest: ByteString)
    ensures Parse([0] + EncodeTail(token, payload) + rest) ==
            Some(Parsed(Simple(token, payload), TOKEN_SIZE + 5 + |payload|))
  {
    ParseEncodedTail(token, payload, rest);
    var s := [0] + EncodeTail(token, payload) + rest;
    assert s[1..] == EncodeTail(token, payload) + rest;
  }

  lemma ParseEnhanced(id: Quad, expiry: Quad, token: Token, payload: Text, rest: ByteString)
    ensures Parse([1] + (WriteQuad(id) + WriteQuad(expiry)) + EncodeTail(token, payload) + rest) ==
            Some(Parsed(Enhanced(id, expiry, token, payload), TOKEN_SIZE + 13 + |payload|))
  {
    var tail := EncodeTail(token, payload) + rest;
    ParseEncodedTail(token, payload, rest);
    EnhancedParts(id, expiry, tail);
    var head := [1] + (WriteQuad(id) + WriteQuad(expiry));
    assert head + EncodeTail(token, payload) + rest == head + tail;
  }

  lemma ParseEncoded(r: Request, rest: ByteString)
    ensures Parse(Encode(r) + rest) == Some(Parsed(r, |Encode(r)|))
  {
    match r
    case Simple(token, payload) =>
      ParseSimple(token, payload, rest);
    case Enhanced(id, expiry, token, payload) =>
      ParseEnhanced(id, expiry, token, payload, rest);
  }

  /** The four bytes of a number, the most significant one first. */
  predicate IsBigEndian(bytes: ByteString, n: Quad) {
    && |bytes| == 4
    && var a: int, b: int, c: int, d: int := bytes[0], bytes[1], bytes[2], bytes[3];
       n == 0x100_0000 * a + 0x1_0000 * b + 0x100 * c + d
  }

  /** Token and payload, each behind its length in network order. */
  predicate HasTail(bytes: ByteString, token: Token, payload: Text) {
    && |bytes| == 36 + |payload| && bytes[..2] == [0, 32] && bytes[2..34] == token
    && bytes[34..36] == [|payload| / 0x100, |payload| % 0x100] && bytes[36..] == payload
  }

  /** Where every field of a request stands. */
  lemma EncodeLayout(r: Request)
    ensures var m := Encode(r);
            match r
            case Simple(token, payload) => |m| == 37 + |payload| && m[0] == 0 && HasTail(m[1..], token, payload)
            case Enhanced(id, expiry, token, payload) =>
              && |m| == 45 + |payload| && m[0] == 1
              && IsBigEndian(m[1..5], id) && IsBigEndian(m[5..9], expiry) && HasTail(m[9..], token, payload)
  {
    match r
    case Simple(token, payload) =>
      assert Encode(r)[1..] == EncodeTail(token, payload);
      TailLayout(token, payload);
    case Enhanced(id, expiry, token, payload) =>
      EnhancedPartsAt(WriteQuad(id), WriteQuad(expiry), EncodeTail(token, payload));
      QuadLayout(id);
      QuadLayout(expiry);
      TailLayout(token, payload);
  }

  lemma EnhancedPartsAt(id: ByteString, expiry: ByteString, tail: ByteString)
    requires |id| == |expiry| == 4
    ensures var m := [1] + (id + expiry) + tail; |m| >= 9 && m[1..5] == id && m[5..9] == expiry && m[9..] == tail
  {}

  lemma QuadLayout(n: Quad)
    ensures IsBigEndian(WriteQuad(n), n)
  {}

  lemma TailLayout(token: Token, payload: Text)
    ensures HasTail(EncodeTail(token, payload), token, payload)
  {
    var t := EncodeTail(token, payload);
    assert t == WriteWord(TOKEN_SIZE) + token + (WriteWord(|payload|) + payload);
    assert t[34..36] == WriteWord(|payload|);
  }

  /** What is taken off the front is never longer than what is there. */
  lemma ParseFits(s: ByteString)
    ensures Parse(s).Some? ==> |Encode(Parse(s).value.request)| == Parse(s).value.size <= |s|
  {}

  /** A request that has not arrived completely is not taken. */
  lemma ParsePart(r: Request, part: ByteString)
    requires part <= Encode(r) && part != Encode(r)
    ensures Parse(part) == None
  {
    ParseEncoded(r, []);
    assert Encode(r) + [] == Encode(r);
  }

  /** A stream of requests, cut anywhere in the next one, gives exactly the requests in front of the cut. */
  lemma {:induction false} ParseStream(rs: seq<Request>, part: ByteString)
    requires Parse(part) == None
    ensures ParseAll(Flatten(EncodeAll(rs)) + part) == rs
  {
    if rs == [] {
      assert Flatten(EncodeAll(rs)) + part == part;
    } else {
      var rest := Flatten(EncodeAll(rs[1..])) + part;
      assert Flatten(EncodeAll(rs)) + part == Encode(rs[0]) + rest;
      ParseEncoded(rs[0], rest);
      assert (Encode(rs[0]) + rest)[|Encode(rs[0])|..] == rest;
      ParseStream(rs[1..], part);
    }
  }
}
