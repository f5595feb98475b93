/** What the server makes of the payload of a CONNECT frame. */
module Connect {
  import opened Bytes
  import opened Protocol
  import opened PacketReader

  /** Parses a JSON text and looks up its "username"; `None` when the text is not JSON. */
  type JsonLookup = ByteString -> Option<ByteString>

  /** The header fields of a CONNECT, in the order in which the server reads them. */
  datatype Header = Header(name: Text, version: Byte, flags: Byte, keepAlive: Word)

  datatype Verdict =
    | NoName
    | EmptyName
    | WrongName
    | NoHeader
    | BadJson
    | BadUser(user: ByteString)
    | Accepted(keepAlive: Word, user: ByteString)

  const USERNAME_LENGTH := 16

  /** What `c_str()` shows to `strcmp`: the bytes in front of the first zero. */
  function CString(s: ByteString): ByteString {
    if s == [] || s[0] == 0 then [] else [s[0]] + CString(s[1..])
  }

  /** The name is "MQIsdp", alone or in front of a zero byte. */
  predicate IsProtocolName(name: ByteString) {
    PROTOCOL_NAME <= name && (|name| == |PROTOCOL_NAME| || name[|PROTOCOL_NAME|] == 0)
  }

  function Judge(p: ByteString, json: JsonLookup): Verdict {
    var first := Read(p, String);
    var rest := first.rest;
    if first.item.None? then NoName
    else if first.item.value.t == [] then EmptyName
    else if !IsProtocolName(first.item.value.t) then WrongName
    else if |rest| < 4 then NoHeader
    else JudgeUser(rest[4..], WordOf(rest[2], rest[3]), json)
  }

  function JudgeUser(text: ByteString, keepAlive: Word, json: JsonLookup): Verdict {
    match json(text)
    case None => BadJson
    case Some(user) => if |user| != USERNAME_LENGTH then BadUser(user) else Accepted(keepAlive, user)
  }

  /** The header fields after a CONNECT: each one that could be read replaces the one from before. */
  function Overlay(h: Header, p: ByteString): Header {
    var first := Read(p, String);
    var rest := first.rest;
    if first.item.None? then h
    else if !IsProtocolName(first.item.value.t) then h.(name := first.item.value.t)
    else
      Header(first.item.value.t,
             if |rest| >= 1 then rest[0] else h.version,
             if |rest| >= 2 then rest[1] else h.flags,
             if |rest| >= 4 then WordOf(rest[2], rest[3]) else h.keepAlive)
  }

  /** A CONNECT payload as a client of this server writes it: the header of section 3.1, then a JSON text. */
  function ConnectPayload(h: Header, tail: ByteString): ByteString {
    WriteAll([Str(h.name), U8(h.version), U8(h.flags), U16(h.keepAlive)]) + tail
  }

  lemma ConnectPayloadParts(h: Header, tail: ByteString)
    ensures ConnectPayload(h, tail) == Write(Str(h.name)) + ([h.version, h.flags] + WriteWord(h.keepAlive) + tail)
  {
    var c: seq<Item> := [U16(h.keepAlive)];
    var b: seq<Item> := [U8(h.flags)] + c;
    var a: seq<Item> := [U8(h.version)] + b;
    assert WriteAll(c) == WriteWord(h.keepAlive);
    assert b[1..] == c && WriteAll(b) == [h.flags] + WriteAll(c);
    assert a[1..] == b && WriteAll(a) == [h.version] + WriteAll(b);
    assert [Str(h.name), U8(h.version), U8(h.flags), U16(h.keepAlive)] == [Str(h.name)] + a;
    assert ([Str(h.name)] + a)[1..] == a;
  }

  /** That is what `strcmp(name.c_str(), "MQIsdp")` tests; the right side spells the name out. */
  lemma ProtocolNameIff(name: ByteString)
    ensures IsProtocolName(name) <==> CString(name) == [0x4D, 0x51, 0x49, 0x73, 0x64, 0x70]
  {
    CStringPrefix(name, PROTOCOL_NAME);
  }

  lemma {:induction false} CStringPrefix(s: ByteString, t: ByteString)
    requires 0 !in t
    ensures CString(s) == t <==> t <= s && (|s| == |t| || s[|t|] == 0)
    decreases t
  {
    if t != [] && s != [] && s[0] == t[0] {
      CStringPrefix(s[1..], t[1..]);
      assert t == [t[0]] + t[1..] && s == [s[0]] + s[1..];
      assert t <= s <==> t[1..] <= s[1..];
    }
  }

  /** Every field that was written comes back, and the JSON text is what is left to be parsed. */
  lemma HeaderRoundTrip(h: Header, tail: ByteString, before: Header, json: JsonLookup)
    requires IsProtocolName(h.name)
    ensures Overlay(before, ConnectPayload(h, tail)) == h
    ensures Judge(ConnectPayload(h, tail), json) == JudgeUser(tail, h.keepAlive, json)
  {
    var p := ConnectPayload(h, tail);
    var rest := [h.version, h.flags] + WriteWord(h.keepAlive) + tail;
    ConnectPayloadParts(h, tail);
    ReadIff(p, String, Str(h.name), rest);
    assert rest[4..] == tail;
  }

  lemma SplitWord(rest: ByteString)
    requires |rest| >= 4
    ensures rest == [rest[0], rest[1]] + WriteWord(WordOf(rest[2], rest[3])) + rest[4..]
  {
    assert rest == [rest[0], rest[1]] + [rest[2], rest[3]] + rest[4..];
  }

  lemma AcceptedParts(p: ByteString, json: JsonLookup) returns (h: Header, tail: ByteString)
    requires Judge(p, json).Accepted?
    ensures p == ConnectPayload(h, tail) && IsProtocolName(h.name)
    ensures Judge(p, json) == JudgeUser(tail, h.keepAlive, json)
  {
    var first := Read(p, String);
    var rest := first.rest;
    h, tail := Header(first.item.value.t, rest[0], rest[1], WordOf(rest[2], rest[3])), rest[4..];
    ReadIff(p, String, first.item.value, rest);
    SplitWord(rest);
    ConnectPayloadParts(h, tail);
  }

  /** A CONNECT is accepted exactly when it is a written-out header with the right name and a 16-byte user name. */
  lemma AcceptedIff(p: ByteString, json: JsonLookup, keepAlive: Word, user: ByteString)
    ensures Judge(p, json) == Accepted(keepAlive, user) <==>
            exists h: Header, tail: ByteString ::
              && p == ConnectPayload(h, tail)
              && IsProtocolName(h.name) && h.keepAlive == keepAlive
              && json(tail) == Some(user) && |user| == USERNAME_LENGTH
  {
    if Judge(p, json) == Accepted(keepAlive, user) {
      var h, tail := AcceptedParts(p, json);
      assert p == ConnectPayload(h, tail);
    }
    forall h: Header, tail: ByteString |
      && p == ConnectPayload(h, tail)
      && IsProtocolName(h.name) && h.keepAlive == keepAlive
      && json(tail) == Some(user) && |user| == USERNAME_LENGTH
      ensures Judge(p, json) == Accepted(keepAlive, user)
    {
      HeaderRoundTrip(h, tail, h, json);
    }
  }
}
