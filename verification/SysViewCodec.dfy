/**
 The byte formats of SystemView: numbers as unsigned LEB128 (section 7.6 of
 DWARF Version 4), counted strings, and frames
 `<id>[<length>]<payload><timestamp delta>`, together with the host's parsers.
 A parser returns the value and the number of bytes it took, or `None` when the
 bytes end too early.
 */
module SysViewCodec {
  import opened Basics

  /* Numbers ---------------------------------------------------------------- */

  function Leb(v: nat): (s: seq<byte>)
    ensures s != []
  {
    if v > 0x7F then [v % 128 + 128] + Leb(v / 128) else [v]
  }

  function ParseLeb(s: seq<byte>): (r: Option<(nat, nat)>)
    ensures r.Some? ==> 0 < r.value.1 <= |s|
    decreases |s|
  {
    if s == [] then None
    else if s[0] < 128 then Some((s[0], 1))
    else
      match ParseLeb(s[1..])
      case None => None
      case Some((v, n)) => Some((s[0] - 128 + 128 * v, n + 1))
  }

  lemma {:induction false} LebRoundTrip(v: nat, rest: seq<byte>)
    ensures ParseLeb(Leb(v) + rest) == Some((v, |Leb(v)|))
  {
    if v > 0x7F {
      LebRoundTrip(v / 128, rest);
      assert (Leb(v) + rest)[1..] == Leb(v / 128) + rest;
    }
  }

  /** A U32 takes one to five bytes. */
  lemma {:induction false} LebSize(v: u32)
    ensures 1 <= |Leb(v)| <= 5
  {
    assert v > 0x7F ==> |Leb(v)| == 1 + |Leb(v / 128)|;
    var a := v / 128;
    assert a > 0x7F ==> |Leb(a)| == 1 + |Leb(a / 128)|;
    var b := a / 128;
    assert b > 0x7F ==> |Leb(b)| == 1 + |Leb(b / 128)|;
    var c := b / 128;
    assert c > 0x7F ==> |Leb(c)| == 1 + |Leb(c / 128)|;
    assert c / 128 <= 0x7F;
  }

  /** The number that seven bits of each byte make, the first ones the least significant. */
  function SevenBits(s: seq<byte>): nat {
    if s == [] then 0 else s[0] % 128 + 128 * SevenBits(s[1..])
  }

  /** Seven bits of the number in each byte, low ones first; the top bit says that another byte follows. */
  lemma {:induction false} LebBytes(v: nat)
    ensures SevenBits(Leb(v)) == v
    ensures forall i :: 0 <= i < |Leb(v)| ==> (Leb(v)[i] >= 128 <==> i < |Leb(v)| - 1)
  {
    if v > 0x7F {
      LebBytes(v / 128);
      assert Leb(v)[1..] == Leb(v / 128);
      forall i | 0 <= i < |Leb(v)|
        ensures Leb(v)[i] >= 128 <==> i < |Leb(v)| - 1
      {
        assert i > 0 ==> Leb(v)[i] == Leb(v / 128)[i - 1];
      }
    } else {
      assert SevenBits([v][1..]) == 0;
    }
  }

  /** The number parser looks at nothing past what it takes, and cannot do with less. */
  lemma {:induction false} LebLocal(s: seq<byte>, t: seq<byte>)
    requires ParseLeb(s).Some?
    ensures var n := ParseLeb(s).value.1;
      && (n <= |t| && t[..n] == s[..n] ==> ParseLeb(t) == ParseLeb(s))
      && (|t| < n && t == s[..|t|] ==> ParseLeb(t) == None)
    decreases |s|
  {
    var n := ParseLeb(s).value.1;
    if t != [] && t[0] == s[0] && s[0] >= 128 {
      LebLocal(s[1..], t[1..]);
      if n <= |t| && t[..n] == s[..n] {
        assert t[1..][..n - 1] == t[..n][1..] == s[..n][1..] == s[1..][..n - 1];
      } else if |t| < n && t == s[..|t|] {
        assert t[1..] == s[1..][..|t| - 1];
      }
    } else if t != [] {
      assert n <= |t| && t[..n] == s[..n] ==> t[..n][0] == s[..n][0];
    }
  }

  /* Strings ----------------------------------------------------------------- */

  /** What `_EncodeStr` writes for a string of that length, cut to `limit`. */
  function EncodedStr(text: seq<byte>, limit: nat): seq<byte> {
    var cut := text[..Min(|text|, limit)];
    StrHead(|cut|) + cut
  }

  function StrHead(len: nat): seq<byte> {
    if len < 255 then [len] else [255, len % 256, len / 256 % 256]
  }

  function ParseStr(s: seq<byte>): (r: Option<(seq<byte>, nat)>)
    ensures r.Some? ==> |r.value.0| < r.value.1 <= |s|
  {
    if s == [] then None
    else if s[0] < 255 then
      if |s| < 1 + s[0] then None else Some((s[1..1 + s[0]], 1 + s[0]))
    else if |s| < 3 then None
    else
      var len: nat := s[1] as int + 256 * s[2] as int;
      if |s| < 3 + len then None else Some((s[3..3 + len], 3 + len))
  }

  /** A string comes back, cut to the limit, exactly when the cut is shorter than 65536 bytes. */
  lemma StrExact(text: seq<byte>, limit: nat)
    ensures (forall rest :: ParseStr(EncodedStr(text, limit) + rest)
                 == Some((text[..Min(|text|, limit)], |EncodedStr(text, limit)|)))
       <==> Min(|text|, limit) < 65536
  {
    var cut := text[..Min(|text|, limit)];
    var enc := EncodedStr(text, limit);
    if |cut| < 65536 {
      forall rest
        ensures ParseStr(enc + rest) == Some((cut, |enc|))
      {
        var h := |StrHead(|cut|)|;
        assert (enc + rest)[h..h + |cut|] == cut;
      }
    } else {
      var r := ParseStr(enc + []);
      assert enc + [] == enc;
      assert enc[1] == |cut| % 256 && enc[2] == |cut| / 256 % 256;
      assert r.Some? ==> |r.value.0| < 65536;
    }
  }

  /** What `_EncodeStr` may write: the limit its comment states holds exactly for short strings, or with two bytes to spare. */
  lemma StrSize(text: seq<byte>, limit: nat)
    ensures |EncodedStr(text, limit)| <= 3 + limit
    ensures |EncodedStr(text, limit)| <= 1 + limit <==> Min(|text|, limit) < 255 || |text| + 2 <= limit
  {
  }

  /** A string of 255 bytes under a limit of 255 takes two more than stated. */
  lemma StrOverLimit() returns (text: seq<byte>)
    ensures |text| == 255 && |EncodedStr(text, 255)| == 258 > 1 + 255
  {
    text := seq(255, _ => 65);
    assert text[..255] == text;
  }

  lemma StrLocal(s: seq<byte>, t: seq<byte>)
    requires ParseStr(s).Some?
    ensures var n := ParseStr(s).value.1;
      && (n <= |t| && t[..n] == s[..n] ==> ParseStr(t) == ParseStr(s))
      && (|t| < n && t == s[..|t|] ==> ParseStr(t) == None)
  {
  }

  /* Payloads of the packets that carry no length ------------------------------ */

  datatype Kind = Number | Text

  datatype Value = U(v: nat) | S(text: seq<byte>)

  /** The parameters of the packets with ids below 24. */
  function Shape(id: nat): seq<Kind> {
    if id in {1, 2, 4, 6, 8, 12, 15, 16, 19} then [Number]
    else if id in {7, 13} then [Number, Number]
    else if id in {9, 22} then [Number, Number, Text]
    else if id == 14 then [Text]
    else if id == 21 then [Number, Number, Number, Number]
    else []
  }

  function EncodedValue(x: Value): seq<byte> {
    match x
    case U(v) => Leb(v)
    case S(text) => EncodedStr(text, |text|)
  }

  function EncodedValues(xs: seq<Value>): seq<byte> {
    if xs == [] then [] else EncodedValue(xs[0]) + EncodedValues(xs[1..])
  }

  predicate Fits(kinds: seq<Kind>, xs: seq<Value>) {
    && |kinds| == |xs|
    && forall i :: 0 <= i < |xs| ==> FitsKind(kinds[i], xs[i])
  }

  predicate FitsKind(kind: Kind, x: Value) {
    match x
    case U(v) => kind == Number && v < TWO32
    case S(text) => kind == Text && |text| < 65536
  }

  function ParseValue(kind: Kind, s: seq<byte>): (r: Option<(Value, nat)>)
    ensures r.Some? ==> 0 < r.value.1 <= |s|
  {
    match kind
    case Number => (match ParseLeb(s) case None => None case Some((v, n)) => Some((U(v), n)))
    case Text => (match ParseStr(s) case None => None case Some((t, n)) => Some((S(t), n)))
  }

  function ParseValues(kinds: seq<Kind>, s: seq<byte>): (r: Option<(seq<Value>, nat)>)
    ensures r.Some? ==> r.value.1 <= |s|
    decreases |kinds|
  {
    if kinds == [] then Some(([], 0))
    else
      var head := ParseValue(kinds[0], s);
      if head == None then None
      else
        var tail := ParseValues(kinds[1..], s[head.value.1..]);
        if tail == None then None
        else Some(([head.value.0] + tail.value.0, head.value.1 + tail.value.1))
  }

  lemma ValueLocal(kind: Kind, s: seq<byte>, t: seq<byte>)
    requires ParseValue(kind, s).Some?
    ensures var n := ParseValue(kind, s).value.1;
      && (n <= |t| && t[..n] == s[..n] ==> ParseValue(kind, t) == ParseValue(kind, s))
      && (|t| < n && t == s[..|t|] ==> ParseValue(kind, t) == None)
  {
    if kind == Number { LebLocal(s, t); } else { StrLocal(s, t); }
  }

  lemma {:induction false} ValuesCons(kinds: seq<Kind>, s: seq<byte>, x: Value, n: nat, xs: seq<Value>, m: nat)
    requires kinds != [] && ParseValue(kinds[0], s) == Some((x, n))
    requires ParseValues(kinds[1..], s[n..]) == Some((xs, m))
    ensures ParseValues(kinds, s) == Some(([x] + xs, n + m))
  {
  }

  lemma SameStart(s: seq<byte>, t: seq<byte>, n: nat, all: nat)
    requires n <= all <= |s| && all <= |t| && t[..all] == s[..all]
    ensures t[..n] == s[..n] && t[n..][..all - n] == s[n..][..all - n]
  {
    assert t[..n] == t[..all][..n] && s[..n] == s[..all][..n];
    assert t[n..][..all - n] == t[..all][n..] && s[n..][..all - n] == s[..all][n..];
  }

  /** The parameter parser looks at nothing past what it takes ... */
  lemma {:induction false} ValuesStable(kinds: seq<Kind>, s: seq<byte>, t: seq<byte>)
    requires ParseValues(kinds, s).Some?
    requires var all := ParseValues(kinds, s).value.1; all <= |t| && t[..all] == s[..all]
    ensures ParseValues(kinds, t) == ParseValues(kinds, s)
    decreases |kinds|
  {
    if kinds != [] {
      ValueLocal(kinds[0], s, t);
      var n := ParseValue(kinds[0], s).value.1;
      var all := ParseValues(kinds, s).value.1;
      SameStart(s, t, n, all);
      ValuesStable(kinds[1..], s[n..], t[n..]);
      var (xs, m) := ParseValues(kinds[1..], s[n..]).value;
      ValuesCons(kinds, s, ParseValue(kinds[0], s).value.0, n, xs, m);
      ValuesCons(kinds, t, ParseValue(kinds[0], s).value.0, n, xs, m);
    }
  }

  /** ... and cannot do with less. */
  lemma {:induction false} ValuesShort(kinds: seq<Kind>, s: seq<byte>, t: seq<byte>)
    requires ParseValues(kinds, s).Some?
    requires |t| < ParseValues(kinds, s).value.1 && t == s[..|t|]
    ensures ParseValues(kinds, t) == None
    decreases |kinds|
  {
    ValueLocal(kinds[0], s, t);
    var n := ParseValue(kinds[0], s).value.1;
    if n <= |t| {
      assert t[..n] == s[..n];
      assert t[n..] == s[n..][..|t| - n];
      ValuesShort(kinds[1..], s[n..], t[n..]);
    }
  }

  lemma ValueRoundTrip(kind: Kind, x: Value, rest: seq<byte>)
    requires FitsKind(kind, x)
    ensures ParseValue(kind, EncodedValue(x) + rest) == Some((x, |EncodedValue(x)|))
  {
    match x
    case U(v) => LebRoundTrip(v, rest);
    case S(text) =>
      assert text[..|text|] == text;
      StrExact(text, |text|);
  }

  lemma ThreeParts(a: seq<byte>, b: seq<byte>, c: seq<byte>)
    ensures a + b + c == a + (b + c) && (a + b + c)[|a|..] == b + c
  {
  }

  lemma {:induction false} ValuesGlue(kinds: seq<Kind>, xs: seq<Value>, first: seq<byte>, more: seq<byte>, rest: seq<byte>)
    requires kinds != [] && xs != []
    requires ParseValue(kinds[0], first + (more + rest)) == Some((xs[0], |first|))
    requires ParseValues(kinds[1..], more + rest) == Some((xs[1..], |more|))
    ensures ParseValues(kinds, first + more + rest) == Some((xs, |first + more|))
  {
    ThreeParts(first, more, rest);
    ValuesCons(kinds, first + more + rest, xs[0], |first|, xs[1..], |more|);
    assert [xs[0]] + xs[1..] == xs;
  }

  /** Any run of numbers and strings comes back, and delimits itself. */
  lemma {:induction false} ValuesRoundTrip(kinds: seq<Kind>, xs: seq<Value>, rest: seq<byte>)
    requires Fits(kinds, xs)
    ensures ParseValues(kinds, EncodedValues(xs) + rest) == Some((xs, |EncodedValues(xs)|))
    decreases |kinds|
  {
    if xs != [] {
      assert FitsKind(kinds[0], xs[0]);
      ValueRoundTrip(kinds[0], xs[0], EncodedValues(xs[1..]) + rest);
      ValuesRoundTrip(kinds[1..], xs[1..], rest);
      ValuesGlue(kinds, xs, EncodedValue(xs[0]), EncodedValues(xs[1..]), rest);
    }
  }

  /* Frames --------------------------------------------------------------------- */

  datatype Packet = Packet(id: nat, payload: seq<byte>, delta: nat)

  /** What `_SendPacket` puts for an id or a length: one byte, or two of seven bits each. */
  function Head(x: nat): seq<byte> {
    if x > 127 then [x % 128 + 128, x / 128 % 256] else [x]
  }

  /** A two-byte head reads back exactly when the value has at most 14 bits. */
  lemma HeadExact(x: nat)
    ensures (forall rest :: ParseLeb(Head(x) + rest) == Some((x, |Head(x)|))) <==> x < 0x4000
  {
    if x < 0x4000 {
      assert Head(x) == Leb(x);
      forall rest
        ensures ParseLeb(Head(x) + rest) == Some((x, |Head(x)|))
      {
        LebRoundTrip(x, rest);
      }
    } else {
      var s := Head(x) + [0];
      var hi := x / 128 % 256;
      assert s[1..] == [hi, 0] && s[1..][1..] == [0];
      if hi < 128 {
        assert ParseLeb(s[1..]) == Some((hi, 1));
      } else {
        assert ParseLeb([0]) == Some((0, 1));
        assert ParseLeb(s[1..]).value.1 == 2;
      }
      assert ParseLeb(s) != Some((x, 2));
    }
  }

  function Header(id: nat, len: nat): seq<byte>
  {
    if id < 24 then [id] else Head(id) + Head(len)
  }

  function Frame(p: Packet): seq<byte> {
    Header(p.id, |p.payload|) + p.payload + Leb(p.delta)
  }

  function Frames(ps: seq<Packet>): seq<byte> {
    if ps == [] then [] else Frame(ps[0]) + Frames(ps[1..])
  }

  /** A payload of exactly the parameters that go with a small id. */
  predicate HasShape(id: nat, payload: seq<byte>) {
    match ParseValues(Shape(id), payload)
    case None => false
    case Some((_, n)) => n == |payload|
  }

  /** Packets the format can carry. */
  predicate Sendable(id: nat, payload: seq<byte>) {
    if id < 24 then id != 23 && HasShape(id, payload)
    else id < 0x4000 && |payload| < 0x4000
  }

  /** The bytes of the numbers and the string that the documentation shows. */
  lemma DocumentedValues()
    ensures Leb(500) == [0xF4, 0x03] && Leb(0xFFFF_FFFF) == [0xFF, 0xFF, 0xFF, 0xFF, 0x0F]
    ensures Leb(162) == [0xA2, 0x01] && Leb(3) == [0x03] && Leb(0x7000) == [0x80, 0xE0, 0x01]
    ensures var hello := [0x48, 0x65, 0x6C, 0x6C, 0x6F, 0x20, 0x57, 0x6F, 0x72, 0x6C, 0x64];
      EncodedStr(hello, 128) == [0x0B] + hello
  {
    assert Leb(3) == [3] && Leb(1) == [1] && Leb(500) == [0xF4] + Leb(3) && Leb(162) == [0xA2] + Leb(1);
    assert Leb(0x7000) == [0x80] + Leb(224) && Leb(224) == [0xE0] + Leb(1);
    assert Leb(0xFFFF_FFFF) == [0xFF] + Leb(0x1FF_FFFF) && Leb(0x1FF_FFFF) == [0xFF] + Leb(0x3_FFFF);
    assert Leb(0x3_FFFF) == [0xFF] + Leb(0x7FF) && Leb(0x7FF) == [0xFF] + Leb(15) && Leb(15) == [15];
  }

  /** And those of the packets. */
  lemma DocumentedPackets()
    ensures Frame(Packet(1, Leb(500), 0x40000)) == [0x01, 0xF4, 0x03, 0x80, 0x80, 0x10]
    ensures Frame(Packet(2, Leb(15), 80)) == [0x02, 0x0F, 0x50] && Frame(Packet(3, [], 32)) == [0x03, 0x20]
  {
    DocumentedValues();
    assert Leb(0x40000) == [0x80] + Leb(0x800) && Leb(0x800) == [0x80] + Leb(16) && Leb(16) == [16];
    assert Leb(15) == [15] && Leb(80) == [80] && Leb(32) == [32];
  }

  /** Where there is a length, it stands between id and payload: one byte each below 128, and else two. */
  lemma CountedBytes(id: nat, payload: seq<byte>, delta: nat)
    requires 24 <= id < 0x4000 && |payload| < 0x4000
    ensures var n := |payload|;
      Frame(Packet(id, payload, delta))
        == (if id < 128 then [id] else [id % 128 + 128, id / 128])
         + (if n < 128 then [n] else [n % 128 + 128, n / 128]) + payload + Leb(delta)
  {
  }

  /** A string up to 254 bytes has its length in one byte, a longer one 255 and two bytes, the low one first. */
  lemma StrBytes(text: seq<byte>, limit: nat)
    requires |text| <= limit && |text| < 0x1_0000
    ensures |text| <= 254 ==> EncodedStr(text, limit) == [|text|] + text
    ensures |text| >= 255 ==> EncodedStr(text, limit) == [255, |text| % 256, |text| / 256] + text
  {
    assert text[..|text|] == text;
  }

  /** Where the payload of a frame starts and how long it is. */
  function ParseHeader(s: seq<byte>): (r: Option<(nat, nat, nat)>)
    ensures r.Some? ==> r.value.1 + r.value.2 <= |s|
  {
    match ParseLeb(s)
    case None => None
    case Some((id, n)) =>
      if id < 24 then
        match ParseValues(Shape(id), s[n..])
        case None => None
        case Some((_, m)) => Some((id, n, m))
      else
        match ParseLeb(s[n..])
        case None => None
        case Some((len, k)) => if |s| < n + k + len then None else Some((id, n + k, len))
  }

  function ParseFrame(s: seq<byte>): (r: Option<(Packet, nat)>)
    ensures r.Some? ==> 0 < r.value.1 <= |s|
  {
    match ParseHeader(s)
    case None => None
    case Some((id, at, len)) =>
      match ParseLeb(s[at + len..])
      case None => None
      case Some((delta, n)) => Some((Packet(id, s[at..at + len], delta), at + len + n))
  }

  /** The host: all complete frames, and the bytes of an unfinished one. */
  function ParseFrames(s: seq<byte>): (r: (seq<Packet>, seq<byte>))
    decreases |s|
  {
    var first := ParseFrame(s);
    if first == None then ([], s)
    else
      var more := ParseFrames(s[first.value.1..]);
      ([first.value.0] + more.0, more.1)
  }

  lemma ShapedHeader(id: nat, payload: seq<byte>, rest: seq<byte>)
    requires Sendable(id, payload) && id < 24
    ensures ParseHeader([id] + payload + rest) == Some((id, 1, |payload|))
  {
    var s := [id] + payload + rest;
    assert ParseLeb(s) == Some((id, 1));
    assert s[1..] == payload + rest;
    assert payload[..|payload|] == payload == (payload + rest)[..|payload|];
    ValuesStable(Shape(id), payload, payload + rest);
  }

  lemma CountedHeader(id: nat, len: nat, body: seq<byte>)
    requires 24 <= id < 0x4000 && len < 0x4000
    ensures ParseHeader(Head(id) + Head(len) + body)
         == if |body| < len then None else Some((id, |Head(id)| + |Head(len)|, len))
  {
    var a, b := Head(id), Head(len);
    var s := a + b + body;
    HeadExact(id);
    HeadExact(len);
    assert s == a + (b + body);
    assert s[|a|..] == b + body;
    assert ParseLeb(a + (b + body)) == Some((id, |a|));
    assert ParseLeb(b + body) == Some((len, |b|));
  }

  lemma HeaderRoundTrip(id: nat, payload: seq<byte>, rest: seq<byte>)
    requires Sendable(id, payload)
    ensures ParseHeader(Header(id, |payload|) + payload + rest)
         == Some((id, |Header(id, |payload|)|, |payload|))
  {
    if id < 24 {
      ShapedHeader(id, payload, rest);
    } else {
      CountedHeader(id, |payload|, payload + rest);
      assert Header(id, |payload|) + payload + rest == Header(id, |payload|) + (payload + rest);
    }
  }

  lemma FourParts(a: seq<byte>, b: seq<byte>, c: seq<byte>, d: seq<byte>)
    ensures var s := a + b + c + d;
      && s == a + b + (c + d)
      && s[|a|..|a| + |b|] == b && s[|a| + |b|..] == c + d
  {
  }

  lemma FrameRoundTrip(p: Packet, rest: seq<byte>)
    requires Sendable(p.id, p.payload)
    ensures ParseFrame(Frame(p) + rest) == Some((p, |Frame(p)|))
  {
    var h, time := Header(p.id, |p.payload|), Leb(p.delta);
    FourParts(h, p.payload, time, rest);
    HeaderRoundTrip(p.id, p.payload, time + rest);
    LebRoundTrip(p.delta, rest);
  }

  /** A header cannot be read before the payload it announces is there. */
  lemma HeaderUnfinished(id: nat, payload: seq<byte>, t: seq<byte>)
    requires Sendable(id, payload)
    requires var whole := Header(id, |payload|) + payload; |t| < |whole| && t == whole[..|t|]
    ensures ParseHeader(t) == None
  {
    var h := Header(id, |payload|);
    if id < 24 {
      if t != [] {
        assert t[0] == h[0] == id;
        assert t[1..] == payload[..|t| - 1];
        ValuesShort(Shape(id), payload, t[1..]);
      }
    } else if |h| <= |t| {
      assert t == Head(id) + Head(|payload|) + t[|h|..];
      CountedHeader(id, |payload|, t[|h|..]);
    } else {
      assert t == h[..|t|];
      HeadsUnfinished(id, |payload|, t);
    }
  }

  lemma HeadsUnfinished(id: nat, len: nat, t: seq<byte>)
    requires 24 <= id < 0x4000 && len < 0x4000
    requires var h := Head(id) + Head(len); |t| < |h| && t == h[..|t|]
    ensures ParseHeader(t) == None
  {
    var a, b := Head(id), Head(len);
    HeadExact(id);
    HeadExact(len);
    assert ParseLeb(a + b) == Some((id, |a|));
    LebLocal(a + b, t);
    if |a| <= |t| {
      assert t[..|a|] == (a + b)[..|a|];
      assert t[|a|..] == b[..|t| - |a|];
      assert b + [] == b;
      assert ParseLeb(b + []) == Some((len, |b|));
      LebLocal(b, t[|a|..]);
    }
  }

  /** No frame can be read from less than all of it. */
  lemma FrameUnfinished(p: Packet, t: seq<byte>)
    requires Sendable(p.id, p.payload)
    requires |t| < |Frame(p)| && t == Frame(p)[..|t|]
    ensures ParseFrame(t) == None
  {
    var h := Header(p.id, |p.payload|);
    var whole := h + p.payload;
    assert Frame(p) == whole + Leb(p.delta);
    if |t| < |whole| {
      assert t == whole[..|t|];
      HeaderUnfinished(p.id, p.payload, t);
    } else {
      var d := t[|whole|..];
      assert t == h + p.payload + d;
      HeaderRoundTrip(p.id, p.payload, d);
      assert d == Leb(p.delta)[..|d|];
      assert Leb(p.delta) + [] == Leb(p.delta);
      LebRoundTrip(p.delta, []);
      LebLocal(Leb(p.delta), d);
    }
  }

  lemma {:induction false} FramesCons(s: seq<byte>, p: Packet, n: nat, ps: seq<Packet>, rest: seq<byte>)
    requires ParseFrame(s) == Some((p, n)) && ParseFrames(s[n..]) == (ps, rest)
    ensures ParseFrames(s) == ([p] + ps, rest)
  {
  }

  /** Complete frames are read back in order; an unfinished one stays as the rest. */
  lemma {:induction false} FramesRoundTrip(ps: seq<Packet>, rest: seq<byte>)
    requires forall p :: p in ps ==> Sendable(p.id, p.payload)
    requires ParseFrame(rest) == None
    ensures ParseFrames(Frames(ps) + rest) == (ps, rest)
    decreases |ps|
  {
    if ps == [] {
      assert Frames(ps) + rest == rest;
    } else {
      var first, more := Frame(ps[0]), Frames(ps[1..]);
      FrameRoundTrip(ps[0], more + rest);
      FramesRoundTrip(ps[1..], rest);
      ThreeParts(first, more, rest);
      FramesCons(first + more + rest, ps[0], |first|, ps[1..], rest);
      assert [ps[0]] + ps[1..] == ps;
    }
  }

  lemma PrefixOfSum(got: seq<byte>, a: seq<byte>, b: seq<byte>)
    requires got <= a + b && |a| <= |got|
    ensures got[|a|..] <= b && got == a + got[|a|..]
  {
  }

  lemma FramesFirst(ps: seq<Packet>, j: nat)
    requires ps != [] && j < |ps|
    ensures Frames(ps[..j + 1]) == Frame(ps[0]) + Frames(ps[1..][..j])
  {
    assert ps[..j + 1][1..] == ps[1..][..j];
  }

  /** A stretch from the start of the channel holds some whole frames and part of the next. */
  lemma {:induction false} PrefixSplit(ps: seq<Packet>, got: seq<byte>) returns (k: nat, rest: seq<byte>)
    requires got <= Frames(ps)
    ensures k <= |ps| && got == Frames(ps[..k]) + rest
    ensures k < |ps| ==> |rest| < |Frame(ps[k])| && rest == Frame(ps[k])[..|rest|]
    ensures k == |ps| ==> rest == []
    decreases |ps|
  {
    k, rest := 0, got;
    if ps != [] {
      var first, more := Frame(ps[0]), Frames(ps[1..]);
      assert got <= first + more;
      if |got| >= |first| {
        PrefixOfSum(got, first, more);
        var j;
        j, rest := PrefixSplit(ps[1..], got[|first|..]);
        k := j + 1;
        FramesFirst(ps, j);
        ThreeParts(first, Frames(ps[1..][..j]), rest);
      }
    }
  }

  /**
   Whatever part of the channel the host has got so far decodes to the packets
   that part contains; what is left over is less than the next frame.
   */
  lemma {:induction false} PrefixDecodes(ps: seq<Packet>, got: seq<byte>)
    requires forall p :: p in ps ==> Sendable(p.id, p.payload)
    requires got <= Frames(ps)
    ensures var (qs, rest) := ParseFrames(got);
      && qs <= ps && got == Frames(qs) + rest
      && (if qs == ps then rest == [] else |rest| < |Frame(ps[|qs|])|)
  {
    var k, rest := PrefixSplit(ps, got);
    if k < |ps| {
      FrameUnfinished(ps[k], rest);
    }
    FramesRoundTrip(ps[..k], rest);
  }

  /** The bytes of one run of packets are the bytes of no other. */
  lemma {:induction false} FramesUnique(ps: seq<Packet>, qs: seq<Packet>)
    requires forall p :: p in ps + qs ==> Sendable(p.id, p.payload)
    requires Frames(ps) == Frames(qs)
    ensures ps == qs
  {
    assert Frames(ps) + [] == Frames(ps) == Frames(qs) + [];
    FramesRoundTrip(ps, []);
    FramesRoundTrip(qs, []);
  }

  lemma {:induction false} FramesAppend(ps: seq<Packet>, qs: seq<Packet>)
    ensures Frames(ps + qs) == Frames(ps) + Frames(qs)
    decreases |ps|
  {
    if ps == [] {
      assert ps + qs == qs;
    } else {
      assert (ps + qs)[1..] == ps[1..] + qs;
      FramesAppend(ps[1..], qs);
    }
  }

  lemma OneFrame(p: Packet)
    ensures Frames([p]) == Frame(p)
  {
  }
}
