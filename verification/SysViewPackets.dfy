/** SystemView packets, built in place in a byte buffer. */
module SysViewPackets {
  import opened Basics
  import opened SysViewCodec

  const RESERVED: nat := 4
  const INFO_SIZE: nat := 9
  const QUANTA_U32: nat := 5
  const MAX_STRING_LEN: nat := 128
  const MAX_PACKET_SIZE: nat := 227

  const EVTID_OVERFLOW: nat := 1
  const EVTID_TRACE_START: nat := 10
  const EVTID_TRACE_STOP: nat := 11
  const EVTID_SYSTIME_CYCLES: nat := 12
  const EVTID_SYSTIME_US: nat := 13
  const EVTID_MODULEDESC: nat := 22
  const EVTID_INIT: nat := 24
  const EVTID_NUMMODULES: nat := 27

  /* Encoding ------------------------------------------------------------------------ */

  method EncodeU32(p: array<byte>, at: nat, value: u32) returns (end: nat)
    requires at + |Leb(value)| <= p.Length
    modifies p
    ensures end == at + |Leb(value)| <= at + QUANTA_U32
    ensures p[..] == Put(old(p[..]), at, Leb(value))
  {
    LebSize(value);
    var v: nat := value;
    ghost var was := p[..];
    ghost var done: seq<byte> := [];
    end := at;
    while v > 0x7F
      invariant end == at + |done|
      invariant done + Leb(v) == Leb(value)
      invariant p[..] == Put(was, at, done)
      decreases v
    {
      var low: byte := v % 128 + 128;
      PutNext(was, at, done, low);
      assert done + Leb(v) == done + [low] + Leb(v / 128);
      p[end], done := low, done + [low];
      end := end + 1;
      v := v / 128;
    }
    PutNext(was, at, done, v);
    p[end] := v;
    end := end + 1;
  }

  /** The length of a string: one byte, or 255 and two bytes. */
  method EncodeStrHead(p: array<byte>, at: nat, len: nat) returns (end: nat)
    requires at + |StrHead(len)| <= p.Length
    modifies p
    ensures end == at + |StrHead(len)|
    ensures p[..] == Put(old(p[..]), at, StrHead(len))
  {
    end := at;
    if len < 255 {
      p[end] := len;
      end := end + 1;
    } else {
      p[end] := 255;
      p[end + 1] := len % 256;
      p[end + 2] := len / 256 % 256;
      end := end + 3;
    }
  }

  /** Appends a string, cut to `limit`, behind its length. */
  method EncodeStr(p: array<byte>, at: nat, text: seq<byte>, limit: nat) returns (end: nat)
    requires at + |EncodedStr(text, limit)| <= p.Length
    modifies p
    ensures end == at + |EncodedStr(text, limit)|
    ensures p[..] == Put(old(p[..]), at, EncodedStr(text, limit))
  {
    var len := |text|;
    if len > limit {
      len := limit;
    }
    ghost var was, done := p[..], StrHead(len);
    end := EncodeStrHead(p, at, len);
    var n := 0;
    while n < len
      invariant 0 <= n <= len
      invariant done == StrHead(len) + text[..n]
      invariant end == at + |done|
      invariant p[..] == Put(was, at, done)
    {
      PutNext(was, at, done, text[n]);
      p[end], done := text[n], done + [text[n]];
      end := end + 1;
      n := n + 1;
    }
  }

  function EncodedNumbers(vs: seq<u32>): seq<byte>
    decreases |vs|
  {
    if vs == [] then [] else Leb(vs[0]) + EncodedNumbers(vs[1..])
  }

  lemma {:induction false} NumbersNext(vs: seq<u32>, i: nat)
    requires i < |vs|
    ensures EncodedNumbers(vs[..i + 1]) == EncodedNumbers(vs[..i]) + Leb(vs[i])
  {
    if i == 0 {
      assert vs[..1][1..] == [];
    } else {
      NumbersNext(vs[1..], i - 1);
      assert vs[..i + 1][1..] == vs[1..][..i] && vs[..i][1..] == vs[1..][..i - 1];
    }
  }

  /** The parameters of a packet, one after the other. */
  method EncodeNumbers(p: array<byte>, at: nat, vs: seq<u32>) returns (end: nat)
    requires at + QUANTA_U32 * |vs| <= p.Length
    modifies p
    ensures end == at + |EncodedNumbers(vs)| <= at + QUANTA_U32 * |vs|
    ensures p[at..end] == EncodedNumbers(vs)
  {
    end := at;
    ghost var was := p[..];
    var i := 0;
    while i < |vs|
      invariant 0 <= i <= |vs|
      invariant end == at + |EncodedNumbers(vs[..i])| <= at + QUANTA_U32 * i
      invariant p[..] == Put(was, at, EncodedNumbers(vs[..i]))
    {
      LebSize(vs[i]);
      NumbersNext(vs, i);
      PutBoth(was, at, EncodedNumbers(vs[..i]), Leb(vs[i]));
      end := EncodeU32(p, end, vs[i]);
      i := i + 1;
    }
    assert vs[..|vs|] == vs;
    PutSlice(was, at, EncodedNumbers(vs));
  }

  /** A payload laid down as it is. */
  method CopyTo(p: array<byte>, at: nat, payload: seq<byte>) returns (end: nat)
    requires at + |payload| <= p.Length
    modifies p
    ensures end == at + |payload| && p[at..end] == payload
  {
    var i := 0;
    while i < |payload|
      invariant 0 <= i <= |payload| && p[at..at + i] == payload[..i]
    {
      p[at + i] := payload[i];
      i := i + 1;
    }
    end := at + |payload|;
  }

  /** The payload that describes a module: its index, its first event, its name. */
  method EncodeModule(p: array<byte>, at: nat, i: byte, offset: u32, name: seq<byte>) returns (end: nat)
    requires at + 3 * QUANTA_U32 + MAX_STRING_LEN <= p.Length
    modifies p
    ensures at <= end <= at + 3 * QUANTA_U32 + MAX_STRING_LEN
    ensures p[at..end] == EncodedNumbers([i, offset]) + EncodedStr(name, MAX_STRING_LEN)
  {
    end := EncodeNumbers(p, at, [i, offset]);
    ghost var was, head := p[..], p[at..end];
    var mid := end;
    end := EncodeStr(p, mid, name, MAX_STRING_LEN);
    PutSlice(was, mid, EncodedStr(name, MAX_STRING_LEN));
    assert p[at..end] == p[at..mid] + p[mid..end];
  }

  /* Headers, in front of a payload that is already there ---------------------------- */

  /** Puts an id or a length in front of what is there, in one byte or two. */
  method PrependHead(p: array<byte>, start: nat, x: nat) returns (s: nat)
    requires |Head(x)| <= start <= p.Length
    modifies p
    ensures s == start - |Head(x)|
    ensures p[..] == Put(old(p[..]), s, Head(x))
  {
    s := start;
    if x > 127 {
      s := s - 1;
      p[s] := x / 128 % 256;
      s := s - 1;
      p[s] := x % 128 + 128;
    } else {
      s := s - 1;
      p[s] := x;
    }
  }

  /** Puts the header in front of a payload that lies at `p[start..end]`. */
  method PrependHeader(p: array<byte>, start: nat, end: nat, id: nat) returns (s: nat)
    requires RESERVED <= start <= end <= p.Length
    modifies p
    ensures s == start - |Header(id, end - start)| && start - RESERVED <= s
    ensures p[..] == Put(old(p[..]), s, Header(id, end - start))
  {
    s := start;
    ghost var was := p[..];
    if id < 24 {
      s := s - 1;
      p[s] := id;
    } else {
      s := PrependHead(p, s, end - start);
      s := PrependHead(p, s, id);
      PutBoth(was, s, Head(id), Head(end - start));
    }
  }

  lemma ThreePieces(was: seq<byte>, start: nat, end: nat, head: seq<byte>, tail: seq<byte>)
    requires |head| <= start <= end && end + |tail| <= |was|
    ensures var s, e := start - |head|, end + |tail|;
      var now := Put(Put(was, s, head), end, tail);
      && now[s..e] == head + was[start..end] + tail
      && now[..s] == was[..s] && now[e..] == was[e..]
  {
    var now := Put(Put(was, start - |head|, head), end, tail);
    assert now[start - |head|..start] == head && now[start..end] == was[start..end];
    assert now[end..end + |tail|] == tail;
  }

  lemma {:induction false} FrameInPlace(was: seq<byte>, start: nat, end: nat, id: nat, delta: nat)
    requires start <= end && |Header(id, end - start)| <= start && end + |Leb(delta)| <= |was|
    ensures var s, e := start - |Header(id, end - start)|, end + |Leb(delta)|;
      var now := Put(Put(was, s, Header(id, end - start)), end, Leb(delta));
      && now[s..e] == Frame(Packet(id, was[start..end], delta))
      && now[..s] == was[..s] && now[e..] == was[e..]
  {
    ThreePieces(was, start, end, Header(id, end - start), Leb(delta));
  }

  /** Completes a packet in place: header in front of the payload, timestamp behind it. */
  method BuildFrame(p: array<byte>, start: nat, end: nat, id: nat, delta: u32) returns (s: nat, e: nat)
    requires RESERVED <= start <= end && end + QUANTA_U32 <= p.Length
    modifies p
    ensures s == start - |Header(id, end - start)| && start - RESERVED <= s
    ensures end <= e <= end + QUANTA_U32
    ensures p[s..e] == Frame(Packet(id, old(p[start..end]), delta))
    ensures p[..] == old(p[..s]) + p[s..e] + old(p[e..])
  {
    LebSize(delta);
    ghost var was := p[..];
    s := PrependHeader(p, start, end, id);
    ghost var mid := p[..];
    e := EncodeU32(p, end, delta);
    FrameInPlace(was, start, end, id, delta);
    assert p[..] == p[..s] + p[s..e] + p[e..];
  }

  /** An overflow packet, in a buffer of eleven bytes. */
  method BuildOverflow(count: u32, delta: u32) returns (p: array<byte>, at: nat)
    ensures fresh(p) && at <= p.Length == 11
    ensures p[..at] == Frame(Packet(EVTID_OVERFLOW, Leb(count), delta))
  {
    LebSize(count);
    LebSize(delta);
    p := new byte[11](_ => 0);
    p[0] := EVTID_OVERFLOW;
    ghost var was := p[..];
    at := EncodeU32(p, 1, count);
    at := EncodeU32(p, at, delta);
    PutBoth(was, 1, Leb(count), Leb(delta));
    PutSlice(was, 1, Leb(count) + Leb(delta));
    assert p[..at] == p[..1] + p[1..at];
  }

  /** The most room a packet can need, with its timestamp. */
  function Need(id: nat, len: nat): nat {
    |Header(id, len)| + len + QUANTA_U32
  }

  /** However large the parameters, a frame of `n` numbers stays inside the bytes set aside for it. */
  lemma {:induction false} FrameBounds(id: nat, vs: seq<u32>, delta: u32)
    ensures |Header(id, |EncodedNumbers(vs)|)| <= RESERVED
    ensures RESERVED + |EncodedNumbers(vs)| + |Leb(delta)| <= INFO_SIZE + |vs| * QUANTA_U32
    decreases |vs|
  {
    LebSize(delta);
    if vs != [] {
      LebSize(vs[0]);
      FrameBounds(id, vs[1..], delta);
    }
  }

  /* What the host can read ---------------------------------------------------------- */

  function Numbers(n: nat): seq<Kind> {
    if n == 0 then [] else [Number] + Numbers(n - 1)
  }

  function Values(vs: seq<u32>): seq<Value> {
    if vs == [] then [] else [U(vs[0])] + Values(vs[1..])
  }

  lemma {:induction false} ValuesOfNumbers(vs: seq<u32>)
    ensures EncodedNumbers(vs) == EncodedValues(Values(vs))
    ensures Fits(Numbers(|vs|), Values(vs))
    decreases |vs|
  {
    if vs != [] {
      ValuesOfNumbers(vs[1..]);
      assert Values(vs)[1..] == Values(vs[1..]);
    }
  }

  lemma {:induction false} ShapedNumbers(id: nat, vs: seq<u32>)
    requires id < 23 && Shape(id) == Numbers(|vs|)
    ensures Sendable(id, EncodedNumbers(vs))
  {
    ValuesOfNumbers(vs);
    ValuesRoundTrip(Shape(id), Values(vs), []);
    assert EncodedNumbers(vs) + [] == EncodedNumbers(vs);
  }

  lemma ShapedModule(i: byte, offset: u32, name: seq<byte>)
    ensures Sendable(EVTID_MODULEDESC, EncodedNumbers([i, offset]) + EncodedStr(name, MAX_STRING_LEN))
  {
    var cut := name[..Min(|name|, MAX_STRING_LEN)];
    var xs := [U(i), U(offset), S(cut)];
    assert cut[..|cut|] == cut;
    assert EncodedStr(cut, |cut|) == EncodedStr(name, MAX_STRING_LEN);
    assert xs[1..] == [U(offset), S(cut)] && xs[1..][1..] == [S(cut)] && xs[1..][1..][1..] == [];
    assert [i, offset][1..] == [offset] && [offset][1..] == [];
    assert EncodedNumbers([i, offset]) == Leb(i) + (Leb(offset) + EncodedNumbers([offset][1..]));
    assert EncodedValues(xs[1..][1..]) == EncodedStr(cut, |cut|) + EncodedValues(xs[1..][1..][1..]);
    assert EncodedValues(xs) == EncodedNumbers([i, offset]) + EncodedStr(name, MAX_STRING_LEN);
    ValuesRoundTrip(Shape(EVTID_MODULEDESC), xs, []);
    assert EncodedValues(xs) + [] == EncodedValues(xs);
  }
}
