/** The printing code itself: characters go into a buffer, and full buffers to the channel. */
module PrintfDescriptor {
  import opened Basics
  import opened Digits
  import opened Printf
  import opened PrintfDelivery
  import opened RttUp

  /* The text with its digits marked ---------------------------------------------------- */

  function UnsignedGlyphs(v: nat, b: nat, digits: nat, width: nat, flags: Flags): (g: seq<Glyph>)
    requires IsBase(b)
    ensures Chars(g) == UnsignedText(v, b, digits, width, flags)
  {
    var body := DigitText(v, b, digits);
    Mark(UnsignedText(v, b, digits, width, flags), 0, if flags.left && |body| < width then |body| else 0)
  }

  function IntGlyphs(v: int, b: nat, digits: nat, width: nat, flags: Flags): (g: seq<Glyph>)
    requires IsBase(b)
    ensures Chars(g) == IntText(v, b, digits, width, flags)
  {
    var sign, body := Sign(v, flags), DigitText(Abs(v), b, digits);
    Mark(IntText(v, b, digits, width, flags), |sign|,
      if flags.left && |sign| + |body| < width then |sign| + |body| else 0)
  }

  /** The digits and what pads them on the right. */
  function Body(v: nat, b: nat, digits: nat, width: nat, field: nat, flags: Flags): seq<Glyph>
    requires IsBase(b)
  {
    Mark(DigitText(v, b, digits), 0, if flags.left && width < field then width else 0)
    + Plain(if flags.left then Fill(' ', field - width) else "")
  }

  lemma UnsignedParts(v: nat, b: nat, digits: nat, field: nat, flags: Flags)
    requires IsBase(b)
    ensures var width := Max(digits, NumWidth(v, b));
      UnsignedGlyphs(v, b, digits, field, flags)
        == Plain(if !flags.left then Fill(if flags.zero && digits == 0 then '0' else ' ', field - width) else "")
         + Body(v, b, digits, width, field, flags)
  {
  }

  lemma FrontParts(v: int, digits: nat, pad: int, flags: Flags)
    ensures Plain(Front(v, digits, pad, flags))
         == Plain(if (!flags.zero || digits != 0) && !flags.left then Fill(' ', pad) else "")
          + Plain(Sign(v, flags))
          + Plain(if flags.zero && !flags.left && digits == 0 then Fill('0', pad) else "")
  {
  }

  lemma IntParts(v: int, b: nat, digits: nat, width: nat, flags: Flags, field: nat, rest: nat)
    requires IsBase(b)
    requires field == Max(0, width - |Sign(v, flags)|)
    requires rest == if flags.left then field else Min(field, Max(digits, NumWidth(Abs(v), b)))
    ensures IntGlyphs(v, b, digits, width, flags)
         == Plain(Front(v, digits, field - Max(digits, NumWidth(Abs(v), b)), flags))
          + UnsignedGlyphs(Abs(v), b, digits, rest, flags)
  {
    IntPieces(v, b, digits, width, flags, field, rest);
  }

  /* What a step of the printing code may do ---------------------------------------------- */

  /** It adds `text`, or, when the channel refuses a chunk, stops somewhere inside it. */
  predicate Emits(before: seq<Glyph>, now: seq<Glyph>, text: seq<Glyph>, ok: bool) {
    && |before| <= |now| <= |before| + |text| && (ok ==> |now| == |before| + |text|)
    && now == before + text[..|now| - |before|]
  }

  /** It does so if it goes on, and leaves everything as it is if printing has stopped. */
  predicate Follows(going: bool, before: seq<Glyph>, now: seq<Glyph>, text: seq<Glyph>, ok: bool) {
    if going then Emits(before, now, text, ok) else now == before && !ok
  }

  /** Three pieces, stopped in the first, the second or the third. */
  lemma ThreePieces(s0: seq<Glyph>, s1: seq<Glyph>, s2: seq<Glyph>, s3: seq<Glyph>,
                    a: seq<Glyph>, b: seq<Glyph>, c: seq<Glyph>, ok1: bool, ok2: bool, ok3: bool)
    requires Emits(s0, s1, a, ok1) && Follows(ok1, s1, s2, b, ok2) && Follows(ok2, s2, s3, c, ok3)
    ensures Emits(s0, s3, a + b + c, ok3)
  {
    TwoPieces(s0, s1, s2, a, b, ok1, ok2);
    TwoPieces(s0, s2, s3, a + b, c, ok2, ok3);
  }

  lemma TwoPieces(s0: seq<Glyph>, s1: seq<Glyph>, s2: seq<Glyph>, a: seq<Glyph>, b: seq<Glyph>, ok1: bool, ok2: bool)
    requires Emits(s0, s1, a, ok1) && Follows(ok1, s1, s2, b, ok2)
    ensures Emits(s0, s2, a + b, ok2)
  {
    var n := |s2| - |s0|;
    assert ok1 ==> (a + b)[..n] == a + b[..n - |a|];
    assert !ok1 ==> (a + b)[..n] == a[..n];
  }

  lemma UnsignedEmits(s0: seq<Glyph>, s1: seq<Glyph>, s2: seq<Glyph>, v: nat, b: nat, digits: nat, width: nat, field: nat,
                      left: nat, flags: Flags, ok1: bool, ok2: bool)
    requires IsBase(b) && width == Max(digits, NumWidth(v, b))
    requires ok1 && flags.left ==> left == field
    requires Emits(s0, s1, Plain(if !flags.left then Fill(if flags.zero && digits == 0 then '0' else ' ', field - width) else ""), ok1)
    requires Follows(ok1, s1, s2, Body(v, b, digits, width, left, flags), ok2)
    ensures Emits(s0, s2, UnsignedGlyphs(v, b, digits, field, flags), ok2)
  {
    UnsignedParts(v, b, digits, field, flags);
    var lead := Plain(if !flags.left then Fill(if flags.zero && digits == 0 then '0' else ' ', field - width) else "");
    TwoPieces(s0, s1, s2, lead, Body(v, b, digits, width, field, flags), ok1, ok2);
  }

  lemma IntEmits(s0: seq<Glyph>, s1: seq<Glyph>, s2: seq<Glyph>, v: int, b: nat, digits: nat, fieldWidth: nat, flags: Flags,
                 width: nat, field: nat, left: nat, ok1: bool, ok2: bool)
    requires IsBase(b) && width == Max(digits, NumWidth(Abs(v), b))
    requires field == if fieldWidth > 0 && (v < 0 || flags.plus) then fieldWidth - 1 else fieldWidth
    requires ok1 ==> left == if flags.left then field else Min(field, width)
    requires Emits(s0, s1, Plain(Front(v, digits, field - width, flags)), ok1)
    requires Follows(ok1, s1, s2, UnsignedGlyphs(Abs(v), b, digits, left, flags), ok2)
    ensures Emits(s0, s2, IntGlyphs(v, b, digits, fieldWidth, flags), ok2)
  {
    var rest := if flags.left then field else Min(field, width);
    IntParts(v, b, digits, fieldWidth, flags, field, rest);
    TwoPieces(s0, s1, s2, Plain(Front(v, digits, field - width, flags)),
      UnsignedGlyphs(Abs(v), b, digits, rest, flags), ok1, ok2);
  }

  lemma FrontEmits(s0: seq<Glyph>, s1: seq<Glyph>, s2: seq<Glyph>, s3: seq<Glyph>,
                   v: int, digits: nat, pad: int, flags: Flags, ok1: bool, ok2: bool, ok3: bool)
    requires Emits(s0, s1, Plain(if (!flags.zero || digits != 0) && !flags.left then Fill(' ', pad) else ""), ok1)
    requires Follows(ok1, s1, s2, Plain(Sign(v, flags)), ok2)
    requires Follows(ok2, s2, s3, Plain(if flags.zero && !flags.left && digits == 0 then Fill('0', pad) else ""), ok3)
    ensures Emits(s0, s3, Plain(Front(v, digits, pad, flags)), ok3)
  {
    FrontParts(v, digits, pad, flags);
    ThreePieces(s0, s1, s2, s3,
      Plain(if (!flags.zero || digits != 0) && !flags.left then Fill(' ', pad) else ""),
      Plain(Sign(v, flags)),
      Plain(if flags.zero && !flags.left && digits == 0 then Fill('0', pad) else ""), ok1, ok2, ok3);
  }

  /** One glyph more of a piece. */
  lemma PieceNext(s0: seq<Glyph>, piece: seq<Glyph>, n: nat)
    requires n < |piece|
    ensures s0 + piece[..n] + [piece[n]] == s0 + piece[..n + 1]
  {
  }

  /** `v` has just the digits `left` to print, and `digit` is the place value of the first of them. */
  predicate Shows(v: nat, b: nat, digit: nat, left: string)
    requires IsBase(b)
  {
    left != "" && digit == Pow(b, |left| - 1) && v < Pow(b, |left|) && left == Positional(v, b, |left|)
  }

  /** All digits but the first `n` are still to print. */
  predicate Remain(v: nat, b: nat, digit: nat, all: string, n: nat)
    requires IsBase(b)
  {
    if digit == 0 then n == |all| else n < |all| && Shows(v, b, digit, all[n..])
  }

  /** Characters as the channel carries them. */
  function Bytes(s: string): (b: seq<byte>)
    ensures |b| == |s|
  {
    seq(|s|, i requires 0 <= i < |s| => s[i] as int % 256)
  }

  lemma BytesThen(before: seq<byte>, s: string, t: string)
    ensures before + Bytes(s) + Bytes(t) == before + Bytes(s + t)
  {
  }

  /** The remainder of the division. */
  lemma {:induction false} UnfilledIsRemainder(n: nat, size: nat)
    requires size >= 1
    ensures Unfilled(n, size) == n % size
    decreases n
  {
    if n >= size {
      UnfilledIsRemainder(n - size, size);
      ModuloStep(n, size);
    }
  }

  lemma ModuloStep(n: nat, size: nat)
    requires 1 <= size <= n
    ensures n % size == (n - size) % size
  {
    var q, r := (n - size) / size, (n - size) % size;
    assert n == (q + 1) * size + r;
    var m, k := n / size, n % size;
    assert n == m * size + k;
    assert q + 1 < m ==> (q + 2) * size <= m * size;
    assert m < q + 1 ==> (m + 1) * size <= (q + 1) * size;
  }

  /**
   The printf descriptor with the channel it writes to.  `track` follows the call:
   what has been handed over, what is in the buffer and what the channel has taken
   since the start, when `base` was in it and `room` was free.  The host makes
   `host[i]` bytes of room before the i-th offer.  A call that is `waiting` in the
   blocking mode does not come back.
   */
  class Descriptor {
    const buffer: array<char>
    const ring: UpRing
    const patience: nat
    const host: seq<nat>
    var cnt: nat
    var returnValue: int
    var offers: nat
    var waiting: bool
    ghost const way: Way
    ghost const base: seq<byte>
    ghost const room: nat
    ghost var track: Track

    /** The channel carries what was accepted. */
    ghost predicate Linked()
      reads this, ring, ring.cells
    {
      && ring.Valid() && way == Way(buffer.Length, ring.flags, ring.cells.Length - 1)
      && ring.Stream() == base + Bytes(track.accepted)
    }

    ghost function Now(): Fields
      reads this, buffer, ring
      requires ring.wrOff < ring.cells.Length && ring.rdOff < ring.cells.Length
    {
      Fields(cnt, returnValue, offers, waiting, buffer[..], ring.Free())
    }

    ghost predicate Valid()
      reads this, buffer, ring, ring.cells
    {
      Linked() && Now().Fit(way, room, host, track) && (Going() ==> cnt < buffer.Length)
    }

    predicate Going()
      reads this
    {
      returnValue >= 0 && !waiting
    }

    /** A chunk has been refused once; its last character was marked or not. */
    ghost predicate Pending(again: bool)
      reads this
    {
      |track.late| == 1 && track.text != [] && track.text[|track.text| - 1].again == again
    }

    /** A refused chunk has been offered again exactly if it ends in a digit that has padding behind it. */
    ghost predicate Settled()
      reads this
    {
      returnValue < 0 && !waiting ==>
        track.text != [] && (|track.late| == 2 <==> track.text[|track.text| - 1].again)
    }

    constructor (ring: UpRing, size: nat, patience: nat, host: seq<nat>)
      requires ring.Valid() && size >= 1
      ensures Valid() && fresh(buffer) && Going()
      ensures this.ring == ring && this.host == host && way == Way(size, ring.flags, ring.cells.Length - 1)
      ensures base == ring.Stream() && room == ring.Free() && track.text == []
    {
      buffer := new char[size](_ => ' ');
      this.ring, this.patience, this.host := ring, patience, host;
      cnt, returnValue, offers, waiting := 0, 0, 0, false;
      way := Way(size, ring.flags, ring.cells.Length - 1);
      base, room, track := ring.Stream(), ring.Free(), Track([], 0, [], [], "");
      new;
      assert base + Bytes("") == base;
    }

    /** `SEGGER_RTT_Write` of a piece of the text, after the host has made its room. */
    method WriteChunk(s: string) returns (n: nat, ghost found: nat)
      requires Linked()
      modifies this`offers, ring, ring.cells
      ensures ring.Valid() && offers == old(offers) + 1
      ensures n <= |s| && ring.Stream() == base + Bytes(track.accepted + s[..n])
      ensures Answers(way, host, old(offers), |s|, old(ring.Free()), found, n, ring.Free())
    {
      if offers < |host| {
        ring.MakeRoom(host[offers]);
      }
      found := ring.Free();
      ghost var stalls;
      n, stalls := ring.WriteNoLock(Bytes(s), patience);
      assert Bytes(s)[..n] == Bytes(s[..n]);
      BytesThen(base, track.accepted, s[..n]);
      offers := offers + 1;
    }

    /** The full buffer is offered; `n` characters of it are taken. */
    method OfferBuffer() returns (n: nat)
      requires Linked() && Now().Fit(way, room, host, track) && !waiting && cnt == buffer.Length
      requires returnValue >= 0 || |track.late| == 1
      modifies this`offers, this`track, ring, ring.cells
      ensures Linked() && n <= cnt && offers == old(offers) + 1 && track.text == old(track.text)
      ensures old(Now()).Offer(way.flags, n, ring.Free()).Fit(way, room, host, track)
      ensures returnValue < 0 || n < cnt ==> |track.late| == |old(track.late)| + 1
    {
      ghost var now, t := Now(), track;
      ghost var found;
      n, found := WriteChunk(buffer[..cnt]);
      OfferFits(way, room, host, t, now, found, n, ring.Free());
      track := t.Offer(found, n);
    }

    /** The full buffer is handed over: for the first time, or once more after a refusal. */
    method HandOver()
      requires Linked() && Now().Fit(way, room, host, track) && !waiting && cnt == buffer.Length
      requires returnValue >= 0 || |track.late| == 1
      modifies this`cnt, this`returnValue, this`offers, this`waiting, this`track, ring, ring.cells
      ensures Valid() && track.text == old(track.text)
      ensures old(returnValue) < 0 || returnValue < 0 ==> |track.late| == |old(track.late)| + 1
      ensures old(returnValue) < 0 ==> returnValue < 0 && !waiting
    {
      var n := OfferBuffer();
      if n != cnt {
        if ring.flags == MODE_BLOCK {
          waiting := true;
        } else {
          returnValue := -1;
        }
      } else {
        cnt := 0;
      }
      assert Now() == old(Now()).Offer(way.flags, n, ring.Free());
    }

    /**
     Stores one character; hands the buffer over when it is full.  After a refusal
     the buffer is full already: the character is dropped, and the same chunk is
     offered again.
     */
    method StoreChar(c: char, ghost again: bool)
      requires Valid() && !waiting && (returnValue >= 0 || |track.late| == 1)
      modifies this, buffer, ring, ring.cells
      ensures Valid()
      ensures old(returnValue) >= 0 ==> track.text == old(track.text) + [Glyph(c, again)]
      ensures old(returnValue) >= 0 && returnValue < 0 ==> Pending(again)
      ensures old(returnValue) < 0 ==>
        returnValue < 0 && !waiting && |track.late| == 2 && track.text == old(track.text)
    {
      if cnt + 1 <= buffer.Length {
        buffer[cnt] := c;
        cnt := cnt + 1;
        returnValue := returnValue + 1;
        track := track.(text := track.text + [Glyph(c, again)]);
        StoreFits(way, room, host, old(track), old(Now()), Glyph(c, again), buffer[..]);
      }
      if cnt == buffer.Length {
        HandOver();
      }
    }

    /**
     The padding loops: `c` until the field is no wider than `width`.  Entered
     after a refusal, the loop offers the refused chunk once more, if there is
     anything to pad.
     */
    method Pad(c: char, width: nat, fieldWidth: nat) returns (left: nat)
      requires Valid() && !waiting && (returnValue >= 0 || |track.late| == 1)
      modifies this, buffer, ring, ring.cells
      ensures Valid()
      ensures Follows(old(Going()), old(track.text), track.text, Plain(Fill(c, fieldWidth - width)), Going())
      ensures old(returnValue) >= 0 ==> Settled()
      ensures old(returnValue) < 0 ==> returnValue < 0 && !waiting && |track.late| == (if width < fieldWidth then 2 else 1)
      ensures Going() ==> left == Min(fieldWidth, width)
    {
      left := fieldWidth;
      var going := true;
      ghost var text, piece := track.text, Plain(Fill(c, fieldWidth - width));
      while going && left != 0 && width < left
        invariant Valid() && Min(width, fieldWidth) <= left <= fieldWidth
        invariant old(returnValue) >= 0 ==>
          track.text == text + piece[..fieldWidth - left] && Settled() && going == Going()
        invariant old(returnValue) < 0 ==>
          && track.text == text && !waiting && returnValue < 0
          && (if going then |track.late| == 1 && left == fieldWidth else |track.late| == 2 && width < fieldWidth)
        decreases going, left
      {
        if old(returnValue) >= 0 { PieceNext(text, piece, fieldWidth - left); }
        left := left - 1;
        StoreChar(c, false);
        going := Going();
      }
    }

    /** How many characters the number takes, before padding. */
    method MeasureWidth(v: nat, b: nat, digits: nat) returns (width: nat)
      requires IsBase(b)
      ensures width == Max(digits, NumWidth(v, b))
    {
      var number: nat := v;
      width := 1;
      while number >= b
        invariant width >= 1 && width - 1 + NumWidth(number, b) == NumWidth(v, b)
        decreases number
      {
        number := number / b;
        width := width + 1;
      }
      if digits > width {
        width := digits;
      }
    }

    /** The place value of the first digit to print. */
    method FindDivisor(v: u32, b: nat, digits: nat) returns (digit: u32)
      requires IsBase(b) && PrecisionFits(b, digits)
      ensures digit == Pow(b, Max(digits, NumWidth(v, b)) - 1)
    {
      var nd: nat, going := digits, true;
      digit := 1;
      DivisorIsPower(v, b, digits, 0, 1);
      ghost var j: nat := 0;
      while going
        invariant Divisor(v, b, nd, digit) == Divisor(v, b, digits, 1)
        invariant digit == Pow(b, j) && Pow(b, Max(1, nd) + j - 1) < TWO32
        invariant !going ==> digit == Divisor(v, b, nd, digit)
        decreases going, nd, TWO32 - digit
      {
        if nd > 1 {
          PowStep(b, j, nd + j - 1);
          nd := nd - 1;
          digit, j := Scaled(digit, b), j + 1;
        } else {
          SearchStep(v, b, j, digit);
          var div := v / digit;
          if div < b {
            going := false;
          } else {
            DivisorGrows(v, b, digit);
            digit, j := Scaled(digit, b), j + 1;
          }
        }
      }
    }

    /** Takes the first digit off a number. */
    method TakeDigit(v: nat, b: nat, digit: nat, ghost left: string) returns (div: nat, rest: nat, next: nat)
      requires IsBase(b) && Shows(v, b, digit, left)
      ensures div < b && DigitChar(div) == left[0]
      ensures if |left| == 1 then next == 0 else next > 0 && Shows(rest, b, next, left[1..])
    {
      ghost var q, r := DigitStep(v, b, |left| - 1);
      div := v / digit;
      rest := v - div * digit;
      assert div == q && rest == r;
      next := digit / b;
    }

    /** One round of the digit loop, behind the first `n` digits. */
    method PrintDigit(v: nat, b: nat, digit: nat, ghost all: string, ghost n: nat, ghost again: bool)
      returns (rest: nat, next: nat)
      requires Valid() && Going()
      requires IsBase(b) && digit > 0 && Remain(v, b, digit, all, n)
      modifies this, buffer, ring, ring.cells
      ensures Valid() && track.text == old(track.text) + [Glyph(all[n], again)]
      ensures returnValue < 0 ==> Pending(again)
      ensures n < |all| && Remain(rest, b, next, all, n + 1)
    {
      var div;
      div, rest, next := TakeDigit(v, b, digit, all[n..]);
      assert all[n..][1..] == all[n + 1..];
      StoreChar(DigitChar(div), again);
    }

    /** The digits, from the most significant one down; `again` if padding follows them. */
    method PrintDigits(v0: u32, b: nat, digit0: nat, ghost all: string, ghost piece: seq<Glyph>, ghost again: bool)
      requires Valid() && Going()
      requires IsBase(b) && digit0 > 0 && Remain(v0, b, digit0, all, 0)
      requires |piece| == |all| && forall i :: 0 <= i < |all| ==> piece[i] == Glyph(all[i], again)
      modifies this, buffer, ring, ring.cells
      ensures Valid()
      ensures Emits(old(track.text), track.text, piece, Going())
      ensures returnValue < 0 ==> Pending(again)
    {
      var v: nat, digit: nat := v0, digit0;
      ghost var text, n: nat := track.text, 0;
      while digit != 0 && Going()
        invariant Valid() && (returnValue < 0 ==> Pending(again))
        invariant n <= |all| && track.text == text + piece[..n]
        invariant Remain(v, b, digit, all, n)
        decreases |all| - n
      {
        PieceNext(text, piece, n);
        v, digit := PrintDigit(v, b, digit, all, n, again);
        n := n + 1;
      }
    }

    /** The padding on one side of a number, if it goes there. */
    method PadIf(justify: bool, c: char, width: nat, fieldWidth: nat) returns (left: nat)
      requires Valid() && !waiting && (returnValue >= 0 || Pending(justify && width < fieldWidth))
      modifies this, buffer, ring, ring.cells
      ensures Valid() && Settled()
      ensures Follows(old(Going()), old(track.text), track.text, Plain(if justify then Fill(c, fieldWidth - width) else ""), Going())
      ensures Going() ==> left == if justify then Min(fieldWidth, width) else fieldWidth
    {
      left := fieldWidth;
      if justify && fieldWidth != 0 {
        left := Pad(c, width, fieldWidth);
      }
    }

    /** The digits of a number, without padding. */
    method PrintPlain(v: u32, b: nat, digits: nat, width: nat, ghost again: bool)
      requires Valid() && Going()
      requires IsBase(b) && PrecisionFits(b, digits) && width == Max(digits, NumWidth(v, b))
      modifies this, buffer, ring, ring.cells
      ensures Valid()
      ensures Emits(old(track.text), track.text, Mark(DigitText(v, b, digits), 0, if again then width else 0), Going())
      ensures returnValue < 0 ==> Pending(again)
    {
      var digit := FindDivisor(v, b, digits);
      WidthBound(v, b, width);
      ghost var all := DigitText(v, b, digits);
      assert all[0..] == all;
      PrintDigits(v, b, digit, all, Mark(all, 0, if again then width else 0), again);
    }

    /** The digits and the padding behind them, which is entered even after a digit was refused. */
    method PrintBody(v: u32, b: nat, digits: nat, width: nat, field: nat, flags: Flags)
      requires Valid() && Going()
      requires IsBase(b) && PrecisionFits(b, digits) && width == Max(digits, NumWidth(v, b))
      modifies this, buffer, ring, ring.cells
      ensures Valid() && Settled()
      ensures Emits(old(track.text), track.text, Body(v, b, digits, width, field, flags), Going())
    {
      ghost var s0, again := track.text, flags.left && width < field;
      PrintPlain(v, b, digits, width, again);
      ghost var s1, ok1 := track.text, Going();
      if !waiting {
        var left := PadIf(flags.left, ' ', width, field);
      }
      TwoPieces(s0, s1, track.text, Mark(DigitText(v, b, digits), 0, if again then width else 0),
        Plain(if flags.left then Fill(' ', field - width) else ""), ok1, Going());
    }

    /** `_PrintUnsigned`. */
    method PrintUnsigned(v: u32, b: nat, digits: nat, fieldWidth: nat, flags: Flags)
      requires Valid() && Going()
      requires IsBase(b) && PrecisionFits(b, digits)
      modifies this, buffer, ring, ring.cells
      ensures Valid() && Settled()
      ensures Emits(old(track.text), track.text, UnsignedGlyphs(v, b, digits, fieldWidth, flags), Going())
    {
      var width := MeasureWidth(v, b, digits);
      ghost var s0 := track.text;
      var left := PadIf(!flags.left, if flags.zero && digits == 0 then '0' else ' ', width, fieldWidth);
      ghost var s1, ok1 := track.text, Going();
      if Going() {
        PrintBody(v, b, digits, width, left, flags);
      }
      UnsignedEmits(s0, s1, track.text, v, b, digits, width, fieldWidth, left, flags, ok1, Going());
    }

    method PrintSign(v: int, flags: Flags)
      requires Valid() && Going()
      modifies this, buffer, ring, ring.cells
      ensures Valid() && Settled()
      ensures Emits(old(track.text), track.text, Plain(Sign(v, flags)), Going())
    {
      if v < 0 {
        StoreChar('-', false);
        assert Plain("-") == [Glyph('-', false)];
      } else if flags.plus {
        StoreChar('+', false);
        assert Plain("+") == [Glyph('+', false)];
      }
    }

    /** What comes before the digits of a signed number; `left` is what remains of the field. */
    method PrintFront(v: int, digits: nat, width: nat, field: nat, flags: Flags) returns (left: nat)
      requires Valid() && Going()
      modifies this, buffer, ring, ring.cells
      ensures Valid() && Settled()
      ensures Emits(old(track.text), track.text, Plain(Front(v, digits, field - width, flags)), Going())
      ensures Going() ==> left == if flags.left then field else Min(field, width)
    {
      ghost var s0 := track.text;
      left := PadIf((!flags.zero || digits != 0) && !flags.left, ' ', width, field);
      ghost var s1, ok1 := track.text, Going();
      if Going() {
        PrintSign(v, flags);
      }
      ghost var s2, ok2 := track.text, Going();
      if Going() {
        left := PadIf(flags.zero && !flags.left && digits == 0, '0', width, left);
      }
      FrontEmits(s0, s1, s2, track.text, v, digits, field - width, flags, ok1, ok2, Going());
    }

    /** `_PrintInt`; the smallest number is excluded because its negation does not exist. */
    method PrintInt(v: int, b: nat, digits: nat, fieldWidth: nat, flags: Flags)
      requires Valid() && Going()
      requires IsBase(b) && PrecisionFits(b, digits)
      requires -0x8000_0000 < v < 0x8000_0000
      modifies this, buffer, ring, ring.cells
      ensures Valid() && Settled()
      ensures Emits(old(track.text), track.text, IntGlyphs(v, b, digits, fieldWidth, flags), Going())
    {
      var width := MeasureWidth(Abs(v), b, digits);
      var field := fieldWidth;
      if field > 0 && (v < 0 || flags.plus) {
        field := field - 1;
      }
      ghost var s0 := track.text;
      var left := PrintFront(v, digits, width, field, flags);
      ghost var s1, ok1 := track.text, Going();
      if Going() {
        PrintUnsigned(Abs(v), b, digits, left, flags);
      }
      IntEmits(s0, s1, track.text, v, b, digits, fieldWidth, flags, width, field, left, ok1, Going());
    }

    /** The characters still in the buffer at the end of a call. */
    method Flush() returns (returned: bool, ghost sent: string, ghost rooms: seq<nat>)
      requires Valid() && Going() && cnt > 0
      modifies this`offers, ring, ring.cells
      ensures ring.Valid() && ring.Stream() == base + Bytes(sent)
      ensures if returned then Ends(way, room, host, track.text, rooms, sent, |track.text| + cnt)
        else way.flags == MODE_BLOCK && sent < Chars(track.text) && |sent| >= room
    {
      ghost var free := ring.Free();
      var n; ghost var found;
      n, found := WriteChunk(buffer[..cnt]);
      sent, rooms := track.accepted + Chars(track.text[track.done..])[..n], track.rooms + [found];
      returned := ring.flags != MODE_BLOCK || n == cnt;
      if returned {
        EndsUnfilled(way, room, host, track, free, found, n, ring.Free());
      } else {
        TakenPartly(way, room, host, track, free, n);
      }
    }

    /**
     The end of a call that was to print `text`.  If it comes back, the channel
     has got what the rooms that the offers found make of the text, and the
     result is -1 if a full chunk was refused, and else the length of the text
     plus that of its unfilled chunk.
     */
    method Finish(ghost text: seq<Glyph>) returns (ret: int, returned: bool, ghost sent: string, ghost rooms: seq<nat>)
      requires Valid() && Settled()
      requires track.text <= text && (Going() ==> track.text == text)
      modifies this`offers, ring, ring.cells
      ensures ring.Valid() && ring.Stream() == base + Bytes(sent)
      ensures if returned then Ends(way, room, host, text, rooms, sent, ret)
        else way.flags == MODE_BLOCK && sent < Chars(text) && |sent| >= room
    {
      ret, returned, sent, rooms := returnValue, !waiting, track.accepted, track.rooms;
      if waiting {
        assert Chars(track.text) <= Chars(text);
      } else if returnValue < 0 {
        rooms := track.rooms + track.late;
        EndsRefused(way, room, host, track, ring.Free(), text);
      } else if cnt == 0 {
        EndsEven(way, room, host, track, ring.Free());
      } else if returnValue > 0 {
        returned, sent, rooms := Flush();
        ret := ret + cnt;
      }
    }
  }
}
