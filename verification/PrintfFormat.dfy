/** Format strings: what they mean, and the interpreter that prints them through the small buffer. */
module PrintfFormat {
  import opened Basics
  import Digits
  import opened Printf
  import opened PrintfDelivery
  import opened PrintfDescriptor
  import opened RttUp

  /* Meaning -------------------------------------------------------------------------- */

  datatype Arg = IntArg(v: int) | StrArg(s: string)

  /** One element of a format: a character to copy, or a conversion. */
  datatype Item =
    | Literal(c: char)
    | Conversion(flags: Flags, width: u32, digits: u32, specifier: char)

  function ParseFlags(s: string, flags: Flags): (Flags, string)
    decreases |s|
  {
    if s == "" then (flags, s)
    else match s[0]
      case '-' => ParseFlags(s[1..], flags.(left := true))
      case '0' => ParseFlags(s[1..], flags.(zero := true))
      case '+' => ParseFlags(s[1..], flags.(plus := true))
      case '#' => ParseFlags(s[1..], flags.(alternate := true))
      case _ => (flags, s)
  }

  predicate IsDigit(s: string) {
    s != "" && '0' <= s[0] <= '9'
  }

  /** A decimal number, on 32 bits as the accumulator has them. */
  function ParseNumber(s: string, acc: u32): (u32, string)
    decreases |s|
  {
    if IsDigit(s) then ParseNumber(s[1..], (acc * 10 + Digits.DigitValue(s[0])) % TWO32) else (acc, s)
  }

  function ParsePrecision(s: string): (u32, string) {
    if s != "" && s[0] == '.' then ParseNumber(s[1..], 0) else (0, s)
  }

  function SkipModifiers(s: string): string
    decreases |s|
  {
    if s != "" && (s[0] == 'l' || s[0] == 'h') then SkipModifiers(s[1..]) else s
  }

  /** The first element of a format and what follows it; nothing if the format ends inside a conversion. */
  function NextItem(s: string): Option<(Item, string)>
    requires s != ""
  {
    if s[0] != '%' then Some((Literal(s[0]), s[1..]))
    else
      var (flags, s1) := ParseFlags(s[1..], NO_FLAGS);
      var (width, s2) := ParseNumber(s1, 0);
      var (digits, s3) := ParsePrecision(s2);
      var s4 := SkipModifiers(s3);
      if s4 == "" then None else Some((Conversion(flags, width, digits, s4[0]), s4[1..]))
  }

  /** How many arguments an element uses. */
  function Takes(item: Item): nat {
    if item.Conversion? && item.specifier in "cduxXps" then 1 else 0
  }

  /** The argument is of the kind the conversion reads, and a number it can print. */
  predicate Accepts(item: Item, args: seq<Arg>) {
    && Takes(item) <= |args|
    && (Takes(item) == 1 ==> (args[0].StrArg? <==> item.specifier == 's'))
    && (Takes(item) == 1 && args[0].IntArg? ==> -0x8000_0000 <= args[0].v < 0x8000_0000)
    && (item.Conversion? ==>
          && (item.specifier == 'd' ==> args[0].v != -0x8000_0000)
          && (item.specifier in "du" ==> PrecisionFits(10, item.digits))
          && (item.specifier in "xX" ==> PrecisionFits(16, item.digits)))
  }

  /** What an element prints. */
  function Shown(item: Item, args: seq<Arg>): string
    requires Accepts(item, args)
  {
    match item
    case Literal(c) => [c]
    case Conversion(flags, width, digits, c) =>
      if c == 'c' then [(args[0].v % 256) as char]
      else if c == 'd' then IntText(args[0].v, 10, digits, width, flags)
      else if c == 'u' then UnsignedText(args[0].v % TWO32, 10, digits, width, flags)
      else if c == 'x' || c == 'X' then UnsignedText(args[0].v % TWO32, 16, digits, width, flags)
      else if c == 's' then args[0].s
      else if c == 'p' then UnsignedText(args[0].v % TWO32, 16, 8, 8, NO_FLAGS)
      else if c == '%' then "%"
      else ""
  }

  /** The format is complete, and each conversion finds an argument it can print. */
  predicate WellFormed(fmt: string, args: seq<Arg>)
    decreases |fmt|
  {
    fmt == "" || match NextItem(fmt)
      case None => false
      case Some((item, rest)) =>
        RestShorter(fmt);
        Accepts(item, args) && WellFormed(rest, args[Takes(item)..])
  }

  /** The text of a format, no buffer in sight. */
  function Text(fmt: string, args: seq<Arg>): string
    requires WellFormed(fmt, args)
    decreases |fmt|
  {
    if fmt == "" then ""
    else
      var (item, rest) := NextItem(fmt).value;
      RestShorter(fmt);
      Shown(item, args) + Text(rest, args[Takes(item)..])
  }

  /** What an element prints, with the digits marked that a refused chunk may end in. */
  function ShownGlyphs(item: Item, args: seq<Arg>): (g: seq<Glyph>)
    requires Accepts(item, args)
    ensures Chars(g) == Shown(item, args)
  {
    match item
    case Literal(c) => Plain([c])
    case Conversion(flags, width, digits, c) =>
      if c == 'd' then IntGlyphs(args[0].v, 10, digits, width, flags)
      else if c == 'u' then UnsignedGlyphs(args[0].v % TWO32, 10, digits, width, flags)
      else if c == 'x' || c == 'X' then UnsignedGlyphs(args[0].v % TWO32, 16, digits, width, flags)
      else if c == 'p' then UnsignedGlyphs(args[0].v % TWO32, 16, 8, 8, NO_FLAGS)
      else Plain(Shown(item, args))
  }

  function Glyphs(fmt: string, args: seq<Arg>): seq<Glyph>
    requires WellFormed(fmt, args)
    decreases |fmt|
  {
    if fmt == "" then []
    else
      var (item, rest) := NextItem(fmt).value;
      RestShorter(fmt);
      ShownGlyphs(item, args) + Glyphs(rest, args[Takes(item)..])
  }

  lemma {:induction false} GlyphsShow(fmt: string, args: seq<Arg>)
    requires WellFormed(fmt, args)
    ensures Chars(Glyphs(fmt, args)) == Text(fmt, args)
    decreases |fmt|
  {
    if fmt != "" {
      var (item, rest) := NextItem(fmt).value;
      RestShorter(fmt);
      GlyphsShow(rest, args[Takes(item)..]);
      CharsJoin(ShownGlyphs(item, args), Glyphs(rest, args[Takes(item)..]));
    }
  }

  /** No number is left-justified. */
  predicate Unjustified(fmt: string, args: seq<Arg>)
    requires WellFormed(fmt, args)
    decreases |fmt|
  {
    fmt == "" ||
    var (item, rest) := NextItem(fmt).value;
    RestShorter(fmt);
    (item.Conversion? && item.specifier in "duxX" ==> !item.flags.left) && Unjustified(rest, args[Takes(item)..])
  }

  /** Without such numbers nothing is marked, so that no chunk is offered twice. */
  lemma {:induction false} UnjustifiedIsClear(fmt: string, args: seq<Arg>)
    requires WellFormed(fmt, args) && Unjustified(fmt, args)
    ensures forall i :: 0 <= i < |Glyphs(fmt, args)| ==> !Glyphs(fmt, args)[i].again
    decreases |fmt|
  {
    if fmt != "" {
      var (item, rest) := NextItem(fmt).value;
      RestShorter(fmt);
      UnjustifiedIsClear(rest, args[Takes(item)..]);
    }
  }

  /** How many arguments a format uses. */
  function Arity(fmt: string, args: seq<Arg>): (n: nat)
    requires WellFormed(fmt, args)
    ensures n <= |args|
    decreases |fmt|
  {
    if fmt == "" then 0
    else
      var (item, rest) := NextItem(fmt).value;
      RestShorter(fmt);
      Takes(item) + Arity(rest, args[Takes(item)..])
  }

  lemma {:induction false} FlagsShorter(s: string, flags: Flags)
    ensures |ParseFlags(s, flags).1| <= |s|
    decreases |s|
  {
    if s != "" {
      FlagsShorter(s[1..], flags.(left := true));
      FlagsShorter(s[1..], flags.(zero := true));
      FlagsShorter(s[1..], flags.(plus := true));
      FlagsShorter(s[1..], flags.(alternate := true));
    }
  }

  lemma {:induction false} NumberShorter(s: string, acc: u32)
    ensures |ParseNumber(s, acc).1| <= |s|
    decreases |s|
  {
    if IsDigit(s) { NumberShorter(s[1..], (acc * 10 + Digits.DigitValue(s[0])) % TWO32); }
  }

  lemma {:induction false} ModifiersShorter(s: string)
    ensures |SkipModifiers(s)| <= |s|
    decreases |s|
  {
    if s != "" { ModifiersShorter(s[1..]); }
  }

  lemma RestShorter(s: string)
    requires s != ""
    ensures NextItem(s).Some? ==> |NextItem(s).value.1| < |s|
  {
    if s[0] == '%' {
      FlagsShorter(s[1..], NO_FLAGS);
      var (flags, s1) := ParseFlags(s[1..], NO_FLAGS);
      NumberShorter(s1, 0);
      var (width, s2) := ParseNumber(s1, 0);
      if s2 != "" { NumberShorter(s2[1..], 0); }
      ModifiersShorter(ParsePrecision(s2).1);
    }
  }

  /* Formats compose -------------------------------------------------------------------- */

  lemma {:induction false} FlagsLocal(s: string, t: string, flags: Flags)
    requires ParseFlags(s, flags).1 != ""
    ensures ParseFlags(s + t, flags) == (ParseFlags(s, flags).0, ParseFlags(s, flags).1 + t)
    decreases |s|
  {
    assert (s + t)[1..] == s[1..] + t;
    match s[0] {
      case '-' => FlagsLocal(s[1..], t, flags.(left := true));
      case '0' => FlagsLocal(s[1..], t, flags.(zero := true));
      case '+' => FlagsLocal(s[1..], t, flags.(plus := true));
      case '#' => FlagsLocal(s[1..], t, flags.(alternate := true));
      case _ =>
    }
  }

  lemma {:induction false} NumberLocal(s: string, t: string, acc: u32)
    requires ParseNumber(s, acc).1 != ""
    ensures ParseNumber(s + t, acc) == (ParseNumber(s, acc).0, ParseNumber(s, acc).1 + t)
    decreases |s|
  {
    if IsDigit(s) {
      assert (s + t)[1..] == s[1..] + t;
      NumberLocal(s[1..], t, (acc * 10 + Digits.DigitValue(s[0])) % TWO32);
    }
  }

  lemma {:induction false} ModifiersLocal(s: string, t: string)
    requires SkipModifiers(s) != ""
    ensures SkipModifiers(s + t) == SkipModifiers(s) + t
    decreases |s|
  {
    if s[0] == 'l' || s[0] == 'h' {
      assert (s + t)[1..] == s[1..] + t;
      ModifiersLocal(s[1..], t);
    }
  }

  /** A complete element reads the same whatever follows it. */
  lemma ItemLocal(s: string, t: string)
    requires s != "" && NextItem(s).Some?
    ensures NextItem(s + t) == Some((NextItem(s).value.0, NextItem(s).value.1 + t))
  {
    assert (s + t)[1..] == s[1..] + t;
    if s[0] == '%' {
      var (flags, s1) := ParseFlags(s[1..], NO_FLAGS);
      var (width, s2) := ParseNumber(s1, 0);
      var (digits, s3) := ParsePrecision(s2);
      ModifiersLocal(s3, t);
      if s2[0] == '.' {
        assert (s2 + t)[1..] == s2[1..] + t;
        NumberLocal(s2[1..], t, 0);
      }
      NumberLocal(s1, t, 0);
      FlagsLocal(s[1..], t, NO_FLAGS);
      var s4 := SkipModifiers(s3);
      assert (s4 + t)[1..] == s4[1..] + t;
      assert ParsePrecision(s2 + t) == (digits, s3 + t);
    }
  }

  lemma ArgumentsLocal(item: Item, a: seq<Arg>, b: seq<Arg>)
    requires Accepts(item, a)
    ensures Accepts(item, a + b) && Shown(item, a + b) == Shown(item, a)
  {
  }

  /** A format that starts with a given element. */
  lemma {:induction false} Unfold(fmt: string, args: seq<Arg>, item: Item, rest: string)
    requires fmt != "" && NextItem(fmt) == Some((item, rest))
    requires Accepts(item, args) && WellFormed(rest, args[Takes(item)..])
    ensures WellFormed(fmt, args)
    ensures Text(fmt, args) == Shown(item, args) + Text(rest, args[Takes(item)..])
  {
  }

  lemma Fold(fmt: string, args: seq<Arg>) returns (item: Item, rest: string)
    requires fmt != "" && WellFormed(fmt, args)
    ensures NextItem(fmt) == Some((item, rest)) && |rest| < |fmt|
    ensures Accepts(item, args) && WellFormed(rest, args[Takes(item)..])
    ensures Text(fmt, args) == Shown(item, args) + Text(rest, args[Takes(item)..])
    ensures Arity(fmt, args) == Takes(item) + Arity(rest, args[Takes(item)..])
  {
    item, rest := NextItem(fmt).value.0, NextItem(fmt).value.1;
    RestShorter(fmt);
  }

  lemma {:induction false} ComposeStep(f: string, a: seq<Arg>, g: string, b: seq<Arg>, item: Item, rest: string)
    requires f != "" && NextItem(f) == Some((item, rest)) && Accepts(item, a)
    requires WellFormed(rest + g, a[Takes(item)..] + b)
    ensures WellFormed(f + g, a + b)
    ensures Text(f + g, a + b) == Shown(item, a) + Text(rest + g, a[Takes(item)..] + b)
  {
    ItemLocal(f, g);
    ArgumentsLocal(item, a, b);
    assert (a + b)[Takes(item)..] == a[Takes(item)..] + b;
    Unfold(f + g, a + b, item, rest + g);
  }

  /** Formatting is compositional: two formats one after the other print their texts one after the other. */
  lemma {:induction false} FormatsCompose(f: string, a: seq<Arg>, g: string, b: seq<Arg>)
    requires WellFormed(f, a) && Arity(f, a) == |a| && WellFormed(g, b)
    ensures WellFormed(f + g, a + b)
    ensures Text(f + g, a + b) == Text(f, a) + Text(g, b)
    decreases |f|
  {
    if f == "" {
      assert f + g == g && a + b == b;
    } else {
      var item, rest := Fold(f, a);
      var args := a[Takes(item)..];
      FormatsCompose(rest, args, g, b);
      ComposeStep(f, a, g, b, item, rest);
      Regroup(Shown(item, a), Text(rest, args), Text(g, b));
    }
  }

  /** A format without conversions prints itself. */
  lemma {:induction false} PlainFormat(fmt: string, args: seq<Arg>)
    requires '%' !in fmt
    ensures WellFormed(fmt, args) && Text(fmt, args) == fmt
    decreases |fmt|
  {
    if fmt != "" {
      assert args[0..] == args && fmt == [fmt[0]] + fmt[1..];
      PlainFormat(fmt[1..], args);
      Unfold(fmt, args, Literal(fmt[0]), fmt[1..]);
    }
  }

  lemma Regroup(s: string, t: string, u: string)
    ensures s + t + u == s + (t + u)
  {
  }

  /* The interpreter ------------------------------------------------------------------------ */

  /** The flags loop. */
  method ReadFlags(fmt: string, start: nat) returns (flags: Flags, pos: nat)
    requires start <= |fmt|
    ensures start <= pos <= |fmt|
    ensures ParseFlags(fmt[start..], NO_FLAGS) == (flags, fmt[pos..])
  {
    flags, pos := NO_FLAGS, start;
    var going := true;
    while going
      invariant start <= pos <= |fmt|
      invariant ParseFlags(fmt[start..], NO_FLAGS) == ParseFlags(fmt[pos..], flags)
      invariant !going ==> ParseFlags(fmt[pos..], flags) == (flags, fmt[pos..])
      decreases going, |fmt| - pos
    {
      if pos == |fmt| {
        going := false;
      } else {
        assert fmt[pos..][1..] == fmt[pos + 1..];
        match fmt[pos] {
          case '-' => flags, pos := flags.(left := true), pos + 1;
          case '0' => flags, pos := flags.(zero := true), pos + 1;
          case '+' => flags, pos := flags.(plus := true), pos + 1;
          case '#' => flags, pos := flags.(alternate := true), pos + 1;
          case _ => going := false;
        }
      }
    }
  }

  /** The loop that reads a field width or a precision. */
  method ReadNumber(fmt: string, start: nat) returns (n: u32, pos: nat)
    requires start <= |fmt|
    ensures start <= pos <= |fmt|
    ensures ParseNumber(fmt[start..], 0) == (n, fmt[pos..])
  {
    n, pos := 0, start;
    while pos < |fmt| && '0' <= fmt[pos] <= '9'
      invariant start <= pos <= |fmt|
      invariant ParseNumber(fmt[start..], 0) == ParseNumber(fmt[pos..], n)
    {
      assert fmt[pos..][1..] == fmt[pos + 1..];
      n := (n * 10 + Digits.DigitValue(fmt[pos])) % TWO32;
      pos := pos + 1;
    }
  }

  /** The loop over length modifiers. */
  method ReadModifiers(fmt: string, start: nat) returns (pos: nat)
    requires start <= |fmt|
    ensures start <= pos <= |fmt|
    ensures SkipModifiers(fmt[start..]) == fmt[pos..]
  {
    pos := start;
    while pos < |fmt| && (fmt[pos] == 'l' || fmt[pos] == 'h')
      invariant start <= pos <= |fmt|
      invariant SkipModifiers(fmt[start..]) == SkipModifiers(fmt[pos..])
    {
      assert fmt[pos..][1..] == fmt[pos + 1..];
      pos := pos + 1;
    }
  }

  /** Everything of a conversion up to its specifier. */
  method ReadConversion(fmt: string, start: nat) returns (item: Item, pos: nat)
    requires start < |fmt| && fmt[start] == '%' && NextItem(fmt[start..]).Some?
    ensures start < pos < |fmt|
    ensures item.Conversion? && item.specifier == fmt[pos]
    ensures NextItem(fmt[start..]) == Some((item, fmt[pos + 1..]))
  {
    assert fmt[start..][1..] == fmt[start + 1..];
    var flags, width, digits;
    flags, pos := ReadFlags(fmt, start + 1);
    width, pos := ReadNumber(fmt, pos);
    digits := 0;
    if pos < |fmt| && fmt[pos] == '.' {
      assert fmt[pos..][1..] == fmt[pos + 1..];
      digits, pos := ReadNumber(fmt, pos + 1);
    }
    pos := ReadModifiers(fmt, pos);
    assert fmt[pos..][1..] == fmt[pos + 1..];
    item := Conversion(flags, width, digits, fmt[pos]);
  }

  /** `%s`: the characters of a string, field width and precision notwithstanding. */
  method PrintString(d: Descriptor, s: string)
    requires d.Valid() && d.Going()
    modifies d, d.buffer, d.ring, d.ring.cells
    ensures d.Valid() && d.Settled()
    ensures Emits(old(d.track.text), d.track.text, Plain(s), d.Going())
  {
    ghost var text := d.track.text;
    var i := 0;
    while i < |s| && d.Going()
      invariant i <= |s|
      invariant d.Valid() && d.Settled()
      invariant d.track.text == text + Plain(s)[..i]
    {
      PieceNext(text, Plain(s), i);
      d.StoreChar(s[i], false);
      i := i + 1;
    }
  }

  /** A single character. */
  method PrintChar(d: Descriptor, c: char)
    requires d.Valid() && d.Going()
    modifies d, d.buffer, d.ring, d.ring.cells
    ensures d.Valid() && d.Settled()
    ensures Emits(old(d.track.text), d.track.text, Plain([c]), d.Going())
  {
    d.StoreChar(c, false);
    assert Plain([c]) == [Glyph(c, false)];
  }

  /** The specifier switch. */
  method Convert(d: Descriptor, item: Item, args: seq<Arg>)
    requires d.Valid() && d.Going()
    requires item.Conversion? && Accepts(item, args)
    modifies d, d.buffer, d.ring, d.ring.cells
    ensures d.Valid() && d.Settled()
    ensures Emits(old(d.track.text), d.track.text, ShownGlyphs(item, args), d.Going())
  {
    match item.specifier {
      case 'c' => PrintChar(d, (args[0].v % 256) as char);
      case 'd' => d.PrintInt(args[0].v, 10, item.digits, item.width, item.flags);
      case 'u' => d.PrintUnsigned(args[0].v % TWO32, 10, item.digits, item.width, item.flags);
      case 'x' => d.PrintUnsigned(args[0].v % TWO32, 16, item.digits, item.width, item.flags);
      case 'X' => d.PrintUnsigned(args[0].v % TWO32, 16, item.digits, item.width, item.flags);
      case 's' => PrintString(d, args[0].s);
      case 'p' =>
        PowersOver32();
        Digits.PowMonotone(16, 7, 8);
        d.PrintUnsigned(args[0].v % TWO32, 16, 8, 8, NO_FLAGS);
      case '%' => PrintChar(d, '%');
      case _ =>
    }
  }

  /** One round of the loop: the next element of the format. */
  method PrintItem(d: Descriptor, fmt: string, args: seq<Arg>, start: nat, used0: nat) returns (pos: nat, used: nat)
    requires d.Valid() && d.Going()
    requires start < |fmt| && used0 <= |args|
    requires NextItem(fmt[start..]).Some? && Accepts(NextItem(fmt[start..]).value.0, args[used0..])
    modifies d, d.buffer, d.ring, d.ring.cells
    ensures d.Valid() && d.Settled()
    ensures start < pos <= |fmt| && used0 <= used <= |args|
    ensures var (item, rest) := NextItem(fmt[start..]).value;
      && Emits(old(d.track.text), d.track.text, ShownGlyphs(item, args[used0..]), d.Going())
      && fmt[pos..] == rest && args[used..] == args[used0..][Takes(item)..]
  {
    if fmt[start] == '%' {
      var item;
      item, pos := ReadConversion(fmt, start);
      Convert(d, item, args[used0..]);
      pos, used := pos + 1, used0 + Takes(item);
    } else {
      PrintChar(d, fmt[start]);
      pos, used := start + 1, used0;
    }
  }

  /** The loop over the format. */
  method PrintItems(ring: UpRing, size: nat, patience: nat, host: seq<nat>, fmt: string, args: seq<Arg>)
    returns (d: Descriptor)
    requires ring.Valid() && size >= 1 && WellFormed(fmt, args)
    modifies ring, ring.cells
    ensures fresh(d) && fresh(d.buffer) && d.Valid() && d.Settled()
    ensures d.ring == ring && d.host == host && d.way == Way(size, ring.flags, ring.cells.Length - 1)
    ensures d.base == old(ring.Stream()) && d.room == old(ring.Free())
    ensures Emits([], d.track.text, Glyphs(fmt, args), d.Going())
  {
    d := new Descriptor(ring, size, patience, host);
    var pos: nat, used: nat := 0, 0;
    assert fmt[0..] == fmt && args[0..] == args;
    while pos < |fmt| && d.Going()
      invariant pos <= |fmt| && used <= |args|
      invariant d.Valid() && d.Settled() && fresh(d) && fresh(d.buffer)
      invariant d.ring == ring && d.host == host && d.way == Way(size, ring.flags, ring.cells.Length - 1)
      invariant d.base == old(ring.Stream()) && d.room == old(ring.Free())
      invariant d.Going() ==> WellFormed(fmt[pos..], args[used..])
      invariant d.Going() ==> d.track.text + Glyphs(fmt[pos..], args[used..]) == Glyphs(fmt, args)
      invariant !d.Going() ==> Emits([], d.track.text, Glyphs(fmt, args), false)
    {
      ghost var s0, s, left := d.track.text, fmt[pos..], args[used..];
      ghost var (item, rest) := NextItem(s).value;
      RestShorter(s);
      pos, used := PrintItem(d, fmt, args, pos, used);
      PartOf(s0, d.track.text, ShownGlyphs(item, left), Glyphs(rest, left[Takes(item)..]), d.Going());
    }
  }

  lemma PartOf(s0: seq<Glyph>, s1: seq<Glyph>, a: seq<Glyph>, b: seq<Glyph>, ok: bool)
    requires Emits(s0, s1, a, ok)
    ensures ok ==> s1 + b == s0 + (a + b)
    ensures Emits([], s1, s0 + (a + b), false)
  {
  }

  /**
   The whole call.  If it comes back, the channel has got what the offers make of
   the text with the rooms they found (`Ends`).  In every mode but trimming that
   is a first part of the text, whatever the size of the buffer and the host; in
   trimming mode it is if the text is `Safe` (`TrimExact`: exactly then for every
   host).  The result is -1 if a full chunk was refused, and else the length of
   the text plus that of its last, unfilled chunk: the number of characters sent
   only when there is none.  A call that does not come back is still writing.
   */
  method VPrintf(ring: UpRing, size: nat, patience: nat, host: seq<nat>, fmt: string, args: seq<Arg>)
    returns (ret: int, returned: bool, ghost sent: string, ghost rooms: seq<nat>)
    requires ring.Valid() && size >= 1 && WellFormed(fmt, args)
    modifies ring, ring.cells
    ensures ring.Valid() && ring.Stream() == old(ring.Stream()) + Bytes(sent)
    ensures var way, low := Way(size, ring.flags, ring.cells.Length - 1), old(ring.Free());
      if returned then
        && Ends(way, low, host, Glyphs(fmt, args), rooms, sent, ret)
        && Delivered(way, Text(fmt, args), low, sent)
        && (Safe(way, Glyphs(fmt, args), low) ==> sent <= Text(fmt, args))
      else ring.flags == MODE_BLOCK && sent < Text(fmt, args) && |sent| >= low
    ensures returned ==> ret == -1 || ret == |Text(fmt, args)| + |Text(fmt, args)| % size
    ensures returned ==> (ret == |sent| <==> ret >= 0 && |Text(fmt, args)| % size == 0)
  {
    var d := PrintItems(ring, size, patience, host, fmt, args);
    ghost var way, text := d.way, Glyphs(fmt, args);
    GlyphsShow(fmt, args);
    ret, returned, sent, rooms := d.Finish(text);
    if returned {
      Outcome(way, d.room, host, text, rooms, sent, ret);
    }
  }

  lemma Outcome(way: Way, low: nat, host: seq<nat>, text: seq<Glyph>, rooms: seq<nat>, sent: string, ret: int)
    requires way.size >= 1 && Ends(way, low, host, text, rooms, sent, ret)
    ensures Delivered(way, Chars(text), low, sent)
    ensures Safe(way, text, low) ==> sent <= Chars(text)
    ensures ret == -1 || ret == |text| + |text| % way.size
    ensures ret == |sent| <==> ret >= 0 && |text| % way.size == 0
  {
    UnfilledIsRemainder(|text|, way.size);
    Delivery(way, text, low, rooms);
    if way.flags == MODE_TRIM && Safe(way, text, low) {
      SafeIsPrefix(way, text, low, low, rooms);
    }
    if !Refuses(way, text, rooms) {
      SentLength(way, text, low, rooms);
    }
  }

  /** In trimming mode the channel gets a first part of the text, whatever the host does, exactly if it is safe. */
  lemma TrimmedExact(fmt: string, args: seq<Arg>, way: Way, low: nat)
    requires WellFormed(fmt, args) && way.size >= 1 && way.flags == MODE_TRIM && low <= way.cap
    ensures (forall rooms :: Found(way, Glyphs(fmt, args), low, rooms) ==> Sent(way, Glyphs(fmt, args), rooms) <= Text(fmt, args))
      <==> Safe(way, Glyphs(fmt, args), low)
    ensures Unjustified(fmt, args) ==> Safe(way, Glyphs(fmt, args), low)
  {
    GlyphsShow(fmt, args);
    TrimExact(way, Glyphs(fmt, args), low);
    if Unjustified(fmt, args) {
      UnjustifiedIsClear(fmt, args);
      ClearIsSafe(way, Glyphs(fmt, args), low);
    }
  }

  lemma Twelve()
    ensures Digits.NumWidth(12, 10) == 2 && Digits.Positional(12, 10, 2) == "12"
  {
    assert Digits.NumWidth(12, 10) == 1 + Digits.NumWidth(1, 10) == 2;
    assert Digits.Positional(1, 10, 1) == Digits.Positional(0, 10, 0) + "1" == "1";
    assert Digits.Positional(12, 10, 2) == Digits.Positional(1, 10, 1) + "2";
  }

  lemma LeftJustifiedRead(flags: Flags)
    requires flags == NO_FLAGS.(left := true)
    ensures NextItem("%-3u") == Some((Conversion(flags, 3, 0, 'u'), ""))
  {
    assert "%-3u"[1..] == "-3u" && "-3u"[1..] == "3u" && "3u"[1..] == "u" && "u"[1..] == "";
    assert ParseFlags("3u", flags) == (flags, "3u") && ParseNumber("u", 3) == (3, "u");
  }

  /** `%-3u` of 12. */
  lemma LeftJustified()
    ensures WellFormed("%-3u", [IntArg(12)]) && Text("%-3u", [IntArg(12)]) == "12 "
    ensures Glyphs("%-3u", [IntArg(12)]) == [Glyph('1', true), Glyph('2', true), Glyph(' ', false)]
  {
    var args, flags := [IntArg(12)], NO_FLAGS.(left := true);
    LeftJustifiedRead(flags);
    Twelve();
    assert UnsignedText(12, 10, 0, 3, flags) == "12 ";
    assert ShownGlyphs(Conversion(flags, 3, 0, 'u'), args) == [Glyph('1', true), Glyph('2', true), Glyph(' ', false)];
    assert Text("", []) == "" && Glyphs("", []) == [];
  }

  /** Two characters into a channel for one byte, offered twice with the host reading in between. */
  lemma TwiceOne(rooms: seq<nat>)
    requires Found(Way(2, MODE_TRIM, 1), [Glyph('1', true), Glyph('2', true), Glyph(' ', false)], 1, rooms)
    requires Served([0, 1], 1, 1, 0, rooms)
    ensures Sent(Way(2, MODE_TRIM, 1), [Glyph('1', true), Glyph('2', true), Glyph(' ', false)], rooms) == "11"
    ensures Refuses(Way(2, MODE_TRIM, 1), [Glyph('1', true), Glyph('2', true), Glyph(' ', false)], rooms)
  {
    var text := [Glyph('1', true), Glyph('2', true), Glyph(' ', false)];
    assert text[..1] == [Glyph('1', true)];
    assert Chars(text[..1]) == "1" && |rooms| == 2 && rooms[1] == 1;
  }

  /** A call that does not leave a first part of its text: `%-3u` of 12 puts "11" into a channel for one byte. */
  method OfferedTwice() returns (ring: UpRing, ret: int)
    ensures fresh(ring) && ring.Valid() && ring.flags == MODE_TRIM
    ensures ring.Stream() == Bytes("11") && ret == -1
    ensures WellFormed("%-3u", [IntArg(12)]) && Text("%-3u", [IntArg(12)]) == "12 "
  {
    LeftJustified();
    ring := new UpRing(2, MODE_TRIM);
    var returned; ghost var sent, rooms;
    ret, returned, sent, rooms := VPrintf(ring, 2, 0, [0, 1], "%-3u", [IntArg(12)]);
    TwiceOne(rooms);
  }

  /**
   Chunking is invisible: two channels get the same characters through buffers of
   any sizes if they have room for them; and in any case, unless they trim, what
   one of them gets is a first part of what the other gets.
   */
  method SizesAgree(ring0: UpRing, ring1: UpRing, size0: nat, size1: nat, patience: nat, host0: seq<nat>, host1: seq<nat>,
                    fmt: string, args: seq<Arg>)
    returns (ghost sent0: string, ghost sent1: string)
    requires ring0.Valid() && ring1.Valid() && ring0 != ring1 && ring0.cells != ring1.cells
    requires size0 >= 1 && size1 >= 1 && WellFormed(fmt, args)
    modifies ring0, ring0.cells, ring1, ring1.cells
    ensures ring0.Valid() && ring0.Stream() == old(ring0.Stream()) + Bytes(sent0)
    ensures ring1.Valid() && ring1.Stream() == old(ring1.Stream()) + Bytes(sent1)
    ensures ring0.flags != MODE_TRIM && ring1.flags != MODE_TRIM ==> sent0 <= sent1 || sent1 <= sent0
    ensures ring0.flags <= MODE_BLOCK && ring1.flags <= MODE_BLOCK ==>
      |Text(fmt, args)| <= Min(old(ring0.Free()), old(ring1.Free())) ==> sent0 == sent1
  {
    var ret, returned; ghost var rooms;
    ret, returned, sent0, rooms := VPrintf(ring0, size0, patience, host0, fmt, args);
    ret, returned, sent1, rooms := VPrintf(ring1, size1, patience, host1, fmt, args);
  }
}
