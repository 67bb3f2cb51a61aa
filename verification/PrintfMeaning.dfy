/** What each conversion of a format string puts out, told without the functions that format it. */
module PrintfMeaning {
  import opened Basics
  import opened Digits
  import opened Printf
  import opened PrintfDelivery
  import opened PrintfDescriptor
  import opened PrintfFormat

  /* Numbers ------------------------------------------------------------------------------ */

  /** A number in its field: spaces, sign, zeros, digits, spaces. */
  datatype Field = Field(left: nat, sign: string, zeros: nat, body: string, right: nat)

  /** All of it, from left to right. */
  function Written(f: Field): string {
    Fill(' ', f.left) + (f.sign + Fill('0', f.zeros) + f.body) + Fill(' ', f.right)
  }

  lemma FillExactly(c: char, n: nat)
    ensures |Fill(c, n)| == n && forall i :: 0 <= i < n ==> Fill(c, n)[i] == c
  {
  }

  predicate TableDigit(c: char, b: nat) {
    '0' <= c <= '9' || (b == 16 && 'A' <= c <= 'F')
  }

  /**
   The field shows `v` in base `b`: at least `digits` digits and no more than the
   number needs, filled up to `width` on the side that the flags say.
   */
  predicate Shows(f: Field, v: int, b: nat, digits: nat, width: nat, left: bool, zero: bool, plus: bool)
    requires b == 10 || b == 16
  {
    && f.sign == (if v < 0 then "-" else if plus then "+" else "")
    && (forall i :: 0 <= i < |f.body| ==> TableDigit(f.body[i], b))
    && Eval(f.body, b) == (if v < 0 then -v else v)
    && |f.body| >= 1 && |f.body| >= digits
    && (|f.body| > 1 && |f.body| > digits ==> f.body[0] != '0')
    && |Written(f)| == Max(width, |f.sign| + |f.body|)
    && (f.left > 0 ==> !left && (!zero || digits > 0))
    && (f.zeros > 0 ==> !left && zero && digits == 0)
    && (f.right > 0 ==> left)
  }

  /** A refused chunk is offered again if it ends in one of the digits of a number that has padding behind it. */
  predicate MarksDigits(g: seq<Glyph>, f: Field) {
    forall i :: 0 <= i < |g| ==> (g[i].again <==> f.right > 0 && |f.sign| <= i < |f.sign| + |f.body|)
  }

  /** The digits and what they stand for. */
  lemma DigitTable(d: nat)
    requires d < 16
    ensures DigitChar(d) == "0123456789ABCDEF"[d] && DigitValue("0123456789ABCDEF"[d]) == d
  {
  }

  lemma {:induction false} DigitsInTable(v: nat, b: nat, n: nat)
    requires IsBase(b)
    ensures forall i :: 0 <= i < n ==> TableDigit(Positional(v, b, n)[i], b)
    decreases n
  {
    if n > 0 {
      DigitsInTable(Over(v, b), b, n - 1);
    }
  }

  /** A number has no leading zero, unless it is one. */
  lemma {:induction false} LeadingNonzero(v: nat, b: nat)
    requires IsBase(b)
    ensures NumWidth(v, b) > 1 || v > 0 ==> Positional(v, b, NumWidth(v, b))[0] != '0'
    decreases v
  {
    var n := NumWidth(v, b);
    if v >= b {
      LeadingNonzero(Over(v, b), b);
      assert Positional(v, b, n)[0] == Positional(Over(v, b), b, n - 1)[0];
    } else if v > 0 {
      assert Positional(v, b, 1) == Positional(Over(v, b), b, 0) + [DigitChar(Mod(v, b))] == [DigitChar(v)];
      DigitTable(v);
    }
  }

  lemma BodyShows(v: nat, b: nat, digits: nat)
    requires IsBase(b)
    ensures var body := DigitText(v, b, digits);
      && (forall i :: 0 <= i < |body| ==> TableDigit(body[i], b))
      && Eval(body, b) == v && |body| >= 1 && |body| >= digits
      && (|body| > 1 && |body| > digits ==> body[0] != '0')
  {
    var n := Max(digits, NumWidth(v, b));
    DigitsInTable(v, b, n);
    WidthBound(v, b, n);
    EvalPositional(v, b, n);
    LeadingNonzero(v, b);
  }

  lemma PaddingShows(f: Field, v: int, b: nat, digits: nat, width: nat, flags: Flags)
    requires IsBase(b) && f.sign == Sign(v, flags) && f.body == DigitText(Abs(v), b, digits)
    requires (f.left, f.zeros, f.right) == Padding(v, b, digits, width, flags)
    ensures |Written(f)| == Max(width, |f.sign| + |f.body|)
    ensures (f.left > 0 ==> !flags.left && (!flags.zero || digits > 0))
         && (f.zeros > 0 ==> !flags.left && flags.zero && digits == 0) && (f.right > 0 ==> flags.left)
  {
  }

  function FieldOf(v: int, b: nat, digits: nat, width: nat, flags: Flags): Field
    requires IsBase(b)
  {
    var (l, z, r) := Padding(v, b, digits, width, flags);
    Field(l, Sign(v, flags), z, DigitText(Abs(v), b, digits), r)
  }

  lemma FieldShows(v: int, b: nat, digits: nat, width: nat, flags: Flags)
    requires IsBase(b)
    ensures Shows(FieldOf(v, b, digits, width, flags), v, b, digits, width, flags.left, flags.zero, flags.plus)
  {
    BodyShows(Abs(v), b, digits);
    PaddingShows(FieldOf(v, b, digits, width, flags), v, b, digits, width, flags);
  }

  lemma FieldMarks(v: int, b: nat, digits: nat, width: nat, flags: Flags)
    requires IsBase(b)
    ensures MarksDigits(IntGlyphs(v, b, digits, width, flags), FieldOf(v, b, digits, width, flags))
  {
  }

  /** Where a signed number stands in its field, and which of its digits are marked. */
  lemma IntShows(v: int, b: nat, digits: nat, width: nat, flags: Flags)
    requires IsBase(b)
    ensures var f := FieldOf(v, b, digits, width, flags);
      && Shows(f, v, b, digits, width, flags.left, flags.zero, flags.plus)
      && IntText(v, b, digits, width, flags) == Written(f)
      && MarksDigits(IntGlyphs(v, b, digits, width, flags), f)
  {
    FieldShows(v, b, digits, width, flags);
    FieldMarks(v, b, digits, width, flags);
    TextShape(v, b, digits, width, flags);
  }

  /** And an unsigned one. */
  lemma UnsignedShows(v: nat, b: nat, digits: nat, width: nat, flags: Flags)
    requires IsBase(b)
    ensures var f := FieldOf(v, b, digits, width, flags.(plus := false));
      && Shows(f, v, b, digits, width, flags.left, flags.zero, false)
      && UnsignedText(v, b, digits, width, flags) == Written(f)
      && MarksDigits(UnsignedGlyphs(v, b, digits, width, flags), f)
  {
    IntShows(v, b, digits, width, flags.(plus := false));
    UnsignedIsInt(v, b, digits, width, flags);
    assert Sign(v, flags.(plus := false)) == "";
  }

  /** What a field shows is what is read from it. */
  lemma {:induction false} FieldReads(f: Field, v: int, b: nat, digits: nat, width: nat, left: bool, zero: bool, plus: bool)
    requires (b == 10 || b == 16) && Shows(f, v, b, digits, width, left, zero, plus)
    ensures ReadInt(Written(f), b) == v
  {
    var flags := Flags(left, zero, plus, false);
    forall i | 0 <= i < |f.body|
      ensures f.body[i] !in " +-"
    {
      assert TableDigit(f.body[i], b);
    }
    CoreReads(v, flags, f.zeros, f.body, b);
    SpacesIgnored(f.left, f.sign + Fill('0', f.zeros) + f.body, f.right);
  }

  /* Conversions, as they are written -------------------------------------------------------- */

  /** The pieces of a conversion behind its percent sign. */
  datatype Spec = Spec(flags: string, width: string, precision: Option<string>, modifiers: string, specifier: char)

  predicate AllFlags(s: string) {
    forall i :: 0 <= i < |s| ==> IsFlag(s[i])
  }

  predicate IsFlag(c: char) {
    c == '-' || c == '0' || c == '+' || c == '#'
  }

  predicate AllDigits(s: string) {
    forall i :: 0 <= i < |s| ==> '0' <= s[i] <= '9'
  }

  predicate AllModifiers(s: string) {
    forall i :: 0 <= i < |s| ==> s[i] == 'l' || s[i] == 'h'
  }

  /** Whatever is not read as part of what stands before it; most of these print nothing. */
  predicate IsSpecifier(c: char) {
    !IsFlag(c) && !('0' <= c <= '9') && c != '.' && c != 'l' && c != 'h'
  }

  /** A width does not start with 0, which is a flag. */
  predicate Proper(s: Spec) {
    && AllFlags(s.flags) && AllDigits(s.width) && (s.width != "" ==> s.width[0] != '0')
    && (s.precision.Some? ==> AllDigits(s.precision.value)) && AllModifiers(s.modifiers) && IsSpecifier(s.specifier)
  }

  function PrecisionText(s: Spec): string {
    match s.precision
    case None => ""
    case Some(p) => "." + p
  }

  function Format(s: Spec): string {
    "%" + s.flags + s.width + PrecisionText(s) + s.modifiers + [s.specifier]
  }

  function WidthOf(s: Spec): nat {
    Eval(s.width, 10) % TWO32
  }

  function PrecisionOf(s: Spec): nat {
    match s.precision
    case None => 0
    case Some(p) => Eval(p, 10) % TWO32
  }

  lemma {:induction false} FlagsRead(s: string, rest: string, flags: Flags)
    requires AllFlags(s) && rest != "" && !IsFlag(rest[0])
    ensures ParseFlags(s + rest, flags)
         == (Flags(flags.left || '-' in s, flags.zero || '0' in s, flags.plus || '+' in s, flags.alternate || '#' in s), rest)
    decreases |s|
  {
    if s == "" {
      assert s + rest == rest;
    } else {
      assert (s + rest)[1..] == s[1..] + rest && s == [s[0]] + s[1..];
      match s[0] {
        case '-' => FlagsRead(s[1..], rest, flags.(left := true));
        case '0' => FlagsRead(s[1..], rest, flags.(zero := true));
        case '+' => FlagsRead(s[1..], rest, flags.(plus := true));
        case '#' => FlagsRead(s[1..], rest, flags.(alternate := true));
      }
    }
  }

  lemma WrapDigit(x: nat, d: nat)
    ensures (x % TWO32 * 10 + d) % TWO32 == (x * 10 + d) % TWO32
  {
    var q, r := x / TWO32, x % TWO32;
    var y := r * 10 + d;
    assert x * 10 + d == (q * 10 + y / TWO32) * TWO32 + y % TWO32;
  }

  /** Digits accumulate on 32 bits. */
  lemma {:induction false} NumberGoesOn(s: string, rest: string)
    requires AllDigits(s)
    ensures ParseNumber(s + rest, 0) == ParseNumber(rest, Eval(s, 10) % TWO32)
    decreases |s|
  {
    if s == "" {
      assert s + rest == rest;
    } else {
      var before, last := s[..|s| - 1], s[|s| - 1];
      NumberGoesOn(before, [last] + rest);
      assert s + rest == before + ([last] + rest) && ([last] + rest)[1..] == rest;
      WrapDigit(Eval(before, 10), DigitValue(last));
    }
  }

  lemma {:induction false} NumberReads(s: string, rest: string)
    requires AllDigits(s) && !IsDigit(rest)
    ensures ParseNumber(s + rest, 0) == (Eval(s, 10) % TWO32, rest)
  {
    NumberGoesOn(s, rest);
  }

  lemma {:induction false} ModifiersRead(s: string, rest: string)
    requires AllModifiers(s) && (rest == "" || (rest[0] != 'l' && rest[0] != 'h'))
    ensures SkipModifiers(s + rest) == rest
    decreases |s|
  {
    if s == "" {
      assert s + rest == rest;
    } else {
      assert (s + rest)[1..] == s[1..] + rest;
      ModifiersRead(s[1..], rest);
    }
  }

  lemma {:induction false} PrecisionRead(s: Spec, rest: string)
    requires Proper(s) && !IsDigit(rest) && (rest == "" || rest[0] != '.')
    ensures ParsePrecision(PrecisionText(s) + rest) == (PrecisionOf(s), rest)
  {
    match s.precision {
      case None => assert "" + rest == rest;
      case Some(p) =>
        assert ("." + p + rest)[1..] == p + rest;
        NumberReads(p, rest);
    }
  }

  lemma Regrouped(a: string, b: string, c: string, d: string, e: char, rest: string)
    ensures var s := "%" + a + b + c + d + [e] + rest;
      s != "" && s[0] == '%' && s[1..] == a + (b + (c + (d + ([e] + rest))))
  {
    var s := "%" + a + b + c + d + [e] + rest;
    assert s == "%" + (a + (b + (c + (d + ([e] + rest)))));
  }

  /** What comes behind the modifiers, the precision, the width and the flags starts with none of their characters. */
  lemma Heads(s: Spec, rest: string)
    requires Proper(s)
    ensures var end := [s.specifier] + rest;
      var mods := s.modifiers + end;
      var prec := PrecisionText(s) + mods;
      var width := s.width + prec;
      && end[0] != 'l' && end[0] != 'h' && !IsDigit(mods) && mods[0] != '.' && !IsDigit(prec) && !IsFlag(width[0])
  {
    assert s.modifiers != "" ==> s.modifiers[0] == 'l' || s.modifiers[0] == 'h';
    assert s.width != "" ==> '0' < s.width[0] <= '9';
    assert s.precision.Some? ==> PrecisionText(s)[0] == '.';
  }

  /** A conversion is read as it is written, with numbers on 32 bits, and what follows it is left. */
  lemma {:induction false} FormatReads(s: Spec, rest: string)
    requires Proper(s)
    ensures var flags := Flags('-' in s.flags, '0' in s.flags, '+' in s.flags, '#' in s.flags);
      NextItem(Format(s) + rest) == Some((Conversion(flags, WidthOf(s), PrecisionOf(s), s.specifier), rest))
  {
    var end := [s.specifier] + rest;
    var mods := s.modifiers + end;
    var prec := PrecisionText(s) + mods;
    Heads(s, rest);
    Regrouped(s.flags, s.width, PrecisionText(s), s.modifiers, s.specifier, rest);
    FlagsRead(s.flags, s.width + prec, NO_FLAGS);
    NumberReads(s.width, prec);
    PrecisionRead(s, mods);
    ModifiersRead(s.modifiers, end);
    assert end[1..] == rest;
  }

  /* What they print ------------------------------------------------------------------------- */

  /** A format is made of characters to copy and of conversions, with the argument they use, if they do. */
  datatype Piece = Copy(c: char) | Convert(spec: Spec, args: seq<Arg>)

  /** An argument is 32 bits wide and of the kind that is printed, and so is the place value of the first digit. */
  predicate Printable(p: Piece) {
    match p
    case Copy(c) => c != '%'
    case Convert(s, args) =>
      && Proper(s)
      && (if s.specifier == 's' then |args| == 1 && args[0].StrArg?
          else if UsesNumber(s.specifier) then
            && |args| == 1 && args[0].IntArg? && -0x8000_0000 <= args[0].v < 0x8000_0000
            && (s.specifier == 'd' ==> args[0].v != -0x8000_0000)
            && (s.specifier == 'd' || s.specifier == 'u' ==> PrecisionOf(s) <= 10)
            && (s.specifier == 'x' || s.specifier == 'X' ==> PrecisionOf(s) <= 8)
          else args == [])
  }

  predicate UsesNumber(c: char) {
    c == 'c' || c == 'd' || c == 'u' || c == 'x' || c == 'X' || c == 'p'
  }

  /**
   The glyphs show a number in the field that the conversion describes, with its digits
   marked if padding follows; only a signed number can have a plus.
   */
  ghost predicate PrintsNumber(s: Spec, v: int, b: nat, signed: bool, g: seq<Glyph>)
    requires b == 10 || b == 16
  {
    exists f: Field :: Chars(g) == Written(f) && MarksDigits(g, f)
      && Shows(f, v, b, PrecisionOf(s), WidthOf(s), '-' in s.flags, '0' in s.flags, signed && '+' in s.flags)
  }

  predicate Unmarked(g: seq<Glyph>) {
    forall i :: 0 <= i < |g| ==> !g[i].again
  }

  /** What a piece prints: a decimal number, the same on 32 bits without a sign, and so on. */
  ghost predicate Prints(p: Piece, g: seq<Glyph>)
    requires Printable(p)
  {
    match p
    case Copy(c) => Chars(g) == [c] && Unmarked(g)
    case Convert(s, args) =>
      if s.specifier == 'd' then PrintsNumber(s, args[0].v, 10, true, g)
      else if s.specifier == 'u' then PrintsNumber(s, args[0].v % 0x1_0000_0000, 10, false, g)
      else if s.specifier == 'x' || s.specifier == 'X' then PrintsNumber(s, args[0].v % 0x1_0000_0000, 16, false, g)
      else
        && Unmarked(g)
        && (if s.specifier == 'p' then ShowsPointer(args[0].v % 0x1_0000_0000, Chars(g))
            else if s.specifier == 'c' then Chars(g) == [(args[0].v % 256) as char]
            else if s.specifier == 's' then Chars(g) == args[0].s
            else if s.specifier == '%' then Chars(g) == "%"
            else g == [])
  }

  /** Eight digits. */
  predicate ShowsPointer(v: nat, t: string) {
    |t| == 8 && (forall i :: 0 <= i < 8 ==> TableDigit(t[i], 16)) && Eval(t, 16) == v
  }

  function Source(p: Piece): string {
    match p
    case Copy(c) => [c]
    case Convert(s, _) => Format(s)
  }

  function Used(p: Piece): seq<Arg> {
    match p
    case Copy(_) => []
    case Convert(_, args) => args
  }

  /** The item that a piece is read as. */
  function Read(p: Piece): Item {
    match p
    case Copy(c) => Literal(c)
    case Convert(s, _) =>
      Conversion(Flags('-' in s.flags, '0' in s.flags, '+' in s.flags, '#' in s.flags), WidthOf(s), PrecisionOf(s), s.specifier)
  }

  lemma PieceReads(p: Piece, rest: string)
    requires Printable(p)
    ensures Source(p) + rest != "" && NextItem(Source(p) + rest) == Some((Read(p), rest))
  {
    if p.Convert? {
      FormatReads(p.spec, rest);
    } else {
      assert ([p.c] + rest)[1..] == rest;
    }
  }

  lemma PieceAccepted(p: Piece)
    requires Printable(p)
    ensures Takes(Read(p)) == |Used(p)| && Accepts(Read(p), Used(p))
  {
    if p.Convert? {
      var s := p.spec;
      if (s.specifier == 'd' || s.specifier == 'u') && !PrecisionFits(10, PrecisionOf(s)) {
        BeyondLimit(10, PrecisionOf(s));
      }
      if (s.specifier == 'x' || s.specifier == 'X') && !PrecisionFits(16, PrecisionOf(s)) {
        BeyondLimit(16, PrecisionOf(s));
      }
    }
  }

  lemma PointerShows(v: nat)
    requires v < TWO32
    ensures ShowsPointer(v, UnsignedText(v, 16, 8, 8, NO_FLAGS))
  {
    PowersOver32();
    WidthBound(v, 16, 8);
    BodyShows(v, 16, 8);
    var body := DigitText(v, 16, 8);
    assert Fill(' ', 0) + body == body;
  }

  lemma PieceShows(p: Piece)
    requires Printable(p) && Accepts(Read(p), Used(p))
    ensures Prints(p, ShownGlyphs(Read(p), Used(p)))
  {
    if p.Convert? {
      var s, args := p.spec, p.args;
      var flags := Read(p).flags;
      if s.specifier == 'd' {
        IntShows(args[0].v, 10, PrecisionOf(s), WidthOf(s), flags);
      } else if s.specifier == 'u' {
        UnsignedShows(args[0].v % TWO32, 10, PrecisionOf(s), WidthOf(s), flags);
      } else if s.specifier == 'x' || s.specifier == 'X' {
        UnsignedShows(args[0].v % TWO32, 16, PrecisionOf(s), WidthOf(s), flags);
      } else if s.specifier == 'p' {
        PointerShows(args[0].v % TWO32);
      }
    }
  }

  /** Whatever conversion of a number is accepted, its text reads back as the argument, or as what it is on 32 bits. */
  lemma ShownReads(item: Item, args: seq<Arg>)
    requires item.Conversion? && Accepts(item, args)
    ensures item.specifier == 'd' ==> ReadInt(Shown(item, args), 10) == args[0].v
    ensures item.specifier == 'u' ==> ReadInt(Shown(item, args), 10) == args[0].v % 0x1_0000_0000
    ensures item.specifier == 'x' || item.specifier == 'X' || item.specifier == 'p' ==>
      ReadInt(Shown(item, args), 16) == args[0].v % 0x1_0000_0000
  {
    if item.specifier == 'd' {
      IntRoundTrip(args[0].v, 10, item.digits, item.width, item.flags);
    } else if item.specifier == 'u' {
      UnsignedRoundTrip(args[0].v % TWO32, 10, item.digits, item.width, item.flags);
    } else if item.specifier == 'x' || item.specifier == 'X' {
      UnsignedRoundTrip(args[0].v % TWO32, 16, item.digits, item.width, item.flags);
    } else if item.specifier == 'p' {
      UnsignedRoundTrip(args[0].v % TWO32, 16, 8, 8, NO_FLAGS);
    }
  }

  lemma NumberReadsBack(s: Spec, v: int, b: nat, signed: bool, g: seq<Glyph>)
    requires (b == 10 || b == 16) && PrintsNumber(s, v, b, signed, g)
    ensures ReadInt(Chars(g), b) == v && |g| >= WidthOf(s)
  {
    var (left, zero, plus) := ('-' in s.flags, '0' in s.flags, signed && '+' in s.flags);
    var f: Field :| Chars(g) == Written(f) && MarksDigits(g, f)
      && Shows(f, v, b, PrecisionOf(s), WidthOf(s), left, zero, plus);
    FieldReads(f, v, b, PrecisionOf(s), WidthOf(s), left, zero, plus);
  }

  /** What is read from the text of a number is the number. */
  lemma PieceReadsBack(p: Piece, g: seq<Glyph>)
    requires Printable(p) && Prints(p, g) && p.Convert?
    ensures p.spec.specifier == 'd' ==> ReadInt(Chars(g), 10) == p.args[0].v
    ensures p.spec.specifier == 'u' ==> ReadInt(Chars(g), 10) == p.args[0].v % 0x1_0000_0000
    ensures p.spec.specifier == 'x' || p.spec.specifier == 'X' ==> ReadInt(Chars(g), 16) == p.args[0].v % 0x1_0000_0000
  {
    var s := p.spec;
    if s.specifier == 'd' {
      NumberReadsBack(s, p.args[0].v, 10, true, g);
    } else if s.specifier == 'u' {
      NumberReadsBack(s, p.args[0].v % TWO32, 10, false, g);
    } else if s.specifier == 'x' || s.specifier == 'X' {
      NumberReadsBack(s, p.args[0].v % TWO32, 16, false, g);
    }
  }

  /* Whole formats ---------------------------------------------------------------------------- */

  function Sources(ps: seq<Piece>): string {
    if ps == [] then "" else Source(ps[0]) + Sources(ps[1..])
  }

  function Arguments(ps: seq<Piece>): seq<Arg> {
    if ps == [] then [] else Used(ps[0]) + Arguments(ps[1..])
  }

  function Joined(gs: seq<seq<Glyph>>): seq<Glyph> {
    if gs == [] then [] else gs[0] + Joined(gs[1..])
  }

  lemma GlyphsLocal(item: Item, a: seq<Arg>, b: seq<Arg>)
    requires Accepts(item, a) && Accepts(item, a + b)
    ensures ShownGlyphs(item, a + b) == ShownGlyphs(item, a)
  {
  }

  /** A format that starts with a given piece. */
  lemma FirstPiece(p: Piece, rest: string, args: seq<Arg>)
    requires Printable(p) && WellFormed(rest, args)
    ensures Accepts(Read(p), Used(p)) && WellFormed(Source(p) + rest, Used(p) + args)
    ensures Glyphs(Source(p) + rest, Used(p) + args) == ShownGlyphs(Read(p), Used(p)) + Glyphs(rest, args)
  {
    PieceReads(p, rest);
    PieceAccepted(p);
    ArgumentsLocal(Read(p), Used(p), args);
    assert (Used(p) + args)[|Used(p)|..] == args;
    Unfold(Source(p) + rest, Used(p) + args, Read(p), rest);
    GlyphsLocal(Read(p), Used(p), args);
  }

  /** The glyphs of a format are what its pieces print, one after the other, and their characters are its text. */
  lemma {:induction false} FormatPrints(ps: seq<Piece>) returns (gs: seq<seq<Glyph>>)
    requires forall i :: 0 <= i < |ps| ==> Printable(ps[i])
    ensures WellFormed(Sources(ps), Arguments(ps))
    ensures Glyphs(Sources(ps), Arguments(ps)) == Joined(gs) && Text(Sources(ps), Arguments(ps)) == Chars(Joined(gs))
    ensures |gs| == |ps| && forall i :: 0 <= i < |ps| ==> Prints(ps[i], gs[i])
    decreases |ps|
  {
    if ps == [] {
      gs := [];
    } else {
      var tail := FormatPrints(ps[1..]);
      FirstPiece(ps[0], Sources(ps[1..]), Arguments(ps[1..]));
      PieceShows(ps[0]);
      gs := [ShownGlyphs(Read(ps[0]), Used(ps[0]))] + tail;
    }
    GlyphsShow(Sources(ps), Arguments(ps));
  }
}
