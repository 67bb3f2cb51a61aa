/**
 RTT printf: formatting into a small buffer that is handed to the channel
 whenever it is full, against a rendering that knows of no buffer.
 */
module Printf {
  import opened Basics
  import opened Digits

  /* What should come out ---------------------------------------------------------- */

  datatype Flags = Flags(left: bool, zero: bool, plus: bool, alternate: bool)

  const NO_FLAGS: Flags := Flags(false, false, false, false)

  function Fill(c: char, n: int): (s: string)
    ensures |s| == Max(0, n)
  {
    seq(Max(0, n), _ => c)
  }

  /** The digits of `v`: as many as it has, or `digits` if that is more. */
  function DigitText(v: nat, b: nat, digits: nat): string
    requires IsBase(b)
  {
    Positional(v, b, Max(digits, NumWidth(v, b)))
  }

  function UnsignedText(v: nat, b: nat, digits: nat, width: nat, flags: Flags): string
    requires IsBase(b)
  {
    var body := DigitText(v, b, digits);
    var pad := width - |body|;
    if flags.left then body + Fill(' ', pad)
    else Fill(if flags.zero && digits == 0 then '0' else ' ', pad) + body
  }

  function Sign(v: int, flags: Flags): string {
    if v < 0 then "-" else if flags.plus then "+" else ""
  }

  function Abs(v: int): nat {
    if v < 0 then -v else v
  }

  function IntText(v: int, b: nat, digits: nat, width: nat, flags: Flags): string
    requires IsBase(b)
  {
    var sign, body := Sign(v, flags), DigitText(Abs(v), b, digits);
    var pad := width - |sign| - |body|;
    if flags.left then sign + body + Fill(' ', pad)
    else if flags.zero && digits == 0 then sign + Fill('0', pad) + body
    else Fill(' ', pad) + sign + body
  }

  /** However the flags combine, the text is as wide as asked, or as the number needs. */
  lemma {:induction false} WidthLaw(v: int, b: nat, digits: nat, width: nat, flags: Flags)
    requires IsBase(b)
    ensures |IntText(v, b, digits, width, flags)|
         == Max(width, |Sign(v, flags)| + Max(digits, NumWidth(Abs(v), b)))
    ensures |UnsignedText(Abs(v), b, digits, width, flags)| == Max(width, Max(digits, NumWidth(Abs(v), b)))
  {
  }

  /* Reading it back */

  function SkipSpaces(s: string): string {
    if s != "" && s[0] == ' ' then SkipSpaces(s[1..]) else s
  }

  function DropSpaces(s: string): string {
    if s != "" && s[|s| - 1] == ' ' then DropSpaces(s[..|s| - 1]) else s
  }

  /** The number a padded text shows. */
  function ReadInt(s: string, b: nat): int {
    var t := DropSpaces(SkipSpaces(s));
    if t != "" && t[0] == '-' then -(Eval(t[1..], b) as int)
    else if t != "" && t[0] == '+' then Eval(t[1..], b)
    else Eval(t, b)
  }

  lemma {:induction false} SkipFill(n: nat, s: string)
    requires s != "" && s[0] != ' '
    ensures SkipSpaces(Fill(' ', n) + s) == s
  {
    if n == 0 {
      assert Fill(' ', 0) + s == s;
    } else {
      assert (Fill(' ', n) + s)[1..] == Fill(' ', n - 1) + s;
      SkipFill(n - 1, s);
    }
  }

  lemma {:induction false} DropFill(s: string, n: nat)
    requires s != "" && s[|s| - 1] != ' '
    ensures DropSpaces(s + Fill(' ', n)) == s
  {
    if n == 0 {
      assert s + Fill(' ', 0) == s;
    } else {
      var t := s + Fill(' ', n);
      assert t[..|t| - 1] == s + Fill(' ', n - 1);
      DropFill(s, n - 1);
    }
  }

  lemma {:induction false} ZerosInFront(n: nat, s: string, b: nat)
    ensures Eval(Fill('0', n) + s, b) == Eval(s, b)
    decreases n + |s|
  {
    var t := Fill('0', n) + s;
    if s != "" {
      assert t[..|t| - 1] == Fill('0', n) + s[..|s| - 1];
      ZerosInFront(n, s[..|s| - 1], b);
    } else if n > 0 {
      assert t[..|t| - 1] == Fill('0', n - 1) + s;
      ZerosInFront(n - 1, s, b);
    }
  }

  lemma {:induction false} DigitsOnly(v: nat, b: nat, n: nat)
    requires IsBase(b)
    ensures forall i :: 0 <= i < n ==> Positional(v, b, n)[i] !in " +-"
    decreases n
  {
    if n > 0 {
      DigitsOnly(v / b, b, n - 1);
    }
  }

  /** Padding with spaces on either side does not change what is read. */
  lemma {:induction false} SpacesIgnored(l: nat, core: string, r: nat)
    requires core != "" && core[0] != ' ' && core[|core| - 1] != ' '
    ensures DropSpaces(SkipSpaces(Fill(' ', l) + core + Fill(' ', r))) == core
  {
    assert Fill(' ', l) + core + Fill(' ', r) == Fill(' ', l) + (core + Fill(' ', r));
    SkipFill(l, core + Fill(' ', r));
    DropFill(core, r);
  }

  /** A sign, any number of zeros and the digits read as the number. */
  lemma {:induction false} CoreReads(v: int, flags: Flags, z: nat, body: string, b: nat)
    requires body != "" && (forall i :: 0 <= i < |body| ==> body[i] !in " +-")
    requires Eval(body, b) == Abs(v)
    ensures var core := Sign(v, flags) + Fill('0', z) + body;
      && core != "" && core[0] != ' ' && core[|core| - 1] != ' '
      && (if core[0] == '-' then -(Eval(core[1..], b) as int)
          else if core[0] == '+' then Eval(core[1..], b)
          else Eval(core, b)) == v
  {
    var sign, rest := Sign(v, flags), Fill('0', z) + body;
    var core := sign + Fill('0', z) + body;
    ZerosInFront(z, body, b);
    assert core == sign + rest && core[|sign|..] == rest;
    assert rest[0] !in " +-";
  }

  /** Where the padding of a formatted number goes: spaces, zeros behind the sign, spaces. */
  function Padding(v: int, b: nat, digits: nat, width: nat, flags: Flags): (nat, nat, nat)
    requires IsBase(b)
  {
    var pad: nat := Max(0, width - |Sign(v, flags)| - |DigitText(Abs(v), b, digits)|);
    if flags.left then (0, 0, pad) else if flags.zero && digits == 0 then (0, pad, 0) else (pad, 0, 0)
  }

  lemma TextShape(v: int, b: nat, digits: nat, width: nat, flags: Flags)
    requires IsBase(b)
    ensures var (l, z, r) := Padding(v, b, digits, width, flags);
      IntText(v, b, digits, width, flags)
        == Fill(' ', l) + (Sign(v, flags) + Fill('0', z) + DigitText(Abs(v), b, digits)) + Fill(' ', r)
  {
    var sign, body := Sign(v, flags), DigitText(Abs(v), b, digits);
    assert Fill(' ', 0) == "" && Fill('0', 0) == "";
    assert sign + "" == sign;
  }

  /** The padding the signed printer itself puts in front of the sign, and behind it. */
  function Front(v: int, digits: nat, pad: int, flags: Flags): string {
    Fill(' ', if !flags.left && (!flags.zero || digits != 0) then pad else 0)
    + Sign(v, flags)
    + Fill('0', if !flags.left && flags.zero && digits == 0 then pad else 0)
  }

  /**
   How the work is shared: the signed printer puts out the spaces or the zeros in
   front, and leaves to the unsigned one what is left of the field.
   */
  lemma {:induction false} IntPieces(v: int, b: nat, digits: nat, width: nat, flags: Flags, field: nat, rest: nat)
    requires IsBase(b)
    requires field == Max(0, width - |Sign(v, flags)|)
    requires rest == if flags.left then field else Min(field, Max(digits, NumWidth(Abs(v), b)))
    ensures IntText(v, b, digits, width, flags)
         == Front(v, digits, field - Max(digits, NumWidth(Abs(v), b)), flags) + UnsignedText(Abs(v), b, digits, rest, flags)
  {
    var sign, body := Sign(v, flags), DigitText(Abs(v), b, digits);
    var pad := field - |body|;
    var number := UnsignedText(Abs(v), b, digits, rest, flags);
    var front := Front(v, digits, pad, flags);
    assert Fill(' ', pad) == Fill(' ', width - |sign| - |body|);
    assert Fill('0', pad) == Fill('0', width - |sign| - |body|);
    if flags.left {
      assert front == sign;
      assert number == body + Fill(' ', pad);
      assert sign + (body + Fill(' ', pad)) == sign + body + Fill(' ', pad);
    } else {
      assert number == body;
      if flags.zero && digits == 0 {
        assert front == sign + Fill('0', pad);
      } else {
        assert front == Fill(' ', pad) + sign;
      }
    }
  }

  /** The round trip: whatever width, precision and flags, the text reads back as the number. */
  lemma IntRoundTrip(v: int, b: nat, digits: nat, width: nat, flags: Flags)
    requires IsBase(b)
    ensures ReadInt(IntText(v, b, digits, width, flags), b) == v
  {
    var body := DigitText(Abs(v), b, digits);
    WidthBound(Abs(v), b, |body|);
    EvalPositional(Abs(v), b, |body|);
    DigitsOnly(Abs(v), b, |body|);
    var (l, z, r) := Padding(v, b, digits, width, flags);
    CoreReads(v, flags, z, body, b);
    SpacesIgnored(l, Sign(v, flags) + Fill('0', z) + body, r);
    TextShape(v, b, digits, width, flags);
  }

  lemma UnsignedIsInt(v: nat, b: nat, digits: nat, width: nat, flags: Flags)
    requires IsBase(b)
    ensures UnsignedText(v, b, digits, width, flags) == IntText(v, b, digits, width, flags.(plus := false))
  {
    assert Sign(v, flags.(plus := false)) == "";
  }

  /** The same for a number printed without a sign. */
  lemma UnsignedRoundTrip(v: nat, b: nat, digits: nat, width: nat, flags: Flags)
    requires IsBase(b)
    ensures ReadInt(UnsignedText(v, b, digits, width, flags), b) == v
  {
    IntRoundTrip(v, b, digits, width, flags.(plus := false));
    UnsignedIsInt(v, b, digits, width, flags);
  }

  /* The divisor ------------------------------------------------------------------------ */

  /** Precisions whose leading digit has a place value that fits 32 bits. */
  predicate PrecisionFits(b: nat, digits: nat)
    requires IsBase(b)
  {
    digits == 0 || Pow(b, digits - 1) < TWO32
  }

  /** `Digit *= Base` on 32 bits. */
  function Scaled(digit: u32, b: nat): (r: u32)
    requires IsBase(b)
    ensures r == digit * b % TWO32
  {
    if b == 10 then digit * 10 % TWO32 else digit * 16 % TWO32
  }

  /** The divisor the search loop ends with; 0 stands for the division by zero it runs into. */
  function Divisor(v: u32, b: nat, digits: nat, digit: u32): u32
    requires IsBase(b)
    decreases digits, TWO32 - digit
  {
    if digits > 1 then Divisor(v, b, digits - 1, Scaled(digit, b))
    else if digit == 0 || v / digit < b then digit
    else DivisorGrows(v, b, digit); Divisor(v, b, digits, Scaled(digit, b))
  }

  lemma DivisorGrows(v: u32, b: nat, digit: u32)
    requires IsBase(b) && digit > 0 && v / digit >= b
    ensures digit < digit * b <= v && Scaled(digit, b) == digit * b
  {
  }

  /** How many digits the output loop takes off. */
  function Steps(digit: nat, b: nat): nat
    requires IsBase(b)
  {
    if digit == 0 then 0 else 1 + Steps(digit / b, b)
  }

  lemma {:induction false} StepsOfPower(b: nat, k: nat)
    requires IsBase(b)
    ensures Steps(Pow(b, k), b) == k + 1
  {
    if k > 0 {
      StepsOfPower(b, k - 1);
      assert Pow(b, k) / b == Pow(b, k - 1);
    } else {
      assert Steps(1, b) == 1 + Steps(0, b);
    }
    PowPositive(b, k);
  }

  lemma {:induction false} StepsBound(d: nat, b: nat, k: nat)
    requires IsBase(b) && d < Pow(b, k)
    ensures Steps(d, b) <= k
    decreases k
  {
    if d > 0 {
      if b == 10 {
        StepsBound(d / 10, 10, k - 1);
      } else {
        StepsBound(d / 16, 16, k - 1);
      }
    }
  }

  lemma PowStep(b: nat, j: nat, k: nat)
    requires IsBase(b) && j < k && Pow(b, k) < TWO32
    ensures Pow(b, j) < TWO32 && Scaled(Pow(b, j), b) == Pow(b, j + 1) < TWO32
  {
    PowMonotone(b, j, k);
    if j + 1 < k { PowMonotone(b, j + 1, k); }
  }

  /** The search goes on to the next power exactly while the number has more digits. */
  lemma SearchStep(v: u32, b: nat, j: nat, d: u32)
    requires IsBase(b) && d == Pow(b, j)
    ensures d > 0
    ensures v / d < b <==> NumWidth(v, b) <= j + 1
    ensures v / d >= b ==> Scaled(d, b) == Pow(b, j + 1)
  {
    DivideByPower(v, b, j);
    WidthBound(v, b, j + 1);
    if v / d >= b {
      DivisorGrows(v, b, d);
    }
  }

  /** With a precision that fits, the loop finds the place value of the first digit to print. */
  lemma {:induction false} DivisorIsPower(v: u32, b: nat, digits: nat, j: nat, d: u32)
    requires IsBase(b) && d == Pow(b, j) && Pow(b, Max(1, digits) + j - 1) < TWO32
    ensures Divisor(v, b, digits, d) == Pow(b, Max(Max(1, digits) + j, NumWidth(v, b)) - 1)
    decreases digits, NumWidth(v, b) - j
  {
    if digits > 1 {
      PowStep(b, j, digits + j - 1);
      DivisorIsPower(v, b, digits - 1, j + 1, Scaled(d, b));
    } else {
      SearchStep(v, b, j, d);
      if v / d >= b {
        DivisorIsPower(v, b, digits, j + 1, Scaled(d, b));
      }
    }
  }

  lemma PowersOver32()
    ensures Pow(10, 10) == 10_000_000_000 && Pow(10, 9) == 1_000_000_000
    ensures Pow(16, 8) == TWO32
  {
  }

  lemma {:induction false} BeyondLimit(b: nat, digits: nat)
    requires IsBase(b) && !PrecisionFits(b, digits)
    ensures TWO32 <= Pow(b, if b == 10 then 10 else 8)
    ensures digits > if b == 10 then 10 else 8
  {
    PowersOver32();
    if b == 10 && digits < 10 {
      PowMonotone(10, digits - 1, 9);
    } else if b == 16 && digits < 9 {
      PowMonotone(16, digits - 1, 8);
    }
  }

  /**
   The exact limit of the precision: the output loop prints as many digits as
   the width loop has announced exactly when the place value of the first digit
   fits 32 bits.  (Beyond it the divisor wraps.)
   */
  lemma {:induction false} PrecisionExact(v: u32, b: nat, digits: nat)
    requires IsBase(b)
    ensures Steps(Divisor(v, b, digits, 1), b) == Max(digits, NumWidth(v, b)) <==> PrecisionFits(b, digits)
  {
    var d := Divisor(v, b, digits, 1);
    assert Pow(b, 0) == 1;
    if PrecisionFits(b, digits) {
      DivisorIsPower(v, b, digits, 0, 1);
      StepsOfPower(b, Max(Max(1, digits), NumWidth(v, b)) - 1);
    } else {
      BeyondLimit(b, digits);
      StepsBound(d, b, if b == 10 then 10 else 8);
    }
  }
}
