/** Numbers as text: the reference rendering, and the facts the divisor algorithm rests on. */
module Digits {
  predicate IsBase(b: nat) {
    b == 10 || b == 16
  }

  /* Arithmetic with a base, written out for the two there are. */

  function Times(b: nat, n: nat): nat
    requires IsBase(b)
  {
    if b == 10 then 10 * n else 16 * n
  }

  function Over(n: nat, b: nat): nat
    requires IsBase(b)
  {
    if b == 10 then n / 10 else n / 16
  }

  function Mod(n: nat, b: nat): (r: nat)
    requires IsBase(b)
    ensures r < b
  {
    if b == 10 then n % 10 else n % 16
  }

  function Pow(b: nat, k: nat): nat
    requires IsBase(b)
  {
    if k == 0 then 1 else Times(b, Pow(b, k - 1))
  }

  /** How many digits `v` has. */
  function NumWidth(v: nat, b: nat): (n: nat)
    requires IsBase(b)
    ensures n >= 1
  {
    if v < b then 1 else 1 + NumWidth(Over(v, b), b)
  }

  function DigitChar(d: nat): (c: char)
    requires d < 16
    ensures DigitValue(c) == d
  {
    if d < 10 then '0' + d as char else 'A' + (d - 10) as char
  }

  /** The last `n` digits of `v`, most significant first. */
  function Positional(v: nat, b: nat, n: nat): (s: string)
    requires IsBase(b)
    ensures |s| == n
  {
    if n == 0 then "" else Positional(Over(v, b), b, n - 1) + [DigitChar(Mod(v, b))]
  }

  /** The number a digit string stands for. */
  function Eval(s: string, b: nat): nat {
    if s == "" then 0 else Eval(s[..|s| - 1], b) * b + DigitValue(s[|s| - 1])
  }

  function DigitValue(c: char): nat {
    if '0' <= c <= '9' then c as int - '0' as int
    else if 'A' <= c <= 'F' then c as int - 'A' as int + 10
    else 0
  }

  lemma {:induction false} PowPositive(b: nat, k: nat)
    requires IsBase(b)
    ensures Pow(b, k) > 0
  {
    if k > 0 { PowPositive(b, k - 1); }
  }

  lemma {:induction false} PowMonotone(b: nat, j: nat, k: nat)
    requires IsBase(b) && j < k
    ensures Pow(b, j) < Pow(b, k)
    decreases k
  {
    PowPositive(b, j);
    if j < k - 1 { PowMonotone(b, j, k - 1); }
  }

  lemma {:induction false} WidthBound(v: nat, b: nat, k: nat)
    requires IsBase(b) && k >= 1
    ensures NumWidth(v, b) <= k <==> v < Pow(b, k)
    decreases k
  {
    if k == 1 {
      assert Pow(b, 1) == b * Pow(b, 0) == b;
    } else {
      WidthBound(v / b, b, k - 1);
      PowPositive(b, k - 1);
      if b == 10 {
        assert v / 10 < Pow(10, k - 1) <==> v < 10 * Pow(10, k - 1);
      } else {
        assert v / 16 < Pow(16, k - 1) <==> v < 16 * Pow(16, k - 1);
      }
    }
  }

  lemma {:induction false} EvalPositional(v: nat, b: nat, n: nat)
    requires IsBase(b) && v < Pow(b, n)
    ensures Eval(Positional(v, b, n), b) == v
    decreases n
  {
    if n > 0 {
      var s := Positional(v, b, n);
      assert s[..n - 1] == Positional(v / b, b, n - 1);
      DropLast(v, b, Pow(b, n - 1));
      EvalPositional(v / b, b, n - 1);
    }
  }

  lemma DropLast(v: nat, b: nat, p: nat)
    requires IsBase(b) && v < b * p
    ensures v / b < p && v / b * b + v % b == v
  {
  }

  lemma SplitLast(v: nat, m: nat, r: nat, b: nat)
    requires IsBase(b) && v == b * m + r
    ensures v / b == m + r / b && v % b == r % b
  {
  }

  /** Dropping the last digit drops it from the remainder. */
  lemma LeadingShift(v: nat, q: nat, r: nat, b: nat, p: nat)
    requires IsBase(b) && r < b * p && v == q * (b * p) + r
    ensures v / b == q * p + r / b && v % b == r % b && r / b < p
  {
    assert q * (b * p) == b * (q * p);
    SplitLast(v, q * p, r, b);
  }

  /** The leading digit comes off. */
  lemma {:induction false} LeadingDigit(v: nat, q: nat, r: nat, b: nat, n: nat)
    requires IsBase(b) && q < b && r < Pow(b, n) && v == q * Pow(b, n) + r
    ensures Positional(v, b, n + 1) == [DigitChar(q)] + Positional(r, b, n)
    decreases n
  {
    if n == 0 {
      assert v == q;
      assert Positional(v, b, 1) == Positional(v / b, b, 0) + [DigitChar(v % b)];
    } else {
      LeadingShift(v, q, r, b, Pow(b, n - 1));
      LeadingDigit(v / b, q, r / b, b, n - 1);
      LastDigits(v, r, [DigitChar(q)], b, n);
    }
  }

  lemma LastDigits(v: nat, r: nat, head: string, b: nat, n: nat)
    requires IsBase(b) && n > 0 && v % b == r % b
    requires Positional(v / b, b, n) == head + Positional(r / b, b, n - 1)
    ensures Positional(v, b, n + 1) == head + Positional(r, b, n)
  {
  }

  /** Whether the quotient by a power of the base is a digit. */
  lemma DivideByPower(v: nat, b: nat, n: nat)
    requires IsBase(b)
    ensures Pow(b, n) > 0
    ensures v / Pow(b, n) < b <==> v < Pow(b, n + 1)
  {
    PowPositive(b, n);
    Quotient(v, b, Pow(b, n));
  }

  lemma Quotient(v: nat, b: nat, p: nat)
    requires p > 0
    ensures v / p < b <==> v < b * p
  {
    var q := v / p;
    assert v == q * p + v % p;
    if q < b {
      assert (q + 1) * p <= b * p;
    } else {
      assert b * p <= q * p;
    }
  }

  lemma Remainder(v: nat, p: nat) returns (q: nat, r: nat)
    requires p > 0
    ensures q == v / p && r == v - q * p && v == q * p + r && r < p
  {
    q, r := v / p, v % p;
  }

  /** One step of the output loop: the digit taken off, and the place value of the next. */
  lemma DigitStep(v: nat, b: nat, n: nat) returns (q: nat, r: nat)
    requires IsBase(b) && v < Pow(b, n + 1)
    ensures Pow(b, n) > 0
    ensures q == v / Pow(b, n) && r == v - q * Pow(b, n)
    ensures q < b && r < Pow(b, n)
    ensures Positional(v, b, n + 1) == [DigitChar(q)] + Positional(r, b, n)
    ensures Pow(b, n) / b == if n == 0 then 0 else Pow(b, n - 1)
    ensures n > 0 ==> Pow(b, n - 1) > 0
  {
    if n > 0 { PowPositive(b, n - 1); }
    DivideByPower(v, b, n);
    q, r := Remainder(v, Pow(b, n));
    LeadingDigit(v, q, r, b, n);
    NextPlace(b, n);
  }

  lemma NextPlace(b: nat, n: nat)
    requires IsBase(b)
    ensures Pow(b, n) / b == if n == 0 then 0 else Pow(b, n - 1)
  {
  }
}
