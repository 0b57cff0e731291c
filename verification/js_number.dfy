/** The few JavaScript number operations the exam platform relies on, stated over
    unbounded integers and exact reals. */
module JsNumber {
  import opened Wrappers

  /** `Math.floor(a / b)` for a positive divisor: the greatest q with b*q <= a. */
  function FloorDiv(a: int, b: int): (q: int)
    requires b > 0
    ensures b * q <= a < b * q + b
  {
    a / b
  }

  /** JavaScript's `%` operator, which truncates: the remainder keeps the sign of the
      dividend (Dafny's own `%` never goes negative). */
  function Rem(a: int, b: int): (r: int)
    requires b > 0
    ensures a >= 0 ==> 0 <= r < b && r == a - b * FloorDiv(a, b)
    ensures a < 0 ==> -b < r <= 0 && r == -Rem(-a, b)
    decreases if a < 0 then 1 else 0
  {
    if a >= 0 then a % b else -((-a) % b)
  }

  /** For a non-negative dividend `Math.floor` and `%` split it exactly. */
  lemma FloorDivRemSplit(a: nat, b: int)
    requires b > 0
    ensures FloorDiv(a, b) * b + Rem(a, b) == a
    ensures 0 <= Rem(a, b) < b
  {
  }

  predicate IsDigit(c: char) {
    '0' <= c <= '9'
  }

  predicate AllDigits(s: string) {
    forall i :: 0 <= i < |s| ==> IsDigit(s[i])
  }

  function DigitChar(d: nat): (c: char)
    requires d < 10
    ensures IsDigit(c)
  {
    ('0' as int + d) as char
  }

  function DigitValue(c: char): (d: nat)
    requires IsDigit(c)
    ensures d < 10 && DigitChar(d) == c
  {
    c as int - '0' as int
  }

  /** The decimal text `String(n)` produces for a natural number: digits only,
      no leading zero. */
  function Decimal(n: nat): (s: string)
    ensures |s| >= 1 && AllDigits(s)
    ensures |s| > 1 ==> s[0] != '0'
    decreases n
  {
    if n < 10 then [DigitChar(n)] else Decimal(n / 10) + [DigitChar(n % 10)]
  }

  /** The value a string of decimal digits denotes. */
  function DigitsValue(s: string): nat
    requires AllDigits(s)
  {
    if s == [] then 0 else DigitsValue(s[..|s| - 1]) * 10 + DigitValue(s[|s| - 1])
  }

  /** Reads a non-empty run of decimal digits; anything else is rejected. */
  function ParseNat(s: string): (r: Option<nat>)
    ensures r.Some? <==> |s| >= 1 && AllDigits(s)
  {
    if |s| >= 1 && AllDigits(s) then Some(DigitsValue(s)) else None
  }

  /** Reading back the decimal text of n gives n. */
  lemma {:induction false} DecimalRoundTrip(n: nat)
    ensures ParseNat(Decimal(n)) == Some(n)
    decreases n
  {
    var s := Decimal(n);
    if n < 10 {
      assert s == [DigitChar(n)];
      assert s[..|s| - 1] == [];
      assert DigitValue(DigitChar(n)) == n;
      assert DigitsValue(s) == DigitsValue(s[..|s| - 1]) * 10 + DigitValue(s[|s| - 1]);
    } else {
      DecimalRoundTrip(n / 10);
      var p := Decimal(n / 10);
      assert s[..|s| - 1] == p;
      assert DigitValue(s[|s| - 1]) == n % 10;
    }
  }

  /** The decimal text of an integer, with a leading minus sign when negative. */
  function IntToString(i: int): (s: string)
    ensures i >= 0 ==> s == Decimal(i)
    ensures i < 0 ==> s == "-" + Decimal(-i)
  {
    if i < 0 then "-" + Decimal(-i) else Decimal(i)
  }

  /** The number of hundredths `x.toFixed(2)` keeps, computed on exact decimals:
      the magnitude is rounded to the nearest hundredth with ties upward, and the
      sign is put back, so ties go away from zero. */
  function HundredthsCount(x: real): (k: int)
    ensures -0.5 <= k as real - x * 100.0 <= 0.5
    ensures x >= 0.0 ==> k >= 0
    ensures x <= 0.0 ==> k <= 0
  {
    if x < 0.0 then -((-x * 100.0 + 0.5).Floor) else (x * 100.0 + 0.5).Floor
  }

  /** The value of `Number(x.toFixed(2))`: a whole number of hundredths within half a
      hundredth of x, with the sign of x. */
  function Hundredths(x: real): (r: real)
    ensures -0.005 <= r - x <= 0.005
    ensures x >= 0.0 ==> r >= 0.0
    ensures x <= 0.0 ==> r <= 0.0
  {
    HundredthsCount(x) as real / 100.0
  }

  /** A value that is already a whole number of hundredths is left as it is. */
  lemma HundredthsExact(k: int)
    ensures Hundredths(k as real / 100.0) == k as real / 100.0
  {
    var x := k as real / 100.0;
    assert x * 100.0 == k as real;
    assert HundredthsCount(x) == k;
  }

  /** Rounding to hundredths keeps the order of its arguments. */
  lemma HundredthsMonotone(x: real, y: real)
    requires x <= y
    ensures Hundredths(x) <= Hundredths(y)
  {
    if x < 0.0 && y < 0.0 {
      assert (-y * 100.0 + 0.5).Floor <= (-x * 100.0 + 0.5).Floor;
    } else if 0.0 <= x {
      assert (x * 100.0 + 0.5).Floor <= (y * 100.0 + 0.5).Floor;
    }
  }

  /** A bound that is a whole number of hundredths survives the rounding. */
  lemma HundredthsWithin(x: real, lo: int, hi: int)
    requires lo as real / 100.0 <= x <= hi as real / 100.0
    ensures lo as real / 100.0 <= Hundredths(x) <= hi as real / 100.0
  {
    HundredthsMonotone(lo as real / 100.0, x);
    HundredthsMonotone(x, hi as real / 100.0);
    HundredthsExact(lo);
    HundredthsExact(hi);
  }

  /** Dividing by a positive count keeps a bound scaled by that count. */
  lemma QuotientAtMost(t: real, n: real, m: real)
    requires n > 0.0 && t <= n * m
    ensures t / n <= m
  {
    var d := n * m - t;
    assert t / n == m - d / n;
    assert d / n >= 0.0;
  }
}
