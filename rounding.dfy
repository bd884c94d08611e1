/**
 * Python's rounding of a float, taken on the exact value: round(x) goes to
 * the nearest integer and breaks ties towards the even one; round(x, 2)
 * followed by the ":.2f" format prints the nearest hundredth with two
 * decimals.
 */
module Rounding {
  import opened Wrappers
  import opened Decimal

  /** round(x) for a float x. */
  function RoundHalfEven(x: real): (n: int)
    ensures -0.5 <= n as real - x <= 0.5
    ensures (n as real - x == 0.5 || x - n as real == 0.5) ==> n % 2 == 0
  {
    var f := x.Floor;
    var rest := x - f as real;
    if rest < 0.5 then f
    else if rest > 0.5 then f + 1
    else if f % 2 == 0 then f else f + 1
  }

  /** A positive amount rounds to 0 exactly when it is at most one half (0.5 itself goes to the even 0). */
  lemma RoundPositive(x: real)
    requires x > 0.0
    ensures RoundHalfEven(x) >= 0
    ensures RoundHalfEven(x) == 0 <==> x <= 0.5
  {
  }

  /** A whole number of hundredths, printed with two decimals. */
  function CentsText(cents: nat): string {
    NatToString(cents / 100) + "." + CentsDigits(cents)
  }

  /** f"{round(x, 2):.2f}" for x >= 0. */
  function Fixed2(x: real): string
    requires x >= 0.0
  {
    CentsText(RoundHalfEven(x * 100.0))
  }

  /** The printed amount is digits, a point, and exactly two digits. */
  lemma Fixed2Shape(x: real)
    requires x >= 0.0
    ensures var s := Fixed2(x);
            && |s| >= 4 && s[|s| - 3] == '.'
            && AllDigits(s[..|s| - 3]) && AllDigits(s[|s| - 2..])
  {
    var cents := RoundHalfEven(x * 100.0);
    var head := NatToString(cents / 100);
    assert (head + "." + CentsDigits(cents))[..|head|] == head;
  }

  lemma TwoDigitsValue(d1: nat, d0: nat)
    requires d1 < 10 && d0 < 10
    ensures DigitsValue([DigitChar(d1), DigitChar(d0)]) == 10 * d1 + d0
  {
    var f := [DigitChar(d1), DigitChar(d0)];
    var g := [DigitChar(d1)];
    assert g[..0] == [];
    assert DigitsValue(g) == d1;
    assert f[..1] == g;
    assert DigitsValue(f) == 10 * DigitsValue(g) + DigitValue(f[1]);
  }

  lemma CentsSplit(cents: nat)
    ensures (cents / 100) as real + (cents % 100) as real / 100.0 == cents as real / 100.0
  {
    assert cents == 100 * (cents / 100) + cents % 100;
  }

  /** The two digits after the point of CentsText(cents). */
  function CentsDigits(cents: nat): (frac: string)
    ensures |frac| == 2 && AllDigits(frac)
  {
    [DigitChar(cents % 100 / 10), DigitChar(cents % 10)]
  }

  /** The whole and fractional digits of CentsText(cents) denote cents / 100. */
  lemma CentsValue(cents: nat)
    ensures FixedValue(NatToString(cents / 100), CentsDigits(cents)) == cents as real / 100.0
  {
    DigitsValueOfNatToString(cents / 100);
    TwoDigitsValue(cents % 100 / 10, cents % 10);
    assert DigitsValue(CentsDigits(cents)) == cents % 100;
    assert Pow10(2) == 100;
    CentsSplit(cents);
  }

  /** Printed hundredths read back, as a whole decimal, as that many hundredths. */
  lemma ScanCentsText(cents: nat)
    ensures var s := CentsText(cents);
            ScanDecimal(s) == Some(Scan(cents as real / 100.0, |s|))
  {
    ScanFixedPoint(NatToString(cents / 100), CentsDigits(cents));
    CentsValue(cents);
  }

  /**
   * The printed amount reads back, as a whole decimal, as a multiple of a
   * hundredth within half a hundredth of the exact amount.
   */
  lemma Fixed2Denotes(x: real)
    requires x >= 0.0
    ensures var s := Fixed2(x);
            && ScanDecimal(s).Some?
            && ScanDecimal(s).value.length == |s|
            && ScanDecimal(s).value.value == RoundHalfEven(x * 100.0) as real / 100.0
            && -0.005 <= ScanDecimal(s).value.value - x <= 0.005
  {
    ScanCentsText(RoundHalfEven(x * 100.0));
  }
}
