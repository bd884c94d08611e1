/**
 * Decimal text: rendering non-negative integers, scanning a decimal number
 * ([sign] digits [. digits]) and trimming whitespace. Python's float() and
 * JavaScript's parseFloat are both built from the scanner below.
 */
module Decimal {
  import opened Wrappers

  predicate IsDigit(c: char) {
    '0' <= c <= '9'
  }

  predicate AllDigits(s: string) {
    forall i | 0 <= i < |s| :: IsDigit(s[i])
  }

  /** The ASCII whitespace JavaScript's trim removes; Python's strip also removes \x1c-\x1f. */
  predicate IsWhitespace(c: char) {
    c == ' ' || c == '\t' || c == '\n' || c == '\r' || c == '\U{0B}' || c == '\U{0C}'
  }

  function DigitValue(c: char): (d: nat)
    requires IsDigit(c)
    ensures d < 10
  {
    (c as int) - ('0' as int)
  }

  function DigitChar(d: nat): (c: char)
    requires d < 10
    ensures IsDigit(c) && DigitValue(c) == d
  {
    (('0' as int) + d) as char
  }

  /** The decimal text of n, as Python's str(int) and JavaScript's template strings print it. */
  function NatToString(n: nat): (s: string)
    ensures |s| >= 1 && AllDigits(s)
    ensures s[0] == '0' ==> n == 0
  {
    if n < 10 then [DigitChar(n)] else NatToString(n / 10) + [DigitChar(n % 10)]
  }

  /** The value of a string of decimal digits, most significant first. */
  function DigitsValue(s: string): nat
    requires AllDigits(s)
  {
    if s == [] then 0 else 10 * DigitsValue(s[..|s| - 1]) + DigitValue(s[|s| - 1])
  }

  lemma {:induction false} DigitsValueOfNatToString(n: nat)
    ensures DigitsValue(NatToString(n)) == n
  {
    if n >= 10 {
      var s := NatToString(n);
      assert s[..|s| - 1] == NatToString(n / 10);
      DigitsValueOfNatToString(n / 10);
    }
  }

  /** Two different numbers never print the same. */
  lemma NatToStringInjective(m: nat, n: nat)
    requires NatToString(m) == NatToString(n)
    ensures m == n
  {
    DigitsValueOfNatToString(m);
    DigitsValueOfNatToString(n);
  }

  /** The number of consecutive digits in s starting at index i. */
  function DigitRun(s: string, i: nat): (k: nat)
    requires i <= |s|
    ensures i + k <= |s|
    ensures forall j | i <= j < i + k :: IsDigit(s[j])
    ensures i + k == |s| || !IsDigit(s[i + k])
    decreases |s| - i
  {
    if i < |s| && IsDigit(s[i]) then 1 + DigitRun(s, i + 1) else 0
  }

  lemma {:induction false} DigitRunExact(s: string, i: nat, j: nat)
    requires i <= j <= |s|
    requires forall k | i <= k < j :: IsDigit(s[k])
    requires j == |s| || !IsDigit(s[j])
    ensures DigitRun(s, i) == j - i
    decreases j - i
  {
    if i < j {
      DigitRunExact(s, i + 1, j);
    }
  }

  function Pow10(k: nat): (p: nat)
    ensures p >= 1
  {
    if k == 0 then 1 else 10 * Pow10(k - 1)
  }

  /** The value of the digits intDigits "." frac. */
  function FixedValue(intDigits: string, frac: string): real
    requires AllDigits(intDigits) && AllDigits(frac)
  {
    DigitsValue(intDigits) as real + DigitsValue(frac) as real / Pow10(|frac|) as real
  }

  /** A scanned number: its value and how many characters it took. */
  datatype Scan = Scan(value: real, length: nat)

  /** True when s[i..] starts with a digit, or with a dot and a digit. */
  predicate StartsMagnitude(s: string, i: nat) {
    (i < |s| && IsDigit(s[i])) || (i + 1 < |s| && s[i] == '.' && IsDigit(s[i + 1]))
  }

  /** 1 when s starts with a sign, else 0. */
  function SignLength(s: string): (n: nat)
    ensures n <= |s| && n <= 1
    ensures n == 1 <==> |s| > 0 && (s[0] == '+' || s[0] == '-')
  {
    if |s| > 0 && (s[0] == '+' || s[0] == '-') then 1 else 0
  }

  /** True when s, after an optional sign, starts with a digit or with a dot and a digit. */
  predicate StartsNumber(s: string) {
    StartsMagnitude(s, SignLength(s))
  }

  /**
   * The longest unsigned decimal digits [. digits] at index i, with at least
   * one digit, and its value.
   */
  function ScanMagnitude(s: string, i: nat): (r: Option<Scan>)
    requires i <= |s|
    ensures r.Some? <==> StartsMagnitude(s, i)
    ensures r.Some? ==> 1 <= r.value.length && i + r.value.length <= |s|
  {
    var intLen := DigitRun(s, i);
    var dot := i + intLen;
    if dot < |s| && s[dot] == '.' then
      var fracLen := DigitRun(s, dot + 1);
      if intLen == 0 && fracLen == 0 then None
      else Some(Scan(FixedValue(s[i..dot], s[dot + 1..dot + 1 + fracLen]), intLen + 1 + fracLen))
    else if intLen == 0 then None
    else Some(Scan(DigitsValue(s[i..dot]) as real, intLen))
  }

  /**
   * The longest prefix of s of the form [+|-] digits [. digits] with at least
   * one digit, and its value. Exponents, "inf" and "nan" are not scanned.
   */
  function ScanDecimal(s: string): (r: Option<Scan>)
    ensures r.Some? <==> StartsNumber(s)
    ensures r.Some? ==> 1 <= r.value.length <= |s|
  {
    var signLen := SignLength(s);
    match ScanMagnitude(s, signLen)
    case None => None
    case Some(m) => Some(Scan(if signLen == 1 && s[0] == '-' then -m.value else m.value, signLen + m.length))
  }

  /** Digits s[i..j] followed by neither a digit nor a dot form the whole magnitude at i. */
  lemma ScanMagnitudeInteger(s: string, i: nat, j: nat)
    requires i < j <= |s|
    requires forall k | i <= k < j :: IsDigit(s[k])
    requires j == |s| || !(IsDigit(s[j]) || s[j] == '.')
    ensures ScanMagnitude(s, i) == Some(Scan(DigitsValue(s[i..j]) as real, j - i))
  {
    DigitRunExact(s, i, j);
  }

  /** A run of digits followed by neither a digit nor a dot scans as that run's value. */
  lemma ScanDigits(t: string, rest: string)
    requires |t| >= 1 && AllDigits(t)
    requires rest == [] || !(IsDigit(rest[0]) || rest[0] == '.')
    ensures ScanDecimal(t + rest) == Some(Scan(DigitsValue(t) as real, |t|))
  {
    var s := t + rest;
    assert s[..|t|] == t;
    assert forall k | 0 <= k < |t| :: s[k] == t[k];
    assert |t| < |s| ==> s[|t|] == rest[0];
    ScanMagnitudeInteger(s, 0, |t|);
    assert s[0..|t|] == t;
    assert SignLength(s) == 0;
  }

  /** Digits s[i..dot], a dot, then digits s[dot + 1..j] running to the end form the whole magnitude at i. */
  lemma ScanMagnitudeFixed(s: string, i: nat, dot: nat, j: nat)
    requires i < dot < j <= |s| && j == |s|
    requires forall k | i <= k < dot :: IsDigit(s[k])
    requires s[dot] == '.'
    requires forall k | dot < k < j :: IsDigit(s[k])
    ensures ScanMagnitude(s, i) == Some(Scan(FixedValue(s[i..dot], s[dot + 1..j]), j - i))
  {
    DigitRunExact(s, i, dot);
    DigitRunExact(s, dot + 1, j);
  }

  /** "ddd.ddd" scans back, whole, to the value of its two digit runs. */
  lemma ScanFixedPoint(t: string, frac: string)
    requires |t| >= 1 && AllDigits(t) && |frac| >= 1 && AllDigits(frac)
    ensures var s := t + "." + frac;
            ScanDecimal(s) == Some(Scan(FixedValue(t, frac), |s|))
  {
    var s := t + "." + frac;
    assert forall k | 0 <= k < |t| :: s[k] == t[k];
    assert forall k | |t| + 1 <= k < |s| :: s[k] == frac[k - |t| - 1];
    assert s[|t|] == '.';
    ScanMagnitudeFixed(s, 0, |t|, |s|);
    assert s[0..|t|] == t;
    assert s[|t| + 1..|s|] == frac;
    assert SignLength(s) == 0;
  }

  /** u is digits, a dot at index d, then digits, with at least one digit in all. */
  predicate DotAt(u: string, d: nat) {
    d < |u| && u[d] == '.' && 2 <= |u| && AllDigits(u[..d]) && AllDigits(u[d + 1..])
  }

  /** u is an unsigned decimal numeral: digits, or digits "." digits with a digit on at least one side. */
  predicate UnsignedNumeral(u: string) {
    (1 <= |u| && AllDigits(u)) || exists d: nat | d < |u| :: DotAt(u, d)
  }

  /** A numeral has at most one dot. */
  lemma DotAtUnique(u: string, d: nat, e: nat)
    requires DotAt(u, d) && DotAt(u, e)
    ensures d == e
  {
  }

  /** The value an unsigned numeral denotes. */
  ghost function UnsignedValue(u: string): real
    requires UnsignedNumeral(u)
  {
    if AllDigits(u) then DigitsValue(u) as real
    else
      var d: nat :| DotAt(u, d);
      FixedValue(u[..d], u[d + 1..])
  }

  /** t is a decimal numeral: an optional sign, then an unsigned numeral, and nothing else. */
  predicate IsNumeral(t: string) {
    UnsignedNumeral(t[SignLength(t)..])
  }

  /** The value a numeral denotes; a leading minus negates it. */
  ghost function NumeralValue(t: string): real
    requires IsNumeral(t)
  {
    var v := UnsignedValue(t[SignLength(t)..]);
    if SignLength(t) == 1 && t[0] == '-' then -v else v
  }

  lemma {:induction false} DigitRunAtLeast(s: string, i: nat, j: nat)
    requires i <= j <= |s|
    requires forall k | i <= k < j :: IsDigit(s[k])
    ensures DigitRun(s, i) >= j - i
    decreases j - i
  {
    if i < j {
      DigitRunAtLeast(s, i + 1, j);
    }
  }

  /** What ScanMagnitude takes at i is a numeral of the value it reports. */
  lemma MagnitudeReadsNumeral(s: string, i: nat)
    requires i <= |s| && ScanMagnitude(s, i).Some?
    ensures var e := i + ScanMagnitude(s, i).value.length;
            UnsignedNumeral(s[i..e]) && UnsignedValue(s[i..e]) == ScanMagnitude(s, i).value.value
  {
    var intLen := DigitRun(s, i);
    var dot := i + intLen;
    var e := i + ScanMagnitude(s, i).value.length;
    var u := s[i..e];
    assert u[..intLen] == s[i..dot];
    if dot < |s| && s[dot] == '.' {
      assert u[intLen + 1..] == s[dot + 1..e];
      assert DotAt(u, intLen);
      forall d: nat | DotAt(u, d) ensures d == intLen {
        DotAtUnique(u, d, intLen);
      }
    } else {
      assert u == s[i..dot];
    }
  }

  /** No numeral at i is longer than what ScanMagnitude takes. */
  lemma MagnitudeNoLonger(s: string, i: nat, k: nat)
    requires i <= k <= |s| && UnsignedNumeral(s[i..k])
    ensures ScanMagnitude(s, i).Some? && k <= i + ScanMagnitude(s, i).value.length
  {
    var u := s[i..k];
    if 1 <= |u| && AllDigits(u) {
      DigitRunAtLeast(s, i, k);
    } else {
      var d: nat :| DotAt(u, d);
      assert DotAt(u, d);
      assert d < |u|;
      assert |u| == k - i;
      forall t | i <= t < i + d ensures IsDigit(s[t]) {
        assert s[t] == u[..d][t - i];
      }
      DigitRunExact(s, i, i + d);
      forall t | i + d + 1 <= t < k ensures IsDigit(s[t]) {
        assert s[t] == u[d + 1..][t - i - d - 1];
      }
      DigitRunAtLeast(s, i + d + 1, k);
    }
  }

  /**
   * ScanDecimal reads the longest prefix of s that is a numeral, and reports
   * its value; when it reads nothing, no prefix is a numeral.
   */
  lemma ScanDecimalLongest(s: string)
    ensures ScanDecimal(s).Some? ==>
              var n := ScanDecimal(s).value.length;
              IsNumeral(s[..n]) && NumeralValue(s[..n]) == ScanDecimal(s).value.value
    ensures forall k | 0 <= k <= |s| && IsNumeral(s[..k]) ::
              ScanDecimal(s).Some? && k <= ScanDecimal(s).value.length
  {
    var b := SignLength(s);
    if ScanDecimal(s).Some? {
      MagnitudeReadsNumeral(s, b);
      var n := ScanDecimal(s).value.length;
      assert s[..n][b..] == s[b..n];
    }
    forall k | 0 <= k <= |s| && IsNumeral(s[..k])
      ensures ScanDecimal(s).Some? && k <= ScanDecimal(s).value.length
    {
      assert SignLength(s[..k]) == b;
      assert s[..k][b..] == s[b..k];
      MagnitudeNoLonger(s, b, k);
    }
  }

  /** A sign (or none), then digits: a numeral of the digits' value, negated after a minus. */
  lemma SignedDigits(sign: string, t: string)
    requires sign == "" || sign == "+" || sign == "-"
    requires 1 <= |t| && AllDigits(t)
    ensures IsNumeral(sign + t)
    ensures NumeralValue(sign + t) == if sign == "-" then -(DigitsValue(t) as real) else DigitsValue(t) as real
  {
    var s := sign + t;
    assert SignLength(s) == |sign|;
    assert s[|sign|..] == t;
  }

  /** A sign (or none), digits, a dot and digits: a numeral of the fixed-point value, negated after a minus. */
  lemma SignedFixed(sign: string, t: string, frac: string)
    requires sign == "" || sign == "+" || sign == "-"
    requires AllDigits(t) && AllDigits(frac) && 1 <= |t| + |frac|
    ensures IsNumeral(sign + t + "." + frac)
    ensures NumeralValue(sign + t + "." + frac) == if sign == "-" then -FixedValue(t, frac) else FixedValue(t, frac)
  {
    var s := sign + t + "." + frac;
    var u := t + "." + frac;
    assert SignLength(s) == |sign|;
    assert s[|sign|..] == u;
    assert u[..|t|] == t && u[|t| + 1..] == frac;
    assert DotAt(u, |t|);
    forall d: nat | DotAt(u, d) ensures d == |t| {
      DotAtUnique(u, d, |t|);
    }
  }

  /** s without its leading whitespace. */
  function TrimStart(s: string): (t: string)
    ensures |t| <= |s| && t == s[|s| - |t|..]
    ensures forall i | 0 <= i < |s| - |t| :: IsWhitespace(s[i])
    ensures t == [] || !IsWhitespace(t[0])
  {
    if |s| > 0 && IsWhitespace(s[0]) then TrimStart(s[1..]) else s
  }

  /** s without its trailing whitespace. */
  function TrimEnd(s: string): (t: string)
    ensures |t| <= |s| && t == s[..|t|]
    ensures forall i | |t| <= i < |s| :: IsWhitespace(s[i])
    ensures t == [] || !IsWhitespace(s[|t| - 1])
  {
    if |s| > 0 && IsWhitespace(s[|s| - 1]) then TrimEnd(s[..|s| - 1]) else s
  }

  /** s without whitespace at either end (str.strip in Python, String.prototype.trim in JavaScript). */
  function Trim(s: string): string {
    TrimEnd(TrimStart(s))
  }

  /** Trimming leaves nothing exactly when the string is all whitespace. */
  lemma TrimEmptyIffBlank(s: string)
    ensures Trim(s) == "" <==> forall i | 0 <= i < |s| :: IsWhitespace(s[i])
  {

  }

  /** A string that neither starts nor ends with whitespace is its own trim. */
  lemma TrimUnchanged(s: string)
    requires |s| > 0 && !IsWhitespace(s[0]) && !IsWhitespace(s[|s| - 1])
    ensures Trim(s) == s
  {
    assert TrimStart(s) == s;
  }
}
