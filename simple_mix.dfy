/**
 * The two-component alligation endpoint (POST /simple): read a1, a2, m and S,
 * check that m lies strictly between a1 and a2, split S in the proportion
 * (a2 - m) : (m - a1), reject non-positive quantities, reduce the rounded
 * quantities to a ratio with gcd, and re-check the total. Amounts are exact
 * reals here; the endpoint computes with floats.
 */
module SimpleMix {
  import opened Wrappers
  import opened Json
  import opened Decimal
  import opened Euclid
  import opened Rounding

  /** Why the endpoint answers with an error body (status 400). */
  datatype SimpleError =
    | KeyMissing(key: string)                  // KeyError from data[key]
    | NotAFloat(key: string)                   // ValueError or TypeError from float(data[key])
    | NotBetween                               // "m mora biti između a1 i a2"
    | InvalidQuantities                        // "Izračunate vrijednosti nisu valjane. Provjerite ulazne podatke."
    | ModuloByZero                             // ZeroDivisionError from gcd(0, 0)
    | Inconsistent(total: real, expected: real) // "Račun nije konzistentan: ..."

  /** The success body: quantities, quantities_formatted and simplified_ratio. */
  datatype SimpleResponse = SimpleResponse(quantities: seq<real>, quantitiesFormatted: seq<string>, simplifiedRatio: string)

  /** The four request fields after float(). */
  datatype Params = Params(a1: real, a2: real, m: real, s: real)

  /** Allowed difference between x1 + x2 and S. */
  const Tolerance: real := 0.001

  /** Python's float(str): surrounding whitespace is stripped and the rest must be one decimal number. */
  function PyFloatOfString(s: string): (r: Option<real>)
    ensures r.Some? ==> StartsNumber(Trim(s))
  {
    var t := Trim(s);
    match ScanDecimal(t)
    case Some(scan) => if scan.length == |t| then Some(scan.value) else None
    case None => None
  }

  /** float(str) succeeds exactly when the stripped text is, as a whole, a numeral, and returns its value. */
  lemma PyFloatReadsNumeral(s: string)
    ensures PyFloatOfString(s).Some? <==> IsNumeral(Trim(s))
    ensures PyFloatOfString(s).Some? ==> PyFloatOfString(s).value == NumeralValue(Trim(s))
  {
    var t := Trim(s);
    ScanDecimalLongest(t);
    assert t[..|t|] == t;
  }

  /** A negative field reads as its negative value. */
  lemma NegativeFieldReads()
    ensures PyFloatOfString("-2.5") == Some(-2.5)
  {
    var t := "-2.5";
    TrimUnchanged(t);
    PyFloatReadsNumeral(t);
    SignedFixed("-", "2", "5");
    assert "-" + "2" + "." + "5" == t;
    assert FixedValue("2", "5") == 2.5 by {
      assert DigitsValue("5") == 5 && DigitsValue("2") == 2;
      assert Pow10(1) == 10;
    }
  }

  /**
   * Text after a number is not ignored: float("12abc") fails, unlike parseFloat. The tail
   * starts with an ASCII character that cannot continue a Python number (a digit, a point,
   * an exponent mark or an underscore could) and ends with an ASCII character that strip()
   * keeps.
   */
  lemma TrailingTextRejected(t: string, rest: string)
    requires 1 <= |t| && AllDigits(t)
    requires |rest| > 0 && !IsDigit(rest[0]) && rest[0] !in ".eE_" && rest[0] < '\U{80}'
    requires ' ' < rest[|rest| - 1] < '\U{80}'
    ensures PyFloatOfString(t + rest).None?
  {
    var s := t + rest;
    assert s[0] == t[0] && s[|s| - 1] == rest[|rest| - 1];
    TrimUnchanged(s);
    ScanDigits(t, rest);
  }

  /** Python's float(v) for a JSON value; None stands for the ValueError or TypeError it raises. */
  function PyFloat(v: Json): (r: Option<real>)
    ensures v.JNum? ==> r == Some(v.n)
    ensures v.JBool? ==> r == Some(if v.b then 1.0 else 0.0)
    ensures v.JNull? || v.JArr? || v.JObj? ==> r.None?
  {
    match v
    case JNum(n) => Some(n)
    case JBool(b) => Some(if b then 1.0 else 0.0)
    case JStr(s) => PyFloatOfString(s)
    case _ => None
  }

  predicate Readable(data: map<string, Json>, key: string) {
    key in data && PyFloat(data[key]).Some?
  }

  /** The exception data[key] or float(data[key]) raises when the field is not readable. */
  function FieldError(data: map<string, Json>, key: string): SimpleError {
    if key in data then NotAFloat(key) else KeyMissing(key)
  }

  /** float(data[key]). */
  function ReadFloat(data: map<string, Json>, key: string): (r: Result<real, SimpleError>)
    ensures r.Ok? <==> Readable(data, key)
    ensures r.Ok? ==> Some(r.value) == PyFloat(data[key])
    ensures r.Err? ==> r.error == FieldError(data, key)
  {
    if key !in data then Err(KeyMissing(key))
    else match PyFloat(data[key])
      case Some(x) => Ok(x)
      case None => Err(NotAFloat(key))
  }

  /** The four fields, read in the order a1, a2, m, S; the first that fails is reported. */
  function ReadParams(data: map<string, Json>): (r: Result<Params, SimpleError>)
    ensures r.Ok? <==> Readable(data, "a1") && Readable(data, "a2") && Readable(data, "m") && Readable(data, "S")
    ensures r.Ok? ==> Some(r.value.a1) == PyFloat(data["a1"]) && Some(r.value.a2) == PyFloat(data["a2"])
                      && Some(r.value.m) == PyFloat(data["m"]) && Some(r.value.s) == PyFloat(data["S"])
    ensures r.Err? ==> r.error.KeyMissing? || r.error.NotAFloat?
    ensures !Readable(data, "a1") ==> r == Err(FieldError(data, "a1"))
    ensures Readable(data, "a1") && !Readable(data, "a2") ==> r == Err(FieldError(data, "a2"))
    ensures Readable(data, "a1") && Readable(data, "a2") && !Readable(data, "m")
            ==> r == Err(FieldError(data, "m"))
    ensures Readable(data, "a1") && Readable(data, "a2") && Readable(data, "m") && !Readable(data, "S")
            ==> r == Err(FieldError(data, "S"))
  {
    var a1 :- ReadFloat(data, "a1");
    var a2 :- ReadFloat(data, "a2");
    var m :- ReadFloat(data, "m");
    var s :- ReadFloat(data, "S");
    Ok(Params(a1, a2, m, s))
  }

  function Min(x: real, y: real): real {
    if x <= y then x else y
  }

  function Max(x: real, y: real): real {
    if x <= y then y else x
  }

  function Abs(x: real): real {
    if x < 0.0 then -x else x
  }

  /** The range check: m strictly inside the interval spanned by a1 and a2. */
  predicate StrictlyBetween(p: Params) {
    Min(p.a1, p.a2) < p.m < Max(p.a1, p.a2)
  }

  /** The textbook solution of the two equations x1 + x2 = S and x1 * a1 + x2 * a2 = m * S. */
  function Split(p: Params): (real, real)
    requires p.a1 != p.a2
  {
    (p.s * (p.a2 - p.m) / (p.a2 - p.a1), p.s * (p.m - p.a1) / (p.a2 - p.a1))
  }

  /** The quantities as the endpoint computes them: the ratio terms scaled by k = S / (sum of the terms). */
  function Quantities(p: Params): (x: (real, real))
    requires p.a1 != p.a2
    ensures x.0 + x.1 == p.s
  {
    var x1Ratio := p.a2 - p.m;
    var x2Ratio := p.m - p.a1;
    var k := p.s / (x1Ratio + x2Ratio);
    assert x1Ratio * k + x2Ratio * k == (x1Ratio + x2Ratio) * k;
    (x1Ratio * k, x2Ratio * k)
  }

  /** The endpoint's way of computing the quantities agrees with the textbook solution. */
  lemma QuantitiesAreSplit(p: Params)
    requires p.a1 != p.a2
    ensures Quantities(p).0 == Split(p).0 && Quantities(p).1 == Split(p).1
  {
    var d := p.a2 - p.a1;
    assert (p.a2 - p.m) + (p.m - p.a1) == d;
    assert p.s / ((p.a2 - p.m) + (p.m - p.a1)) == p.s / d;
    ScaleByQuotient(p.a2 - p.m, p.s, d);
    ScaleByQuotient(p.m - p.a1, p.s, d);
  }

  lemma ScaleByQuotient(x: real, s: real, d: real)
    requires d != 0.0
    ensures x * (s / d) == s * x / d
  {
    var k := s / d;
    assert k * d == s;
    var y := s * x / d;
    assert y * d == s * x;
    assert (x * k - y) * d == 0.0;
  }

  /** The textbook solution is exact: it uses all of S and averages to m. */
  lemma SplitSolves(p: Params)
    requires p.a1 != p.a2
    ensures Split(p).0 + Split(p).1 == p.s
    ensures Split(p).0 * p.a1 + Split(p).1 * p.a2 == p.m * p.s
    ensures Split(p).0 * (p.m - p.a1) == Split(p).1 * (p.a2 - p.m)
  {
    var d := p.a2 - p.a1;
    var (x1, x2) := Split(p);
    assert x1 * d == p.s * (p.a2 - p.m);
    assert x2 * d == p.s * (p.m - p.a1);
    assert (x1 + x2) * d == p.s * d;
    assert (x1 * p.a1 + x2 * p.a2) * d == p.m * p.s * d;
  }

  /** For m strictly between a1 and a2 both quantities have the sign of S. */
  lemma SplitSign(p: Params)
    requires StrictlyBetween(p)
    ensures p.a1 != p.a2
    ensures Split(p).0 > 0.0 <==> p.s > 0.0
    ensures Split(p).1 > 0.0 <==> p.s > 0.0
  {
    var d := p.a2 - p.a1;
    var t1, t2 := (p.a2 - p.m) / d, (p.m - p.a1) / d;
    assert t1 > 0.0 && t2 > 0.0;
    assert Split(p).0 == p.s * t1 && Split(p).1 == p.s * t2;
  }

  /** The gcd-reduced ratio of two rounded quantities (lines 45-48): Python's // with a positive divisor. */
  function ReducedRatio(p: int, q: int): (r: Result<(nat, nat), SimpleError>)
    requires p >= 0 && q >= 0
    ensures r.Err? <==> p == 0 && q == 0
    ensures r.Err? ==> r.error == ModuloByZero
    ensures r.Ok? ==> r.value.0 * q == r.value.1 * p && Coprime(r.value.0, r.value.1)
  {
    match Gcd(p, q)
    case None => Err(ModuloByZero)
    case Some(g) =>
      QuotientsByGcd(p, q);
      assert (p / g) * q == (p / g) * ((q / g) * g) == (q / g) * ((p / g) * g);
      Ok((p / g, q / g))
  }

  /** f"{u} : {v}". */
  function RatioText(u: nat, v: nat): string {
    NatToString(u) + " : " + NatToString(v)
  }

  /** A space cannot stand where a longer run of digits still has a digit. */
  lemma DigitsThenSpace(a: string, r: string, b: string, r': string)
    requires |a| < |b| && AllDigits(b) && |r| > 0 && r[0] == ' '
    ensures a + r != b + r'
  {
    assert (a + r)[|a|] == ' ';
    assert (b + r')[|a|] == b[|a|];
  }

  /** The ratio text determines both of its terms. */
  lemma RatioTextInjective(u: nat, v: nat, u': nat, v': nat)
    requires RatioText(u, v) == RatioText(u', v')
    ensures u == u' && v == v'
  {
    var a, a' := NatToString(u), NatToString(u');
    var r, r' := " : " + NatToString(v), " : " + NatToString(v');
    var text := RatioText(u, v);
    assert text == a + r && text == a' + r';
    if |a| < |a'| {
      DigitsThenSpace(a, r, a', r');
    } else if |a'| < |a| {
      DigitsThenSpace(a', r', a, r);
    }
    assert a == (a + r)[..|a|] && a' == (a' + r')[..|a|];
    NatToStringInjective(u, u');
    assert NatToString(v) == r[3..] && NatToString(v') == r'[3..];
    NatToStringInjective(v, v');
  }

  /**
   * The end of the endpoint, for two positive quantities: the rounded gcd
   * ratio, the formatted quantities and the check of the total.
   */
  function Report(x1: real, x2: real, s: real): (r: Result<SimpleResponse, SimpleError>)
    requires x1 > 0.0 && x2 > 0.0
    ensures r == Err(ModuloByZero) <==> x1 <= 0.5 && x2 <= 0.5
    ensures r.Err? && x1 + x2 == s ==> r.error == ModuloByZero
    ensures r.Ok? ==> r.value.quantities == [x1, x2]
    ensures r.Ok? ==> |r.value.quantitiesFormatted| == 2
                      && ReadsBackNear(r.value.quantitiesFormatted[0], x1)
                      && ReadsBackNear(r.value.quantitiesFormatted[1], x2)
    ensures r.Ok? ==> exists u: nat, v: nat :: (r.value.simplifiedRatio == RatioText(u, v)
                        && u * RoundHalfEven(x2) == v * RoundHalfEven(x1) && Coprime(u, v))
  {
    RoundPositive(x1);
    RoundPositive(x2);
    var terms :- ReducedRatio(RoundHalfEven(x1), RoundHalfEven(x2));
    var total := x1 + x2;
    if Abs(total - s) > Tolerance then Err(Inconsistent(total, s))
    else
      var formatted := [Fixed2(x1), Fixed2(x2)];
      Fixed2ReadsBack(x1);
      Fixed2ReadsBack(x2);
      assert ReadsBackNear(formatted[0], x1) && ReadsBackNear(formatted[1], x2);
      var (u, v) := terms;
      assert u * RoundHalfEven(x2) == v * RoundHalfEven(x1) && Coprime(u, v);
      Ok(SimpleResponse([x1, x2], formatted, RatioText(u, v)))
  }

  /** float(text) succeeds and lies within half a hundredth of x. */
  predicate ReadsBackNear(text: string, x: real) {
    var v := PyFloatOfString(text);
    v.Some? && -0.005 <= v.value - x <= 0.005
  }

  lemma Fixed2ReadsBack(x: real)
    requires x >= 0.0
    ensures ReadsBackNear(Fixed2(x), x)
  {
    var cents := RoundHalfEven(x * 100.0);
    var s := Fixed2(x);
    Fixed2Denotes(x);
    var head := NatToString(cents / 100);
    assert s == head + "." + [DigitChar(cents % 100 / 10), DigitChar(cents % 10)];
    assert s[0] == head[0];
    TrimUnchanged(s);
  }

  /** The body of the endpoint after the four fields have been read. */
  function Solve(p: Params): (r: Result<SimpleResponse, SimpleError>)
    ensures r.Err? ==> r.error == NotBetween || r.error == InvalidQuantities || r.error == ModuloByZero
                       || r.error.Inconsistent?
    ensures r.Ok? ==> |r.value.quantities| == 2 && r.value.quantities[0] + r.value.quantities[1] == p.s
  {
    if !(Min(p.a1, p.a2) < p.m < Max(p.a1, p.a2)) then Err(NotBetween)
    else
      var (x1, x2) := Quantities(p);
      if !(x1 > 0.0 && x2 > 0.0) then Err(InvalidQuantities)
      else Report(x1, x2, p.s)
  }

  /** Success means m was strictly inside the interval, S was positive and the quantities are the textbook solution. */
  lemma SolveOk(p: Params)
    requires Solve(p).Ok?
    ensures StrictlyBetween(p) && p.s > 0.0 && p.a1 != p.a2
    ensures Solve(p).value.quantities == [Split(p).0, Split(p).1]
    ensures Split(p).0 > 0.0 && Split(p).1 > 0.0
  {
    QuantitiesAreSplit(p);
    SplitSign(p);
  }

  /**
   * Every outcome of the arithmetic: m outside the open interval is
   * rejected, a non-positive S yields the invalid-quantities error, two
   * quantities that both round to 0 end in gcd(0, 0) and its
   * ZeroDivisionError, and everything else succeeds. The total check never
   * fires.
   */
  lemma SolveOutcome(p: Params)
    ensures !StrictlyBetween(p) ==> Solve(p) == Err(NotBetween)
    ensures StrictlyBetween(p) && p.s <= 0.0 ==> Solve(p) == Err(InvalidQuantities)
    ensures StrictlyBetween(p) && p.s > 0.0 ==>
              (Solve(p) == Err(ModuloByZero) <==> Split(p).0 <= 0.5 && Split(p).1 <= 0.5)
    ensures StrictlyBetween(p) && p.s > 0.0 ==> (Solve(p).Ok? <==> Split(p).0 > 0.5 || Split(p).1 > 0.5)
    ensures Solve(p).Err? ==> !Solve(p).error.Inconsistent?
  {
    if StrictlyBetween(p) {
      QuantitiesAreSplit(p);
      SplitSign(p);
    }
  }

  /** Equal strengths, or a target equal to either strength, are rejected rather than solved. */
  lemma BoundaryRejected(p: Params)
    requires p.a1 == p.a2 || p.m == p.a1 || p.m == p.a2
    ensures Solve(p) == Err(NotBetween)
  {
  }

  /** POST /simple with the JSON object data. */
  function SimpleMix(data: map<string, Json>): (r: Result<SimpleResponse, SimpleError>)
    ensures !(Readable(data, "a1") && Readable(data, "a2") && Readable(data, "m") && Readable(data, "S"))
            ==> r.Err? && (r.error.KeyMissing? || r.error.NotAFloat?)
  {
    var p :- ReadParams(data);
    Solve(p)
  }

  /** The worked example: 230 units of strength 85 from strengths 70 and 95. */
  lemma WorkedExample()
    ensures SimpleMix(map["a1" := JNum(70.0), "a2" := JNum(95.0), "m" := JNum(85.0), "S" := JNum(230.0)])
            == Ok(SimpleResponse([92.0, 138.0], ["92.00", "138.00"], "2 : 3"))
  {
    var data := map["a1" := JNum(70.0), "a2" := JNum(95.0), "m" := JNum(85.0), "S" := JNum(230.0)];
    var p := Params(70.0, 95.0, 85.0, 230.0);
    assert ReadParams(data) == Ok(p);
    assert Solve(p) == Report(92.0, 138.0, 230.0) by {
      assert Quantities(p) == (92.0, 138.0);
    }
    assert ReducedRatio(92, 138) == Ok((2, 3)) by {
      assert Gcd(92, 138) == Some(46);
    }
    WorkedExampleTexts();
    assert RoundHalfEven(92.0) == 92 && RoundHalfEven(138.0) == 138;
  }

  lemma WorkedExampleTexts()
    ensures RatioText(2, 3) == "2 : 3"
    ensures Fixed2(92.0) == "92.00" && Fixed2(138.0) == "138.00"
  {
    assert RoundHalfEven(9200.0) == 9200;
    assert NatToString(92) == "92";
    assert RoundHalfEven(13800.0) == 13800;
    assert NatToString(138) == "138";
  }

  /**
   * Two quantities of one half each both round to 0 (ties go to the even
   * integer), so the request ends in the ZeroDivisionError of gcd(0, 0).
   */
  lemma HalvesEndInModuloByZero()
    ensures SimpleMix(map["a1" := JNum(0.0), "a2" := JNum(2.0), "m" := JNum(1.0), "S" := JNum(1.0)])
            == Err(ModuloByZero)
  {
    var p := Params(0.0, 2.0, 1.0, 1.0);
    assert Quantities(p) == (0.5, 0.5);
  }
}
