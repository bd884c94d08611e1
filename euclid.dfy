/**
 * The recursive greatest-common-divisor helper of the simple-mix endpoint,
 * with Python's integer semantics: `%` floors (the remainder takes the sign
 * of the divisor), and `b == 0 and a or gcd(b, a % b)` falls through to the
 * recursive call whenever `a` is 0, so gcd(0, 0) evaluates `0 % 0`.
 */
module Euclid {
  import opened Wrappers

  /** Python's `a % b`: floored, so the remainder has the divisor's sign. */
  function PyMod(a: int, b: int): (r: int)
    requires b != 0
    ensures b > 0 ==> 0 <= r < b
    ensures b < 0 ==> b < r <= 0
    ensures b > 0 ==> r == a % b
  {
    var e := a % b;
    if b < 0 && e != 0 then e + b else e
  }

  /**
   * The floored remainder differs from a by a multiple of b; with its range
   * this fixes it for either sign of b.
   */
  lemma PyModCongruent(a: int, b: int)
    requires b != 0
    ensures (a - PyMod(a, b)) % b == 0
  {
    ModCongruence(a, b);
  }

  /** Both candidates for the floored remainder differ from a by a multiple of b. */
  lemma ModCongruence(a: int, b: int)
    requires b != 0
    ensures (a - a % b) % b == 0
    ensures (a - (a % b + b)) % b == 0
  {
    var q := a / b;
    assert a - a % b == b * q;
    MultipleDivisible(b, q);
    assert a - (a % b + b) == b * (q - 1);
    MultipleDivisible(b, q - 1);
  }

  /** d is a positive divisor of n. */
  predicate Divides(d: int, n: int) {
    d > 0 && n % d == 0
  }

  /**
   * gcd(a, b) from the endpoint. None stands for the ZeroDivisionError raised
   * by `0 % 0`, which is reached exactly when both arguments are 0.
   */
  function Gcd(a: int, b: int): (r: Option<int>)
    ensures r.None? <==> a == 0 && b == 0
    ensures r.Some? && a >= 0 && b >= 0 ==> r.value > 0
    decreases if b < 0 then -b else b
  {
    if b == 0 && a != 0 then Some(a)
    else if b == 0 then None
    else Gcd(b, PyMod(a, b))
  }

  lemma MulAwayFromZero(d: int, e: int)
    requires d > 0
    ensures e >= 1 ==> d * e >= d
    ensures e <= -1 ==> d * e <= -d
  {
  }

  lemma MultipleDivisible(d: int, k: int)
    requires d != 0
    ensures (d * k) % d == 0
  {
    var q, r := (d * k) / d, (d * k) % d;
    assert d * (k - q) == r;
    if d > 0 {
      MulAwayFromZero(d, k - q);
    } else {
      assert r == (-d) * (q - k);
      MulAwayFromZero(-d, q - k);
    }
  }

  /** A common divisor of x and y divides x * k + y. */
  lemma DividesLinear(d: int, x: int, y: int, k: int)
    requires Divides(d, x) && Divides(d, y)
    ensures Divides(d, x * k + y)
  {
    var p, q := x / d, y / d;
    assert x * k + y == d * (p * k + q);
    MultipleDivisible(d, p * k + q);
  }

  /** One Euclid step keeps the common divisors: those of (a, b) are those of (b, a % b). */
  lemma EuclidStep(d: int, a: int, b: int)
    requires b > 0
    ensures Divides(d, a) && Divides(d, b) <==> Divides(d, b) && Divides(d, a % b)
  {
    if Divides(d, b) {
      var q := a / b;
      assert a == b * q + a % b;
      if Divides(d, a) {
        DividesLinear(d, b, a, -q);
        assert b * -q + a == a % b;
      }
      if Divides(d, a % b) {
        DividesLinear(d, b, a % b, q);
      }
    }
  }

  /**
   * For non-negative arguments that are not both 0, gcd returns a common
   * divisor that every other common divisor divides.
   */
  lemma {:induction false} GcdIsGreatestCommonDivisor(a: int, b: int)
    requires a >= 0 && b >= 0 && (a != 0 || b != 0)
    ensures Gcd(a, b).Some?
    ensures Divides(Gcd(a, b).value, a) && Divides(Gcd(a, b).value, b)
    ensures forall d :: Divides(d, a) && Divides(d, b) ==> Divides(d, Gcd(a, b).value)
    decreases b
  {
    if b != 0 {
      var g := Gcd(b, a % b).value;
      GcdIsGreatestCommonDivisor(b, a % b);
      EuclidStep(g, a, b);
      forall d | Divides(d, a) && Divides(d, b) ensures Divides(d, g) {
        EuclidStep(d, a, b);
      }
    }
  }

  /** gcd(a, 0) is a and gcd(0, b) is b, for a, b > 0. */
  lemma GcdWithZero(n: int)
    requires n > 0
    ensures Gcd(n, 0) == Some(n) && Gcd(0, n) == Some(n)
  {
    assert PyMod(0, n) == 0;
  }

  /** A positive divisor of a positive number is at most that number. */
  lemma DivisorBounded(d: int, n: int)
    requires Divides(d, n) && n > 0
    ensures d <= n
  {
    var q := n / d;
    assert n == d * q;
    MulAwayFromZero(d, q);
  }

  /** x and y share no divisor but 1. */
  ghost predicate Coprime(x: int, y: int) {
    forall d :: Divides(d, x) && Divides(d, y) ==> d == 1
  }

  /** If d divides u and p == g * u, then d * g divides p. */
  lemma CommonFactor(d: int, g: int, u: int, p: int)
    requires Divides(d, u) && g > 0 && p == g * u
    ensures Divides(d * g, p)
  {
    var w := u / d;
    assert u == d * w;
    assert p == (d * g) * w;
    MultipleDivisible(d * g, w);
  }

  lemma FactorAtMostOne(d: int, g: int)
    requires d > 0 && g > 0 && d * g <= g
    ensures d == 1
  {
    MulAwayFromZero(g, d - 1);
    assert g * (d - 1) == d * g - g;
  }

  /**
   * Dividing two non-negative numbers, not both 0, by their gcd leaves
   * coprime quotients whose products with the gcd give the numbers back.
   */
  lemma QuotientsByGcd(p: int, q: int)
    requires p >= 0 && q >= 0 && (p != 0 || q != 0)
    ensures Gcd(p, q).Some? && Gcd(p, q).value > 0
    ensures p / Gcd(p, q).value * Gcd(p, q).value == p
    ensures q / Gcd(p, q).value * Gcd(p, q).value == q
    ensures Coprime(p / Gcd(p, q).value, q / Gcd(p, q).value)
  {
    GcdIsGreatestCommonDivisor(p, q);
    var g := Gcd(p, q).value;
    var u, v := p / g, q / g;
    assert p == g * u && q == g * v;
    forall d | Divides(d, u) && Divides(d, v) ensures d == 1 {
      CommonFactor(d, g, u, p);
      CommonFactor(d, g, v, q);
      DivisorBounded(d * g, g);
      FactorAtMostOne(d, g);
    }
  }
}
