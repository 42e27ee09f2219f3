/** Exact rational time, as Python's `fractions.Fraction` computes it: the
    normalisation every Fraction goes through, `limit_denominator`, and `round`
    (half to even). A float handed to `Fraction(...)` is modelled by the exact
    rational it denotes. */
module Rationals {
  import Text

  datatype Fraction = Fraction(num: int, den: int)

  /** A fraction with a positive denominator: the value of a float or of any
      Python Fraction, not necessarily in lowest terms. */
  type Rat = f: Fraction | f.den > 0 witness Fraction(0, 1)

  function Abs(x: int): nat { if x < 0 then -x else x }

  // ---------------------------------------------------------------------------
  // Divisibility
  // ---------------------------------------------------------------------------

  predicate Divides(g: int, a: int)
    requires g > 0
  {
    a % g == 0
  }

  /** No integer greater than one divides both. */
  ghost predicate Coprime(a: int, b: int) {
    forall g :: g > 1 && Divides(g, a) ==> !Divides(g, b)
  }

  /** Python's invariant for a Fraction: positive denominator, lowest terms. */
  ghost predicate Normalized(f: Fraction) {
    f.den > 0 && Coprime(f.num, f.den)
  }

  /** The two fractions denote the same number. */
  predicate SameValue(a: Rat, b: Rat) {
    a.num * b.den == b.num * a.den
  }

  lemma MulBetween(g: int, x: int)
    requires g > 0 && 0 <= g * x < g
    ensures x == 0
  {
  }

  lemma MulAtLeast(h: int, t: int)
    requires h > 0 && h * t > 0
    ensures t >= 1 && h * t >= h
  {
  }

  lemma MulAtMost(g: int, h: int)
    requires g > 0 && g * h <= g
    ensures h <= 1
  {
  }

  lemma MultipleDivides(g: int, m: int)
    requires g > 0
    ensures (g * m) / g == m && Divides(g, g * m)
  {
    var q := (g * m) / g;
    MulBetween(g, m - q);
  }

  lemma DividesWitness(g: int, a: int)
    requires g > 0 && Divides(g, a)
    ensures a == g * (a / g)
  {
  }

  lemma DividesLinear(g: int, a: int, b: int, x: int, y: int)
    requires g > 0 && Divides(g, a) && Divides(g, b)
    ensures Divides(g, a * x + b * y)
  {
    var s, t := a / g, b / g;
    DividesWitness(g, a);
    DividesWitness(g, b);
    assert a * x + b * y == g * (s * x + t * y) by {
      assert a * x == g * (s * x);
      assert b * y == g * (t * y);
    }
    MultipleDivides(g, s * x + t * y);
  }

  lemma DivisorAtMost(h: int, a: int)
    requires h > 0 && a > 0 && Divides(h, a)
    ensures h <= a
  {
    DividesWitness(h, a);
    MulAtLeast(h, a / h);
  }

  lemma DividesNegation(g: int, a: int)
    requires g > 0 && Divides(g, a)
    ensures Divides(g, -a) && Divides(g, Abs(a))
  {
    DividesLinear(g, a, a, -1, 0);
  }

  lemma CoprimeNegation(a: int, b: int)
    requires Coprime(a, b)
    ensures Coprime(-a, -b)
  {
    var na, nb := -a, -b;
    forall h | h > 1 && Divides(h, na)
      ensures !Divides(h, nb)
    {
      NegationDivides(h, a, b);
    }
  }

  lemma NegationDivides(h: int, a: int, b: int)
    requires Coprime(a, b) && h > 1 && Divides(h, -a)
    ensures !Divides(h, -b)
  {
    DividesNegation(h, -a);
    if Divides(h, -b) {
      DividesNegation(h, -b);
    }
  }

  /** Integers with a unimodular combination (Bezout coefficients for ±1) share
      no divisor greater than one. */
  lemma UnimodularCoprime(a: int, b: int, x: int, y: int)
    requires a * x + b * y == 1 || a * x + b * y == -1
    ensures Coprime(a, b)
  {
    forall g | g > 1 && Divides(g, a)
      ensures !Divides(g, b)
    {
      if Divides(g, b) {
        DividesLinear(g, a, b, x, y);
        DividesNegation(g, a * x + b * y);
        DivisorAtMost(g, Abs(a * x + b * y));
      }
    }
  }

  // ---------------------------------------------------------------------------
  // Greatest common divisor and normalisation
  // ---------------------------------------------------------------------------

  function Gcd(a: nat, b: nat): nat
    decreases b
  {
    if b == 0 then a else Gcd(b, a % b)
  }

  lemma {:induction false} GcdDivides(a: nat, b: nat)
    requires a > 0 || b > 0
    ensures Gcd(a, b) > 0 && Divides(Gcd(a, b), a) && Divides(Gcd(a, b), b)
    decreases b
  {
    if b == 0 {
      MultipleDivides(a, 1);
      MultipleDivides(a, 0);
    } else {
      GcdDivides(b, a % b);
      var g := Gcd(a, b);
      assert a == b * (a / b) + (a % b);
      DividesLinear(g, b, a % b, a / b, 1);
    }
  }

  lemma {:induction false} GcdGreatest(a: nat, b: nat, h: int)
    requires h > 0 && Divides(h, a) && Divides(h, b)
    ensures Divides(h, Gcd(a, b))
    decreases b
  {
    if b > 0 {
      assert a % b == a * 1 + b * (-(a / b));
      DividesLinear(h, a, b, 1, -(a / b));
      GcdGreatest(b, a % b, h);
    }
  }

  /** `Fraction(n, d)`: the same number in lowest terms, sign on the numerator. */
  function Reduce(n: int, d: int): (r: Fraction)
    requires d != 0
    ensures 0 < r.den <= Abs(d)
    ensures r.num * d == n * r.den
    ensures Normalized(r)
  {
    var g := Gcd(Abs(n), Abs(d));
    ReduceFacts(n, d);
    var a, b := n / g, d / g;
    if d < 0 then
      NegatedQuotient(g, a, b, n, d);
      Fraction(-a, -b)
    else
      QuotientBounds(g, a, b, n, d);
      Fraction(a, b)
  }

  /** With a negative denominator the reduced fraction takes both signs
      flipped, which keeps it in lowest terms and equal in value. */
  lemma NegatedQuotient(g: int, a: int, b: int, n: int, d: int)
    requires g > 0 && d < 0 && n == g * a && d == g * b && Coprime(a, b)
    ensures 0 < -b <= Abs(d)
    ensures (-a) * d == n * (-b)
    ensures Coprime(-a, -b)
  {
    CoprimeNegation(a, b);
    assert -n == g * (-a) && -d == g * (-b);
    QuotientBounds(g, -a, -b, -n, -d);
  }

  /** Dividing numerator and denominator by the same positive factor keeps the
      value and does not grow the denominator. */
  lemma QuotientBounds(g: int, a: int, b: int, n: int, d: int)
    requires g > 0 && d > 0 && n == g * a && d == g * b
    ensures 0 < b <= d
    ensures a * d == n * b && a * (-d) == (-n) * b
  {
    MulAtLeast(g, b);
    MulAtLeast(b, g);
    assert a * (g * b) == (g * a) * b;
  }

  lemma ReduceFacts(n: int, d: int)
    requires d != 0
    ensures Gcd(Abs(n), Abs(d)) > 0
    ensures n == Gcd(Abs(n), Abs(d)) * (n / Gcd(Abs(n), Abs(d)))
    ensures d == Gcd(Abs(n), Abs(d)) * (d / Gcd(Abs(n), Abs(d)))
    ensures Coprime(n / Gcd(Abs(n), Abs(d)), d / Gcd(Abs(n), Abs(d)))
  {
    GcdDivides(Abs(n), Abs(d));
    var g := Gcd(Abs(n), Abs(d));
    DividesNegation(g, Abs(n));
    DividesNegation(g, Abs(d));
    assert Divides(g, n) && Divides(g, d);
    DividesWitness(g, n);
    DividesWitness(g, d);
    var a, b := n / g, d / g;
    forall h | h > 1 && Divides(h, a)
      ensures !Divides(h, b)
    {
      if Divides(h, b) {
        CommonDivisorIsOne(n, d, g, h);
      }
    }
  }

  /** If `g` divides `n` and `h` divides `n / g`, then `g * h` divides `n`. */
  lemma DividesProduct(g: int, h: int, n: int)
    requires g > 0 && h > 0 && Divides(g, n) && Divides(h, n / g)
    ensures g * h > 0 && Divides(g * h, n)
  {
    DividesWitness(g, n);
    DividesWitness(h, n / g);
    var s := (n / g) / h;
    var gh := g * h;
    MulAtLeast(g, h);
    assert n == gh * s by {
      assert n == g * (h * s);
    }
    MultipleDivides(gh, s);
  }

  /** Dividing by the gcd leaves no common factor. */
  lemma CommonDivisorIsOne(n: int, d: int, g: nat, h: int)
    requires d != 0 && g == Gcd(Abs(n), Abs(d)) && g > 0
    requires Divides(g, n) && Divides(g, d)
    requires h > 0 && Divides(h, n / g) && Divides(h, d / g)
    ensures h == 1
  {
    DividesProduct(g, h, n);
    DividesProduct(g, h, d);
    var gh := g * h;
    DividesNegation(gh, n);
    DividesNegation(gh, d);
    GcdGreatest(Abs(n), Abs(d), gh);
    DivisorAtMost(gh, g);
    MulAtMost(g, h);
  }

  // ---------------------------------------------------------------------------
  // Fraction.limit_denominator
  // ---------------------------------------------------------------------------

  /** The end of the loop: of the semiconvergent `(p0 + k*p1)/(q0 + k*q1)`
      with the largest `k` the bound allows and the convergent `p1/q1`, the
      one closer to `nn/dd`, the convergent on a tie. Distances are compared
      cross-multiplied by the positive denominators. */
  function CloserBound(nn: int, dd: int, maxDen: int, p0: int, q0: int, p1: int, q1: int): (r: Fraction)
    requires p1 * q0 - p0 * q1 == 1 || p1 * q0 - p0 * q1 == -1
    requires 0 <= q0 <= maxDen && 0 < q1 <= maxDen
    ensures 0 < r.den <= maxDen && Normalized(r)
    ensures p0 >= 0 && p1 >= 0 ==> r.num >= 0
  {
    var k := (maxDen - q0) / q1;
    BoundDenominator(maxDen, q0, q1, k);
    var bound1 := Fraction(p0 + k * p1, q0 + k * q1);
    var bound2 := Fraction(p1, q1);
    NonNegativeSemiconvergent(p0, p1, k);
    ConvergentsCoprime(p0, q0, p1, q1, k);
    if NoFarther(nn, dd, bound2, bound1) then bound2 else bound1
  }

  /** `|a - nn/dd| <= |b - nn/dd|`, both sides multiplied by `dd * a.den * b.den`
      (for positive denominators). */
  predicate NoFarther(nn: int, dd: int, a: Fraction, b: Fraction) {
    Abs(a.num * dd - nn * a.den) * b.den <= Abs(b.num * dd - nn * b.den) * a.den
  }

  /** Neighbouring convergents, and the semiconvergents between them, are in
      lowest terms. */
  lemma ConvergentsCoprime(p0: int, q0: int, p1: int, q1: int, k: int)
    requires p1 * q0 - p0 * q1 == 1 || p1 * q0 - p0 * q1 == -1
    ensures Coprime(p1, q1) && Coprime(p0 + k * p1, q0 + k * q1)
  {
    assert p1 * q0 + q1 * (-p0) == p1 * q0 - p0 * q1;
    UnimodularCoprime(p1, q1, q0, -p0);
    SemiconvergentUnimodular(p0, q0, p1, q1, k);
    UnimodularCoprime(p0 + k * p1, q0 + k * q1, q1, -p1);
  }

  /** The continued-fraction loop of `limit_denominator` on the normalised value
      `nn/dd`. `p0/q0` and `p1/q1` are the last two convergents and `n/d` the
      remainder, so that `nn == p1*n + p0*d` and `dd == q1*n + q0*d`. */
  function LimitLoop(nn: int, dd: int, maxDen: int,
                     p0: int, q0: int, p1: int, q1: int, n: int, d: int): (r: Fraction)
    requires Coprime(nn, dd) && dd > maxDen >= 1
    requires nn == p1 * n + p0 * d && dd == q1 * n + q0 * d
    requires p1 * q0 - p0 * q1 == 1 || p1 * q0 - p0 * q1 == -1
    requires 0 <= q0 <= maxDen && 0 <= q1 <= maxDen
    requires d > 0 && (q1 > 0 ==> n > 0)
    ensures 0 < r.den <= maxDen && Normalized(r)
    decreases d
  {
    var a := n / d;
    var q2 := q0 + a * q1;
    if q2 > maxDen then
      ExceedingStepHasConvergent(maxDen, q0, q1, a);
      CloserBound(nn, dd, maxDen, p0, q0, p1, q1)
    else
      var d' := n - a * d;
      StepPreserves(nn, dd, p0, q0, p1, q1, n, d);
      RemainderPositive(nn, dd, maxDen, p0 + a * p1, q2, p1, q1, d, d');
      LimitLoop(nn, dd, maxDen, p1, q1, p0 + a * p1, q2, d, d')
  }

  /** The convergents of a non-negative number are non-negative, and so is
      the approximation the loop returns. */
  lemma {:induction false} LimitLoopNonNegative(nn: int, dd: int, maxDen: int,
                                                p0: int, q0: int, p1: int, q1: int, n: int, d: int)
    requires Coprime(nn, dd) && dd > maxDen >= 1
    requires nn == p1 * n + p0 * d && dd == q1 * n + q0 * d
    requires p1 * q0 - p0 * q1 == 1 || p1 * q0 - p0 * q1 == -1
    requires 0 <= q0 <= maxDen && 0 <= q1 <= maxDen
    requires d > 0 && (q1 > 0 ==> n > 0)
    requires p0 >= 0 && p1 >= 0 && n >= 0
    ensures LimitLoop(nn, dd, maxDen, p0, q0, p1, q1, n, d).num >= 0
    decreases d
  {
    var a := n / d;
    var q2 := q0 + a * q1;
    assert a >= 0;
    NonNegativeCombination(p0, p1, a);
    if q2 <= maxDen {
      var d' := n - a * d;
      StepPreserves(nn, dd, p0, q0, p1, q1, n, d);
      RemainderPositive(nn, dd, maxDen, p0 + a * p1, q2, p1, q1, d, d');
      LimitLoopNonNegative(nn, dd, maxDen, p1, q1, p0 + a * p1, q2, d, d');
    }
  }

  lemma NonNegativeSemiconvergent(p0: int, p1: int, k: int)
    requires k >= 0
    ensures p0 >= 0 && p1 >= 0 ==> p0 + k * p1 >= 0
  {
    if p0 >= 0 && p1 >= 0 {
      NonNegativeCombination(p0, p1, k);
    }
  }

  lemma NonNegativeCombination(p0: int, p1: int, a: int)
    requires p0 >= 0 && p1 >= 0 && a >= 0
    ensures p0 + a * p1 >= 0
  {
  }

  /** The denominator of the semiconvergent `(p0 + k*p1)/(q0 + k*q1)` with the
      largest `k` the bound allows is positive and within the bound. */
  lemma BoundDenominator(maxDen: int, q0: int, q1: int, k: int)
    requires 0 <= q0 <= maxDen && 0 < q1 <= maxDen && k == (maxDen - q0) / q1
    ensures k >= 0 && 0 < q0 + k * q1 <= maxDen
  {
    assert maxDen - q0 == q1 * k + (maxDen - q0) % q1;
  }

  /** The next denominator can exceed the bound only once `q1` is positive. */
  lemma ExceedingStepHasConvergent(maxDen: int, q0: int, q1: int, a: int)
    requires q0 <= maxDen && q1 >= 0 && q0 + a * q1 > maxDen
    ensures q1 > 0
  {
  }

  lemma SemiconvergentUnimodular(p0: int, q0: int, p1: int, q1: int, k: int)
    ensures (p0 + k * p1) * q1 + (q0 + k * q1) * (-p1) == -(p1 * q0 - p0 * q1)
  {
  }

  /** One step of the loop keeps the representation of `nn/dd` and flips the
      sign of the convergents' determinant. */
  lemma StepPreserves(nn: int, dd: int, p0: int, q0: int, p1: int, q1: int, n: int, d: int)
    requires d > 0 && (q1 > 0 ==> n > 0) && q0 >= 0 && q1 >= 0
    requires nn == p1 * n + p0 * d && dd == q1 * n + q0 * d
    ensures nn == (p0 + (n / d) * p1) * d + p1 * (n - (n / d) * d)
    ensures dd == (q0 + (n / d) * q1) * d + q1 * (n - (n / d) * d)
    ensures (p0 + (n / d) * p1) * q1 - p1 * (q0 + (n / d) * q1) == -(p1 * q0 - p0 * q1)
    ensures 0 <= n - (n / d) * d < d
    ensures q0 + (n / d) * q1 >= 0
  {
    var a := n / d;
    assert n == a * d + n % d;
    if q1 > 0 {
      assert a >= 0;
      assert a * q1 >= 0;
    }
  }

  /** The continued fraction of `nn/dd` cannot end while the convergent's
      denominator is within the bound: its last convergent is `nn/dd` itself. */
  lemma RemainderPositive(nn: int, dd: int, maxDen: int, p: int, q: int, p1: int, q1: int, d: int, d': int)
    requires Coprime(nn, dd) && dd > maxDen && 0 <= q <= maxDen && d > 0 && d' >= 0
    requires nn == p * d + p1 * d' && dd == q * d + q1 * d'
    ensures d' > 0
  {
    if d' == 0 {
      MultipleDivides(d, p);
      MultipleDivides(d, q);
    }
  }

  /** `Fraction(x).limit_denominator(maxDen)`: the input in lowest terms when its
      denominator is within the bound, otherwise the closer of the two best
      continued-fraction approximations. */
  function LimitDenominator(x: Rat, maxDen: int): (r: Fraction)
    requires maxDen >= 1
    ensures Normalized(r) && 0 < r.den <= maxDen
    ensures Reduce(x.num, x.den).den <= maxDen ==> r == Reduce(x.num, x.den)
    ensures x.den <= maxDen ==> SameValue(r, x)
    ensures x.num >= 0 ==> r.num >= 0
  {
    var f := Reduce(x.num, x.den);
    SignOfQuotient(f.num, x.den, x.num, f.den);
    if f.den <= maxDen then
      f
    else
      if f.num >= 0 then
        LimitLoopNonNegative(f.num, f.den, maxDen, 0, 1, 1, 0, f.num, f.den);
        LimitLoop(f.num, f.den, maxDen, 0, 1, 1, 0, f.num, f.den)
      else
        LimitLoop(f.num, f.den, maxDen, 0, 1, 1, 0, f.num, f.den)
  }

  /** Equal ratios with positive denominators have numerators of one sign. */
  lemma SignOfQuotient(a: int, b: int, c: int, d: int)
    requires b > 0 && d > 0 && a * b == c * d
    ensures c >= 0 ==> a >= 0
  {
    ProductSign(a, b);
    ProductSign(c, d);
  }

  lemma ProductSign(a: int, b: int)
    requires b > 0
    ensures a < 0 ==> a * b < 0
    ensures a >= 0 ==> a * b >= 0
  {
  }

  // ---------------------------------------------------------------------------
  // round() of a Fraction
  // ---------------------------------------------------------------------------

  /** `round(n/d)`: the nearest integer, halves going to the even neighbour. */
  function RoundHalfEven(n: int, d: int): (r: int)
    requires d > 0
    ensures 2 * Abs(n - r * d) <= d
    ensures 2 * Abs(n - r * d) == d ==> r % 2 == 0
  {
    var fl := n / d;
    var rem := n % d;
    assert n - fl * d == rem;
    assert n - (fl + 1) * d == rem - d;
    if rem * 2 < d then fl
    else if rem * 2 > d then fl + 1
    else if fl % 2 == 0 then fl
    else fl + 1
  }

  // ---------------------------------------------------------------------------
  // Rational time text
  // ---------------------------------------------------------------------------

  /** The FCPXML literal `"<num>/<den>s"`. */
  function TimeText(f: Fraction): string {
    Text.IntToString(f.num) + "/" + Text.IntToString(f.den) + "s"
  }

  /** The zero time `"0/1s"`. */
  const Zero: Fraction := Fraction(0, 1)
}
