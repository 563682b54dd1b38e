/** The checks of the class invariant, and the gcd and lcm of rational numbers. */
module Evaluators {
  import opened NumberTheory
  import opened CommonFactor
  import opened Fractions
  import opened FractionLaws
  import opened IntegerOps
  import Ordering
  import opened Rationals

  // ---------- two ways to test the invariant ----------

  lemma RemMagnitude(a: int, b: int)
    requires b != 0
    ensures Abs(Rem(a, b)) == Abs(a) % Abs(b)
  {
    var q, r := Abs(a) / Abs(b), Abs(a) % Abs(b);
    assert Abs(a) == Abs(b) * q + r;
    assert b * -q == -(b * q) && -b * q == -(b * q);
  }

  /** The class's own recursive gcd, on truncated remainders; its result may be negative. */
  function InnerGcd(a: int, b: int): (g: int)
    decreases Abs(b)
  {
    if b == 0 then a else (RemMagnitude(a, b); InnerGcd(b, Rem(a, b)))
  }

  predicate IsNormalized(n: int, d: int) {
    d > 0 && (n != 0 || d == 1) && Abs(InnerGcd(n, d)) == 1
  }

  lemma {:induction false} InnerGcdMagnitude(a: int, b: int)
    ensures Abs(InnerGcd(a, b)) == Gcd(a, b)
    decreases Abs(b)
  {
    if b != 0 {
      RemMagnitude(a, b);
      InnerGcdMagnitude(b, Rem(a, b));
    }
  }

  /** `is_normalized`, by its own gcd, accepts exactly what `test_invariant` accepts. */
  lemma NormalizedIsInvariant(n: int, d: int)
    ensures IsNormalized(n, d) <==> LowestTerms(Fraction(n, d))
  {
    InnerGcdMagnitude(n, d);
    GcdSymmetric(0, d);
  }

  // ---------- divisibility of rationals ----------

  /** `f` is an integer multiple of `e`. */
  ghost predicate IsMultiple(f: Fraction, e: Fraction) {
    exists k: int :: f.num * e.den == k * e.num * f.den
  }

  lemma MultipleParts(n: int, d: int, p: int, q: int, k: int)
    requires Coprime(n, d) && Coprime(p, q) && n * q == k * p * d
    ensures Divides(p, n) && Divides(d, q)
  {
    hide Gcd, Divides;
    CoprimeSymmetric(n, d);
    assert n * q == d * (k * p) == p * (k * d) && q * n == n * q;
    MultipleDivides(d, k * p);
    EuclidsLemma(d, n, q);
    MultipleDivides(p, k * d);
    EuclidsLemma(p, q, n);
  }

  lemma Regroup(p: int, s: int, d: int, t: int)
    ensures p * s * (d * t) == s * t * p * d
  {
    assert p * s * (d * t) == s * t * (p * d);
  }

  /** In lowest terms: the numerator is a multiple, and the denominator is a divisor. */
  lemma MultipleInLowestTerms(f: Fraction, e: Fraction)
    requires LowestTerms(f) && LowestTerms(e)
    ensures IsMultiple(f, e) <==> Divides(e.num, f.num) && Divides(f.den, e.den)
  {
    if IsMultiple(f, e) {
      var k: int :| f.num * e.den == k * e.num * f.den;
      MultipleParts(f.num, f.den, e.num, e.den, k);
    }
    if Divides(e.num, f.num) && Divides(f.den, e.den) {
      var s := Quotient(e.num, f.num);
      var t := Quotient(f.den, e.den);
      hide Divides, LowestTerms;
      Regroup(e.num, s, f.den, t);
      assert f.num * e.den == s * t * e.num * f.den;
    }
  }

  // ---------- gcd and lcm ----------

  lemma LcmPositive(a: int, b: int)
    requires a > 0 && b > 0
    ensures Lcm(a, b) > 0
  {
    LcmProperties(a, b);
    GcdPositive(a, b);
    Ordering.PositiveProduct(a, b);
    assert Gcd(a, b) * 0 == 0;
  }

  function FractionGcd(f: Fraction, h: Fraction): Fraction
    requires f.den > 0 && h.den > 0
  {
    LcmPositive(f.den, h.den);
    Canon(Gcd(f.num, h.num), Lcm(f.den, h.den))
  }

  function FractionLcm(f: Fraction, h: Fraction): Fraction
    requires f.den > 0 && h.den > 0
  {
    GcdPositive(f.den, h.den);
    Canon(Lcm(f.num, h.num), Gcd(f.den, h.den))
  }

  method GcdEvaluator(a: Rational, b: Rational) returns (r: Rational)
    requires a.Valid() && b.Valid()
    ensures r.Valid() && r.Value() == FractionGcd(a.Value(), b.Value())
  {
    var n := IntegerGcd(a.num, b.num);
    var d := IntegerLcm(a.den, b.den);
    LcmPositive(a.den, b.den);
    var made := Rational.Make(n, d);
    r := made;
  }

  method LcmEvaluator(a: Rational, b: Rational) returns (r: Rational)
    requires a.Valid() && b.Valid()
    ensures r.Valid() && r.Value() == FractionLcm(a.Value(), b.Value())
  {
    var n := IntegerLcm(a.num, b.num);
    var d := IntegerGcd(a.den, b.den);
    GcdPositive(a.den, b.den);
    var made := Rational.Make(n, d);
    r := made;
  }

  lemma LcmDividesProduct(a: int, b: int)
    ensures Divides(Lcm(a, b), a * b)
  {
    LcmProperties(a, b);
    MultipleDivides(a, b);
    MultipleDivides(b, a);
    assert b * a == a * b;
  }

  /** What the evaluators build is already in lowest terms. */
  lemma GcdAlreadyReduced(f: Fraction, h: Fraction)
    requires LowestTerms(f) && LowestTerms(h)
    ensures FractionGcd(f, h) == Fraction(Gcd(f.num, h.num), Lcm(f.den, h.den))
  {
    var g, l := Gcd(f.num, h.num), Lcm(f.den, h.den);
    var x, y := Bezout(f.num, h.num);
    LcmPositive(f.den, h.den);
    LcmDividesProduct(f.den, h.den);
    assert FractionGcd(f, h) == Canon(g, l);
    hide Gcd, Lcm, Canon, Divides, FractionGcd;
    CoprimeDivisor(g, f.num, f.den);
    CoprimeDivisor(g, h.num, h.den);
    CoprimeProduct(g, f.den, h.den);
    CoprimeSymmetric(g, f.den * h.den);
    CoprimeDivisor(l, f.den * h.den, g);
    CoprimeSymmetric(l, g);
    CanonOfLowest(Fraction(g, l));
  }

  lemma LcmAlreadyReduced(f: Fraction, h: Fraction)
    requires LowestTerms(f) && LowestTerms(h)
    ensures FractionLcm(f, h) == Fraction(Lcm(f.num, h.num), Gcd(f.den, h.den))
  {
    var g, l := Gcd(f.den, h.den), Lcm(f.num, h.num);
    var x, y := Bezout(f.den, h.den);
    GcdPositive(f.den, h.den);
    LcmDividesProduct(f.num, h.num);
    assert FractionLcm(f, h) == Canon(l, g);
    hide Gcd, Lcm, Canon, Divides, FractionLcm;
    CoprimeSymmetric(f.num, f.den);
    CoprimeSymmetric(h.num, h.den);
    CoprimeDivisor(g, f.den, f.num);
    CoprimeDivisor(g, h.den, h.num);
    CoprimeProduct(g, f.num, h.num);
    CoprimeSymmetric(g, f.num * h.num);
    CoprimeDivisor(l, f.num * h.num, g);
    CanonOfLowest(Fraction(l, g));
  }

  /** Both arguments are integer multiples of the gcd, and every rational of which both are multiples
      has the gcd as a multiple.
   */
  lemma FractionGcdIsGreatest(f: Fraction, h: Fraction)
    requires LowestTerms(f) && LowestTerms(h)
    ensures LowestTerms(FractionGcd(f, h))
    ensures IsMultiple(f, FractionGcd(f, h)) && IsMultiple(h, FractionGcd(f, h))
    ensures forall e :: LowestTerms(e) && IsMultiple(f, e) && IsMultiple(h, e) ==> IsMultiple(FractionGcd(f, h), e)
  {
    var r := FractionGcd(f, h);
    GcdAlreadyReduced(f, h);
    LcmPositive(f.den, h.den);
    CanonIsLowest(Gcd(f.num, h.num), Lcm(f.den, h.den));
    var x, y := Bezout(f.num, h.num);
    LcmProperties(f.den, h.den);
    hide Gcd, Lcm, Canon, Divides, IsMultiple, FractionGcd, LowestTerms;
    MultipleInLowestTerms(f, r);
    MultipleInLowestTerms(h, r);
    forall e | LowestTerms(e) && IsMultiple(f, e) && IsMultiple(h, e) ensures IsMultiple(r, e) {
      MultipleInLowestTerms(f, e);
      MultipleInLowestTerms(h, e);
      GcdGreatest(e.num, f.num, h.num);
      MultipleInLowestTerms(r, e);
    }
  }

  /** The dual: the lcm is a multiple of both arguments and every common multiple is a multiple of it. */
  lemma FractionLcmIsLeast(f: Fraction, h: Fraction)
    requires LowestTerms(f) && LowestTerms(h)
    ensures LowestTerms(FractionLcm(f, h))
    ensures IsMultiple(FractionLcm(f, h), f) && IsMultiple(FractionLcm(f, h), h)
    ensures forall m :: LowestTerms(m) && IsMultiple(m, f) && IsMultiple(m, h) ==> IsMultiple(m, FractionLcm(f, h))
  {
    var r := FractionLcm(f, h);
    LcmAlreadyReduced(f, h);
    GcdPositive(f.den, h.den);
    CanonIsLowest(Lcm(f.num, h.num), Gcd(f.den, h.den));
    var x, y := Bezout(f.den, h.den);
    LcmProperties(f.num, h.num);
    hide Gcd, Lcm, Canon, Divides, IsMultiple, FractionLcm, LowestTerms;
    MultipleInLowestTerms(r, f);
    MultipleInLowestTerms(r, h);
    forall m | LowestTerms(m) && IsMultiple(m, f) && IsMultiple(m, h) ensures IsMultiple(m, r) {
      MultipleInLowestTerms(m, f);
      MultipleInLowestTerms(m, h);
      GcdGreatest(m.den, f.den, h.den);
      MultipleInLowestTerms(m, r);
    }
  }

  lemma AbsProduct(a: int, b: int)
    ensures Abs(a * b) == Abs(a) * Abs(b)
  {
    assert -a * b == -(a * b) && a * -b == -(a * b) && -a * -b == a * b;
    if (a < 0) == (b < 0) {
      MulMonotone(Abs(a), 0, Abs(b));
    } else {
      MulMonotone(Abs(a), 0, Abs(b));
    }
  }

  /** gcd times lcm is the absolute value of the product. */
  lemma GcdTimesLcm(f: Fraction, h: Fraction)
    requires LowestTerms(f) && LowestTerms(h)
    ensures f.den * h.den != 0
    ensures FractionGcd(f, h).den != 0 && FractionLcm(f, h).den != 0
    ensures Product(FractionGcd(f, h), FractionLcm(f, h)) == Canon(Abs(f.num * h.num), f.den * h.den)
  {
    ProductNonzero(f.den, h.den);
    GcdAlreadyReduced(f, h);
    LcmAlreadyReduced(f, h);
    LcmPositive(f.den, h.den);
    GcdPositive(f.den, h.den);
    LcmProperties(f.num, h.num);
    LcmProperties(f.den, h.den);
    AbsProduct(f.num, h.num);
    hide Gcd, Lcm, Canon, FractionGcd, FractionLcm, LowestTerms;
    assert Lcm(f.den, h.den) * Gcd(f.den, h.den) == f.den * h.den;
  }
}
