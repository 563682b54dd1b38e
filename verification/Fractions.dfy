/** Exact fractions, their canonical form, and the arithmetic that the rational class must agree with:
    cross-multiply first, reduce to lowest terms afterwards.
 */
module Fractions {
  import opened NumberTheory

  datatype Fraction = Fraction(num: int, den: int)

  /** The class invariant: positive denominator, nothing left to cancel. */
  predicate LowestTerms(f: Fraction) {
    f.den > 0 && Coprime(f.num, f.den)
  }

  lemma GcdPositive(n: int, d: int)
    requires d != 0
    ensures Gcd(n, d) > 0
  {
    var x, y := Bezout(n, d);
  }

  /** The fraction in lowest terms with the value n / d. */
  function Canon(n: int, d: int): (f: Fraction)
    requires d != 0
  {
    GcdPositive(n, d);
    var g := Gcd(n, d);
    if d > 0 then Fraction(n / g, d / g) else Fraction(-(n / g), -(d / g))
  }

  lemma CoprimeMirrored(k: int, l: int)
    requires Coprime(k, l)
    ensures Coprime(-k, -l)
  {
  }

  lemma PositivePart(g: int, l: int)
    requires g > 0
    ensures g * l > 0 <==> l > 0
    ensures g * l < 0 <==> l < 0
  {
  }

  lemma CrossReduced(g: int, k: int, l: int)
    ensures k * (g * l) == g * k * l
    ensures -k * (g * l) == g * k * -l
  {
  }

  lemma LowestFromParts(f: Fraction)
    requires f.den > 0 && Coprime(f.num, f.den)
    ensures LowestTerms(f)
  {
  }

  lemma CanonIsLowest(n: int, d: int)
    requires d != 0
    ensures LowestTerms(Canon(n, d))
    ensures Canon(n, d).num * d == n * Canon(n, d).den
  {
    var k, l := ReducedCoprime(n, d);
    var g := Gcd(n, d);
    assert Canon(n, d) == if d > 0 then Fraction(k, l) else Fraction(-k, -l);
    hide *;
    CoprimeMirrored(k, l);
    PositivePart(g, l);
    CrossReduced(g, k, l);
    assert LowestTerms(Canon(n, d)) by {
      LowestFromParts(Canon(n, d));
    }
  }

  lemma DenominatorDivides(f: Fraction, h: Fraction)
    requires LowestTerms(f) && LowestTerms(h) && f.num * h.den == h.num * f.den
    ensures Divides(f.den, h.den)
  {
    hide Gcd, Divides;
    MultipleDivides(f.den, h.num);
    CoprimeSymmetric(f.num, f.den);
    assert f.num * h.den == f.den * h.num;
    EuclidsLemma(f.den, f.num, h.den);
  }

  /** Two fractions in lowest terms with the same value are the same pair. */
  lemma LowestTermsUnique(f: Fraction, h: Fraction)
    requires LowestTerms(f) && LowestTerms(h)
    ensures f.num * h.den == h.num * f.den <==> f == h
  {
    if f.num * h.den == h.num * f.den {
      DenominatorDivides(f, h);
      DenominatorDivides(h, f);
      DividesEachOther(f.den, h.den);
      assert f.den * f.num == f.den * h.num;
      CancelFactor(f.den, f.num, h.num);
    }
  }

  lemma CrossTransitive(a: int, b: int, n: int, d: int, p: int, q: int)
    requires d != 0 && a * d == n * b && p * d == n * q
    ensures a * q == p * b
  {
    assert d * (a * q) == n * b * q == d * (p * b);
    CancelFactor(d, a * q, p * b);
  }

  /** Anything in lowest terms with the value n / d is the canonical fraction. */
  lemma CanonUnique(f: Fraction, n: int, d: int)
    requires d != 0 && LowestTerms(f) && f.num * d == n * f.den
    ensures f == Canon(n, d)
  {
    var c := Canon(n, d);
    CanonIsLowest(n, d);
    hide Canon, LowestTerms;
    CrossTransitive(f.num, f.den, n, d, c.num, c.den);
    LowestTermsUnique(f, c);
  }

  lemma CanonEqual(n: int, d: int, m: int, e: int)
    requires d != 0 && e != 0 && n * e == m * d
    ensures Canon(n, d) == Canon(m, e)
  {
    var c := Canon(n, d);
    CanonIsLowest(n, d);
    hide Canon, LowestTerms;
    CrossTransitive(c.num, c.den, n, d, m, e);
    CanonUnique(c, m, e);
  }

  lemma CanonOfLowest(f: Fraction)
    requires LowestTerms(f)
    ensures Canon(f.num, f.den) == f
  {
    CanonUnique(f, f.num, f.den);
  }

  lemma ProductNonzero(a: int, b: int)
    requires a != 0 && b != 0
    ensures a * b != 0
  {
  }

  // ---------- exact arithmetic ----------

  function Sum(f: Fraction, h: Fraction): Fraction
    requires f.den != 0 && h.den != 0
  {
    ProductNonzero(f.den, h.den);
    Canon(f.num * h.den + h.num * f.den, f.den * h.den)
  }

  function Difference(f: Fraction, h: Fraction): Fraction
    requires f.den != 0 && h.den != 0
  {
    ProductNonzero(f.den, h.den);
    Canon(f.num * h.den - h.num * f.den, f.den * h.den)
  }

  function Product(f: Fraction, h: Fraction): Fraction
    requires f.den != 0 && h.den != 0
  {
    ProductNonzero(f.den, h.den);
    Canon(f.num * h.num, f.den * h.den)
  }

  function Ratio(f: Fraction, h: Fraction): Fraction
    requires f.den != 0 && h.num != 0
  {
    ProductNonzero(f.den, h.num);
    Canon(f.num * h.den, f.den * h.num)
  }

  function Negation(f: Fraction): Fraction {
    Fraction(-f.num, f.den)
  }

  function Whole(i: int): Fraction {
    Fraction(i, 1)
  }

  lemma WholeIsLowest(i: int)
    ensures LowestTerms(Whole(i))
  {
    CoprimeFromCombination(i, 1, 0, 1);
  }

  // ---------- the reduced algorithms reach the same pair ----------

  /** a d1 + c b1 shares nothing with b1. */
  lemma CrossTermCoprime(a: int, b: int, c: int, g: int, b1: int, d1: int)
    requires Coprime(a, b) && b == g * b1 && Coprime(b1, d1)
    ensures Coprime(a * d1 + c * b1, b1)
  {
    hide Gcd, Divides;
    CoprimeSymmetric(a, b);
    assert g * b1 == b1 * g;
    MultipleDivides(b1, g);
    CoprimeDivisor(b1, b, a);
    CoprimeProduct(b1, a, d1);
    CoprimeSymmetric(b1, a * d1);
    CoprimeShift(a * d1, b1, c);
  }

  lemma SumPartsCoprime(a: int, b: int, c: int, d: int, g: int, b1: int, d1: int, h: int, t: int)
    requires Coprime(a, b) && Coprime(c, d)
    requires b == g * b1 && d == g * d1 && Coprime(b1, d1)
    requires a * d1 + c * b1 == h * t
    ensures Coprime(t, b1) && Coprime(t, d1)
  {
    hide Gcd, Divides;
    CrossTermCoprime(a, b, c, g, b1, d1);
    CoprimeSymmetric(b1, d1);
    CrossTermCoprime(c, d, a, g, d1, b1);
    MultipleDivides(t, h);
    assert t * h == a * d1 + c * b1 == c * b1 + a * d1;
    CoprimeDivisor(t, a * d1 + c * b1, b1);
    CoprimeDivisor(t, c * b1 + a * d1, d1);
  }

  lemma SumDenominatorPositive(b: int, d: int, g: int, b1: int, d1: int, h: int, g1: int)
    requires b > 0 && d > 0 && g > 0 && h > 0 && b == g * b1 && d == g * d1 && g == h * g1
    ensures b1 * (g1 * d1) > 0 && b * d > 0
  {
    PositivePart(g, b1);
    PositivePart(g, d1);
    PositivePart(h, g1);
    PositivePart(g1, d1);
    PositivePart(b1, g1 * d1);
    PositivePart(b, d);
  }

  lemma Shuffle(t: int, g: int, b1: int, h: int, g1: int, d1: int)
    ensures t * (g * b1 * (h * g1 * d1)) == g * (h * t) * (b1 * (g1 * d1))
  {
    var x := g1 * d1;
    assert h * g1 * d1 == h * x;
    assert g * b1 * (h * x) == g * h * (b1 * x);
    assert g * (h * t) == g * h * t;
    var y := g * h;
    assert t * (y * (b1 * x)) == y * t * (b1 * x);
  }

  lemma SumCross(a: int, b: int, c: int, d: int, g: int, b1: int, d1: int, h: int, t: int, g1: int)
    requires b == g * b1 && d == g * d1 && a * d1 + c * b1 == h * t && g == h * g1
    ensures t * (b * d) == (a * d + c * b) * (b1 * (g1 * d1))
  {
    assert a * d + c * b == g * (h * t) by {
      assert a * d == g * (a * d1);
      assert c * b == g * (c * b1);
    }
    assert b * d == g * b1 * (h * g1 * d1);
    Shuffle(t, g, b1, h, g1, d1);
  }

  /** The library's addition divides the cross sum only by gcd(a d1 + c b1, g), and that is enough. */
  lemma ReducedSum(a: int, b: int, c: int, d: int, g: int, b1: int, d1: int, h: int, t: int, g1: int)
    requires b > 0 && d > 0 && Coprime(a, b) && Coprime(c, d)
    requires b == g * b1 && d == g * d1 && Coprime(b1, d1) && g > 0
    requires a * d1 + c * b1 == h * t && g == h * g1 && Coprime(t, g1) && h > 0
    ensures LowestTerms(Fraction(t, b1 * (g1 * d1)))
    ensures Fraction(t, b1 * (g1 * d1)) == Sum(Fraction(a, b), Fraction(c, d))
  {
    hide Canon, Gcd, Divides;
    var den := b1 * (g1 * d1);
    SumPartsCoprime(a, b, c, d, g, b1, d1, h, t);
    CoprimeProduct(t, g1, d1);
    CoprimeProduct(t, b1, g1 * d1);
    SumDenominatorPositive(b, d, g, b1, d1, h, g1);
    SumCross(a, b, c, d, g, b1, d1, h, t, g1);
    CanonUnique(Fraction(t, den), a * d + c * b, b * d);
  }

  lemma ReducedDifference(a: int, b: int, c: int, d: int, g: int, b1: int, d1: int, h: int, t: int, g1: int)
    requires b > 0 && d > 0 && Coprime(a, b) && Coprime(c, d)
    requires b == g * b1 && d == g * d1 && Coprime(b1, d1) && g > 0
    requires a * d1 - c * b1 == h * t && g == h * g1 && Coprime(t, g1) && h > 0
    ensures LowestTerms(Fraction(t, b1 * (g1 * d1)))
    ensures Fraction(t, b1 * (g1 * d1)) == Difference(Fraction(a, b), Fraction(c, d))
  {
    CoprimeNegation(c, d);
    assert a * d1 + -c * b1 == a * d1 - c * b1;
    assert a * d + -c * b == a * d - c * b;
    hide Canon, Gcd, LowestTerms;
    ReducedSum(a, b, -c, d, g, b1, d1, h, t, g1);
  }

  lemma FactorsCoprime(a: int, b: int, g: int, a1: int, h: int, b1: int)
    requires Coprime(a, b) && a == g * a1 && b == h * b1
    ensures Coprime(a1, b1)
  {
    hide Gcd, Divides;
    assert a == a1 * g && b == b1 * h;
    MultipleDivides(a1, g);
    MultipleDivides(b1, h);
    CoprimeDivisor(a1, a, b);
    CoprimeSymmetric(a1, b);
    CoprimeDivisor(b1, b, a1);
    CoprimeSymmetric(b1, a1);
  }

  lemma ProductCross(a1: int, b1: int, c1: int, d1: int, g1: int, g2: int)
    ensures a1 * c1 * (g2 * b1 * (g1 * d1)) == g1 * a1 * (g2 * c1) * (b1 * d1)
  {
    var x, y := a1 * c1, b1 * d1;
    assert g2 * b1 * (g1 * d1) == g1 * g2 * y;
    assert g1 * a1 * (g2 * c1) == g1 * g2 * x;
    assert x * (g1 * g2 * y) == g1 * g2 * x * y;
  }

  /** The library's multiplication cancels crosswise before it multiplies. */
  lemma ReducedProduct(a: int, b: int, c: int, d: int, g1: int, a1: int, d1: int, g2: int, c1: int, b1: int)
    requires b > 0 && d > 0 && Coprime(a, b) && Coprime(c, d) && g1 > 0 && g2 > 0
    requires a == g1 * a1 && d == g1 * d1 && Coprime(a1, d1)
    requires c == g2 * c1 && b == g2 * b1 && Coprime(c1, b1)
    ensures Fraction(a1 * c1, b1 * d1) == Product(Fraction(a, b), Fraction(c, d))
  {
    hide Canon, Gcd, Divides;
    PositivePart(g1, d1);
    PositivePart(g2, b1);
    PositivePart(b1, d1);
    PositivePart(b, d);
    FactorsCoprime(a, b, g1, a1, g2, b1);
    FactorsCoprime(c, d, g2, c1, g1, d1);
    CoprimeProduct(a1, b1, d1);
    CoprimeProduct(c1, b1, d1);
    CoprimeSymmetric(a1, b1 * d1);
    CoprimeSymmetric(c1, b1 * d1);
    CoprimeProduct(b1 * d1, a1, c1);
    CoprimeSymmetric(b1 * d1, a1 * c1);
    ProductCross(a1, b1, c1, d1, g1, g2);
    CanonUnique(Fraction(a1 * c1, b1 * d1), a * c, b * d);
  }
}
