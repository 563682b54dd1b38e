/** Stored pairs as real numbers: exact arithmetic on pairs is arithmetic on the numbers they stand for. */
module RealNumbers {
  import opened NumberTheory
  import opened Ordering
  import opened Fractions
  import opened FractionLaws
  import opened Evaluators

  function Real(f: Fraction): (x: real)
    requires f.den != 0
  {
    f.num as real / f.den as real
  }

  lemma CastProduct(a: int, b: int)
    ensures (a * b) as real == a as real * b as real
  {
  }

  /** A quotient is the number whose product with the denominator is the numerator. */
  lemma QuotientIs(x: real, a: real, b: real)
    requires b != 0.0
    ensures x == a / b <==> x * b == a
  {
  }

  lemma SameReal(f: Fraction, n: int, d: int)
    requires f.den != 0 && d != 0
    ensures Real(f) == n as real / d as real <==> f.num * d == n * f.den
  {
    var a, b, x, y := f.num as real, f.den as real, n as real, d as real;
    CastProduct(f.num, d);
    CastProduct(n, f.den);
    QuotientIs(a / b, a, b);
    QuotientIs(x / y, x, y);
    if a / b == x / y {
      assert a * y == a / b * b * y == x / y * y * b == x * b;
    }
    if a * y == x * b {
      assert a / b * b * y == x / y * y * b;
      assert (a / b - x / y) * (b * y) == 0.0;
    }
  }

  /** Reducing to lowest terms does not change the number. */
  lemma CanonIsExact(n: int, d: int)
    requires d != 0
    ensures LowestTerms(Canon(n, d)) && Real(Canon(n, d)) == n as real / d as real
  {
    CanonIsLowest(n, d);
    SameReal(Canon(n, d), n, d);
  }

  /** Two stored pairs are the same pair if and only if they stand for the same number. */
  lemma EqualityIsExact(f: Fraction, h: Fraction)
    requires LowestTerms(f) && LowestTerms(h)
    ensures f == h <==> Real(f) == Real(h)
  {
    SameReal(f, h.num, h.den);
    LowestTermsUnique(f, h);
  }

  lemma RealSum(a: real, b: real, c: real, d: real)
    requires b != 0.0 && d != 0.0
    ensures (a * d + c * b) / (b * d) == a / b + c / d
  {
    var x, y := a / b, c / d;
    QuotientIs(x, a, b);
    QuotientIs(y, c, d);
    assert (x + y) * (b * d) == x * b * d + y * d * b;
    QuotientIs(x + y, a * d + c * b, b * d);
  }

  lemma RealProduct(a: real, b: real, c: real, d: real)
    requires b != 0.0 && d != 0.0
    ensures a * c / (b * d) == a / b * (c / d)
  {
    var x, y := a / b, c / d;
    QuotientIs(x, a, b);
    QuotientIs(y, c, d);
    assert x * y * (b * d) == x * b * (y * d);
    QuotientIs(x * y, a * c, b * d);
  }

  lemma RealRatio(a: real, b: real, c: real, d: real)
    requires b != 0.0 && c != 0.0 && d != 0.0
    ensures c / d != 0.0 && a * d / (b * c) == a / b / (c / d)
  {
    var x, y := a / b, c / d;
    QuotientIs(x, a, b);
    QuotientIs(y, c, d);
    var z := x / y;
    QuotientIs(z, x, y);
    assert z * (b * c) == z * (b * (y * d)) == z * y * b * d == x * b * d;
    QuotientIs(z, a * d, b * c);
  }

  // ---------- unreduced pairs ----------

  lemma CastCrossSum(a: int, b: int, c: int, d: int)
    ensures (a * d + c * b) as real == a as real * d as real + c as real * b as real
  {
    CastProduct(a, d);
    CastProduct(c, b);
  }

  lemma CrossSum(a: int, b: int, c: int, d: int)
    requires b != 0 && d != 0
    ensures b * d != 0 && (a * d + c * b) as real / (b * d) as real == a as real / b as real + c as real / d as real
  {
    ProductNonzero(b, d);
    var n, m := (a * d + c * b) as real, (b * d) as real;
    assert n == a as real * d as real + c as real * b as real by { CastCrossSum(a, b, c, d); }
    assert m == b as real * d as real by { CastProduct(b, d); }
    RealSum(a as real, b as real, c as real, d as real);
  }

  lemma CrossDifference(a: int, b: int, c: int, d: int)
    requires b != 0 && d != 0
    ensures b * d != 0 && (a * d - c * b) as real / (b * d) as real == a as real / b as real - c as real / d as real
  {
    assert a * d - c * b == a * d + -c * b;
    CrossSum(a, b, -c, d);
    QuotientIs(-(c as real / d as real), -c as real, d as real);
  }

  lemma Products(a: int, b: int, c: int, d: int)
    requires b != 0 && d != 0
    ensures b * d != 0 && (a * c) as real / (b * d) as real == a as real / b as real * (c as real / d as real)
  {
    ProductNonzero(b, d);
    var n, m := (a * c) as real, (b * d) as real;
    assert n == a as real * c as real by { CastProduct(a, c); }
    assert m == b as real * d as real by { CastProduct(b, d); }
    RealProduct(a as real, b as real, c as real, d as real);
  }

  lemma Ratios(a: int, b: int, c: int, d: int)
    requires b != 0 && c != 0 && d != 0
    ensures b * c != 0 && c as real / d as real != 0.0
    ensures (a * d) as real / (b * c) as real == a as real / b as real / (c as real / d as real)
  {
    ProductNonzero(b, c);
    var n, m := (a * d) as real, (b * c) as real;
    assert n == a as real * d as real by { CastProduct(a, d); }
    assert m == b as real * c as real by { CastProduct(b, c); }
    RealRatio(a as real, b as real, c as real, d as real);
  }

  /** The unreduced results of the four operations. */
  lemma UnreducedIsExact(f: Fraction, h: Fraction)
    requires f.den != 0 && h.den != 0
    ensures f.den * h.den != 0
    ensures Real(Fraction(f.num * h.den + h.num * f.den, f.den * h.den)) == Real(f) + Real(h)
    ensures Real(Fraction(f.num * h.den - h.num * f.den, f.den * h.den)) == Real(f) - Real(h)
    ensures Real(Fraction(f.num * h.num, f.den * h.den)) == Real(f) * Real(h)
  {
    CrossSum(f.num, f.den, h.num, h.den);
    CrossDifference(f.num, f.den, h.num, h.den);
    Products(f.num, f.den, h.num, h.den);
  }

  lemma UnreducedRatioIsExact(f: Fraction, h: Fraction)
    requires f.den != 0 && h.den != 0 && h.num != 0
    ensures f.den * h.num != 0 && Real(h) != 0.0
    ensures Real(Fraction(f.num * h.den, f.den * h.num)) == Real(f) / Real(h)
  {
    Ratios(f.num, f.den, h.num, h.den);
  }

  // ---------- the operations on stored pairs ----------

  /** What the operations do to the numbers, for all pairs that stand for numbers. */
  lemma SumIsExact(f: Fraction, h: Fraction)
    requires f.den != 0 && h.den != 0
    ensures Sum(f, h).den != 0 && Real(Sum(f, h)) == Real(f) + Real(h)
  {
    CrossSum(f.num, f.den, h.num, h.den);
    CanonIsExact(f.num * h.den + h.num * f.den, f.den * h.den);
    hide Canon;
  }

  lemma DifferenceIsExact(f: Fraction, h: Fraction)
    requires f.den != 0 && h.den != 0
    ensures Difference(f, h).den != 0 && Real(Difference(f, h)) == Real(f) - Real(h)
  {
    CrossDifference(f.num, f.den, h.num, h.den);
    CanonIsExact(f.num * h.den - h.num * f.den, f.den * h.den);
    hide Canon;
  }

  lemma ProductIsExact(f: Fraction, h: Fraction)
    requires f.den != 0 && h.den != 0
    ensures Product(f, h).den != 0 && Real(Product(f, h)) == Real(f) * Real(h)
  {
    Products(f.num, f.den, h.num, h.den);
    CanonIsExact(f.num * h.num, f.den * h.den);
    hide Canon;
  }

  lemma RatioIsExact(f: Fraction, h: Fraction)
    requires f.den != 0 && h.den != 0 && h.num != 0
    ensures Ratio(f, h).den != 0 && Real(h) != 0.0 && Real(Ratio(f, h)) == Real(f) / Real(h)
  {
    Ratios(f.num, f.den, h.num, h.den);
    CanonIsExact(f.num * h.den, f.den * h.num);
    hide Canon;
  }

  lemma NegationIsExact(f: Fraction)
    requires f.den != 0
    ensures Real(Negation(f)) == -Real(f)
  {
    QuotientIs(-Real(f), -f.num as real, f.den as real);
  }

  lemma WholeIsExact(i: int)
    ensures Real(Whole(i)) == i as real
  {
  }

  lemma RealOrder(a: real, b: real, c: real, d: real)
    requires b > 0.0 && d > 0.0
    ensures a / b < c / d <==> a * d < c * b
  {
    var x, y := a / b, c / d;
    QuotientIs(x, a, b);
    QuotientIs(y, c, d);
    assert a * d == x * (b * d) && c * b == y * (b * d);
    assert (y - x) * (b * d) == c * b - a * d;
  }

  /** The order of pairs is the order of the numbers. */
  lemma OrderIsExact(f: Fraction, h: Fraction)
    requires f.den > 0 && h.den > 0
    ensures Less(f, h) <==> Real(f) < Real(h)
  {
    CastProduct(f.num, h.den);
    CastProduct(h.num, f.den);
    RealOrder(f.num as real, f.den as real, h.num as real, h.den as real);
  }

  lemma MultipleOf(f: Fraction, e: Fraction, k: int)
    requires f.den != 0 && e.den != 0
    ensures f.num * e.den == k * e.num * f.den <==> Real(f) == k as real * Real(e)
  {
    SameReal(f, k * e.num, e.den);
    Products(k, 1, e.num, e.den);
  }

  /** A multiple, in the sense of the gcd and lcm of rationals, is an integer multiple of the number. */
  lemma MultipleIsExact(f: Fraction, e: Fraction)
    requires f.den != 0 && e.den != 0
    ensures IsMultiple(f, e) <==> exists k: int :: Real(f) == Real(Whole(k)) * Real(e)
  {
    if IsMultiple(f, e) {
      var k: int :| f.num * e.den == k * e.num * f.den;
      MultipleOf(f, e, k);
      WholeIsExact(k);
      assert Real(f) == Real(Whole(k)) * Real(e);
    }
    if k: int :| Real(f) == Real(Whole(k)) * Real(e) {
      MultipleOf(f, e, k);
      WholeIsExact(k);
      assert f.num * e.den == k * e.num * f.den;
    }
  }
}
