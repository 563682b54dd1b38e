/** Because the canonical pair is unique, the laws of arithmetic hold as equalities of stored pairs. */
module FractionLaws {
  import opened NumberTheory
  import opened Fractions
  import opened Ordering

  /** `f` has the value n / d. */
  predicate HasValue(f: Fraction, n: int, d: int) {
    d != 0 && LowestTerms(f) && f.num * d == n * f.den
  }

  lemma CanonHasValue(n: int, d: int)
    requires d != 0
    ensures HasValue(Canon(n, d), n, d)
  {
    CanonIsLowest(n, d);
  }

  lemma SameValueSamePair(f: Fraction, h: Fraction, n: int, d: int)
    requires HasValue(f, n, d) && HasValue(h, n, d)
    ensures f == h
  {
    CanonUnique(f, n, d);
    CanonUnique(h, n, d);
  }

  lemma Positive(f: Fraction)
    requires LowestTerms(f)
    ensures f.den > 0
  {
  }

  lemma CrossTerm(a: int, b: int, n: int, d: int, x: int, y: int)
    requires a * d == n * b
    ensures n * x * (b * y) == a * y * (d * x)
  {
    assert n * x * (b * y) == n * b * (x * y);
    assert a * y * (d * x) == a * d * (x * y);
  }

  lemma Distribute(x: int, y: int, z: int)
    ensures (x + y) * z == x * z + y * z
  {
  }

  lemma SumCrossValues(a: int, b: int, n: int, d: int, p: int, q: int, m: int, e: int)
    requires a * d == n * b && p * e == m * q
    ensures (n * e + m * d) * (b * q) == (a * q + p * b) * (d * e)
  {
    CrossTerm(a, b, n, d, e, q);
    CrossTerm(p, q, m, e, d, b);
    assert q * b == b * q && e * d == d * e;
    Distribute(n * e, m * d, b * q);
    Distribute(a * q, p * b, d * e);
  }

  /** Addition of values, whatever denominators they are written with. */
  lemma SumValue(f: Fraction, n: int, d: int, h: Fraction, m: int, e: int)
    requires HasValue(f, n, d) && HasValue(h, m, e)
    ensures HasValue(Sum(f, h), n * e + m * d, d * e)
  {
    hide Canon, LowestTerms;
    assert f.den > 0 && h.den > 0 by { Positive(f); Positive(h); }
    ProductNonzero(f.den, h.den);
    ProductNonzero(d, e);
    CanonIsLowest(f.num * h.den + h.num * f.den, f.den * h.den);
    SumCrossValues(f.num, f.den, n, d, h.num, h.den, m, e);
    var s := Sum(f, h);
    CrossTransitive(s.num, s.den, f.num * h.den + h.num * f.den, f.den * h.den, n * e + m * d, d * e);
  }

  lemma ProductCrossValues(a: int, b: int, n: int, d: int, p: int, q: int, m: int, e: int)
    requires a * d == n * b && p * e == m * q
    ensures n * m * (b * q) == a * p * (d * e)
  {
    assert n * m * (b * q) == n * b * (m * q);
    assert a * p * (d * e) == a * d * (p * e);
  }

  lemma ProductValue(f: Fraction, n: int, d: int, h: Fraction, m: int, e: int)
    requires HasValue(f, n, d) && HasValue(h, m, e)
    ensures HasValue(Product(f, h), n * m, d * e)
  {
    hide Canon, LowestTerms;
    assert f.den > 0 && h.den > 0 by { Positive(f); Positive(h); }
    ProductNonzero(f.den, h.den);
    ProductNonzero(d, e);
    CanonIsLowest(f.num * h.num, f.den * h.den);
    ProductCrossValues(f.num, f.den, n, d, h.num, h.den, m, e);
    var s := Product(f, h);
    CrossTransitive(s.num, s.den, f.num * h.num, f.den * h.den, n * m, d * e);
  }

  lemma OwnValue(f: Fraction)
    requires LowestTerms(f)
    ensures HasValue(f, f.num, f.den)
  {
  }

  /** The same value over a denominator multiplied by `k`. */
  lemma Rescaled(f: Fraction, n: int, d: int, k: int)
    requires HasValue(f, n, d) && k != 0
    ensures HasValue(f, n * k, d * k)
  {
    ProductNonzero(d, k);
    assert f.num * (d * k) == f.num * d * k == n * f.den * k == n * k * f.den;
  }

  lemma SumCommutes(f: Fraction, h: Fraction)
    requires f.den != 0 && h.den != 0
    ensures Sum(f, h) == Sum(h, f)
    ensures Product(f, h) == Product(h, f)
  {
    assert f.den * h.den == h.den * f.den && f.num * h.num == h.num * f.num;
  }

  lemma AssociatedSums(a: int, b: int, c: int, d: int, p: int, q: int)
    ensures (a * d + c * b) * q + p * (b * d) == a * (d * q) + (c * q + p * d) * b
    ensures b * d * q == b * (d * q)
  {
    Distribute(a * d, c * b, q);
    Distribute(c * q, p * d, b);
  }

  lemma SumAssociates(f: Fraction, h: Fraction, k: Fraction)
    requires LowestTerms(f) && LowestTerms(h) && LowestTerms(k)
    ensures LowestTerms(Sum(f, h)) && LowestTerms(Sum(h, k))
    ensures Sum(Sum(f, h), k) == Sum(f, Sum(h, k))
  {
    OwnValue(f);
    OwnValue(h);
    OwnValue(k);
    hide Canon, LowestTerms, Sum, Product;
    SumValue(f, f.num, f.den, h, h.num, h.den);
    SumValue(h, h.num, h.den, k, k.num, k.den);
    SumValue(Sum(f, h), f.num * h.den + h.num * f.den, f.den * h.den, k, k.num, k.den);
    SumValue(f, f.num, f.den, Sum(h, k), h.num * k.den + k.num * h.den, h.den * k.den);
    AssociatedSums(f.num, f.den, h.num, h.den, k.num, k.den);
    SameValueSamePair(Sum(Sum(f, h), k), Sum(f, Sum(h, k)),
                      (f.num * h.den + h.num * f.den) * k.den + k.num * (f.den * h.den),
                      f.den * h.den * k.den);
  }

  lemma ProductAssociates(f: Fraction, h: Fraction, k: Fraction)
    requires LowestTerms(f) && LowestTerms(h) && LowestTerms(k)
    ensures LowestTerms(Product(f, h)) && LowestTerms(Product(h, k))
    ensures Product(Product(f, h), k) == Product(f, Product(h, k))
  {
    OwnValue(f);
    OwnValue(h);
    OwnValue(k);
    hide Canon, LowestTerms, Sum, Product;
    ProductValue(f, f.num, f.den, h, h.num, h.den);
    ProductValue(h, h.num, h.den, k, k.num, k.den);
    ProductValue(Product(f, h), f.num * h.num, f.den * h.den, k, k.num, k.den);
    ProductValue(f, f.num, f.den, Product(h, k), h.num * k.num, h.den * k.den);
    MulAssociates(f.num, h.num, k.num);
    MulAssociates(f.den, h.den, k.den);
    SameValueSamePair(Product(Product(f, h), k), Product(f, Product(h, k)),
                      f.num * h.num * k.num, f.den * h.den * k.den);
  }

  lemma DistributedProducts(a: int, b: int, c: int, d: int, p: int, q: int)
    ensures a * (c * q + p * d) * b == a * c * (b * q) + a * p * (b * d)
    ensures b * (d * q) * b == b * d * (b * q)
  {
    Distribute(c * q, p * d, a * b);
    assert a * (c * q + p * d) * b == (c * q + p * d) * (a * b);
    assert c * q * (a * b) == a * c * (b * q) && p * d * (a * b) == a * p * (b * d);
  }

  lemma ProductDistributes(f: Fraction, h: Fraction, k: Fraction)
    requires LowestTerms(f) && LowestTerms(h) && LowestTerms(k)
    ensures LowestTerms(Sum(h, k)) && LowestTerms(Product(f, h)) && LowestTerms(Product(f, k))
    ensures Product(f, Sum(h, k)) == Sum(Product(f, h), Product(f, k))
  {
    OwnValue(f);
    OwnValue(h);
    OwnValue(k);
    hide Canon, LowestTerms, Sum, Product;
    SumValue(h, h.num, h.den, k, k.num, k.den);
    var n, d := h.num * k.den + k.num * h.den, h.den * k.den;
    ProductValue(f, f.num, f.den, Sum(h, k), n, d);
    ProductValue(f, f.num, f.den, h, h.num, h.den);
    ProductValue(f, f.num, f.den, k, k.num, k.den);
    SumValue(Product(f, h), f.num * h.num, f.den * h.den, Product(f, k), f.num * k.num, f.den * k.den);
    Rescaled(Product(f, Sum(h, k)), f.num * n, f.den * d, f.den);
    DistributedProducts(f.num, f.den, h.num, h.den, k.num, k.den);
    SameValueSamePair(Product(f, Sum(h, k)), Sum(Product(f, h), Product(f, k)), f.num * n * f.den, f.den * d * f.den);
  }

  lemma DifferenceIsSum(f: Fraction, h: Fraction)
    requires LowestTerms(f) && LowestTerms(h)
    ensures HasValue(Negation(h), -h.num, h.den)
    ensures Difference(f, h) == Sum(f, Negation(h))
  {
    assert -h.num * f.den == -(h.num * f.den);
  }

  lemma CancelledSum(a: int, b: int, c: int, d: int)
    ensures (a * d + c * b) * d + -c * (b * d) == a * (d * d)
    ensures b * d * d == b * (d * d)
  {
    Distribute(a * d, c * b, d);
  }

  /** Subtraction and division are the inverses of addition and multiplication. */
  lemma DifferenceUndoesSum(f: Fraction, h: Fraction)
    requires LowestTerms(f) && LowestTerms(h)
    ensures LowestTerms(Sum(f, h)) && Difference(Sum(f, h), h) == f
  {
    OwnValue(f);
    OwnValue(h);
    SumValue(f, f.num, f.den, h, h.num, h.den);
    var s := Sum(f, h);
    DifferenceIsSum(s, h);
    hide Canon, LowestTerms, Sum, Difference;
    var n, d := f.num * h.den + h.num * f.den, f.den * h.den;
    SumValue(s, n, d, Negation(h), -h.num, h.den);
    ProductNonzero(h.den, h.den);
    Rescaled(f, f.num, f.den, h.den * h.den);
    CancelledSum(f.num, f.den, h.num, h.den);
    SameValueSamePair(f, Difference(s, h), f.num * (h.den * h.den), f.den * (h.den * h.den));
  }

  lemma CancelledProduct(a: int, b: int, c: int, d: int, p: int, q: int)
    requires p * (b * d) == a * c * q
    ensures a * (q * c) == p * d * b
  {
    assert a * (q * c) == a * c * q;
    assert p * d * b == p * (b * d);
  }

  lemma RatioUndoesProduct(f: Fraction, h: Fraction)
    requires LowestTerms(f) && LowestTerms(h) && h.num != 0
    ensures LowestTerms(Product(f, h)) && Ratio(Product(f, h), h) == f
  {
    OwnValue(f);
    OwnValue(h);
    ProductValue(f, f.num, f.den, h, h.num, h.den);
    var s := Product(f, h);
    ProductNonzero(s.den, h.num);
    hide Canon, LowestTerms;
    CancelledProduct(f.num, f.den, h.num, h.den, s.num, s.den);
    CanonUnique(f, s.num * h.den, s.den * h.num);
  }

  // ---------- order ----------

  predicate Less(f: Fraction, h: Fraction) {
    Below(f.num, f.den, h.num, h.den)
  }

  /** On canonical pairs the order is total, and only identical pairs are unordered. */
  lemma OrderIsTotal(f: Fraction, h: Fraction)
    requires LowestTerms(f) && LowestTerms(h)
    ensures f == h <==> !Less(f, h) && !Less(h, f)
    ensures !(Less(f, h) && Less(h, f))
  {
    LowestTermsUnique(f, h);
  }

  lemma Scaled(x: int, y: int, k: int)
    requires k > 0
    ensures x < y <==> x * k < y * k
  {
    if x < y {
      MulMonotone(k, x + 1, y);
    } else {
      MulMonotone(k, y, x);
    }
  }

  /** The order of values, whatever positive denominators they are written with. */
  lemma LessValue(f: Fraction, n: int, d: int, h: Fraction, m: int, e: int)
    requires HasValue(f, n, d) && HasValue(h, m, e) && d > 0 && e > 0
    ensures Less(f, h) <==> n * e < m * d
  {
    var k := f.den * h.den;
    CrossTerm(f.num, f.den, n, d, e, h.den);
    CrossTerm(h.num, h.den, m, e, d, f.den);
    PositiveProduct(f.den, h.den);
    PositiveProduct(d, e);
    Scaled(n * e, m * d, k);
    Scaled(f.num * h.den, h.num * f.den, d * e);
    assert h.den * f.den == k && e * d == d * e;
  }

  lemma LessChain(a: int, b: int, c: int, d: int, p: int, q: int)
    requires b > 0 && d > 0 && q > 0 && a * d < c * b && c * q < p * d
    ensures a * q < p * b
  {
    Scaled(a * d, c * b, q);
    Scaled(c * q, p * d, b);
    assert a * d * q == a * q * d && c * b * q == c * q * b && p * d * b == p * b * d;
    Scaled(a * q, p * b, d);
  }

  lemma LessParts(f: Fraction, h: Fraction)
    ensures Less(f, h) <==> f.num * h.den < h.num * f.den
  {
  }

  lemma OrderIsTransitive(f: Fraction, h: Fraction, k: Fraction)
    requires LowestTerms(f) && LowestTerms(h) && LowestTerms(k) && Less(f, h) && Less(h, k)
    ensures Less(f, k)
  {
    hide LowestTerms, Less;
    assert f.den > 0 && h.den > 0 && k.den > 0 by { Positive(f); Positive(h); Positive(k); }
    LessChain(f.num, f.den, h.num, h.den, k.num, k.den) by { LessParts(f, h); LessParts(h, k); }
    LessParts(f, k);
  }

  lemma PairFactors(x: int, y: int, q: int)
    ensures x * q * (y * q) == x * y * (q * q)
  {
  }

  lemma SwapFactors(p: int, b: int, d: int, q: int)
    ensures p * b * (d * q) == p * d * (b * q)
  {
  }

  lemma CancelledOrder(a: int, b: int, c: int, d: int, p: int, q: int)
    requires q > 0
    ensures (a * q + p * b) * (d * q) < (c * q + p * d) * (b * q) <==> a * d < c * b
  {
    PositiveProduct(q, q);
    Scaled(a * d, c * b, q * q);
    Distribute(a * q, p * b, d * q);
    Distribute(c * q, p * d, b * q);
    PairFactors(a, d, q);
    PairFactors(c, b, q);
    SwapFactors(p, b, d, q);
  }

  /** Adding the same rational to both sides keeps the order. */
  lemma SumKeepsOrder(f: Fraction, h: Fraction, k: Fraction)
    requires LowestTerms(f) && LowestTerms(h) && LowestTerms(k)
    ensures LowestTerms(Sum(f, k)) && LowestTerms(Sum(h, k))
    ensures Less(Sum(f, k), Sum(h, k)) <==> Less(f, h)
  {
    OwnValue(f);
    OwnValue(h);
    OwnValue(k);
    hide Canon, LowestTerms, Sum;
    SumValue(f, f.num, f.den, k, k.num, k.den);
    SumValue(h, h.num, h.den, k, k.num, k.den);
    assert f.den > 0 && h.den > 0 && k.den > 0 by { Positive(f); Positive(h); Positive(k); }
    PositiveProduct(f.den, k.den);
    PositiveProduct(h.den, k.den);
    LessValue(Sum(f, k), f.num * k.den + k.num * f.den, f.den * k.den, Sum(h, k), h.num * k.den + k.num * h.den, h.den * k.den);
    CancelledOrder(f.num, f.den, h.num, h.den, k.num, k.den);
  }
}
