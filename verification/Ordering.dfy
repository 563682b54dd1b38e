/** Comparing fractions term by term of their continued fraction expansions. */
module Ordering {
  import opened NumberTheory
  import opened IntegerOps

  /** n = q d + r with the remainder of floor division */
  predicate Split(n: int, d: int, q: int, r: int) {
    d > 0 && n == q * d + r && 0 <= r < d
  }

  /** n1 / d1 < n2 / d2 for positive denominators */
  predicate Below(n1: int, d1: int, n2: int, d2: int) {
    n1 * d2 < n2 * d1
  }

  lemma SmallerQuotient(a: nat, d: nat, q: int, r: int)
    requires d > 0 && a == d * q + r && 0 <= r < d
    ensures 0 <= q <= a && (r > 0 ==> q + 1 <= a)
  {
    if q <= -1 {
      MulMonotone(d, q, -1);
    } else {
      MulMonotone(q, 1, d);
    }
  }

  lemma QuotOfAbs(n: int, d: int)
    requires d > 0
    ensures Quot(n, d) == if n < 0 then -(Abs(n) / d) else Abs(n) / d
    ensures Rem(n, d) == if n < 0 then -(Abs(n) % d) else Abs(n) % d
  {
    var q, r := Abs(n) / d, Abs(n) % d;
    assert Abs(n) == d * q + r;
    assert d * -q == -(d * q);
  }

  /** Quotient and remainder stay within the operands, and so does a quotient that still has to be
      lowered because the remainder is negative.
   */
  lemma QuotRange(limit: nat, n: int, d: int)
    requires d > 0 && InRange(limit, n) && InRange(limit, d)
    ensures InRange(limit, Quot(n, d)) && InRange(limit, Rem(n, d))
    ensures Rem(n, d) < 0 ==> InRange(limit, Quot(n, d) - 1)
    ensures n >= 0 ==> Split(n, d, Quot(n, d), Rem(n, d))
  {
    var q, r := Abs(n) / d, Abs(n) % d;
    SmallerQuotient(Abs(n), d, q, r);
    QuotOfAbs(n, d);
    hide Quot, Rem;
    assert d * q == q * d;
  }

  /** Truncating division, moved to floor division by adding the denominator while the remainder is
      negative; all in range of the operands.
   */
  method FloorDivide(n: int, d: int, ghost limit: nat) returns (q: int, r: int)
    requires d > 0 && InRange(limit, n) && InRange(limit, d)
    ensures Split(n, d, q, r)
  {
    QuotRange(limit, n, d);
    RemSign(n, d);
    hide Quot, Rem;
    q, r := Fit(limit, Quot(n, d)), Fit(limit, Rem(n, d));
    while r < 0
      invariant n == q * d + r && -d < r < d && InRange(limit, q)
      invariant r < 0 ==> InRange(limit, q - 1)
      decreases -r
    {
      assert (q - 1) * d == q * d - d;
      r := Fit(limit, r + d);
      q := Fit(limit, q - 1);
    }
  }

  lemma CrossSplit(n1: int, d1: int, q1: int, r1: int, n2: int, d2: int, q2: int, r2: int)
    requires Split(n1, d1, q1, r1) && Split(n2, d2, q2, r2)
    ensures n1 * d2 == d1 * d2 * q1 + d2 * r1
    ensures n2 * d1 == d1 * d2 * q2 + d1 * r2
  {
    assert (q1 * d1 + r1) * d2 == q1 * d1 * d2 + r1 * d2;
    assert (q2 * d2 + r2) * d1 == q2 * d2 * d1 + r2 * d1;
  }

  lemma PositiveProduct(a: int, b: int)
    requires a > 0 && b > 0
    ensures a * b > 0
  {
  }

  lemma FractionalPart(d: int, e: int, r: int)
    requires e > 0 && 0 <= r < d
    ensures 0 <= e * r < d * e
  {
    MulMonotone(e, 0, r);
    MulMonotone(e, r + 1, d);
  }

  lemma HigherMultiple(k: int, q1: int, x: int, q2: int, y: int)
    requires k > 0 && q1 < q2 && x < k && 0 <= y
    ensures k * q1 + x < k * q2 + y
  {
    MulMonotone(k, q1 + 1, q2);
  }

  /** Different floors decide. */
  lemma QuotientsDecide(n1: int, d1: int, q1: int, r1: int, n2: int, d2: int, q2: int, r2: int)
    requires Split(n1, d1, q1, r1) && Split(n2, d2, q2, r2)
    ensures q1 < q2 ==> Below(n1, d1, n2, d2)
    ensures q1 > q2 ==> !Below(n1, d1, n2, d2)
  {
    CrossSplit(n1, d1, q1, r1, n2, d2, q2, r2);
    PositiveProduct(d1, d2);
    FractionalPart(d1, d2, r1);
    FractionalPart(d2, d1, r2);
    assert d2 * d1 == d1 * d2;
    if q1 < q2 {
      HigherMultiple(d1 * d2, q1, d2 * r1, q2, d1 * r2);
    } else if q1 > q2 {
      HigherMultiple(d1 * d2, q2, d1 * r2, q1, d2 * r1);
    }
  }

  /** Equal floors leave the order to the fractional parts, and taking reciprocals turns it round. */
  lemma RemaindersDecide(n1: int, d1: int, q1: int, r1: int, n2: int, d2: int, q2: int, r2: int)
    requires Split(n1, d1, q1, r1) && Split(n2, d2, q2, r2) && q1 == q2
    ensures Below(n1, d1, n2, d2) <==> Below(d2, r2, d1, r1)
    ensures r1 == 0 || r2 == 0 ==> (Below(n1, d1, n2, d2) <==> r1 == 0 && r2 != 0)
  {
    CrossSplit(n1, d1, q1, r1, n2, d2, q2, r2);
    MulMonotone(d1, 0, r2);
    MulMonotone(d2, 0, r1);
    if r2 > 0 {
      PositiveProduct(d1, r2);
    }
    if r1 > 0 {
      PositiveProduct(d2, r1);
    }
  }

  lemma QuotientDecidesInteger(n: int, d: int, q: int, r: int, i: int)
    requires Split(n, d, q, r)
    ensures q < i <==> n < i * d
  {
    if q < i {
      MulMonotone(d, q + 1, i);
    } else {
      MulMonotone(d, i, q);
    }
  }
}
