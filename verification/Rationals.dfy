/** The mutable rational number: a numerator and a denominator kept in lowest terms, updated in place
    by algorithms that cancel before they multiply.
 */
module Rationals {
  import opened NumberTheory
  import opened CommonFactor
  import opened Fractions
  import opened IntegerOps
  import opened Ordering

  lemma NormalizedParts(n: int, d: int, g: int, k: int, l: int)
    requires d != 0 && g > 0 && n == g * k && d == g * l && Coprime(k, l)
    ensures var f := if l < 0 then Fraction(-k, -l) else Fraction(k, l);
            LowestTerms(f) && f == Canon(n, d)
  {
    PositivePart(g, l);
    CrossReduced(g, k, l);
    CoprimeMirrored(k, l);
    CanonUnique(if l < 0 then Fraction(-k, -l) else Fraction(k, l), n, d);
  }

  /** d / h for h dividing g dividing d */
  lemma DenominatorOverGcd(d: int, g: int, d1: int, h: int, g1: int)
    requires d == g * d1 && g == h * g1 && h > 0
    ensures Quot(d, h) == g1 * d1
  {
    hide Quot;
    MulAssociates(h, g1, d1);
    QuotExact(h, g1 * d1);
  }

  /** The smallest symmetric range that holds two operands and a result. */
  function Limit(f: Fraction, h: Fraction, result: Fraction): nat {
    Max(Max(Max(Abs(f.num), Abs(f.den)), Max(Abs(h.num), Abs(h.den))), Max(Abs(result.num), Abs(result.den)))
  }

  /** A symmetric range holds all six parts if and only if it reaches that limit. */
  lemma LimitIsLeast(f: Fraction, h: Fraction, result: Fraction, m: int)
    ensures Limit(f, h, result) <= m
            <==> && -m <= f.num <= m && -m <= f.den <= m && -m <= h.num <= m && -m <= h.den <= m
                 && -m <= result.num <= m && -m <= result.den <= m
  {
  }

  lemma PartsInRange(limit: nat, g: int, k: int, l: int)
    requires g > 0 && InRange(limit, g * k) && InRange(limit, g * l)
    ensures InRange(limit, k) && InRange(limit, l)
    ensures k != 0 || l != 0 ==> InRange(limit, g)
  {
    FactorInRange(limit, g, k);
    FactorInRange(limit, g, l);
  }

  lemma CoprimeNegatedRight(a: int, b: int)
    requires Coprime(a, b)
    ensures Coprime(a, -b)
  {
  }

  lemma MirroredCross(a: int, b: int, c: int, d: int)
    ensures a * -d * (b * c) == a * d * (b * -c)
  {
    assert a * -d == -(a * d) && b * -c == -(b * c);
  }

  lemma MirroredRatio(a: int, b: int, c: int, d: int)
    requires b != 0 && c != 0
    ensures Product(Fraction(a, b), Fraction(-d, -c)) == Ratio(Fraction(a, b), Fraction(c, d))
  {
    hide Canon;
    ProductNonzero(b, c);
    ProductNonzero(b, -c);
    MirroredCross(a, b, c, d);
    CanonEqual(a * -d, b * -c, a * d, b * c);
  }

  lemma NegatedProducts(x: int, y: int)
    ensures x * -y == -(x * y)
  {
  }

  /** Division cancels like multiplication by the reciprocal, with the sign moved to the numerator. */
  lemma ReducedRatio(a: int, b: int, c: int, d: int, g1: int, a1: int, c1: int, g2: int, d1: int, b1: int)
    requires b > 0 && d > 0 && c != 0 && Coprime(a, b) && Coprime(c, d) && g1 > 0 && g2 > 0
    requires a == g1 * a1 && c == g1 * c1 && Coprime(a1, c1)
    requires d == g2 * d1 && b == g2 * b1 && Coprime(d1, b1)
    ensures var n, m := a1 * d1, b1 * c1;
            (if m < 0 then Fraction(-n, -m) else Fraction(n, m)) == Ratio(Fraction(a, b), Fraction(c, d))
  {
    PositivePart(g1, c1);
    PositivePart(g2, b1);
    PositivePart(b1, c1);
    PositivePart(b, c);
    CoprimeSymmetric(c, d);
    hide Gcd, Canon, Divides;
    if c > 0 {
      ReducedProduct(a, b, d, c, g1, a1, c1, g2, d1, b1);
    } else {
      CoprimeMirrored(d, c);
      CoprimeNegatedRight(a1, c1);
      CoprimeNegation(d1, b1);
      ReducedProduct(a, b, -d, -c, g1, a1, -c1, g2, -d1, b1);
      MirroredRatio(a, b, c, d);
      NegatedProducts(a1, d1);
      NegatedProducts(b1, c1);
    }
  }

  class Rational {
    var num: int
    var den: int

    function Value(): Fraction
      reads this
    {
      Fraction(num, den)
    }

    predicate Valid()
      reads this
    {
      LowestTerms(Value())
    }

    constructor (n: int)
      ensures Valid() && Value() == Whole(n)
    {
      num, den := n, 1;
      WholeIsLowest(n);
    }

    constructor Unnormalized(n: int, d: int)
      ensures Value() == Fraction(n, d)
    {
      num, den := n, d;
    }

    /** Fails, as the library throws, on a zero denominator. */
    method Normalize() returns (ok: bool)
      modifies this
      ensures ok == (old(den) != 0)
      ensures ok ==> Valid() && Value() == Canon(old(num), old(den))
      ensures !ok ==> Value() == old(Value())
    {
      if den == 0 {
        return false;
      }
      ghost var n, d := num, den;
      CanonIsLowest(n, d);
      if num == 0 {
        den := 1;
        WholeIsLowest(0);
        CanonUnique(Whole(0), n, d);
        return true;
      }
      var g := IntegerGcd(num, den);
      ghost var k, l := GcdParts(num, den);
      hide Gcd, Quot, Canon, LowestTerms;
      num := Quot(num, g);
      den := Quot(den, g);
      if den < 0 {
        num := -num;
        den := -den;
      }
      NormalizedParts(n, d, g, k, l);
      return true;
    }

    /** The two-argument constructor; null stands for the exception. */
    static method Make(n: int, d: int) returns (r: Rational?)
      ensures r == null <==> d == 0
      ensures r != null ==> fresh(r) && r.Valid() && r.Value() == Canon(n, d)
    {
      var raw := new Rational.Unnormalized(n, d);
      var ok := raw.Normalize();
      r := if ok then raw else null;
    }

    method Assign(n: int, d: int) returns (ok: bool)
      requires Valid()
      modifies this
      ensures Valid() && ok == (d != 0)
      ensures Value() == if ok then Canon(n, d) else old(Value())
    {
      var r := Make(n, d);
      ok := r != null;
      if r != null {
        num, den := r.num, r.den;
      }
    }

    // ---------- with a rational operand, which may be this object ----------

    method AddAssign(r: Rational)
      requires Valid() && r.Valid()
      modifies this
      ensures Valid() && Value() == Sum(old(Value()), old(r.Value()))
    {
      var rNum, rDen := r.num, r.den;
      ghost var a, b := num, den;
      var g := IntegerGcd(den, rDen);
      ghost var b1, d1 := GcdParts(den, rDen);
      hide Gcd, Quot, Canon;
      den := Quot(den, g);
      num := num * Quot(rDen, g) + rNum * den;
      ghost var g0 := g;
      ghost var t, g1 := GcdParts(num, g);
      g := IntegerGcd(num, g);
      num := Quot(num, g);
      DenominatorOverGcd(rDen, g0, d1, g, g1);
      den := den * Quot(rDen, g);
      ReducedSum(a, b, rNum, rDen, g0, b1, d1, g, t, g1);
    }

    method SubtractAssign(r: Rational)
      requires Valid() && r.Valid()
      modifies this
      ensures Valid() && Value() == Difference(old(Value()), old(r.Value()))
    {
      var rNum, rDen := r.num, r.den;
      ghost var a, b := num, den;
      var g := IntegerGcd(den, rDen);
      ghost var b1, d1 := GcdParts(den, rDen);
      hide Gcd, Quot, Canon;
      den := Quot(den, g);
      num := num * Quot(rDen, g) - rNum * den;
      ghost var g0 := g;
      ghost var t, g1 := GcdParts(num, g);
      g := IntegerGcd(num, g);
      num := Quot(num, g);
      DenominatorOverGcd(rDen, g0, d1, g, g1);
      den := den * Quot(rDen, g);
      ReducedDifference(a, b, rNum, rDen, g0, b1, d1, g, t, g1);
    }

    /** Cross-cancelling keeps every intermediate value within the operands and the reduced result. */
    method MultiplyAssign(r: Rational)
      requires Valid() && r.Valid()
      modifies this
      ensures Valid() && Value() == Product(old(Value()), old(r.Value()))
    {
      var rNum, rDen := r.num, r.den;
      ghost var a, b := num, den;
      ghost var limit := Limit(Value(), r.Value(), Product(Value(), r.Value()));
      ghost var a1, d1 := GcdParts(num, rDen);
      ghost var c1, b1 := GcdParts(rNum, den);
      hide Gcd, Quot, Canon;
      PartsInRange(limit, Gcd(num, rDen), a1, d1);
      PartsInRange(limit, Gcd(rNum, den), c1, b1);
      var gcd1 := IntegerGcd(num, rDen);
      gcd1 := Fit(limit, gcd1);
      var gcd2 := IntegerGcd(rNum, den);
      gcd2 := Fit(limit, gcd2);
      ReducedProduct(a, b, rNum, rDen, gcd1, a1, d1, gcd2, c1, b1);
      Ordering.PositiveProduct(b, rDen);
      CanonIsLowest(a * rNum, b * rDen);
      num := Fit(limit, Fit(limit, Quot(num, gcd1)) * Fit(limit, Quot(rNum, gcd2)));
      den := Fit(limit, Fit(limit, Quot(den, gcd2)) * Fit(limit, Quot(rDen, gcd1)));
    }

    method DivideAssign(r: Rational) returns (ok: bool)
      requires Valid() && r.Valid()
      modifies this
      ensures Valid() && ok == (old(r.num) != 0)
      ensures ok ==> Value() == Ratio(old(Value()), old(r.Value()))
      ensures !ok ==> Value() == old(Value())
    {
      var rNum, rDen := r.num, r.den;
      if rNum == 0 {
        return false;
      }
      ghost var a, b := num, den;
      ProductNonzero(b, rNum);
      CanonIsLowest(a * rDen, b * rNum);
      if num == 0 {
        assert 0 * (b * rNum) == 0 * rDen * b;
        CanonUnique(Value(), a * rDen, b * rNum);
        return true;
      }
      ghost var limit := Limit(Value(), r.Value(), Ratio(Value(), r.Value()));
      ghost var a1, c1 := GcdParts(num, rNum);
      ghost var d1, b1 := GcdParts(rDen, den);
      hide Gcd, Quot, Canon;
      PartsInRange(limit, Gcd(num, rNum), a1, c1);
      PartsInRange(limit, Gcd(rDen, den), d1, b1);
      var gcd1 := IntegerGcd(num, rNum);
      gcd1 := Fit(limit, gcd1);
      var gcd2 := IntegerGcd(rDen, den);
      gcd2 := Fit(limit, gcd2);
      ReducedRatio(a, b, rNum, rDen, gcd1, a1, c1, gcd2, d1, b1);
      num := Fit(limit, Fit(limit, Quot(num, gcd1)) * Fit(limit, Quot(rDen, gcd2)));
      den := Fit(limit, Fit(limit, Quot(den, gcd2)) * Fit(limit, Quot(rNum, gcd1)));
      if den < 0 {
        num := Fit(limit, -num);
        den := Fit(limit, -den);
      }
      return true;
    }

    // ---------- with an integer operand, read by value ----------

    method AddInteger(i: int)
      requires Valid()
      modifies this
      ensures Valid() && Value() == Sum(old(Value()), Whole(i))
    {
      ghost var a := num;
      CoprimeShift(num, den, i);
      num := num + i * den;
      CanonUnique(Value(), a * 1 + i * den, den * 1);
    }

    method SubtractInteger(i: int)
      requires Valid()
      modifies this
      ensures Valid() && Value() == Difference(old(Value()), Whole(i))
    {
      ghost var a := num;
      CoprimeShift(num, den, -i);
      assert a + -i * den == a - i * den;
      num := num - i * den;
      CanonUnique(Value(), a * 1 - i * den, den * 1);
    }

    method MultiplyInteger(i: int)
      requires Valid()
      modifies this
      ensures Valid() && Value() == Product(old(Value()), Whole(i))
    {
      ghost var a, b := num, den;
      var gcd := IntegerGcd(i, den);
      ghost var c1, b1 := GcdParts(i, den);
      WholeIsLowest(i);
      WholeIsLowest(a);
      hide Gcd, Quot, Canon;
      num := num * Quot(i, gcd);
      den := Quot(den, gcd);
      ReducedProduct(a, b, i, 1, 1, a, 1, gcd, c1, b1);
      CanonIsLowest(a * i, b * 1);
    }

    method DivideInteger(i: int) returns (ok: bool)
      requires Valid()
      modifies this
      ensures Valid() && ok == (i != 0)
      ensures ok ==> Value() == Ratio(old(Value()), Whole(i))
      ensures !ok ==> Value() == old(Value())
    {
      if i == 0 {
        return false;
      }
      ghost var a, b := num, den;
      ProductNonzero(b, i);
      CanonIsLowest(a * 1, b * i);
      if num == 0 {
        assert 0 * (b * i) == 0 * 1 * b;
        CanonUnique(Value(), a * 1, b * i);
        return true;
      }
      var gcd := IntegerGcd(num, i);
      ghost var a1, c1 := GcdParts(num, i);
      WholeIsLowest(i);
      CoprimeFromCombination(1, b, 1, 0);
      hide Gcd, Quot, Canon;
      num := Quot(num, gcd);
      den := den * Quot(i, gcd);
      ReducedRatio(a, b, i, 1, gcd, a1, c1, 1, 1, b);
      if den < 0 {
        num := -num;
        den := -den;
      }
      return true;
    }

    method Increment()
      requires Valid()
      modifies this
      ensures Valid() && Value() == Sum(old(Value()), Whole(1))
    {
      ghost var a := num;
      CoprimeShift(num, den, 1);
      num := num + den;
      CanonUnique(Value(), a * 1 + 1 * den, den * 1);
    }

    method Decrement()
      requires Valid()
      modifies this
      ensures Valid() && Value() == Difference(old(Value()), Whole(1))
    {
      ghost var a := num;
      CoprimeShift(num, den, -1);
      num := num - den;
      CanonUnique(Value(), a * 1 - 1 * den, den * 1);
    }

    /** Unary minus goes through the normalizing constructor. */
    method Negated() returns (r: Rational)
      requires Valid()
      ensures fresh(r) && r.Valid() && r.Value() == Negation(Value())
    {
      var made := Make(-num, den);
      CoprimeNegation(num, den);
      CanonOfLowest(Negation(Value()));
      r := made;
    }

    method Absolute() returns (r: Rational)
      requires Valid()
      ensures r.Valid() && r.Value() == Fraction(Abs(num), den)
    {
      if num >= 0 {
        r := this;
      } else {
        r := Negated();
      }
    }

    /** The order by simultaneous continued fraction expansion: no cross product is ever formed, and
        every value computed for an operand fits a symmetric range that holds that operand.  Nothing
        has to be in lowest terms.
     */
    method LessThan(r: Rational) returns (less: bool)
      requires den > 0 && r.den > 0
      ensures less <==> num * r.den < r.num * den
    {
      ghost var limit, limitR := Max(Abs(num), den), Max(Abs(r.num), r.den);
      var tn, td := num, den;
      var tq, tr := FloorDivide(tn, td, limit);
      var rn, rd := r.num, r.den;
      var rq, rr := FloorDivide(rn, rd, limitR);
      var reverse := false;
      while true
        invariant Split(tn, td, tq, tr) && Split(rn, rd, rq, rr)
        invariant InRange(limit, td) && InRange(limitR, rd)
        invariant Below(num, den, r.num, r.den) == if reverse then Below(rn, rd, tn, td) else Below(tn, td, rn, rd)
        decreases td
      {
        if tq != rq {
          QuotientsDecide(tn, td, tq, tr, rn, rd, rq, rr);
          QuotientsDecide(rn, rd, rq, rr, tn, td, tq, tr);
          return if reverse then tq > rq else tq < rq;
        }
        RemaindersDecide(tn, td, tq, tr, rn, rd, rq, rr);
        RemaindersDecide(rn, rd, rq, rr, tn, td, tq, tr);
        reverse := !reverse;
        if tr == 0 || rr == 0 {
          break;
        }
        QuotRange(limit, td, tr);
        QuotRange(limitR, rd, rr);
        tn, td := td, tr;
        tq, tr := Fit(limit, Quot(tn, td)), Fit(limit, Rem(tn, td));
        rn, rd := rd, rr;
        rq, rr := Fit(limitR, Quot(rn, rd)), Fit(limitR, Rem(rn, rd));
      }
      if tr == rr {
        return false;
      }
      return (tr != 0) != reverse;
    }

    /** Against an integer only the floor matters. */
    method LessThanInteger(i: int) returns (less: bool)
      requires den > 0
      ensures less <==> num < i * den
    {
      var q, rem := FloorDivide(num, den, Max(Abs(num), den));
      QuotientDecidesInteger(num, den, q, rem, i);
      less := q < i;
    }

    method GreaterThanInteger(i: int) returns (greater: bool)
      requires Valid()
      ensures greater <==> num > i * den
    {
      var same := EqualsInteger(i);
      if same {
        return false;
      }
      var less := LessThanInteger(i);
      return !less;
    }

    /** Field by field, yet it decides equality of the values. */
    method Equals(r: Rational) returns (same: bool)
      requires Valid() && r.Valid()
      ensures same <==> num * r.den == r.num * den
    {
      same := num == r.num && den == r.den;
      LowestTermsUnique(Value(), r.Value());
    }

    method EqualsInteger(i: int) returns (same: bool)
      requires Valid()
      ensures same <==> num == i * den
    {
      same := den == 1 && num == i;
      WholeIsLowest(i);
      LowestTermsUnique(Value(), Whole(i));
    }
  }
}
