/** Polynomials over GF(2) with their long division: the mathematics the CRC routines are meant to
    compute, defined without any register or loop.
 */
module Gf2 {
  import opened Registers

  /** Schoolbook product: q(x) * p(x) = q_0 * p(x) + x * (q_1 + q_2 x + ...) * p(x). */
  function Mul(q: Bits, p: Bits): (m: Bits)
    requires |p| > 0
    ensures |m| == |q| + |p| - 1
  {
    if q == [] then Zeros(|p| - 1)
    else Xor(Select(q[0], p) + Zeros(|q| - 1), [false] + Mul(q[1..], p))
  }

  /** `p` has degree exactly `|p| - 1`. */
  predicate Monic(p: Bits) {
    |p| > 0 && p[|p| - 1]
  }

  /** dividend = q * p + r with deg r < deg p */
  predicate DividesTo(dividend: Bits, p: Bits, q: Bits, r: Bits)
    requires Monic(p)
  {
    && |r| == |p| - 1
    && |dividend| == |q| + |r|
    && dividend == Xor(Mul(q, p), r + Zeros(|q|))
  }

  ghost predicate IsRemainder(dividend: Bits, p: Bits, r: Bits)
    requires Monic(p)
  {
    exists q :: DividesTo(dividend, p, q, r)
  }

  lemma {:induction false} MulXor(a: Bits, b: Bits, p: Bits)
    requires |a| == |b| && |p| > 0
    ensures Mul(Xor(a, b), p) == Xor(Mul(a, p), Mul(b, p))
  {
    if a != [] {
      MulXor(a[1..], b[1..], p);
      assert Xor(a, b)[1..] == Xor(a[1..], b[1..]);
    }
  }

  lemma PadTop(a: Bits, k: nat, m: Bits)
    requires |a| + k == |m| + 1
    ensures Xor(a + Zeros(k + 1), [false] + (m + [false])) == Xor(a + Zeros(k), [false] + m) + [false]
  {
  }

  /** A leading zero coefficient of the factor is a leading zero of the product. */
  lemma {:induction false} MulLeadingZero(q: Bits, p: Bits)
    requires |p| > 0
    ensures Mul(q + [false], p) == Mul(q, p) + [false]
  {
    var longer := q + [false];
    if q == [] {
      assert longer[1..] == [];
      assert Mul(longer, p) == Zeros(|p| - 1) + [false];
    } else {
      MulLeadingZero(q[1..], p);
      assert longer[1..] == q[1..] + [false];
      PadTop(Select(q[0], p), |q| - 1, Mul(q[1..], p));
    }
  }

  /** The leading coefficient of a product with a monic factor. */
  lemma {:induction false} MulLeading(q: Bits, p: Bits)
    requires Monic(p) && q != []
    ensures Mul(q, p)[|q| + |p| - 2] == q[|q| - 1]
  {
    if |q| > 1 {
      MulLeading(q[1..], p);
    }
  }

  /** Only the zero multiple of a polynomial has a smaller degree than the polynomial. */
  lemma {:induction false} SmallMultipleIsZero(q: Bits, p: Bits)
    requires Monic(p)
    requires forall i :: |p| - 1 <= i < |q| + |p| - 1 ==> !Mul(q, p)[i]
    ensures q == Zeros(|q|)
    ensures Mul(q, p) == Zeros(|q| + |p| - 1)
  {
    if q != [] {
      MulLeading(q, p);
      var q' := q[..|q| - 1];
      assert q == q' + [false];
      MulLeadingZero(q', p);
      forall i | |p| - 1 <= i < |q'| + |p| - 1 ensures !Mul(q', p)[i] {
        assert Mul(q', p)[i] == Mul(q, p)[i];
      }
      SmallMultipleIsZero(q', p);
    }
  }

  /** Quotient and remainder are unique. */
  lemma DivisionUnique(dividend: Bits, p: Bits, q1: Bits, r1: Bits, q2: Bits, r2: Bits)
    requires Monic(p)
    requires DividesTo(dividend, p, q1, r1) && DividesTo(dividend, p, q2, r2)
    ensures q1 == q2 && r1 == r2
  {
    var k := |q1|;
    var m1, m2 := Mul(q1, p), Mul(q2, p);
    MulXor(q1, q2, p);
    forall i | 0 <= i < |dividend|
      ensures (m1[i] != m2[i]) == ((r1 + Zeros(k))[i] != (r2 + Zeros(k))[i])
    {
      assert dividend[i] == (m1[i] != (r1 + Zeros(k))[i]);
      assert dividend[i] == (m2[i] != (r2 + Zeros(k))[i]);
    }
    SmallMultipleIsZero(Xor(q1, q2), p);
    XorCancel(q1, q2);
    XorCancel(m1, m2);
    forall i | 0 <= i < |r1| ensures r1[i] == r2[i] {
      assert (r1 + Zeros(k))[i] == r1[i] && (r2 + Zeros(k))[i] == r2[i];
    }
  }

  lemma RemainderUnique(dividend: Bits, p: Bits, r1: Bits, r2: Bits)
    requires Monic(p)
    requires IsRemainder(dividend, p, r1) && IsRemainder(dividend, p, r2)
    ensures r1 == r2
  {
    var q1 :| DividesTo(dividend, p, q1, r1);
    var q2 :| DividesTo(dividend, p, q2, r2);
    DivisionUnique(dividend, p, q1, r1, q2, r2);
  }
}
