/** The run-time gcd and lcm of the integer library: the mixed binary Euclid algorithm. */
module CommonFactor {
  import opened NumberTheory
  import opened Registers

  predicate Odd(x: int) {
    x % 2 == 1
  }

  // ---------- powers of two and gcds ----------

  lemma Rearrange(g: nat, h: nat, k: int, l: int, x: int, y: int)
    ensures g * h >= 0
    ensures g * (h * k) == g * h * k && g * (h * l) == g * h * l
    ensures g * (h * k) * x + g * (h * l) * y == g * (h * k * x + h * l * y)
  {
  }

  lemma GcdScaled(g: nat, a: int, b: int)
    ensures Gcd(g * a, g * b) == g * Gcd(a, b)
  {
    hide *;
    var x, y := Bezout(a, b);
    var h := Gcd(a, b);
    var k := Quotient(h, a);
    var l := Quotient(h, b);
    Rearrange(g, h, k, l, x, y);
    MultipleDivides(g * h, k);
    MultipleDivides(g * h, l);
    GcdUnique(g * h, g * a, g * b, x, y);
  }

  lemma OddFactor(g: int, k: int)
    requires Odd(g * k)
    ensures Odd(g)
  {
    var h := g / 2;
    assert g % 2 == 0 ==> g * k == 2 * (h * k);
  }

  /** Dropping a factor 2 from one argument, when the other one is odd. */
  lemma GcdHalve(a: int, b: int)
    requires Odd(b)
    ensures Gcd(2 * a, b) == Gcd(a, b)
  {
    var g: int := Gcd(2 * a, b);
    var x, y := Bezout(2 * a, b);
    var k := Quotient(g, b);
    OddFactor(g, k);
    CoprimeFromCombination(g, 2, 1, -(g / 2));
    hide Gcd, Divides;
    EuclidsLemma(g, 2, a);
    assert 2 * a * x == a * (2 * x);
    GcdUnique(g, a, b, 2 * x, y);
  }

  lemma {:induction false} GcdDropTwos(a: int, r: nat, b: int)
    requires Odd(b)
    ensures Gcd(Pow2(r) * a, b) == Gcd(a, b)
  {
    if r != 0 {
      assert Pow2(r) * a == 2 * (Pow2(r - 1) * a);
      GcdHalve(Pow2(r - 1) * a, b);
      GcdDropTwos(a, r - 1, b);
    }
  }

  lemma GcdOfOddPartsOrdered(a: int, r: nat, b: int, s: nat)
    requires Odd(a) && Odd(b) && s <= r
    ensures Gcd(Pow2(r) * a, Pow2(s) * b) == Gcd(a, b) * Pow2(s)
  {
    hide Gcd, Pow2;
    Pow2Split(s, r - s);
    MulAssociates(Pow2(s), Pow2(r - s), a);
    GcdScaled(Pow2(s), Pow2(r - s) * a, b);
    GcdDropTwos(a, r - s, b);
  }

  /** The common power of two comes out, the rest of the twos do not matter. */
  lemma GcdOfOddParts(a: int, r: nat, b: int, s: nat)
    requires Odd(a) && Odd(b)
    ensures Gcd(Pow2(r) * a, Pow2(s) * b) == Gcd(a, b) * Pow2(if r < s then r else s)
  {
    hide Gcd, Pow2;
    if r < s {
      GcdOfOddPartsOrdered(b, s, a, r);
      GcdSymmetric(a, b);
      GcdSymmetric(Pow2(r) * a, Pow2(s) * b);
    } else {
      GcdOfOddPartsOrdered(a, r, b, s);
    }
  }

  lemma GcdSubtractMultiple(a: int, b: int, k: int)
    ensures Gcd(a + k * b, b) == Gcd(a, b)
  {
    var x, y := Bezout(a, b);
    var g := Gcd(a, b);
    hide Gcd, Divides;
    MultipleDivides(b, 1);
    DividesCombination(g, a, b, 1, k);
    assert (a + k * b) * x + b * (y - k * x) == a * x + b * y;
    GcdUnique(g, a + k * b, b, x, y - k * x);
  }

  /** One round of the loop keeps the gcd: u' = u mod v and v' = v - u'. */
  lemma GcdMixedStep(u: nat, v: nat)
    requires v > 0
    ensures Gcd(u % v, v - u % v) == Gcd(u, v)
  {
    var m, q := u % v, u / v;
    assert u == m + q * v;
    hide Gcd;
    GcdSubtractMultiple(m, v, q);
    GcdSymmetric(m, v);
    GcdSubtractMultiple(v, m, -1);
    assert v + -1 * m == v - m;
    GcdSymmetric(v - m, m);
  }

  // ---------- the algorithm ----------

  /** Shifts out the trailing zero bits. */
  method MakeOdd(value: nat) returns (odd: nat, r: nat)
    requires value > 0
    ensures Odd(odd) && value == Pow2(r) * odd
  {
    odd, r := value, 0;
    while odd % 2 == 0
      invariant odd > 0 && value == Pow2(r) * odd
      decreases odd
    {
      ghost var half := odd / 2;
      assert Pow2(r) * (2 * half) == Pow2(r + 1) * half;
      odd, r := odd / 2, r + 1;
    }
  }

  lemma GcdWithZero(x: nat)
    ensures Gcd(0, x) == Gcd(x, 0) == x
  {
    GcdSymmetric(0, x);
  }

  lemma PositiveProduct(p: nat, x: nat)
    requires p >= 1
    ensures p * x >= x
  {
  }

  lemma EvenProduct(i: nat, x: nat)
    ensures i > 0 ==> Pow2(i) * x % 2 == 0
  {
    if i > 0 {
      MulAssociates(2, Pow2(i - 1), x);
    }
  }

  lemma GcdOneOddPart(a: int, r: nat, b: int, s: nat)
    requires Odd(a) && Odd(b) && (r == 0 || s == 0)
    ensures Gcd(Pow2(r) * a, Pow2(s) * b) == Gcd(a, b)
  {
    assert Pow2(0) == 1;
    hide Gcd, Pow2;
    GcdOfOddParts(a, r, b, s);
  }

  /** After one round exactly one of the two numbers is even, so its twos are not common. */
  lemma OddPartsOfOddSum(u: nat, u': nat, i: nat, v: nat, v': nat, j: nat)
    requires u == Pow2(i) * u' && v == Pow2(j) * v' && Odd(u') && Odd(v') && Odd(u + v)
    ensures u' > 0 && v' > 0 && u' <= u && v' <= v
    ensures Gcd(u', v') == Gcd(u, v)
  {
    hide Gcd, Pow2;
    PositiveProduct(Pow2(i), u');
    PositiveProduct(Pow2(j), v');
    EvenProduct(i, u');
    EvenProduct(j, v');
    GcdOneOddPart(u', i, v', j);
  }

  lemma GcdWithOne(x: nat)
    ensures Gcd(x, 1) == 1
  {
    MultipleDivides(1, x);
    CoprimeFromCombination(x, 1, 0, 1);
  }

  method MixedBinaryGcd(a: nat, b: nat) returns (g: nat)
    ensures g == Gcd(a, b)
  {
    var u, v := a, b;
    GcdSymmetric(a, b);
    if u < v {
      u, v := v, u;
    }
    if u == 0 {
      return v;
    }
    if v == 0 {
      return u;
    }
    var i, j;
    ghost var u0, v0 := u, v;
    u, i := MakeOdd(u);
    v, j := MakeOdd(v);
    var shifts := if i < j then i else j;
    GcdOfOddParts(u, i, v, j);
    while 1 < v
      invariant u > 0 && v > 0 && Odd(u) && Odd(v)
      invariant Gcd(a, b) == Gcd(u, v) * Pow2(shifts)
      decreases v
    {
      hide Gcd, Pow2;
      GcdMixedStep(u, v);
      u := u % v;
      v := v - u;
      if u == 0 {
        GcdWithZero(v);
        return v * Pow2(shifts);
      }
      if v == 0 {
        // never: u is a remainder below the old v
        assert false;
      }
      ghost var u1, v1 := u, v;
      u, i := MakeOdd(u);
      v, j := MakeOdd(v);
      OddPartsOfOddSum(u1, u, i, v1, v, j);
      if u < v {
        GcdSymmetric(u, v);
        u, v := v, u;
      }
    }
    GcdWithOne(u);
    g := (if v == 1 then v else u) * Pow2(shifts);
  }

  /** `boost::integer::gcd`, on integers without bounds. */
  method IntegerGcd(a: int, b: int) returns (g: nat)
    ensures g == Gcd(a, b)
  {
    g := MixedBinaryGcd(Abs(a), Abs(b));
  }

  function LcmOf(a: nat, b: nat, g: nat): (l: nat)
    requires g != 0
  {
    a / g * b
  }

  /** `boost::integer::lcm` */
  function Lcm(a: int, b: int): (l: nat) {
    if Gcd(a, b) == 0 then 0 else LcmOf(Abs(a), Abs(b), Gcd(a, b))
  }

  method IntegerLcm(a: int, b: int) returns (l: nat)
    ensures l == Lcm(a, b)
  {
    var g := MixedBinaryGcd(Abs(a), Abs(b));
    l := if g != 0 then Abs(a) / g * Abs(b) else 0;
  }

  lemma DividesAbs(d: int, a: int)
    ensures Divides(d, a) <==> Divides(Abs(d), Abs(a))
  {
    DividesNegation(Abs(d), Abs(a));
    if d < 0 {
      DivideNegative(a, d);
    }
  }

  /** For arguments in terms of their gcd: `a = g k`, `b = g l`. */
  lemma LcmOfMultiples(g: nat, k: nat, l: nat)
    requires g > 0
    ensures LcmOf(g * k, g * l, g) == g * (k * l)
  {
    MultipleDivides(g, k);
    assert k * (g * l) == g * (k * l);
  }

  lemma CommonMultiple(g: nat, k: nat, l: nat, m: int)
    requires g > 0 && Coprime(k, l) && Divides(g * k, m) && Divides(g * l, m)
    ensures Divides(g * (k * l), m)
  {
    var s := Quotient(g * k, m);
    var t := Quotient(g * l, m);
    hide Gcd, Divides;
    assert g * (k * s) == g * (l * t) by {
      MulAssociates(g, k, s);
      MulAssociates(g, l, t);
    }
    CancelFactor(g, k * s, l * t);
    MultipleDivides(l, t);
    CoprimeSymmetric(k, l);
    EuclidsLemma(l, k, s);
    var u := Quotient(l, s);
    assert m == g * (k * l) * u by {
      MulAssociates(k, l, u);
      MulAssociates(g, k, l * u);
      MulAssociates(g, k * l, u);
    }
    MultipleDivides(g * (k * l), u);
  }

  lemma LcmOfParts(g: nat, k: nat, l: nat)
    ensures Divides(g * k, g * (k * l)) && Divides(g * l, g * (k * l))
    ensures g * (g * (k * l)) == g * k * (g * l)
  {
    hide *;
    MulAssociates(g, k, l);
    MulAssociates(g, l, k);
    MulAssociates(g, k, g * l);
    MultipleDivides(g * k, l);
    MultipleDivides(g * l, k);
  }

  lemma PositiveQuotients(g: nat, k: int, l: int)
    requires g > 0 && g * k >= 0 && g * l >= 0
    ensures k >= 0 && l >= 0
  {
    assert k < 0 ==> g * k < 0;
    assert l < 0 ==> g * l < 0;
  }

  /** The least common multiple is a common multiple, divides every other one, and completes the
      product.
   */
  lemma LcmProperties(a: int, b: int)
    ensures Divides(a, Lcm(a, b)) && Divides(b, Lcm(a, b))
    ensures Gcd(a, b) * Lcm(a, b) == Abs(a) * Abs(b)
    ensures forall m :: Divides(a, m) && Divides(b, m) ==> Divides(Lcm(a, b), m)
  {
    var x, y := Bezout(a, b);
    var g := Gcd(a, b);
    assert g == Gcd(Abs(a), Abs(b));
    if g != 0 {
      var k, l := ReducedCoprime(Abs(a), Abs(b));
      PositiveQuotients(g, k, l);
      LcmOfMultiples(g, k, l);
      hide Gcd, LcmOf;
      assert Lcm(a, b) == g * (k * l);
      LcmOfParts(g, k, l);
      DividesAbs(a, Lcm(a, b));
      DividesAbs(b, Lcm(a, b));
      forall m | Divides(a, m) && Divides(b, m) ensures Divides(Lcm(a, b), m) {
        DividesAbs(a, m);
        DividesAbs(b, m);
        CommonMultiple(g, k, l, Abs(m));
        DividesNegation(Lcm(a, b), Abs(m));
      }
    }
  }
}
