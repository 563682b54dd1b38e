/** Divisibility, greatest common divisors with Bezout coefficients, and coprimality. */
module NumberTheory {

  function Abs(x: int): (y: nat)
    ensures y == x || y == -x
  {
    if x < 0 then -x else x
  }

  /** `a` is an integer multiple of `d`. */
  predicate Divides(d: int, a: int) {
    if d == 0 then a == 0 else a % d == 0
  }

  lemma MulMonotone(d: int, x: int, y: int)
    requires d >= 0 && x <= y
    ensures d * x <= d * y
  {
  }

  lemma MultipleRemainder(d: int, k: int, r: int)
    requires d > 0 && 0 <= r < d
    ensures (d * k + r) / d == k && (d * k + r) % d == r
  {
    var a := d * k + r;
    var q, s := a / d, a % d;
    assert a == d * q + s;
    assert d * (k - q) == s - r;
    if k - q >= 1 {
      MulMonotone(d, 1, k - q);
    } else if k - q <= -1 {
      MulMonotone(d, k - q, -1);
    }
  }

  lemma MulAssociates(x: int, y: int, z: int)
    ensures x * y * z == x * (y * z)
  {
  }

  lemma DivideNegative(a: int, d: int)
    requires d < 0
    ensures a / d == -(a / -d) && a % d == a % -d
  {
  }

  lemma MultipleDivides(d: int, k: int)
    ensures Divides(d, d * k)
    ensures d != 0 ==> d * k / d == k
  {
    if d > 0 {
      MultipleRemainder(d, k, 0);
    } else if d < 0 {
      MultipleRemainder(-d, -k, 0);
      assert d * k == (-d) * (-k);
      DivideNegative(d * k, d);
    }
  }

  lemma Quotient(d: int, a: int) returns (k: int)
    requires Divides(d, a)
    ensures a == d * k && (d != 0 ==> k == a / d)
  {
    k := if d == 0 then 0 else a / d;
  }

  /** A common divisor divides every combination. */
  lemma DividesCombination(d: int, a: int, b: int, x: int, y: int)
    requires Divides(d, a) && Divides(d, b)
    ensures Divides(d, a * x + b * y)
  {
    var k := Quotient(d, a);
    var l := Quotient(d, b);
    assert a * x + b * y == d * (k * x + l * y);
    MultipleDivides(d, k * x + l * y);
  }

  lemma PositiveFactor(a: int, k: int)
    requires a > 0 && a * k > 0
    ensures k >= 1 && a * k >= a
  {
    if k <= 0 {
      MulMonotone(a, k, 0);
    } else {
      MulMonotone(a, 1, k);
    }
  }

  lemma DividesEachOther(a: int, b: int)
    requires a >= 0 && b >= 0 && Divides(a, b) && Divides(b, a)
    ensures a == b
  {
    if a > 0 && b > 0 {
      var k := Quotient(a, b);
      var l := Quotient(b, a);
      PositiveFactor(a, k);
      PositiveFactor(b, l);
    }
  }

  // ---------- greatest common divisor ----------

  function GcdNat(a: nat, b: nat): (g: nat)
    decreases b
  {
    if b == 0 then a else GcdNat(b, a % b)
  }

  function Gcd(a: int, b: int): (g: nat) {
    GcdNat(Abs(a), Abs(b))
  }

  lemma RemainderCombination(a: int, b: int, q: int, m: int, u: int, v: int)
    requires a == b * q + m
    ensures b * u + m * v == a * v + b * (u - q * v)
    ensures b * q + m * 1 == a
  {
  }

  lemma {:induction false} BezoutNat(a: nat, b: nat) returns (x: int, y: int)
    ensures a * x + b * y == GcdNat(a, b)
    ensures Divides(GcdNat(a, b), a) && Divides(GcdNat(a, b), b)
    decreases b
  {
    if b == 0 {
      x, y := 1, 0;
    } else {
      var u, v := BezoutNat(b, a % b);
      var q, m := a / b, a % b;
      assert a == b * q + m;
      hide Divides;
      x, y := v, u - q * v;
      RemainderCombination(a, b, q, m, u, v);
      DividesCombination(GcdNat(a, b), b, m, q, 1);
    }
  }

  lemma DividesNegation(d: int, a: int)
    ensures Divides(d, a) <==> Divides(d, -a)
  {
    if Divides(d, a) {
      DividesCombination(d, a, 0, -1, 0);
    }
    if Divides(d, -a) {
      DividesCombination(d, -a, 0, -1, 0);
    }
  }

  /** The greatest common divisor is a common divisor and a combination of its arguments. */
  lemma Bezout(a: int, b: int) returns (x: int, y: int)
    ensures a * x + b * y == Gcd(a, b)
    ensures Divides(Gcd(a, b), a) && Divides(Gcd(a, b), b)
    ensures Gcd(a, b) == 0 ==> a == 0 && b == 0
  {
    var u, v := BezoutNat(Abs(a), Abs(b));
    x, y := if a < 0 then -u else u, if b < 0 then -v else v;
    assert a * x == Abs(a) * u && b * y == Abs(b) * v;
    DividesNegation(Gcd(a, b), Abs(a));
    DividesNegation(Gcd(a, b), Abs(b));
  }

  /** Every common divisor divides the greatest one. */
  lemma GcdGreatest(d: int, a: int, b: int)
    requires Divides(d, a) && Divides(d, b)
    ensures Divides(d, Gcd(a, b))
  {
    var x, y := Bezout(a, b);
    DividesCombination(d, a, b, x, y);
  }

  /** What the name says, for integers of any sign: zero only when both arguments are. */
  lemma GcdIsGreatestCommonDivisor(a: int, b: int)
    ensures Divides(Gcd(a, b), a) && Divides(Gcd(a, b), b)
    ensures forall d :: Divides(d, a) && Divides(d, b) ==> Divides(d, Gcd(a, b))
    ensures Gcd(a, b) == 0 <==> a == 0 && b == 0
  {
    var x, y := Bezout(a, b);
    forall d | Divides(d, a) && Divides(d, b) ensures Divides(d, Gcd(a, b)) {
      GcdGreatest(d, a, b);
    }
  }

  /** The two properties determine it. */
  lemma GcdUnique(g: int, a: int, b: int, x: int, y: int)
    requires g >= 0 && Divides(g, a) && Divides(g, b) && a * x + b * y == g
    ensures g == Gcd(a, b)
  {
    var u, v := Bezout(a, b);
    GcdGreatest(g, a, b);
    DividesCombination(Gcd(a, b), a, b, x, y);
    DividesEachOther(g, Gcd(a, b));
  }

  lemma GcdSymmetric(a: int, b: int)
    ensures Gcd(a, b) == Gcd(b, a)
  {
    var x, y := Bezout(b, a);
    GcdUnique(Gcd(b, a), a, b, y, x);
  }

  // ---------- coprimality ----------

  predicate Coprime(a: int, b: int) {
    Gcd(a, b) == 1
  }

  lemma CoprimeFromCombination(a: int, b: int, x: int, y: int)
    requires a * x + b * y == 1
    ensures Coprime(a, b)
  {
    GcdUnique(1, a, b, x, y);
  }

  lemma CoprimeSymmetric(a: int, b: int)
    requires Coprime(a, b)
    ensures Coprime(b, a)
  {
    GcdSymmetric(a, b);
  }

  lemma Factor3(a: int, x: int, y: int, z: int)
    ensures a * x + a * y + a * z == a * (x + y + z)
  {
  }

  lemma ProductOfCombinations(a: int, b: int, c: int, x: int, y: int, u: int, v: int)
    requires a * x + b * y == 1 && a * u + c * v == 1
    ensures a * (x * (a * u) + x * (c * v) + b * y * u) + b * c * (y * v) == 1
  {
    var p, q, r, s := a * x, b * y, a * u, c * v;
    assert (p + q) * (r + s) == p * r + p * s + q * r + q * s;
    assert p * r == a * (x * r) && p * s == a * (x * s);
    assert q * r == a * (q * u) && q * s == b * c * (y * v);
    Factor3(a, x * r, x * s, q * u);
  }

  lemma CoprimeProduct(a: int, b: int, c: int)
    requires Coprime(a, b) && Coprime(a, c)
    ensures Coprime(a, b * c)
  {
    var x, y := Bezout(a, b);
    var u, v := Bezout(a, c);
    hide Gcd, Divides;
    ProductOfCombinations(a, b, c, x, y, u, v);
    CoprimeFromCombination(a, b * c, x * (a * u) + x * (c * v) + b * y * u, y * v);
  }

  /** A divisor of one of two coprime numbers is coprime to the other. */
  lemma CoprimeDivisor(d: int, a: int, b: int)
    requires Divides(d, a) && Coprime(a, b)
    ensures Coprime(d, b)
  {
    var x, y := Bezout(a, b);
    var k := Quotient(d, a);
    assert a * x == d * (k * x);
    CoprimeFromCombination(d, b, k * x, y);
  }

  lemma CoprimeShift(a: int, b: int, k: int)
    requires Coprime(a, b)
    ensures Coprime(a + k * b, b)
  {
    var x, y := Bezout(a, b);
    assert (a + k * b) * x + b * (y - k * x) == a * x + b * y;
    CoprimeFromCombination(a + k * b, b, x, y - k * x);
  }

  lemma CoprimeNegation(a: int, b: int)
    requires Coprime(a, b)
    ensures Coprime(-a, b)
  {
  }

  lemma FactorOut(g: int, k: int, l: int, x: int, y: int)
    ensures g * k * x + g * l * y == g * (k * x + l * y)
    ensures g * 1 == g
  {
  }

  lemma CancelFactor(g: int, x: int, y: int)
    requires g != 0 && g * x == g * y
    ensures x == y
  {
    assert g * (x - y) == 0;
  }

  /** Dividing two numbers by their greatest common divisor leaves them coprime. */
  lemma ReducedCoprime(a: int, b: int) returns (k: int, l: int)
    requires a != 0 || b != 0
    ensures Gcd(a, b) > 0 && a == Gcd(a, b) * k && b == Gcd(a, b) * l
    ensures k == a / Gcd(a, b) && l == b / Gcd(a, b)
    ensures Coprime(k, l)
  {
    hide *;
    var x, y := Bezout(a, b);
    var g := Gcd(a, b);
    k := Quotient(g, a);
    l := Quotient(g, b);
    FactorOut(g, k, l, x, y);
    CancelFactor(g, 1, k * x + l * y);
    CoprimeFromCombination(k, l, x, y);
  }

  /** Euclid's lemma. */
  lemma EuclidsLemma(a: int, b: int, c: int)
    requires Coprime(a, b) && Divides(a, b * c)
    ensures Divides(a, c)
  {
    var x, y := Bezout(a, b);
    assert c == c * (a * x + b * y) == a * (x * c) + b * c * y;
    MultipleDivides(a, 1);
    DividesCombination(a, a, b * c, x * c, y);
  }
}
