/** The integer operators of the programming language, and the ranges their results stay in. */
module IntegerOps {
  import opened NumberTheory

  /** Integer quotient and remainder of the programming language: truncated toward zero. */
  function Quot(a: int, b: int): (q: int)
    requires b != 0
  {
    if (a < 0) == (b < 0) then Abs(a) / Abs(b) else -(Abs(a) / Abs(b))
  }

  function Rem(a: int, b: int): (r: int)
    requires b != 0
  {
    a - b * Quot(a, b)
  }

  /** An exact quotient is not affected by truncation. */
  lemma QuotExact(g: int, k: int)
    requires g > 0
    ensures Quot(g * k, g) == k
  {
    MultipleDivides(g, Abs(k));
    assert Abs(g * k) == g * Abs(k) by {
      MulMonotone(g, if k < 0 then k else 0, if k < 0 then 0 else k);
    }
    assert k != 0 ==> g * k != 0;
  }

  lemma RemSign(a: int, b: int)
    requires b > 0
    ensures a == b * Quot(a, b) + Rem(a, b)
    ensures if a >= 0 then 0 <= Rem(a, b) < b else -b < Rem(a, b) <= 0
  {
    var q := Abs(a) / b;
    assert Abs(a) == b * q + Abs(a) % b;
    assert b * -q == -(b * q);
  }

  /** The cofactors of a gcd, as the library divides them out. */
  lemma GcdParts(a: int, b: int) returns (k: int, l: int)
    requires a != 0 || b != 0
    ensures Gcd(a, b) > 0 && a == Gcd(a, b) * k && b == Gcd(a, b) * l && Coprime(k, l)
    ensures Quot(a, Gcd(a, b)) == k && Quot(b, Gcd(a, b)) == l
  {
    hide *;
    k, l := ReducedCoprime(a, b);
    QuotExact(Gcd(a, b), k);
    QuotExact(Gcd(a, b), l);
  }

  // ---------- ranges ----------

  predicate InRange(limit: nat, x: int) {
    Abs(x) <= limit
  }

  /** A result computed in a signed type that is symmetric up to `limit`: the precondition is that
      the operation does not overflow.
   */
  function Fit(ghost limit: nat, x: int): (y: int)
    requires InRange(limit, x)
    ensures y == x
  {
    x
  }

  function Max(a: nat, b: nat): nat {
    if a < b then b else a
  }

  lemma FactorInRange(limit: nat, g: int, k: int)
    requires g > 0 && InRange(limit, g * k)
    ensures InRange(limit, k)
    ensures k != 0 ==> g <= limit
  {
    if k > 0 {
      MulMonotone(k, 1, g);
      MulMonotone(g, 1, k);
    } else if k < 0 {
      MulMonotone(-k, 1, g);
      MulMonotone(g, 1, -k);
      assert g * -k == -(g * k);
    }
    assert g * k == k * g;
  }
}
