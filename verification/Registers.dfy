/** Machine words and bit streams.

    A register, a byte and a polynomial over GF(2) are all sequences of bits; the bit at index `i`
    of a register is the one the C++ code reaches with the mask `1 << i`, that is, the coefficient
    of x^i.  The length of the sequence is the width of the C++ type, so an operation that drops
    bits at the top (`<<=`) or fills with zeros (`>>=`) keeps the length.
 */
module Registers {

  type Bits = seq<bool>

  const CHAR_BIT: nat := 8

  function Zeros(n: nat): (z: Bits)
    ensures |z| == n
  {
    seq(n, i => false)
  }

  function Xor(a: Bits, b: Bits): (c: Bits)
    requires |a| == |b|
    ensures |c| == |a|
  {
    seq(|a|, i requires 0 <= i < |a| => a[i] != b[i])
  }

  function Or(a: Bits, b: Bits): (c: Bits)
    requires |a| == |b|
    ensures |c| == |a|
  {
    seq(|a|, i requires 0 <= i < |a| => a[i] || b[i])
  }

  /** `q ? d : 0` */
  function Select(q: bool, d: Bits): (s: Bits)
    ensures |s| == |d|
  {
    if q then d else Zeros(|d|)
  }

  /** A value of a narrower unsigned type in a wider one. */
  function ZeroExtend(b: Bits, w: nat): (x: Bits)
    requires |b| <= w
    ensures |x| == w
  {
    b + Zeros(w - |b|)
  }

  function ShiftLeft(r: Bits, k: nat): (s: Bits)
    requires k <= |r|
    ensures |s| == |r|
  {
    Zeros(k) + r[..|r| - k]
  }

  function ShiftRight(r: Bits, k: nat): (s: Bits)
    requires k <= |r|
    ensures |s| == |r|
  {
    r[k..] + Zeros(k)
  }

  function Reverse(s: Bits): (r: Bits)
    ensures |r| == |s|
  {
    seq(|s|, i requires 0 <= i < |s| => s[|s| - 1 - i])
  }

  /** The significant part of a register. */
  function Low(r: Bits, n: nat): (l: Bits)
    requires n <= |r|
    ensures |l| == n
  {
    r[..n]
  }

  /** The bits above the significant part, which the documentation calls unregulated. */
  function Strays(r: Bits, n: nat): (h: Bits)
    requires n <= |r|
    ensures |h| == |r| - n
  {
    r[n..]
  }

  /** The low `n` bits in opposite order, the other bits in place. */
  function ReflectLow(x: Bits, n: nat): (r: Bits)
    requires n <= |x|
    ensures |r| == |x|
  {
    Reverse(x[..n]) + x[n..]
  }

  function Pow2(n: nat): (p: nat)
    ensures p >= 1
  {
    if n == 0 then 1 else 2 * Pow2(n - 1)
  }

  lemma {:induction false} Pow2Split(r: nat, s: nat)
    ensures Pow2(r + s) == Pow2(r) * Pow2(s)
  {
    if r != 0 {
      Pow2Split(r - 1, s);
      assert 2 * (Pow2(r - 1) * Pow2(s)) == 2 * Pow2(r - 1) * Pow2(s);
    }
  }

  /** A word used as an array index. */
  function ToNat(b: Bits): (v: nat)
    ensures v < Pow2(|b|)
  {
    if b == [] then 0 else (if b[0] then 1 else 0) + 2 * ToNat(b[1..])
  }

  /** The low `n` bits of a counter. */
  function FromNat(v: nat, n: nat): (b: Bits)
    ensures |b| == n
  {
    if n == 0 then [] else [v % 2 == 1] + FromNat(v / 2, n - 1)
  }

  lemma {:induction false} FromToNat(b: Bits)
    ensures FromNat(ToNat(b), |b|) == b
  {
    if b != [] {
      FromToNat(b[1..]);
      assert ToNat(b) / 2 == ToNat(b[1..]);
      assert b == [b[0]] + b[1..];
    }
  }

  lemma {:induction false} ToFromNat(v: nat, n: nat)
    requires v < Pow2(n)
    ensures ToNat(FromNat(v, n)) == v
  {
    if n != 0 {
      ToFromNat(v / 2, n - 1);
      assert FromNat(v, n)[1..] == FromNat(v / 2, n - 1);
    }
  }

  lemma XorCancel(a: Bits, b: Bits)
    requires |a| == |b|
    ensures Xor(Xor(a, b), b) == a
    ensures Xor(a, b) == Zeros(|a|) <==> a == b
  {
    assert Xor(Xor(a, b), b) == a;
    if Xor(a, b) == Zeros(|a|) {
      forall i | 0 <= i < |a| ensures a[i] == b[i] {
        assert !Xor(a, b)[i];
      }
    }
    if a == b {
      assert Xor(a, b) == Zeros(|a|);
    }
  }

  lemma NonzeroHasBit(h: Bits)
    ensures h != Zeros(|h|) ==> exists i :: 0 <= i < |h| && h[i]
  {
    assert (forall i :: 0 <= i < |h| ==> !h[i]) ==> h == Zeros(|h|);
  }

  lemma ReverseTwice(s: Bits)
    ensures Reverse(Reverse(s)) == s
  {
  }

  lemma ReverseConcat(a: Bits, b: Bits)
    ensures Reverse(a + b) == Reverse(b) + Reverse(a)
  {
  }
}
