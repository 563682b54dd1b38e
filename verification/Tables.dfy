/** The table of partial products and the byte-at-a-time updates that read it. */
module Tables {
  import opened Registers
  import opened Reflection
  import opened Divider

  type Byte = b: Bits | |b| == CHAR_BIT witness Zeros(CHAR_BIT)

  /** What the generated table holds for the index word `v`. */
  function TableEntry(n: nat, d: Bits, v: Bits, reflect: bool): (e: Bits)
    requires 0 < n <= |d|
    ensures |e| == |d|
  {
    if reflect then ReflectLow(Divide(n, Zeros(|d|), v, d), n)
    else Divide(n, Zeros(|d|), Reverse(v), d)
  }

  lemma {:induction false} ToNatLeadingZero(b: Bits)
    ensures ToNat(b + [false]) == ToNat(b)
  {
    if b != [] {
      ToNatLeadingZero(b[1..]);
      assert (b + [false])[1..] == b[1..] + [false];
    } else {
      assert [false][1..] == [];
    }
  }

  lemma {:induction false} FromNatLeadingZero(v: nat, n: nat)
    requires v < Pow2(n)
    ensures FromNat(v, n + 1) == FromNat(v, n) + [false]
  {
    if n != 0 {
      FromNatLeadingZero(v / 2, n - 1);
    } else {
      assert FromNat(0, 1) == [false];
    }
  }

  /** The word with which the slot `i` is filled. */
  function SlotDividend(i: nat, subOrder: nat, reflect: bool): (u: Bits)
    ensures |u| == subOrder
  {
    if reflect then Reverse(FromNat(i, subOrder)) else FromNat(i, subOrder)
  }

  /** The slot of a dividend, and no other dividend shares it. */
  lemma SlotOf(dividend: nat, subOrder: nat, reflect: bool) returns (slot: nat)
    requires dividend < Pow2(subOrder)
    ensures slot < Pow2(subOrder)
    ensures slot == ToNat(if reflect then ReflectLow(FromNat(dividend, subOrder + 1), subOrder)
                          else FromNat(dividend, subOrder + 1))
    ensures SlotDividend(slot, subOrder, reflect) == FromNat(dividend, subOrder)
    ensures forall i :: 0 <= i < Pow2(subOrder) && ToNat(SlotDividend(i, subOrder, reflect)) == dividend ==> i == slot
  {
    var u := FromNat(dividend, subOrder);
    FromNatLeadingZero(dividend, subOrder);
    var v := if reflect then Reverse(u) else u;
    assert ReflectLow(u + [false], subOrder) == Reverse(u) + [false] by {
      assert (u + [false])[..subOrder] == u;
    }
    ToNatLeadingZero(v);
    slot := ToNat(v);
    FromToNat(v);
    ReverseTwice(u);
    forall i | 0 <= i < Pow2(subOrder) && ToNat(SlotDividend(i, subOrder, reflect)) == dividend
      ensures i == slot
    {
      var w := FromNat(i, subOrder);
      FromToNat(SlotDividend(i, subOrder, reflect));
      ReverseTwice(w);
      ToFromNat(i, subOrder);
    }
  }

  lemma SlotEntry(n: nat, d: Bits, dividend: nat, slot: nat, subOrder: nat, reflect: bool)
    requires 0 < subOrder && 0 < n <= |d| && dividend < Pow2(subOrder)
    requires SlotDividend(slot, subOrder, reflect) == FromNat(dividend, subOrder)
    ensures TableEntry(n, d, FromNat(slot, subOrder), reflect)
         == var remainder := Divide(n, Zeros(|d|), ReadOrder(FromNat(dividend, subOrder + 1), subOrder, false), d);
            if reflect then ReflectLow(remainder, n) else remainder
  {
    hide Divide;
    FromNatLeadingZero(dividend, subOrder);
    assert FromNat(dividend, subOrder + 1)[..subOrder] == FromNat(dividend, subOrder);
    ReverseTwice(FromNat(slot, subOrder));
  }

  method MakePartialXorProductsTable(subOrder: nat, n: nat, truncatedDivisor: Bits, reflect: bool)
    returns (result: array<Bits>)
    requires 0 < subOrder && 0 < n <= |truncatedDivisor|
    ensures fresh(result) && result.Length == Pow2(subOrder)
    ensures forall i :: 0 <= i < result.Length ==>
      result[i] == TableEntry(n, truncatedDivisor, FromNat(i, subOrder), reflect)
  {
    hide *;
    result := new Bits[Pow2(subOrder)](_ => []);
    var dividend := 0;
    while dividend < result.Length
      invariant 0 <= dividend <= result.Length
      invariant forall i :: 0 <= i < result.Length && ToNat(SlotDividend(i, subOrder, reflect)) < dividend ==>
        result[i] == TableEntry(n, truncatedDivisor, FromNat(i, subOrder), reflect)
    {
      var word := FromNat(dividend, subOrder + 1);
      var remainder := CrcModuloWordUpdate(n, Zeros(|truncatedDivisor|), word, truncatedDivisor, subOrder, false);
      var index := ReflectOptionally(word, reflect, subOrder);
      ghost var slot := SlotOf(dividend, subOrder, reflect);
      remainder := ReflectOptionally(remainder, reflect, n);
      SlotEntry(n, truncatedDivisor, dividend, slot, subOrder, reflect);
      result[ToNat(index)] := remainder;
      dividend := dividend + 1;
    }
  }

  /** The `k` bits about to leave the register, in reading order. */
  function LeadingBits(r: Bits, k: nat): (bs: Bits)
    requires k <= |r|
    ensures |bs| == k
  {
    Reverse(r[|r| - k..])
  }

  /** The register moved up by as many bits as enter at the bottom. */
  function Entered(r: Bits, bs: Bits): (x: Bits)
    requires |bs| <= |r|
    ensures |x| == |r|
  {
    Reverse(bs) + r[..|r| - |bs|]
  }

  lemma NothingLeft(r: Bits, d: Bits)
    requires 0 < |r| == |d|
    ensures Divide(|r|, r, [], d)
         == Xor(ShiftLeft(r, 0), Divide(|r|, Zeros(|r|), Xor([], LeadingBits(r, 0)), d))
    ensures AugDivide(|r|, r, [], d)
         == Xor(Entered(r, []), Divide(|r|, Zeros(|r|), LeadingBits(r, 0), d))
  {
    assert ShiftLeft(r, 0) == r == Entered(r, []);
    assert Xor(r, Zeros(|r|)) == r;
  }

  lemma StepOfShifted(x: Bits, y: Bits, b: bool, d: Bits)
    requires 0 < |x| == |y| == |d|
    ensures Step(|x|, Xor(x, y), b, d)
         == Xor(ShiftLeft(x, 1), Step(|x|, y, b != x[|x| - 1], d))
    ensures AugStep(|x|, Xor(x, y), b, d)
         == Xor([b] + x[..|x| - 1], Step(|x|, y, x[|x| - 1], d))
  {
  }

  lemma EnteredSnoc(r: Bits, pre: Bits, b: bool)
    requires |pre| < |r|
    ensures Entered(r, pre)[|r| - 1] == r[|r| - 1 - |pre|]
    ensures Entered(r, pre + [b]) == [b] + Entered(r, pre)[..|r| - 1]
    ensures LeadingBits(r, |pre| + 1) == LeadingBits(r, |pre|) + [r[|r| - 1 - |pre|]]
  {
    var n, k := |r|, |pre|;
    assert r[n - k - 1..] == [r[n - 1 - k]] + r[n - k..];
    assert Reverse(pre + [b]) == [b] + Reverse(pre);
    assert r[..n - k][..n - k - 1] == r[..n - k - 1];
  }

  lemma LeadingBitsSnoc(r: Bits, pre: Bits, b: bool)
    requires |pre| < |r|
    ensures ShiftLeft(ShiftLeft(r, |pre|), 1) == ShiftLeft(r, |pre| + 1)
    ensures ShiftLeft(r, |pre|)[|r| - 1] == r[|r| - 1 - |pre|]
    ensures Xor(pre + [b], LeadingBits(r, |pre| + 1))
         == Xor(pre, LeadingBits(r, |pre|)) + [b != r[|r| - 1 - |pre|]]
  {
    EnteredSnoc(r, pre, b);
  }

  /** Feeding up to `n` bits: the register moves up, and what leaves it acts together with what
      enters as one table entry.
   */
  lemma {:induction false} Absorb(r: Bits, bs: Bits, d: Bits)
    requires 0 < |r| == |d| && |bs| <= |r|
    ensures Divide(|r|, r, bs, d)
         == Xor(ShiftLeft(r, |bs|), Divide(|r|, Zeros(|r|), Xor(bs, LeadingBits(r, |bs|)), d))
  {
    hide *;
    var n := |r|;
    if bs == [] {
      NothingLeft(r, d);
    } else {
      var pre, b := bs[..|bs| - 1], bs[|bs| - 1];
      assert bs == pre + [b];
      Absorb(r, pre, d);
      DivideSnoc(n, r, pre, b, d);
      var x, y := ShiftLeft(r, |pre|), Divide(n, Zeros(n), Xor(pre, LeadingBits(r, |pre|)), d);
      StepOfShifted(x, y, b, d);
      LeadingBitsSnoc(r, pre, b);
      DivideSnoc(n, Zeros(n), Xor(pre, LeadingBits(r, |pre|)), b != r[n - 1 - |pre|], d);
    }
  }

  /** The same for an augmented message, whose bits enter at the bottom. */
  lemma {:induction false} AugAbsorb(r: Bits, bs: Bits, d: Bits)
    requires 0 < |r| == |d| && |bs| <= |r|
    ensures AugDivide(|r|, r, bs, d)
         == Xor(Entered(r, bs), Divide(|r|, Zeros(|r|), LeadingBits(r, |bs|), d))
  {
    hide *;
    var n := |r|;
    if bs == [] {
      NothingLeft(r, d);
    } else {
      var pre, b := bs[..|bs| - 1], bs[|bs| - 1];
      assert bs == pre + [b];
      AugAbsorb(r, pre, d);
      AugDivideSnoc(n, r, pre, b, d);
      var x, y := Entered(r, pre), Divide(n, Zeros(n), LeadingBits(r, |pre|), d);
      StepOfShifted(x, y, b, d);
      DivideSnoc(n, Zeros(n), LeadingBits(r, |pre|), r[n - 1 - |pre|], d);
      EnteredSnoc(r, pre, b);
    }
  }

  /** Each table entry is also what the augmented divider leaves when it starts from the index in
      the top `k` bits and reads `k` zero bits.
   */
  lemma TableFromAugmentedDivider(n: nat, d: Bits, v: Bits)
    requires 0 < n <= |d| && |v| <= n
    ensures AugDivide(n, Zeros(n - |v|) + v + Zeros(|d| - n), Zeros(|v|), d)[..n]
         == TableEntry(n, d, v, false)[..n]
  {
    var k := |v|;
    var r := Zeros(n - k) + v + Zeros(|d| - n);
    AugStrayBitsIgnored(n, r, Zeros(k), d);
    StrayBitsIgnored(n, Zeros(|d|), Reverse(v), d);
    assert r[..n] == Zeros(n - k) + v && Zeros(|d|)[..n] == Zeros(n);
    AugAbsorb(r[..n], Zeros(k), d[..n]);
    assert LeadingBits(r[..n], k) == Reverse(v);
    var entry := Divide(n, Zeros(n), Reverse(v), d[..n]);
    assert Xor(Entered(r[..n], Zeros(k)), entry) == entry;
  }
}
