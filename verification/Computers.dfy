/** The two CRC computers and the reference they are measured against. */
module Computers {
  import opened Registers
  import opened Reflection
  import opened Divider
  import opened Tables
  import opened Drivers
  import opened StrayBits

  /** The template arguments of `crc_optimal` and the constructor arguments of `crc_basic`.  All four
      words have the width of the register type chosen for `order`, which is one byte for orders up
      to a byte.
   */
  datatype Parameters = Parameters(order: nat, poly: Bits, init: Bits, finalXor: Bits,
                                   reflectIn: bool, reflectRem: bool)
  {
    predicate Valid() {
      && 0 < order <= |poly| == |init| == |finalXor|
      && CHAR_BIT <= |poly|
      && (order <= CHAR_BIT ==> |poly| == CHAR_BIT)
    }

    function Width(): nat {
      |poly|
    }
  }

  // ---------- the Rocksoft model ----------

  /** The remainder of the parameterised model: `order` bits, unreflected, divided bit by bit. */
  function ModelRemainder(p: Parameters, start: Bits, bytes: seq<Byte>): (r: Bits)
    requires p.Valid() && |start| == p.order
    ensures |r| == p.order
  {
    Divide(p.order, start, StreamBits(bytes, p.reflectIn), Low(p.poly, p.order))
  }

  /** Output processing of an unreflected remainder. */
  function ModelOutput(p: Parameters, r: Bits): (c: Bits)
    requires p.Valid() && |r| == p.order
    ensures |c| == p.order
  {
    Xor(if p.reflectRem then Reverse(r) else r, Low(p.finalXor, p.order))
  }

  function ModelChecksum(p: Parameters, bytes: seq<Byte>): (c: Bits)
    requires p.Valid()
    ensures |c| == p.order
  {
    ModelOutput(p, ModelRemainder(p, Low(p.init, p.order), bytes))
  }

  /** Which bit of the remainder meets which bit of the mask. */
  lemma OutputBits(p: Parameters, r: Bits, i: nat)
    requires p.Valid() && |r| == p.order && i < p.order
    ensures ModelOutput(p, r)[i] == (r[if p.reflectRem then p.order - 1 - i else i] != p.finalXor[i])
  {
  }

  lemma OutputIsInjective(p: Parameters, r1: Bits, r2: Bits)
    requires p.Valid() && |r1| == |r2| == p.order
    requires ModelOutput(p, r1) == ModelOutput(p, r2)
    ensures r1 == r2
  {
    var f := Low(p.finalXor, p.order);
    var o1, o2 := if p.reflectRem then Reverse(r1) else r1, if p.reflectRem then Reverse(r2) else r2;
    XorCancel(o1, f);
    XorCancel(o2, f);
    ReverseTwice(r1);
    ReverseTwice(r2);
  }

  // ---------- bit-wise computer ----------

  /** The last `i` of the bits `bs` sit at the top of `left`. */
  predicate BitsLeft(left: Bits, bs: Bits, i: nat) {
    i <= |bs| <= |left| == CHAR_BIT && Reverse(left)[..i] == bs[|bs| - i..]
  }

  lemma TopBitsLoaded(bits: Byte, length: nat)
    requires length <= CHAR_BIT
    ensures BitsLeft(ShiftLeft(bits, CHAR_BIT - length), ReadOrder(bits, length, false), length)
  {
  }

  lemma NextTopBit(n: nat, start: Bits, left: Bits, bs: Bits, i: nat, d: Bits)
    requires 0 < n <= |start| == |d| && 0 < i && |left| == CHAR_BIT && BitsLeft(left, bs, i)
    ensures i <= |bs| && BitsLeft(ShiftLeft(left, 1), bs, i - 1)
    ensures Divide(n, start, bs[..|bs| - (i - 1)], d)
         == Divide(n, Divide(n, start, bs[..|bs| - i], d), [left[CHAR_BIT - 1]], d)
  {
    assert left[CHAR_BIT - 1] == Reverse(left)[..i][0];
    assert bs[|bs| - i..][1..] == Reverse(left)[..i][1..] == Reverse(ShiftLeft(left, 1))[..i - 1];
    assert bs[..|bs| - (i - 1)] == bs[..|bs| - i] + [left[CHAR_BIT - 1]];
    hide Divide;
    DivideConcat(n, start, bs[..|bs| - i], [left[CHAR_BIT - 1]], d);
  }

  class CrcBasic {
    const bitCount: nat
    var rem: Bits
    var poly: Bits
    var init: Bits
    var finalXor: Bits
    var reflectIn: bool
    var reflectRem: bool

    predicate Valid()
      reads this
    {
      Params().Valid() && |rem| == |poly| && bitCount <= |rem|
    }

    function Params(): Parameters
      reads this
    {
      Parameters(bitCount, poly, init, finalXor, reflectIn, reflectRem)
    }

    constructor (p: Parameters)
      requires p.Valid()
      ensures Valid() && Params() == p && rem == p.init
    {
      bitCount := p.order;
      rem, poly, init, finalXor := p.init, p.poly, p.init, p.finalXor;
      reflectIn, reflectRem := p.reflectIn, p.reflectRem;
    }

    method GetInterimRemainder() returns (r: Bits)
      requires Valid()
      ensures r == ZeroExtend(Low(rem, bitCount), |rem|)
      ensures |r| == |rem| && forall i :: 0 <= i < |r| ==> r[i] == (i < bitCount && rem[i])
    {
      r := rem[..bitCount] + Zeros(|rem| - bitCount);
    }

    method ResetTo(newRem: Bits)
      requires Valid() && |newRem| == |rem|
      modifies `rem
      ensures Valid() && rem == newRem
    {
      rem := newRem;
    }

    method Reset()
      requires Valid()
      modifies `rem
      ensures Valid() && rem == init
    {
      ResetTo(init);
    }

    method ProcessBit(bit: bool)
      requires Valid()
      modifies `rem
      ensures Valid() && rem == Divide(bitCount, old(rem), [bit], poly)
    {
      var word := ZeroExtend([bit], 32);
      assert ReadOrder(word, 1, false) == [bit];
      rem := CrcModuloWordUpdate(bitCount, rem, word, poly, 1, false);
    }

    method ProcessBits(bits: Byte, bitLength: nat)
      requires Valid() && 0 < bitLength <= CHAR_BIT
      modifies `rem
      ensures Valid() && rem == Divide(bitCount, old(rem), ReadOrder(bits, bitLength, false), poly)
    {
      var left := ShiftLeft(bits, CHAR_BIT - bitLength);
      ghost var bs := ReadOrder(bits, bitLength, false);
      TopBitsLoaded(bits, bitLength);
      var i := bitLength;
      assert bs[..0] == [] && bs[..|bs|] == bs;
      while i > 0
        invariant 0 <= i <= bitLength && Valid() && |left| == CHAR_BIT
        invariant BitsLeft(left, bs, i)
        invariant rem == Divide(bitCount, old(rem), bs[..|bs| - i], poly)
      {
        hide Divide, BitsLeft, ShiftLeft;
        NextTopBit(bitCount, old(rem), left, bs, i, poly);
        ProcessBit(left[CHAR_BIT - 1]);
        i, left := i - 1, ShiftLeft(left, 1);
      }
    }

    method ProcessByte(byte: Byte)
      requires Valid()
      modifies `rem
      ensures Valid() && rem == Divide(bitCount, old(rem), ReadOrder(byte, CHAR_BIT, reflectIn), poly)
    {
      var reflected := byte;
      if reflectIn {
        reflected := ReflectByte(byte);
      }
      assert ReadOrder(reflected, CHAR_BIT, false) == ReadOrder(byte, CHAR_BIT, reflectIn);
      ProcessBits(reflected, CHAR_BIT);
    }

    method ProcessBytes(bytes: seq<Byte>)
      requires Valid()
      modifies `rem
      ensures Valid() && rem == Divide(bitCount, old(rem), StreamBits(bytes, reflectIn), poly)
    {
      assert bytes[..|bytes|] == bytes;
      var p := 0;
      while p < |bytes|
        invariant 0 <= p <= |bytes| && Valid()
        invariant rem == Divide(bitCount, old(rem), StreamBits(bytes[..p], reflectIn), poly)
      {
        hide Divide, StreamBits, ReadOrder;
        FeedByteOfWidth(bitCount, old(rem), bytes, p, reflectIn, poly);
        ProcessByte(bytes[p]);
        p := p + 1;
      }
    }

    method Checksum() returns (c: Bits)
      requires Valid()
      ensures c == ZeroExtend(ModelOutput(Params(), Low(rem, bitCount)), |rem|)
      ensures |c| == |rem|
      ensures forall i :: 0 <= i < |c| ==>
        c[i] == (i < bitCount && rem[if reflectRem then bitCount - 1 - i else i] != finalXor[i])
    {
      var r := rem;
      if reflectRem {
        r := ReflectUnsigned(rem, bitCount);
      }
      c := Xor(r, finalXor);
      c := c[..bitCount] + Zeros(|c| - bitCount);
      assert c[..bitCount] == ModelOutput(Params(), Low(rem, bitCount));
    }
  }

  // ---------- table-driven computer ----------

  /** The library's `reflect_q`: orders up to a byte use the byte table, which clears the bits above. */
  function PossiblyReflected(x: Bits, n: nat, doIt: bool): (y: Bits)
    requires 0 < n <= |x| && (n <= CHAR_BIT ==> |x| == CHAR_BIT)
    ensures |y| == |x|
  {
    if !doIt then x else if n > CHAR_BIT then ReflectLow(x, n) else Image(Low(x, n), |x|)
  }

  /** The documented result of the sub-byte reflectors keeps the bits above `n`; the code yields it
      exactly when there are none.
   */
  lemma SubByteReflectorKeepsDocumentation(x: Byte, n: nat)
    requires 0 < n <= CHAR_BIT
    ensures PossiblyReflected(x, n, true) == ReflectLow(x, n) <==> Strays(x, n) == Zeros(CHAR_BIT - n)
  {
    assert Strays(PossiblyReflected(x, n, true), n) == Zeros(CHAR_BIT - n);
    assert Strays(ReflectLow(x, n), n) == Strays(x, n);
    if Strays(x, n) == Zeros(CHAR_BIT - n) {
      assert PossiblyReflected(x, n, true) == ReflectLow(x, n);
    }
  }

  /** The byte 0x10 and an order of 4: the documentation promises 0x10 again, the code yields 0. */
  lemma SubByteReflectorClears()
    ensures var x := Zeros(4) + [true] + Zeros(3);
            PossiblyReflected(x, 4, true) == Zeros(CHAR_BIT) && ReflectLow(x, 4) == x != Zeros(CHAR_BIT)
  {
    var x := Zeros(4) + [true] + Zeros(3);
    assert x[..4] == Zeros(4) == Reverse(Zeros(4));
    assert Image(Zeros(4), CHAR_BIT) == Zeros(CHAR_BIT);
    assert x[4];
  }

  method ReflectQ(x: Bits, n: nat, doIt: bool) returns (y: Bits)
    requires 0 < n <= |x| && (n <= CHAR_BIT ==> |x| == CHAR_BIT)
    ensures y == PossiblyReflected(x, n, doIt)
  {
    if !doIt {
      y := x;
    } else if n > CHAR_BIT {
      y := ReflectUnsigned(x, n);
    } else {
      y := ReflectSubByte(x, n);
    }
  }

  /** The unreflected remainder that a computer's register stands for. */
  function Significant(p: Parameters, rem: Bits): (r: Bits)
    requires p.Valid() && |rem| == p.Width()
    ensures |r| == p.order
  {
    if p.reflectIn then Reverse(Low(rem, p.order)) else Low(rem, p.order)
  }

  /** The register has no stray bits and never will: always so unless a reflected table is in use. */
  predicate StrayFree(p: Parameters, rem: Bits)
    requires p.Valid() && |rem| == p.Width()
  {
    p.reflectIn && p.order >= CHAR_BIT ==>
      CarriesLeadingTerm(p.order, p.poly) && Strays(rem, p.order) == Zeros(|rem| - p.order)
  }

  lemma TrackedRun(p: Parameters, rem: Bits, bytes: seq<Byte>)
    requires p.Valid() && |rem| == p.Width() && p.reflectIn && p.order >= CHAR_BIT && StrayFree(p, rem)
    ensures var after := ReflectedRun(p.order, rem, bytes, p.poly);
            StrayFree(p, after) && Significant(p, after) == ModelRemainder(p, Significant(p, rem), bytes)
  {
    var low := Significant(p, rem);
    ReverseTwice(Low(rem, p.order));
    ImageFromParts(low, rem);
    ReflectedRunMeaning(low, p.Width(), bytes, p.poly);
    ImageParts(ModelRemainder(p, low, bytes), p.Width());
  }

  class CrcOptimal {
    const p: Parameters
    var rem: Bits

    predicate Valid()
      reads this
    {
      p.Valid() && |rem| == p.Width()
    }

    constructor (params: Parameters, initRem: Bits)
      requires params.Valid() && |initRem| == params.Width()
      ensures Valid() && p == params
      ensures rem == PossiblyReflected(initRem, p.order, p.reflectIn)
    {
      p := params;
      rem := initRem;
      new;
      rem := ReflectQ(initRem, p.order, p.reflectIn);
    }

    method GetInterimRemainder() returns (r: Bits)
      requires Valid()
      ensures r == ZeroExtend(Significant(p, rem), |rem|)
      ensures |r| == |rem|
      ensures forall i :: 0 <= i < |r| ==>
        r[i] == (i < p.order && rem[if p.reflectIn then p.order - 1 - i else i])
    {
      r := ReflectQ(rem, p.order, p.reflectIn);
      r := r[..p.order] + Zeros(|r| - p.order);
      assert r[..p.order] == Significant(p, rem);
    }

    method ResetTo(newRem: Bits)
      requires Valid() && |newRem| == p.Width()
      modifies `rem
      ensures Valid() && rem == PossiblyReflected(newRem, p.order, p.reflectIn)
    {
      rem := ReflectQ(newRem, p.order, p.reflectIn);
    }

    /** With stray bits in play the register follows the reflected table run; without them it stands
        for the model's remainder, and stays without them.
     */
    method ProcessBytes(bytes: seq<Byte>)
      requires Valid()
      modifies `rem
      ensures Valid()
      ensures p.reflectIn && p.order >= CHAR_BIT ==> rem == ReflectedRun(p.order, old(rem), bytes, p.poly)
      ensures StrayFree(p, old(rem)) ==>
        StrayFree(p, rem) && Significant(p, rem) == ModelRemainder(p, Significant(p, old(rem)), bytes)
    {
      var before := rem;
      if p.order < CHAR_BIT {
        if p.reflectIn {
          rem := ReflectedSubByteUpdate(p.order, rem, bytes, p.poly);
          assert Low(rem, p.order) == Reverse(ModelRemainder(p, Significant(p, before), bytes));
        } else {
          rem := DirectSubByteUpdate(p.order, rem, bytes, p.poly);
          StrayBitsIgnored(p.order, before, StreamBits(bytes, false), p.poly);
        }
      } else if p.reflectIn {
        rem := ReflectedByteUpdate(p.order, rem, bytes, p.poly);
        if StrayFree(p, before) {
          TrackedRun(p, before, bytes);
        }
      } else {
        rem := DirectByteUpdate(p.order, rem, bytes, p.poly);
      }
    }

    method ProcessByte(byte: Byte)
      requires Valid()
      modifies `rem
      ensures Valid()
      ensures p.reflectIn && p.order >= CHAR_BIT ==> rem == ReflectedRun(p.order, old(rem), [byte], p.poly)
      ensures StrayFree(p, old(rem)) ==>
        StrayFree(p, rem) && Significant(p, rem) == ModelRemainder(p, Significant(p, old(rem)), [byte])
    {
      ProcessBytes([byte]);
    }

    method Checksum() returns (c: Bits)
      requires Valid()
      ensures c == ZeroExtend(ModelOutput(p, Significant(p, rem)), |rem|)
      ensures |c| == |rem|
      ensures forall i :: 0 <= i < |c| ==>
        c[i] == (i < p.order && rem[if p.reflectRem != p.reflectIn then p.order - 1 - i else i] != p.finalXor[i])
    {
      c := ReflectQ(rem, p.order, p.reflectRem != p.reflectIn);
      c := Xor(c, p.finalXor);
      c := c[..p.order] + Zeros(|c| - p.order);
      ReverseTwice(Low(rem, p.order));
      assert c[..p.order] == ModelOutput(p, Significant(p, rem));
    }
  }
}
