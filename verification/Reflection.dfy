/** Bit reflection: the two-mask loop, the 256-entry table filled by a counter that wraps around,
    and the sub-byte form read from that table.
 */
module Reflection {
  import opened Registers

  lemma DropsAgree(x: Bits, y: Bits, n: nat)
    requires n <= |x| == |y| && x[n..] == y[n..]
    ensures forall j :: n <= j < |x| ==> y[j] == x[j]
  {
    forall j | n <= j < |x| ensures y[j] == x[j] {
      assert y[j] == y[n..][j - n] && x[j] == x[n..][j - n];
    }
  }

  lemma LowReversed(x: Bits, y: Bits, n: nat)
    requires n <= |x| == |y| && y[n..] == x[n..]
    requires forall j :: 0 <= j < n ==> y[j] == x[n - 1 - j]
    ensures y == ReflectLow(x, n)
  {
    assert y[..n] == Reverse(x[..n]);
    assert y == y[..n] + y[n..];
  }

  /** Once the masks have met, every bit below `n` has been exchanged with its mirror image. */
  lemma MasksMet(x: Bits, y: Bits, n: nat, l: int, h: int)
    requires 0 < n <= |x| == |y| && 0 <= l <= h + 1 && h <= l && l + h == n - 1
    requires y[n..] == x[n..]
    requires forall j :: l <= j <= h ==> y[j] == x[j]
    requires forall j :: 0 <= j < l ==> y[j] == x[n - 1 - j] && y[n - 1 - j] == x[j]
    ensures forall j :: 0 <= j < n ==> y[j] == x[n - 1 - j]
    ensures forall j :: n <= j < |x| ==> y[j] == x[j]
    ensures y == ReflectLow(x, n)
  {
    forall j | 0 <= j < n ensures y[j] == x[n - 1 - j] {
      if j >= l && j != h {
        assert y[n - 1 - (n - 1 - j)] == x[n - 1 - j];
      }
    }
    DropsAgree(x, y, n);
    LowReversed(x, y, n);
  }

  /** Exchanges the bits under a high and a low one-bit mask until the masks meet; `h` and `l` are
      the positions of the set bits of the masks.
   */
  method ReflectUnsigned(x: Bits, wordLength: nat) returns (y: Bits)
    requires 0 < wordLength <= |x|
    ensures y == ReflectLow(x, wordLength)
    ensures forall j :: 0 <= j < wordLength ==> y[j] == x[wordLength - 1 - j]
    ensures forall j :: wordLength <= j < |x| ==> y[j] == x[j]
  {
    y := x;
    var l, h := 0, wordLength - 1;
    while h > l
      invariant 0 <= l <= h + 1 && l + h == wordLength - 1
      invariant |y| == |x|
      invariant y[wordLength..] == x[wordLength..]
      invariant forall j :: l <= j <= h ==> y[j] == x[j]
      invariant forall j :: 0 <= j < l ==>
        y[j] == x[wordLength - 1 - j] && y[wordLength - 1 - j] == x[j]
    {
      if y[h] != y[l] {
        y := y[h := !y[h]][l := !y[l]];
      }
      assert y[h] == x[l] && y[l] == x[h] && h == wordLength - 1 - l;
      h, l := h - 1, l + 1;
    }
    MasksMet(x, y, wordLength, l, h);
  }

  method ReflectOptionally(x: Bits, reflect: bool, wordLength: nat) returns (y: Bits)
    requires 0 < wordLength <= |x|
    ensures y == if reflect then ReflectLow(x, wordLength) else x
  {
    if reflect {
      y := ReflectUnsigned(x, wordLength);
    } else {
      y := x;
    }
  }

  lemma ReflectWhole(x: Bits)
    ensures ReflectLow(x, |x|) == Reverse(x)
  {
    assert x[..|x|] == x;
  }

  /** The byte counter runs through all its values and stops when it wraps around to zero. */
  method MakeByteReflectionTable() returns (result: array<Bits>)
    ensures fresh(result) && result.Length == 256
    ensures forall v :: 0 <= v < 256 ==> result[v] == Reverse(FromNat(v, CHAR_BIT))
  {
    assert CHAR_BIT == 8;
    hide *;
    result := new Bits[256](_ => []);
    var i := 0;
    while true
      invariant 0 <= i < 256
      invariant forall v :: 0 <= v < i ==> result[v] == Reverse(FromNat(v, CHAR_BIT))
      decreases 256 - i
    {
      var x := FromNat(i, CHAR_BIT);
      result[i] := ReflectUnsigned(x, CHAR_BIT);
      ReflectWhole(x);
      i := (i + 1) % 256;
      if i == 0 {
        break;
      }
    }
  }

  method ReflectByte(x: Bits) returns (y: Bits)
    requires |x| == CHAR_BIT
    ensures y == Reverse(x)
  {
    var table := MakeByteReflectionTable();
    assert Pow2(CHAR_BIT) == 256;
    FromToNat(x);
    y := table[ToNat(x)];
  }

  /** Unlike the general routine this one clears the bits it does not reflect. */
  method ReflectSubByte(x: Bits, wordLength: nat) returns (y: Bits)
    requires |x| == CHAR_BIT
    requires 0 < wordLength <= CHAR_BIT
    ensures y == ZeroExtend(Reverse(x[..wordLength]), CHAR_BIT)
  {
    var r := ReflectByte(x);
    y := ShiftRight(r, CHAR_BIT - wordLength);
  }

  /** Reflection of the low bits is its own inverse. */
  lemma ReflectLowInvolution(x: Bits, n: nat)
    requires n <= |x|
    ensures ReflectLow(ReflectLow(x, n), n) == x
  {
  }
}
