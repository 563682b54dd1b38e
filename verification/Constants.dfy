/** Arithmetic on the numbers in which the library writes its divisors. */
module Constants {
  import opened Registers

  /** The low `n` bits of `v`, lowest first, shifted into `acc` from below. */
  function ReflectedOnto(v: nat, n: nat, acc: nat): (u: nat) {
    if n == 0 then acc else ReflectedOnto(v / 2, n - 1, 2 * acc + v % 2)
  }

  lemma {:induction false} ReflectedOntoBits(v: nat, n: nat, acc: nat, k: nat)
    ensures FromNat(ReflectedOnto(v, n, acc), n + k) == Reverse(FromNat(v, n)) + FromNat(acc, k)
  {
    if n != 0 {
      ReflectedOntoBits(v / 2, n - 1, 2 * acc + v % 2, k + 1);
      ReverseConcat([v % 2 == 1], FromNat(v / 2, n - 1));
      assert Reverse([v % 2 == 1]) == [v % 2 == 1];
    }
  }

  /** The reflection of a number written in hexadecimal. */
  lemma ReflectedConstant(v: nat, n: nat, u: nat)
    requires ReflectedOnto(v, n, 0) == u
    ensures Reverse(FromNat(v, n)) == FromNat(u, n)
  {
    ReflectedOntoBits(v, n, 0, 0);
    assert FromNat(0, 0) == [];
  }

  lemma ReflectBit(v: nat, b: nat, n: nat, acc: nat)
    requires b < 2
    ensures ReflectedOnto(2 * v + b, n + 1, acc) == ReflectedOnto(v, n, 2 * acc + b)
  {
  }

  /** A hexadecimal digit, given by its bits. */
  lemma ReflectHexDigit(v: nat, b3: nat, b2: nat, b1: nat, b0: nat, n: nat, acc: nat)
    requires b3 < 2 && b2 < 2 && b1 < 2 && b0 < 2
    ensures ReflectedOnto(16 * v + 8 * b3 + 4 * b2 + 2 * b1 + b0, n + 4, acc)
         == ReflectedOnto(v, n, 16 * acc + 8 * b0 + 4 * b1 + 2 * b2 + b3)
  {
    hide *;
    ReflectBit(8 * v + 4 * b3 + 2 * b2 + b1, b0, n + 3, acc);
    ReflectBit(4 * v + 2 * b3 + b2, b1, n + 2, 2 * acc + b0);
    ReflectBit(2 * v + b3, b2, n + 1, 4 * acc + 2 * b0 + b1);
    ReflectBit(v, b3, n, 8 * acc + 4 * b0 + 2 * b1 + b2);
  }

  lemma Crc32Polynomial()
    ensures Reverse(FromNat(0x04C11DB7, 32)) == FromNat(0xEDB88320, 32)
  {
    assert ReflectedOnto(0, 0, 0xEDB88320) == 0xEDB88320;
    hide *;
    ReflectHexDigit(0x04C11DB, 0, 1, 1, 1, 28, 0x0);
    ReflectHexDigit(0x04C11D, 1, 0, 1, 1, 24, 0xE);
    ReflectHexDigit(0x04C11, 1, 1, 0, 1, 20, 0xED);
    ReflectHexDigit(0x04C1, 0, 0, 0, 1, 16, 0xEDB);
    ReflectHexDigit(0x04C, 0, 0, 0, 1, 12, 0xEDB8);
    ReflectHexDigit(0x04, 1, 1, 0, 0, 8, 0xEDB88);
    ReflectHexDigit(0x0, 0, 1, 0, 0, 4, 0xEDB883);
    ReflectHexDigit(0x0, 0, 0, 0, 0, 0, 0xEDB8832);
    ReflectedConstant(0x04C11DB7, 32, 0xEDB88320);
  }

  lemma NumberBit(v: nat, b: nat, n: nat)
    requires b < 2
    ensures FromNat(2 * v + b, n + 1) == [b == 1] + FromNat(v, n)
  {
  }

  /** The bits of a hexadecimal digit, lowest first. */
  lemma HexDigitBits(v: nat, b3: nat, b2: nat, b1: nat, b0: nat, n: nat)
    requires b3 < 2 && b2 < 2 && b1 < 2 && b0 < 2
    ensures FromNat(16 * v + 8 * b3 + 4 * b2 + 2 * b1 + b0, n + 4)
         == [b0 == 1, b1 == 1, b2 == 1, b3 == 1] + FromNat(v, n)
  {
    hide *;
    NumberBit(8 * v + 4 * b3 + 2 * b2 + b1, b0, n + 3);
    NumberBit(4 * v + 2 * b3 + b2, b1, n + 2);
    NumberBit(2 * v + b3, b2, n + 1);
    NumberBit(v, b3, n);
  }

  lemma ThreeHexDigits(n: nat)
    ensures FromNat(0x80F, n + 12)
         == [true, true, true, true, false, false, false, false, false, false, false, true] + FromNat(0, n)
  {
    hide *;
    HexDigitBits(0x80, 1, 1, 1, 1, n + 8);
    HexDigitBits(0x8, 0, 0, 0, 0, n + 4);
    HexDigitBits(0x0, 1, 0, 0, 0, n);
  }

  lemma Crc12Polynomial()
    ensures FromNat(0x80F, 12) == [true, true, true, true] + Zeros(7) + [true]
    ensures FromNat(0x80F, 16) == FromNat(0x80F, 12) + Zeros(4)
  {
    assert FromNat(0, 0) == [] && FromNat(0, 4) == Zeros(4);
    assert Zeros(7) == [false, false, false, false, false, false, false];
    hide *;
    ThreeHexDigits(0);
    ThreeHexDigits(4);
  }

  lemma TwoBytes()
    ensures FromNat(0x80, CHAR_BIT) == Zeros(CHAR_BIT - 1) + [true]
    ensures FromNat(0x01, CHAR_BIT) == [true] + Zeros(CHAR_BIT - 1)
  {
    assert FromNat(0, 0) == [];
    assert Zeros(7) == [false, false, false, false, false, false, false];
    assert CHAR_BIT == 8;
    hide *;
    HexDigitBits(0x8, 0, 0, 0, 0, 4);
    HexDigitBits(0x0, 1, 0, 0, 0, 0);
    HexDigitBits(0x0, 0, 0, 0, 1, 4);
    HexDigitBits(0x0, 0, 0, 0, 0, 0);
  }
}
