/** The residue of `crc_32_type` as a number, computed in 32-bit words. */
module Crc32Residue {
  import opened Registers
  import opened Constants
  import opened Divider
  import opened Tables
  import opened StrayBits
  import opened Computers
  import opened Agreement
  import opened ErrorDetection
  import opened Rfc1952

  type Word = bv32

  function Half(x: Word): Word {
    x >> 1
  }

  function LowBit(x: Word): bool {
    x & 1 == 1
  }

  function WordXor(x: Word, y: Word): Word {
    x ^ y
  }

  /** The low `n` bits of a machine word. */
  function WordBits(x: Word, n: nat): (b: Bits)
    ensures |b| == n
  {
    if n == 0 then [] else [LowBit(x)] + WordBits(Half(x), n - 1)
  }

  lemma XorHalves(x: Word, y: Word)
    ensures Half(WordXor(x, y)) == WordXor(Half(x), Half(y))
    ensures LowBit(WordXor(x, y)) == (LowBit(x) != LowBit(y))
  {
  }

  lemma XorFirst(a: bool, b: bool, u: Bits, v: Bits)
    requires |u| == |v|
    ensures Xor([a] + u, [b] + v) == [a != b] + Xor(u, v)
  {
  }

  lemma {:induction false} WordXorBits(x: Word, y: Word, n: nat)
    ensures Xor(WordBits(x, n), WordBits(y, n)) == WordBits(WordXor(x, y), n)
    decreases n
  {
    hide Half, LowBit, WordXor;
    if n != 0 {
      XorHalves(x, y);
      WordXorBits(Half(x), Half(y), n - 1);
      hide Xor;
      XorFirst(LowBit(x), LowBit(y), WordBits(Half(x), n - 1), WordBits(Half(y), n - 1));
    } else {
      assert Xor([], []) == [];
    }
  }

  // ---------- the shifted word ----------

  /** `x` has no bits from `n` on. */
  predicate Fits(x: Word, n: nat) {
    if n == 0 then x == 0 else Fits(Half(x), n - 1)
  }

  lemma {:induction false} FitsPads(x: Word, n: nat)
    requires Fits(x, n)
    ensures WordBits(x, n + 1) == WordBits(x, n) + [false]
  {
    if n != 0 {
      hide Half, LowBit;
      FitsPads(Half(x), n - 1);
    } else {
      assert WordBits(x, 1) == [false] + WordBits(Half(x), 0);
    }
  }

  function Digit(x: Word): Word {
    x >> 4
  }

  lemma DigitHalves(x: Word)
    ensures Half(Half(Half(Half(x)))) == Digit(x)
  {
  }

  lemma FitsFour(x: Word, n: nat)
    requires Fits(Digit(x), n)
    ensures Fits(x, n + 4)
  {
    DigitHalves(x);
    hide Half, Digit;
    assert Fits(Half(Half(Half(x))), n + 1);
    assert Fits(Half(Half(x)), n + 2);
    assert Fits(Half(x), n + 3);
  }

  lemma EightDigits(x: Word)
    ensures Digit(Digit(Digit(Digit(Digit(Digit(Digit(Digit(x)))))))) == 0
  {
  }

  lemma EveryWordFits(x: Word)
    ensures Fits(x, 32)
  {
    var x1 := Digit(x);
    var x2 := Digit(x1);
    var x3 := Digit(x2);
    var x4 := Digit(x3);
    var x5 := Digit(x4);
    var x6 := Digit(x5);
    var x7 := Digit(x6);
    EightDigits(x);
    assert Fits(0, 0);
    hide Digit, Fits;
    FitsFour(x7, 0);
    FitsFour(x6, 4);
    FitsFour(x5, 8);
    FitsFour(x4, 12);
    FitsFour(x3, 16);
    FitsFour(x2, 20);
    FitsFour(x1, 24);
    FitsFour(x, 28);
  }

  lemma HalfWord(c: Word)
    ensures ShiftRight(WordBits(c, 32), 1) == WordBits(Half(c), 32)
    ensures WordBits(c, 32)[0] == LowBit(c)
  {
    EveryWordFits(c);
    hide Half, LowBit;
    FitsPads(Half(c), 31);
    assert WordBits(c, 32) == [LowBit(c)] + WordBits(Half(c), 31);
    hide WordBits, Fits;
    assert WordBits(c, 32)[1..] == WordBits(Half(c), 31);
  }

  // ---------- right steps on words ----------

  const REFLECTED: Word := 0xEDB88320

  /** A right step on a machine word. */
  function WordStep(c: Word): Word {
    if LowBit(c) then WordXor(REFLECTED, Half(c)) else Half(c)
  }

  lemma WordStepIsRightStep(c: Word)
    ensures RightStep(WordBits(c, 32), WordBits(REFLECTED, 32)) == WordBits(WordStep(c), 32)
  {
    hide WordBits, ShiftRight, Xor, Half, LowBit, WordXor;
    HalfWord(c);
    WordXorBits(REFLECTED, Half(c), 32);
  }

  function WordSteps(c: Word, k: nat): Word {
    if k == 0 then c else WordStep(WordSteps(c, k - 1))
  }

  lemma {:induction false} WordStepsAreRightSteps(c: Word, k: nat)
    ensures RightSteps(WordBits(c, 32), k, WordBits(REFLECTED, 32)) == WordBits(WordSteps(c, k), 32)
  {
    hide RightStep, WordStep, WordBits;
    if k != 0 {
      WordStepsAreRightSteps(c, k - 1);
      WordStepIsRightStep(WordSteps(c, k - 1));
    }
  }

  lemma {:induction false} WordStepsConcat(c: Word, j: nat, k: nat)
    ensures WordSteps(c, j + k) == WordSteps(WordSteps(c, j), k)
  {
    hide WordStep;
    if k != 0 {
      WordStepsConcat(c, j, k - 1);
    }
  }

  lemma EightSteps()
    ensures WordSteps(0xFFFFFFFF, 8) == 0x2DFD1072
    ensures WordSteps(0x2DFD1072, 8) == 0xBE26ED00
    ensures WordSteps(0xBE26ED00, 8) == 0x00BE26ED
    ensures WordSteps(0x00BE26ED, 8) == 0xDEBB20E3
  {
  }

  lemma ResidueSteps()
    ensures WordSteps(0xFFFFFFFF, 32) == 0xDEBB20E3
  {
    hide *;
    EightSteps();
    WordStepsConcat(0xFFFFFFFF, 8, 8);
    WordStepsConcat(0xFFFFFFFF, 16, 8);
    WordStepsConcat(0xFFFFFFFF, 24, 8);
  }

  // ---------- words written as numbers ----------

  lemma NextWordBit(x: Word, n: nat)
    ensures WordBits(x, n + 1) == [LowBit(x)] + WordBits(Half(x), n)
  {
  }

  lemma DigitBits(x: Word, n: nat)
    ensures WordBits(x, n + 4)
         == [LowBit(x), LowBit(Half(x)), LowBit(Half(Half(x))), LowBit(Half(Half(Half(x))))] + WordBits(Digit(x), n)
  {
    hide *;
    DigitHalves(x);
    NextWordBit(x, n + 3);
    NextWordBit(Half(x), n + 2);
    NextWordBit(Half(Half(x)), n + 1);
    NextWordBit(Half(Half(Half(x))), n);
  }

  /** A hexadecimal digit of a word against the same digit of a number. */
  lemma WordDigit(x: Word, v: nat, b3: nat, b2: nat, b1: nat, b0: nat, n: nat)
    requires b3 < 2 && b2 < 2 && b1 < 2 && b0 < 2 && WordBits(Digit(x), n) == FromNat(v, n)
    requires LowBit(x) == (b0 == 1) && LowBit(Half(x)) == (b1 == 1)
    requires LowBit(Half(Half(x))) == (b2 == 1) && LowBit(Half(Half(Half(x)))) == (b3 == 1)
    ensures WordBits(x, n + 4) == FromNat(16 * v + 8 * b3 + 4 * b2 + 2 * b1 + b0, n + 4)
  {
    hide *;
    DigitBits(x, n);
    HexDigitBits(v, b3, b2, b1, b0, n);
  }

  lemma ReflectedNumber()
    ensures WordBits(0xEDB88320, 32) == FromNat(0xEDB88320, 32)
  {
    assert WordBits(0, 0) == FromNat(0, 0);
    hide WordBits, FromNat;
    WordDigit(0xE, 0x0, 1, 1, 1, 0, 0);
    WordDigit(0xED, 0xE, 1, 1, 0, 1, 4);
    WordDigit(0xEDB, 0xED, 1, 0, 1, 1, 8);
    WordDigit(0xEDB8, 0xEDB, 1, 0, 0, 0, 12);
    WordDigit(0xEDB88, 0xEDB8, 1, 0, 0, 0, 16);
    WordDigit(0xEDB883, 0xEDB88, 0, 0, 1, 1, 20);
    WordDigit(0xEDB8832, 0xEDB883, 0, 0, 1, 0, 24);
    WordDigit(0xEDB88320, 0xEDB8832, 0, 0, 0, 0, 28);
  }

  lemma OnesNumber()
    ensures WordBits(0xFFFFFFFF, 32) == FromNat(0xFFFFFFFF, 32)
  {
    assert WordBits(0, 0) == FromNat(0, 0);
    hide WordBits, FromNat;
    WordDigit(0xF, 0x0, 1, 1, 1, 1, 0);
    WordDigit(0xFF, 0xF, 1, 1, 1, 1, 4);
    WordDigit(0xFFF, 0xFF, 1, 1, 1, 1, 8);
    WordDigit(0xFFFF, 0xFFF, 1, 1, 1, 1, 12);
    WordDigit(0xFFFFF, 0xFFFF, 1, 1, 1, 1, 16);
    WordDigit(0xFFFFFF, 0xFFFFF, 1, 1, 1, 1, 20);
    WordDigit(0xFFFFFFF, 0xFFFFFF, 1, 1, 1, 1, 24);
    WordDigit(0xFFFFFFFF, 0xFFFFFFF, 1, 1, 1, 1, 28);
  }

  lemma ResidueNumber()
    ensures WordBits(0x2144DF1C, 32) == FromNat(0x2144DF1C, 32)
  {
    assert WordBits(0, 0) == FromNat(0, 0);
    hide WordBits, FromNat;
    WordDigit(0x2, 0x0, 0, 0, 1, 0, 0);
    WordDigit(0x21, 0x2, 0, 0, 0, 1, 4);
    WordDigit(0x214, 0x21, 0, 1, 0, 0, 8);
    WordDigit(0x2144, 0x214, 0, 1, 0, 0, 12);
    WordDigit(0x2144D, 0x2144, 1, 1, 0, 1, 16);
    WordDigit(0x2144DF, 0x2144D, 1, 1, 1, 1, 20);
    WordDigit(0x2144DF1, 0x2144DF, 0, 0, 0, 1, 24);
    WordDigit(0x2144DF1C, 0x2144DF1, 1, 1, 0, 0, 28);
  }

  // ---------- the residue ----------

  lemma OnesRun(d: Bits)
    requires |d| == 32
    ensures RightSteps(Ones(32), 32, Reverse(d)) == Reverse(Divide(32, Zeros(32), Ones(32), d))
  {
    assert Reverse(Ones(32)) == Ones(32) && Xor(Zeros(32), Ones(32)) == Ones(32);
    hide *;
    RightStepsReflect(Ones(32), 32, Reverse(d));
    ReverseTwice(d);
    FullWord(Ones(32), Zeros(32), d);
  }

  lemma OnesResidue()
    ensures Xor(RightSteps(Ones(32), 32, FromNat(0xEDB88320, 32)), Ones(32)) == FromNat(0x2144DF1C, 32)
  {
    assert WordXor(0xDEBB20E3, 0xFFFFFFFF) == 0x2144DF1C;
    assert REFLECTED == 0xEDB88320;
    hide *;
    ReflectedNumber();
    OnesNumber();
    ResidueNumber();
    OnesWord();
    WordStepsAreRightSteps(0xFFFFFFFF, 32);
    ResidueSteps();
    WordXorBits(0xDEBB20E3, 0xFFFFFFFF, 32);
  }

  lemma LowestBit(v: nat, n: nat)
    requires 0 < n
    ensures FromNat(v, n)[0] == (v % 2 == 1)
  {
  }

  lemma Crc32Parts()
    ensures Crc32().order == 32 && Crc32().Width() == 32 && Crc32().reflectIn && Crc32().reflectRem
    ensures |Crc32().poly| == |Crc32().finalXor| == 32
    ensures Low(Crc32().poly, 32) == FromNat(0x04C11DB7, 32) && Low(Crc32().finalXor, 32) == Ones(32)
    ensures Crc32().poly[0]
  {
    hide FromNat, Ones;
    LowestBit(0x04C11DB7, 32);
    OnesWord();
  }

  lemma Crc32Output(s: Bits)
    requires |s| == 32
    ensures Crc32().Valid() && Crc32().order == 32 && ModelOutput(Crc32(), s) == Xor(Reverse(s), Ones(32))
  {
    Crc32Parts();
    hide FromNat, Ones, Xor, Reverse, Low, Crc32;
  }

  lemma ResidueOfCrc32()
    ensures Crc32().order % CHAR_BIT == 0 && Residue(Crc32()) == FromNat(0x2144DF1C, 32)
  {
    var p, d := Crc32(), FromNat(0x04C11DB7, 32);
    assert CHAR_BIT == 8;
    hide *;
    Crc32Parts();
    Crc32Output(Divide(32, Zeros(32), Ones(32), d));
    ResidueRemainder(p);
    CheckStream(p, Ones(32));
    Crc32Polynomial();
    OnesRun(d);
    OnesResidue();
  }

  lemma Crc32CheckBytes(c: Bits)
    requires |c| == 32
    ensures |c| % CHAR_BIT == 0 && CheckBytes(Crc32(), c) == LittleEndian(c)
  {
    Crc32Parts();
    hide Crc32, LittleEndian;
  }

  /** The receiver's test of CRC-32: the checksum of a message with four more bytes is 0x2144DF1C if and
      only if those are the checksum of the message, lowest byte first.
   */
  lemma Crc32Residue(message: seq<Byte>, check: seq<Byte>)
    requires |check| == 4
    ensures |OptimalChecksum(Crc32(), message)| % CHAR_BIT == 0
    ensures OptimalChecksum(Crc32(), message + check) == FromNat(0x2144DF1C, 32)
            <==> check == LittleEndian(OptimalChecksum(Crc32(), message))
  {
    assert CHAR_BIT == 8;
    hide *;
    Crc32Parts();
    FullWidthIsHarmless(Crc32());
    ResidueOfCrc32();
    ResidueDecides(Crc32(), message, check);
    Crc32CheckBytes(OptimalChecksum(Crc32(), message));
  }
}
