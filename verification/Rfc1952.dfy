/** The predefined computers, and CRC-32 against the right-shifting algorithm of section 8 of RFC 1952. */
module Rfc1952 {
  import opened Registers
  import opened Constants
  import opened Reflection
  import opened Divider
  import opened Tables
  import opened Drivers
  import opened StrayBits
  import opened Computers
  import opened Agreement
  import opened ErrorDetection

  // ---------- the algorithm of the RFC, for any width and polynomial ----------

  /** `c & 1 ? q ^ (c >> 1) : c >> 1` */
  function RightStep(c: Bits, q: Bits): (s: Bits)
    requires 0 < |c| == |q|
    ensures |s| == |c|
  {
    if c[0] then Xor(q, ShiftRight(c, 1)) else ShiftRight(c, 1)
  }

  function RightSteps(c: Bits, k: nat, q: Bits): (s: Bits)
    requires 0 < |c| == |q|
    ensures |s| == |c|
  {
    if k == 0 then c else RightStep(RightSteps(c, k - 1, q), q)
  }

  /** `c = crc_table[(c ^ buf[n]) & 0xff] ^ (c >> 8)`, with the table made by eight right steps. */
  function RfcRound(c: Bits, byte: Byte, q: Bits): (s: Bits)
    requires CHAR_BIT <= |c| == |q|
    ensures |s| == |c|
  {
    Xor(RightSteps(ZeroExtend(Xor(c[..CHAR_BIT], byte), |c|), CHAR_BIT, q), ShiftRight(c, CHAR_BIT))
  }

  function RfcRun(c: Bits, bytes: seq<Byte>, q: Bits): (s: Bits)
    requires CHAR_BIT <= |c| == |q|
    ensures |s| == |c|
  {
    if bytes == [] then c else RfcRound(RfcRun(c, bytes[..|bytes| - 1], q), bytes[|bytes| - 1], q)
  }

  function Ones(n: nat): (b: Bits)
    ensures |b| == n
  {
    seq(n, i => true)
  }

  /** The RFC's crc(): the update function complements the register before and after, from zero. */
  function RfcCrc(bytes: seq<Byte>, q: Bits): (s: Bits)
    requires CHAR_BIT <= |q|
    ensures |s| == |q|
  {
    Xor(RfcRun(Xor(Zeros(|q|), Ones(|q|)), bytes, q), Ones(|q|))
  }

  // ---------- right shifting is reflected division ----------

  lemma RightStepReflects(c: Bits, q: Bits)
    requires 0 < |c| == |q|
    ensures RightStep(c, q) == Reverse(Step(|c|, Reverse(c), false, Reverse(q)))
  {
  }

  lemma {:induction false} RightStepsReflect(c: Bits, k: nat, q: Bits)
    requires 0 < |c| == |q|
    ensures RightSteps(c, k, q) == Reverse(Divide(|c|, Reverse(c), Zeros(k), Reverse(q)))
  {
    hide RightStep, Step, Reverse;
    if k == 0 {
      ReverseTwice(c);
    } else {
      var before := Divide(|c|, Reverse(c), Zeros(k - 1), Reverse(q));
      RightStepsReflect(c, k - 1, q);
      assert Zeros(k)[..k - 1] == Zeros(k - 1);
      RightStepReflects(Reverse(before), q);
      ReverseTwice(before);
    }
  }

  lemma LoadedByte(v: Byte, w: nat)
    requires CHAR_BIT <= w
    ensures ShiftLeft(Reverse(ZeroExtend(v, w)), CHAR_BIT) == Zeros(w)
    ensures Xor(Zeros(CHAR_BIT), LeadingBits(Reverse(ZeroExtend(v, w)), CHAR_BIT)) == v
  {
  }

  /** Eight right steps on a byte make the reflected table's entry. */
  lemma RfcTableIsReflectedTable(v: Byte, d: Bits)
    requires CHAR_BIT <= |d|
    ensures RightSteps(ZeroExtend(v, |d|), CHAR_BIT, Reverse(d)) == TableEntry(|d|, d, v, true)
  {
    var w := |d|;
    var x := ZeroExtend(v, w);
    RightStepsReflect(x, CHAR_BIT, Reverse(d));
    ReverseTwice(d);
    LoadedByte(v, w);
    XorZeros(Divide(w, Zeros(w), v, d));
    ReflectWhole(Divide(w, Zeros(w), v, d));
    assert TableEntry(w, d, v, true) == ReflectLow(Divide(w, Zeros(w), v, d), w);
    hide *;
    Absorb(Reverse(x), Zeros(CHAR_BIT), d);
  }

  lemma XorCommutes(a: Bits, b: Bits)
    requires |a| == |b|
    ensures Xor(a, b) == Xor(b, a)
  {
  }

  lemma {:induction false} RfcRunIsReflectedRun(c: Bits, bytes: seq<Byte>, d: Bits)
    requires CHAR_BIT <= |c| == |d|
    ensures RfcRun(c, bytes, Reverse(d)) == ReflectedRun(|d|, c, bytes, d)
  {
    if bytes != [] {
      var before, last := ReflectedRun(|d|, c, bytes[..|bytes| - 1], d), bytes[|bytes| - 1];
      RfcRunIsReflectedRun(c, bytes[..|bytes| - 1], d);
      hide RightSteps, TableEntry, Reverse;
      RfcTableIsReflectedTable(Xor(before[..CHAR_BIT], last), d);
      XorCommutes(TableEntry(|d|, d, Xor(before[..CHAR_BIT], last), true), ShiftRight(before, CHAR_BIT));
    }
  }

  /** The reflected parameter sets with complemented start and result. */
  function Complemented(d: Bits): (p: Parameters)
    requires CHAR_BIT <= |d|
    ensures p.Valid()
  {
    Parameters(|d|, d, Ones(|d|), Ones(|d|), true, true)
  }

  /** For every message, the table-driven computer and the RFC's algorithm with the reflected
      polynomial give the same checksum, at every width of at least a byte.
   */
  lemma RightShiftingChecksum(d: Bits, bytes: seq<Byte>)
    requires CHAR_BIT <= |d|
    ensures OptimalChecksum(Complemented(d), bytes) == RfcCrc(bytes, Reverse(d))
  {
    var p, w := Complemented(d), |d|;
    assert Started(p, Ones(w)) == Ones(w);
    XorZeros(Ones(w));
    RfcRunIsReflectedRun(Ones(w), bytes, d);
    var run := ReflectedRun(w, Ones(w), bytes, d);
    assert Low(run, w) == run && Low(Ones(w), w) == Ones(w);
    ReverseTwice(run);
    hide ReflectedRun, RfcRun, Started, Xor, Ones, Reverse;
  }

  // ---------- the predefined computers ----------

  /** `crc_32_type`, whose start and mask are 0xFFFFFFFF */
  function Crc32(): (p: Parameters)
    ensures p.Valid()
  {
    Parameters(32, FromNat(0x04C11DB7, 32), FromNat(0xFFFFFFFF, 32), FromNat(0xFFFFFFFF, 32), true, true)
  }

  lemma {:induction false} OnesFromNat(v: nat, n: nat)
    requires v + 1 == Pow2(n)
    ensures FromNat(v, n) == Ones(n)
  {
    if n != 0 {
      OnesFromNat(v / 2, n - 1);
      assert Ones(n) == [true] + Ones(n - 1);
    }
  }

  lemma OnesWord()
    ensures FromNat(0xFFFFFFFF, 32) == Ones(32)
  {
    assert Pow2(8) == 256;
    Pow2Split(8, 8);
    Pow2Split(16, 16);
    hide FromNat, Ones, Pow2;
    OnesFromNat(0xFFFFFFFF, 32);
  }

  lemma Crc32IsComplemented()
    ensures Crc32() == Complemented(FromNat(0x04C11DB7, 32))
  {
    hide FromNat, Ones;
    OnesWord();
  }

  /** A register no wider than the polynomial has no room for stray bits. */
  lemma FullWidthIsHarmless(p: Parameters)
    requires p.Valid() && p.order == p.Width()
    ensures StraysHarmless(p)
  {
    assert Strays(p.poly, p.order) == LeadingOne(0);
    assert Strays(p.init, p.order) == Zeros(0);
  }

  /** `crc_32_type` is the checksum of RFC 1952, and so is its bit-wise form. */
  lemma Crc32IsRfc1952(bytes: seq<Byte>)
    ensures OptimalChecksum(Crc32(), bytes) == RfcCrc(bytes, FromNat(0xEDB88320, 32))
    ensures ModelChecksum(Crc32(), bytes) == RfcCrc(bytes, FromNat(0xEDB88320, 32))
  {
    var d := FromNat(0x04C11DB7, 32);
    Crc32IsComplemented();
    assert Crc32().order == Crc32().Width();
    hide Crc32, OptimalChecksum, ModelChecksum, RfcCrc, FromNat, Complemented, Reverse;
    Crc32Polynomial();
    RightShiftingChecksum(d, bytes);
    FullWidthIsHarmless(Crc32());
    HarmlessAgrees(Crc32(), bytes);
  }

  lemma DetectedIfOdd(n: nat, v: nat)
    requires 0 < n
    ensures BurstsDetected(n, FromNat(v, n)) <==> v % 2 == 1
  {
    assert FromNat(v, n)[0] == (v % 2 == 1);
    hide FromNat, BurstsDetected;
    BurstDetection(n, FromNat(v, n));
  }

  /** Of the predefined divisors only 0x8408 misses bursts no longer than its order. */
  lemma PredefinedDivisors()
    ensures BurstsDetected(16, FromNat(0x8005, 16)) && BurstsDetected(16, FromNat(0x1021, 16))
    ensures BurstsDetected(32, FromNat(0x04C11DB7, 32))
    ensures !BurstsDetected(16, FromNat(0x8408, 16))
  {
    hide *;
    DetectedIfOdd(16, 0x8005);
    DetectedIfOdd(16, 0x1021);
    DetectedIfOdd(32, 0x04C11DB7);
    DetectedIfOdd(16, 0x8408);
  }

  /** CRC-12 as it is usually written, with reflected input, in a 16-bit register. */
  function Crc12(): (p: Parameters)
    ensures p.Valid()
  {
    Parameters(12, FromNat(0x80F, 16), Zeros(16), Zeros(16), true, true)
  }

  lemma UnitByte(n: nat, d: Bits)
    requires CHAR_BIT <= n == |d|
    ensures Divide(n, Zeros(n), Zeros(CHAR_BIT - 1) + [true], d) == d
    ensures Xor(IdleByte(Zeros(n)), Zeros(CHAR_BIT - 1) + [true]) == Zeros(CHAR_BIT - 1) + [true]
    ensures StreamBits([Zeros(CHAR_BIT - 1) + [true]], true) == Zeros(CHAR_BIT - 1) + [true]
  {
    assert Step(n, Zeros(n), true, d) == d;
    DivideSnoc(n, Zeros(n), Zeros(CHAR_BIT - 1), true, d);
    DivideZeros(n, n, CHAR_BIT - 1, d);
    StrayBits.OneByteStream(Zeros(CHAR_BIT - 1) + [true]);
  }

  lemma NearStrayArrives(x: Bits, low: Bits, j: nat, d: Bits)
    requires CHAR_BIT <= |low| && |x| == |d| && Strayed(x, low, j) && j < |low| + CHAR_BIT
    ensures Low(ShiftRight(x, CHAR_BIT), |low|) != Reverse(Idle(low, d))
  {
    StrayMoves(x, low, j, d);
    hide Low, ShiftRight, Reverse, Idle, IdleByte, ReflectedRound;
  }

  /** An idle byte brings down a stray bit that is less than a byte away. */
  lemma NearStrayRevealed(x: Bits, low: Bits, j: nat, d: Bits)
    requires CHAR_BIT <= |low| && |x| == |d| && Strayed(x, low, j) && j < |low| + CHAR_BIT
    ensures Reveals(x, low, [IdleByte(low)], d)
  {
    assert CHAR_BIT == 8 <= |low| <= |x|;
    hide *;
    NearStrayArrives(x, low, j, d);
    RevealsNow(ShiftRight(x, CHAR_BIT), Idle(low, d), d);
    var m := RevealsLater(x, low, j, [], d);
  }

  /** From a zero remainder, the byte 0x80 leaves the divisor, with a stray bit above it when the
      leading term is omitted.
   */
  lemma OmittedTermStrays(n: nat, d: Bits)
    requires CHAR_BIT <= n < |d| && Strays(d, n) == Zeros(|d| - n)
    ensures var x := ReflectedRound(n, Image(Zeros(n), |d|), Zeros(CHAR_BIT - 1) + [true], d);
            Low(x, n) == Reverse(Low(d, n)) && Strays(x, n) != Zeros(|d| - n)
  {
    assert LeadingOne(|d| - n)[0];
    assert !CarriesLeadingTerm(n, d);
    hide *;
    ReflectedRoundMeaning(Zeros(n), |d|, Zeros(CHAR_BIT - 1) + [true], d);
    UnitByte(n, Low(d, n));
    EntryStrays(n, d);
  }

  lemma OmittedTermRevealed(n: nat, d: Bits)
    requires CHAR_BIT <= n < |d| <= n + CHAR_BIT && Strays(d, n) == Zeros(|d| - n)
    ensures var x := ReflectedRound(n, Image(Zeros(n), |d|), Zeros(CHAR_BIT - 1) + [true], d);
            Low(x, n) == Reverse(Low(d, n)) && Reveals(x, Low(d, n), [IdleByte(Low(d, n))], d)
  {
    var low := Low(d, n);
    var x := ReflectedRound(n, Image(Zeros(n), |d|), Zeros(CHAR_BIT - 1) + [true], d);
    OmittedTermStrays(n, d);
    NonzeroHasBit(Strays(x, n));
    var i :| 0 <= i < |d| - n && Strays(x, n)[i];
    assert Strayed(x, low, n + i);
    hide *;
    NearStrayRevealed(x, low, n + i, d);
  }

  lemma OneByteBroughtOut(p: Parameters, c: Byte, m: seq<Byte>)
    requires p.Valid() && p.order >= CHAR_BIT
    requires var x := ReflectedRound(p.order, Started(p, p.init), c, p.poly);
             var low := Divide(p.order, Low(p.init, p.order), c, Low(p.poly, p.order));
             Low(x, p.order) == Reverse(low) && p.reflectIn && Reveals(x, low, m, p.poly)
    ensures BroughtOut(p, [c], m)
  {
    hide Divide, ReflectedRun, ReflectedRound, Low, Started, Reverse, Reveals, StreamBits;
    OneByte(Low(p.init, p.order), Started(p, p.init), c, p.poly);
  }

  lemma ZeroStart(p: Parameters)
    requires p.Valid() && p.init == Zeros(p.Width())
    ensures Low(p.init, p.order) == Zeros(p.order)
    ensures p.reflectIn ==> Started(p, p.init) == Image(Zeros(p.order), p.Width())
  {
    assert Started(p, p.init) == Zeros(p.Width());
    assert Image(Zeros(p.order), p.Width()) == Zeros(p.Width());
  }

  /** Reflected input from a zero remainder, the leading term omitted, and at most a byte of spare
      register.
   */
  predicate OmitsTerm(p: Parameters)
    requires p.Valid()
  {
    && p.reflectIn && CHAR_BIT < p.order < p.Width() <= p.order + CHAR_BIT
    && Strays(p.poly, p.order) == Zeros(p.Width() - p.order) && p.init == Zeros(p.Width())
  }

  lemma OmittedTermBroughtOut(p: Parameters)
    requires p.Valid() && OmitsTerm(p)
    ensures BroughtOut(p, [Zeros(CHAR_BIT - 1) + [true]], [IdleByte(Low(p.poly, p.order))])
  {
    var n, d, c := p.order, p.poly, Zeros(CHAR_BIT - 1) + [true];
    ZeroStart(p);
    hide *;
    OmittedTermRevealed(n, d);
    UnitByte(n, Low(d, n));
    OneByteBroughtOut(p, c, [IdleByte(Low(d, n))]);
  }

  /** The two computers then disagree about 0x80 followed by the idle byte. */
  lemma OmittedTermDisagrees(p: Parameters)
    requires p.Valid() && OmitsTerm(p)
    ensures var message := [Zeros(CHAR_BIT - 1) + [true], IdleByte(Low(p.poly, p.order))];
            OptimalChecksum(p, message) != ModelChecksum(p, message)
  {
    var c, idle := Zeros(CHAR_BIT - 1) + [true], IdleByte(Low(p.poly, p.order));
    assert [c, idle] == [c] + [idle];
    OmittedTermBroughtOut(p);
    hide OptimalChecksum, ModelChecksum, BroughtOut, Zeros, IdleByte, Low;
    Disagreement(p, [c], [idle]);
  }

  /** A 12-bit polynomial in a 16-bit register with reflected input, its leading term omitted as
      usual: the two computers disagree about the message 0x80 0x01.
   */
  lemma TwelveBitsDisagree()
    ensures var message := [FromNat(0x80, CHAR_BIT), FromNat(0x01, CHAR_BIT)];
            OptimalChecksum(Crc12(), message) != ModelChecksum(Crc12(), message)
  {
    Crc12Polynomial();
    TwoBytes();
    assert Strays(Crc12().poly, 12) == Zeros(4);
    assert IdleByte(Low(Crc12().poly, 12)) == FromNat(0x01, CHAR_BIT);
    hide OptimalChecksum, ModelChecksum, FromNat, Strays, IdleByte;
    OmittedTermDisagrees(Crc12());
  }
}
