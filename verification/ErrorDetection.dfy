/** What a CRC is for: codewords of the augmented form, and which bursts of errors are caught. */
module ErrorDetection {
  import opened Registers
  import opened Divider
  import opened Tables
  import opened Drivers
  import opened Computers
  import opened Agreement
  import opened StrayBits
  import opened Wrappers

  // ---------- codewords ----------

  /** `boost::augmented_crc`.  It always uses the byte table: below a byte of order the result of a
      non-empty message is undefined, and in every other case it is the augmented division.
   */
  method AugmentedCrc(n: nat, poly: Bits, bytes: seq<Byte>, initialRemainder: Bits) returns (result: Option<Bits>)
    requires 0 < n <= |poly| == |initialRemainder| && CHAR_BIT <= |poly|
    ensures result.None? <==> n < CHAR_BIT && bytes != []
    ensures result.Some? ==>
              result.value == ZeroExtend(AugDivide(n, Low(initialRemainder, n), StreamBits(bytes, false), Low(poly, n)), |poly|)
  {
    result := DirectByteAugmentedUpdate(n, initialRemainder, bytes, poly);
    if result.Some? {
      var c := result.value;
      result := Some(c[..n] + Zeros(|c| - n));
    }
  }

  /** The checksum that the zero-extended message yields. */
  function AugmentedChecksum(start: Bits, message: seq<Byte>, d: Bits): (c: Bits)
    requires 0 < |start| == |d|
    ensures |c| == |d|
  {
    AugDivide(|d|, start, StreamBits(message, false) + Zeros(|d|), d)
  }

  /** A word of whole bytes in big-endian order. */
  function BigEndian(c: Bits): (bytes: seq<Byte>)
    requires |c| % CHAR_BIT == 0
    ensures CHAR_BIT * |bytes| == |c|
  {
    if c == [] then [] else [c[|c| - CHAR_BIT..]] + BigEndian(c[..|c| - CHAR_BIT])
  }

  lemma OneByteStream(c: Byte)
    ensures StreamBits([c], false) == Reverse(c)
  {
    assert [c][..0] == [] && c[..CHAR_BIT] == c;
  }

  lemma {:induction false} BigEndianBits(c: Bits)
    requires |c| % CHAR_BIT == 0
    ensures StreamBits(BigEndian(c), false) == Reverse(c)
  {
    if c != [] {
      var top, rest := c[|c| - CHAR_BIT..], c[..|c| - CHAR_BIT];
      BigEndianBits(rest);
      OneByteStream(top);
      assert c == rest + top;
      ReverseConcat(rest, top);
      hide *;
      StreamBitsConcat([top], BigEndian(rest), false);
    }
  }

  lemma {:induction false} StreamBitsInjective(a: seq<Byte>, b: seq<Byte>, reflect: bool)
    requires |a| == |b| && StreamBits(a, reflect) == StreamBits(b, reflect)
    ensures a == b
  {
    if a != [] {
      var k := |a| - 1;
      var headA, headB := StreamBits(a[..k], reflect), StreamBits(b[..k], reflect);
      var lastA, lastB := ReadOrder(a[k], CHAR_BIT, reflect), ReadOrder(b[k], CHAR_BIT, reflect);
      assert headA + lastA == headB + lastB;
      assert headA == (headA + lastA)[..CHAR_BIT * k] == headB;
      assert lastA == (headA + lastA)[CHAR_BIT * k..] == lastB;
      StreamBitsInjective(a[..k], b[..k], reflect);
      assert a[k][..CHAR_BIT] == a[k] && b[k][..CHAR_BIT] == b[k];
      ReverseTwice(a[k]);
      ReverseTwice(b[k]);
      assert a == a[..k] + [a[k]] && b == b[..k] + [b[k]];
    }
  }

  lemma AllEntered(r: Bits, t: Bits)
    requires |t| == |r|
    ensures Entered(r, t) == Reverse(t)
  {
    assert r[..0] == [];
  }

  lemma XorZeros(r: Bits)
    ensures Xor(Zeros(|r|), r) == r
    ensures Reverse(Zeros(|r|)) == Zeros(|r|)
  {
  }

  /** Dividing a message followed by `n` more bits leaves those bits against the checksum. */
  lemma TrailerAgainstChecksum(start: Bits, bs: Bits, trailer: Bits, d: Bits)
    requires 0 < |start| == |d| == |trailer|
    ensures AugDivide(|d|, start, bs + trailer, d)
         == Xor(Reverse(trailer), AugDivide(|d|, start, bs + Zeros(|d|), d))
  {
    var n := |d|;
    hide *;
    var r := AugDivide(n, start, bs, d);
    AllEntered(r, trailer);
    AllEntered(r, Zeros(n));
    XorZeros(Divide(n, Zeros(n), LeadingBits(r, n), d));
    AugDivideConcat(n, start, bs, trailer, d);
    AugDivideConcat(n, start, bs, Zeros(n), d);
    AugAbsorb(r, trailer, d);
    AugAbsorb(r, Zeros(n), d);
  }

  /** With zero bytes after it, a message yields its unaugmented checksum from a zero remainder. */
  lemma ZeroExtendedMessage(message: seq<Byte>, d: Bits)
    requires 0 < |d|
    ensures AugmentedChecksum(Zeros(|d|), message, d) == Divide(|d|, Zeros(|d|), StreamBits(message, false), d)
  {
    var n, bs := |d|, StreamBits(message, false);
    XorZeros(Zeros(n));
    hide Divide, AugDivide, StreamBits;
    AugmentedIsUnaugmented(Zeros(n), bs, d);
    DivideConcat(n, Zeros(n), Zeros(n), bs, d);
    DivideZeros(n, n, n, d);
  }

  lemma BigEndianMatches(check: seq<Byte>, c: Bits)
    requires |c| == CHAR_BIT * |check|
    ensures |c| % CHAR_BIT == 0 && (check == BigEndian(c) <==> Reverse(StreamBits(check, false)) == c)
  {
    assert |c| % CHAR_BIT == 0;
    BigEndianBits(c);
    ReverseTwice(StreamBits(check, false));
    ReverseTwice(c);
    hide StreamBits, Reverse, BigEndian;
    if Reverse(StreamBits(check, false)) == c {
      StreamBitsInjective(check, BigEndian(c), false);
    }
  }

  /** Codewords: for an order of whole bytes, a message followed by check bytes divides to zero if and
      only if the check bytes are its checksum in big-endian order; for zero check bytes the result
      is the checksum itself.
   */
  lemma Codeword(start: Bits, message: seq<Byte>, check: seq<Byte>, d: Bits)
    requires 0 < |start| == |d| == CHAR_BIT * |check|
    ensures |d| % CHAR_BIT == 0
    ensures var result := AugDivide(|d|, start, StreamBits(message + check, false), d);
            && (result == Zeros(|d|) <==> check == BigEndian(AugmentedChecksum(start, message, d)))
            && (check == BigEndian(Zeros(|d|)) ==> result == AugmentedChecksum(start, message, d))
  {
    var n, checksum := |d|, AugmentedChecksum(start, message, d);
    assert checksum == AugDivide(n, start, StreamBits(message, false) + Zeros(n), d);
    assert n % CHAR_BIT == 0;
    hide *;
    var trailer := StreamBits(check, false);
    var result := AugDivide(n, start, StreamBits(message + check, false), d);
    assert result == Xor(Reverse(trailer), checksum) by {
      StreamBitsConcat(message, check, false);
      TrailerAgainstChecksum(start, StreamBits(message, false), trailer, d);
    }
    XorCancel(Reverse(trailer), checksum);
    BigEndianMatches(check, checksum);
    BigEndianMatches(check, Zeros(n));
    XorZeros(checksum);
  }

  /** A message may be read in several runs, each started from the result of the one before. */
  lemma AugmentedRunsCompose(start: Bits, a: seq<Byte>, b: seq<Byte>, d: Bits)
    requires 0 < |start| == |d|
    ensures AugDivide(|d|, start, StreamBits(a + b, false), d)
         == AugDivide(|d|, AugDivide(|d|, start, StreamBits(a, false), d), StreamBits(b, false), d)
  {
    hide *;
    StreamBitsConcat(a, b, false);
    AugDivideConcat(|d|, start, StreamBits(a, false), StreamBits(b, false), d);
  }

  /** With zero check bytes `augmented_crc` yields what `crc` yields for the message alone, for the
      parameter set without reflection, initial remainder and mask.
   */
  lemma ZeroBytesGiveCrc(p: Parameters, message: seq<Byte>)
    requires p.Valid() && p.order % CHAR_BIT == 0 && !p.reflectIn && !p.reflectRem
    requires p.init == p.finalXor == Zeros(p.Width())
    ensures AugDivide(p.order, Zeros(p.order), StreamBits(message + BigEndian(Zeros(p.order)), false), Low(p.poly, p.order))
         == OptimalChecksum(p, message)
  {
    var n, d := p.order, Low(p.poly, p.order);
    assert Low(Zeros(p.Width()), n) == Zeros(n);
    var r := Divide(n, Zeros(n), StreamBits(message, false), d);
    XorCancel(r, Zeros(n));
    assert Xor(r, Zeros(n)) == r;
    assert OptimalChecksum(p, message) == r;
    hide *;
    Codeword(Zeros(n), message, BigEndian(Zeros(n)), d);
    ZeroExtendedMessage(message, d);
  }

  // ---------- bursts ----------

  /** Equal streams except inside a window of at most `n` bits, and not equal there. */
  predicate DifferInWindow(a: Bits, b: Bits, i: nat, k: nat, n: nat) {
    && i + k <= |a| == |b| && k <= n
    && a[..i] == b[..i] && a[i + k..] == b[i + k..] && a[i..i + k] != b[i..i + k]
  }

  /** From any start, streams that differ by a burst no longer than the order leave different
      significant bits.
   */
  ghost predicate BurstsDetected(n: nat, d: Bits)
    requires 0 < n <= |d|
  {
    forall r: Bits, a: Bits, b: Bits, i: nat, k: nat ::
      |r| == |d| && DifferInWindow(a, b, i, k, n) ==> Low(Divide(n, r, a, d), n) != Low(Divide(n, r, b, d), n)
  }

  lemma StepKeepsNonzero(r: Bits, d: Bits)
    requires 0 < |r| == |d| && d[0] && r != Zeros(|r|)
    ensures Step(|r|, r, false, d) != Zeros(|r|)
    ensures AugStep(|r|, r, false, d) != Zeros(|r|)
  {
    var n := |r|;
    NonzeroHasBit(r);
    var i :| 0 <= i < n && r[i];
    if r[n - 1] {
      assert Step(n, r, false, d)[0] && AugStep(n, r, false, d)[0];
    } else {
      assert Step(n, r, false, d)[i + 1] && AugStep(n, r, false, d)[i + 1];
    }
  }

  lemma {:induction false} ZerosKeepNonzero(r: Bits, k: nat, d: Bits)
    requires 0 < |r| == |d| && d[0] && r != Zeros(|r|)
    ensures Divide(|r|, r, Zeros(k), d) != Zeros(|r|)
    ensures AugDivide(|r|, r, Zeros(k), d) != Zeros(|r|)
  {
    hide Step, AugStep;
    if k != 0 {
      assert Zeros(k)[..k - 1] == Zeros(k - 1);
      ZerosKeepNonzero(r, k - 1, d);
      StepKeepsNonzero(Divide(|r|, r, Zeros(k - 1), d), d);
      StepKeepsNonzero(AugDivide(|r|, r, Zeros(k - 1), d), d);
    }
  }

  lemma Placed(w: Bits, n: nat) returns (r: Bits)
    requires |w| <= n && w != Zeros(|w|)
    ensures |r| == n && r != Zeros(n) && Reverse(r) == Zeros(n - |w|) + w
  {
    r := Reverse(Zeros(n - |w|) + w);
    assert w == Reverse(r)[n - |w|..];
    assert Reverse(Zeros(n))[n - |w|..] == Zeros(|w|);
  }

  /** Dividing the register's own bits is what `n` augmenting zeros do to it. */
  lemma OwnBits(r: Bits, d: Bits)
    requires 0 < |r| == |d|
    ensures AugDivide(|r|, r, Zeros(|r|), d) == Divide(|r|, Zeros(|r|), Reverse(r), d)
  {
    assert [] + Zeros(|r|) == Zeros(|r|) && Reverse(r) + [] == Reverse(r);
    hide *;
    AugmentedIsUnaugmented(r, [], d);
  }

  /** Up to `n` bits, not all zero, never divide to zero. */
  lemma ShortNonzero(w: Bits, d: Bits)
    requires |w| <= |d| && 0 < |d| && d[0] && w != Zeros(|w|)
    ensures Divide(|d|, Zeros(|d|), w, d) != Zeros(|d|)
  {
    hide *;
    var n := |d|;
    var r := Placed(w, n);
    ZerosKeepNonzero(r, n, d);
    OwnBits(r, d);
    DivideConcat(n, Zeros(n), Zeros(n - |w|), w, d);
    DivideZeros(n, n, n - |w|, d);
  }

  lemma WindowXor(a: Bits, b: Bits, i: nat, k: nat, n: nat)
    requires DifferInWindow(a, b, i, k, n)
    ensures var w := Xor(a[i..i + k], b[i..i + k]);
            w != Zeros(k) && Xor(a, b) == Zeros(i) + w + Zeros(|a| - i - k)
  {
    XorCancel(a[i..i + k], b[i..i + k]);
    forall j | 0 <= j < i ensures a[j] == b[j] {
      assert a[j] == a[..i][j];
    }
    forall j | i + k <= j < |a| ensures a[j] == b[j] {
      assert a[j] == a[i + k..][j - i - k];
    }
  }

  lemma BurstDetected(r: Bits, a: Bits, b: Bits, i: nat, k: nat, d: Bits)
    requires 0 < |r| == |d| && d[0] && DifferInWindow(a, b, i, k, |d|)
    ensures Divide(|d|, r, a, d) != Divide(|d|, r, b, d)
  {
    var n, w, j := |d|, Xor(a[i..i + k], b[i..i + k]), |a| - i - k;
    WindowXor(a, b, i, k, n);
    XorCancel(r, r);
    XorCancel(Divide(n, r, a, d), Divide(n, r, b, d));
    hide *;
    DivideXor(n, r, r, a, b, d);
    DivideConcat(n, Zeros(n), Zeros(i) + w, Zeros(j), d);
    DivideConcat(n, Zeros(n), Zeros(i), w, d);
    DivideZeros(n, n, i, d);
    ShortNonzero(w, d);
    ZerosKeepNonzero(Divide(n, Zeros(n), w, d), j, d);
  }

  /** The polynomial of which a divisor without constant term is x times. */
  function Cofactor(d: Bits): (c: Bits)
    requires 0 < |d|
    ensures |c| == |d|
  {
    d[1..] + [true]
  }

  lemma CofactorShifted(d: Bits)
    requires 0 < |d| && !d[0]
    ensures ShiftLeft(Cofactor(d), 1)[0 := false] == d
    ensures Cofactor(d)[|d| - 1]
  {
    assert Cofactor(d)[..|d| - 1] == d[1..];
  }

  lemma CofactorClears(d: Bits)
    requires 0 < |d| && !d[0]
    ensures AugStep(|d|, Cofactor(d), false, d) == Zeros(|d|)
  {
    CofactorShifted(d);
    XorCancel(d, d);
    hide Xor, ShiftLeft, Cofactor, Zeros;
  }

  lemma AugDivideOne(r: Bits, b: bool, d: Bits)
    requires 0 < |r| == |d|
    ensures AugDivide(|r|, r, [b], d) == AugStep(|r|, r, b, d)
  {
    hide AugStep;
    assert [b][..0] == [];
  }

  lemma ZerosAfterOne(n: nat)
    requires 0 < n
    ensures Zeros(n) == [false] + Zeros(n - 1)
  {
  }

  lemma {:induction false} AugDivideZeros(n: nat, k: nat, d: Bits)
    requires 0 < n == |d|
    ensures AugDivide(n, Zeros(n), Zeros(k), d) == Zeros(n)
  {
    if k != 0 {
      assert Zeros(k)[..k - 1] == Zeros(k - 1);
      AugDivideZeros(n, k - 1, d);
    }
  }

  /** Without a constant term the cofactor, as a burst of `n` bits, divides to zero. */
  lemma UndetectedBurst(d: Bits)
    requires 0 < |d| && !d[0]
    ensures Divide(|d|, Zeros(|d|), Reverse(Cofactor(d)), d) == Zeros(|d|)
  {
    hide *;
    var n := |d|;
    CofactorClears(d);
    AugDivideOne(Cofactor(d), false, d);
    ZerosAfterOne(n);
    OwnBits(Cofactor(d), d);
    AugDivideConcat(n, Cofactor(d), [false], Zeros(n - 1), d);
    AugDivideZeros(n, n - 1, d);
  }

  /** Every burst no longer than the order is detected if and only if the divisor has a constant
      term, whatever the register width.
   */
  lemma BurstDetection(n: nat, d: Bits)
    requires 0 < n <= |d|
    ensures BurstsDetected(n, d) <==> d[0]
  {
    if d[0] {
      forall r: Bits, a: Bits, b: Bits, i: nat, k: nat | |r| == |d| && DifferInWindow(a, b, i, k, n)
        ensures Low(Divide(n, r, a, d), n) != Low(Divide(n, r, b, d), n)
      {
        StrayBitsIgnored(n, r, a, d);
        StrayBitsIgnored(n, r, b, d);
        hide Divide, DifferInWindow;
        BurstDetected(r[..n], a, b, i, k, d[..n]);
      }
    } else {
      var w, a, b := |d|, Reverse(Cofactor(d[..n])), Zeros(n);
      assert a[0] && a[0..n] == a && b[0..n] == b && DifferInWindow(a, b, 0, n, n);
      assert Zeros(w)[..n] == Zeros(n);
      StrayBitsIgnored(n, Zeros(w), a, d);
      StrayBitsIgnored(n, Zeros(w), b, d);
      hide Divide, DifferInWindow;
      UndetectedBurst(d[..n]);
      DivideZeros(n, n, n, d[..n]);
      assert Low(Divide(n, Zeros(w), a, d), n) == Low(Divide(n, Zeros(w), b, d), n);
    }
  }

  /** Two messages whose bits, in reading order, differ by a burst no longer than the order get different
      checksums from the table-driven computer.
   */
  lemma BurstsChangeChecksum(p: Parameters, m1: seq<Byte>, m2: seq<Byte>, i: nat, k: nat)
    requires p.Valid() && StraysHarmless(p) && p.poly[0]
    requires DifferInWindow(StreamBits(m1, p.reflectIn), StreamBits(m2, p.reflectIn), i, k, p.order)
    ensures OptimalChecksum(p, m1) != OptimalChecksum(p, m2)
  {
    var start, d := Low(p.init, p.order), Low(p.poly, p.order);
    HarmlessAgrees(p, m1);
    HarmlessAgrees(p, m2);
    hide Divide, StreamBits, DifferInWindow, OptimalChecksum, ModelOutput;
    BurstDetected(start, StreamBits(m1, p.reflectIn), StreamBits(m2, p.reflectIn), i, k, d);
    if ModelChecksum(p, m1) == ModelChecksum(p, m2) {
      OutputIsInjective(p, ModelRemainder(p, start, m1), ModelRemainder(p, start, m2));
    }
  }

  // ---------- checksums appended to their message ----------

  /** A word of whole bytes in little-endian order. */
  function LittleEndian(c: Bits): (bytes: seq<Byte>)
    requires |c| % CHAR_BIT == 0
    ensures CHAR_BIT * |bytes| == |c|
  {
    if c == [] then [] else [c[..CHAR_BIT]] + LittleEndian(c[CHAR_BIT..])
  }

  lemma {:induction false} LittleEndianBits(c: Bits)
    requires |c| % CHAR_BIT == 0
    ensures StreamBits(LittleEndian(c), true) == c
  {
    if c != [] {
      LittleEndianBits(c[CHAR_BIT..]);
      StrayBits.OneByteStream(c[..CHAR_BIT]);
      assert c == c[..CHAR_BIT] + c[CHAR_BIT..];
      hide StreamBits;
      StreamBitsConcat([c[..CHAR_BIT]], LittleEndian(c[CHAR_BIT..]), true);
    }
  }

  /** The bytes that bring a checksum back in the order in which its remainder's bits were to come:
      lowest byte first for reflected input, mirrored if only one of the two sides is reflected.
   */
  function CheckBytes(p: Parameters, c: Bits): (bytes: seq<Byte>)
    requires |c| % CHAR_BIT == 0
    ensures CHAR_BIT * |bytes| == |c|
  {
    var x := if p.reflectIn == p.reflectRem then c else Reverse(c);
    if p.reflectIn then LittleEndian(x) else BigEndian(x)
  }

  lemma CheckStream(p: Parameters, c: Bits)
    requires |c| % CHAR_BIT == 0
    ensures StreamBits(CheckBytes(p, c), p.reflectIn) == if p.reflectRem then c else Reverse(c)
  {
    var x := if p.reflectIn == p.reflectRem then c else Reverse(c);
    LittleEndianBits(x);
    BigEndianBits(x);
    ReverseTwice(c);
  }

  /** What the mask alone leaves from a zero start. */
  function Residue(p: Parameters): (c: Bits)
    requires p.Valid() && p.order % CHAR_BIT == 0
    ensures |c| == p.order
  {
    ModelChecksum(p.(init := Zeros(p.Width())), CheckBytes(p, Low(p.finalXor, p.order)))
  }

  /** As many bits as the register has act only by their difference from the register's own. */
  lemma FullWord(s: Bits, bs: Bits, d: Bits)
    requires 0 < |s| == |bs| == |d|
    ensures Divide(|d|, s, bs, d) == Divide(|d|, Zeros(|d|), Xor(bs, Reverse(s)), d)
  {
    var n := |d|;
    assert ShiftLeft(s, n) == Zeros(n) && LeadingBits(s, n) == Reverse(s);
    XorZeros(Divide(n, Zeros(n), Xor(bs, Reverse(s)), d));
    hide *;
    Absorb(s, bs, d);
  }

  lemma DivideDifference(u: Bits, v: Bits, d: Bits)
    requires 0 < |d| && |u| == |v|
    ensures Xor(Divide(|d|, Zeros(|d|), u, d), Divide(|d|, Zeros(|d|), v, d)) == Divide(|d|, Zeros(|d|), Xor(u, v), d)
  {
    XorCancel(Zeros(|d|), Zeros(|d|));
    hide *;
    DivideXor(|d|, Zeros(|d|), Zeros(|d|), u, v, d);
  }

  lemma FullWordInjective(u: Bits, v: Bits, d: Bits)
    requires 0 < |u| == |v| == |d| && d[0]
    ensures Divide(|d|, Zeros(|d|), u, d) == Divide(|d|, Zeros(|d|), v, d) <==> u == v
  {
    hide *;
    var n := |d|;
    XorCancel(u, v);
    DivideDifference(u, v, d);
    XorCancel(Divide(n, Zeros(n), u, d), Divide(n, Zeros(n), v, d));
    if u != v {
      ShortNonzero(Xor(u, v), d);
    }
  }

  /** The remainder after a message and `check`, against the check bytes that belong to it. */
  lemma AppendedRemainder(p: Parameters, m: seq<Byte>, check: seq<Byte>)
    requires p.Valid() && CHAR_BIT * |check| == p.order
    ensures var n, d, s := p.order, Low(p.poly, p.order), ModelRemainder(p, Low(p.init, p.order), m);
            ModelRemainder(p, Low(p.init, n), m + check)
            == Divide(n, Zeros(n), Xor(StreamBits(check, p.reflectIn), Reverse(s)), d)
  {
    var s := ModelRemainder(p, Low(p.init, p.order), m);
    assert ModelRemainder(p, s, check) == Divide(p.order, s, StreamBits(check, p.reflectIn), Low(p.poly, p.order));
    hide *;
    ModelRemainderConcat(p, Low(p.init, p.order), m, check);
    FullWord(s, StreamBits(check, p.reflectIn), Low(p.poly, p.order));
  }

  /** The stream of the right check bytes differs from the remainder's own bits by the mask's stream. */
  lemma CheckDifference(p: Parameters, s: Bits)
    requires p.Valid() && |s| == p.order && p.order % CHAR_BIT == 0
    ensures Xor(StreamBits(CheckBytes(p, ModelOutput(p, s)), p.reflectIn), Reverse(s))
         == StreamBits(CheckBytes(p, Low(p.finalXor, p.order)), p.reflectIn)
  {
    var f := Low(p.finalXor, p.order);
    CheckStream(p, ModelOutput(p, s));
    CheckStream(p, f);
    hide StreamBits, CheckBytes, Low;
    if p.reflectRem {
      assert Xor(Xor(Reverse(s), f), Reverse(s)) == f;
    } else {
      assert Xor(Reverse(Xor(s, f)), Reverse(s)) == Reverse(f);
    }
  }

  lemma SameDifference(u: Bits, v: Bits, w: Bits)
    requires |u| == |v| == |w|
    ensures Xor(u, w) == Xor(v, w) <==> u == v
  {
    XorCancel(u, w);
    XorCancel(v, w);
  }

  lemma StreamsDecide(a: seq<Byte>, b: seq<Byte>, reflect: bool)
    requires |a| == |b|
    ensures StreamBits(a, reflect) == StreamBits(b, reflect) <==> a == b
  {
    if StreamBits(a, reflect) == StreamBits(b, reflect) {
      StreamBitsInjective(a, b, reflect);
    }
  }

  lemma ResidueRemainder(p: Parameters)
    requires p.Valid() && p.order % CHAR_BIT == 0
    ensures Residue(p) == ModelOutput(p, Divide(p.order, Zeros(p.order),
              StreamBits(CheckBytes(p, Low(p.finalXor, p.order)), p.reflectIn), Low(p.poly, p.order)))
  {
    assert Low(Zeros(p.Width()), p.order) == Zeros(p.order);
  }

  /** A message with its check bytes appended leaves the residue, whatever the message; and if the divisor
      has a constant term, no other check bytes do.
   */
  lemma ModelResidue(p: Parameters, m: seq<Byte>, check: seq<Byte>)
    requires p.Valid() && CHAR_BIT * |check| == p.order
    ensures p.order % CHAR_BIT == 0
    ensures check == CheckBytes(p, ModelChecksum(p, m)) ==> ModelChecksum(p, m + check) == Residue(p)
    ensures p.poly[0] && ModelChecksum(p, m + check) == Residue(p) ==> check == CheckBytes(p, ModelChecksum(p, m))
  {
    var n, d, s := p.order, Low(p.poly, p.order), ModelRemainder(p, Low(p.init, p.order), m);
    var right, mask := CheckBytes(p, ModelOutput(p, s)), CheckBytes(p, Low(p.finalXor, n));
    var u, v := Xor(StreamBits(check, p.reflectIn), Reverse(s)), StreamBits(mask, p.reflectIn);
    assert n % CHAR_BIT == 0 && d[0] == p.poly[0];
    assert ModelChecksum(p, m) == ModelOutput(p, s);
    assert ModelChecksum(p, m + check) == ModelOutput(p, ModelRemainder(p, Low(p.init, n), m + check));
    hide *;
    AppendedRemainder(p, m, check);
    CheckDifference(p, s);
    ResidueRemainder(p);
    StreamsDecide(check, right, p.reflectIn);
    SameDifference(StreamBits(check, p.reflectIn), StreamBits(right, p.reflectIn), Reverse(s));
    if d[0] && ModelChecksum(p, m + check) == Residue(p) {
      OutputIsInjective(p, Divide(n, Zeros(n), u, d), Divide(n, Zeros(n), v, d));
      FullWordInjective(u, v, d);
    }
  }

  /** The bytes that a stream of whole bytes comes from. */
  lemma StreamBytes(bs: Bits, reflect: bool) returns (bytes: seq<Byte>)
    requires |bs| % CHAR_BIT == 0
    ensures CHAR_BIT * |bytes| == |bs| && StreamBits(bytes, reflect) == bs
  {
    bytes := if reflect then LittleEndian(bs) else BigEndian(Reverse(bs));
    LittleEndianBits(bs);
    BigEndianBits(Reverse(bs));
    ReverseTwice(bs);
  }

  /** Without a constant term, some other word of `n` bits divides to the same remainder. */
  lemma UndetectedWord(u: Bits, d: Bits) returns (v: Bits)
    requires 0 < |u| == |d| && !d[0]
    ensures |v| == |u| && v != u && Divide(|d|, Zeros(|d|), v, d) == Divide(|d|, Zeros(|d|), u, d)
  {
    var n, w := |d|, Reverse(Cofactor(d));
    CofactorShifted(d);
    assert w[0];
    v := Xor(u, w);
    assert v[0] != u[0];
    assert Xor(v, u) == w;
    hide *;
    UndetectedBurst(d);
    DivideDifference(v, u, d);
    XorCancel(Divide(n, Zeros(n), v, d), Divide(n, Zeros(n), u, d));
  }

  /** Without a constant term some wrong check bytes pass. */
  lemma WrongCheckPasses(p: Parameters, m: seq<Byte>, right: seq<Byte>) returns (check: seq<Byte>)
    requires p.Valid() && p.order % CHAR_BIT == 0 && !p.poly[0] && CHAR_BIT * |right| == p.order
    ensures CHAR_BIT * |check| == p.order && check != right
    ensures ModelChecksum(p, m + check) == ModelChecksum(p, m + right)
  {
    var n, d, s := p.order, Low(p.poly, p.order), ModelRemainder(p, Low(p.init, p.order), m);
    assert !d[0];
    assert forall b :: ModelChecksum(p, m + b) == ModelOutput(p, ModelRemainder(p, Low(p.init, n), m + b));
    hide *;
    var u := Xor(StreamBits(right, p.reflectIn), Reverse(s));
    var v := UndetectedWord(u, d);
    check := StreamBytes(Xor(v, Reverse(s)), p.reflectIn);
    XorCancel(v, Reverse(s));
    AppendedRemainder(p, m, right);
    AppendedRemainder(p, m, check);
  }

  /** The residue accepts the right check bytes only, if and only if the divisor has a constant term. */
  lemma ResidueIsExact(p: Parameters, m: seq<Byte>)
    requires p.Valid() && p.order % CHAR_BIT == 0
    ensures (forall check: seq<Byte> :: CHAR_BIT * |check| == p.order && ModelChecksum(p, m + check) == Residue(p) ==>
                check == CheckBytes(p, ModelChecksum(p, m)))
            <==> p.poly[0]
  {
    assert 0 < p.order <= |p.poly|;
    hide *;
    var right := CheckBytes(p, ModelChecksum(p, m));
    forall check: seq<Byte> | p.poly[0] && CHAR_BIT * |check| == p.order && ModelChecksum(p, m + check) == Residue(p)
      ensures check == right
    {
      ModelResidue(p, m, check);
    }
    if !p.poly[0] {
      ModelResidue(p, m, right);
      var wrong := WrongCheckPasses(p, m, right);
    }
  }

  /** The receiver's test for the table-driven computer. */
  lemma ResidueDecides(p: Parameters, m: seq<Byte>, check: seq<Byte>)
    requires p.Valid() && StraysHarmless(p) && CHAR_BIT * |check| == p.order && p.poly[0]
    ensures p.order % CHAR_BIT == 0
    ensures OptimalChecksum(p, m + check) == Residue(p) <==> check == CheckBytes(p, OptimalChecksum(p, m))
  {
    hide *;
    ModelResidue(p, m, check);
    HarmlessAgrees(p, m);
    HarmlessAgrees(p, m + check);
  }
}
