/** The byte-fed update routines: direct and reflected, table-driven for at least a byte of order
    and bit-serial below.
 */
module Drivers {
  import opened Registers
  import opened Reflection
  import opened Divider
  import opened Tables
  import opened Wrappers

  /** The bits of a message in reading order. */
  function StreamBits(bytes: seq<Byte>, reflect: bool): (bs: Bits)
    ensures |bs| == CHAR_BIT * |bytes|
  {
    if bytes == [] then []
    else StreamBits(bytes[..|bytes| - 1], reflect) + ReadOrder(bytes[|bytes| - 1], CHAR_BIT, reflect)
  }

  lemma {:induction false} StreamBitsConcat(a: seq<Byte>, b: seq<Byte>, reflect: bool)
    ensures StreamBits(a + b, reflect) == StreamBits(a, reflect) + StreamBits(b, reflect)
  {
    if b == [] {
      assert a + b == a;
    } else {
      var b', last := b[..|b| - 1], b[|b| - 1];
      assert (a + b)[..|a + b| - 1] == a + b';
      StreamBitsConcat(a, b', reflect);
      assert StreamBits(a + b, reflect) == StreamBits(a, reflect) + StreamBits(b', reflect) + ReadOrder(last, CHAR_BIT, reflect);
    }
  }

  /** Byte `k` of a message supplies the bits from `CHAR_BIT * k` on: from its low end if reflected, from
      its high end otherwise.
   */
  lemma {:induction false} StreamBitsAt(bytes: seq<Byte>, reflect: bool, k: nat, j: nat)
    requires k < |bytes| && j < CHAR_BIT
    ensures CHAR_BIT * k + j < |StreamBits(bytes, reflect)|
    ensures StreamBits(bytes, reflect)[CHAR_BIT * k + j] == bytes[k][if reflect then j else CHAR_BIT - 1 - j]
  {
    if k < |bytes| - 1 {
      StreamBitsAt(bytes[..|bytes| - 1], reflect, k, j);
    }
  }

  lemma StreamBitsSnoc(bytes: seq<Byte>, k: nat, reflect: bool)
    requires k < |bytes|
    ensures StreamBits(bytes[..k + 1], reflect)
         == StreamBits(bytes[..k], reflect) + ReadOrder(bytes[k], CHAR_BIT, reflect)
  {
    hide ReadOrder;
    assert bytes[..k + 1][..k] == bytes[..k];
  }

  lemma FeedNothing(r: Bits, bytes: seq<Byte>, reflect: bool, d: Bits)
    requires 0 < |r| == |d|
    ensures Divide(|r|, r, StreamBits(bytes[..0], reflect), d) == r
    ensures AugDivide(|r|, r, StreamBits(bytes[..0], reflect), d) == r
    ensures bytes[..|bytes|] == bytes
  {
  }

  /** Feeding one more byte of a message. */
  lemma FeedByte(r: Bits, bytes: seq<Byte>, k: nat, reflect: bool, d: Bits)
    requires 0 < |r| == |d| && k < |bytes|
    ensures Divide(|r|, r, StreamBits(bytes[..k + 1], reflect), d)
         == Divide(|r|, Divide(|r|, r, StreamBits(bytes[..k], reflect), d), ReadOrder(bytes[k], CHAR_BIT, reflect), d)
    ensures AugDivide(|r|, r, StreamBits(bytes[..k + 1], reflect), d)
         == AugDivide(|r|, AugDivide(|r|, r, StreamBits(bytes[..k], reflect), d), ReadOrder(bytes[k], CHAR_BIT, reflect), d)
  {
    hide *;
    StreamBitsSnoc(bytes, k, reflect);
    DivideConcat(|r|, r, StreamBits(bytes[..k], reflect), ReadOrder(bytes[k], CHAR_BIT, reflect), d);
    AugDivideConcat(|r|, r, StreamBits(bytes[..k], reflect), ReadOrder(bytes[k], CHAR_BIT, reflect), d);
  }

  // ---------- direct, table-driven ----------

  /** One round of the direct update, and the division it stands for. */
  lemma DirectRound(n: nat, r: Bits, c: Byte, d: Bits)
    requires CHAR_BIT <= n <= |r| == |d|
    ensures var index := Xor(r[n - CHAR_BIT..n], c);
            Xor(ShiftLeft(r, CHAR_BIT), TableEntry(n, d, index, false))[..n]
            == Divide(n, r[..n], ReadOrder(c, CHAR_BIT, false), d[..n])
  {
    hide Divide;
    var index, low := Xor(r[n - CHAR_BIT..n], c), r[..n];
    StrayBitsIgnored(n, Zeros(|d|), Reverse(index), d);
    assert Zeros(|d|)[..n] == Zeros(n);
    Absorb(low, Reverse(c), d[..n]);
    assert low[n - CHAR_BIT..] == r[n - CHAR_BIT..n];
    assert Xor(Reverse(c), LeadingBits(low, CHAR_BIT)) == Reverse(index);
    assert c[..CHAR_BIT] == c;
  }

  lemma DirectAugRound(n: nat, r: Bits, c: Byte, d: Bits)
    requires CHAR_BIT <= n <= |r| == |d|
    ensures Xor(Or(ShiftLeft(r, CHAR_BIT), ZeroExtend(c, |r|)), TableEntry(n, d, r[n - CHAR_BIT..n], false))[..n]
            == AugDivide(n, r[..n], ReadOrder(c, CHAR_BIT, false), d[..n])
  {
    hide Divide, AugDivide;
    var index, low := r[n - CHAR_BIT..n], r[..n];
    StrayBitsIgnored(n, Zeros(|d|), Reverse(index), d);
    assert Zeros(|d|)[..n] == Zeros(n);
    AugAbsorb(low, Reverse(c), d[..n]);
    assert LeadingBits(low, CHAR_BIT) == Reverse(index);
    ReverseTwice(c);
    assert Or(ShiftLeft(r, CHAR_BIT), ZeroExtend(c, |r|))[..n] == Entered(low, Reverse(c));
    assert c[..CHAR_BIT] == c;
  }

  predicate IsTable(table: seq<Bits>, n: nat, d: Bits, reflect: bool)
    requires 0 < n <= |d|
  {
    && |table| == Pow2(CHAR_BIT)
    && forall i :: 0 <= i < |table| ==> table[i] == TableEntry(n, d, FromNat(i, CHAR_BIT), reflect)
  }

  lemma TableIndex(table: seq<Bits>, n: nat, d: Bits, index: Byte, reflect: bool)
    requires 0 < n <= |d| && IsTable(table, n, d, reflect)
    ensures |table| == Pow2(CHAR_BIT)
    ensures table[ToNat(index)] == TableEntry(n, d, index, reflect)
  {
    FromToNat(index);
  }

  /** The significant bits of `r` are what the unaugmented division of `bytes` makes of `start`. */
  predicate DirectState(n: nat, start: Bits, bytes: seq<Byte>, d: Bits, r: Bits)
    requires 0 < n <= |start| == |d|
  {
    |r| == |start| && r[..n] == Divide(n, start[..n], StreamBits(bytes, false), d[..n])
  }

  lemma DirectNextByte(n: nat, start: Bits, r: Bits, bytes: seq<Byte>, k: nat, d: Bits)
    requires CHAR_BIT <= n <= |start| == |r| == |d| && k < |bytes|
    requires DirectState(n, start, bytes[..k], d, r)
    ensures DirectState(n, start, bytes[..k + 1], d,
      Xor(ShiftLeft(r, CHAR_BIT), TableEntry(n, d, Xor(r[n - CHAR_BIT..n], bytes[k]), false)))
  {
    hide Divide, AugDivide, Xor, Or, ShiftLeft, TableEntry, StreamBits, ReadOrder, ZeroExtend;
    DirectRound(n, r, bytes[k], d);
    FeedByte(start[..n], bytes, k, false, d[..n]);
  }

  method DirectByteUpdate(n: nat, remainder: Bits, bytes: seq<Byte>, d: Bits) returns (r: Bits)
    requires CHAR_BIT <= n <= |remainder| == |d|
    ensures |r| == |remainder|
    ensures r[..n] == Divide(n, remainder[..n], StreamBits(bytes, false), d[..n])
  {
    var products := MakePartialXorProductsTable(CHAR_BIT, n, d, false);
    var table := products[..];
    assert IsTable(table, n, d, false);
    r := remainder;
    var p := 0;
    FeedNothing(remainder[..n], bytes, false, d[..n]);
    while p < |bytes|
      invariant 0 <= p <= |bytes| && |r| == |remainder|
      invariant DirectState(n, remainder, bytes[..p], d, r)
    {
      hide DirectState, IsTable, Xor, Or, ShiftLeft, TableEntry, ToNat, ZeroExtend;
      var index := Xor(r[n - CHAR_BIT..n], bytes[p]);
      DirectNextByte(n, remainder, r, bytes, p, d);
      TableIndex(table, n, d, index, false);
      r := ShiftLeft(r, CHAR_BIT);
      r := Xor(r, table[ToNat(index)]);
      p := p + 1;
    }
  }

  /** The significant bits of `r` are what the augmented division of `bytes` makes of `start`. */
  predicate DirectAugState(n: nat, start: Bits, bytes: seq<Byte>, d: Bits, r: Bits)
    requires 0 < n <= |start| == |d|
  {
    |r| == |start| && r[..n] == AugDivide(n, start[..n], StreamBits(bytes, false), d[..n])
  }

  lemma DirectAugNextByte(n: nat, start: Bits, r: Bits, bytes: seq<Byte>, k: nat, d: Bits)
    requires CHAR_BIT <= n <= |start| == |r| == |d| && k < |bytes|
    requires DirectAugState(n, start, bytes[..k], d, r)
    ensures DirectAugState(n, start, bytes[..k + 1], d,
      Xor(Or(ShiftLeft(r, CHAR_BIT), ZeroExtend(bytes[k], |r|)), TableEntry(n, d, r[n - CHAR_BIT..n], false)))
  {
    hide Divide, AugDivide, Xor, Or, ShiftLeft, TableEntry, StreamBits, ReadOrder, ZeroExtend;
    DirectAugRound(n, r, bytes[k], d);
    FeedByte(start[..n], bytes, k, false, d[..n]);
  }

  /** The byte at the top of the significant part, shifted down by `n - CHAR_BIT`.  None stands for a
      shift by a negative count, which the language leaves undefined.
   */
  function LeadingByte(r: Bits, n: nat): Option<Byte>
    requires n <= |r|
  {
    if n < CHAR_BIT then None else Some(r[n - CHAR_BIT..n])
  }

  /** Defined, for a message of at least one byte, exactly for orders of at least a byte. */
  method DirectByteAugmentedUpdate(n: nat, remainder: Bits, bytes: seq<Byte>, d: Bits) returns (result: Option<Bits>)
    requires 0 < n <= |remainder| == |d| && CHAR_BIT <= |d|
    ensures result.None? <==> n < CHAR_BIT && bytes != []
    ensures result.Some? ==> |result.value| == |remainder|
    ensures result.Some? ==> result.value[..n] == AugDivide(n, remainder[..n], StreamBits(bytes, false), d[..n])
  {
    var products := MakePartialXorProductsTable(CHAR_BIT, n, d, false);
    var table := products[..];
    assert IsTable(table, n, d, false);
    var r := remainder;
    var p := 0;
    FeedNothing(remainder[..n], bytes, false, d[..n]);
    while p < |bytes|
      invariant 0 <= p <= |bytes| && |r| == |remainder| && (p > 0 ==> n >= CHAR_BIT)
      invariant DirectAugState(n, remainder, bytes[..p], d, r)
    {
      var leading := LeadingByte(r, n);
      if leading.None? {
        return None;
      }
      hide DirectAugState, IsTable, Xor, Or, ShiftLeft, TableEntry, ToNat, ZeroExtend;
      var index := leading.value;
      DirectAugNextByte(n, remainder, r, bytes, p, d);
      TableIndex(table, n, d, index, false);
      r := ShiftLeft(r, CHAR_BIT);
      r := Or(r, ZeroExtend(bytes[p], |r|));
      r := Xor(r, table[ToNat(index)]);
      p := p + 1;
    }
    result := Some(r);
  }

  // ---------- reflected, table-driven ----------

  /** One round of the reflected update, on all the bits of the register. */
  function ReflectedRound(n: nat, r: Bits, c: Byte, d: Bits): (s: Bits)
    requires CHAR_BIT <= n <= |r| == |d|
    ensures |s| == |r|
  {
    Xor(ShiftRight(r, CHAR_BIT), TableEntry(n, d, Xor(r[..CHAR_BIT], c), true))
  }

  function ReflectedRun(n: nat, r: Bits, bytes: seq<Byte>, d: Bits): (s: Bits)
    requires CHAR_BIT <= n <= |r| == |d|
    ensures |s| == |r|
  {
    if bytes == [] then r
    else ReflectedRound(n, ReflectedRun(n, r, bytes[..|bytes| - 1], d), bytes[|bytes| - 1], d)
  }

  lemma {:induction false} ReflectedRunConcat(n: nat, r: Bits, a: seq<Byte>, b: seq<Byte>, d: Bits)
    requires CHAR_BIT <= n <= |r| == |d|
    ensures ReflectedRun(n, r, a + b, d) == ReflectedRun(n, ReflectedRun(n, r, a, d), b, d)
  {
    hide ReflectedRound;
    if b == [] {
      assert a + b == a;
    } else {
      assert (a + b)[..|a + b| - 1] == a + b[..|b| - 1];
      ReflectedRunConcat(n, r, a, b[..|b| - 1], d);
    }
  }

  lemma ReflectedNextByte(n: nat, r: Bits, bytes: seq<Byte>, k: nat, d: Bits)
    requires CHAR_BIT <= n <= |r| == |d| && k < |bytes|
    ensures var before := ReflectedRun(n, r, bytes[..k], d);
            ReflectedRun(n, r, bytes[..k + 1], d)
            == Xor(ShiftRight(before, CHAR_BIT), TableEntry(n, d, Xor(before[..CHAR_BIT], bytes[k]), true))
  {
    assert bytes[..k + 1][..k] == bytes[..k];
  }

  method ReflectedByteUpdate(n: nat, remainder: Bits, bytes: seq<Byte>, d: Bits) returns (r: Bits)
    requires CHAR_BIT <= n <= |remainder| == |d|
    ensures r == ReflectedRun(n, remainder, bytes, d)
  {
    var products := MakePartialXorProductsTable(CHAR_BIT, n, d, true);
    var table := products[..];
    assert IsTable(table, n, d, true);
    r := remainder;
    var p := 0;
    assert bytes[..|bytes|] == bytes;
    while p < |bytes|
      invariant 0 <= p <= |bytes| && |r| == |remainder|
      invariant r == ReflectedRun(n, remainder, bytes[..p], d)
    {
      hide *;
      var index := Xor(r[..CHAR_BIT], bytes[p]);
      TableIndex(table, n, d, index, true);
      ReflectedNextByte(n, remainder, bytes, p, d);
      r := ShiftRight(r, CHAR_BIT);
      r := Xor(r, table[ToNat(index)]);
      p := p + 1;
    }
  }

  /** The reflected register of `w` bits that stands for the remainder `low`: no stray bits. */
  function Image(low: Bits, w: nat): (r: Bits)
    requires |low| <= w
    ensures |r| == w
  {
    ZeroExtend(Reverse(low), w)
  }

  lemma ImageParts(low: Bits, w: nat)
    requires |low| <= w
    ensures Low(Image(low, w), |low|) == Reverse(low)
    ensures Strays(Image(low, w), |low|) == Zeros(w - |low|)
    ensures Reverse(Low(Image(low, w), |low|)) == low
  {
  }

  lemma ImageFromParts(low: Bits, r: Bits)
    requires |low| <= |r| && Low(r, |low|) == Reverse(low) && Strays(r, |low|) == Zeros(|r| - |low|)
    ensures r == Image(low, |r|)
  {
    assert r == r[..|low|] + r[|low|..];
  }

  lemma ShiftedImage(low: Bits, w: nat, entry: Bits)
    requires CHAR_BIT <= |low| <= w == |entry|
    ensures var s := Xor(ShiftRight(Image(low, w), CHAR_BIT), ReflectLow(entry, |low|));
            && Low(s, |low|) == Reverse(Xor(ShiftLeft(low, CHAR_BIT), Low(entry, |low|)))
            && Strays(s, |low|) == Strays(entry, |low|)
  {
    var n := |low|;
    var s := Xor(ShiftRight(Image(low, w), CHAR_BIT), ReflectLow(entry, n));
    var t := Xor(ShiftLeft(low, CHAR_BIT), Low(entry, n));
    forall i | 0 <= i < n ensures s[i] == t[n - 1 - i] {
      assert ReflectLow(entry, n)[i] == entry[n - 1 - i];
      assert ShiftRight(Image(low, w), CHAR_BIT)[i] == (i + CHAR_BIT < n && low[n - 1 - i - CHAR_BIT]);
    }
  }

  /** The byte that makes a reflected round select the zero entry. */
  function IdleByte(low: Bits): Byte
    requires CHAR_BIT <= |low|
  {
    Reverse(low)[..CHAR_BIT]
  }

  /** From any register, stray bits only move down: a round leaves what it would leave without them, with
      those bits a byte lower.
   */
  lemma ReflectedRoundStrays(n: nat, r: Bits, c: Byte, d: Bits)
    requires CHAR_BIT <= n <= |r| == |d|
    ensures ReflectedRound(n, r, c, d)
         == Xor(ReflectedRound(n, Image(Reverse(Low(r, n)), |r|), c, d), ShiftRight(Zeros(n) + Strays(r, n), CHAR_BIT))
  {
    var clean, above := Image(Reverse(Low(r, n)), |r|), Zeros(n) + Strays(r, n);
    ReverseTwice(Low(r, n));
    assert clean == r[..n] + Zeros(|r| - n);
    assert clean[..CHAR_BIT] == r[..CHAR_BIT];
    var entry := TableEntry(n, d, Xor(r[..CHAR_BIT], c), true);
    hide TableEntry;
    assert ReflectedRound(n, r, c, d) == Xor(ShiftRight(r, CHAR_BIT), entry);
    assert ReflectedRound(n, clean, c, d) == Xor(ShiftRight(clean, CHAR_BIT), entry);
    assert ShiftRight(r, CHAR_BIT) == Xor(ShiftRight(clean, CHAR_BIT), ShiftRight(above, CHAR_BIT));
  }

  /** One round on the image of a remainder: the significant part goes through the division, and the
      stray bits it picks up are those of the table entry.
   */
  lemma ReflectedRoundMeaning(low: Bits, w: nat, c: Byte, d: Bits)
    requires CHAR_BIT <= |low| <= w == |d|
    ensures Low(ReflectedRound(|low|, Image(low, w), c, d), |low|)
         == Reverse(Divide(|low|, low, c, Low(d, |low|)))
    ensures Strays(ReflectedRound(|low|, Image(low, w), c, d), |low|)
         == Strays(Divide(|low|, Zeros(w), Xor(IdleByte(low), c), d), |low|)
  {
    var n := |low|;
    var index := Xor(Image(low, w)[..CHAR_BIT], c);
    assert Image(low, w)[..CHAR_BIT] == IdleByte(low);
    assert Xor(c, LeadingBits(low, CHAR_BIT)) == index;
    assert Low(Zeros(w), n) == Zeros(n);
    assert ReflectedRound(n, Image(low, w), c, d)
        == Xor(ShiftRight(Image(low, w), CHAR_BIT), ReflectLow(Divide(n, Zeros(w), index, d), n));
    assert Low(Divide(n, Zeros(w), index, d), n) == Divide(n, Zeros(n), index, Low(d, n)) by {
      StrayBitsIgnored(n, Zeros(w), index, d);
    }
    assert CHAR_BIT == 8;
    hide *;
    Absorb(low, c, Low(d, n));
    ShiftedImage(low, w, Divide(n, Zeros(w), index, d));
  }

  // ---------- below a byte of order: bit-serial ----------

  lemma FeedByteOfWidth(n: nat, r: Bits, bytes: seq<Byte>, k: nat, reflect: bool, d: Bits)
    requires 0 < n <= |r| == |d| && k < |bytes|
    ensures Divide(n, r, StreamBits(bytes[..k + 1], reflect), d)
         == Divide(n, Divide(n, r, StreamBits(bytes[..k], reflect), d), ReadOrder(bytes[k], CHAR_BIT, reflect), d)
  {
    hide *;
    StreamBitsSnoc(bytes, k, reflect);
    DivideConcat(n, r, StreamBits(bytes[..k], reflect), ReadOrder(bytes[k], CHAR_BIT, reflect), d);
  }

  method DirectSubByteUpdate(n: nat, remainder: Bits, bytes: seq<Byte>, d: Bits) returns (r: Bits)
    requires 0 < n < CHAR_BIT == |remainder| == |d|
    ensures r == Divide(n, remainder, StreamBits(bytes, false), d)
  {
    r := remainder;
    assert bytes[..|bytes|] == bytes;
    var p := 0;
    while p < |bytes|
      invariant 0 <= p <= |bytes| && |r| == |remainder|
      invariant r == Divide(n, remainder, StreamBits(bytes[..p], false), d)
    {
      assert CHAR_BIT == 8;
      hide *;
      FeedByteOfWidth(n, remainder, bytes, p, false, d);
      r := CrcModuloWordUpdate(n, r, bytes[p], d, CHAR_BIT, false);
      p := p + 1;
    }
  }

  method ReflectedSubByteUpdate(n: nat, remainder: Bits, bytes: seq<Byte>, d: Bits) returns (r: Bits)
    requires 0 < n < CHAR_BIT == |remainder| == |d|
    ensures r == ZeroExtend(Reverse(Divide(n, Reverse(remainder[..n]), StreamBits(bytes, true), d[..n])), CHAR_BIT)
  {
    var start := ReflectSubByte(remainder, n);
    r := start;
    assert bytes[..|bytes|] == bytes;
    var p := 0;
    while p < |bytes|
      invariant 0 <= p <= |bytes| && |r| == |start|
      invariant r == Divide(n, start, StreamBits(bytes[..p], true), d)
    {
      assert CHAR_BIT == 8;
      hide *;
      FeedByteOfWidth(n, start, bytes, p, true, d);
      r := CrcModuloWordUpdate(n, r, bytes[p], d, CHAR_BIT, true);
      p := p + 1;
    }
    assert start[..n] == Reverse(remainder[..n]);
    StrayBitsIgnored(n, start, StreamBits(bytes, true), d);
    r := ReflectSubByte(r, n);
  }
}
