/** When the register type is wider than the polynomial: which stray bits a reflected table run picks
    up, and when they reach the checksum.
 */
module StrayBits {
  import opened Registers
  import opened Reflection
  import opened Divider
  import opened Tables
  import opened Drivers

  /** The bits of x^0 in a field of `k` bits. */
  function LeadingOne(k: nat): (b: Bits)
    ensures |b| == k
  {
    if k == 0 then [] else [true] + Zeros(k - 1)
  }

  /** The bits of the divisor above the significant ones are exactly the usually omitted x^n: no such
      bit when the register has no room for it.
   */
  predicate CarriesLeadingTerm(n: nat, d: Bits)
    requires n <= |d|
  {
    Strays(d, n) == LeadingOne(|d| - n)
  }

  lemma {:induction false} LeadingTermClearsStrays(n: nat, r: Bits, bs: Bits, d: Bits)
    requires 0 < n <= |r| == |d|
    requires CarriesLeadingTerm(n, d) && Strays(r, n) == Zeros(|r| - n)
    ensures Strays(Divide(n, r, bs, d), n) == Zeros(|r| - n)
  {
    if bs != [] {
      var m, b := Divide(n, r, bs[..|bs| - 1], d), bs[|bs| - 1];
      LeadingTermClearsStrays(n, r, bs[..|bs| - 1], d);
      hide Divide;
      forall i | n <= i < |r| ensures !Step(n, m, b, d)[i] {
        assert d[i] == d[n..][i - n] && (i > n ==> !m[i - 1]) by {
          assert i > n ==> m[i - 1] == m[n..][i - 1 - n];
        }
      }
    }
  }

  lemma ImageRound(low: Bits, w: nat, c: Byte, d: Bits)
    requires CHAR_BIT <= |low| <= w == |d| && CarriesLeadingTerm(|low|, d)
    ensures ReflectedRound(|low|, Image(low, w), c, d) == Image(Divide(|low|, low, c, Low(d, |low|)), w)
  {
    assert Strays(Zeros(w), |low|) == Zeros(w - |low|);
    assert CHAR_BIT == 8;
    hide *;
    ReflectedRoundMeaning(low, w, c, d);
    LeadingTermClearsStrays(|low|, Zeros(w), Xor(IdleByte(low), c), d);
    ImageFromParts(Divide(|low|, low, c, Low(d, |low|)), ReflectedRound(|low|, Image(low, w), c, d));
  }

  lemma WholeByte(c: Byte)
    ensures ReadOrder(c, CHAR_BIT, true) == c
  {
  }

  /** A divisor that carries its leading term keeps the reflected register the image of the divided
      remainder, for every message.
   */
  lemma {:induction false} ReflectedRunMeaning(low: Bits, w: nat, bytes: seq<Byte>, d: Bits)
    requires CHAR_BIT <= |low| <= w == |d| && CarriesLeadingTerm(|low|, d)
    ensures ReflectedRun(|low|, Image(low, w), bytes, d)
         == Image(Divide(|low|, low, StreamBits(bytes, true), Low(d, |low|)), w)
  {
    hide ReflectedRound, Image, Step, ReadOrder, CarriesLeadingTerm, Low;
    if bytes != [] {
      var k := |bytes| - 1;
      ReflectedRunMeaning(low, w, bytes[..k], d);
      assert bytes[..k + 1] == bytes;
      assert ReflectedRun(|low|, Image(low, w), bytes, d)
          == ReflectedRound(|low|, ReflectedRun(|low|, Image(low, w), bytes[..k], d), bytes[k], d);
      assert CHAR_BIT == 8;
      hide *;
      FeedByte(low, bytes, k, true, Low(d, |low|));
      WholeByte(bytes[k]);
      ImageRound(Divide(|low|, low, StreamBits(bytes[..k], true), Low(d, |low|)), w, bytes[k], d);
    }
  }

  /** A byte equal to the low byte of the register selects the zero entry: the register only shifts. */
  lemma IdleRound(n: nat, r: Bits, d: Bits)
    requires CHAR_BIT <= n <= |r| == |d|
    ensures ReflectedRound(n, r, r[..CHAR_BIT], d) == ShiftRight(r, CHAR_BIT)
  {
    var w := |r|;
    assert Xor(r[..CHAR_BIT], r[..CHAR_BIT]) == Zeros(CHAR_BIT);
    assert ReflectLow(Zeros(w), n) == Zeros(w);
    assert Xor(ShiftRight(r, CHAR_BIT), Zeros(w)) == ShiftRight(r, CHAR_BIT);
    hide Divide, Xor, ShiftRight, ReflectLow, Zeros;
    DivideZeros(n, w, CHAR_BIT, d);
  }

  /** What an idle byte makes of a remainder. */
  function Idle(low: Bits, d: Bits): (l: Bits)
    requires CHAR_BIT <= |low| <= |d|
    ensures |l| == |low|
  {
    Divide(|low|, low, IdleByte(low), Low(d, |low|))
  }

  lemma ShiftedOut(low: Bits, w: nat)
    requires CHAR_BIT <= |low| <= w
    ensures Image(low, w)[..CHAR_BIT] == IdleByte(low)
    ensures Strays(ShiftRight(Image(low, w), CHAR_BIT), |low|) == Zeros(w - |low|)
  {
  }

  /** The image of a remainder only shifts too, and stays an image. */
  lemma IdleImage(low: Bits, w: nat, d: Bits)
    requires CHAR_BIT <= |low| <= w == |d|
    ensures ReflectedRound(|low|, Image(low, w), IdleByte(low), d) == ShiftRight(Image(low, w), CHAR_BIT)
    ensures ShiftRight(Image(low, w), CHAR_BIT) == Image(Idle(low, d), w)
  {
    assert CHAR_BIT == 8;
    assert Idle(low, d) == Divide(|low|, low, IdleByte(low), Low(d, |low|));
    hide *;
    ShiftedOut(low, w);
    IdleRound(|low|, Image(low, w), d);
    ReflectedRoundMeaning(low, w, IdleByte(low), d);
    ImageFromParts(Idle(low, d), ShiftRight(Image(low, w), CHAR_BIT));
  }

  lemma ReflectedRunPrepend(n: nat, r: Bits, c: Byte, m: seq<Byte>, d: Bits)
    requires CHAR_BIT <= n <= |r| == |d|
    ensures ReflectedRun(n, r, [c] + m, d) == ReflectedRun(n, ReflectedRound(n, r, c, d), m, d)
  {
    hide ReflectedRound;
    assert [c][..0] == [];
    ReflectedRunConcat(n, r, [c], m, d);
  }

  lemma OneByteStream(c: Byte)
    ensures StreamBits([c], true) == c
  {
    assert [c][..0] == [] && c[..CHAR_BIT] == c;
  }

  lemma DividePrepend(start: Bits, c: Byte, m: seq<Byte>, d: Bits)
    requires 0 < |start| == |d|
    ensures Divide(|start|, start, StreamBits([c] + m, true), d)
         == Divide(|start|, Divide(|start|, start, c, d), StreamBits(m, true), d)
  {
    hide *;
    OneByteStream(c);
    StreamBitsConcat([c], m, true);
    DivideConcat(|start|, start, c, StreamBits(m, true), d);
  }

  /** A stray bit above significant bits that still agree with the remainder `low`. */
  predicate Strayed(x: Bits, low: Bits, j: nat) {
    |low| <= j < |x| && Low(x, |low|) == Reverse(low) && x[j]
  }

  lemma ShiftedStray(x: Bits, low: Bits, j: nat)
    requires CHAR_BIT <= |low| && Strayed(x, low, j)
    ensures x[..CHAR_BIT] == IdleByte(low)
    ensures var x' := ShiftRight(x, CHAR_BIT);
            && x'[j - CHAR_BIT]
            && (j - CHAR_BIT < |low| ==> Low(x', |low|) != Low(ShiftRight(Image(low, |x|), CHAR_BIT), |low|))
  {
    assert x[..|low|][..CHAR_BIT] == x[..CHAR_BIT];
    assert ShiftRight(x, CHAR_BIT)[j - CHAR_BIT];
    if j - CHAR_BIT < |low| {
      var i := j - CHAR_BIT;
      assert Low(ShiftRight(x, CHAR_BIT), |low|)[i];
      assert !Low(ShiftRight(Image(low, |x|), CHAR_BIT), |low|)[i];
    }
  }

  /** One idle byte shifts the stray bit down: into the significant part, or towards it. */
  lemma StrayMoves(x: Bits, low: Bits, j: nat, d: Bits)
    requires CHAR_BIT <= |low| <= |x| == |d| && Strayed(x, low, j)
    ensures ReflectedRound(|low|, x, IdleByte(low), d) == ShiftRight(x, CHAR_BIT)
    ensures Low(ShiftRight(x, CHAR_BIT), |low|) == Reverse(Idle(low, d)) ==>
              0 < CHAR_BIT <= j && Strayed(ShiftRight(x, CHAR_BIT), Idle(low, d), j - CHAR_BIT)
  {
    ShiftedStray(x, low, j);
    hide Divide, ReflectedRound, Image, ShiftRight, Reverse, Low, Idle;
    IdleRound(|low|, x, d);
    IdleImage(low, |x|, d);
    ImageParts(Idle(low, d), |x|);
  }

  /** The message `m` leaves significant bits that differ from those of the register without stray
      bits, which has gone through the division.
   */
  predicate Reveals(x: Bits, low: Bits, m: seq<Byte>, d: Bits)
    requires CHAR_BIT <= |low| <= |x| == |d|
  {
    var divided := Divide(|low|, low, StreamBits(m, true), Low(d, |low|));
    && ReflectedRun(|low|, Image(low, |x|), m, d) == Image(divided, |x|)
    && Low(ReflectedRun(|low|, x, m, d), |low|) != Reverse(divided)
  }

  lemma RevealsNow(x: Bits, low: Bits, d: Bits)
    requires CHAR_BIT <= |low| <= |x| == |d|
    requires Low(x, |low|) != Reverse(low)
    ensures Reveals(x, low, [], d)
  {
    hide Low, Image, Reverse;
  }

  lemma RevealsLater(x: Bits, low: Bits, j: nat, m: seq<Byte>, d: Bits) returns (longer: seq<Byte>)
    requires CHAR_BIT <= |low| && |x| == |d| && Strayed(x, low, j)
    requires Reveals(ShiftRight(x, CHAR_BIT), Idle(low, d), m, d)
    ensures Reveals(x, low, longer, d) && longer == [IdleByte(low)] + m
  {
    longer := [IdleByte(low)] + m;
    var n, w := |low|, |x|;
    hide Divide, ReflectedRun, ReflectedRound, Image, ShiftRight, Reverse, StreamBits, Low, IdleByte;
    StrayMoves(x, low, j, d);
    IdleImage(low, w, d);
    ReflectedRunPrepend(n, x, IdleByte(low), m, d);
    ReflectedRunPrepend(n, Image(low, w), IdleByte(low), m, d);
    DividePrepend(low, IdleByte(low), m, Low(d, n));
  }

  /** A stray bit is always revealed by some message. */
  lemma {:induction false} StraysSurface(x: Bits, low: Bits, j: nat, d: Bits) returns (m: seq<Byte>)
    requires CHAR_BIT <= |low| <= |x| == |d| && Strayed(x, low, j)
    ensures Reveals(x, low, m, d)
    decreases j
  {
    hide *;
    StrayMoves(x, low, j, d);
    var x', low' := ShiftRight(x, CHAR_BIT), Idle(low, d);
    var later: seq<Byte>;
    if Low(x', |low|) != Reverse(low') {
      RevealsNow(x', low', d);
      later := [];
    } else {
      later := StraysSurface(x', low', j - CHAR_BIT, d);
    }
    m := RevealsLater(x, low, j, later, d);
  }
}
