/** The table-driven computer against the bit-wise one: agreement on every message, and resumption
    from the interim remainder at every cut, each under its exact condition.
 */
module Agreement {
  import opened Registers
  import opened Gf2
  import opened Reflection
  import opened Divider
  import opened Tables
  import opened Drivers
  import opened StrayBits
  import opened Computers

  /** What the table-driven computer reports as interim remainder after `bytes`, from register `rem`. */
  function OptimalRemainder(p: Parameters, rem: Bits, bytes: seq<Byte>): (r: Bits)
    requires p.Valid() && |rem| == p.Width()
    ensures |r| == p.order
  {
    if p.reflectIn && p.order >= CHAR_BIT
    then Significant(p, ReflectedRun(p.order, rem, bytes, p.poly))
    else ModelRemainder(p, Significant(p, rem), bytes)
  }

  /** The register of a computer started with the remainder `r`. */
  function Started(p: Parameters, r: Bits): (rem: Bits)
    requires p.Valid() && |r| == p.Width()
    ensures |rem| == p.Width()
  {
    PossiblyReflected(r, p.order, p.reflectIn)
  }

  function OptimalChecksum(p: Parameters, bytes: seq<Byte>): (c: Bits)
    requires p.Valid()
    ensures |c| == p.order
  {
    ModelOutput(p, OptimalRemainder(p, Started(p, p.init), bytes))
  }

  /** `boost::crc` */
  method Crc(p: Parameters, bytes: seq<Byte>) returns (c: Bits)
    requires p.Valid()
    ensures c == ZeroExtend(OptimalChecksum(p, bytes), p.Width())
  {
    var computer := new CrcOptimal(p, p.init);
    computer.ProcessBytes(bytes);
    c := computer.Checksum();
  }

  /** The same message through the bit-wise computer. */
  method BasicCrc(p: Parameters, bytes: seq<Byte>) returns (c: Bits)
    requires p.Valid()
    ensures c == ZeroExtend(ModelChecksum(p, bytes), p.Width())
  {
    var computer := new CrcBasic(p);
    computer.ProcessBytes(bytes);
    hide Divide, StreamBits;
    StrayBitsIgnored(p.order, p.init, StreamBits(bytes, p.reflectIn), p.poly);
    c := computer.Checksum();
  }

  /** A caller's check: a reflected table for a register wider than the polynomial needs a divisor
      that spells out its leading term and an initial remainder without further bits.
   */
  predicate StraysHarmless(p: Parameters)
    requires p.Valid()
  {
    p.reflectIn && p.order >= CHAR_BIT ==>
      CarriesLeadingTerm(p.order, p.poly) && Strays(p.init, p.order) == Zeros(p.Width() - p.order)
  }

  lemma FreshStart(p: Parameters, r: Bits)
    requires p.Valid() && |r| == p.Width()
    ensures Significant(p, Started(p, r)) == Low(r, p.order)
    ensures p.order > CHAR_BIT ==> Strays(Started(p, r), p.order) == Strays(r, p.order)
    ensures StraysHarmless(p.(init := r)) ==> StrayFree(p, Started(p, r))
  {
    ReverseTwice(Low(r, p.order));
    if p.reflectIn {
      assert Low(Started(p, r), p.order) == Reverse(Low(r, p.order));
      if p.order > CHAR_BIT {
        assert Strays(Started(p, r), p.order) == Strays(r, p.order);
      } else {
        assert Strays(Started(p, r), p.order) == Zeros(p.Width() - p.order);
      }
    }
  }

  lemma OptimalRemainderWhenStrayFree(p: Parameters, rem: Bits, bytes: seq<Byte>)
    requires p.Valid() && |rem| == p.Width() && StrayFree(p, rem)
    ensures OptimalRemainder(p, rem, bytes) == ModelRemainder(p, Significant(p, rem), bytes)
  {
    if p.reflectIn && p.order >= CHAR_BIT {
      TrackedRun(p, rem, bytes);
    }
  }

  // ---------- the failing family ----------

  lemma UnitStrays(n: nat, d: Bits)
    requires 0 < n <= |d|
    ensures Strays(Step(n, Zeros(|d|), true, d), n) == Xor(LeadingOne(|d| - n), Strays(d, n))
  {
    var unit := Step(n, Zeros(|d|), true, d);
    hide Step;
    forall i | n <= i < |d| ensures unit[i] == (d[i] != (i == n)) {
      StepBit(n, Zeros(|d|), true, d, i);
    }
  }

  /** After the input byte that reads 1, a divisor without exactly its leading term above the
      significant bits leaves a stray bit in the table entry.
   */
  lemma EntryStrays(n: nat, d: Bits)
    requires CHAR_BIT <= n <= |d| && !CarriesLeadingTerm(n, d)
    ensures Strays(Divide(n, Zeros(|d|), Zeros(CHAR_BIT - 1) + [true], d), n) != Zeros(|d| - n)
  {
    var w := |d|;
    var unit := Step(n, Zeros(w), true, d);
    UnitStrays(n, d);
    hide Step, Divide, Strays, LeadingOne;
    XorCancel(LeadingOne(w - n), Strays(d, n));
    DivideSnoc(n, Zeros(w), Zeros(CHAR_BIT - 1), true, d);
    DivideZeros(n, w, CHAR_BIT - 1, d);
  }

  /** A register with a stray bit above the remainder `low` is revealed by some message. */
  lemma StrayRegisterRevealed(x: Bits, low: Bits, d: Bits) returns (m: seq<Byte>)
    requires CHAR_BIT <= |low| <= |x| == |d|
    requires Low(x, |low|) == Reverse(low) && Strays(x, |low|) != Zeros(|x| - |low|)
    ensures Reveals(x, low, m, d)
  {
    NonzeroHasBit(Strays(x, |low|));
    var i :| 0 <= i < |x| - |low| && Strays(x, |low|)[i];
    m := StraysSurface(x, low, |low| + i, d);
  }

  lemma StrayIntroduced(low: Bits, w: nat, d: Bits) returns (c: Byte)
    requires CHAR_BIT <= |low| <= w == |d| && !CarriesLeadingTerm(|low|, d)
    ensures var x := ReflectedRound(|low|, Image(low, w), c, d);
            && Low(x, |low|) == Reverse(Divide(|low|, low, c, Low(d, |low|)))
            && Strays(x, |low|) != Zeros(w - |low|)
  {
    var v := Zeros(CHAR_BIT - 1) + [true];
    c := Xor(v, IdleByte(low));
    assert Xor(IdleByte(low), c) == v;
    hide *;
    ReflectedRoundMeaning(low, w, c, d);
    EntryStrays(|low|, d);
  }

  /** The part `a` leaves the right remainder but a register whose stray bits the part `b` reveals. */
  predicate BroughtOut(p: Parameters, a: seq<Byte>, b: seq<Byte>)
    requires p.Valid() && p.order >= CHAR_BIT
  {
    var x, low := ReflectedRun(p.order, Started(p, p.init), a, p.poly), ModelRemainder(p, Low(p.init, p.order), a);
    Low(x, p.order) == Reverse(low) && Reveals(x, low, b, p.poly)
  }

  lemma NoMessage(low: Bits, x: Bits, d: Bits)
    requires CHAR_BIT <= |low| <= |x| == |d|
    ensures ReflectedRun(|low|, x, [], d) == x
    ensures Divide(|low|, low, StreamBits([], true), Low(d, |low|)) == low
  {
  }

  lemma OneByte(low: Bits, x: Bits, c: Byte, d: Bits)
    requires CHAR_BIT <= |low| <= |x| == |d|
    ensures ReflectedRun(|low|, x, [c], d) == ReflectedRound(|low|, x, c, d)
    ensures Divide(|low|, low, StreamBits([c], true), Low(d, |low|)) == Divide(|low|, low, c, Low(d, |low|))
  {
    OneByteStream(c);
    hide Divide, ReflectedRound, StreamBits;
    assert [c][..0] == [];
  }

  /** Unless strays are harmless, some first part `a` leaves a register with a stray bit that some
      second part `b` brings into the remainder.
   */
  lemma StraysHarm(p: Parameters) returns (a: seq<Byte>, b: seq<Byte>)
    requires p.Valid() && !StraysHarmless(p)
    ensures p.reflectIn && p.order > CHAR_BIT && BroughtOut(p, a, b)
  {
    var n, w, d, low, x := p.order, p.Width(), p.poly, Low(p.init, p.order), Started(p, p.init);
    assert n == w ==> Strays(d, n) == LeadingOne(0) && Strays(p.init, n) == Zeros(0);
    FreshStart(p, p.init);
    ReverseTwice(Low(x, n));
    hide Divide, ReflectedRound, Low, Strays, Reverse, Reveals, CarriesLeadingTerm;
    if Strays(p.init, n) != Zeros(w - n) {
      NoMessage(low, x, d);
      a := [];
      b := StrayRegisterRevealed(x, low, d);
    } else {
      ImageFromParts(low, x);
      var c := StrayIntroduced(low, w, d);
      OneByte(low, x, c, d);
      b := StrayRegisterRevealed(ReflectedRound(n, x, c, d), Divide(n, low, c, Low(d, n)), d);
      a := [c];
    }
  }

  /** The model's remainder of a message in two parts. */
  lemma ModelRemainderConcat(p: Parameters, start: Bits, a: seq<Byte>, b: seq<Byte>)
    requires p.Valid() && |start| == p.order
    ensures ModelRemainder(p, start, a + b) == ModelRemainder(p, ModelRemainder(p, start, a), b)
  {
    hide Divide, StreamBits;
    StreamBitsConcat(a, b, p.reflectIn);
    DivideConcat(p.order, start, StreamBits(a, p.reflectIn), StreamBits(b, p.reflectIn), Low(p.poly, p.order));
  }

  /** The bit-wise computer resumes at every cut, whatever its register holds: a computer started from
      the interim remainder after `a` ends with the same significant bits.
   */
  lemma BasicResumes(p: Parameters, rem: Bits, a: seq<Byte>, b: seq<Byte>)
    requires p.Valid() && |rem| == p.Width()
    ensures var interim := ZeroExtend(Low(Divide(p.order, rem, StreamBits(a, p.reflectIn), p.poly), p.order), p.Width());
            Low(Divide(p.order, rem, StreamBits(a + b, p.reflectIn), p.poly), p.order)
            == Low(Divide(p.order, interim, StreamBits(b, p.reflectIn), p.poly), p.order)
  {
    var n, w, d, head, bs := p.order, p.Width(), p.poly, StreamBits(a, p.reflectIn), StreamBits(b, p.reflectIn);
    var after := Divide(n, rem, head, d);
    var interim := ZeroExtend(Low(after, n), w);
    assert interim[..n] == after[..n];
    hide Divide, StreamBits, ZeroExtend;
    StreamBitsConcat(a, b, p.reflectIn);
    DivideConcat(n, rem, head, bs, d);
    StrayBitsIgnored(n, after, bs, d);
    StrayBitsIgnored(n, interim, bs, d);
  }

  // ---------- main results ----------

  lemma Disagreement(p: Parameters, a: seq<Byte>, b: seq<Byte>)
    requires p.Valid() && p.reflectIn && p.order > CHAR_BIT && BroughtOut(p, a, b)
    ensures OptimalChecksum(p, a + b) != ModelChecksum(p, a + b)
  {
    var n, d, low, x := p.order, p.poly, Low(p.init, p.order), Started(p, p.init);
    ReflectedRunConcat(n, x, a, b, d);
    ModelRemainderConcat(p, low, a, b);
    hide Divide, ReflectedRun, Low, Started, ModelOutput, StreamBits;
    var run, divided := ReflectedRun(n, x, a + b, d), ModelRemainder(p, low, a + b);
    ReverseTwice(Low(run, n));
    assert Significant(p, run) != divided;
    if OptimalChecksum(p, a + b) == ModelChecksum(p, a + b) {
      OutputIsInjective(p, Significant(p, run), divided);
    }
  }

  lemma HarmlessAgrees(p: Parameters, bytes: seq<Byte>)
    requires p.Valid() && StraysHarmless(p)
    ensures OptimalChecksum(p, bytes) == ModelChecksum(p, bytes)
  {
    FreshStart(p, p.init);
    hide Started, Significant, ModelRemainder, OptimalRemainder, StrayFree, StraysHarmless, ModelOutput;
    assert p.(init := p.init) == p;
    OptimalRemainderWhenStrayFree(p, Started(p, p.init), bytes);
  }

  /** The table-driven and the bit-wise computer report the same checksum for every message if and
      only if strays are harmless.
   */
  lemma OptimalAgreesWithBasic(p: Parameters)
    requires p.Valid()
    ensures (forall bytes: seq<Byte> :: OptimalChecksum(p, bytes) == ModelChecksum(p, bytes)) <==> StraysHarmless(p)
  {
    if StraysHarmless(p) {
      forall bytes: seq<Byte> ensures OptimalChecksum(p, bytes) == ModelChecksum(p, bytes) {
        HarmlessAgrees(p, bytes);
      }
    } else {
      var a, b := StraysHarm(p);
      Disagreement(p, a, b);
      assert OptimalChecksum(p, a + b) != ModelChecksum(p, a + b);
    }
  }

  /** A fresh computer started from the interim remainder after `a` continues with `b` as the first
      one would have.
   */
  predicate Resumes(p: Parameters, a: seq<Byte>, b: seq<Byte>)
    requires p.Valid()
  {
    var interim := OptimalRemainder(p, Started(p, p.init), a);
    OptimalRemainder(p, Started(p, p.init), a + b) == OptimalRemainder(p, Started(p, ZeroExtend(interim, p.Width())), b)
  }

  lemma RestartedLow(p: Parameters, low: Bits)
    requires p.Valid() && |low| == p.order
    ensures Low(ZeroExtend(low, p.Width()), p.order) == low
    ensures Strays(ZeroExtend(low, p.Width()), p.order) == Zeros(p.Width() - p.order)
  {
  }

  lemma Resumed(p: Parameters, a: seq<Byte>, b: seq<Byte>)
    requires p.Valid() && StraysHarmless(p)
    ensures Resumes(p, a, b)
  {
    assert p.(init := p.init) == p;
    FreshStart(p, p.init);
    var low := Low(p.init, p.order);
    var interim := ModelRemainder(p, low, a);
    var again := ZeroExtend(interim, p.Width());
    RestartedLow(p, interim);
    FreshStart(p, again);
    hide Divide, ReflectedRun, Low, Strays, Started, OptimalRemainder, Significant, ModelRemainder, StrayFree, ZeroExtend;
    OptimalRemainderWhenStrayFree(p, Started(p, p.init), a);
    OptimalRemainderWhenStrayFree(p, Started(p, p.init), a + b);
    OptimalRemainderWhenStrayFree(p, Started(p, again), b);
    ModelRemainderConcat(p, low, a, b);
  }

  lemma Interrupted(p: Parameters, a: seq<Byte>, b: seq<Byte>)
    requires p.Valid() && p.reflectIn && p.order > CHAR_BIT && BroughtOut(p, a, b)
    ensures !Resumes(p, a, b)
  {
    var n, d, w, start := p.order, p.poly, p.Width(), Started(p, p.init);
    var x, low := ReflectedRun(n, start, a, d), ModelRemainder(p, Low(p.init, n), a);
    var again := Started(p, ZeroExtend(low, w));
    ReverseTwice(low);
    FreshStart(p, ZeroExtend(low, w));
    RestartedLow(p, low);
    ReverseTwice(Low(again, n));
    ImageFromParts(low, again);
    ReflectedRunConcat(n, start, a, b, d);
    var divided := ModelRemainder(p, low, b);
    ImageParts(divided, w);
    ReverseTwice(Low(ReflectedRun(n, x, b, d), n));
    hide Divide, ReflectedRun, Low, Strays, Image, Started, Reverse, ZeroExtend, StreamBits;
    assert OptimalRemainder(p, start, a) == low;
    assert OptimalRemainder(p, again, b) == divided;
  }

  /** Resumption works at every cut of every message if and only if strays are harmless. */
  lemma ResumptionIsSeamless(p: Parameters)
    requires p.Valid()
    ensures (forall a: seq<Byte>, b: seq<Byte> :: Resumes(p, a, b)) <==> StraysHarmless(p)
  {
    if StraysHarmless(p) {
      forall a: seq<Byte>, b: seq<Byte> ensures Resumes(p, a, b) {
        Resumed(p, a, b);
      }
    } else {
      var a, b := StraysHarm(p);
      Interrupted(p, a, b);
    }
  }

  /** With harmless strays, what the table-driven computer reports as interim remainder is the
      remainder of polynomial division of the message, and nothing else is.
   */
  lemma OptimalDividesPolynomials(p: Parameters, bytes: seq<Byte>, r: Bits)
    requires p.Valid() && StraysHarmless(p)
    ensures IsRemainder(Dividend(Low(p.init, p.order), StreamBits(bytes, p.reflectIn)), Divisor(Low(p.poly, p.order)), r)
            <==> r == OptimalRemainder(p, Started(p, p.init), bytes)
  {
    assert p.(init := p.init) == p;
    FreshStart(p, p.init);
    var start, d, bs := Low(p.init, p.order), Low(p.poly, p.order), StreamBits(bytes, p.reflectIn);
    assert start[..p.order] == start && d[..p.order] == d;
    var s := Divide(p.order, start, bs, d);
    assert s[..p.order] == s;
    assert s == ModelRemainder(p, start, bytes);
    hide *;
    OptimalRemainderWhenStrayFree(p, Started(p, p.init), bytes);
    DivideIsRemainder(p.order, start, bs, d, r);
  }

  /** What a checksum is.  Let `r` be the remainder of the message's polynomial, started from the initial
      remainder: then bit `i` of the checksum is bit `i` of `r`, counted from the other end if the output
      is reflected, against bit `i` of the mask.
   */
  lemma ModelChecksumIsRemainder(p: Parameters, bytes: seq<Byte>, r: Bits)
    requires p.Valid()
    requires IsRemainder(Dividend(p.init[..p.order], StreamBits(bytes, p.reflectIn)), p.poly[..p.order] + [true], r)
    ensures |r| == p.order
    ensures forall i :: 0 <= i < p.order ==>
      ModelChecksum(p, bytes)[i] == (r[if p.reflectRem then p.order - 1 - i else i] != p.finalXor[i])
  {
    var start, d, bs := Low(p.init, p.order), Low(p.poly, p.order), StreamBits(bytes, p.reflectIn);
    assert start[..p.order] == start && d[..p.order] == d;
    var s := Divide(p.order, start, bs, d);
    assert s[..p.order] == s;
    assert r == s by {
      DivideIsRemainder(p.order, start, bs, d, r);
    }
    forall i | 0 <= i < p.order
      ensures ModelChecksum(p, bytes)[i] == (r[if p.reflectRem then p.order - 1 - i else i] != p.finalXor[i])
    {
      OutputBits(p, r, i);
    }
  }

  /** The same of the table-driven checksum, and so of `boost::crc`, when strays are harmless. */
  lemma OptimalChecksumIsRemainder(p: Parameters, bytes: seq<Byte>, r: Bits)
    requires p.Valid() && StraysHarmless(p)
    requires IsRemainder(Dividend(p.init[..p.order], StreamBits(bytes, p.reflectIn)), p.poly[..p.order] + [true], r)
    ensures |r| == p.order
    ensures forall i :: 0 <= i < p.order ==>
      OptimalChecksum(p, bytes)[i] == (r[if p.reflectRem then p.order - 1 - i else i] != p.finalXor[i])
  {
    ModelChecksumIsRemainder(p, bytes, r);
    hide ModelChecksum, OptimalChecksum, IsRemainder, StraysHarmless;
    HarmlessAgrees(p, bytes);
  }
}
