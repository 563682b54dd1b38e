/** The bit-serial dividers and what they compute.

    `Divide` and `AugDivide` describe the register of W bits exactly as the loops leave it,
    including the bits at positions `n` and above that the loops never mask.  The low `n` bits are
    then shown to be remainders of polynomial division.
 */
module Divider {
  import opened Registers
  import opened Gf2
  import opened Reflection

  /** The bits of a word in the order in which the division reads them. */
  function ReadOrder(word: Bits, length: nat, reflect: bool): (bs: Bits)
    requires length <= |word|
    ensures |bs| == length
  {
    if reflect then word[..length] else Reverse(word[..length])
  }

  /** The low `length` bits, read from the low end if reflected and from the high end otherwise. */
  lemma ReadOrderAt(word: Bits, length: nat, reflect: bool, i: nat)
    requires i < length <= |word|
    ensures ReadOrder(word, length, reflect)[i] == word[if reflect then i else length - 1 - i]
  {
  }

  /** One division step: the new bit is compared with the top significant bit, then that bit moves
      out of the significant part and, if it is set, the divisor is subtracted.
   */
  function Step(n: nat, r: Bits, b: bool, d: Bits): (s: Bits)
    requires 0 < n <= |r| == |d|
    ensures |s| == |r|
  {
    var compared := r[n - 1 := r[n - 1] != b];
    Xor(ShiftLeft(compared, 1), Select(compared[n - 1], d))
  }

  /** The register after the bits `bs` have been fed, first bit first. */
  function Divide(n: nat, r: Bits, bs: Bits, d: Bits): (s: Bits)
    requires 0 < n <= |r| == |d|
    ensures |s| == |r|
  {
    if bs == [] then r else Step(n, Divide(n, r, bs[..|bs| - 1], d), bs[|bs| - 1], d)
  }

  /** One division step of an augmented message: the new bit enters at the bottom. */
  function AugStep(n: nat, r: Bits, b: bool, d: Bits): (s: Bits)
    requires 0 < n <= |r| == |d|
    ensures |s| == |r|
  {
    Xor(ShiftLeft(r, 1)[0 := b], Select(r[n - 1], d))
  }

  function AugDivide(n: nat, r: Bits, bs: Bits, d: Bits): (s: Bits)
    requires 0 < n <= |r| == |d|
    ensures |s| == |r|
  {
    if bs == [] then r else AugStep(n, AugDivide(n, r, bs[..|bs| - 1], d), bs[|bs| - 1], d)
  }

  lemma DivideSnoc(n: nat, r: Bits, bs: Bits, b: bool, d: Bits)
    requires 0 < n <= |r| == |d|
    ensures Divide(n, r, bs + [b], d) == Step(n, Divide(n, r, bs, d), b, d)
  {
    hide Step;
    assert (bs + [b])[..|bs|] == bs;
  }

  lemma AugDivideSnoc(n: nat, r: Bits, bs: Bits, b: bool, d: Bits)
    requires 0 < n <= |r| == |d|
    ensures AugDivide(n, r, bs + [b], d) == AugStep(n, AugDivide(n, r, bs, d), b, d)
  {
    hide AugStep;
    assert (bs + [b])[..|bs|] == bs;
  }

  lemma UnreadWord(word: Bits, length: nat, reflect: bool)
    requires length <= |word|
    ensures var bs := ReadOrder(word, length, reflect);
            (if !reflect then ReflectLow(word, length) else word)[..length] == bs == bs[..|bs|]
  {
  }

  /** What reading the low bit and shifting does to the unread part of a word. */
  lemma NextBit(word: Bits, bs: Bits, i: nat)
    requires 0 < i <= |bs| <= |word| && word[..i] == bs[|bs| - i..]
    ensures bs[..|bs| - (i - 1)] == bs[..|bs| - i] + [word[0]]
    ensures ShiftRight(word, 1)[..i - 1] == bs[|bs| - (i - 1)..]
  {
    assert word[0] == word[..i][0];
    assert bs[|bs| - i..][1..] == word[..i][1..] == ShiftRight(word, 1)[..i - 1];
  }

  /** With `i` of the bits `bs` still unread in `word`, `r` is the register after the others. */
  predicate Midway(n: nat, start: Bits, bs: Bits, d: Bits, i: nat, word: Bits, r: Bits)
    requires 0 < n <= |start| == |d|
  {
    && i <= |bs| <= |word|
    && word[..i] == bs[|bs| - i..]
    && r == Divide(n, start, bs[..|bs| - i], d)
  }

  lemma MidwayEnds(n: nat, start: Bits, word: Bits, length: nat, reflect: bool, d: Bits)
    requires 0 < n <= |start| == |d| && length <= |word|
    ensures var bs := ReadOrder(word, length, reflect);
            Midway(n, start, bs, d, length, if !reflect then ReflectLow(word, length) else word, start)
    ensures forall w, r :: Midway(n, start, ReadOrder(word, length, reflect), d, 0, w, r) ==>
              r == Divide(n, start, ReadOrder(word, length, reflect), d)
  {
    UnreadWord(word, length, reflect);
    hide ReadOrder, ReflectLow;
  }

  lemma MidwayNext(n: nat, start: Bits, bs: Bits, d: Bits, i: nat, word: Bits, r: Bits)
    requires 0 < n <= |start| == |d| == |r| && 0 < i <= |bs|
    requires Midway(n, start, bs, d, i, word, r)
    ensures var compared := if word[0] then r[n - 1 := !r[n - 1]] else r;
            Midway(n, start, bs, d, i - 1, ShiftRight(word, 1),
                   Xor(ShiftLeft(compared, 1), Select(compared[n - 1], d)))
  {
    assert (if word[0] then r[n - 1 := !r[n - 1]] else r) == r[n - 1 := r[n - 1] != word[0]];
    hide Divide, Xor, ShiftLeft, ShiftRight, Select;
    NextBit(word, bs, i);
    DivideSnoc(n, start, bs[..|bs| - i], word[0], d);
  }

  method CrcModuloWordUpdate(n: nat, remainder: Bits, newDividendBits: Bits, truncatedDivisor: Bits,
                             wordLength: nat, reflect: bool) returns (r: Bits)
    requires 0 < n <= |remainder| == |truncatedDivisor|
    requires 0 < wordLength <= |newDividendBits|
    ensures r == Divide(n, remainder, ReadOrder(newDividendBits, wordLength, reflect), truncatedDivisor)
  {
    var word := ReflectOptionally(newDividendBits, !reflect, wordLength);
    ghost var bs := ReadOrder(newDividendBits, wordLength, reflect);
    hide *;
    MidwayEnds(n, remainder, newDividendBits, wordLength, reflect, truncatedDivisor);
    r := remainder;
    var i := wordLength;
    while i != 0
      invariant 0 <= i <= |bs| <= |word| && |r| == |remainder|
      invariant Midway(n, remainder, bs, truncatedDivisor, i, word, r)
    {
      MidwayNext(n, remainder, bs, truncatedDivisor, i, word, r);
      if word[0] {
        r := r[n - 1 := !r[n - 1]];
      }
      var quotient := r[n - 1];
      r := ShiftLeft(r, 1);
      r := Xor(r, Select(quotient, truncatedDivisor));
      i, word := i - 1, ShiftRight(word, 1);
    }
  }

  /** With `i` of the bits `bs` still unread in `word`, `r` is the register after the others. */
  predicate AugMidway(n: nat, start: Bits, bs: Bits, d: Bits, i: nat, word: Bits, r: Bits)
    requires 0 < n <= |start| == |d|
  {
    && i <= |bs| <= |word|
    && word[..i] == bs[|bs| - i..]
    && r == AugDivide(n, start, bs[..|bs| - i], d)
  }

  lemma AugMidwayEnds(n: nat, start: Bits, word: Bits, length: nat, reflect: bool, d: Bits)
    requires 0 < n <= |start| == |d| && length <= |word|
    ensures var bs := ReadOrder(word, length, reflect);
            AugMidway(n, start, bs, d, length, if !reflect then ReflectLow(word, length) else word, start)
    ensures forall w, r :: AugMidway(n, start, ReadOrder(word, length, reflect), d, 0, w, r) ==>
              r == AugDivide(n, start, ReadOrder(word, length, reflect), d)
  {
    UnreadWord(word, length, reflect);
    hide ReadOrder, ReflectLow;
  }

  lemma AugMidwayNext(n: nat, start: Bits, bs: Bits, d: Bits, i: nat, word: Bits, r: Bits)
    requires 0 < n <= |start| == |d| == |r| && 0 < i <= |bs|
    requires AugMidway(n, start, bs, d, i, word, r)
    ensures var shifted := ShiftLeft(r, 1);
            AugMidway(n, start, bs, d, i - 1, ShiftRight(word, 1),
                      Xor(shifted[0 := shifted[0] || word[0]], Select(r[n - 1], d)))
  {
    assert ShiftLeft(r, 1)[0] == false;
    hide AugDivide, Xor, ShiftLeft, ShiftRight, Select;
    NextBit(word, bs, i);
    AugDivideSnoc(n, start, bs[..|bs| - i], word[0], d);
  }

  method AugmentedCrcModuloWordUpdate(n: nat, remainder: Bits, newDividendBits: Bits,
                                      truncatedDivisor: Bits, wordLength: nat, reflect: bool)
    returns (r: Bits)
    requires 0 < n <= |remainder| == |truncatedDivisor|
    requires 0 < wordLength <= |newDividendBits|
    ensures r == AugDivide(n, remainder, ReadOrder(newDividendBits, wordLength, reflect), truncatedDivisor)
  {
    var word := ReflectOptionally(newDividendBits, !reflect, wordLength);
    ghost var bs := ReadOrder(newDividendBits, wordLength, reflect);
    hide *;
    AugMidwayEnds(n, remainder, newDividendBits, wordLength, reflect, truncatedDivisor);
    r := remainder;
    var i := wordLength;
    while i != 0
      invariant 0 <= i <= |bs| <= |word| && |r| == |remainder|
      invariant AugMidway(n, remainder, bs, truncatedDivisor, i, word, r)
    {
      AugMidwayNext(n, remainder, bs, truncatedDivisor, i, word, r);
      var quotient := r[n - 1];
      r := ShiftLeft(r, 1);
      r := r[0 := r[0] || word[0]];
      r := Xor(r, Select(quotient, truncatedDivisor));
      i, word := i - 1, ShiftRight(word, 1);
    }
  }

  // ---------- feeding in pieces ----------

  lemma {:induction false} DivideConcat(n: nat, r: Bits, a: Bits, b: Bits, d: Bits)
    requires 0 < n <= |r| == |d|
    ensures Divide(n, r, a + b, d) == Divide(n, Divide(n, r, a, d), b, d)
  {
    if b == [] {
      assert a + b == a;
    } else {
      var b' := b[..|b| - 1];
      assert (a + b)[..|a + b| - 1] == a + b';
      DivideConcat(n, r, a, b', d);
    }
  }

  lemma {:induction false} AugDivideConcat(n: nat, r: Bits, a: Bits, b: Bits, d: Bits)
    requires 0 < n <= |r| == |d|
    ensures AugDivide(n, r, a + b, d) == AugDivide(n, AugDivide(n, r, a, d), b, d)
  {
    if b == [] {
      assert a + b == a;
    } else {
      var b' := b[..|b| - 1];
      assert (a + b)[..|a + b| - 1] == a + b';
      AugDivideConcat(n, r, a, b', d);
    }
  }

  // ---------- the unmasked bits never matter ----------

  lemma StepStrayBitsIgnored(n: nat, r: Bits, b: bool, d: Bits)
    requires 0 < n <= |r| == |d|
    ensures Step(n, r, b, d)[..n] == Step(n, r[..n], b, d[..n])
    ensures AugStep(n, r, b, d)[..n] == AugStep(n, r[..n], b, d[..n])
  {
  }

  lemma {:induction false} StrayBitsIgnored(n: nat, r: Bits, bs: Bits, d: Bits)
    requires 0 < n <= |r| == |d|
    ensures Divide(n, r, bs, d)[..n] == Divide(n, r[..n], bs, d[..n])
  {
    hide Step;
    if bs != [] {
      StrayBitsIgnored(n, r, bs[..|bs| - 1], d);
      StepStrayBitsIgnored(n, Divide(n, r, bs[..|bs| - 1], d), bs[|bs| - 1], d);
    }
  }

  lemma {:induction false} AugStrayBitsIgnored(n: nat, r: Bits, bs: Bits, d: Bits)
    requires 0 < n <= |r| == |d|
    ensures AugDivide(n, r, bs, d)[..n] == AugDivide(n, r[..n], bs, d[..n])
  {
    hide AugStep;
    if bs != [] {
      AugStrayBitsIgnored(n, r, bs[..|bs| - 1], d);
      StepStrayBitsIgnored(n, AugDivide(n, r, bs[..|bs| - 1], d), bs[|bs| - 1], d);
    }
  }

  // ---------- linearity ----------

  lemma StepXor(n: nat, r1: Bits, r2: Bits, b1: bool, b2: bool, d: Bits)
    requires 0 < n <= |r1| == |r2| == |d|
    ensures Step(n, Xor(r1, r2), b1 != b2, d) == Xor(Step(n, r1, b1, d), Step(n, r2, b2, d))
  {
  }

  lemma {:induction false} DivideXor(n: nat, r1: Bits, r2: Bits, a1: Bits, a2: Bits, d: Bits)
    requires 0 < n <= |r1| == |r2| == |d| && |a1| == |a2|
    ensures Divide(n, Xor(r1, r2), Xor(a1, a2), d) == Xor(Divide(n, r1, a1, d), Divide(n, r2, a2, d))
  {
    var k := |a1|;
    hide Step;
    if k != 0 {
      DivideXor(n, r1, r2, a1[..k - 1], a2[..k - 1], d);
      assert Xor(a1, a2)[..k - 1] == Xor(a1[..k - 1], a2[..k - 1]);
      StepXor(n, Divide(n, r1, a1[..k - 1], d), Divide(n, r2, a2[..k - 1], d), a1[k - 1], a2[k - 1], d);
    }
  }

  // ---------- polynomial division ----------

  /** r(x) * x^k + b(x) * x^n, where k is the number of fed bits and b their polynomial. */
  function Dividend(r: Bits, bs: Bits): (p: Bits)
    ensures |p| == |r| + |bs|
    ensures forall i :: 0 <= i < |p| ==>
      p[i] == ((|bs| <= i && r[i - |bs|]) != (|r| <= i && bs[|p| - 1 - i]))
  {
    Xor(Zeros(|bs|) + r, Zeros(|r|) + Reverse(bs))
  }

  /** r(x) * x^k + b(x) */
  function AugDividend(r: Bits, bs: Bits): (p: Bits)
    ensures |p| == |r| + |bs|
    ensures forall i :: 0 <= i < |p| ==> p[i] == if i < |bs| then bs[|bs| - 1 - i] else r[i - |bs|]
  {
    Reverse(bs) + r
  }

  /** x^n + d(x) */
  function Divisor(d: Bits): (p: Bits)
    ensures Monic(p) && |p| == |d| + 1
  {
    d + [true]
  }

  /** One step of the loop is one step of long division: m x + b x^n = t P + Step(m, b). */
  lemma StepIsDivision(m: Bits, b: bool, d: Bits)
    requires 0 < |m| == |d|
    ensures Xor([false] + m, Zeros(|m|) + [b])
         == Xor(Select(m[|m| - 1] != b, Divisor(d)), Step(|m|, m, b, d) + [false])
  {
  }

  lemma AugStepIsDivision(m: Bits, b: bool, d: Bits)
    requires 0 < |m| == |d|
    ensures Xor([false] + m, [b] + Zeros(|m|))
         == Xor(Select(m[|m| - 1], Divisor(d)), AugStep(|m|, m, b, d) + [false])
  {
  }

  /** Appends one step to a division: the new quotient bit goes below the others. */
  lemma ExtendDivision(older: Bits, p: Bits, q: Bits, m: Bits, t: bool, entering: Bits, s: Bits)
    requires Monic(p) && DividesTo(older, p, q, m) && |entering| == |p| && |s| == |m|
    requires Xor([false] + m, entering) == Xor(Select(t, p), s + [false])
    ensures DividesTo(Xor([false] + older, entering + Zeros(|q|)), p, [t] + q, s)
  {
    var k := |q|;
    var newer := Xor([false] + older, entering + Zeros(k));
    assert ([t] + q)[1..] == q;
    var product := Mul([t] + q, p);
    hide Mul;
    assert product == Xor(Select(t, p) + Zeros(k), [false] + Mul(q, p));
    forall i | 0 <= i < |newer| ensures newer[i] == (product[i] != (s + Zeros(k + 1))[i]) {
      assert i > 0 ==> older[i - 1] == (Mul(q, p)[i - 1] != (m + Zeros(k))[i - 1]);
      if i < |p| {
        assert Xor([false] + m, entering)[i] == Xor(Select(t, p), s + [false])[i];
      }
    }
  }

  lemma DividendSnoc(r: Bits, pre: Bits, b: bool)
    ensures Dividend(r, pre + [b])
         == Xor([false] + Dividend(r, pre), Zeros(|r|) + [b] + Zeros(|pre|))
  {
    hide Dividend;
  }

  lemma AugDividendSnoc(r: Bits, pre: Bits, b: bool)
    ensures AugDividend(r, pre + [b])
         == Xor([false] + AugDividend(r, pre), [b] + Zeros(|r|) + Zeros(|pre|))
  {
  }

  lemma DivideNothing(r: Bits, d: Bits)
    requires 0 < |r| == |d|
    ensures DividesTo(Dividend(r, []), Divisor(d), [], Divide(|r|, r, [], d))
    ensures DividesTo(AugDividend(r, []), Divisor(d), [], AugDivide(|r|, r, [], d))
  {
  }

  /** The quotient bits of a run: what the divisor was selected by, step by step. */
  function QuotientBits(n: nat, r: Bits, bs: Bits, d: Bits): (q: Bits)
    requires 0 < n <= |r| == |d|
    ensures |q| == |bs|
  {
    if bs == [] then []
    else
      var pre, b := bs[..|bs| - 1], bs[|bs| - 1];
      [Divide(n, r, pre, d)[n - 1] != b] + QuotientBits(n, r, pre, d)
  }

  function AugQuotientBits(n: nat, r: Bits, bs: Bits, d: Bits): (q: Bits)
    requires 0 < n <= |r| == |d|
    ensures |q| == |bs|
  {
    if bs == [] then []
    else
      var pre := bs[..|bs| - 1];
      [AugDivide(n, r, pre, d)[n - 1]] + AugQuotientBits(n, r, pre, d)
  }

  lemma QuotientSnoc(n: nat, r: Bits, pre: Bits, b: bool, d: Bits)
    requires 0 < n <= |r| == |d|
    ensures QuotientBits(n, r, pre + [b], d) == [Divide(n, r, pre, d)[n - 1] != b] + QuotientBits(n, r, pre, d)
    ensures AugQuotientBits(n, r, pre + [b], d) == [AugDivide(n, r, pre, d)[n - 1]] + AugQuotientBits(n, r, pre, d)
  {
    hide Divide, AugDivide;
    assert (pre + [b])[..|pre|] == pre;
  }

  lemma {:induction false} DivideQuotient(r: Bits, bs: Bits, d: Bits)
    requires 0 < |r| == |d|
    ensures DividesTo(Dividend(r, bs), Divisor(d), QuotientBits(|r|, r, bs, d), Divide(|r|, r, bs, d))
  {
    var n, p := |r|, Divisor(d);
    if bs == [] {
      DivideNothing(r, d);
    } else {
      var pre, b := bs[..|bs| - 1], bs[|bs| - 1];
      assert bs == pre + [b];
      hide *;
      DivideQuotient(r, pre, d);
      QuotientSnoc(n, r, pre, b, d);
      var q, m := QuotientBits(n, r, pre, d), Divide(n, r, pre, d);
      DivideSnoc(n, r, pre, b, d);
      StepIsDivision(m, b, d);
      DividendSnoc(r, pre, b);
      ExtendDivision(Dividend(r, pre), p, q, m, m[n - 1] != b, Zeros(n) + [b], Step(n, m, b, d));
    }
  }

  lemma {:induction false} AugDivideQuotient(r: Bits, bs: Bits, d: Bits)
    requires 0 < |r| == |d|
    ensures DividesTo(AugDividend(r, bs), Divisor(d), AugQuotientBits(|r|, r, bs, d), AugDivide(|r|, r, bs, d))
  {
    var n, p := |r|, Divisor(d);
    if bs == [] {
      DivideNothing(r, d);
    } else {
      var pre, b := bs[..|bs| - 1], bs[|bs| - 1];
      assert bs == pre + [b];
      hide *;
      AugDivideQuotient(r, pre, d);
      QuotientSnoc(n, r, pre, b, d);
      var q, m := AugQuotientBits(n, r, pre, d), AugDivide(n, r, pre, d);
      AugDivideSnoc(n, r, pre, b, d);
      AugStepIsDivision(m, b, d);
      AugDividendSnoc(r, pre, b);
      ExtendDivision(AugDividend(r, pre), p, q, m, m[n - 1], [b] + Zeros(n), AugStep(n, m, b, d));
    }
  }

  /** The low `n` bits of the register are the remainder of r(x) x^k + b(x) x^n modulo x^n + d(x),
      and nothing else is: for every register width, divisor, start and input.
   */
  lemma DivideIsRemainder(n: nat, r: Bits, bs: Bits, d: Bits, s: Bits)
    requires 0 < n <= |r| == |d|
    ensures IsRemainder(Dividend(r[..n], bs), Divisor(d[..n]), s) <==> s == Divide(n, r, bs, d)[..n]
  {
    StrayBitsIgnored(n, r, bs, d);
    DivideQuotient(r[..n], bs, d[..n]);
    var exact := Divide(n, r[..n], bs, d[..n]);
    assert IsRemainder(Dividend(r[..n], bs), Divisor(d[..n]), exact);
    if IsRemainder(Dividend(r[..n], bs), Divisor(d[..n]), s) {
      RemainderUnique(Dividend(r[..n], bs), Divisor(d[..n]), s, exact);
    }
  }

  lemma AugDivideIsRemainder(n: nat, r: Bits, bs: Bits, d: Bits, s: Bits)
    requires 0 < n <= |r| == |d|
    ensures IsRemainder(AugDividend(r[..n], bs), Divisor(d[..n]), s) <==> s == AugDivide(n, r, bs, d)[..n]
  {
    AugStrayBitsIgnored(n, r, bs, d);
    AugDivideQuotient(r[..n], bs, d[..n]);
    var exact := AugDivide(n, r[..n], bs, d[..n]);
    assert IsRemainder(AugDividend(r[..n], bs), Divisor(d[..n]), exact);
    if IsRemainder(AugDividend(r[..n], bs), Divisor(d[..n]), s) {
      RemainderUnique(AugDividend(r[..n], bs), Divisor(d[..n]), s, exact);
    }
  }

  lemma {:induction false} QuotientStrayBitsIgnored(n: nat, r: Bits, bs: Bits, d: Bits)
    requires 0 < n <= |r| == |d|
    ensures QuotientBits(n, r, bs, d) == QuotientBits(n, r[..n], bs, d[..n])
    ensures AugQuotientBits(n, r, bs, d) == AugQuotientBits(n, r[..n], bs, d[..n])
  {
    hide Divide, AugDivide;
    if bs != [] {
      var pre := bs[..|bs| - 1];
      QuotientStrayBitsIgnored(n, r, pre, d);
      StrayBitsIgnored(n, r, pre, d);
      AugStrayBitsIgnored(n, r, pre, d);
      assert Divide(n, r, pre, d)[n - 1] == Divide(n, r, pre, d)[..n][n - 1];
      assert AugDivide(n, r, pre, d)[n - 1] == AugDivide(n, r, pre, d)[..n][n - 1];
    }
  }

  /** Bit `i` of r(x) x^k + b(x) x^s + q(x) d(x), for `k` bits b read highest first. */
  predicate WholeBit(r: Bits, bs: Bits, s: nat, q: Bits, d: Bits, i: nat)
    requires |q| == |bs| && i < |r| == |d|
  {
    var k := |bs|;
    ((k <= i && r[i - k]) != (s <= i < s + k && bs[k - 1 - (i - s)])) != (Mul(q, d) + [false])[i]
  }

  lemma ProductSnoc(q: Bits, t: bool, d: Bits, i: nat)
    requires i < |d|
    ensures (Mul([t] + q, d) + [false])[i] == ((i > 0 && (Mul(q, d) + [false])[i - 1]) != (t && d[i]))
  {
    assert ([t] + q)[1..] == q;
    assert Mul([t] + q, d) == Xor(Select(t, d) + Zeros(|q|), [false] + Mul(q, d));
    hide Mul;
  }

  lemma StreamSnoc(pre: Bits, b: bool, s: nat, i: nat)
    ensures (s <= i < s + |pre| + 1 && (pre + [b])[|pre| - (i - s)])
         == ((i > 0 && s <= i - 1 < s + |pre| && pre[|pre| - 1 - (i - 1 - s)]) != (i == s && b))
  {
  }

  lemma WholeBitSnoc(r: Bits, pre: Bits, b: bool, s: nat, q: Bits, t: bool, d: Bits, i: nat)
    requires |q| == |pre| && i < |r| == |d|
    ensures WholeBit(r, pre + [b], s, [t] + q, d, i)
         == (((i > 0 && WholeBit(r, pre, s, q, d, i - 1)) != (i == s && b)) != (t && d[i]))
  {
    ProductSnoc(q, t, d, i);
    StreamSnoc(pre, b, s, i);
    hide Mul;
  }

  lemma StepBit(n: nat, m: Bits, b: bool, d: Bits, i: nat)
    requires 0 < n <= |m| == |d| && i < |m|
    ensures Step(n, m, b, d)[i] == (((i > 0 && m[i - 1]) != (i == n && b)) != ((m[n - 1] != b) && d[i]))
    ensures AugStep(n, m, b, d)[i] == (((i > 0 && m[i - 1]) != (i == 0 && b)) != (m[n - 1] && d[i]))
  {
  }

  lemma {:induction false} WholeBits(n: nat, r: Bits, bs: Bits, d: Bits)
    requires 0 < n <= |r| == |d|
    ensures forall i :: 0 <= i < |r| ==> Divide(n, r, bs, d)[i] == WholeBit(r, bs, n, QuotientBits(n, r, bs, d), d, i)
  {
    if bs == [] {
    } else {
      var pre, b := bs[..|bs| - 1], bs[|bs| - 1];
      assert bs == pre + [b];
      var m, q := Divide(n, r, pre, d), QuotientBits(n, r, pre, d);
      hide Divide, WholeBit, QuotientBits, Step;
      WholeBits(n, r, pre, d);
      DivideSnoc(n, r, pre, b, d);
      QuotientSnoc(n, r, pre, b, d);
      var t := m[n - 1] != b;
      forall i | 0 <= i < |r| ensures Divide(n, r, bs, d)[i] == WholeBit(r, bs, n, [t] + q, d, i) {
        WholeBitSnoc(r, pre, b, n, q, t, d, i);
        StepBit(n, m, b, d, i);
      }
    }
  }

  lemma {:induction false} AugWholeBits(n: nat, r: Bits, bs: Bits, d: Bits)
    requires 0 < n <= |r| == |d|
    ensures forall i :: 0 <= i < |r| ==> AugDivide(n, r, bs, d)[i] == WholeBit(r, bs, 0, AugQuotientBits(n, r, bs, d), d, i)
  {
    if bs == [] {
    } else {
      var pre, b := bs[..|bs| - 1], bs[|bs| - 1];
      assert bs == pre + [b];
      var m, q := AugDivide(n, r, pre, d), AugQuotientBits(n, r, pre, d);
      hide AugDivide, WholeBit, AugQuotientBits, AugStep;
      AugWholeBits(n, r, pre, d);
      AugDivideSnoc(n, r, pre, b, d);
      QuotientSnoc(n, r, pre, b, d);
      forall i | 0 <= i < |r| ensures AugDivide(n, r, bs, d)[i] == WholeBit(r, bs, 0, [m[n - 1]] + q, d, i) {
        WholeBitSnoc(r, pre, b, 0, q, m[n - 1], d, i);
        StepBit(n, m, b, d, i);
      }
    }
  }

  /** The whole register, with the bits at `n` and above that are never masked: r(x) x^k + b(x) x^n with
      the quotient's multiple of d(x) added, cut to the width of the register.
   */
  lemma WholeRegister(n: nat, r: Bits, bs: Bits, d: Bits, q: Bits)
    requires 0 < n <= |r| == |d|
    requires DividesTo(Dividend(r[..n], bs), Divisor(d[..n]), q, Divide(n, r, bs, d)[..n])
    ensures |q| == |bs|
    ensures forall i :: 0 <= i < |r| ==> Divide(n, r, bs, d)[i] == WholeBit(r, bs, n, q, d, i)
  {
    QuotientStrayBitsIgnored(n, r, bs, d);
    StrayBitsIgnored(n, r, bs, d);
    DivideQuotient(r[..n], bs, d[..n]);
    DivisionUnique(Dividend(r[..n], bs), Divisor(d[..n]), q, Divide(n, r, bs, d)[..n],
                   QuotientBits(n, r, bs, d), Divide(n, r, bs, d)[..n]);
    WholeBits(n, r, bs, d);
  }

  lemma AugWholeRegister(n: nat, r: Bits, bs: Bits, d: Bits, q: Bits)
    requires 0 < n <= |r| == |d|
    requires DividesTo(AugDividend(r[..n], bs), Divisor(d[..n]), q, AugDivide(n, r, bs, d)[..n])
    ensures |q| == |bs|
    ensures forall i :: 0 <= i < |r| ==> AugDivide(n, r, bs, d)[i] == WholeBit(r, bs, 0, q, d, i)
  {
    QuotientStrayBitsIgnored(n, r, bs, d);
    AugStrayBitsIgnored(n, r, bs, d);
    AugDivideQuotient(r[..n], bs, d[..n]);
    DivisionUnique(AugDividend(r[..n], bs), Divisor(d[..n]), q, AugDivide(n, r, bs, d)[..n],
                   AugQuotientBits(n, r, bs, d), AugDivide(n, r, bs, d)[..n]);
    AugWholeBits(n, r, bs, d);
  }

  lemma PaddedDividends(r: Bits, bs: Bits)
    ensures AugDividend(r, bs + Zeros(|r|)) == Dividend(Zeros(|r|), Reverse(r) + bs)
  {
    hide Dividend;
    var n, k := |r|, |bs|;
    var padded := Reverse(bs + Zeros(n)) + r;
    var shifted := Dividend(Zeros(n), Reverse(r) + bs);
    forall i | 0 <= i < 2 * n + k ensures padded[i] == shifted[i] {
      if i < n {
      } else if i < n + k {
        assert shifted[i] == (Reverse(r) + bs)[2 * n + k - 1 - i];
      } else {
        assert shifted[i] == (Reverse(r) + bs)[2 * n + k - 1 - i];
      }
    }
  }

  /** An augmented run that ends with `n` zero bits is an unaugmented run from zero over the
      initial remainder's own bits followed by the message: the conversion between the two kinds of
      initial remainder that the library does not provide.
   */
  lemma AugmentedIsUnaugmented(r: Bits, bs: Bits, d: Bits)
    requires 0 < |r| == |d|
    ensures AugDivide(|r|, r, bs + Zeros(|r|), d) == Divide(|r|, Zeros(|r|), Reverse(r) + bs, d)
  {
    var n := |r|;
    var padded, unpadded := bs + Zeros(n), Reverse(r) + bs;
    hide *;
    PaddedDividends(r, bs);
    AugDivideQuotient(r, padded, d);
    DivideQuotient(Zeros(n), unpadded, d);
    DivisionUnique(AugDividend(r, padded), Divisor(d), AugQuotientBits(n, r, padded, d), AugDivide(n, r, padded, d),
                   QuotientBits(n, Zeros(n), unpadded, d), Divide(n, Zeros(n), unpadded, d));
  }

  lemma {:induction false} DivideZeros(n: nat, w: nat, k: nat, d: Bits)
    requires 0 < n <= w == |d|
    ensures Divide(n, Zeros(w), Zeros(k), d) == Zeros(w)
  {
    if k != 0 {
      assert Zeros(k)[..k - 1] == Zeros(k - 1);
      DivideZeros(n, w, k - 1, d);
    }
  }
}
