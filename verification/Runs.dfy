/** Whole runs of in-place operations against arithmetic that never reduces anything. */
module Runs {
  import opened NumberTheory
  import opened Fractions
  import opened FractionLaws
  import opened Rationals
  import opened RealNumbers
  import opened Wrappers

  /** A right-hand operand: the object itself, another rational built from a pair, or an integer. */
  datatype Operand = Self | Pair(n: int, d: int) | Integer(i: int)

  datatype Step =
    | Assign(n: int, d: int)
    | Add(o: Operand)
    | Subtract(o: Operand)
    | Multiply(o: Operand)
    | Divide(o: Operand)
    | Increment
    | Decrement
    | Negate

  // ---------- schoolbook arithmetic, nothing ever cancelled ----------

  function OperandValue(v: Fraction, o: Operand): Fraction {
    match o
    case Self => v
    case Pair(n, d) => Fraction(n, d)
    case Integer(i) => Whole(i)
  }

  /** The unreduced result, or None where the library throws. */
  function Schoolbook(v: Fraction, s: Step): Option<Fraction> {
    match s
    case Assign(n, d) => if d == 0 then None else Some(Fraction(n, d))
    case Increment => Some(Fraction(v.num + v.den, v.den))
    case Decrement => Some(Fraction(v.num - v.den, v.den))
    case Negate => Some(Fraction(-v.num, v.den))
    case Add(o) =>
      var w := OperandValue(v, o);
      if w.den == 0 then None else Some(Fraction(v.num * w.den + w.num * v.den, v.den * w.den))
    case Subtract(o) =>
      var w := OperandValue(v, o);
      if w.den == 0 then None else Some(Fraction(v.num * w.den - w.num * v.den, v.den * w.den))
    case Multiply(o) =>
      var w := OperandValue(v, o);
      if w.den == 0 then None else Some(Fraction(v.num * w.num, v.den * w.den))
    case Divide(o) =>
      var w := OperandValue(v, o);
      if w.den == 0 || w.num == 0 then None else Some(Fraction(v.num * w.den, v.den * w.num))
  }

  /** The value when the run ends or throws, and whether it threw. */
  function SchoolbookRun(v: Fraction, steps: seq<Step>): (r: (Fraction, bool))
    decreases |steps|
  {
    if steps == [] then (v, true)
    else
      match Schoolbook(v, steps[0])
      case None => (v, false)
      case Some(w) => SchoolbookRun(w, steps[1..])
  }

  // ---------- values of differences and ratios ----------

  lemma NegationValue(f: Fraction, n: int, d: int)
    requires HasValue(f, n, d)
    ensures HasValue(Negation(f), -n, d)
  {
    CoprimeNegation(f.num, f.den);
    hide Gcd;
    assert -f.num * d == -(f.num * d) && -n * f.den == -(n * f.den);
  }

  lemma DifferenceValue(f: Fraction, n: int, d: int, h: Fraction, m: int, e: int)
    requires HasValue(f, n, d) && HasValue(h, m, e)
    ensures HasValue(Difference(f, h), n * e - m * d, d * e)
  {
    DifferenceIsSum(f, h);
    NegationValue(h, m, e);
    assert n * e + -m * d == n * e - m * d;
    hide Canon, Sum, Difference, Gcd, Negation;
    SumValue(f, n, d, Negation(h), -m, e);
  }

  lemma NumeratorNonzero(h: Fraction, m: int, e: int)
    requires HasValue(h, m, e)
    ensures h.num == 0 <==> m == 0
  {
    if m != 0 {
      ProductNonzero(m, h.den);
    }
    if h.num != 0 {
      ProductNonzero(h.num, e);
    }
  }

  lemma RatioValue(f: Fraction, n: int, d: int, h: Fraction, m: int, e: int)
    requires HasValue(f, n, d) && HasValue(h, m, e) && m != 0
    ensures h.num != 0 && HasValue(Ratio(f, h), n * e, d * m)
  {
    hide Canon, LowestTerms;
    NumeratorNonzero(h, m, e);
    assert f.den > 0 by { Positive(f); }
    ProductNonzero(f.den, h.num);
    ProductNonzero(d, m);
    CanonIsLowest(f.num * h.den, f.den * h.num);
    ProductCrossValues(f.num, f.den, n, d, h.den, h.num, e, m);
    var s := Ratio(f, h);
    CrossTransitive(s.num, s.den, f.num * h.den, f.den * h.num, n * e, d * m);
  }

  // ---------- one step ----------

  /** The canonical fraction after a step, from the canonical fraction before it. */
  lemma SumOfCanons(v: Fraction, w: Fraction)
    requires v.den != 0 && w.den != 0
    ensures v.den * w.den != 0 && LowestTerms(Canon(v.num, v.den)) && LowestTerms(Canon(w.num, w.den))
    ensures var f, h := Canon(v.num, v.den), Canon(w.num, w.den);
            && Sum(f, h) == Canon(v.num * w.den + w.num * v.den, v.den * w.den)
            && Difference(f, h) == Canon(v.num * w.den - w.num * v.den, v.den * w.den)
            && Product(f, h) == Canon(v.num * w.num, v.den * w.den)
  {
    ProductNonzero(v.den, w.den);
    CanonHasValue(v.num, v.den);
    CanonHasValue(w.num, w.den);
    var f, h := Canon(v.num, v.den), Canon(w.num, w.den);
    hide Canon, Sum, Difference, Product, LowestTerms;
    SumValue(f, v.num, v.den, h, w.num, w.den);
    DifferenceValue(f, v.num, v.den, h, w.num, w.den);
    ProductValue(f, v.num, v.den, h, w.num, w.den);
    CanonUnique(Sum(f, h), v.num * w.den + w.num * v.den, v.den * w.den);
    CanonUnique(Difference(f, h), v.num * w.den - w.num * v.den, v.den * w.den);
    CanonUnique(Product(f, h), v.num * w.num, v.den * w.den);
  }

  lemma RatioOfCanons(v: Fraction, w: Fraction)
    requires v.den != 0 && w.den != 0
    ensures var f, h := Canon(v.num, v.den), Canon(w.num, w.den);
            && (h.num == 0 <==> w.num == 0)
            && (w.num != 0 ==> f.den != 0 && v.den * w.num != 0 && Ratio(f, h) == Canon(v.num * w.den, v.den * w.num))
  {
    CanonHasValue(v.num, v.den);
    CanonHasValue(w.num, w.den);
    var f, h := Canon(v.num, v.den), Canon(w.num, w.den);
    NumeratorNonzero(h, w.num, w.den);
    if w.num != 0 {
      ProductNonzero(v.den, w.num);
      Positive(f);
      hide Canon, Ratio, LowestTerms;
      RatioValue(f, v.num, v.den, h, w.num, w.den);
      CanonUnique(Ratio(f, h), v.num * w.den, v.den * w.num);
    }
  }

  lemma WholeIsCanon(i: int)
    ensures Canon(i, 1) == Whole(i)
  {
    WholeIsLowest(i);
    CanonOfLowest(Whole(i));
  }

  /** What an in-place step must leave: the canonical fraction of the schoolbook result, or the old
      value if it throws.
   */
  ghost predicate Agrees(v: Fraction, s: Step, ok: bool, after: Fraction)
    requires v.den != 0
  {
    match Schoolbook(v, s)
    case None => !ok && after == Canon(v.num, v.den)
    case Some(w) => ok && w.den != 0 && after == Canon(w.num, w.den)
  }

  lemma CanonDenominator(v: Fraction)
    requires v.den != 0
    ensures Canon(v.num, v.den).den != 0
  {
    CanonIsLowest(v.num, v.den);
  }

  lemma WholeParts(i: int)
    ensures Whole(i) == Fraction(i, 1)
  {
  }

  lemma ByOne(v: Fraction)
    requires v.den != 0
    ensures Canon(v.num, v.den).den != 0
    ensures Sum(Canon(v.num, v.den), Whole(1)) == Canon(v.num + v.den, v.den)
    ensures Difference(Canon(v.num, v.den), Whole(1)) == Canon(v.num - v.den, v.den)
  {
    hide *;
    SumOfCanons(v, Fraction(1, 1));
    WholeIsCanon(1);
    CanonDenominator(v);
    WholeParts(1);
  }

  lemma NegatedCanon(v: Fraction)
    requires v.den != 0
    ensures Negation(Canon(v.num, v.den)) == Canon(-v.num, v.den)
  {
    CanonHasValue(v.num, v.den);
    NegationValue(Canon(v.num, v.den), v.num, v.den);
    hide Canon, LowestTerms;
    CanonUnique(Negation(Canon(v.num, v.den)), -v.num, v.den);
  }

  /** What a schoolbook step with an operand computes: nothing exactly where the operand is no number or
      zero is divided by, and otherwise a pair for the sum, difference, product or quotient of the numbers.
   */
  lemma BinarySteps(v: Fraction, o: Operand, u: Fraction)
    requires v.den != 0
    requires u == match o case Self => v case Pair(n, d) => Fraction(n, d) case Integer(i) => Fraction(i, 1)
    ensures Schoolbook(v, Add(o)).None? <==> u.den == 0
    ensures Schoolbook(v, Subtract(o)).None? <==> u.den == 0
    ensures Schoolbook(v, Multiply(o)).None? <==> u.den == 0
    ensures Schoolbook(v, Divide(o)).None? <==> u.den == 0 || u.num == 0
    ensures u.den != 0 ==>
              var sum, difference, product :=
                Schoolbook(v, Add(o)).value, Schoolbook(v, Subtract(o)).value, Schoolbook(v, Multiply(o)).value;
              && sum.den != 0 && Real(sum) == Real(v) + Real(u)
              && difference.den != 0 && Real(difference) == Real(v) - Real(u)
              && product.den != 0 && Real(product) == Real(v) * Real(u)
    ensures u.den != 0 && u.num != 0 ==>
              var quotient := Schoolbook(v, Divide(o)).value;
              quotient.den != 0 && Real(u) != 0.0 && Real(quotient) == Real(v) / Real(u)
  {
    hide Real;
    if u.den != 0 {
      UnreducedIsExact(v, u);
      if u.num != 0 {
        UnreducedRatioIsExact(v, u);
      }
    }
  }

  /** The same in terms of what is stored: the canonical pairs of a step's result, its start and operand. */
  lemma BinaryStepsOnStored(v: Fraction, o: Operand, u: Fraction)
    requires v.den != 0 && u == OperandValue(v, o) && u.den != 0
    ensures var f, h, sum, difference, product := Canon(v.num, v.den), Canon(u.num, u.den),
              Schoolbook(v, Add(o)).value, Schoolbook(v, Subtract(o)).value, Schoolbook(v, Multiply(o)).value;
            && f.den != 0 && h.den != 0 && sum.den != 0 && difference.den != 0 && product.den != 0
            && Canon(sum.num, sum.den) == Sum(f, h)
            && Canon(difference.num, difference.den) == Difference(f, h)
            && Canon(product.num, product.den) == Product(f, h)
    ensures u.num != 0 ==>
              var f, h, quotient := Canon(v.num, v.den), Canon(u.num, u.den), Schoolbook(v, Divide(o)).value;
              quotient.den != 0 && h.num != 0 && Canon(quotient.num, quotient.den) == Ratio(f, h)
  {
    hide Canon, Sum, Difference, Product, Ratio;
    SumOfCanons(v, u);
    RatioOfCanons(v, u);
    CanonDenominator(v);
    CanonDenominator(u);
  }

  /** What the steps without a right-hand operand compute. */
  lemma OtherSteps(v: Fraction, n: int, d: int)
    requires v.den != 0
    ensures Schoolbook(v, Assign(n, d)).None? <==> d == 0
    ensures d != 0 ==> var w := Schoolbook(v, Assign(n, d)).value; w.den != 0 && Real(w) == n as real / d as real
    ensures Schoolbook(v, Increment).Some? && Schoolbook(v, Decrement).Some? && Schoolbook(v, Negate).Some?
    ensures var up, down, minus :=
              Schoolbook(v, Increment).value, Schoolbook(v, Decrement).value, Schoolbook(v, Negate).value;
            && up.den != 0 && Real(up) == Real(v) + 1.0
            && down.den != 0 && Real(down) == Real(v) - 1.0
            && minus.den != 0 && Real(minus) == -Real(v)
  {
    CrossSum(v.num, v.den, 1, 1);
    CrossDifference(v.num, v.den, 1, 1);
    NegationIsExact(v);
  }

  /** A compound assignment with any of the three kinds of operand. */
  method ExecuteBinary(r: Rational, s: Step, o: Operand, ghost v: Fraction) returns (ok: bool)
    requires s == Add(o) || s == Subtract(o) || s == Multiply(o) || s == Divide(o)
    requires r.Valid() && v.den != 0 && r.Value() == Canon(v.num, v.den)
    modifies r
    ensures r.Valid() && Agrees(v, s, ok, r.Value())
  {
    hide Canon;
    ok := true;
    ghost var w := OperandValue(v, o);
    if o.Integer? {
      WholeIsCanon(o.i);
      SumOfCanons(v, w);
      RatioOfCanons(v, w);
      match s {
        case Add(_) => r.AddInteger(o.i);
        case Subtract(_) => r.SubtractInteger(o.i);
        case Multiply(_) => r.MultiplyInteger(o.i);
        case Divide(_) => ok := r.DivideInteger(o.i);
      }
      return;
    }
    var operand := r;
    if o.Pair? {
      var made := Rational.Make(o.n, o.d);
      if made == null {
        return false;
      }
      operand := made;
    }
    SumOfCanons(v, w);
    RatioOfCanons(v, w);
    match s {
      case Add(_) => r.AddAssign(operand);
      case Subtract(_) => r.SubtractAssign(operand);
      case Multiply(_) => r.MultiplyAssign(operand);
      case Divide(_) => ok := r.DivideAssign(operand);
    }
  }

  method Execute(r: Rational, s: Step, ghost v: Fraction) returns (ok: bool)
    requires r.Valid() && v.den != 0 && r.Value() == Canon(v.num, v.den)
    modifies r
    ensures r.Valid() && Agrees(v, s, ok, r.Value())
  {
    ok := true;
    hide Canon;
    match s {
      case Assign(n, d) =>
        ok := r.Assign(n, d);
      case Increment =>
        ByOne(v);
        r.Increment();
      case Decrement =>
        ByOne(v);
        r.Decrement();
      case Negate =>
        NegatedCanon(v);
        var m := r.Negated();
        r.num, r.den := m.num, m.den;
      case Add(o) => ok := ExecuteBinary(r, s, o, v);
      case Subtract(o) => ok := ExecuteBinary(r, s, o, v);
      case Multiply(o) => ok := ExecuteBinary(r, s, o, v);
      case Divide(o) => ok := ExecuteBinary(r, s, o, v);
    }
  }

  // ---------- whole runs ----------

  /** A schoolbook run of no steps, and of one. */
  lemma ShortRuns(v: Fraction, s: Step)
    ensures SchoolbookRun(v, []) == (v, true)
    ensures SchoolbookRun(v, [s]) == match Schoolbook(v, s) case None => (v, false) case Some(w) => (w, true)
  {
    assert [s][1..] == [];
  }

  /** A run of `a` and then `b` is a run of `b` from where `a` ends, unless `a` throws. */
  lemma {:induction false} RunConcat(v: Fraction, a: seq<Step>, b: seq<Step>)
    ensures var (w, completed) := SchoolbookRun(v, a);
            SchoolbookRun(v, a + b) == if completed then SchoolbookRun(w, b) else (w, false)
    decreases |a|
  {
    hide Schoolbook;
    if a == [] {
      assert a + b == b;
    } else {
      assert (a + b)[0] == a[0] && (a + b)[1..] == a[1..] + b;
      var next := Schoolbook(v, a[0]);
      if next.Some? {
        RunConcat(next.value, a[1..], b);
      }
    }
  }


  /** Any run of in-place operations either ends or throws exactly where schoolbook arithmetic does, and
      leaves the canonical fraction of the schoolbook value: the invariant holds throughout.
   */
  method ExecuteAll(r: Rational, steps: seq<Step>) returns (ok: bool)
    requires r.Valid()
    modifies r
    ensures r.Valid()
    ensures var (w, completed) := SchoolbookRun(old(r.Value()), steps);
            ok == completed && w.den != 0 && r.Value() == Canon(w.num, w.den)
  {
    ghost var start := r.Value();
    ghost var v := start;
    CanonOfLowest(v);
    ok := true;
    var i := 0;
    assert steps[0..] == steps;
    while i < |steps|
      invariant 0 <= i <= |steps| && r.Valid() && v.den != 0
      invariant r.Value() == Canon(v.num, v.den)
      invariant SchoolbookRun(start, steps) == SchoolbookRun(v, steps[i..])
    {
      hide Canon;
      ghost var next := Schoolbook(v, steps[i]);
      assert steps[i..][0] == steps[i] && steps[i..][1..] == steps[i + 1..];
      ok := Execute(r, steps[i], v);
      if !ok {
        return;
      }
      v := next.value;
      i := i + 1;
    }
  }
}
