/** The reference solver of demo.cpp: `naive_solver` evaluates the textbook
    formula directly in the floating-point type, with no rescaling, and
    `is_same_result` compares its answer with the solver's. The naive solver
    is written here over the format `t`, since test/test.h instantiates the
    same classification for both formats. */
module NaiveReference {
  import opened FloatingPoint
  import opened SolverSpec

  /** `b * b - 4 * a * c` evaluated in the format, every operation
      overflow-checked. */
  function NaiveDelta(t: FloatType, a: Fp, b: Fp, c: Fp): Fp {
    Sub(t, Mul(t, b, b), Mul(t, Mul(t, Fin(4.0), a), c))
  }

  /** A finite computed discriminant comes from finite coefficients and is
      the exact one: a NaN or an infinity anywhere in the three products or
      the difference leaves the result non-finite. */
  lemma NaiveDeltaFinite(t: FloatType, a: Fp, b: Fp, c: Fp)
    ensures var r := NaiveDelta(t, a, b, c);
      r.Fin? ==> a.Fin? && b.Fin? && c.Fin? && r.val == Discriminant(a.val, b.val, c.val)
  {
    hide Round, Mul, Sub;
    assert NaiveDelta(t, a, b, c) == Sub(t, Mul(t, b, b), Mul(t, Mul(t, Fin(4.0), a), c));
    var q4 := Mul(t, Fin(4.0), a);
    MulFinite(t, b, b);
    MulFinite(t, Fin(4.0), a);
    MulFinite(t, q4, c);
    SubFinite(t, Mul(t, b, b), Mul(t, q4, c));
  }

  /** A finite product has finite factors and is their exact product. */
  lemma MulFinite(t: FloatType, x: Fp, y: Fp)
    ensures Mul(t, x, y).Fin? ==> x.Fin? && y.Fin? && Mul(t, x, y).val == x.val * y.val
  {
  }

  /** A finite difference has finite operands and is their exact difference. */
  lemma SubFinite(t: FloatType, x: Fp, y: Fp)
    ensures Sub(t, x, y).Fin? ==> x.Fin? && y.Fin? && Sub(t, x, y).val == x.val - y.val
  {
  }

  /** `naive_solver`: NaN or infinite coefficients are refused; a == 0 gives
      the linear table; otherwise the sign of the computed discriminant picks
      no root, the double root -b / (2a) or the pair (-b -+ sqrt(delta)) / (2a). */
  function NaiveSolver(t: FloatType, sqrt: real -> real, a: Fp, b: Fp, c: Fp): (r: Outcome)
    ensures r.state != Uncertain && r.state != OverUnderFlow
    ensures r.state == InvalidInput <==> !(a.Fin? && b.Fin? && c.Fin?)
    ensures r.state == InvalidInput || r.state == NoRoot ==> r.x1.NaN? && r.x2.NaN?
    ensures r.state == OneReal ==> r.x2.NaN?
    ensures r.state == AllReal ==> r.x1 == PosInf && r.x2 == NegInf
  {
    if !a.Fin? || !b.Fin? || !c.Fin? then Outcome(InvalidInput, NaN, NaN)
    else if Eq(a, Zero) then
      if Eq(b, Zero) then
        if Eq(c, Zero) then Outcome(AllReal, PosInf, NegInf) else Outcome(NoRoot, NaN, NaN)
      else Outcome(OneReal, Div(t, Neg(c), b), NaN)
    else
      var delta := NaiveDelta(t, a, b, c);
      var twoA := Mul(t, Fin(2.0), a);
      if Lt(delta, Zero) then Outcome(NoRoot, NaN, NaN)
      else if Eq(delta, Zero) then Outcome(OneReal, Div(t, Neg(b), twoA), NaN)
      else
        var sd := Sqrt(sqrt, delta);
        Outcome(TwoReal, Div(t, Sub(t, Neg(b), sd), twoA), Div(t, Add(t, Neg(b), sd), twoA))
  }

  /** For a == 0 the reference reaches exactly the solver's linear result:
      the same state and the same slots. */
  lemma NaiveLinear(t: FloatType, sqrt: real -> real, b: Fp, c: Fp)
    requires b.Fin? && c.Fin?
    ensures var r := NaiveSolver(t, sqrt, Zero, b, c);
      LinearResult(t, b.val, c.val, r.state, r.x1, r.x2)
  {
    if b.val != 0.0 && c.val == 0.0 {
      assert -c.val / b.val == 0.0;
    }
  }

  /** Nothing the reference computes for a quadratic equation overflows: the
      products b*b, 4a, 4ac and 2a and the discriminant fit the format. */
  predicate NoOverflow(t: FloatType, a: real, b: real, c: real) {
    && Abs(b * b) <= MaxFinite(t)
    && Abs(4.0 * a) <= MaxFinite(t)
    && Abs(4.0 * a * c) <= MaxFinite(t)
    && Abs(2.0 * a) <= MaxFinite(t)
    && Abs(Discriminant(a, b, c)) <= MaxFinite(t)
  }

  /** Without overflow the computed discriminant is the exact one. */
  lemma NaiveDeltaExact(t: FloatType, a: real, b: real, c: real)
    requires NoOverflow(t, a, b, c)
    ensures NaiveDelta(t, Fin(a), Fin(b), Fin(c)) == Fin(Discriminant(a, b, c))
    ensures Mul(t, Fin(2.0), Fin(a)) == Fin(2.0 * a)
  {
    hide MaxFinite, Mul, Sub, Round, Discriminant;
    DiscriminantExpanded(a, b, c);
    MulExact(t, b, b);
    MulExact(t, 4.0, a);
    MulExact(t, 4.0 * a, c);
    MulExact(t, 2.0, a);
    SubExact(t, b * b, 4.0 * a * c);
    assert Mul(t, Mul(t, Fin(4.0), Fin(a)), Fin(c)) == Fin(4.0 * a * c);
    assert NaiveDelta(t, Fin(a), Fin(b), Fin(c)) == Sub(t, Fin(b * b), Fin(4.0 * a * c));
    assert Sub(t, Fin(b * b), Fin(4.0 * a * c)) == Fin(b * b - 4.0 * a * c);
  }

  lemma DiscriminantExpanded(a: real, b: real, c: real)
    ensures Discriminant(a, b, c) == b * b - 4.0 * a * c
  {
  }

  /** A product that fits the format is computed exactly. */
  lemma MulExact(t: FloatType, u: real, v: real)
    requires Abs(u * v) <= MaxFinite(t)
    ensures Mul(t, Fin(u), Fin(v)) == Fin(u * v)
  {
  }

  /** A difference that fits the format is computed exactly. */
  lemma SubExact(t: FloatType, u: real, v: real)
    requires Abs(u - v) <= MaxFinite(t)
    ensures Sub(t, Fin(u), Fin(v)) == Fin(u - v)
  {
  }

  /** Without overflow the reference classifies a quadratic equation exactly,
      and its roots are the textbook ones: -b / (2a) for the double root, and
      (-b - sqrt(delta)) / (2a) <= (-b + sqrt(delta)) / (2a) otherwise (each
      exact, or the infinity its quotient overflows to). */
  lemma NaiveQuadratic(t: FloatType, sqrt: real -> real, a: real, b: real, c: real)
    requires IsSqrt(sqrt) && a != 0.0 && NoOverflow(t, a, b, c)
    ensures var r := NaiveSolver(t, sqrt, Fin(a), Fin(b), Fin(c));
      && r.state == ExactState(a, b, c)
      && (r.state == OneReal ==> Delivers(r.x1, -b / (2.0 * a)))
      && (r.state == TwoReal ==>
            Delivers(r.x1, Textbook(sqrt, a, b, c, -1.0)) && Delivers(r.x2, Textbook(sqrt, a, b, c, 1.0)))
  {
    hide MaxFinite, Discriminant, Round, Mul, Add, Div, Textbook, NaiveDelta;
    NaiveDeltaExact(t, a, b, c);
    var d := Discriminant(a, b, c);
    if d == 0.0 {
      QuotientDelivers(t, Fin(-b), -b, 2.0 * a);
    } else if d > 0.0 {
      SqrtFacts(sqrt, d);
      var s := sqrt(d);
      SumDelivers(t, -b, -s);
      SumDelivers(t, -b, s);
      QuotientDelivers(t, Add(t, Fin(-b), Fin(-s)), -b + -s, 2.0 * a);
      QuotientDelivers(t, Add(t, Fin(-b), Fin(s)), -b + s, 2.0 * a);
      TextbookRoots(sqrt, a, b, c, s);
    }
  }

  /** The two textbook roots, with s the square root of the discriminant. */
  lemma TextbookRoots(sqrt: real -> real, a: real, b: real, c: real, s: real)
    requires a != 0.0 && s == sqrt(Discriminant(a, b, c))
    ensures Textbook(sqrt, a, b, c, -1.0) == (-b + -s) / (2.0 * a)
    ensures Textbook(sqrt, a, b, c, 1.0) == (-b + s) / (2.0 * a)
  {
    TextbookValue(sqrt, a, b, c, -1.0);
    TextbookValue(sqrt, a, b, c, 1.0);
  }

  /** A sum of finite values is delivered (exactly or as an infinity of its sign). */
  lemma SumDelivers(t: FloatType, u: real, v: real)
    ensures Delivers(Add(t, Fin(u), Fin(v)), u + v)
  {
    RoundDelivers(t, u + v);
  }

  /** Dividing a slot that delivers n by a finite non-zero d delivers n / d. */
  lemma QuotientDelivers(t: FloatType, x: Fp, n: real, d: real)
    requires d != 0.0 && Delivers(x, n)
    ensures Delivers(Div(t, x, Fin(d)), n / d)
  {
    if x.Inf? {
      QuotientSignOf(n, d);
    } else {
      RoundDelivers(t, n / d);
    }
  }

  /** The sign of a quotient. */
  lemma QuotientSignOf(n: real, d: real)
    requires n != 0.0 && d != 0.0
    ensures n / d != 0.0
    ensures n / d < 0.0 <==> (n < 0.0) != (d < 0.0)
  {
    var q := n / d;
    assert q * d == n;
    if d > 0.0 {
      ProductSign(q, d);
    } else {
      ProductSign(-q, -d);
      assert (-q) * (-d) == q * d;
    }
  }

  /** Wherever the reference does not overflow it reaches the state that the
      solver reaches before its over/underflow check. */
  lemma NaiveAgreesWithSolver(t: FloatType, sqrt: real -> real, a: Fp, b: Fp, c: Fp,
                              s: SolverState, x1: Fp, x2: Fp, o1: Fp, o2: Fp)
    requires IsSqrt(sqrt)
    requires Solved(t, sqrt, a, b, c, s, x1, x2, o1, o2)
    requires a.Fin? && b.Fin? && c.Fin? && a.val != 0.0 ==> NoOverflow(t, a.val, b.val, c.val)
    ensures NaiveSolver(t, sqrt, a, b, c).state == s
  {
    SolvedState(t, sqrt, a, b, c, s, x1, x2, o1, o2);
    if a.Fin? && b.Fin? && c.Fin? {
      if a.val == 0.0 {
        NaiveLinear(t, sqrt, b, c);
      } else {
        NaiveQuadratic(t, sqrt, a.val, b.val, c.val);
      }
    }
  }

  /** `is_same_result`: different states never match; the five states
      without roots match on the state alone; ONE_REAL compares the first
      slots and TWO_REAL both slots, position by position, with IEEE `==`. */
  predicate IsSameResult(s: SolverState, r1: Fp, r2: Fp, u: SolverState, x1: Fp, x2: Fp): (same: bool)
    ensures same ==> s == u
    ensures s == u && s !in {OneReal, TwoReal} ==> same
    ensures s == u && s == OneReal ==> (same <==> !r1.NaN? && r1 == x1)
    ensures s == u && s == TwoReal ==> (same <==> !r1.NaN? && !r2.NaN? && r1 == x1 && r2 == x2)
  {
    s == u &&
    match s
    case OneReal => Eq(r1, x1)
    case TwoReal => Eq(r1, x1) && Eq(r2, x2)
    case _ => true
  }

  /** The comparison is symmetric, ignores the second slot unless there are
      two roots, and a NaN root never matches, not even itself. */
  lemma SameResultFacts(s: SolverState, r1: Fp, r2: Fp, u: SolverState, x1: Fp, x2: Fp)
    ensures IsSameResult(s, r1, r2, u, x1, x2) == IsSameResult(u, x1, x2, s, r1, r2)
    ensures IsSameResult(s, r1, r2, u, x1, x2) ==> s == u
    ensures s == u && s !in {OneReal, TwoReal} ==> IsSameResult(s, r1, r2, u, x1, x2)
    ensures s != TwoReal ==> IsSameResult(s, r1, r2, u, x1, x2) == IsSameResult(s, r1, NaN, u, x1, NaN)
    ensures s in {OneReal, TwoReal} && r1.NaN? ==> !IsSameResult(s, r1, r2, u, x1, x2)
  {
  }
}
