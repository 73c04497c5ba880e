/** Two of the equations the float and double test drivers solve, worked
    through the model: x^2 - 9 == 0 (the b == 0 case) and
    6x^2 - 33x + 45 == 0 (the complete case, inside the band), each solved by
    the template solver at `double` and by the test reference, and the two
    answers compared as the drivers do. */
module ConcreteCases {
  import opened FloatingPoint
  import opened SolverSpec
  import opened SolverAlgebra
  import opened NaiveReference
  import TestHarness
  import opened QuadraticEquationSolver

  /** sqrt(9) == 3 and sqrt(36) == 6. */
  lemma SmallRoots(sqrt: real -> real)
    requires IsSqrt(sqrt)
    ensures sqrt(9.0) == 3.0 && sqrt(36.0) == 6.0
  {
    SqrtFacts(sqrt, 9.0);
    SqrtUnique(sqrt(9.0), 3.0);
    SqrtFacts(sqrt, 36.0);
    SqrtUnique(sqrt(36.0), 6.0);
  }

  /** 2^3 and 2^6. */
  lemma SmallPowers()
    ensures Pow2(3) == 8.0 && Pow2(6) == 64.0
  {
    assert NatPow2(1) == 2.0;
    assert NatPow2(2) == 4.0;
    assert NatPow2(3) == 8.0;
    assert NatPow2(4) == 16.0;
    assert NatPow2(5) == 32.0;
    assert NatPow2(6) == 64.0;
  }

  /** A decomposition that meets the frexp contract is the one `Frexp`
      returns. */
  lemma FrexpIs(x: real, m: real, e: int)
    requires IsFrexp(x, Decomposed(m, e))
    ensures Frexp(x) == Decomposed(m, e)
  {
    FrexpUnique(x, Frexp(x), Decomposed(m, e));
  }

  /** frexp of the coefficients of 6x^2 - 33x + 45: 0.75 * 2^3, -33/64 * 2^6
      and 45/64 * 2^6, so ecp == 6 + 3 - 2 * 6 == -3. */
  lemma ExampleFrexp()
    ensures Frexp(6.0) == Decomposed(0.75, 3)
    ensures Frexp(-33.0) == Decomposed(-33.0 / 64.0, 6)
    ensures Frexp(45.0) == Decomposed(45.0 / 64.0, 6)
    ensures Ecp(6.0, -33.0, 45.0) == -3
  {
    hide Frexp, Pow2;
    SmallPowers();
    FrexpIs(6.0, 0.75, 3);
    FrexpIs(-33.0, -33.0 / 64.0, 6);
    FrexpIs(45.0, 45.0 / 64.0, 6);
  }

  /** x^2 - 9 == 0 has the roots -3 and 3; whatever the b == 0 case reports,
      finite slots hold exactly them. */
  lemma PureQuadraticExample(sqrt: real -> real, s: SolverState, x1: Fp, x2: Fp)
    requires IsSqrt(sqrt) && AxxPlusCResult(sqrt, 1.0, -9.0, s, x1, x2)
    ensures s == TwoReal
    ensures x2.Fin? ==> x1 == Fin(-3.0) && x2 == Fin(3.0)
  {
    SmallRoots(sqrt);
    assert -(-9.0) / 1.0 == 9.0;
  }

  /** 6x^2 - 33x + 45 == 0 lies inside the band at `double`; its discriminant
      is 9, and finite slots hold exactly the roots 2.5 and 3, ascending. */
  lemma CompleteExample(sqrt: real -> real, s: SolverState, x1: Fp, x2: Fp)
    requires IsSqrt(sqrt) && CompleteResult(Double, sqrt, 6.0, -33.0, 45.0, s, x1, x2)
    ensures s == TwoReal
    ensures x1.Fin? && x2.Fin? ==> x1 == Fin(2.5) && x2 == Fin(3.0)
  {
    hide Frexp, Ecp, Textbook, BandOf, DeliversPair;
    ExampleFrexp();
    FormatConstants();
    assert BandOf(Double, Ecp(6.0, -33.0, 45.0)) == Inside;
    ExampleRoots(sqrt);
    if x1.Fin? && x2.Fin? {
      AscendingPair(x1, x2, 2.5, 3.0);
    }
  }

  /** The textbook roots of 6x^2 - 33x + 45. */
  lemma ExampleRoots(sqrt: real -> real)
    requires IsSqrt(sqrt)
    ensures Discriminant(6.0, -33.0, 45.0) == 9.0
    ensures Textbook(sqrt, 6.0, -33.0, 45.0, -1.0) == 2.5
    ensures Textbook(sqrt, 6.0, -33.0, 45.0, 1.0) == 3.0
  {
    SmallRoots(sqrt);
    assert Discriminant(6.0, -33.0, 45.0) == 9.0;
  }

  /** Finite slots that deliver v < w, in either order, and are ascending
      hold v and w in that order. */
  lemma AscendingPair(x1: Fp, x2: Fp, v: real, w: real)
    requires x1.Fin? && x2.Fin? && v < w
    requires DeliversPair(x1, x2, v, w) && Le(x1, x2)
    ensures x1 == Fin(v) && x2 == Fin(w)
  {
  }

  /** The reference computes x^2 - 9 == 0 exactly: delta == 36, roots -3, 3. */
  lemma NaivePureQuadratic(sqrt: real -> real)
    requires IsSqrt(sqrt)
    ensures NaiveSolver(Double, sqrt, Fin(1.0), Fin(0.0), Fin(-9.0)) == Outcome(TwoReal, Fin(-3.0), Fin(3.0))
  {
    hide NaiveDelta, Mul, Add, Sub, Div, Round, MaxFinite, Discriminant, Neg;
    PureQuadraticSteps(Double);
    SmallRoots(sqrt);
    NegZero();
  }

  /** The operations the reference performs on x^2 - 9 == 0. */
  lemma PureQuadraticSteps(t: FloatType)
    ensures NaiveDelta(t, Fin(1.0), Fin(0.0), Fin(-9.0)) == Fin(36.0)
    ensures Mul(t, Fin(2.0), Fin(1.0)) == Fin(2.0)
    ensures Sub(t, Fin(0.0), Fin(6.0)) == Fin(-6.0) && Add(t, Fin(0.0), Fin(6.0)) == Fin(6.0)
    ensures Div(t, Fin(-6.0), Fin(2.0)) == Fin(-3.0) && Div(t, Fin(6.0), Fin(2.0)) == Fin(3.0)
  {
    hide NaiveDelta, Mul, Add, Sub, Div;
    PureQuadraticDelta(t);
    RootSteps(t, 0.0, 6.0, 2.0);
  }

  /** IEEE negation of 0 (signed zeros are not modelled). */
  lemma NegZero()
    ensures Neg(Zero) == Zero
  {
  }

  /** delta and 2a for x^2 - 9 == 0. */
  lemma PureQuadraticDelta(t: FloatType)
    ensures NaiveDelta(t, Fin(1.0), Fin(0.0), Fin(-9.0)) == Fin(36.0)
    ensures Mul(t, Fin(2.0), Fin(1.0)) == Fin(2.0)
  {
    hide NaiveDelta, Mul, Add, Sub, Div, Round, MaxFinite, Discriminant;
    FiniteBelow(t);
    DiscriminantExpanded(1.0, 0.0, -9.0);
    NaiveDeltaExact(t, 1.0, 0.0, -9.0);
  }

  /** The last steps of the reference, (-b - sd) / 2a and (-b + sd) / 2a, on
      small values. */
  lemma RootSteps(t: FloatType, nb: real, sd: real, twoA: real)
    requires Abs(nb) <= 100.0 && Abs(sd) <= 100.0 && 1.0 <= twoA <= 100.0
    ensures Sub(t, Fin(nb), Fin(sd)) == Fin(nb - sd) && Add(t, Fin(nb), Fin(sd)) == Fin(nb + sd)
    ensures Div(t, Fin(nb - sd), Fin(twoA)) == Fin((nb - sd) / twoA)
    ensures Div(t, Fin(nb + sd), Fin(twoA)) == Fin((nb + sd) / twoA)
  {
    hide Add, Sub, Div, MaxFinite;
    FiniteBelow(t);
    SubExact(t, nb, sd);
    AddExact(t, nb, sd);
    QuotientBound(nb - sd, twoA);
    QuotientBound(nb + sd, twoA);
    DivExact(t, nb - sd, twoA);
    DivExact(t, nb + sd, twoA);
  }

  /** Dividing by at least 1 does not grow a value. */
  lemma QuotientBound(u: real, v: real)
    requires 1.0 <= v
    ensures Abs(u / v) <= Abs(u)
  {
    if u >= 0.0 {
      assert u / v * v == u;
    } else {
      assert (-u) / v * v == -u;
    }
  }

  /** The reference computes 6x^2 - 33x + 45 == 0 exactly: delta == 9, roots
      2.5 and 3. */
  lemma NaiveComplete(sqrt: real -> real)
    requires IsSqrt(sqrt)
    ensures NaiveSolver(Double, sqrt, Fin(6.0), Fin(-33.0), Fin(45.0)) == Outcome(TwoReal, Fin(2.5), Fin(3.0))
  {
    hide NaiveDelta, Mul, Add, Sub, Div, Round, MaxFinite, Discriminant;
    FiniteBelow(Double);
    DiscriminantExpanded(6.0, -33.0, 45.0);
    NaiveDeltaExact(Double, 6.0, -33.0, 45.0);
    SmallRoots(sqrt);
    SubExact(Double, 33.0, 3.0);
    AddExact(Double, 33.0, 3.0);
    DivExact(Double, 30.0, 12.0);
    DivExact(Double, 36.0, 12.0);
  }

  /** A sum that fits the format is computed exactly. */
  lemma AddExact(t: FloatType, u: real, v: real)
    requires Abs(u + v) <= MaxFinite(t)
    ensures Add(t, Fin(u), Fin(v)) == Fin(u + v)
  {
  }

  /** A quotient by a non-zero value that fits the format is computed exactly. */
  lemma DivExact(t: FloatType, u: real, v: real)
    requires v != 0.0 && Abs(u / v) <= MaxFinite(t)
    ensures Div(t, Fin(u), Fin(v)) == Fin(u / v)
  {
  }

  /** Small values are finite in either format. */
  lemma FiniteBelow(t: FloatType)
    ensures 10000.0 <= MaxFinite(t)
  {
  }

  /** A solve that ends in TWO_REAL with the roots v, w, or in
      OVER_UNDER_FLOW, matches the reference's exact (TWO_REAL, v, w) exactly
      when it is TWO_REAL. */
  lemma SameAsExact(s: SolverState, p: Fp, q: Fp, v: real, w: real)
    requires s == TwoReal || s == OverUnderFlow
    requires s == TwoReal ==> p == Fin(v) && q == Fin(w)
    ensures IsSameResult(s, p, q, TwoReal, Fin(v), Fin(w)) <==> s == TwoReal
  {
  }

  /** Two finite roots pass the over/underflow check. */
  lemma FinalisedTwoReal(v: real, w: real)
    ensures Finalised(TwoReal, Fin(v), Fin(w)) == TwoReal
  {
  }

  // ---------------------------------------------------------------------------
  // The solver's exact outcome on the two equations

  /** 2^0, 2^1, 2^4 and 2^-3. */
  lemma TinyPowers()
    ensures Pow2(0) == 1.0 && Pow2(1) == 2.0 && Pow2(4) == 16.0 && Pow2(-3) == 0.125
  {
    assert NatPow2(1) == 2.0;
    assert NatPow2(2) == 4.0;
    assert NatPow2(3) == 8.0;
    assert NatPow2(4) == 16.0;
  }

  /** A small mantissa root scaled back by 2^0 and then by 2^e1, for e1 of
      1 or 3, is computed exactly. */
  lemma SmallRescaled(y: real, e1: int, p: real)
    requires (e1 == 1 && p == 2.0) || (e1 == 3 && p == 8.0)
    requires Abs(y) <= 100.0
    ensures Rescaled(Double, y, 0, e1) == Fin(y * p)
  {
    hide MaxFinite, Mul, Pow2;
    TinyPowers();
    SmallPowers();
    FiniteBelow(Double);
    ExponentRange();
    Pow2FpNormal(Double, 0);
    Pow2FpNormal(Double, e1);
    MulExact(Double, y, 1.0);
    MulExact(Double, y, p);
  }

  /** frexp of 1 and -9: 0.5 * 2^1 and -9/16 * 2^4. */
  lemma PureQuadraticFrexp()
    ensures Frexp(1.0) == Decomposed(0.5, 1)
    ensures Frexp(-9.0) == Decomposed(-9.0 / 16.0, 4)
  {
    hide Frexp, Pow2;
    TinyPowers();
    FrexpIs(1.0, 0.5, 1);
    FrexpIs(-9.0, -9.0 / 16.0, 4);
  }

  /** `sqrt_minus_c_div_a` on x^2 - 9: ecp == 3, so c3 == -9/8, m == 1 and
      the root is sqrt(9/4) * 2 == 3. */
  lemma PureQuadraticRoot(sqrt: real -> real)
    requires IsSqrt(sqrt)
    ensures SqrtMinusCDivAOutcome(Double, sqrt, 1.0, -9.0) == Outcome(TwoReal, Fin(-3.0), Fin(3.0))
  {
    hide Frexp, Pow2, Rescaled;
    PureQuadraticFrexp();
    TinyPowers();
    ExponentRange();
    assert KeptExponent(Double, 1) == (1, 0);
    SqrtFacts(sqrt, 2.25);
    SqrtUnique(sqrt(2.25), 1.5);
    assert -(-9.0 / 16.0 * Pow2(1)) / 0.5 == 2.25;
    SmallRescaled(1.5, 1, 2.0);
  }

  /** The solver's outcome on x^2 - 9 == 0 at `double`, whatever the slots
      held: TWO_REAL with the roots -3 and 3, as the drivers expect. */
  lemma PureQuadraticOutcome(sqrt: real -> real, o1: Fp, o2: Fp)
    requires IsSqrt(sqrt)
    ensures SolveOutcome(Double, sqrt, Fin(1.0), Fin(0.0), Fin(-9.0), o1, o2) == Outcome(TwoReal, Fin(-3.0), Fin(3.0))
  {
    hide SqrtMinusCDivAOutcome;
    PureQuadraticRoot(sqrt);
  }

  /** The in-band evaluation of 6x^2 - 33x + 45: cp == 45/512, the mantissa
      discriminant is 9/4096, sign(b) == -1 and sqrt(delta) == 3/64, so the
      mantissa roots are 5/16 and 3/8, and scaled back by 2^3 they are 2.5
      and 3. */
  lemma CompleteInBand(sqrt: real -> real)
    requires IsSqrt(sqrt)
    ensures InBandOutcome(Double, sqrt, Fin(-33.0), 0.75, -33.0 / 64.0, 45.0 / 64.0, 3, 6, 6, 3, 0)
            == Outcome(TwoReal, Fin(2.5), Fin(3.0))
  {
    hide Pow2, Rescaled;
    TinyPowers();
    var cp := 45.0 / 64.0 * Pow2(6 + (3 - 2 * 6));
    assert cp == 45.0 / 512.0;
    var delta := Discriminant(0.75, -33.0 / 64.0, cp);
    assert delta == 9.0 / 4096.0;
    SqrtFacts(sqrt, delta);
    SqrtUnique(sqrt(delta), 3.0 / 64.0);
    var r := sqrt(delta);
    var sb := Sign(Fin(-33.0)) as real;
    assert sb == -1.0;
    RescaledOfEqual(Double, -(2.0 * cp) / (-33.0 / 64.0 + sb * r), 5.0 / 16.0, 0, 3);
    RescaledOfEqual(Double, -(-33.0 / 64.0 + sb * r) / (2.0 * 0.75), 3.0 / 8.0, 0, 3);
    SmallRescaled(5.0 / 16.0, 3, 8.0);
    SmallRescaled(3.0 / 8.0, 3, 8.0);
  }

  /** The solver's outcome on 6x^2 - 33x + 45 == 0 at `double`, whatever the
      slots held: TWO_REAL with the roots 2.5 and 3, ascending, as the drivers
      expect. */
  lemma CompleteOutcomeExample(sqrt: real -> real, o1: Fp, o2: Fp)
    requires IsSqrt(sqrt)
    ensures SolveOutcome(Double, sqrt, Fin(6.0), Fin(-33.0), Fin(45.0), o1, o2) == Outcome(TwoReal, Fin(2.5), Fin(3.0))
  {
    hide Frexp, InBandOutcome;
    ExampleFrexp();
    FormatConstants();
    ExponentRange();
    assert KeptExponent(Double, 3) == (3, 0);
    CompleteInBand(sqrt);
  }

  /** x^2 - 9 == 0 solved by the solver at `double` and by the reference,
      as the drivers compare them: the solve ends in TWO_REAL with the roots
      -3 and 3, and it matches the reference. */
  method SolvePureQuadraticExample(sqrt: real -> real) returns (s: SolverState, r1: Fp, r2: Fp, same: bool)
    requires IsSqrt(sqrt)
    ensures s == TwoReal && r1 == Fin(-3.0) && r2 == Fin(3.0)
    ensures same
  {
    hide NaiveSolver, IsSameResult, Finalised, NaiveDelta, Mul, Add, Sub, Div, Round, MaxFinite;
    NaivePureQuadratic(sqrt);
    FinalisedTwoReal(-3.0, 3.0);
    var solver := new QuadtraticEquationSolver(Double, Fin(1.0), Fin(0.0), Fin(-9.0));
    s, r1, r2 := solver.Solve(sqrt);
    PureQuadraticOutcome(sqrt, Zero, Zero);
    var u, x1, x2 := TestHarness.NaiveSolver(Double, sqrt, Fin(1.0), Fin(0.0), Fin(-9.0));
    assert u == TwoReal && x1 == Fin(-3.0) && x2 == Fin(3.0);
    SameAsExact(s, r1, r2, -3.0, 3.0);
    same := IsSameResult(s, r1, r2, u, x1, x2);
  }

  /** 6x^2 - 33x + 45 == 0 solved by the solver at `double` and by the
      reference: the solve ends in TWO_REAL with the roots 2.5 and 3, and it
      matches the reference. */
  method SolveCompleteExample(sqrt: real -> real) returns (s: SolverState, r1: Fp, r2: Fp, same: bool)
    requires IsSqrt(sqrt)
    ensures s == TwoReal && r1 == Fin(2.5) && r2 == Fin(3.0)
    ensures same
  {
    hide NaiveSolver, IsSameResult, Finalised, NaiveDelta, Mul, Add, Sub, Div, Round, MaxFinite;
    hide CompleteResult, Frexp, Ecp, BandOf, Textbook, ExactState, Discriminant;
    NaiveComplete(sqrt);
    FinalisedTwoReal(2.5, 3.0);
    var solver := new QuadtraticEquationSolver(Double, Fin(6.0), Fin(-33.0), Fin(45.0));
    s, r1, r2 := solver.Solve(sqrt);
    CompleteOutcomeExample(sqrt, Zero, Zero);
    var u, x1, x2 := TestHarness.NaiveSolver(Double, sqrt, Fin(6.0), Fin(-33.0), Fin(45.0));
    assert u == TwoReal && x1 == Fin(2.5) && x2 == Fin(3.0);
    SameAsExact(s, r1, r2, 2.5, 3.0);
    same := IsSameResult(s, r1, r2, u, x1, x2);
  }
}
