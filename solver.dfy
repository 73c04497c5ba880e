/** The template class `QuadtraticEquationSolver<T>` of QuadraticEquationSolver.h:
    a solver object holds the coefficients a, b, c of a*x^2 + b*x + c == 0,
    the two root slots x1, x2 and the state of the last solve. The format T is
    the constant `t`; the square root of `std::sqrt` is the parameter `sqrt`.
    The mantissa arithmetic of the complete case is exact; what can overflow
    (the rescaling by powers of two and the divisions of the simple cases) is
    modelled with the format's largest finite value. */
module QuadraticEquationSolver {
  import opened FloatingPoint
  import opened SolverSpec
  import opened SolverAlgebra
  import opened SolverCases

  /** The `sign` macro: -1 below zero, else 1 (also for NaN, since NaN < 0 is
      false). */
  function Sign(x: Fp): (r: int)
    ensures r == -1 || r == 1
    ensures r == -1 <==> Lt(x, Zero)
  {
    if Lt(x, Zero) then -1 else 1
  }

  /** The `is_invalid_input` macro: NaN or an infinity. */
  predicate IsInvalidInput(x: Fp): (r: bool)
    ensures r <==> !x.Fin?
  {
    x.NaN? || x.Inf?
  }

  /** For non-zero finite values, equal signs mean a positive product. */
  lemma SignMatchesProduct(x: Fp, y: Fp)
    requires x.Fin? && y.Fin? && x.val != 0.0 && y.val != 0.0
    ensures Sign(x) == Sign(y) <==> x.val * y.val > 0.0
    ensures Sign(x) == Sign(y) <==> (x.val < 0.0) == (y.val < 0.0)
  {
    SameSign(x.val, y.val);
  }

  /** A NaN takes the sign of a positive value. */
  lemma SignOfNaN()
    ensures Sign(NaN) == Sign(Fin(1.0)) == 1
    ensures Sign(Fin(-1.0)) == -1
  {
  }

  /** The invalid inputs are exactly the values that are not finite. */
  lemma InvalidInputMeansNotFinite(x: Fp)
    ensures IsInvalidInput(x) <==> !x.Fin?
  {
  }

  /** The static `print_solver_state(SolverState s)`, over the enum's
      underlying integer: each enumerator gives its own name, any other value
      "UNKNOWN_ERROR". */
  function PrintSolverState(code: int): (name: string)
    ensures 0 <= code < 7 ==> name == StateName(StateOf(code))
    ensures !(0 <= code < 7) ==> name == UnknownName
  {
    if 0 <= code < 7 then StateName(StateOf(code)) else UnknownName
  }

  /** Every enumerator prints as a name of its own, never as the unknown one. */
  lemma PrintedNamesDistinct(s: SolverState, u: SolverState)
    ensures PrintSolverState(Ordinal(s)) != UnknownName
    ensures s != u ==> PrintSolverState(Ordinal(s)) != PrintSolverState(Ordinal(u))
  {
    OrdinalRoundTrip(s);
    OrdinalRoundTrip(u);
    assert s != u ==> StateName(s) != StateName(u);
  }

  /** x / y and x * y are non-zero for non-zero x, y. */
  lemma NonZeroQuotient(x: real, y: real)
    requires x != 0.0 && y != 0.0
    ensures x / y != 0.0 && x * y != 0.0
  {
    if x / y == 0.0 {
      assert x == (x / y) * y;
    }
  }

  /** -b / a is negative exactly when a and b have the same sign. */
  lemma QuotientSign(a: real, b: real)
    requires a != 0.0 && b != 0.0
    ensures -b / a < 0.0 <==> (a < 0.0) == (b < 0.0)
  {
    var q := -b / a;
    assert q * a == -b;
    if a > 0.0 {
      ProductSign(q, a);
    } else {
      ProductSign(-q, -a);
      assert (-q) * (-a) == q * a;
    }
  }

  /** The quotients of the two-root branch inside the band: with sb the sign
      of b (and of its mantissa b2) and r = sqrt(delta) for delta > 0, the
      denominator b2 + sb r is non-zero, and so are both mantissa roots. */
  lemma InBandQuotients(sqrt: real -> real, b: real, a2: real, b2: real, cp: real, delta: real,
                        sb: real, r: real)
    requires IsSqrt(sqrt) && a2 != 0.0 && b2 != 0.0 && cp != 0.0 && (b2 < 0.0 <==> b < 0.0)
    requires sb == (if b < 0.0 then -1.0 else 1.0)
    requires delta == Discriminant(a2, b2, cp) && delta > 0.0 && r == sqrt(delta)
    ensures b2 + sb * r != 0.0
    ensures -(2.0 * cp) / (b2 + sb * r) != 0.0 && -(b2 + sb * r) / (2.0 * a2) != 0.0
  {
    SqrtFacts(sqrt, delta);
    if b < 0.0 {
      assert sb * b2 == -b2;
    }
    MantissaRoots(a2, b2, cp, sb, r);
    NonZeroQuotient(-(2.0 * cp), b2 + sb * r);
    NonZeroQuotient(-(b2 + sb * r), 2.0 * a2);
  }

  /** The square root of a positive real is positive. */
  lemma SqrtOfPositive(sqrt: real -> real, u: real)
    requires IsSqrt(sqrt) && u > 0.0
    ensures sqrt(u) > 0.0
  {
    SqrtFacts(sqrt, u);
  }

  // ---------------------------------------------------------------------------
  // The solve as a function of its inputs: the exact (state, x1, x2) each
  // case leaves, value for value, beside the properties the cases promise

  /** `solve_linear`'s outcome: the linear table. */
  function LinearOutcome(t: FloatType, b: Fp, c: Fp): (r: Outcome)
    ensures b.Fin? && c.Fin? ==> LinearResult(t, b.val, c.val, r.state, r.x1, r.x2)
  {
    if Eq(b, Zero) then
      if Eq(c, Zero) then Outcome(AllReal, PosInf, NegInf) else Outcome(NoRoot, NaN, NaN)
    else if Eq(c, Zero) then Outcome(OneReal, Zero, NaN)
    else Outcome(OneReal, Div(t, Neg(c), b), NaN)
  }

  /** `sqrt_minus_c_div_a`'s outcome: a pair of opposite roots. */
  function SqrtMinusCDivAOutcome(t: FloatType, sqrt: real -> real, a: real, c: real): (r: Outcome)
    requires a != 0.0
    ensures r.state == TwoReal && r.x1 == Neg(r.x2)
  {
    var da, dc := Frexp(a), Frexp(c);
    var ecp := dc.exp - da.exp;
    var c3 := dc.mant * Pow2(LowBit(ecp));
    MantissaBounds(a, da);
    var m := KeptExponent(t, ShiftRight1(ClearLowBit(ecp)));
    var x2 := Rescaled(t, sqrt(-c3 / da.mant), m.1, m.0);
    Outcome(TwoReal, Neg(x2), x2)
  }

  /** `solve_axx_plus_c`'s outcome: the state is the exact classification
      of a x^2 + c == 0. */
  function AxxPlusCOutcome(t: FloatType, sqrt: real -> real, a: Fp, c: Fp): (r: Outcome)
    requires a.Fin? && c.Fin? && a.val != 0.0
    ensures r.state == OneReal <==> c.val == 0.0
    ensures r.state == NoRoot <==> a.val * c.val > 0.0
    ensures r.state == TwoReal <==> a.val * c.val < 0.0
    ensures r.state == OneReal ==> r.x1 == Zero && r.x2.NaN?
    ensures r.state == NoRoot ==> r.x1.NaN? && r.x2.NaN?
  {
    if Eq(c, Zero) then Outcome(OneReal, Zero, NaN)
    else
      SignMatchesProduct(a, c);
      if Sign(a) == Sign(c) then Outcome(NoRoot, NaN, NaN)
      else SqrtMinusCDivAOutcome(t, sqrt, a.val, c.val)
  }

  /** `solve_axx_plus_bx`'s outcome: 0 and -b/a, the smaller first. */
  function AxxPlusBxOutcome(t: FloatType, a: Fp, b: Fp): (r: Outcome)
    ensures a.Fin? && b.Fin? && a.val != 0.0 && b.val != 0.0 ==> AxxPlusBxResult(t, a.val, b.val, r.state, r.x1, r.x2)
  {
    if Sign(a) == Sign(b) then Outcome(TwoReal, Div(t, Neg(b), a), Zero)
    else Outcome(TwoReal, Zero, Div(t, Neg(b), a))
  }

  /** `solve_complete`'s outcome inside the band. */
  function InBandOutcome(t: FloatType, sqrt: real -> real, b: Fp, a2: real, b2: real, c2: real,
                         ea: int, eb: int, ec: int, k1: int, k2: int): (r: Outcome)
    requires IsSqrt(sqrt) && b.Fin? && a2 != 0.0 && b2 != 0.0 && c2 != 0.0 && (b2 < 0.0 <==> b.val < 0.0)
    ensures var delta := Discriminant(a2, b2, c2 * Pow2(ec + (ea - 2 * eb)));
      && (r.state == NoRoot <==> delta < 0.0)
      && (r.state == OneReal <==> delta == 0.0)
      && (r.state == TwoReal <==> delta > 0.0)
    ensures r.state == TwoReal && !r.x1.NaN? && !r.x2.NaN? ==> Le(r.x1, r.x2)
  {
    var cp := c2 * Pow2(ec + (ea - 2 * eb));
    var delta := Discriminant(a2, b2, cp);
    if delta < 0.0 then Outcome(NoRoot, NaN, NaN)
    else if delta > 0.0 then
      var sb := Sign(b) as real;
      var r := sqrt(delta);
      NonZeroQuotient(c2, Pow2(ec + (ea - 2 * eb)));
      InBandQuotients(sqrt, b.val, a2, b2, cp, delta, sb, r);
      var z1 := Rescaled(t, -(2.0 * cp) / (b2 + sb * r), k2, k1);
      var z2 := Rescaled(t, -(b2 + sb * r) / (2.0 * a2), k2, k1);
      var z := LowHigh(z1, z2);
      Outcome(TwoReal, z.0, z.1)
    else Outcome(OneReal, Rescaled(t, -b2 / (2.0 * a2), k2, k1), NaN)
  }

  /** `solve_complete`'s outcome below the band. */
  function BelowBandOutcome(t: FloatType, a2: real, b2: real, c2: real, ea: int, eb: int, ec: int,
                            k1: int, k2: int): (r: Outcome)
    requires a2 != 0.0 && b2 != 0.0
    ensures r.state == TwoReal
    ensures !r.x1.NaN? && !r.x2.NaN? ==> Le(r.x1, r.x2)
  {
    var ecp := ec + (ea - 2 * eb);
    var y := BelowBandRoots(a2, b2, c2, LowBit(ecp));
    var dm := KeptExponent(t, ClearLowBit(ecp) + (eb - ea));
    var z := LowHigh(Rescaled(t, y.0, k2, k1), Rescaled(t, y.1, dm.1, dm.0));
    Outcome(TwoReal, z.0, z.1)
  }

  /** The two mantissa roots below the band: y1 = -b2 / a2 and
      y2 = c3 / (a2 y1) with c3 = c2 2^e. */
  function BelowBandRoots(a2: real, b2: real, c2: real, e: int): (real, real)
    requires a2 != 0.0 && b2 != 0.0
  {
    var y1 := -b2 / a2;
    NonZeroQuotient(-b2, a2);
    NonZeroQuotient(a2, y1);
    (y1, OverProduct(c2 * Pow2(e), a2, y1))
  }

  /** c3 / (a2 y1), the second below-band root. */
  function OverProduct(c3: real, a2: real, y1: real): real
    requires a2 * y1 != 0.0
  {
    c3 / (a2 * y1)
  }

  /** The roots the below-band method computes are `BelowBandRoots`. */
  lemma BelowBandRootsAre(a2: real, b2: real, c2: real, e: int, c3: real, y1: real, y2: real)
    requires a2 != 0.0 && b2 != 0.0 && c3 == c2 * Pow2(e) && y1 == -b2 / a2 && y2 == c3 / (a2 * y1)
    ensures (y1, y2) == BelowBandRoots(a2, b2, c2, e)
  {
    hide Pow2;
    NonZeroQuotient(-b2, a2);
    NonZeroQuotient(a2, y1);
    assert y2 == OverProduct(c3, a2, y1);
  }

  /** `solve_complete`'s outcome above the band. */
  function AboveBandOutcome(t: FloatType, sqrt: real -> real, a: Fp, c: Fp, a2: real, c2: real,
                            ea: int, eb: int, ec: int): (r: Outcome)
    requires a2 != 0.0
    ensures r.state == NoRoot <==> Sign(a) == Sign(c)
    ensures r.state == NoRoot || r.state == TwoReal
    ensures r.state == TwoReal ==> r.x1 == Neg(r.x2)
  {
    if Sign(a) == Sign(c) then Outcome(NoRoot, NaN, NaN)
    else
      var ecp := ec + (ea - 2 * eb);
      var c3 := c2 * Pow2(LowBit(ecp));
      var dm := KeptExponent(t, ShiftRight1(ClearLowBit(ecp)) + (eb - ea));
      var x2 := Rescaled(t, sqrt(Abs(c3 / a2)), dm.1, dm.0);
      Outcome(TwoReal, Neg(x2), x2)
  }

  /** `solve_complete`'s outcome: the decomposition picks the band. */
  function CompleteOutcome(t: FloatType, sqrt: real -> real, a: Fp, b: Fp, c: Fp): (r: Outcome)
    requires IsSqrt(sqrt)
    requires a.Fin? && b.Fin? && c.Fin? && a.val != 0.0 && b.val != 0.0 && c.val != 0.0
    ensures r.state == NoRoot || r.state == OneReal || r.state == TwoReal
    ensures r.state == NoRoot ==> r.x1.NaN? && r.x2.NaN?
    ensures r.state == OneReal ==> r.x2.NaN?
  {
    var da, db, dc := Frexp(a.val), Frexp(b.val), Frexp(c.val);
    SplitFacts(a.val, b.val, c.val, da.mant, db.mant, dc.mant, da.exp, db.exp, dc.exp);
    var ecp := dc.exp + (da.exp - 2 * db.exp);
    var k := KeptExponent(t, db.exp - da.exp);
    if EMin(t) <= ecp && ecp < EMax(t) then
      InBandOutcome(t, sqrt, b, da.mant, db.mant, dc.mant, da.exp, db.exp, dc.exp, k.0, k.1)
    else if ecp < EMin(t) then
      BelowBandOutcome(t, da.mant, db.mant, dc.mant, da.exp, db.exp, dc.exp, k.0, k.1)
    else
      AboveBandOutcome(t, sqrt, a, c, da.mant, dc.mant, da.exp, db.exp, dc.exp)
  }

  /** The private `solve()`'s outcome: non-finite coefficients leave the
      slots (o1, o2) as they were. */
  function CasesOutcome(t: FloatType, sqrt: real -> real, a: Fp, b: Fp, c: Fp, o1: Fp, o2: Fp): (r: Outcome)
    requires IsSqrt(sqrt)
    ensures r.state == InvalidInput <==> !(a.Fin? && b.Fin? && c.Fin?)
    ensures r.state == InvalidInput ==> r.x1 == o1 && r.x2 == o2
    ensures r.state != Uncertain && r.state != OverUnderFlow
  {
    if IsInvalidInput(a) || IsInvalidInput(b) || IsInvalidInput(c) then Outcome(InvalidInput, o1, o2)
    else if Eq(a, Zero) then LinearOutcome(t, b, c)
    else if Eq(b, Zero) then AxxPlusCOutcome(t, sqrt, a, c)
    else if Eq(c, Zero) then AxxPlusBxOutcome(t, a, b)
    else CompleteOutcome(t, sqrt, a, b, c)
  }

  /** The public `solve(s, r1, r2)`'s outcome: the case's, with the
      over/underflow check applied to its state. */
  function SolveOutcome(t: FloatType, sqrt: real -> real, a: Fp, b: Fp, c: Fp, o1: Fp, o2: Fp): (r: Outcome)
    requires IsSqrt(sqrt)
    ensures !(a.Fin? && b.Fin? && c.Fin?) ==> r == Outcome(InvalidInput, o1, o2)
  {
    var r := CasesOutcome(t, sqrt, a, b, c, o1, o2);
    Outcome(Finalised(r.state, r.x1, r.x2), r.x1, r.x2)
  }

  /** Solving is idempotent: solving the same coefficients again, with the
      slots the first solve left, leaves the same state and slots. Finite
      coefficients overwrite both slots whatever they held, and non-finite
      ones only mark the state. */
  lemma SolveIdempotent(t: FloatType, sqrt: real -> real, a: Fp, b: Fp, c: Fp, o1: Fp, o2: Fp)
    requires IsSqrt(sqrt)
    ensures var r := SolveOutcome(t, sqrt, a, b, c, o1, o2);
            SolveOutcome(t, sqrt, a, b, c, r.x1, r.x2) == r
  {
    hide CompleteOutcome, LinearOutcome, AxxPlusCOutcome, AxxPlusBxOutcome;
    var r := SolveOutcome(t, sqrt, a, b, c, o1, o2);
    if a.Fin? && b.Fin? && c.Fin? {
      assert CasesOutcome(t, sqrt, a, b, c, r.x1, r.x2) == CasesOutcome(t, sqrt, a, b, c, o1, o2);
    }
  }

  /** `SqrtMinusCDivAOutcome` in terms of the values the method computes. */
  lemma SqrtMinusCDivAOutcomeIs(t: FloatType, sqrt: real -> real, a: real, c: real, a2: real, c2: real,
                                ea: int, ec: int, m: int, e: int, c3: real, m1: int, m2: int, s: real, x2: Fp)
    requires a != 0.0 && Frexp(a) == Decomposed(a2, ea) && Frexp(c) == Decomposed(c2, ec)
    requires m == ShiftRight1(ClearLowBit(ec - ea)) && e == LowBit(ec - ea) && c3 == c2 * Pow2(e)
    requires (m1, m2) == KeptExponent(t, m) && s == sqrt(-c3 / a2)
    requires x2 == Rescaled(t, s, m2, m1)
    ensures SqrtMinusCDivAOutcome(t, sqrt, a, c) == Outcome(TwoReal, Neg(x2), x2)
  {
    hide FrexpPos, FrexpNeg, IsFrexp, Pow2, KeptExponent, Rescaled, Abs, Mul, Round, Pow2Fp, Neg, ShiftRight1, ClearLowBit, LowBit;
  }

  /** `InBandOutcome` with a positive discriminant, in terms of the values
      the method computes. */
  lemma InBandTwoRealOutcomeIs(t: FloatType, sqrt: real -> real, b: Fp, a2: real, b2: real, c2: real,
                               ea: int, eb: int, ec: int, k1: int, k2: int, cp: real, delta: real,
                               sb: real, r: real, y1: real, y2: real, z1: Fp, z2: Fp, x1: Fp, x2: Fp)
    requires IsSqrt(sqrt) && b.Fin? && a2 != 0.0 && b2 != 0.0 && c2 != 0.0 && (b2 < 0.0 <==> b.val < 0.0)
    requires cp == c2 * Pow2(ec + (ea - 2 * eb)) && delta == Discriminant(a2, b2, cp) && delta > 0.0
    requires sb == Sign(b) as real && r == sqrt(delta)
    requires y1 == -(2.0 * cp) / (b2 + sb * r) && y2 == -(b2 + sb * r) / (2.0 * a2)
    requires z1 == Rescaled(t, y1, k2, k1) && z2 == Rescaled(t, y2, k2, k1) && (x1, x2) == LowHigh(z1, z2)
    ensures InBandOutcome(t, sqrt, b, a2, b2, c2, ea, eb, ec, k1, k2) == Outcome(TwoReal, x1, x2)
  {
    hide Pow2, Discriminant, Rescaled, LowHigh;
  }

  /** `BelowBandOutcome` in terms of the values the method computes. */
  lemma BelowBandOutcomeIs(t: FloatType, a2: real, b2: real, c2: real, ea: int, eb: int, ec: int,
                           k1: int, k2: int, dm: int, e: int, c3: real, dm1: int, dm2: int, y1: real, y2: real,
                           z1: Fp, z2: Fp, x1: Fp, x2: Fp)
    requires a2 != 0.0 && b2 != 0.0
    requires dm == ClearLowBit(ec + (ea - 2 * eb)) && e == LowBit(ec + (ea - 2 * eb)) && c3 == c2 * Pow2(e)
    requires y1 == -b2 / a2 && y2 == c3 / (a2 * y1)
    requires (dm1, dm2) == KeptExponent(t, dm + (eb - ea))
    requires z1 == Rescaled(t, y1, k2, k1) && z2 == Rescaled(t, y2, dm2, dm1) && (x1, x2) == LowHigh(z1, z2)
    ensures BelowBandOutcome(t, a2, b2, c2, ea, eb, ec, k1, k2) == Outcome(TwoReal, x1, x2)
  {
    hide FrexpPos, FrexpNeg, IsFrexp, Pow2, KeptExponent, Rescaled, Abs, Mul, Round, Pow2Fp, Neg, ShiftRight1, ClearLowBit, LowBit, LowHigh;
    BelowBandRootsAre(a2, b2, c2, e, c3, y1, y2);
  }

  /** `AboveBandOutcome` for a and c of opposite signs, in terms of the
      values the method computes. */
  lemma AboveBandOutcomeIs(t: FloatType, sqrt: real -> real, a: Fp, c: Fp, a2: real, c2: real,
                           ea: int, eb: int, ec: int, m: int, e: int, c3: real, dm1: int, dm2: int,
                           s: real, x2: Fp)
    requires a2 != 0.0 && Sign(a) != Sign(c)
    requires m == ShiftRight1(ClearLowBit(ec + (ea - 2 * eb))) && e == LowBit(ec + (ea - 2 * eb))
    requires c3 == c2 * Pow2(e)
    requires (dm1, dm2) == KeptExponent(t, m + (eb - ea)) && s == sqrt(Abs(c3 / a2))
    requires x2 == Rescaled(t, s, dm2, dm1)
    ensures AboveBandOutcome(t, sqrt, a, c, a2, c2, ea, eb, ec) == Outcome(TwoReal, Neg(x2), x2)
  {
    hide FrexpPos, FrexpNeg, IsFrexp, Pow2, KeptExponent, Rescaled, Abs, Mul, Round, Pow2Fp, Neg, ShiftRight1, ClearLowBit, LowBit, Sign;
  }

  class QuadtraticEquationSolver {
    /** The template argument T. */
    const t: FloatType
    var a: Fp
    var b: Fp
    var c: Fp
    var x1: Fp
    var x2: Fp
    var state: SolverState

    /** The constructor: the coefficients, both slots 0, state UNCERTAIN. */
    constructor (t: FloatType, a: Fp, b: Fp, c: Fp)
      ensures this.t == t && this.a == a && this.b == b && this.c == c
      ensures x1 == Zero && x2 == Zero && state == Uncertain
    {
      this.t := t;
      this.a := a;
      this.b := b;
      this.c := c;
      x1 := Zero;
      x2 := Zero;
      state := Uncertain;
    }

    /** `invalid_input`: only the state changes. */
    method MarkInvalidInput()
      modifies this
      ensures state == InvalidInput
      ensures a == old(a) && b == old(b) && c == old(c) && x1 == old(x1) && x2 == old(x2)
    {
      state := InvalidInput;
    }

    /** `all_real`: every real is a root, reported as (+inf, -inf). */
    method MarkAllReal()
      modifies this
      ensures state == AllReal && x1 == PosInf && x2 == NegInf
      ensures a == old(a) && b == old(b) && c == old(c)
    {
      state := AllReal;
      x1 := PosInf;
      x2 := NegInf;
    }

    /** `no_root`: both slots NaN. */
    method MarkNoRoot()
      modifies this
      ensures state == NoRoot && x1 == NaN && x2 == NaN
      ensures a == old(a) && b == old(b) && c == old(c)
    {
      state := NoRoot;
      x1 := NaN;
      x2 := NaN;
    }

    /** `one_real(x)`: the root in x1, NaN in x2. */
    method MarkOneReal(x: Fp)
      modifies this
      ensures state == OneReal && x1 == x && x2 == NaN
      ensures a == old(a) && b == old(b) && c == old(c)
    {
      state := OneReal;
      x1 := x;
      x2 := NaN;
    }

    /** `low_high_sort`: y1, y2 in ascending order when y1 < y2, swapped
        otherwise (so also when either is NaN). */
    static method LowHighSort(y1: Fp, y2: Fp) returns (z1: Fp, z2: Fp)
      ensures (z1, z2) == LowHigh(y1, y2)
      ensures SortedPair(y1, y2, z1, z2)
    {
      if Lt(y1, y2) {
        z1, z2 := y1, y2;
      } else {
        z1, z2 := y2, y1;
      }
    }

    /** `keep_exponent`: splits m into m1 + m2 with m1 a normal exponent, so
        that `std::pow(2, m1)` is finite; m2 is zero when m itself is normal,
        and carries the excess below or above the normal range otherwise. */
    static method KeepExponent(t: FloatType, m: int) returns (m1: int, m2: int)
      ensures (m1, m2) == KeptExponent(t, m)
      ensures ExponentSplit(t, m, m1, m2)
    {
      ExponentRange();
      if MMin(t) <= m && m <= MMax(t) {
        m1, m2 := m, 0;
      } else if m < MMin(t) {
        m1, m2 := MMin(t), m - MMin(t);
      } else {
        m1, m2 := MMax(t), m - MMax(t);
      }
      Pow2FpNormal(t, m1);
    }

    /** `solve_linear` (a == 0). */
    method SolveLinear()
      requires b.Fin? && c.Fin?
      modifies this
      ensures a == old(a) && b == old(b) && c == old(c)
      ensures LinearResult(t, b.val, c.val, state, x1, x2)
      ensures Outcome(state, x1, x2) == LinearOutcome(t, b, c)
    {
      if Eq(b, Zero) {
        if Eq(c, Zero) {
          MarkAllReal();
        } else {
          MarkNoRoot();
        }
      } else {
        if Eq(c, Zero) {
          MarkOneReal(Zero);
        } else {
          MarkOneReal(Div(t, Neg(c), b));
        }
      }
    }

    /** `sqrt_minus_c_div_a` (b == 0, a and c of opposite signs): s =
        sqrt(-c3 / a2) from the mantissas, rescaled by 2^m, m half the even
        part of ec - ea, in two steps. */
    method SqrtMinusCDivA(sqrt: real -> real)
      requires IsSqrt(sqrt)
      requires a.Fin? && c.Fin? && a.val != 0.0 && c.val != 0.0 && (a.val < 0.0) != (c.val < 0.0)
      modifies this
      ensures a == old(a) && b == old(b) && c == old(c)
      ensures AxxPlusCResult(sqrt, a.val, c.val, state, x1, x2)
      ensures Outcome(state, x1, x2) == SqrtMinusCDivAOutcome(t, sqrt, a.val, c.val)
    {
      hide Frexp, Pow2, NatPow2, IntPow2, AxxPlusCResult, SqrtMinusCDivAOutcome, KeptExponent, Rescaled;
      var da := Frexp(a.val);
      var dc := Frexp(c.val);
      var a2, ea := da.mant, da.exp;
      var c2, ec := dc.mant, dc.exp;
      var ecp := ec - ea;
      var m := ShiftRight1(ClearLowBit(ecp));
      var e := LowBit(ecp);
      var c3 := c2 * Pow2(e);
      MantissaBounds(a.val, da);
      MantissaBounds(c.val, dc);
      SameSign(a2, c2);
      NegatedQuotient(a2, c3, c2, Pow2(e));
      var s := sqrt(-c3 / a2);
      SqrtOfPositive(sqrt, -c3 / a2);
      var m1, m2 := KeepExponent(t, m);
      x2 := ScaleBack(t, s, m2, m1);
      x1 := Neg(x2);
      state := TwoReal;
      SolverCases.SqrtMinusCDivA(sqrt, a.val, c.val, a2, c2, ea, ec, m, e, m1, m2, s, x1, x2);
      SqrtMinusCDivAOutcomeIs(t, sqrt, a.val, c.val, a2, c2, ea, ec, m, e, c3, m1, m2, s, x2);
    }

    /** `solve_axx_plus_c` (b == 0). */
    method SolveAxxPlusC(sqrt: real -> real)
      requires IsSqrt(sqrt)
      requires a.Fin? && c.Fin? && a.val != 0.0
      modifies this
      ensures a == old(a) && b == old(b) && c == old(c)
      ensures AxxPlusCResult(sqrt, a.val, c.val, state, x1, x2)
      ensures Outcome(state, x1, x2) == AxxPlusCOutcome(t, sqrt, a, c)
    {
      if Eq(c, Zero) {
        MarkOneReal(Zero);
      } else {
        SignMatchesProduct(a, c);
        if Sign(a) == Sign(c) {
          MarkNoRoot();
        } else {
          SqrtMinusCDivA(sqrt);
        }
      }
    }

    /** `solve_axx_plus_bx` (c == 0): the roots 0 and -b / a, the negative
        one first. */
    method SolveAxxPlusBx()
      requires a.Fin? && b.Fin? && a.val != 0.0 && b.val != 0.0
      modifies this
      ensures a == old(a) && b == old(b) && c == old(c)
      ensures AxxPlusBxResult(t, a.val, b.val, state, x1, x2)
      ensures Outcome(state, x1, x2) == AxxPlusBxOutcome(t, a, b)
    {
      SignMatchesProduct(a, b);
      QuotientSign(a.val, b.val);
      if Sign(a) == Sign(b) {
        x1 := Div(t, Neg(b), a);
        x2 := Zero;
        state := TwoReal;
      } else {
        x1 := Zero;
        x2 := Div(t, Neg(b), a);
        state := TwoReal;
      }
    }

    /** `solve_complete` (a, b, c all non-zero). The coefficients are split
        into mantissas and exponents; the size of the constant term against
        b^2 / a, the exponent ecp, picks one of three evaluations, and every
        root is computed on the mantissas and then rescaled by powers of two
        that keep each `std::pow` finite. The three evaluations are the
        methods below. */
    method SolveComplete(sqrt: real -> real)
      requires IsSqrt(sqrt)
      requires a.Fin? && b.Fin? && c.Fin? && a.val != 0.0 && b.val != 0.0 && c.val != 0.0
      modifies this
      ensures a == old(a) && b == old(b) && c == old(c)
      ensures CompleteResult(t, sqrt, a.val, b.val, c.val, state, x1, x2)
      ensures Outcome(state, x1, x2) == CompleteOutcome(t, sqrt, a, b, c)
    {
      hide Frexp, Pow2, NatPow2, IntPow2, CompleteResult;
      var da, db, dc := Frexp(a.val), Frexp(b.val), Frexp(c.val);
      var a2, ea := da.mant, da.exp;
      var b2, eb := db.mant, db.exp;
      var c2, ec := dc.mant, dc.exp;
      assert Split(a.val, b.val, c.val, a2, b2, c2, ea, eb, ec);
      var k := eb - ea;
      var l := ea - 2 * eb;
      var ecp := ec + l;
      var k1, k2 := KeepExponent(t, k);
      if EMin(t) <= ecp && ecp < EMax(t) {
        SolveInBand(sqrt, a2, b2, c2, ea, eb, ec, k1, k2);
        return;
      }
      if ecp < EMin(t) {
        SolveBelowBand(sqrt, a2, b2, c2, ea, eb, ec, k1, k2);
        return;
      }
      SolveAboveBand(sqrt, a2, b2, c2, ea, eb, ec);
    }

    /** `solve_complete` for e_min <= ecp < e_max: the discriminant of the
        mantissa equation a2 y^2 + b2 y + c2 2^ecp decides the state, and the
        roots are the cancellation-free pair -2 cp / q, -q / 2 a2 with
        q = b2 + sign(b) sqrt(delta), or the double root -b2 / 2 a2, each
        scaled back by 2^k. */
    method SolveInBand(sqrt: real -> real, a2: real, b2: real, c2: real, ea: int, eb: int, ec: int,
                       k1: int, k2: int)
      requires IsSqrt(sqrt)
      requires a.Fin? && b.Fin? && c.Fin? && a.val != 0.0 && b.val != 0.0 && c.val != 0.0
      requires Split(a.val, b.val, c.val, a2, b2, c2, ea, eb, ec)
      requires EMin(t) <= ec + (ea - 2 * eb) < EMax(t) && k1 + k2 == eb - ea
      modifies this
      ensures a == old(a) && b == old(b) && c == old(c)
      ensures CompleteResult(t, sqrt, a.val, b.val, c.val, state, x1, x2)
      ensures Outcome(state, x1, x2) == InBandOutcome(t, sqrt, b, a2, b2, c2, ea, eb, ec, k1, k2)
    {
      hide Frexp, Pow2, NatPow2, IntPow2, Discriminant, CompleteResult, Le;
      var av, bv, cv := a.val, b.val, c.val;
      SplitFacts(av, bv, cv, a2, b2, c2, ea, eb, ec);
      var cp := c2 * Pow2(ec + (ea - 2 * eb));
      var delta := Discriminant(a2, b2, cp);
      if delta < 0.0 {
        MarkNoRoot();
        InBandNoRoot(t, sqrt, av, bv, cv, a2, b2, c2, ea, eb, ec, cp, delta);
        return;
      }
      if delta > 0.0 {
        SolveInBandTwoReal(sqrt, a2, b2, c2, ea, eb, ec, k1, k2, cp, delta);
        return;
      }
      NonZeroQuotient(-b2, 2.0 * a2);
      var z := ScaleBack(t, -b2 / (2.0 * a2), k2, k1);
      MarkOneReal(z);
      InBandOneReal(t, sqrt, av, bv, cv, a2, b2, c2, ea, eb, ec, cp, delta, k1, k2, x1);
    }

    /** The two-root branch of `solve_complete` inside the band: the root
        away from zero is (-b2 - sign(b) sqrt(delta)) / (2 a2), the other one
        is 2 cp over its denominator, and both are scaled back by 2^(eb - ea). */
    method SolveInBandTwoReal(sqrt: real -> real, a2: real, b2: real, c2: real, ea: int, eb: int, ec: int,
                              k1: int, k2: int, cp: real, delta: real)
      requires IsSqrt(sqrt)
      requires a.Fin? && b.Fin? && c.Fin? && a.val != 0.0 && b.val != 0.0 && c.val != 0.0
      requires Split(a.val, b.val, c.val, a2, b2, c2, ea, eb, ec)
      requires EMin(t) <= ec + (ea - 2 * eb) < EMax(t) && k1 + k2 == eb - ea
      requires cp == c2 * Pow2(ec + (ea - 2 * eb)) && delta == Discriminant(a2, b2, cp) && delta > 0.0
      modifies this
      ensures a == old(a) && b == old(b) && c == old(c)
      ensures CompleteResult(t, sqrt, a.val, b.val, c.val, state, x1, x2)
      ensures Outcome(state, x1, x2) == InBandOutcome(t, sqrt, b, a2, b2, c2, ea, eb, ec, k1, k2)
    {
      hide Frexp, Pow2, NatPow2, IntPow2, Discriminant, CompleteResult, Le, InBandOutcome, Rescaled, LowHigh;
      var av, bv, cv := a.val, b.val, c.val;
      SplitFacts(av, bv, cv, a2, b2, c2, ea, eb, ec);
      var sb := Sign(b) as real;
      var r := sqrt(delta);
      NonZeroQuotient(c2, Pow2(ec + (ea - 2 * eb)));
      InBandQuotients(sqrt, bv, a2, b2, cp, delta, sb, r);
      var y1 := -(2.0 * cp) / (b2 + sb * r);
      var y2 := -(b2 + sb * r) / (2.0 * a2);
      var z1 := ScaleBack(t, y1, k2, k1);
      var z2 := ScaleBack(t, y2, k2, k1);
      x1, x2 := LowHighSort(z1, z2);
      state := TwoReal;
      InBandTwoReal(t, sqrt, av, bv, cv, a2, b2, c2, ea, eb, ec, cp, delta, k1, k2, sb, r, y1, y2, z1, z2, x1, x2);
      InBandTwoRealOutcomeIs(t, sqrt, b, a2, b2, c2, ea, eb, ec, k1, k2, cp, delta, sb, r, y1, y2, z1, z2, x1, x2);
    }

    /** `solve_complete` for ecp < e_min: the constant term is negligible
        against b^2, so the roots are -b2 / a2 and c3 / (a2 y1), scaled back by
        2^k and by 2^(dm + k) respectively. */
    method SolveBelowBand(sqrt: real -> real, a2: real, b2: real, c2: real, ea: int, eb: int, ec: int,
                          k1: int, k2: int)
      requires a.Fin? && b.Fin? && c.Fin? && a.val != 0.0 && b.val != 0.0 && c.val != 0.0
      requires Split(a.val, b.val, c.val, a2, b2, c2, ea, eb, ec)
      requires ec + (ea - 2 * eb) < EMin(t) && k1 + k2 == eb - ea
      modifies this
      ensures a == old(a) && b == old(b) && c == old(c)
      ensures CompleteResult(t, sqrt, a.val, b.val, c.val, state, x1, x2)
      ensures Outcome(state, x1, x2) == BelowBandOutcome(t, a2, b2, c2, ea, eb, ec, k1, k2)
    {
      hide Frexp, Pow2, NatPow2, IntPow2, Discriminant, CompleteResult, Le, BelowBandOutcome, KeptExponent, Rescaled, LowHigh;
      var av, bv, cv := a.val, b.val, c.val;
      SplitFacts(av, bv, cv, a2, b2, c2, ea, eb, ec);
      var ecp := ec + (ea - 2 * eb);
      var dm := ClearLowBit(ecp);
      var e := LowBit(ecp);
      var c3 := c2 * Pow2(e);
      NonZeroQuotient(c2, Pow2(e));
      NonZeroQuotient(-b2, a2);
      var y1 := -b2 / a2;
      NonZeroQuotient(a2, y1);
      NonZeroQuotient(c3, a2 * y1);
      var y2 := c3 / (a2 * y1);
      var dm1, dm2 := KeepExponent(t, dm + (eb - ea));
      var z1 := ScaleBack(t, y1, k2, k1);
      var z2 := ScaleBack(t, y2, dm2, dm1);
      x1, x2 := LowHighSort(z1, z2);
      state := TwoReal;
      BelowBand(t, sqrt, av, bv, cv, a2, b2, c2, ea, eb, ec, k1, k2, dm, e, dm1, dm2, y1, y2, z1, z2, x1, x2);
      BelowBandOutcomeIs(t, a2, b2, c2, ea, eb, ec, k1, k2, dm, e, c3, dm1, dm2, y1, y2, z1, z2, x1, x2);
    }

    /** `solve_complete` for ecp >= e_max: the linear term is negligible, so
        there is no root when a and c share a sign and otherwise the pair
        -s, s with s = sqrt(|c3 / a2|) scaled back by 2^(m + k). */
    method SolveAboveBand(sqrt: real -> real, a2: real, b2: real, c2: real, ea: int, eb: int, ec: int)
      requires IsSqrt(sqrt)
      requires a.Fin? && b.Fin? && c.Fin? && a.val != 0.0 && b.val != 0.0 && c.val != 0.0
      requires Split(a.val, b.val, c.val, a2, b2, c2, ea, eb, ec)
      requires EMax(t) <= ec + (ea - 2 * eb)
      modifies this
      ensures a == old(a) && b == old(b) && c == old(c)
      ensures CompleteResult(t, sqrt, a.val, b.val, c.val, state, x1, x2)
      ensures Outcome(state, x1, x2) == AboveBandOutcome(t, sqrt, a, c, a2, c2, ea, eb, ec)
    {
      hide Frexp, Pow2, NatPow2, IntPow2, Discriminant, CompleteResult;
      var av, bv, cv := a.val, b.val, c.val;
      SplitFacts(av, bv, cv, a2, b2, c2, ea, eb, ec);
      var ecp := ec + (ea - 2 * eb);
      var m := ShiftRight1(ClearLowBit(ecp));
      var e := LowBit(ecp);
      var c3 := c2 * Pow2(e);
      NonZeroQuotient(c2, Pow2(e));
      SignMatchesProduct(a, c);
      if Sign(a) == Sign(c) {
        MarkNoRoot();
        AboveNoRoot(t, sqrt, av, bv, cv, a2, b2, c2, ea, eb, ec);
        return;
      }
      hide AboveBandOutcome, KeptExponent, Rescaled;
      var dm1, dm2 := KeepExponent(t, m + (eb - ea));
      NonZeroQuotient(c3, a2);
      var s := sqrt(Abs(c3 / a2));
      SqrtOfPositive(sqrt, Abs(c3 / a2));
      x2 := ScaleBack(t, s, dm2, dm1);
      x1 := Neg(x2);
      state := TwoReal;
      AboveTwoReal(t, sqrt, av, bv, cv, a2, b2, c2, ea, eb, ec, m, e, dm1, dm2, s, x1, x2);
      AboveBandOutcomeIs(t, sqrt, a, c, a2, c2, ea, eb, ec, m, e, c3, dm1, dm2, s, x2);
    }

    /** The private `solve()`: refuses NaN and infinite coefficients, then
        dispatches on the first zero coefficient. */
    method SolveCases(sqrt: real -> real)
      requires IsSqrt(sqrt)
      modifies this
      ensures a == old(a) && b == old(b) && c == old(c)
      ensures Solved(t, sqrt, a, b, c, state, x1, x2, old(x1), old(x2))
      ensures Outcome(state, x1, x2) == CasesOutcome(t, sqrt, a, b, c, old(x1), old(x2))
    {
      hide CompleteOutcome, LinearOutcome, AxxPlusCOutcome, AxxPlusBxOutcome, SqrtMinusCDivAOutcome, InBandOutcome, BelowBandOutcome, AboveBandOutcome;
      if IsInvalidInput(a) || IsInvalidInput(b) || IsInvalidInput(c) {
        MarkInvalidInput();
        return;
      }
      if Eq(a, Zero) {
        SolveLinear();
        return;
      }
      if Eq(b, Zero) {
        SolveAxxPlusC(sqrt);
        return;
      }
      if Eq(c, Zero) {
        SolveAxxPlusBx();
        return;
      }
      SolveComplete(sqrt);
    }

    /** The public `solve(r1, r2)`: solves, turns a one- or two-root result
        whose root is NaN or infinite into OVER_UNDER_FLOW, and hands back the
        state and both slots. */
    method Solve(sqrt: real -> real) returns (s: SolverState, r1: Fp, r2: Fp)
      requires IsSqrt(sqrt)
      modifies this
      ensures a == old(a) && b == old(b) && c == old(c)
      ensures Solved(t, sqrt, a, b, c, SolveState(a, b, c), x1, x2, old(x1), old(x2))
      ensures state == Finalised(SolveState(a, b, c), x1, x2)
      ensures state == TwoReal ==> Le(x1, x2)
      ensures s == state && r1 == x1 && r2 == x2
      ensures Outcome(state, x1, x2) == SolveOutcome(t, sqrt, a, b, c, old(x1), old(x2))
    {
      hide CompleteOutcome, LinearOutcome, AxxPlusCOutcome, AxxPlusBxOutcome, SqrtMinusCDivAOutcome, InBandOutcome, BelowBandOutcome, AboveBandOutcome, CasesOutcome;
      SolveCases(sqrt);
      SolvedState(t, sqrt, a, b, c, state, x1, x2, old(x1), old(x2));
      if (state == TwoReal && (IsInvalidInput(x1) || IsInvalidInput(x2))) || (state == OneReal && IsInvalidInput(x1)) {
        state := OverUnderFlow;
      }
      if state == TwoReal {
        SolverCases.OrderedTwoReal(t, sqrt, a, b, c, SolveState(a, b, c), x1, x2, old(x1), old(x2));
      }
      s, r1, r2 := state, x1, x2;
    }

    /** `reset`: new coefficients, both slots 0, state UNCERTAIN. */
    method Reset(a: Fp, b: Fp, c: Fp)
      modifies this
      ensures this.a == a && this.b == b && this.c == c
      ensures x1 == Zero && x2 == Zero && state == Uncertain
    {
      this.a := a;
      this.b := b;
      this.c := c;
      state := Uncertain;
      x1 := Zero;
      x2 := Zero;
    }

    /** The member `print_solver_state()`: the name of the current state. */
    method PrintState() returns (name: string)
      ensures name == StateName(state) && name != UnknownName
    {
      name := PrintSolverState(Ordinal(state));
      PrintedNamesDistinct(state, state);
      OrdinalRoundTrip(state);
    }
  }
}
