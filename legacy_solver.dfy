/** QuadraticEquationSolver.cpp: the non-template `QuadtraticEquationSolver`
    for `double`, written out by hand with its own format constants and its
    own copies of the helpers. Every operation is proved against the same
    specification as the template class (`SolverSpec`, instantiated at
    `Double`), and the constants are proved equal to the template's. */
module LegacySolver {
  import opened FloatingPoint
  import opened SolverSpec
  import opened SolverAlgebra
  import opened SolverCases
  import Template = QuadraticEquationSolver

  /** `n_bit_e` and `n_bit_f` of the double format. */
  const ExpBits: nat := 11
  const FracBits: nat := 52

  /** `m_max = (1 << (n_bit_e - 1)) - 1` and `m_min = 1 - m_max`. */
  const ExpMax: int := IntPow2(ExpBits - 1) - 1
  const ExpMin: int := 1 - ExpMax

  /** The band edges `e_min = m_min + 2 * n_bit_f - 4` and
      `e_max = m_max - 2 - (n_bit_f >> 1)` local to `solve_complete`. */
  const BandMin: int := ExpMin + 2 * FracBits - 4
  const BandMax: int := ExpMax - 2 - FracBits / 2

  /** The hand-written constants are those of the template at `double`. */
  lemma CppConstants()
    ensures ExpBits == NBitE(Double) && FracBits == NBitF(Double)
    ensures ExpMax == MMax(Double) == 1023 && ExpMin == MMin(Double) == -1022
    ensures BandMin == EMin(Double) == -922 && BandMax == EMax(Double) == 995
  {
    FormatConstants();
  }

  /** The file's `print_solver_state`: each enumerator's own name, and
      "UNKNOWN_ERROR" for any other value of the underlying integer. */
  function PrintSolverState(code: int): (name: string)
    ensures 0 <= code < 7 ==> name == StateName(StateOf(code))
    ensures !(0 <= code < 7) ==> name == UnknownName
  {
    if 0 <= code < 7 then StateName(StateOf(code)) else UnknownName
  }

  /** It prints what the template's does, for every code. */
  lemma PrintSolverStateAgrees(s: SolverState, code: int)
    ensures PrintSolverState(code) == Template.PrintSolverState(code)
    ensures PrintSolverState(Ordinal(s)) == StateName(s) != UnknownName
  {
    Template.PrintedNamesDistinct(s, s);
    OrdinalRoundTrip(s);
  }

  /** The static `sign`: -1 below zero, else 1 (also for NaN). */
  function Sign(x: Fp): (r: int)
    ensures r == -1 || r == 1
    ensures r == -1 <==> Lt(x, Zero)
    ensures r == Template.Sign(x)
  {
    if Lt(x, Zero) then -1 else 1
  }

  /** The static `is_invalid_input`: NaN or an infinity. */
  predicate IsInvalidInput(x: Fp): (r: bool)
    ensures r <==> !x.Fin?
  {
    x.NaN? || x.Inf?
  }

  /** Both copies of `is_invalid_input` refuse exactly the non-finite values. */
  lemma IsInvalidInputAgrees(x: Fp)
    ensures IsInvalidInput(x) <==> !x.Fin?
    ensures IsInvalidInput(x) == Template.IsInvalidInput(x)
  {
  }

  /** The static `low_high_sort`. */
  method LowHighSort(y1: Fp, y2: Fp) returns (z1: Fp, z2: Fp)
    ensures (z1, z2) == LowHigh(y1, y2)
    ensures SortedPair(y1, y2, z1, z2)
  {
    if Lt(y1, y2) {
      z1, z2 := y1, y2;
    } else {
      z1, z2 := y2, y1;
    }
  }

  /** The static `keep_exponent`, over the file's own m_min and m_max: the
      same split as the template's at `double`. */
  method KeepExponent(m: int) returns (m1: int, m2: int)
    ensures (m1, m2) == KeptExponent(Double, m)
    ensures ExponentSplit(Double, m, m1, m2)
  {
    CppConstants();
    if ExpMin <= m && m <= ExpMax {
      m1, m2 := m, 0;
    } else if m < ExpMin {
      m1, m2 := ExpMin, m - ExpMin;
    } else {
      m1, m2 := ExpMax, m - ExpMax;
    }
    Pow2FpNormal(Double, m1);
  }

  class QuadtraticEquationSolver {
    var a: Fp
    var b: Fp
    var c: Fp
    var x1: Fp
    var x2: Fp
    var state: SolverState

    /** The constructor: the coefficients, both slots 0, state UNCERTAIN. */
    constructor (a: Fp, b: Fp, c: Fp)
      ensures this.a == a && this.b == b && this.c == c
      ensures x1 == Zero && x2 == Zero && state == Uncertain
    {
      this.a := a;
      this.b := b;
      this.c := c;
      x1 := Zero;
      x2 := Zero;
      state := Uncertain;
    }

    /** `invalid_input`: only the state changes. */
    method MarkInvalidInput()
      modifies this
      ensures state == InvalidInput
      ensures a == old(a) && b == old(b) && c == old(c) && x1 == old(x1) && x2 == old(x2)
    {
      state := InvalidInput;
    }

    /** `all_real`: (+inf, -inf). */
    method MarkAllReal()
      modifies this
      ensures state == AllReal && x1 == PosInf && x2 == NegInf
      ensures a == old(a) && b == old(b) && c == old(c)
    {
      state := AllReal;
      x1 := PosInf;
      x2 := NegInf;
    }

    /** `no_root`: both slots NaN. */
    method MarkNoRoot()
      modifies this
      ensures state == NoRoot && x1 == NaN && x2 == NaN
      ensures a == old(a) && b == old(b) && c == old(c)
    {
      state := NoRoot;
      x1 := NaN;
      x2 := NaN;
    }

    /** `one_real(x)`: the root in x1, NaN in x2. */
    method MarkOneReal(x: Fp)
      modifies this
      ensures state == OneReal && x1 == x && x2 == NaN
      ensures a == old(a) && b == old(b) && c == old(c)
    {
      state := OneReal;
      x1 := x;
      x2 := NaN;
    }

    /** `solve_linear` (a == 0). */
    method SolveLinear()
      requires b.Fin? && c.Fin?
      modifies this
      ensures a == old(a) && b == old(b) && c == old(c)
      ensures LinearResult(Double, b.val, c.val, state, x1, x2)
      ensures Outcome(state, x1, x2) == Template.LinearOutcome(Double, b, c)
    {
      if Eq(b, Zero) {
        if Eq(c, Zero) {
          MarkAllReal();
        } else {
          MarkNoRoot();
        }
      } else {
        if Eq(c, Zero) {
          MarkOneReal(Zero);
        } else {
          MarkOneReal(Div(Double, Neg(c), b));
        }
      }
    }

    /** `sqrt_minus_c_div_a` (b == 0, a and c of opposite signs). */
    method SqrtMinusCDivA(sqrt: real -> real)
      requires IsSqrt(sqrt)
      requires a.Fin? && c.Fin? && a.val != 0.0 && c.val != 0.0 && (a.val < 0.0) != (c.val < 0.0)
      modifies this
      ensures a == old(a) && b == old(b) && c == old(c)
      ensures AxxPlusCResult(sqrt, a.val, c.val, state, x1, x2)
      ensures Outcome(state, x1, x2) == Template.SqrtMinusCDivAOutcome(Double, sqrt, a.val, c.val)
    {
      hide Frexp, Pow2, NatPow2, IntPow2, AxxPlusCResult, Template.SqrtMinusCDivAOutcome, KeptExponent, Rescaled;
      var da := Frexp(a.val);
      var dc := Frexp(c.val);
      var a2, ea := da.mant, da.exp;
      var c2, ec := dc.mant, dc.exp;
      var ecp := ec - ea;
      var m := ShiftRight1(ClearLowBit(ecp));
      var e := LowBit(ecp);
      var c3 := c2 * Pow2(e);
      MantissaBounds(a.val, da);
      MantissaBounds(c.val, dc);
      SameSign(a2, c2);
      NegatedQuotient(a2, c3, c2, Pow2(e));
      var s := sqrt(-c3 / a2);
      Template.SqrtOfPositive(sqrt, -c3 / a2);
      var m1, m2 := KeepExponent(m);
      x2 := ScaleBack(Double, s, m2, m1);
      x1 := Neg(x2);
      state := TwoReal;
      SolverCases.SqrtMinusCDivA(sqrt, a.val, c.val, a2, c2, ea, ec, m, e, m1, m2, s, x1, x2);
      Template.SqrtMinusCDivAOutcomeIs(Double, sqrt, a.val, c.val, a2, c2, ea, ec, m, e, c3, m1, m2, s, x2);
    }

    /** `solve_axx_plus_c` (b == 0). */
    method SolveAxxPlusC(sqrt: real -> real)
      requires IsSqrt(sqrt)
      requires a.Fin? && c.Fin? && a.val != 0.0
      modifies this
      ensures a == old(a) && b == old(b) && c == old(c)
      ensures AxxPlusCResult(sqrt, a.val, c.val, state, x1, x2)
      ensures Outcome(state, x1, x2) == Template.AxxPlusCOutcome(Double, sqrt, a, c)
    {
      if Eq(c, Zero) {
        MarkOneReal(Zero);
      } else {
        Template.SignMatchesProduct(a, c);
        if Sign(a) == Sign(c) {
          MarkNoRoot();
        } else {
          SqrtMinusCDivA(sqrt);
        }
      }
    }

    /** `solve_axx_plus_bx` (c == 0). */
    method SolveAxxPlusBx()
      requires a.Fin? && b.Fin? && a.val != 0.0 && b.val != 0.0
      modifies this
      ensures a == old(a) && b == old(b) && c == old(c)
      ensures AxxPlusBxResult(Double, a.val, b.val, state, x1, x2)
      ensures Outcome(state, x1, x2) == Template.AxxPlusBxOutcome(Double, a, b)
    {
      Template.SignMatchesProduct(a, b);
      Template.QuotientSign(a.val, b.val);
      if Sign(a) == Sign(b) {
        x1 := Div(Double, Neg(b), a);
        x2 := Zero;
        state := TwoReal;
      } else {
        x1 := Zero;
        x2 := Div(Double, Neg(b), a);
        state := TwoReal;
      }
    }

    /** `solve_complete`, with the file's own band edges; the no-root and
        one-root results are written into the fields directly rather than
        through `no_root` and `one_real`. */
    method SolveComplete(sqrt: real -> real)
      requires IsSqrt(sqrt)
      requires a.Fin? && b.Fin? && c.Fin? && a.val != 0.0 && b.val != 0.0 && c.val != 0.0
      modifies this
      ensures a == old(a) && b == old(b) && c == old(c)
      ensures CompleteResult(Double, sqrt, a.val, b.val, c.val, state, x1, x2)
      ensures Outcome(state, x1, x2) == Template.CompleteOutcome(Double, sqrt, a, b, c)
    {
      hide Frexp, Pow2, NatPow2, IntPow2, CompleteResult;
      var da, db, dc := Frexp(a.val), Frexp(b.val), Frexp(c.val);
      var a2, ea := da.mant, da.exp;
      var b2, eb := db.mant, db.exp;
      var c2, ec := dc.mant, dc.exp;
      assert Split(a.val, b.val, c.val, a2, b2, c2, ea, eb, ec);
      var k := eb - ea;
      var l := ea - 2 * eb;
      var ecp := ec + l;
      var k1, k2 := KeepExponent(k);
      CppConstants();
      if BandMin <= ecp && ecp < BandMax {
        SolveInBand(sqrt, a2, b2, c2, ea, eb, ec, k1, k2);
        return;
      }
      if ecp < BandMin {
        SolveBelowBand(sqrt, a2, b2, c2, ea, eb, ec, k1, k2);
        return;
      }
      SolveAboveBand(sqrt, a2, b2, c2, ea, eb, ec);
    }

    /** `solve_complete` for e_min <= ecp < e_max. */
    method SolveInBand(sqrt: real -> real, a2: real, b2: real, c2: real, ea: int, eb: int, ec: int,
                       k1: int, k2: int)
      requires IsSqrt(sqrt)
      requires a.Fin? && b.Fin? && c.Fin? && a.val != 0.0 && b.val != 0.0 && c.val != 0.0
      requires Split(a.val, b.val, c.val, a2, b2, c2, ea, eb, ec)
      requires EMin(Double) <= ec + (ea - 2 * eb) < EMax(Double) && k1 + k2 == eb - ea
      modifies this
      ensures a == old(a) && b == old(b) && c == old(c)
      ensures CompleteResult(Double, sqrt, a.val, b.val, c.val, state, x1, x2)
      ensures Outcome(state, x1, x2) == Template.InBandOutcome(Double, sqrt, b, a2, b2, c2, ea, eb, ec, k1, k2)
    {
      hide Frexp, Pow2, NatPow2, IntPow2, Discriminant, CompleteResult, Le;
      var av, bv, cv := a.val, b.val, c.val;
      SplitFacts(av, bv, cv, a2, b2, c2, ea, eb, ec);
      var cp := c2 * Pow2(ec + (ea - 2 * eb));
      var delta := Discriminant(a2, b2, cp);
      if delta < 0.0 {
        x1 := NaN;
        x2 := NaN;
        state := NoRoot;
        InBandNoRoot(Double, sqrt, av, bv, cv, a2, b2, c2, ea, eb, ec, cp, delta);
        return;
      }
      if delta > 0.0 {
        SolveInBandTwoReal(sqrt, a2, b2, c2, ea, eb, ec, k1, k2, cp, delta);
        return;
      }
      Template.NonZeroQuotient(-b2, 2.0 * a2);
      x1 := ScaleBack(Double, -b2 / (2.0 * a2), k2, k1);
      x2 := NaN;
      state := OneReal;
      InBandOneReal(Double, sqrt, av, bv, cv, a2, b2, c2, ea, eb, ec, cp, delta, k1, k2, x1);
    }

    /** The two-root branch of `solve_complete` inside the band. */
    method SolveInBandTwoReal(sqrt: real -> real, a2: real, b2: real, c2: real, ea: int, eb: int, ec: int,
                              k1: int, k2: int, cp: real, delta: real)
      requires IsSqrt(sqrt)
      requires a.Fin? && b.Fin? && c.Fin? && a.val != 0.0 && b.val != 0.0 && c.val != 0.0
      requires Split(a.val, b.val, c.val, a2, b2, c2, ea, eb, ec)
      requires EMin(Double) <= ec + (ea - 2 * eb) < EMax(Double) && k1 + k2 == eb - ea
      requires cp == c2 * Pow2(ec + (ea - 2 * eb)) && delta == Discriminant(a2, b2, cp) && delta > 0.0
      modifies this
      ensures a == old(a) && b == old(b) && c == old(c)
      ensures CompleteResult(Double, sqrt, a.val, b.val, c.val, state, x1, x2)
      ensures Outcome(state, x1, x2) == Template.InBandOutcome(Double, sqrt, b, a2, b2, c2, ea, eb, ec, k1, k2)
    {
      hide Frexp, Pow2, NatPow2, IntPow2, Discriminant, CompleteResult, Le, Template.InBandOutcome, Rescaled, LowHigh;
      var av, bv, cv := a.val, b.val, c.val;
      SplitFacts(av, bv, cv, a2, b2, c2, ea, eb, ec);
      var sb := Sign(b) as real;
      var r := sqrt(delta);
      Template.NonZeroQuotient(c2, Pow2(ec + (ea - 2 * eb)));
      Template.InBandQuotients(sqrt, bv, a2, b2, cp, delta, sb, r);
      var y1 := -(2.0 * cp) / (b2 + sb * r);
      var y2 := -(b2 + sb * r) / (2.0 * a2);
      var z1 := ScaleBack(Double, y1, k2, k1);
      var z2 := ScaleBack(Double, y2, k2, k1);
      x1, x2 := LowHighSort(z1, z2);
      state := TwoReal;
      InBandTwoReal(Double, sqrt, av, bv, cv, a2, b2, c2, ea, eb, ec, cp, delta, k1, k2, sb, r, y1, y2, z1, z2, x1, x2);
      Template.InBandTwoRealOutcomeIs(Double, sqrt, b, a2, b2, c2, ea, eb, ec, k1, k2, cp, delta, sb, r, y1, y2, z1, z2, x1, x2);
    }

    /** `solve_complete` for ecp < e_min. */
    method SolveBelowBand(sqrt: real -> real, a2: real, b2: real, c2: real, ea: int, eb: int, ec: int,
                          k1: int, k2: int)
      requires a.Fin? && b.Fin? && c.Fin? && a.val != 0.0 && b.val != 0.0 && c.val != 0.0
      requires Split(a.val, b.val, c.val, a2, b2, c2, ea, eb, ec)
      requires ec + (ea - 2 * eb) < EMin(Double) && k1 + k2 == eb - ea
      modifies this
      ensures a == old(a) && b == old(b) && c == old(c)
      ensures CompleteResult(Double, sqrt, a.val, b.val, c.val, state, x1, x2)
      ensures Outcome(state, x1, x2) == Template.BelowBandOutcome(Double, a2, b2, c2, ea, eb, ec, k1, k2)
    {
      hide Frexp, Pow2, NatPow2, IntPow2, Discriminant, CompleteResult, Le, Template.BelowBandOutcome, KeptExponent, Rescaled, LowHigh;
      var av, bv, cv := a.val, b.val, c.val;
      SplitFacts(av, bv, cv, a2, b2, c2, ea, eb, ec);
      var ecp := ec + (ea - 2 * eb);
      var dm := ClearLowBit(ecp);
      var e := LowBit(ecp);
      var c3 := c2 * Pow2(e);
      Template.NonZeroQuotient(c2, Pow2(e));
      Template.NonZeroQuotient(-b2, a2);
      var y1 := -b2 / a2;
      Template.NonZeroQuotient(a2, y1);
      Template.NonZeroQuotient(c3, a2 * y1);
      var y2 := c3 / (a2 * y1);
      var dm1, dm2 := KeepExponent(dm + (eb - ea));
      var z1 := ScaleBack(Double, y1, k2, k1);
      var z2 := ScaleBack(Double, y2, dm2, dm1);
      x1, x2 := LowHighSort(z1, z2);
      state := TwoReal;
      BelowBand(Double, sqrt, av, bv, cv, a2, b2, c2, ea, eb, ec, k1, k2, dm, e, dm1, dm2, y1, y2, z1, z2, x1, x2);
      Template.BelowBandOutcomeIs(Double, a2, b2, c2, ea, eb, ec, k1, k2, dm, e, c3, dm1, dm2, y1, y2, z1, z2, x1, x2);
    }

    /** `solve_complete` for ecp >= e_max. */
    method SolveAboveBand(sqrt: real -> real, a2: real, b2: real, c2: real, ea: int, eb: int, ec: int)
      requires IsSqrt(sqrt)
      requires a.Fin? && b.Fin? && c.Fin? && a.val != 0.0 && b.val != 0.0 && c.val != 0.0
      requires Split(a.val, b.val, c.val, a2, b2, c2, ea, eb, ec)
      requires EMax(Double) <= ec + (ea - 2 * eb)
      modifies this
      ensures a == old(a) && b == old(b) && c == old(c)
      ensures CompleteResult(Double, sqrt, a.val, b.val, c.val, state, x1, x2)
      ensures Outcome(state, x1, x2) == Template.AboveBandOutcome(Double, sqrt, a, c, a2, c2, ea, eb, ec)
    {
      hide Frexp, Pow2, NatPow2, IntPow2, Discriminant, CompleteResult;
      var av, bv, cv := a.val, b.val, c.val;
      SplitFacts(av, bv, cv, a2, b2, c2, ea, eb, ec);
      var ecp := ec + (ea - 2 * eb);
      var m := ShiftRight1(ClearLowBit(ecp));
      var e := LowBit(ecp);
      var c3 := c2 * Pow2(e);
      Template.NonZeroQuotient(c2, Pow2(e));
      Template.SignMatchesProduct(a, c);
      if Sign(a) == Sign(c) {
        x1 := NaN;
        x2 := NaN;
        state := NoRoot;
        AboveNoRoot(Double, sqrt, av, bv, cv, a2, b2, c2, ea, eb, ec);
        return;
      }
      hide Template.AboveBandOutcome, KeptExponent, Rescaled;
      var dm1, dm2 := KeepExponent(m + (eb - ea));
      Template.NonZeroQuotient(c3, a2);
      var s := sqrt(Abs(c3 / a2));
      Template.SqrtOfPositive(sqrt, Abs(c3 / a2));
      x2 := ScaleBack(Double, s, dm2, dm1);
      x1 := Neg(x2);
      state := TwoReal;
      AboveTwoReal(Double, sqrt, av, bv, cv, a2, b2, c2, ea, eb, ec, m, e, dm1, dm2, s, x1, x2);
      Template.AboveBandOutcomeIs(Double, sqrt, a, c, a2, c2, ea, eb, ec, m, e, c3, dm1, dm2, s, x2);
    }

    /** The private `solve()`. */
    method SolveCases(sqrt: real -> real)
      requires IsSqrt(sqrt)
      modifies this
      ensures a == old(a) && b == old(b) && c == old(c)
      ensures Solved(Double, sqrt, a, b, c, state, x1, x2, old(x1), old(x2))
      ensures Outcome(state, x1, x2) == Template.CasesOutcome(Double, sqrt, a, b, c, old(x1), old(x2))
    {
      hide Template.CompleteOutcome, Template.LinearOutcome, Template.AxxPlusCOutcome, Template.AxxPlusBxOutcome, Template.SqrtMinusCDivAOutcome, Template.InBandOutcome, Template.BelowBandOutcome, Template.AboveBandOutcome;
      if IsInvalidInput(a) || IsInvalidInput(b) || IsInvalidInput(c) {
        MarkInvalidInput();
        return;
      }
      if Eq(a, Zero) {
        SolveLinear();
        return;
      }
      if Eq(b, Zero) {
        SolveAxxPlusC(sqrt);
        return;
      }
      if Eq(c, Zero) {
        SolveAxxPlusBx();
        return;
      }
      SolveComplete(sqrt);
    }

    /** The public `solve(s, r1, r2)`: the same contract as the template's at
        `double`. */
    method Solve(sqrt: real -> real) returns (s: SolverState, r1: Fp, r2: Fp)
      requires IsSqrt(sqrt)
      modifies this
      ensures a == old(a) && b == old(b) && c == old(c)
      ensures Solved(Double, sqrt, a, b, c, SolveState(a, b, c), x1, x2, old(x1), old(x2))
      ensures state == Finalised(SolveState(a, b, c), x1, x2)
      ensures state == TwoReal ==> Le(x1, x2)
      ensures s == state && r1 == x1 && r2 == x2
      ensures Outcome(state, x1, x2) == Template.SolveOutcome(Double, sqrt, a, b, c, old(x1), old(x2))
    {
      hide Template.CompleteOutcome, Template.LinearOutcome, Template.AxxPlusCOutcome, Template.AxxPlusBxOutcome, Template.SqrtMinusCDivAOutcome, Template.InBandOutcome, Template.BelowBandOutcome, Template.AboveBandOutcome, Template.CasesOutcome;
      SolveCases(sqrt);
      SolvedState(Double, sqrt, a, b, c, state, x1, x2, old(x1), old(x2));
      if (state == TwoReal && (IsInvalidInput(x1) || IsInvalidInput(x2))) || (state == OneReal && IsInvalidInput(x1)) {
        state := OverUnderFlow;
      }
      if state == TwoReal {
        SolverCases.OrderedTwoReal(Double, sqrt, a, b, c, SolveState(a, b, c), x1, x2, old(x1), old(x2));
      }
      s, r1, r2 := state, x1, x2;
    }

    /** `reset`. */
    method Reset(a: Fp, b: Fp, c: Fp)
      modifies this
      ensures this.a == a && this.b == b && this.c == c
      ensures x1 == Zero && x2 == Zero && state == Uncertain
    {
      this.a := a;
      this.b := b;
      this.c := c;
      state := Uncertain;
      x1 := Zero;
      x2 := Zero;
    }
  }
}
