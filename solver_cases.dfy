/** One lemma per outcome of `solve_complete`, `solve_axx_plus_c` and
    `sqrt_minus_c_div_a`: from the values a branch computes, the result
    predicate of `SolverSpec` holds. Both solver classes discharge their
    branches with these lemmas. */
module SolverCases {
  import opened FloatingPoint
  import opened SolverSpec
  import opened SolverAlgebra

  /** a2, b2, c2 and ea, eb, ec are what frexp returns for a, b and c. */
  predicate Split(a: real, b: real, c: real, a2: real, b2: real, c2: real, ea: int, eb: int, ec: int) {
    Frexp(a) == Decomposed(a2, ea) && Frexp(b) == Decomposed(b2, eb) && Frexp(c) == Decomposed(c2, ec)
  }

  /** What the decompositions of three non-zero coefficients give. */
  lemma SplitFacts(a: real, b: real, c: real, a2: real, b2: real, c2: real, ea: int, eb: int, ec: int)
    requires Split(a, b, c, a2, b2, c2, ea, eb, ec) && a != 0.0 && b != 0.0 && c != 0.0
    ensures a == a2 * Pow2(ea) && b == b2 * Pow2(eb) && c == c2 * Pow2(ec)
    ensures 0.5 <= Abs(a2) < 1.0 && 0.5 <= Abs(b2) < 1.0 && 0.5 <= Abs(c2) < 1.0
    ensures (a2 < 0.0 <==> a < 0.0) && (b2 < 0.0 <==> b < 0.0) && (c2 < 0.0 <==> c < 0.0)
    ensures Ecp(a, b, c) == ec + (ea - 2 * eb)
  {
    hide Frexp, Pow2;
    MantissaBounds(a, Frexp(a));
    MantissaBounds(b, Frexp(b));
    MantissaBounds(c, Frexp(c));
  }

  /** The `sign` test on non-zero values: the signs agree exactly when the
      product is positive. */
  lemma SameSign(x: real, y: real)
    requires x != 0.0 && y != 0.0
    ensures (x < 0.0) == (y < 0.0) <==> x * y > 0.0
    ensures (x < 0.0) != (y < 0.0) <==> x * y < 0.0
  {
    if x < 0.0 && y > 0.0 {
      assert x * y < 0.0 * y;
    } else if x > 0.0 && y < 0.0 {
      assert x * y < x * 0.0;
    }
  }

  /** The discriminant of the equation has the sign of the mantissa
      discriminant that `solve_complete` evaluates. */
  lemma DiscriminantSign(a2: real, b2: real, c2: real, ea: int, eb: int, ec: int, cp: real, delta: real)
    requires cp == c2 * Pow2(ec + (ea - 2 * eb)) && delta == Discriminant(a2, b2, cp)
    ensures var d := Discriminant(a2 * Pow2(ea), b2 * Pow2(eb), c2 * Pow2(ec));
      && (d < 0.0 <==> delta < 0.0)
      && (d == 0.0 <==> delta == 0.0)
      && (d > 0.0 <==> delta > 0.0)
  {
    hide Discriminant;
    assert ec + (ea - 2 * eb) == ec + ea - 2 * eb;
    DiscriminantRescaled(a2, b2, c2, ea, eb, ec);
    assert Discriminant(a2, b2, c2 * Pow2(ec + ea - 2 * eb)) == delta;
    PositiveSquare(Pow2(eb));
    PositiveFactor(Pow2(eb) * Pow2(eb), delta);
  }

  lemma PositiveSquare(p: real)
    requires p > 0.0
    ensures p * p > 0.0
  {
  }

  /** A slot that holds v holds any w equal to v. */
  lemma DeliversEqual(x: Fp, v: real, w: real)
    requires Delivers(x, v) && v == w
    ensures Delivers(x, w)
  {
  }

  // ---------------------------------------------------------------------------
  // Inside the band

  /** A negative mantissa discriminant: no root. */
  lemma InBandNoRoot(t: FloatType, sqrt: real -> real, a: real, b: real, c: real,
                     a2: real, b2: real, c2: real, ea: int, eb: int, ec: int, cp: real, delta: real)
    requires a != 0.0 && b != 0.0 && c != 0.0 && Split(a, b, c, a2, b2, c2, ea, eb, ec)
    requires EMin(t) <= ec + (ea - 2 * eb) < EMax(t)
    requires cp == c2 * Pow2(ec + (ea - 2 * eb)) && delta == Discriminant(a2, b2, cp)
    requires delta < 0.0
    ensures CompleteResult(t, sqrt, a, b, c, NoRoot, NaN, NaN)
  {
    hide Frexp, Pow2, NatPow2, IntPow2;
    SplitFacts(a, b, c, a2, b2, c2, ea, eb, ec);
    DiscriminantSign(a2, b2, c2, ea, eb, ec, cp, delta);
    assert ExactState(a, b, c) == NoRoot;
  }

  /** A zero mantissa discriminant: the double root -b / 2a, computed as
      -b2 / 2 a2 scaled by 2^k. */
  lemma InBandOneReal(t: FloatType, sqrt: real -> real, a: real, b: real, c: real,
                      a2: real, b2: real, c2: real, ea: int, eb: int, ec: int, cp: real, delta: real,
                      k1: int, k2: int, x1: Fp)
    requires a != 0.0 && b != 0.0 && c != 0.0 && Split(a, b, c, a2, b2, c2, ea, eb, ec)
    requires EMin(t) <= ec + (ea - 2 * eb) < EMax(t)
    requires cp == c2 * Pow2(ec + (ea - 2 * eb)) && delta == Discriminant(a2, b2, cp)
    requires delta == 0.0 && k1 + k2 == eb - ea
    requires Delivers(x1, (-b2 / (2.0 * a2)) * Pow2(k2 + k1))
    ensures CompleteResult(t, sqrt, a, b, c, OneReal, x1, NaN)
  {
    hide Frexp, Pow2, NatPow2, IntPow2;
    SplitFacts(a, b, c, a2, b2, c2, ea, eb, ec);
    DiscriminantSign(a2, b2, c2, ea, eb, ec, cp, delta);
    assert ExactState(a, b, c) == OneReal;
    DoubleRootRescaled(a, b, a2, b2, ea, eb, k2 + k1);
  }

  /** A positive mantissa discriminant: the cancellation-free pair, scaled by
      2^k and sorted, is the pair of textbook roots in ascending order. */
  lemma InBandTwoReal(t: FloatType, sqrt: real -> real, a: real, b: real, c: real,
                      a2: real, b2: real, c2: real, ea: int, eb: int, ec: int, cp: real, delta: real,
                      k1: int, k2: int, sb: real, r: real, y1: real, y2: real,
                      z1: Fp, z2: Fp, x1: Fp, x2: Fp)
    requires IsSqrt(sqrt)
    requires a != 0.0 && b != 0.0 && c != 0.0 && Split(a, b, c, a2, b2, c2, ea, eb, ec)
    requires EMin(t) <= ec + (ea - 2 * eb) < EMax(t)
    requires cp == c2 * Pow2(ec + (ea - 2 * eb)) && delta == Discriminant(a2, b2, cp)
    requires delta > 0.0 && k1 + k2 == eb - ea
    requires sb == (if b < 0.0 then -1.0 else 1.0) && r == sqrt(delta)
    requires b2 + sb * r != 0.0
    requires y1 == -(2.0 * cp) / (b2 + sb * r) && y2 == -(b2 + sb * r) / (2.0 * a2)
    requires Delivers(z1, y1 * Pow2(k2 + k1)) && Delivers(z2, y2 * Pow2(k2 + k1))
    requires (x1 == z1 && x2 == z2) || (x1 == z2 && x2 == z1)
    requires Le(x1, x2)
    ensures CompleteResult(t, sqrt, a, b, c, TwoReal, x1, x2)
  {
    hide Frexp, Pow2, NatPow2, IntPow2, Textbook, Delivers, Discriminant, IsSqrt, Split, Le;
    SplitFacts(a, b, c, a2, b2, c2, ea, eb, ec);
    DiscriminantSign(a2, b2, c2, ea, eb, ec, cp, delta);
    assert ExactState(a, b, c) == TwoReal;
    assert BandOf(t, Ecp(a, b, c)) == Inside;
    assert sb * b2 > 0.0;
    assert ec + (ea - 2 * eb) == ec + ea - 2 * eb;
    assert Delivers(z1, Textbook(sqrt, a, b, c, sb)) && Delivers(z2, Textbook(sqrt, a, b, c, -sb)) by {
      hide *;
      InBandRoots(sqrt, a, b, c, a2, b2, c2, ea, eb, ec, k2 + k1, sb, cp, r, y1, y2);
      DeliversEqual(z1, y1 * Pow2(k2 + k1), Textbook(sqrt, a, b, c, sb));
      DeliversEqual(z2, y2 * Pow2(k2 + k1), Textbook(sqrt, a, b, c, -sb));
    }
    assert DeliversPair(x1, x2, Textbook(sqrt, a, b, c, -1.0), Textbook(sqrt, a, b, c, 1.0)) by {
      if sb == 1.0 {
        assert -sb == -1.0;
      } else {
        assert sb == -1.0 && -sb == 1.0;
      }
    }
  }

  // ---------------------------------------------------------------------------
  // Below the band

  /** Below the band the constant term is too small to cancel b^2: two
      roots. */
  lemma BelowBandState(t: FloatType, a: real, b: real, c: real,
                       a2: real, b2: real, c2: real, ea: int, eb: int, ec: int)
    requires a != 0.0 && b != 0.0 && c != 0.0 && Split(a, b, c, a2, b2, c2, ea, eb, ec)
    requires ec + (ea - 2 * eb) < EMin(t)
    ensures BandOf(t, Ecp(a, b, c)) == Below
    ensures ExactState(a, b, c) == TwoReal
  {
    hide Frexp, Pow2, NatPow2, IntPow2;
    SplitFacts(a, b, c, a2, b2, c2, ea, eb, ec);
    var ecp := ec + (ea - 2 * eb);
    FormatConstants();
    assert Discriminant(a, b, c) > 0.0 by {
      hide *;
      SmallPower(ecp);
      SmallConstantTerm(a2, b2, c2, Pow2(ecp));
      DiscriminantSign(a2, b2, c2, ea, eb, ec, c2 * Pow2(ecp), Discriminant(a2, b2, c2 * Pow2(ecp)));
    }
  }

  /** Above the band the constant term outweighs b^2: two roots when a and c
      differ in sign, none when they agree. */
  lemma AboveBandState(t: FloatType, a: real, b: real, c: real,
                       a2: real, b2: real, c2: real, ea: int, eb: int, ec: int)
    requires a != 0.0 && b != 0.0 && c != 0.0 && Split(a, b, c, a2, b2, c2, ea, eb, ec)
    requires EMax(t) <= ec + (ea - 2 * eb)
    ensures BandOf(t, Ecp(a, b, c)) == Above
    ensures (a < 0.0) == (c < 0.0) ==> ExactState(a, b, c) == NoRoot
    ensures (a < 0.0) != (c < 0.0) ==> ExactState(a, b, c) == TwoReal
  {
    hide Frexp, Pow2, NatPow2, IntPow2;
    SplitFacts(a, b, c, a2, b2, c2, ea, eb, ec);
    SameSign(a2, c2);
    var ecp := ec + (ea - 2 * eb);
    FormatConstants();
    assert a2 * c2 > 0.0 ==> Discriminant(a, b, c) < 0.0 by {
      hide *;
      LargePower(ecp);
      LargeConstantTerm(a2, b2, c2, Pow2(ecp));
      DiscriminantSign(a2, b2, c2, ea, eb, ec, c2 * Pow2(ecp), Discriminant(a2, b2, c2 * Pow2(ecp)));
    }
    assert a2 * c2 < 0.0 ==> Discriminant(a, b, c) > 0.0 by {
      hide *;
      LargePower(ecp);
      LargeConstantTerm(a2, b2, c2, Pow2(ecp));
      DiscriminantSign(a2, b2, c2, ea, eb, ec, c2 * Pow2(ecp), Discriminant(a2, b2, c2 * Pow2(ecp)));
    }
  }

  /** Below the band the roots are -b / a and -c / b, each scaled in two
      steps, sorted. */
  lemma BelowBand(t: FloatType, sqrt: real -> real, a: real, b: real, c: real,
                  a2: real, b2: real, c2: real, ea: int, eb: int, ec: int,
                  k1: int, k2: int, dm: int, e: int, dm1: int, dm2: int, y1: real, y2: real,
                  z1: Fp, z2: Fp, x1: Fp, x2: Fp)
    requires a != 0.0 && b != 0.0 && c != 0.0 && Split(a, b, c, a2, b2, c2, ea, eb, ec)
    requires ec + (ea - 2 * eb) < EMin(t)
    requires dm == ClearLowBit(ec + (ea - 2 * eb)) && e == LowBit(ec + (ea - 2 * eb))
    requires k1 + k2 == eb - ea && dm1 + dm2 == dm + (eb - ea)
    requires y1 == -b2 / a2 && a2 * y1 != 0.0 && y2 == (c2 * Pow2(e)) / (a2 * y1)
    requires Delivers(z1, y1 * Pow2(k2 + k1)) && Delivers(z2, y2 * Pow2(dm2 + dm1))
    requires (x1 == z1 && x2 == z2) || (x1 == z2 && x2 == z1)
    requires Le(x1, x2)
    ensures CompleteResult(t, sqrt, a, b, c, TwoReal, x1, x2)
  {
    hide Frexp, Pow2, NatPow2, IntPow2, Delivers, Discriminant, Le;
    BelowBandState(t, a, b, c, a2, b2, c2, ea, eb, ec);
    SplitFacts(a, b, c, a2, b2, c2, ea, eb, ec);
    assert Delivers(z1, -b / a) by {
      hide *;
      BelowBandLinearRoot(a, b, a2, b2, ea, eb, k2 + k1, y1);
      DeliversEqual(z1, y1 * Pow2(k2 + k1), -b / a);
    }
    assert Delivers(z2, -c / b) by {
      hide *;
      BelowBandConstantRoot(b, c, a2, b2, c2, eb, ec, e, dm2 + dm1, y1, y2);
      DeliversEqual(z2, y2 * Pow2(dm2 + dm1), -c / b);
    }
  }

  // ---------------------------------------------------------------------------
  // Above the band

  /** Above the band with a and c of the same sign: no root. */
  lemma AboveNoRoot(t: FloatType, sqrt: real -> real, a: real, b: real, c: real,
                    a2: real, b2: real, c2: real, ea: int, eb: int, ec: int)
    requires a != 0.0 && b != 0.0 && c != 0.0 && Split(a, b, c, a2, b2, c2, ea, eb, ec)
    requires EMax(t) <= ec + (ea - 2 * eb)
    requires (a < 0.0) == (c < 0.0)
    ensures CompleteResult(t, sqrt, a, b, c, NoRoot, NaN, NaN)
  {
    AboveBandState(t, a, b, c, a2, b2, c2, ea, eb, ec);
  }

  /** Above the band with a and c of opposite signs: the pair -s 2^(m+k),
      s 2^(m+k) with s = sqrt(|c3 / a2|) is -r, r for r = sqrt(-c / a). */
  lemma AboveTwoReal(t: FloatType, sqrt: real -> real, a: real, b: real, c: real,
                     a2: real, b2: real, c2: real, ea: int, eb: int, ec: int,
                     m: int, e: int, dm1: int, dm2: int, s: real, x1: Fp, x2: Fp)
    requires IsSqrt(sqrt)
    requires a != 0.0 && b != 0.0 && c != 0.0 && Split(a, b, c, a2, b2, c2, ea, eb, ec)
    requires EMax(t) <= ec + (ea - 2 * eb)
    requires (a < 0.0) != (c < 0.0)
    requires m == ShiftRight1(ClearLowBit(ec + (ea - 2 * eb))) && e == LowBit(ec + (ea - 2 * eb))
    requires dm1 + dm2 == m + (eb - ea)
    requires s == sqrt(Abs((c2 * Pow2(e)) / a2))
    requires Delivers(x2, s * Pow2(dm2 + dm1)) && x1 == Neg(x2)
    ensures CompleteResult(t, sqrt, a, b, c, TwoReal, x1, x2)
  {
    hide Frexp, Pow2, NatPow2, IntPow2, Delivers, Discriminant, IsSqrt;
    AboveBandState(t, a, b, c, a2, b2, c2, ea, eb, ec);
    SplitFacts(a, b, c, a2, b2, c2, ea, eb, ec);
    SameSign(a2, c2);
    AboveRoot(sqrt, a, c, a2, c2, ea, eb, ec, m, e, dm1, dm2, s, x2);
  }

  /** The root of the above-band branch: s 2^(m+k) delivers sqrt(-c / a). */
  lemma AboveRoot(sqrt: real -> real, a: real, c: real, a2: real, c2: real, ea: int, eb: int, ec: int,
                  m: int, e: int, dm1: int, dm2: int, s: real, x2: Fp)
    requires IsSqrt(sqrt)
    requires a == a2 * Pow2(ea) && c == c2 * Pow2(ec) && a2 * c2 < 0.0
    requires m == ShiftRight1(ClearLowBit(ec + (ea - 2 * eb))) && e == LowBit(ec + (ea - 2 * eb))
    requires dm1 + dm2 == m + (eb - ea)
    requires s == sqrt(Abs((c2 * Pow2(e)) / a2))
    requires Delivers(x2, s * Pow2(dm2 + dm1))
    ensures Delivers(x2, sqrt(-c / a))
  {
    hide *;
    ExponentHalving(ec + (ea - 2 * eb));
    NegatedQuotient(a2, c2 * Pow2(e), c2, Pow2(e));
    SqrtOfQuotient(sqrt, a, c, a2, c2, ea, ec, dm2 + dm1, e, Abs((c2 * Pow2(e)) / a2));
    DeliversEqual(x2, s * Pow2(dm2 + dm1), sqrt(-c / a));
  }

  /** |v / a2| == -v / a2 when v == c2 q, q > 0, and a2, c2 differ in sign. */
  lemma NegatedQuotient(a2: real, v: real, c2: real, q: real)
    requires a2 * c2 < 0.0 && q > 0.0 && v == c2 * q
    ensures Abs(v / a2) == -v / a2
    ensures -v / a2 > 0.0
  {
    NegativeProductQuotient(v, a2, c2, q);
    assert -v / a2 == -(v / a2);
  }

  // ---------------------------------------------------------------------------
  // b == 0

  /** `sqrt_minus_c_div_a`: for a and c of opposite signs, the pair
      -s 2^m, s 2^m with s = sqrt(-c3 / a2) is -r, r for r = sqrt(-c / a). */
  lemma SqrtMinusCDivA(sqrt: real -> real, a: real, c: real, a2: real, c2: real, ea: int, ec: int,
                       m: int, e: int, m1: int, m2: int, s: real, x1: Fp, x2: Fp)
    requires IsSqrt(sqrt)
    requires a != 0.0 && c != 0.0 && Frexp(a) == Decomposed(a2, ea) && Frexp(c) == Decomposed(c2, ec)
    requires (a < 0.0) != (c < 0.0)
    requires m == ShiftRight1(ClearLowBit(ec - ea)) && e == LowBit(ec - ea) && m1 + m2 == m
    requires s == sqrt(-(c2 * Pow2(e)) / a2)
    requires Delivers(x2, s * Pow2(m2 + m1)) && x1 == Neg(x2)
    ensures AxxPlusCResult(sqrt, a, c, TwoReal, x1, x2)
  {
    hide Frexp, Pow2, NatPow2;
    MantissaBounds(a, Frexp(a));
    MantissaBounds(c, Frexp(c));
    SameSign(a2, c2);
    SameSign(a, c);
    ExponentHalving(ec - ea);
    SqrtOfQuotient(sqrt, a, c, a2, c2, ea, ec, m2 + m1, e, -(c2 * Pow2(e)) / a2);
  }

  // ---------------------------------------------------------------------------
  // Every path

  /** Whichever case produced it, a `TWO_REAL` result that survives the
      over/underflow check holds its roots in ascending order, x1 <= x2. */
  lemma OrderedTwoReal(t: FloatType, sqrt: real -> real, a: Fp, b: Fp, c: Fp,
                       s: SolverState, x1: Fp, x2: Fp, o1: Fp, o2: Fp)
    requires IsSqrt(sqrt)
    requires Solved(t, sqrt, a, b, c, s, x1, x2, o1, o2)
    requires Finalised(s, x1, x2) == TwoReal
    ensures Le(x1, x2)
  {
    assert s == TwoReal && x1.Fin? && x2.Fin?;
    var av, bv, cv := a.val, b.val, c.val;
    if bv == 0.0 {
      SameSign(av, cv);
      OppositePairOrdered(sqrt, av, cv, x1, x2);
    } else if cv == 0.0 {
      assert AxxPlusBxResult(t, av, bv, s, x1, x2);
    } else {
      CompleteOrdered(t, sqrt, av, bv, cv, x1, x2);
    }
  }

  /** The complete case: inside and below the band the order is part of the
      result; above it, two roots mean a and c differ in sign. */
  lemma CompleteOrdered(t: FloatType, sqrt: real -> real, a: real, b: real, c: real, x1: Fp, x2: Fp)
    requires IsSqrt(sqrt) && a != 0.0 && b != 0.0 && c != 0.0
    requires CompleteResult(t, sqrt, a, b, c, TwoReal, x1, x2) && x2.Fin?
    ensures Le(x1, x2)
  {
    if BandOf(t, Ecp(a, b, c)) == Above {
      var da, db, dc := Frexp(a), Frexp(b), Frexp(c);
      AboveBandState(t, a, b, c, da.mant, db.mant, dc.mant, da.exp, db.exp, dc.exp);
      OppositePairOrdered(sqrt, a, c, x1, x2);
    }
  }

  /** -r, r with r = sqrt(-c / a) > 0 for a and c of opposite signs. */
  lemma OppositePairOrdered(sqrt: real -> real, a: real, c: real, x1: Fp, x2: Fp)
    requires IsSqrt(sqrt) && a != 0.0 && c != 0.0 && (a < 0.0) != (c < 0.0)
    requires x1 == Neg(x2) && Delivers(x2, sqrt(-c / a)) && x2.Fin?
    ensures Le(x1, x2)
  {
    var q := -c / a;
    assert q > 0.0 by {
      hide *;
      PositiveQuotient(-c, a, q);
    }
    SqrtFacts(sqrt, q);
  }

  /** A quotient of two values of one sign is positive. */
  lemma PositiveQuotient(n: real, d: real, q: real)
    requires d != 0.0 && n != 0.0 && (n < 0.0) == (d < 0.0) && q == n / d
    ensures q > 0.0
  {
    assert q * d == n;
    if q < 0.0 {
      if d > 0.0 {
        ProductSign(q, d);
      } else {
        ProductSign(-q, -d);
      }
    }
  }
}
