/** The algebra behind `solve_complete` and `sqrt_minus_c_div_a`, stated over
    the reals: the frexp rescaling of the coefficients, the discriminant of the
    mantissa equation, the cancellation-free root formula, the exponent
    halving, and the sign of the discriminant outside the exponent band. */
module SolverAlgebra {
  import opened FloatingPoint
  import opened SolverSpec

  // ---------------------------------------------------------------------------
  // frexp mantissas

  /** A non-zero mantissa lies in [0.5, 1) in magnitude and has the sign of x. */
  lemma MantissaBounds(x: real, d: Decomposed)
    requires IsFrexp(x, d) && x != 0.0
    ensures 0.5 <= Abs(d.mant) < 1.0
    ensures d.mant > 0.0 <==> x > 0.0
    ensures d.mant < 0.0 <==> x < 0.0
  {
  }

  /** frexp is a function of its argument: the decomposition with a mantissa
      in [0.5, 1) is unique. */
  lemma FrexpUnique(x: real, d: Decomposed, e: Decomposed)
    requires IsFrexp(x, d) && IsFrexp(x, e)
    ensures d == e
  {
    if x != 0.0 {
      MantissaGap(x, d, e);
      MantissaGap(x, e, d);
      ZeroFactor(d.mant - e.mant, Pow2(d.exp));
    }
  }

  /** Two decompositions of x with exponents d.exp < e.exp would force
      |d.mant| >= 2 |e.mant| >= 1. */
  lemma MantissaGap(x: real, d: Decomposed, e: Decomposed)
    requires IsFrexp(x, d) && IsFrexp(x, e) && x != 0.0
    ensures d.exp < e.exp ==> Abs(d.mant) >= 1.0
  {
    hide Pow2;
    if d.exp < e.exp {
      Pow2Add(e.exp - d.exp, d.exp);
      Pow2Monotone(1, e.exp - d.exp);
      Pow2Small();
      var p := Pow2(e.exp - d.exp);
      var q := Pow2(d.exp);
      assert d.mant * q == (e.mant * p) * q;
      QuotientCancel(d.mant, e.mant * p, q);
      MantissaTimesPower(e.mant, p);
    }
  }

  lemma QuotientCancel(u: real, v: real, q: real)
    requires q > 0.0 && u * q == v * q
    ensures u == v
  {
    ZeroFactor(u - v, q);
  }

  lemma MantissaTimesPower(m: real, p: real)
    requires 0.5 <= Abs(m) < 1.0 && p >= 2.0
    ensures Abs(m * p) >= 1.0
  {
    if m > 0.0 {
      assert m * p >= 0.5 * p;
    } else {
      assert m * p <= -0.5 * p;
    }
  }

  // ---------------------------------------------------------------------------
  // Exponent halving

  /** `m = (ecp & ~1) >> 1` and `e = ecp & 1` split ecp as 2m + e with e in
      {0, 1}: m is the floor of ecp / 2 (so -3 gives m == -2, not the -1 of a
      truncation toward zero). */
  lemma ExponentHalving(ecp: int)
    ensures ecp == 2 * ShiftRight1(ClearLowBit(ecp)) + LowBit(ecp)
    ensures 2 * ShiftRight1(ClearLowBit(ecp)) == ClearLowBit(ecp)
    ensures ShiftRight1(ClearLowBit(ecp)) == ecp / 2
    ensures ShiftRight1(ClearLowBit(-3)) == -2
  {
  }

  /** 2^ecp == 2^e * 2^m * 2^m for that split. */
  lemma HalvedPower(n: int, e: int, ecp: int)
    requires ecp == 2 * n + e
    ensures Pow2(ecp) == Pow2(e) * (Pow2(n) * Pow2(n))
  {
    hide Pow2;
    Pow2Add(e, 2 * n);
    Pow2Add(n, n);
  }

  // ---------------------------------------------------------------------------
  // The rescaled equation

  /** The three powers of the rescaling: with k = eb - ea and
      ecp = ec + ea - 2 eb, 2^ea 2^k == 2^eb, 2^ecp 2^(2 eb) == 2^ea 2^ec, and
      2^(2 eb) == 2^eb 2^eb. */
  lemma RescalePowers(ea: int, eb: int, ec: int)
    ensures Pow2(ea) * Pow2(eb - ea) == Pow2(eb)
    ensures Pow2(2 * eb) == Pow2(eb) * Pow2(eb)
    ensures Pow2(ea) * Pow2(ec) == Pow2(ec + ea - 2 * eb) * Pow2(2 * eb)
  {
    hide Pow2;
    Pow2Add(ea, eb - ea);
    Pow2Add(eb, eb);
    Pow2Add(ea, ec);
    Pow2Add(ec + ea - 2 * eb, 2 * eb);
  }

  /** a x^2 + b x + c at x = y K is P times a2 y^2 + b2 y + c2 E, whenever
      the powers satisfy A K K == P, B K == P and P E == C. */
  lemma PolyScaling(a2: real, b2: real, c2: real, y: real, A: real, B: real, C: real,
                    K: real, P: real, E: real)
    requires A * K * K == P && B * K == P && P * E == C
    ensures Poly(a2 * A, b2 * B, c2 * C, y * K) == P * Poly(a2, b2, c2 * E, y)
  {
    assert (a2 * A) * (y * K) * (y * K) == (a2 * y * y) * (A * K * K);
    assert (b2 * B) * (y * K) == (b2 * y) * (B * K);
    assert c2 * C == (c2 * E) * P;
  }

  /** The rescaling identity of `solve_complete`: substituting x = y 2^k, with
      k = eb - ea, turns a x^2 + b x + c into 2^(2 eb - ea) times the mantissa
      polynomial a2 y^2 + b2 y + c2 2^ecp. So a root y of the mantissa equation
      gives the root y 2^k of the original. */
  lemma RescaleIdentity(a2: real, b2: real, c2: real, ea: int, eb: int, ec: int, y: real)
    ensures var k := eb - ea;
      var ecp := ec + ea - 2 * eb;
      Poly(a2 * Pow2(ea), b2 * Pow2(eb), c2 * Pow2(ec), y * Pow2(k))
        == Pow2(2 * eb - ea) * Poly(a2, b2, c2 * Pow2(ecp), y)
  {
    hide Pow2;
    var k := eb - ea;
    var ecp := ec + ea - 2 * eb;
    Pow2Add(ea, k);
    Pow2Add(eb, k);
    Pow2Add(2 * eb - ea, ecp);
    assert Pow2(ea) * Pow2(k) * Pow2(k) == Pow2(eb) * Pow2(k);
    PolyScaling(a2, b2, c2, y, Pow2(ea), Pow2(eb), Pow2(ec), Pow2(k), Pow2(2 * eb - ea), Pow2(ecp));
  }

  /** b^2 - 4ac == B^2 (b2^2 - 4 a2 (c2 E)) when a == a2 A, b == b2 B,
      c == c2 C and A C == E B^2. */
  lemma DiscriminantScaling(a2: real, b2: real, c2: real, A: real, B: real, C: real, E: real)
    requires A * C == E * (B * B)
    ensures Discriminant(a2 * A, b2 * B, c2 * C) == (B * B) * Discriminant(a2, b2, c2 * E)
  {
    assert (b2 * B) * (b2 * B) == (b2 * b2) * (B * B);
    assert (a2 * A) * (c2 * C) == (a2 * c2) * (A * C);
    assert (a2 * c2) * (E * (B * B)) == (a2 * (c2 * E)) * (B * B);
  }

  /** The discriminant of the equation is 2^(2 eb) times that of the mantissa
      equation, which `solve_complete` evaluates instead. */
  lemma DiscriminantRescaled(a2: real, b2: real, c2: real, ea: int, eb: int, ec: int)
    ensures Discriminant(a2 * Pow2(ea), b2 * Pow2(eb), c2 * Pow2(ec))
         == (Pow2(eb) * Pow2(eb)) * Discriminant(a2, b2, c2 * Pow2(ec + ea - 2 * eb))
  {
    hide Pow2;
    RescalePowers(ea, eb, ec);
    DiscriminantScaling(a2, b2, c2, Pow2(ea), Pow2(eb), Pow2(ec), Pow2(ec + ea - 2 * eb));
  }

  /** A positive factor keeps the sign of d. */
  lemma PositiveFactor(p: real, d: real)
    requires p > 0.0
    ensures p * d < 0.0 <==> d < 0.0
    ensures p * d == 0.0 <==> d == 0.0
    ensures p * d > 0.0 <==> d > 0.0
  {
  }

  // ---------------------------------------------------------------------------
  // Roots

  /** The cancellation-free pair: with q = b2 + sb sqrt(delta), where sb is
      the sign of b2, q is never zero and -2 cp / q is the textbook root
      (-b2 + sb sqrt(delta)) / 2 a2. */
  lemma MantissaRoots(a2: real, b2: real, cp: real, sb: real, r: real)
    requires a2 != 0.0 && (sb == 1.0 || sb == -1.0) && sb * b2 > 0.0
    requires r >= 0.0 && r * r == Discriminant(a2, b2, cp)
    ensures b2 + sb * r != 0.0
    ensures -(2.0 * cp) / (b2 + sb * r) == (-b2 + sb * r) / (2.0 * a2)
  {
    var q := b2 + sb * r;
    assert sb * q == sb * b2 + r by {
      assert sb * (sb * r) == (sb * sb) * r;
    }
    assert (-b2 + sb * r) * q == -4.0 * a2 * cp by {
      assert (-b2 + sb * r) * q == (sb * sb) * (r * r) - b2 * b2;
    }
    QuotientSwap(-b2 + sb * r, q, 2.0 * a2, -(2.0 * cp));
  }

  /** u / d == n / q follows from u q == n d. */
  lemma QuotientSwap(u: real, q: real, d: real, n: real)
    requires q != 0.0 && d != 0.0 && u * q == n * d
    ensures n / q == u / d
  {
    assert u / d == (u * q) / (d * q);
    assert n / q == (n * d) / (q * d);
  }

  /** Scaling a mantissa root by K with K A == B: ((-b2 + sg r) / 2 a2) K is
      (-b + sg R) / 2a for a == a2 A, b == b2 B and R == B r. */
  lemma ScaledRoot(a2: real, b2: real, A: real, B: real, K: real, r: real, sg: real)
    requires a2 != 0.0 && A > 0.0 && K * A == B
    ensures ((-b2 + sg * r) / (2.0 * a2)) * K == (-(b2 * B) + sg * (B * r)) / (2.0 * (a2 * A))
  {
    var u := -b2 + sg * r;
    assert -(b2 * B) + sg * (B * r) == u * B;
    assert (u * B) / (2.0 * (a2 * A)) == (u * (K * A)) / ((2.0 * a2) * A);
    assert (u * (K * A)) / ((2.0 * a2) * A) == (u * K) / (2.0 * a2);
  }

  /** sqrt(b^2 - 4ac) is 2^eb times the square root of the mantissa
      discriminant, when that is non-negative. */
  lemma SqrtRescaled(sqrt: real -> real, a2: real, b2: real, c2: real, ea: int, eb: int, ec: int)
    requires IsSqrt(sqrt)
    requires Discriminant(a2, b2, c2 * Pow2(ec + ea - 2 * eb)) >= 0.0
    ensures sqrt(Discriminant(a2 * Pow2(ea), b2 * Pow2(eb), c2 * Pow2(ec)))
         == Pow2(eb) * sqrt(Discriminant(a2, b2, c2 * Pow2(ec + ea - 2 * eb)))
  {
    hide Pow2;
    DiscriminantRescaled(a2, b2, c2, ea, eb, ec);
    SqrtOfScaled(sqrt, Pow2(eb), Discriminant(a2, b2, c2 * Pow2(ec + ea - 2 * eb)));
  }

  /** Within the band the two computed mantissa roots y1 = -2 cp / q and
      y2 = -q / 2 a2, q = b2 + sb sqrt(delta), scaled by 2^k, are the textbook
      roots of the equation: y1 the one taken with the sign of b, y2 the
      other. */
  lemma InBandRoots(sqrt: real -> real, a: real, b: real, c: real, a2: real, b2: real, c2: real,
                    ea: int, eb: int, ec: int, k: int, sb: real, cp: real, r: real, y1: real, y2: real)
    requires IsSqrt(sqrt) && a2 != 0.0
    requires a == a2 * Pow2(ea) && b == b2 * Pow2(eb) && c == c2 * Pow2(ec) && k == eb - ea
    requires (sb == 1.0 || sb == -1.0) && sb * b2 > 0.0
    requires cp == c2 * Pow2(ec + ea - 2 * eb) && Discriminant(a2, b2, cp) >= 0.0
    requires r == sqrt(Discriminant(a2, b2, cp))
    requires y1 == -(2.0 * cp) / (b2 + sb * r) && y2 == -(b2 + sb * r) / (2.0 * a2)
    ensures a != 0.0
    ensures y1 * Pow2(k) == Textbook(sqrt, a, b, c, sb)
    ensures y2 * Pow2(k) == Textbook(sqrt, a, b, c, -sb)
  {
    hide *;
    SqrtFacts(sqrt, Discriminant(a2, b2, cp));
    MantissaRoots(a2, b2, cp, sb, r);
    assert -(b2 + sb * r) == -b2 + (-sb) * r;
    TextbookRescaled(sqrt, a, b, c, a2, b2, c2, ea, eb, ec, k, sb, cp, r, y1);
    TextbookRescaled(sqrt, a, b, c, a2, b2, c2, ea, eb, ec, k, -sb, cp, r, y2);
  }

  /** A mantissa-space textbook root u, scaled by 2^k, is the textbook root of
      the equation taken with the same sign. */
  lemma TextbookRescaled(sqrt: real -> real, a: real, b: real, c: real, a2: real, b2: real, c2: real,
                         ea: int, eb: int, ec: int, k: int, sg: real, cp: real, r: real, u: real)
    requires IsSqrt(sqrt) && a2 != 0.0
    requires a == a2 * Pow2(ea) && b == b2 * Pow2(eb) && c == c2 * Pow2(ec) && k == eb - ea
    requires cp == c2 * Pow2(ec + ea - 2 * eb) && Discriminant(a2, b2, cp) >= 0.0
    requires r == sqrt(Discriminant(a2, b2, cp))
    requires u == (-b2 + sg * r) / (2.0 * a2)
    ensures a != 0.0
    ensures u * Pow2(k) == Textbook(sqrt, a, b, c, sg)
  {
    hide *;
    KPower(ea, eb, k);
    PositiveFactor(Pow2(ea), a2);
    assert Discriminant(a2, b2, c2 * Pow2(ec + ea - 2 * eb)) == Discriminant(a2, b2, cp);
    SqrtRescaled(sqrt, a2, b2, c2, ea, eb, ec);
    assert sqrt(Discriminant(a2, b2, c2 * Pow2(ec + ea - 2 * eb))) == r;
    assert sqrt(Discriminant(a, b, c)) == Pow2(eb) * r;
    RootScaled(u, Pow2(k), a, b, a2, b2, Pow2(ea), Pow2(eb), sqrt(Discriminant(a, b, c)), r, sg);
    TextbookValue(sqrt, a, b, c, sg);
  }

  /** 2^k 2^ea == 2^eb for k == eb - ea. */
  lemma KPower(ea: int, eb: int, k: int)
    requires k == eb - ea
    ensures Pow2(k) * Pow2(ea) == Pow2(eb)
  {
    hide Pow2;
    Pow2Add(k, ea);
  }

  /** The mantissa root u == (-b2 + sg r) / 2 a2 scaled by K is
      (-b + sg X) / 2a, for a == a2 A, b == b2 B, K A == B and X == B r. */
  lemma RootScaled(u: real, K: real, a: real, b: real, a2: real, b2: real, A: real, B: real,
                   X: real, r: real, sg: real)
    requires a2 != 0.0 && A > 0.0 && K * A == B && a == a2 * A && b == b2 * B && X == B * r
    requires u == (-b2 + sg * r) / (2.0 * a2)
    ensures u * K == (-b + sg * X) / (2.0 * a)
  {
    ScaledRoot(a2, b2, A, B, K, r, sg);
  }

  /** The one-root value -b2 / 2 a2, scaled by 2^k with k == eb - ea, is
      -b / 2a. */
  lemma DoubleRootRescaled(a: real, b: real, a2: real, b2: real, ea: int, eb: int, k: int)
    requires a2 != 0.0 && a == a2 * Pow2(ea) && b == b2 * Pow2(eb) && k == eb - ea
    ensures (-b2 / (2.0 * a2)) * Pow2(k) == -b / (2.0 * a)
  {
    hide *;
    RescalePowers(ea, eb, 0);
    HalfQuotientScaled(a, b, a2, b2, Pow2(ea), Pow2(eb), Pow2(k));
  }

  /** (-b2 / 2 a2) K == -b / 2a for a == a2 A, b == b2 B and K A == B. */
  lemma HalfQuotientScaled(a: real, b: real, a2: real, b2: real, A: real, B: real, K: real)
    requires a2 != 0.0 && A > 0.0 && K * A == B && a == a2 * A && b == b2 * B
    ensures (-b2 / (2.0 * a2)) * K == -b / (2.0 * a)
  {
    assert -b == (-b2 * K) * A;
    assert 2.0 * a == (2.0 * a2) * A;
    assert -b / (2.0 * a) == ((-b2 * K) * A) / ((2.0 * a2) * A);
    assert ((-b2 * K) * A) / ((2.0 * a2) * A) == (-b2 * K) / (2.0 * a2);
  }

  /** Below the band the first mantissa root y1 = -b2 / a2, scaled by 2^k,
      is -b / a. */
  lemma BelowBandLinearRoot(a: real, b: real, a2: real, b2: real, ea: int, eb: int, k: int, y1: real)
    requires a2 != 0.0 && a == a2 * Pow2(ea) && b == b2 * Pow2(eb) && k == eb - ea
    requires y1 == -b2 / a2
    ensures a != 0.0
    ensures y1 * Pow2(k) == -b / a
  {
    hide *;
    KPower(ea, eb, k);
    PositiveFactor(Pow2(ea), a2);
    LinearRootScaled(y1, Pow2(k), a, b, a2, b2, Pow2(ea), Pow2(eb));
  }

  /** y1 == -b2 / a2 scaled by K is -b / a, for a == a2 A, b == b2 B and
      K A == B. */
  lemma LinearRootScaled(y1: real, K: real, a: real, b: real, a2: real, b2: real, A: real, B: real)
    requires a2 != 0.0 && A > 0.0 && K * A == B && a == a2 * A && b == b2 * B
    requires y1 == -b2 / a2
    ensures y1 * K == -b / a
  {
    assert -b == (-b2 * K) * A;
    assert -b / a == ((-b2 * K) * A) / (a2 * A);
    assert ((-b2 * K) * A) / (a2 * A) == (-b2 * K) / a2;
  }

  /** Below the band the second mantissa root y2 = c3 / (a2 y1), with
      c3 = c2 2^e and y1 = -b2 / a2, scaled by 2^kd where e + kd + eb == ec,
      is -c / b. */
  lemma BelowBandConstantRoot(b: real, c: real, a2: real, b2: real, c2: real, eb: int, ec: int,
                              e: int, kd: int, y1: real, y2: real)
    requires a2 != 0.0 && b2 != 0.0 && b == b2 * Pow2(eb) && c == c2 * Pow2(ec) && e + kd + eb == ec
    requires y1 == -b2 / a2
    ensures a2 * y1 != 0.0
    ensures y2 == (c2 * Pow2(e)) / (a2 * y1) ==> y2 * Pow2(kd) == -c / b
  {
    hide *;
    assert a2 * y1 == -b2;
    ConstantRootPowers(ec, eb, kd, e);
    if y2 == (c2 * Pow2(e)) / (a2 * y1) {
      ConstantRootScaled(y2, Pow2(kd), b, c, b2, c2, Pow2(e), Pow2(eb), Pow2(ec));
    }
  }

  /** y2 == c2 Q / -b2 scaled by K is -c / b, for b == b2 B, c == c2 C and
      Q K B == C. */
  lemma ConstantRootScaled(y2: real, K: real, b: real, c: real, b2: real, c2: real, Q: real, B: real, C: real)
    requires b2 != 0.0 && B > 0.0 && Q * K * B == C && b == b2 * B && c == c2 * C
    requires y2 == (c2 * Q) / -b2
    ensures y2 * K == -c / b
  {
    assert -c == (-(c2 * Q) * K) * B;
    assert -c / b == ((-(c2 * Q) * K) * B) / (b2 * B);
    assert ((-(c2 * Q) * K) * B) / (b2 * B) == (-(c2 * Q) * K) / b2;
  }

  /** 2^e 2^(dm + k) 2^eb == 2^ec when e + (dm + k) + eb == ec. */
  lemma ConstantRootPowers(ec: int, eb: int, dk: int, e: int)
    requires e + dk + eb == ec
    ensures Pow2(e) * Pow2(dk) * Pow2(eb) == Pow2(ec)
  {
    hide Pow2;
    Pow2Add(e, dk);
    Pow2Add(e + dk, eb);
  }

  /** sqrt(-c / a) == sqrt(-c3 / a2) 2^n, where c3 = c2 2^e and
      ec - ea == 2n + e: the rescaled square root of `sqrt_minus_c_div_a` and
      of the upper band. */
  lemma SqrtOfQuotient(sqrt: real -> real, a: real, c: real, a2: real, c2: real, ea: int, ec: int,
                        n: int, e: int, u: real)
    requires IsSqrt(sqrt) && a2 * c2 < 0.0 && ec - ea == 2 * n + e
    requires a == a2 * Pow2(ea) && c == c2 * Pow2(ec)
    requires u == -(c2 * Pow2(e)) / a2
    ensures u > 0.0
    ensures sqrt(u) * Pow2(n) == sqrt(-c / a)
  {
    hide *;
    QuotientPowers(ea, ec, n, e);
    SqrtOfScaledQuotient(sqrt, a, c, a2, c2, Pow2(ea), Pow2(e), Pow2(n), Pow2(ec), u);
  }

  /** 2^ec == 2^ea (2^e (2^n 2^n)) when ec - ea == 2n + e. */
  lemma QuotientPowers(ea: int, ec: int, n: int, e: int)
    requires ec - ea == 2 * n + e
    ensures Pow2(ec) == Pow2(ea) * (Pow2(e) * (Pow2(n) * Pow2(n)))
  {
    hide Pow2;
    HalvedPower(n, e, ec - ea);
    Pow2Add(ea, ec - ea);
  }

  /** The same over abstract powers: with C == A (Q (P P)) and a2, c2 of
      opposite signs, sqrt(-(c2 C) / (a2 A)) == sqrt(-(c2 Q) / a2) P. */
  lemma SqrtOfScaledQuotient(sqrt: real -> real, a: real, c: real, a2: real, c2: real,
                              A: real, Q: real, P: real, C: real, u: real)
    requires IsSqrt(sqrt) && a2 * c2 < 0.0 && A > 0.0 && Q > 0.0 && P > 0.0
    requires C == A * (Q * (P * P)) && a == a2 * A && c == c2 * C
    requires u == -(c2 * Q) / a2
    ensures u > 0.0
    ensures sqrt(u) * P == sqrt(-c / a)
  {
    NegativeProductQuotient(c2 * Q, a2, c2, Q);
    QuotientOfScaled(a2, c2, A, Q, P, C);
    SqrtOfScaled(sqrt, P, u);
    assert -c / a == -(c2 * C) / (a2 * A);
    assert -(c2 * C) / (a2 * A) == P * P * u;
    assert sqrt(-c / a) == sqrt(P * P * u);
    assert sqrt(P * P * u) == P * sqrt(u);
  }

  lemma NegativeProductQuotient(v: real, a2: real, c2: real, q: real)
    requires a2 * c2 < 0.0 && q > 0.0 && v == c2 * q
    ensures -v / a2 > 0.0
  {
    assert a2 * v == (a2 * c2) * q;
    assert -v / a2 == -(a2 * v) / (a2 * a2);
  }

  /** -c2 C / (a2 A) == P P (-(c2 Q) / a2) when C == A (Q (P P)). */
  lemma QuotientOfScaled(a2: real, c2: real, A: real, Q: real, P: real, C: real)
    requires a2 != 0.0 && A > 0.0
    requires C == A * (Q * (P * P))
    ensures -(c2 * C) / (a2 * A) == P * P * (-(c2 * Q) / a2)
  {
    assert c2 * C == (c2 * Q * (P * P)) * A;
    assert -(c2 * C) / (a2 * A) == -(c2 * Q * (P * P)) / a2;
  }

  // ---------------------------------------------------------------------------
  // The discriminant outside the band

  lemma SmallPower(e: int)
    requires e <= -5
    ensures Pow2(e) <= 1.0 / 32.0
  {
    Pow2Monotone(e, -5);
    assert Pow2(-5) == 1.0 / NatPow2(5);
  }

  lemma LargePower(e: int)
    requires e >= 2
    ensures Pow2(e) >= 4.0
  {
    Pow2Monotone(2, e);
    assert Pow2(2) == NatPow2(2);
  }

  lemma ProductBelowOne(x: real, y: real)
    requires Abs(x) < 1.0 && Abs(y) < 1.0
    ensures -1.0 < x * y < 1.0
  {
    assert Abs(x * y) == Abs(x) * Abs(y);
    assert Abs(x) * Abs(y) <= Abs(x) * 1.0;
  }

  lemma SquareAtLeastQuarter(x: real)
    requires 0.5 <= Abs(x)
    ensures x * x >= 0.25
  {
    if x >= 0.0 {
      assert x * x >= 0.5 * x;
    } else {
      assert x * x >= -0.5 * x;
    }
  }

  lemma ProductAtLeastQuarter(x: real, y: real)
    requires 0.5 <= Abs(x) && 0.5 <= Abs(y)
    ensures x * y >= 0.25 || x * y <= -0.25
  {
    assert Abs(x * y) == Abs(x) * Abs(y);
    assert Abs(x) * Abs(y) >= 0.5 * Abs(y);
  }

  lemma BoundedScale(u: real, p: real)
    requires -1.0 < u < 1.0 && p > 0.0
    ensures -p < u * p < p
  {
  }

  lemma Regroup(a2: real, c2: real, pe: real)
    ensures (4.0 * a2) * (c2 * pe) == 4.0 * ((a2 * c2) * pe)
  {
  }

  /** Below the band the constant term cannot cancel b2^2: the mantissa
      discriminant is positive. */
  lemma SmallConstantTerm(a2: real, b2: real, c2: real, pe: real)
    requires 0.5 <= Abs(b2) && Abs(a2) < 1.0 && Abs(c2) < 1.0
    requires 0.0 < pe <= 1.0 / 32.0
    ensures Discriminant(a2, b2, c2 * pe) > 0.0
  {
    ProductBelowOne(a2, c2);
    Regroup(a2, c2, pe);
    BoundedScale(a2 * c2, pe);
    SquareAtLeastQuarter(b2);
    var t := (a2 * c2) * pe;
    assert -1.0 < a2 * c2 < 1.0;
    assert t < pe;
    assert 4.0 * t < 0.25;
    assert Discriminant(a2, b2, c2 * pe) == b2 * b2 - 4.0 * t;
  }

  /** Above the band the constant term outweighs b2^2: the mantissa
      discriminant has the sign of -a2 c2. */
  lemma LargeConstantTerm(a2: real, b2: real, c2: real, pe: real)
    requires 0.5 <= Abs(a2) && Abs(b2) < 1.0 && 0.5 <= Abs(c2)
    requires pe >= 4.0
    ensures a2 * c2 > 0.0 ==> Discriminant(a2, b2, c2 * pe) < 0.0
    ensures a2 * c2 < 0.0 ==> Discriminant(a2, b2, c2 * pe) > 0.0
  {
    ProductAtLeastQuarter(a2, c2);
    ProductBelowOne(b2, b2);
    Regroup(a2, c2, pe);
    var u := a2 * c2;
    var t := u * pe;
    assert Discriminant(a2, b2, c2 * pe) == b2 * b2 - 4.0 * t;
    if u > 0.0 {
      assert u >= 0.25;
      assert t >= 0.25 * pe;
    } else {
      assert u <= -0.25;
      assert t <= -0.25 * pe;
    }
  }
}
