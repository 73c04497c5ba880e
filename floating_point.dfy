/** The floating-point abstraction the solver is modelled over.

    A binary floating-point value is NaN, a signed infinity or a finite value;
    finite values are exact reals, and +0 and -0 are the same `Fin(0.0)`.
    Arithmetic is exact, except that a result whose magnitude exceeds the
    largest finite value of the format overflows to an infinity (`Round`).
    Mantissa rounding, subnormals and underflow to zero are not modelled. */
module FloatingPoint {

  /** The two instantiations the solver accepts (the header's `static_assert`
      admits only `float` and `double`). */
  datatype FloatType = Float | Double

  /** Width of the biased-exponent field (IEEE 754-2008, section 3.6: w). */
  function NBitE(t: FloatType): nat {
    if t == Double then 11 else 8
  }

  /** Width of the trailing significand field (IEEE 754-2008, section 3.6: t = p - 1). */
  function NBitF(t: FloatType): nat {
    if t == Double then 52 else 23
  }

  /** 2^n on the naturals: the value of `1 << n`. */
  function IntPow2(n: nat): (r: nat)
    ensures r >= 1
  {
    if n == 0 then 1 else 2 * IntPow2(n - 1)
  }

  /** Largest unbiased exponent of a normal number: `(1 << (n_bit_e - 1)) - 1`. */
  function MMax(t: FloatType): int {
    IntPow2(NBitE(t) - 1) - 1
  }

  /** Smallest unbiased exponent of a normal number: `1 - m_max`. */
  function MMin(t: FloatType): int {
    1 - MMax(t)
  }

  /** 2^n on the naturals, as a real. */
  function NatPow2(n: nat): (r: real)
    ensures r >= 1.0
  {
    if n == 0 then 1.0 else 2.0 * NatPow2(n - 1)
  }

  /** 2^e for every integer e: the exact value of `std::pow(2, e)`. */
  function Pow2(e: int): (r: real)
    ensures r > 0.0
  {
    if e >= 0 then NatPow2(e) else 1.0 / NatPow2(-e)
  }

  function Abs(r: real): (s: real)
    ensures s >= 0.0 && (s == r || s == -r)
  {
    if r < 0.0 then -r else r
  }

  /** The largest finite value of the format, (2 - 2^-t) * 2^emax (IEEE
      754-2008, section 3.3), written out; `MaxFiniteValue` ties it to `Pow2`. */
  function MaxFinite(t: FloatType): real {
    match t
    case Double => 179769313486231570814527423731704356798070567525844996598917476803157260780028538760589558632766878171540458953514382464234321326889464182768467546703537516986049910576551282076245490090389328944075868508455133942304583236903222948165808559332123348274797826204144723168738177180919299881250404026184124858368.0
    case Float => 340282346638528859811704183484516925440.0
  }

  /** A value of the floating-point type T. */
  datatype Fp = NaN | Inf(neg: bool) | Fin(val: real)

  const Zero: Fp := Fin(0.0)
  const PosInf: Fp := Inf(false)
  const NegInf: Fp := Inf(true)

  /** IEEE `x < y`: false whenever either side is NaN. */
  predicate Lt(x: Fp, y: Fp) {
    match (x, y)
    case (NaN, _) => false
    case (_, NaN) => false
    case (Inf(n), Inf(m)) => n && !m
    case (Inf(n), Fin(_)) => n
    case (Fin(_), Inf(m)) => !m
    case (Fin(r), Fin(s)) => r < s
  }

  /** IEEE `x == y`: false whenever either side is NaN; the two zeros are equal. */
  predicate Eq(x: Fp, y: Fp) {
    !x.NaN? && !y.NaN? && x == y
  }

  /** IEEE `x <= y`. */
  predicate Le(x: Fp, y: Fp) {
    Lt(x, y) || Eq(x, y)
  }

  /** Unary minus. */
  function Neg(x: Fp): Fp {
    match x
    case NaN => NaN
    case Inf(n) => Inf(!n)
    case Fin(r) => Fin(-r)
  }

  /** Delivers an exact result in the format: finite if it fits, an infinity of
      the same sign if it overflows. */
  function Round(t: FloatType, r: real): (x: Fp)
    ensures x.Fin? <==> Abs(r) <= MaxFinite(t)
    ensures x.Fin? ==> x.val == r
    ensures x.Inf? ==> x.neg == (r < 0.0)
    ensures !x.NaN?
  {
    if r > MaxFinite(t) then PosInf
    else if r < -MaxFinite(t) then NegInf
    else Fin(r)
  }

  /** IEEE addition. */
  function Add(t: FloatType, x: Fp, y: Fp): Fp {
    match (x, y)
    case (NaN, _) => NaN
    case (_, NaN) => NaN
    case (Inf(n), Inf(m)) => if n == m then Inf(n) else NaN
    case (Inf(n), Fin(_)) => Inf(n)
    case (Fin(_), Inf(m)) => Inf(m)
    case (Fin(r), Fin(s)) => Round(t, r + s)
  }

  /** IEEE subtraction. */
  function Sub(t: FloatType, x: Fp, y: Fp): Fp {
    Add(t, x, Neg(y))
  }

  /** IEEE multiplication (0 * inf is NaN). */
  function Mul(t: FloatType, x: Fp, y: Fp): Fp {
    match (x, y)
    case (NaN, _) => NaN
    case (_, NaN) => NaN
    case (Inf(n), Inf(m)) => Inf(n != m)
    case (Inf(n), Fin(s)) => if s == 0.0 then NaN else Inf(n != (s < 0.0))
    case (Fin(r), Inf(m)) => if r == 0.0 then NaN else Inf(m != (r < 0.0))
    case (Fin(r), Fin(s)) => Round(t, r * s)
  }

  /** IEEE division. Signed zeros are not modelled: a division by zero is
      taken as a division by +0. */
  function Div(t: FloatType, x: Fp, y: Fp): Fp {
    match (x, y)
    case (NaN, _) => NaN
    case (_, NaN) => NaN
    case (Inf(_), Inf(_)) => NaN
    case (Inf(n), Fin(s)) => Inf(n != (s < 0.0))
    case (Fin(_), Inf(_)) => Zero
    case (Fin(r), Fin(s)) =>
      if s != 0.0 then Round(t, r / s)
      else if r == 0.0 then NaN
      else Inf(r < 0.0)
  }

  /** `std::sqrt`, with the square root of a non-negative real supplied by `sqrt`. */
  function Sqrt(sqrt: real -> real, x: Fp): Fp {
    match x
    case NaN => NaN
    case Inf(n) => if n then NaN else PosInf
    case Fin(r) => if r < 0.0 then NaN else Fin(sqrt(r))
  }

  /** `sqrt` is the exact non-negative square root on the non-negative reals. */
  ghost predicate IsSqrt(sqrt: real -> real) {
    forall r: real {:trigger sqrt(r)} :: 0.0 <= r ==> 0.0 <= sqrt(r) && sqrt(r) * sqrt(r) == r
  }

  /** What `IsSqrt` says at one point. */
  lemma SqrtFacts(sqrt: real -> real, r: real)
    requires IsSqrt(sqrt) && 0.0 <= r
    ensures 0.0 <= sqrt(r) && sqrt(r) * sqrt(r) == r
  {
  }

  /** `std::pow(2, e)`. */
  function Pow2Fp(t: FloatType, e: int): (x: Fp)
    ensures x.Fin? ==> x.val == Pow2(e)
    ensures x == PosInf || x.Fin?
  {
    Round(t, Pow2(e))
  }

  /** x is above zero: +inf or a positive finite value. */
  predicate Positive(x: Fp) {
    x == PosInf || (x.Fin? && x.val > 0.0)
  }

  /** x is below zero: -inf or a negative finite value. */
  predicate Negative(x: Fp) {
    x == NegInf || (x.Fin? && x.val < 0.0)
  }

  /** x holds the real v: exactly, or as the infinity of v's sign that v
      overflowed to. NaN holds nothing. */
  predicate Delivers(x: Fp, v: real) {
    match x
    case NaN => false
    case Inf(n) => v != 0.0 && n == (v < 0.0)
    case Fin(r) => r == v
  }

  /** An overflow-checked result delivers the exact one. */
  lemma RoundDelivers(t: FloatType, v: real)
    ensures Delivers(Round(t, v), v)
  {
  }

  /** Two deliveries of values in order are in IEEE order. */
  lemma DeliveriesOrdered(x: Fp, y: Fp, v: real, w: real)
    requires Delivers(x, v) && Delivers(y, w) && v <= w
    ensures x.Fin? && y.Fin? ==> Le(x, y)
    ensures x.Fin? && y.Fin? && v < w ==> Lt(x, y)
  {
  }

  /** The value `ScaleBack` leaves: y times 2^e2, then times 2^e1, each
      product rounded in the format. */
  function Rescaled(t: FloatType, y: real, e2: int, e1: int): Fp {
    Mul(t, Mul(t, Fin(y), Pow2Fp(t, e2)), Pow2Fp(t, e1))
  }

  /** `Rescaled` depends on the value of y only (a congruence step the
      solver does not take by itself when y is a quotient). */
  lemma RescaledOfEqual(t: FloatType, y: real, y': real, e2: int, e1: int)
    requires y == y'
    ensures Rescaled(t, y, e2, e1) == Rescaled(t, y', e2, e1)
  {
  }

  /** `(y * std::pow(2, e2)) * std::pow(2, e1)`: the scaling of y by 2^(e2+e1)
      in two multiplications, either of which may overflow. A non-zero y is
      delivered: the exact product, or the infinity of its sign. */
  method ScaleBack(t: FloatType, y: real, e2: int, e1: int) returns (r: Fp)
    requires y != 0.0
    ensures r == Rescaled(t, y, e2, e1)
    ensures Delivers(r, y * Pow2(e2 + e1))
    ensures Pow2(e2) <= MaxFinite(t) && Pow2(e1) <= MaxFinite(t)
      && Abs(y * Pow2(e2)) <= MaxFinite(t) && Abs(y * Pow2(e2 + e1)) <= MaxFinite(t)
      ==> r == Fin(y * Pow2(e2 + e1))
  {
    hide Pow2, MaxFinite, Round, Mul, Pow2Fp, Abs, ScaledBy, ExactWithin;
    var r2 := TimesPow2(t, Fin(y), e2);
    r := TimesPow2(t, r2, e1);
    ScaleBackSteps(MaxFinite(t), y, e2, e1, r2, r);
  }

  /** What the two scalings of `ScaleBack` give together. */
  lemma ScaleBackSteps(m: real, y: real, e2: int, e1: int, r2: Fp, r: Fp)
    requires y != 0.0
    requires ScaledBy(Fin(y), r2, Pow2(e2)) && ScaledBy(r2, r, Pow2(e1))
    requires ExactWithin(m, Fin(y), r2, Pow2(e2)) && ExactWithin(m, r2, r, Pow2(e1))
    ensures Delivers(r, y * Pow2(e2 + e1))
    ensures Pow2(e2) <= m && Pow2(e1) <= m && Abs(y * Pow2(e2)) <= m && Abs(y * Pow2(e2 + e1)) <= m
      ==> r == Fin(y * Pow2(e2 + e1))
  {
    hide Pow2, Abs, ScaledBy, ExactWithin, Delivers;
    Pow2Add(e2, e1);
    StepsDeliver(y, r2, r, Pow2(e2), Pow2(e1), Pow2(e2 + e1));
    TwoStepsExact(m, y, r2, r, Pow2(e2), Pow2(e1), Pow2(e2 + e1));
  }

  /** r is x scaled by the positive factor p: exactly when finite, NaN only
      from NaN or zero, and with the sign of x. */
  predicate ScaledBy(x: Fp, r: Fp, p: real) {
    && (r.Fin? ==> x.Fin? && r.val == x.val * p)
    && (r.NaN? ==> x.NaN? || x == Zero)
    && (Positive(x) ==> Positive(r))
    && (Negative(x) ==> Negative(r))
  }

  /** `x * std::pow(2, e)`: the power is finite or +inf, so the product keeps
      the sign of x and, when finite, is exact. */
  method TimesPow2(t: FloatType, x: Fp, e: int) returns (r: Fp)
    ensures r == Mul(t, x, Pow2Fp(t, e))
    ensures ScaledBy(x, r, Pow2(e))
    ensures ExactWithin(MaxFinite(t), x, r, Pow2(e))
  {
    hide Pow2, MaxFinite, Round, Mul, Pow2Fp;
    r := Mul(t, x, Pow2Fp(t, e));
    ScaleStep(t, x, e);
    ScaleExact(t, x, e);
  }

  /** r is finite x times p whenever p and that product are both within m. */
  predicate ExactWithin(m: real, x: Fp, r: Fp, p: real) {
    x.Fin? && p <= m && Abs(x.val * p) <= m ==> r == Fin(x.val * p)
  }

  /** A product with `std::pow(2, e)` is exact when the power and the product
      both fit the format. */
  lemma ScaleExact(t: FloatType, x: Fp, e: int)
    ensures ExactWithin(MaxFinite(t), x, Mul(t, x, Pow2Fp(t, e)), Pow2(e))
  {
    hide Pow2, MaxFinite;
  }

  /** Two scalings, by p2 and then by p1, each exact within the bound m, give
      y times p2 * p1 exactly when p2, p1, y * p2 and that product are within m. */
  lemma TwoStepsExact(m: real, y: real, r2: Fp, r: Fp, p2: real, p1: real, p: real)
    requires p == p2 * p1
    requires ExactWithin(m, Fin(y), r2, p2) && ExactWithin(m, r2, r, p1)
    ensures p2 <= m && p1 <= m && Abs(y * p2) <= m && Abs(y * p) <= m ==> r == Fin(y * p)
  {
    hide ExactWithin, Abs;
    ExactWithinFin(m, y, r2, p2);
    ScaleTwiceValue(y, p2, p1);
    SecondStepExact(m, r2, r, y * p2, p1, y * p);
  }

  /** What exactness within m says for a finite x. */
  lemma ExactWithinFin(m: real, y: real, r: Fp, p: real)
    requires ExactWithin(m, Fin(y), r, p)
    ensures p <= m && Abs(y * p) <= m ==> r == Fin(y * p)
  {
  }

  /** The second step, once the first gave u exactly. */
  lemma SecondStepExact(m: real, r2: Fp, r: Fp, u: real, p1: real, w: real)
    requires ExactWithin(m, r2, r, p1) && u * p1 == w
    ensures r2 == Fin(u) && p1 <= m && Abs(w) <= m ==> r == Fin(w)
  {
  }

  /** Two scalings by positive p2 and p1 deliver a non-zero y times p2 * p1. */
  lemma StepsDeliver(y: real, r2: Fp, r: Fp, p2: real, p1: real, p: real)
    requires y != 0.0 && p2 > 0.0 && p1 > 0.0 && p == p2 * p1
    requires ScaledBy(Fin(y), r2, p2) && ScaledBy(r2, r, p1)
    ensures Delivers(r, y * p)
  {
    ProductSign(y, p);
    if r.Fin? {
      ScaleTwiceValue(y, p2, p1);
    }
  }

  /** One multiplication by `std::pow(2, e)`, which is finite or +inf. */
  lemma ScaleStep(t: FloatType, x: Fp, e: int)
    ensures ScaledBy(x, Mul(t, x, Pow2Fp(t, e)), Pow2(e))
  {
    hide Pow2, Round;
    MulByPositive(t, x, Pow2Fp(t, e), Pow2(e));
  }

  /** Multiplying by a positive q, or by the +inf it overflowed to. */
  lemma MulByPositive(t: FloatType, x: Fp, p: Fp, q: real)
    requires q > 0.0 && (p == PosInf || p == Fin(q))
    ensures ScaledBy(x, Mul(t, x, p), q)
  {
    hide Round, MaxFinite;
    match x
    case NaN =>
    case Inf(n) =>
    case Fin(v) =>
      if p.Fin? {
        ProductSign(v, q);
      }
  }

  lemma ProductSign(v: real, p: real)
    requires p > 0.0
    ensures v > 0.0 ==> v * p > 0.0
    ensures v < 0.0 ==> v * p < 0.0
  {
  }

  lemma ScaleTwiceValue(y: real, p: real, q: real)
    ensures (y * p) * q == y * (p * q)
  {
  }

  /** The non-negative square root is unique. */
  lemma SqrtUnique(s: real, u: real)
    requires 0.0 <= s && 0.0 <= u && s * s == u * u
    ensures s == u
  {
    if s + u != 0.0 {
      assert (s - u) * (s + u) == s * s - u * u;
      ZeroFactor(s - u, s + u);
    }
  }

  lemma ZeroFactor(x: real, y: real)
    requires x * y == 0.0 && y != 0.0
    ensures x == 0.0
  {
    assert x == (x * y) / y;
  }

  /** sqrt(p * p * r) == p * sqrt(r) for p >= 0. */
  lemma SqrtOfScaled(sqrt: real -> real, p: real, r: real)
    requires IsSqrt(sqrt) && 0.0 <= p && 0.0 <= r
    ensures sqrt(p * p * r) == p * sqrt(r)
  {
    var s := sqrt(r);
    assert 0.0 <= p * p * r;
    var u := sqrt(p * p * r);
    assert (p * s) * (p * s) == p * p * (s * s);
    SqrtUnique(u, p * s);
  }

  // ---------------------------------------------------------------------------
  // The format's extreme values

  /** The powers of two that `MMax` and `NBitF` take, evaluated. Each step
      below is its own lemma, so that no proof holds more than a few large
      literals. */
  lemma FormatPowers()
    ensures NatPow2(1023) == 89884656743115795386465259539451236680898848947115328636715040578866337902750481566354238661203768010560056939935696678829394884407208311246423715319737062188883946712432742638151109800623047059726541476042502884419075341171231440736956555270413618581675255342293149119973622969239858152417678164812112068608.0
    ensures NatPow2(127) == 170141183460469231731687303715884105728.0
    ensures NatPow2(52) == 4503599627370496.0
    ensures NatPow2(23) == 8388608.0
  {
    TwoTo1023();
    TwoTo127();
    TwoTo52();
    TwoTo23();
  }

  lemma TwoTo1()
    ensures NatPow2(1) == 2.0
  {
  }

  lemma TwoTo2()
    ensures NatPow2(2) == 4.0
  {
    TwoTo1();
    NatPow2Add(1, 1);
  }

  lemma TwoTo4()
    ensures NatPow2(4) == 16.0
  {
    TwoTo2();
    NatPow2Add(2, 2);
  }

  lemma TwoTo8()
    ensures NatPow2(8) == 256.0
  {
    TwoTo4();
    NatPow2Add(4, 4);
  }

  lemma TwoTo16()
    ensures NatPow2(16) == 65536.0
  {
    TwoTo8();
    NatPow2Add(8, 8);
  }

  lemma TwoTo32()
    ensures NatPow2(32) == 4294967296.0
  {
    TwoTo16();
    NatPow2Add(16, 16);
  }

  lemma TwoTo64()
    ensures NatPow2(64) == 18446744073709551616.0
  {
    TwoTo32();
    NatPow2Add(32, 32);
  }

  lemma TwoTo128()
    ensures NatPow2(128) == 340282366920938463463374607431768211456.0
  {
    TwoTo64();
    NatPow2Add(64, 64);
  }

  lemma TwoTo256()
    ensures NatPow2(256) == 115792089237316195423570985008687907853269984665640564039457584007913129639936.0
  {
    TwoTo128();
    NatPow2Add(128, 128);
  }

  lemma TwoTo512()
    ensures NatPow2(512) == 13407807929942597099574024998205846127479365820592393377723561443721764030073546976801874298166903427690031858186486050853753882811946569946433649006084096.0
  {
    TwoTo256();
    NatPow2Add(256, 256);
  }

  lemma TwoTo1024()
    ensures NatPow2(1024) == 179769313486231590772930519078902473361797697894230657273430081157732675805500963132708477322407536021120113879871393357658789768814416622492847430639474124377767893424865485276302219601246094119453082952085005768838150682342462881473913110540827237163350510684586298239947245938479716304835356329624224137216.0
  {
    TwoTo512();
    NatPow2Add(512, 512);
  }

  lemma TwoTo1023()
    ensures NatPow2(1023) == 89884656743115795386465259539451236680898848947115328636715040578866337902750481566354238661203768010560056939935696678829394884407208311246423715319737062188883946712432742638151109800623047059726541476042502884419075341171231440736956555270413618581675255342293149119973622969239858152417678164812112068608.0
  {
    TwoTo1024();
  }

  lemma TwoTo127()
    ensures NatPow2(127) == 170141183460469231731687303715884105728.0
  {
    TwoTo128();
  }

  lemma TwoTo24()
    ensures NatPow2(24) == 16777216.0
  {
    TwoTo16();
    TwoTo8();
    NatPow2Add(16, 8);
  }

  lemma TwoTo23()
    ensures NatPow2(23) == 8388608.0
  {
    TwoTo24();
  }

  lemma TwoTo48()
    ensures NatPow2(48) == 281474976710656.0
  {
    TwoTo32();
    TwoTo16();
    NatPow2Add(32, 16);
  }

  lemma TwoTo52()
    ensures NatPow2(52) == 4503599627370496.0
  {
    TwoTo48();
    TwoTo4();
    NatPow2Add(48, 4);
  }

  /** The exponent range of the normal numbers: emax = 1023 and 127 (IEEE
      754-2008, table 3.5), emin = 1 - emax. */
  lemma ExponentRange()
    ensures MMax(Double) == 1023 && MMin(Double) == -1022
    ensures MMax(Float) == 127 && MMin(Float) == -126
  {
    assert IntPow2(10) == 1024;
    assert IntPow2(7) == 128;
  }

  /** The written-out largest finite value is (2 - 2^-t) * 2^emax. */
  lemma MaxFiniteValue(t: FloatType)
    ensures MaxFinite(t) == (2.0 - Pow2(-(NBitF(t) as int))) * Pow2(MMax(t))
  {
    hide NatPow2;
    FormatPowers();
    ExponentRange();
  }

  /** 2^emax is finite: (2 - 2^-t) >= 1. */
  lemma LargestPowerIsFinite(t: FloatType)
    ensures Pow2(MMax(t)) <= MaxFinite(t)
  {
    hide NatPow2;
    FormatPowers();
    ExponentRange();
    if t == Double {
      assert Pow2(1023) == NatPow2(1023);
    } else {
      assert Pow2(127) == NatPow2(127);
    }
  }

  /** Every power of two with a normal exponent is finite: `std::pow(2, e)`
      does not overflow for MMin <= e <= MMax. */
  lemma Pow2FpNormal(t: FloatType, e: int)
    requires MMin(t) <= e <= MMax(t)
    ensures Pow2Fp(t, e) == Fin(Pow2(e))
  {
    LargestPowerIsFinite(t);
    Pow2Monotone(e, MMax(t));
    assert Abs(Pow2(e)) <= MaxFinite(t);
  }

  // ---------------------------------------------------------------------------
  // Powers of two

  lemma {:induction false} NatPow2Add(x: nat, y: nat)
    ensures NatPow2(x + y) == NatPow2(x) * NatPow2(y)
  {
    if y > 0 {
      NatPow2Add(x, y - 1);
      var p, q := NatPow2(x), NatPow2(y - 1);
      assert NatPow2(x + y) == 2.0 * NatPow2(x + y - 1);
      assert NatPow2(y) == 2.0 * q;
      assert p * (2.0 * q) == 2.0 * (p * q);
    }
  }

  lemma QuotientFacts(p: real, q: real)
    requires p > 0.0 && q > 0.0
    ensures p == (p * q) * (1.0 / q)
    ensures 1.0 / (p * q) == (1.0 / p) * (1.0 / q)
    ensures 1.0 / q == p * (1.0 / (p * q))
  {
  }

  /** 2^(x+y) == 2^x * 2^y for all integers x and y. */
  lemma Pow2Add(x: int, y: int)
    ensures Pow2(x + y) == Pow2(x) * Pow2(y)
  {
    hide NatPow2;
    if x >= 0 && y >= 0 {
      NatPow2Add(x, y);
    } else if x < 0 && y < 0 {
      NatPow2Add(-x, -y);
      QuotientFacts(NatPow2(-x), NatPow2(-y));
    } else if x >= 0 {
      Pow2AddMixed(x, y);
    } else {
      Pow2AddMixed(y, x);
    }
  }

  lemma Pow2AddMixed(x: nat, y: int)
    requires y < 0
    ensures Pow2(x + y) == Pow2(x) * Pow2(y)
  {
    hide NatPow2;
    if x + y >= 0 {
      Pow2AddDown(x + y, -y);
    } else {
      Pow2AddUp(x, -(x + y));
    }
  }

  lemma Pow2AddDown(z: nat, w: nat)
    ensures Pow2(z) == Pow2(z + w) * Pow2(-(w as int))
  {
    hide NatPow2;
    NatPow2Add(z, w);
    var p, q := NatPow2(z), NatPow2(w);
    if w > 0 {
      assert Pow2(-(w as int)) == 1.0 / q;
      QuotientFacts(p, q);
    }
  }

  lemma Pow2AddUp(x: nat, w: nat)
    ensures Pow2(-(w as int)) == Pow2(x) * Pow2(-((x + w) as int))
  {
    hide NatPow2;
    NatPow2Add(x, w);
    var p, q := NatPow2(x), NatPow2(w);
    if x + w > 0 {
      assert Pow2(-((x + w) as int)) == 1.0 / (p * q);
      QuotientFacts(p, q);
      if w == 0 {
        assert p * (1.0 / p) == 1.0;
      }
    }
  }

  lemma Pow2Small()
    ensures Pow2(0) == 1.0 && Pow2(1) == 2.0 && Pow2(2) == 4.0
  {
  }

  lemma Pow2Succ(e: int)
    ensures Pow2(e + 1) == 2.0 * Pow2(e)
  {
    Pow2Add(e, 1);
    assert Pow2(1) == 2.0;
  }

  lemma {:induction false} NatPow2Monotone(x: nat, y: nat)
    requires x <= y
    ensures NatPow2(x) <= NatPow2(y)
    decreases y - x
  {
    if x < y {
      NatPow2Monotone(x, y - 1);
    }
  }

  lemma Pow2Monotone(x: int, y: int)
    requires x <= y
    ensures Pow2(x) <= Pow2(y)
  {
    if 0 <= x {
      NatPow2Monotone(x, y);
    } else if y < 0 {
      NatPow2Monotone(-y, -x);
      ReciprocalAntitone(NatPow2(-y), NatPow2(-x));
    } else {
      var q := NatPow2(-x);
      assert 1.0 / q <= 1.0;
      assert 1.0 <= NatPow2(y);
    }
  }

  lemma ReciprocalAntitone(p: real, q: real)
    requires 0.0 < p <= q
    ensures 1.0 / q <= 1.0 / p
  {
    assert (1.0 / q) * q == 1.0 && (1.0 / p) * p == 1.0;
    assert (1.0 / q) * p <= (1.0 / q) * q;
  }

  lemma NegMul(m: real, p: real)
    ensures -(m * p) == (-m) * p
  {
  }

  lemma Pow2Neg(e: int)
    ensures Pow2(-e) * Pow2(e) == 1.0
  {
    Pow2Add(-e, e);
  }

  // ---------------------------------------------------------------------------
  // frexp

  /** The result of `frexp`: x == mant * 2^exp. */
  datatype Decomposed = Decomposed(mant: real, exp: int)

  /** d is what `frexp` (C11 7.12.6.4) returns for x: x == mant * 2^exp, where a
      non-zero x has 0.5 <= |mant| < 1 and mant of the sign of x, and frexp(0)
      is (0, 0). */
  ghost predicate IsFrexp(x: real, d: Decomposed) {
    && x == d.mant * Pow2(d.exp)
    && (x > 0.0 ==> 0.5 <= d.mant < 1.0)
    && (x < 0.0 ==> -1.0 < d.mant <= -0.5)
    && (x == 0.0 ==> d == Decomposed(0.0, 0))
  }

  /** `frexp`. */
  function Frexp(x: real): (d: Decomposed)
    ensures IsFrexp(x, d)
  {
    if x == 0.0 then Decomposed(0.0, 0)
    else if x > 0.0 then FrexpPos(x)
    else FrexpNeg(x)
  }

  function FrexpNeg(x: real): (d: Decomposed)
    requires x < 0.0
    ensures IsFrexp(x, d)
  {
    var d := FrexpPos(-x);
    FrexpOfNegation(x, d);
    Decomposed(-d.mant, d.exp)
  }

  lemma FrexpOfNegation(x: real, d: Decomposed)
    requires x < 0.0 && IsFrexp(-x, d)
    ensures IsFrexp(x, Decomposed(-d.mant, d.exp))
  {
    NegMul(d.mant, Pow2(d.exp));
  }

  function FrexpPos(x: real): (d: Decomposed)
    requires x > 0.0
    ensures IsFrexp(x, d)
  {
    if x >= 1.0 then FrexpUp(x) else FrexpDown(x)
  }

  /** Halves x >= 1 into [0.5, 1), counting the halvings. */
  function FrexpUp(x: real): (d: Decomposed)
    requires x >= 0.5
    ensures IsFrexp(x, d)
    decreases x.Floor
  {
    if x < 1.0 then
      FrexpOfMantissa(x);
      Decomposed(x, 0)
    else
      HalvingLowersFloor(x);
      var d := FrexpUp(x / 2.0);
      FrexpOfDouble(x / 2.0, d);
      Decomposed(d.mant, d.exp + 1)
  }

  /** Doubles 0 < x < 1 into [0.5, 1), counting the doublings. */
  function FrexpDown(x: real): (d: Decomposed)
    requires 0.0 < x < 1.0
    ensures IsFrexp(x, d)
    decreases (1.0 / x).Floor
  {
    if x >= 0.5 then
      FrexpOfMantissa(x);
      Decomposed(x, 0)
    else
      DoublingLowersReciprocalFloor(x);
      var d := FrexpDown(2.0 * x);
      FrexpOfHalf(2.0 * x, d);
      Decomposed(d.mant, d.exp - 1)
  }

  lemma FrexpOfMantissa(x: real)
    requires 0.5 <= x < 1.0
    ensures IsFrexp(x, Decomposed(x, 0))
  {
    assert Pow2(0) == 1.0;
  }

  lemma FrexpOfDouble(y: real, d: Decomposed)
    requires y > 0.0 && IsFrexp(y, d)
    ensures IsFrexp(2.0 * y, Decomposed(d.mant, d.exp + 1))
  {
    Pow2Succ(d.exp);
    var p := Pow2(d.exp);
    assert 2.0 * (d.mant * p) == d.mant * (2.0 * p);
  }

  lemma FrexpOfHalf(y: real, d: Decomposed)
    requires y > 0.0 && IsFrexp(y, d)
    ensures IsFrexp(y / 2.0, Decomposed(d.mant, d.exp - 1))
  {
    Pow2Succ(d.exp - 1);
    var p := Pow2(d.exp - 1);
    assert d.mant * (2.0 * p) / 2.0 == d.mant * p;
  }

  lemma HalvingLowersFloor(x: real)
    requires x >= 1.0
    ensures 0 <= (x / 2.0).Floor < x.Floor
  {
  }

  lemma DoublingLowersReciprocalFloor(x: real)
    requires 0.0 < x < 0.5
    ensures 0 <= (1.0 / (2.0 * x)).Floor < (1.0 / x).Floor
  {
    assert 1.0 / (2.0 * x) == (1.0 / x) / 2.0;
    assert 1.0 / x > 2.0;
  }
}
