/** What a solve promises, independent of how it is computed: the state
    enumeration, the exact classification of a*x^2 + b*x + c == 0 over the
    reals, the textbook roots, the exponent band of the complete case, and one
    result predicate per case. Both solver classes are proved against these
    predicates. */
module SolverSpec {
  import opened FloatingPoint

  /** The outcome classification of a solve. */
  datatype SolverState =
    | Uncertain
    | InvalidInput
    | AllReal
    | NoRoot
    | OneReal
    | TwoReal
    | OverUnderFlow

  /** The enumerator's underlying integer value (its position in the enum). */
  function Ordinal(s: SolverState): (n: int)
    ensures 0 <= n < 7
  {
    match s
    case Uncertain => 0
    case InvalidInput => 1
    case AllReal => 2
    case NoRoot => 3
    case OneReal => 4
    case TwoReal => 5
    case OverUnderFlow => 6
  }

  /** The enumerator with underlying value n. */
  function StateOf(n: int): (s: SolverState)
    requires 0 <= n < 7
    ensures Ordinal(s) == n
  {
    match n
    case 0 => Uncertain
    case 1 => InvalidInput
    case 2 => AllReal
    case 3 => NoRoot
    case 4 => OneReal
    case 5 => TwoReal
    case _ => OverUnderFlow
  }

  /** Ordinal and StateOf are inverse: the enum is its seven integers. */
  lemma OrdinalRoundTrip(s: SolverState)
    ensures StateOf(Ordinal(s)) == s
  {
    match s
    case Uncertain =>
    case InvalidInput =>
    case AllReal =>
    case NoRoot =>
    case OneReal =>
    case TwoReal =>
    case OverUnderFlow =>
  }

  /** The enumerator's own name, as the stringising `CASE_SOLVER_STATE` macro
      spells it. */
  function StateName(s: SolverState): string {
    match s
    case Uncertain => "UNCERTAIN"
    case InvalidInput => "INVALID_INPUT"
    case AllReal => "ALL_REAL"
    case NoRoot => "NO_ROOT"
    case OneReal => "ONE_REAL"
    case TwoReal => "TWO_REAL"
    case OverUnderFlow => "OVER_UNDER_FLOW"
  }

  /** The name of any other value of the enum variable. */
  const UnknownName: string := "UNKNOWN_ERROR"

  // ---------------------------------------------------------------------------
  // Integer exponent bookkeeping

  /** The lower edge of the band of `solve_complete` in which the discriminant
      is evaluated on the mantissas: `m_min + 2 * n_bit_f - 4`. */
  function EMin(t: FloatType): int {
    MMin(t) + 2 * NBitF(t) - 4
  }

  /** The upper edge of that band: `m_max - 2 - (n_bit_f >> 1)`. */
  function EMax(t: FloatType): int {
    MMax(t) - 2 - NBitF(t) / 2
  }

  /** The band edges of both formats. */
  lemma FormatConstants()
    ensures MMax(Double) == 1023 && MMin(Double) == -1022
    ensures EMin(Double) == -922 && EMax(Double) == 995
    ensures MMax(Float) == 127 && MMin(Float) == -126
    ensures EMin(Float) == -84 && EMax(Float) == 114
  {
    ExponentRange();
  }

  /** `x & ~1` on a two's-complement int: x with its lowest bit cleared, the
      largest even number not above x. */
  function ClearLowBit(x: int): (r: int)
    ensures r % 2 == 0
    ensures r == x || r == x - 1
  {
    x - x % 2
  }

  /** `x & 1` on a two's-complement int: 1 for odd x (also negative), else 0. */
  function LowBit(x: int): (r: int)
    ensures r == 0 || r == 1
    ensures (x - r) % 2 == 0
  {
    x % 2
  }

  /** `x >> 1` on a two's-complement int: the arithmetic shift, which rounds
      toward minus infinity. */
  function ShiftRight1(x: int): (r: int)
    ensures 2 * r <= x <= 2 * r + 1
  {
    x / 2
  }

  // ---------------------------------------------------------------------------
  // The equation over the reals

  /** The value of the polynomial at x. */
  function Poly(a: real, b: real, c: real, x: real): real {
    a * x * x + b * x + c
  }

  /** The discriminant b^2 - 4ac. `kahan_discriminant` computes it with a
      compensated product; in exact arithmetic both of its branches give it. */
  function Discriminant(a: real, b: real, c: real): real {
    b * b - 4.0 * a * c
  }

  /** The textbook root (-b + sg sqrt(b^2 - 4ac)) / 2a, for sg = 1 or -1. */
  ghost function Textbook(sqrt: real -> real, a: real, b: real, c: real, sg: real): real
    requires a != 0.0
  {
    (-b + sg * sqrt(Discriminant(a, b, c))) / (2.0 * a)
  }

  /** The definition of `Textbook`, for proofs that hide it. */
  lemma TextbookValue(sqrt: real -> real, a: real, b: real, c: real, sg: real)
    requires a != 0.0
    ensures Textbook(sqrt, a, b, c, sg) == (-b + sg * sqrt(Discriminant(a, b, c))) / (2.0 * a)
  {
  }

  /** Each textbook value solves the equation: where the discriminant is not
      negative, a*x^2 + b*x + c vanishes at (-b +- sqrt(b^2 - 4ac)) / 2a. */
  lemma TextbookIsRoot(sqrt: real -> real, a: real, b: real, c: real, sg: real)
    requires a != 0.0 && IsSqrt(sqrt) && Discriminant(a, b, c) >= 0.0 && (sg == 1.0 || sg == -1.0)
    ensures Poly(a, b, c, Textbook(sqrt, a, b, c, sg)) == 0.0
  {
    var d := Discriminant(a, b, c);
    var r := sqrt(d);
    SqrtFacts(sqrt, d);
    var x := Textbook(sqrt, a, b, c, sg);
    var u := 2.0 * a * x + b;
    assert u == sg * r;
    assert u * u == r * r by {
      assert sg * sg == 1.0;
    }
    assert 4.0 * a * Poly(a, b, c, x) == u * u - d;
  }

  /** The classification of a*x^2 + b*x + c == 0 over the reals: every real
      solves 0 == 0, a non-zero constant has no root, a linear equation one,
      and a quadratic one as many as the sign of its discriminant says. */
  function ExactState(a: real, b: real, c: real): (s: SolverState)
    ensures s in {AllReal, NoRoot, OneReal, TwoReal}
  {
    if a == 0.0 then
      if b == 0.0 then (if c == 0.0 then AllReal else NoRoot) else OneReal
    else
      var d := Discriminant(a, b, c);
      if d < 0.0 then NoRoot else if d == 0.0 then OneReal else TwoReal
  }

  /** The state a solve must reach before the overflow check: NaN or infinite
      coefficients are refused, finite ones are classified exactly. */
  function SolveState(a: Fp, b: Fp, c: Fp): (s: SolverState)
    ensures s == InvalidInput <==> !(a.Fin? && b.Fin? && c.Fin?)
  {
    if a.Fin? && b.Fin? && c.Fin? then ExactState(a.val, b.val, c.val) else InvalidInput
  }

  // ---------------------------------------------------------------------------
  // The exponent band of the complete case

  /** Where the exponent of the scaled constant term falls. */
  datatype Band = Below | Inside | Above

  /** ecp = ec + ea - 2 eb for the frexp exponents of a, b and c: the exponent
      of c / (b^2 / a), the size of the constant term against the others. */
  function Ecp(a: real, b: real, c: real): int {
    Frexp(c).exp + Frexp(a).exp - 2 * Frexp(b).exp
  }

  /** The three-way split of `solve_complete`: [e_min, e_max), below, and
      everything from e_max up. */
  function BandOf(t: FloatType, ecp: int): (band: Band)
    ensures band == Inside <==> EMin(t) <= ecp < EMax(t)
    ensures band == Below <==> ecp < EMin(t)
    ensures band == Above <==> EMax(t) <= ecp
  {
    FormatConstants();
    if EMin(t) <= ecp && ecp < EMax(t) then Inside
    else if ecp < EMin(t) then Below
    else Above
  }

  // ---------------------------------------------------------------------------
  // The two helpers both classes share

  /** `low_high_sort`: (z1, z2) is (y1, y2) or its swap, kept exactly when
      y1 < y2, and ascending whenever neither input is NaN. */
  predicate SortedPair(y1: Fp, y2: Fp, z1: Fp, z2: Fp) {
    && ((z1 == y1 && z2 == y2) || (z1 == y2 && z2 == y1))
    && (Lt(y1, y2) <==> z1 == y1 && z2 == y2 && y1 != y2)
    && (!y1.NaN? && !y2.NaN? ==> Le(z1, z2))
  }

  /** `keep_exponent`: m == m1 + m2 with m1 a normal exponent of the format
      (so 2^m1 is exact), m2 == 0 exactly when m is itself normal, and
      otherwise m1 the limit m lies beyond. */
  predicate ExponentSplit(t: FloatType, m: int, m1: int, m2: int) {
    && m1 + m2 == m
    && MMin(t) <= m1 <= MMax(t) && Pow2Fp(t, m1) == Fin(Pow2(m1))
    && (m2 == 0 <==> MMin(t) <= m <= MMax(t))
    && (m2 < 0 ==> m1 == MMin(t))
    && (m2 > 0 ==> m1 == MMax(t))
  }

  /** What `low_high_sort` returns: the pair kept when y1 < y2, swapped
      otherwise. It is the one pair `SortedPair` allows. */
  function LowHigh(y1: Fp, y2: Fp): (z: (Fp, Fp))
    ensures SortedPair(y1, y2, z.0, z.1)
  {
    if Lt(y1, y2) then (y1, y2) else (y2, y1)
  }

  /** What `keep_exponent` returns: m itself when it is a normal exponent,
      otherwise the limit it lies beyond and the excess. It is the one split
      `ExponentSplit` allows. */
  function KeptExponent(t: FloatType, m: int): (r: (int, int))
    ensures ExponentSplit(t, m, r.0, r.1)
  {
    ExponentRange();
    var r := if MMin(t) <= m <= MMax(t) then (m, 0)
             else if m < MMin(t) then (MMin(t), m - MMin(t))
             else (MMax(t), m - MMax(t));
    Pow2FpNormal(t, r.0);
    r
  }

  // ---------------------------------------------------------------------------
  // What each case leaves in (state, x1, x2)

  /** The three out-parameters (state, x1, x2) of a solve. */
  datatype Outcome = Outcome(state: SolverState, x1: Fp, x2: Fp)

  /** The two slots hold v and w, in one order or the other. */
  predicate DeliversPair(x1: Fp, x2: Fp, v: real, w: real) {
    (Delivers(x1, v) && Delivers(x2, w)) || (Delivers(x1, w) && Delivers(x2, v))
  }

  /** a == 0, b*x + c == 0: every real is a root (slots +inf, -inf), no root
      (NaN, NaN), or the one root -c/b, overflow-checked, with x2 NaN. */
  predicate LinearResult(t: FloatType, b: real, c: real, s: SolverState, x1: Fp, x2: Fp) {
    if b == 0.0 && c == 0.0 then s == AllReal && x1 == PosInf && x2 == NegInf
    else if b == 0.0 then s == NoRoot && x1.NaN? && x2.NaN?
    else s == OneReal && x1 == Round(t, -c / b) && x2.NaN?
  }

  /** b == 0, a*x^2 + c == 0: the double root 0 when c == 0, no root when a
      and c have the same sign, else the pair -r, r with r = sqrt(-c/a). */
  ghost predicate AxxPlusCResult(sqrt: real -> real, a: real, c: real, s: SolverState, x1: Fp, x2: Fp)
    requires a != 0.0
  {
    if c == 0.0 then s == OneReal && x1 == Zero && x2.NaN?
    else if a * c > 0.0 then s == NoRoot && x1.NaN? && x2.NaN?
    else s == TwoReal && x1 == Neg(x2) && Delivers(x2, sqrt(-c / a))
  }

  /** c == 0, a*x^2 + b*x == 0: the roots 0 and -b/a (overflow-checked), in
      ascending order. */
  predicate AxxPlusBxResult(t: FloatType, a: real, b: real, s: SolverState, x1: Fp, x2: Fp)
    requires a != 0.0
  {
    s == TwoReal &&
    if -b / a < 0.0 then x1 == Round(t, -b / a) && x2 == Zero
    else x1 == Zero && x2 == Round(t, -b / a)
  }

  /** a, b, c all non-zero. The state is the exact classification and a
      rootless result is (NaN, NaN). Inside the band the roots are the textbook
      roots, ascending; below it the constant term is negligible and the roots
      are -b/a and -c/b, ascending; above it the linear term is negligible and
      the roots are -r, r with r = sqrt(-c/a). */
  ghost predicate CompleteResult(t: FloatType, sqrt: real -> real, a: real, b: real, c: real,
                                 s: SolverState, x1: Fp, x2: Fp)
    requires a != 0.0 && b != 0.0
  {
    && s == ExactState(a, b, c)
    && (s == NoRoot ==> x1.NaN? && x2.NaN?)
    && match BandOf(t, Ecp(a, b, c))
       case Inside =>
         && (s == OneReal ==> Delivers(x1, -b / (2.0 * a)) && x2.NaN?)
         && (s == TwoReal ==>
              DeliversPair(x1, x2, Textbook(sqrt, a, b, c, -1.0), Textbook(sqrt, a, b, c, 1.0))
              && Le(x1, x2))
       case Below =>
         s == TwoReal && DeliversPair(x1, x2, -b / a, -c / b) && Le(x1, x2)
       case Above =>
         s == TwoReal ==> x1 == Neg(x2) && Delivers(x2, sqrt(-c / a))
  }

  /** The private `solve()`: NaN or infinite coefficients set only the state,
      so the slots keep what they held (o1, o2); otherwise the first zero among
      a, b, c picks the case. */
  ghost predicate Solved(t: FloatType, sqrt: real -> real, a: Fp, b: Fp, c: Fp,
                         s: SolverState, x1: Fp, x2: Fp, o1: Fp, o2: Fp)
  {
    if !(a.Fin? && b.Fin? && c.Fin?) then s == InvalidInput && x1 == o1 && x2 == o2
    else if a.val == 0.0 then LinearResult(t, b.val, c.val, s, x1, x2)
    else if b.val == 0.0 then AxxPlusCResult(sqrt, a.val, c.val, s, x1, x2)
    else if c.val == 0.0 then AxxPlusBxResult(t, a.val, b.val, s, x1, x2)
    else CompleteResult(t, sqrt, a.val, b.val, c.val, s, x1, x2)
  }

  /** The over/underflow check after a solve: a one-root result with a NaN or
      infinite root, or a two-root result with either root NaN or infinite,
      becomes OVER_UNDER_FLOW; every other state is kept. */
  function Finalised(s: SolverState, x1: Fp, x2: Fp): (r: SolverState)
    ensures r != OverUnderFlow ==> r == s
    ensures r == OverUnderFlow ==> s in {OneReal, TwoReal, OverUnderFlow}
    ensures r == OneReal ==> x1.Fin?
    ensures r == TwoReal ==> x1.Fin? && x2.Fin?
    ensures s == OneReal && x1.Fin? ==> r == OneReal
    ensures s == TwoReal && x1.Fin? && x2.Fin? ==> r == TwoReal
  {
    if (s == TwoReal && (!x1.Fin? || !x2.Fin?)) || (s == OneReal && !x1.Fin?) then OverUnderFlow
    else s
  }

  /** Whatever case handles them, the state a solve reaches is the one
      `SolveState` prescribes. */
  lemma SolvedState(t: FloatType, sqrt: real -> real, a: Fp, b: Fp, c: Fp,
                    s: SolverState, x1: Fp, x2: Fp, o1: Fp, o2: Fp)
    requires Solved(t, sqrt, a, b, c, s, x1, x2, o1, o2)
    ensures s == SolveState(a, b, c)
  {
    hide LinearResult, AxxPlusCResult, AxxPlusBxResult, CompleteResult, ExactState;
    if a.Fin? && b.Fin? && c.Fin? {
      if a.val == 0.0 {
        LinearState(t, b.val, c.val, s, x1, x2);
      } else if b.val == 0.0 {
        AxxPlusCState(sqrt, a.val, c.val, s, x1, x2);
      } else if c.val == 0.0 {
        AxxPlusBxState(t, a.val, b.val, s, x1, x2);
      } else {
        CompleteState(t, sqrt, a.val, b.val, c.val, s, x1, x2);
      }
    }
  }

  lemma LinearState(t: FloatType, b: real, c: real, s: SolverState, x1: Fp, x2: Fp)
    requires LinearResult(t, b, c, s, x1, x2)
    ensures s == ExactState(0.0, b, c)
  {
  }

  lemma AxxPlusCState(sqrt: real -> real, a: real, c: real, s: SolverState, x1: Fp, x2: Fp)
    requires a != 0.0
    requires AxxPlusCResult(sqrt, a, c, s, x1, x2)
    ensures s == ExactState(a, 0.0, c)
  {
    PureQuadraticState(a, c);
  }

  lemma AxxPlusBxState(t: FloatType, a: real, b: real, s: SolverState, x1: Fp, x2: Fp)
    requires a != 0.0 && b != 0.0
    requires AxxPlusBxResult(t, a, b, s, x1, x2)
    ensures s == ExactState(a, b, 0.0)
  {
    NoConstantState(a, b);
  }

  lemma CompleteState(t: FloatType, sqrt: real -> real, a: real, b: real, c: real,
                      s: SolverState, x1: Fp, x2: Fp)
    requires a != 0.0 && b != 0.0
    requires CompleteResult(t, sqrt, a, b, c, s, x1, x2)
    ensures s == ExactState(a, b, c)
  {
  }

  /** With b == 0 the state follows the sign of a * c. */
  lemma PureQuadraticState(a: real, c: real)
    requires a != 0.0
    ensures c == 0.0 ==> ExactState(a, 0.0, c) == OneReal
    ensures a * c > 0.0 ==> ExactState(a, 0.0, c) == NoRoot
    ensures a * c < 0.0 ==> ExactState(a, 0.0, c) == TwoReal
  {
    assert Discriminant(a, 0.0, c) == -4.0 * (a * c);
  }

  /** With c == 0 and b != 0 there are always two roots, 0 and -b / a. */
  lemma NoConstantState(a: real, b: real)
    requires a != 0.0 && b != 0.0
    ensures ExactState(a, b, 0.0) == TwoReal
  {
    hide Discriminant;
    NoConstantDiscriminant(a, b);
    ProductSign(Abs(b), Abs(-b));
  }

  /** With c = 0 the discriminant is b^2, written as |b| * |-b| so that its sign follows from the factors'. */
  lemma NoConstantDiscriminant(a: real, b: real)
    ensures Discriminant(a, b, 0.0) == Abs(b) * Abs(-b)
  {
  }
}
