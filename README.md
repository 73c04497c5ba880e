# QuadraticEquationSolver, modelled in Dafny

`QuadtraticEquationSolver<T>` (for `T` = `float` or `double`) solves
a·x² + b·x + c = 0 and reports one of seven outcomes, with the roots
(x1, x2):

- `UNCERTAIN`
- `INVALID_INPUT` (a NaN or infinite coefficient)
- `ALL_REAL` (0 = 0)
- `NO_ROOT`
- `ONE_REAL`
- `TWO_REAL`
- `OVER_UNDER_FLOW` (a root that should exist is not finite)

It picks one of four cases by which coefficients are zero.

In the complete case it does not evaluate b² − 4ac directly, because that
overflows:

- It splits each coefficient with `frexp` into a mantissa in [0.5, 1) and a
  power of two.
- It computes ecp = ec + ea − 2·eb, the size of the constant term against
  the others.
- Inside the band [e_min, e_max), it solves the mantissa equation with the
  discriminant. Below the band, the constant term is negligible. Above it,
  the linear term is.
- It scales the mantissa roots back by powers of two, in two steps that
  `keep_exponent` keeps within the exponent range.

`QuadraticEquationSolver.cpp` is an older, hand-written `double`-only copy
of the same class.

`test/test.h` and `demo.cpp` hold a reference solver that evaluates the
textbook formula in the floating-point type. They also hold the comparison
the test drivers apply to the two answers.

## The model

- `floating_point.dfy` (module `FloatingPoint`): an IEEE value is NaN, ±∞
  or a finite real. Arithmetic is exact except for overflow: a result
  larger than the format's largest finite value becomes the infinity of its
  sign. The module also holds the format constants of `float` and `double`,
  `frexp`, and `std::pow(2, e)`. It also holds the two-step scaling
  x·2^e2·2^e1, together with what each step delivers.
- `solver_spec.dfy` (module `SolverSpec`): the specification.
  - The seven states.
  - The exact classification of a real equation (`ExactState`).
  - One result predicate per case of the solver, saying what
    (state, x1, x2) must hold.
  - The contracts of `low_high_sort` and `keep_exponent`, which both
    classes share (`SortedPair`, `ExponentSplit`).
  - The over/underflow check (`Finalised`).
  - The lemma that every case reaches the exact classification, and that
    the textbook values are roots of the equation.
- `solver_algebra.dfy` and `solver_cases.dfy` (modules `SolverAlgebra` and
  `SolverCases`): the algebra of the rescaling, and one lemma per branch of
  `solve_complete` establishing its result predicate. The rescaling algebra
  covers the mantissa roots times 2^k being the textbook roots, and the
  band edges deciding the sign of the discriminant. `OrderedTwoReal` shows
  that every path leaves a surviving `TWO_REAL` result in ascending order.
- `solver.dfy` (module `QuadraticEquationSolver`): the template class,
  parameterised by the format, as a Dafny class with the same fields. Each
  private method is proved against its result predicate, and `Solve`
  against the whole specification. The module also defines one outcome
  function per method (`LinearOutcome`, …, `CompleteOutcome`,
  `CasesOutcome`, `SolveOutcome`). Each method is proved to leave exactly
  its function's (state, x1, x2). `SolveIdempotent` uses this to show that
  a second `solve` changes nothing.
- `legacy_solver.dfy` (module `LegacySolver`): the `double`-only class of
  `QuadraticEquationSolver.cpp`, with its own constants and copies of the
  helpers. It is proved against the same specification at `double`, and
  its constants are proved equal to the template's. Each of its methods
  leaves exactly the template's outcome at `double`, so the two classes
  agree on every input.
- `naive.dfy` (module `NaiveReference`): demo.cpp's `naive_solver`
  (a function) and `is_same_result`.
- `test_harness.dfy` (module `TestHarness`): test.h's imperative
  `naive_solver` with its final over/underflow check, and `str_center`.
- `concrete_cases.dfy` (module `ConcreteCases`): two equations of the test
  drivers, x² − 9 = 0 and 6x² − 33x + 45 = 0, worked through both solvers.

The code differs from two of its own comments. The model follows the code:

- The comment on `m` in `sqrt_minus_c_div_a` (QuadraticEquationSolver.h:238,
  QuadraticEquationSolver.cpp:189) says the even part of ecp is taken
  towards zero. `ecp & ~1` rounds down instead: for ecp = −3 it gives −4,
  so m is −2, not −1. `SolverAlgebra.ExponentHalving` proves that m is
  ecp/2 rounded down, and the roots are proved right with that m.
- The last branch of `solve_complete` is commented `ecp > e_max`
  (QuadraticEquationSolver.h:344, QuadraticEquationSolver.cpp:295). It also
  takes ecp == e_max, and `SolverSpec.BandOf` puts e_max in that branch.

Two facts about the code that the model states outright:

- `invalid_input()` sets only the state. x1 and x2 keep what they held.
- For a·x² + b·x = 0 the code's sign test always puts the smaller root
  first, so the pair is proved ascending.

## Model

| member | source | states |
|---|---|---|
| FloatingPoint.Round | QuadraticEquationSolver.h:223 | an IEEE operation's result is finite exactly when the exact value fits the format, and then it is that value; otherwise it is the infinity of the value's sign, never NaN |
| FloatingPoint.RoundDelivers | QuadraticEquationSolver.h:276 | every overflow-checked result delivers the exact value: equal to it, or an infinity of its sign |
| FloatingPoint.DeliveriesOrdered | QuadraticEquationSolver.h:321 | finite results that deliver v ≤ w are ordered the same way (strictly when v < w), so sorting the computed roots sorts the true ones |
| FloatingPoint.ScaleBack | QuadraticEquationSolver.h:319 | (y·2^e2)·2^e1, each product overflow-checked, delivers y·2^(e2+e1) for non-zero y, and is exactly y·2^(e2+e1) when both powers, y·2^e2 and the result fit the format; its value is the one `Rescaled` names, which the outcome functions use |
| FloatingPoint.TimesPow2 | QuadraticEquationSolver.h:243 | x·`std::pow(2, e)` is x·2^e exactly when finite, NaN only from a NaN or zero x, keeps the sign of x, and is finite and exact for a finite x when 2^e and x·2^e fit the format |
| FloatingPoint.StepsDeliver | QuadraticEquationSolver.h:352 | two scaling steps by positive factors deliver the value times their product |
| FloatingPoint.Pow2FpNormal | QuadraticEquationSolver.h:308 | `std::pow(2, e)` is exactly 2^e for every exponent within [m_min, m_max] |
| FloatingPoint.Pow2Add | QuadraticEquationSolver.h:319 | 2^x·2^y == 2^(x+y) for all integers x, y |
| FloatingPoint.NatPow2Add | QuadraticEquationSolver.h:319 | 2^(x+y) == 2^x·2^y for naturals, by induction on x |
| FloatingPoint.ExponentRange | QuadraticEquationSolver.h:59-62 | m_max is 1023 for double and 127 for float; m_min is −1022 and −126 |
| FloatingPoint.MaxFiniteValue | QuadraticEquationSolver.h:59-60 | the largest finite value is (2 − 2^−n_bit_f)·2^m_max |
| FloatingPoint.LargestPowerIsFinite | QuadraticEquationSolver.h:61 | 2^m_max is finite in both formats |
| FloatingPoint.Frexp | QuadraticEquationSolver.h:295-297 | `frexp(x)` returns (m, e) with x == m·2^e, 0.5 ≤ \|m\| < 1 with the sign of x, and (0, 0) for 0 |
| FloatingPoint.SqrtOfScaled | QuadraticEquationSolver.h:351 | sqrt(p²·r) == p·sqrt(r) for non-negative p, r |
| FloatingPoint.SqrtUnique | QuadraticEquationSolver.h:240 | a non-negative square root is unique |
| SolverSpec.OrdinalRoundTrip | QuadraticEquationSolver.h:13-22 | the seven enumerators are numbered 0..6, and each number maps back to its enumerator |
| SolverSpec.FormatConstants | QuadraticEquationSolver.h:304-305 | e_min and e_max are −922 and 995 for double, and −84 and 114 for float |
| SolverSpec.ClearLowBit | QuadraticEquationSolver.h:328 | `ecp & ~1` is even and is ecp or ecp − 1 |
| SolverSpec.LowBit | QuadraticEquationSolver.h:330 | `ecp & 1` is 0 or 1, of the parity of ecp |
| SolverSpec.ShiftRight1 | QuadraticEquationSolver.h:329 | `x >> 1` is the floor of x/2 |
| SolverSpec.LowHigh | QuadraticEquationSolver.h:121-134 | the pair `low_high_sort` leaves meets `SortedPair`: the inputs kept when y1 < y2, swapped otherwise, ascending when neither is NaN |
| SolverSpec.KeptExponent | QuadraticEquationSolver.h:136-153 | the split `keep_exponent` returns meets `ExponentSplit`: the parts add up to m, and the first is a normal exponent |
| SolverSpec.SolveState | QuadraticEquationSolver.h:360-364 | `INVALID_INPUT` exactly when a coefficient is NaN or infinite |
| SolverSpec.BandOf | QuadraticEquationSolver.h:306-344 | the three branches of `solve_complete` partition the exponents: inside [e_min, e_max), below, above |
| SolverSpec.Finalised | QuadraticEquationSolver.h:386-389 | the over/underflow check changes only a one-root result with a non-finite x1, or a two-root result with a non-finite slot, and leaves only finite roots behind `ONE_REAL`/`TWO_REAL` |
| SolverSpec.SolvedState | QuadraticEquationSolver.h:357-381 | whichever case handles them, finite coefficients reach the exact real classification, and non-finite ones `INVALID_INPUT` |
| SolverSpec.LinearState | QuadraticEquationSolver.h:198-227 | the linear case classifies b·x + c = 0 exactly |
| SolverSpec.AxxPlusCState | QuadraticEquationSolver.h:248-269 | the b == 0 case classifies a·x² + c = 0 exactly |
| SolverSpec.AxxPlusBxState | QuadraticEquationSolver.h:271-288 | the c == 0 case classifies a·x² + b·x = 0 exactly (two roots) |
| SolverSpec.CompleteState | QuadraticEquationSolver.h:290-355 | the complete case classifies the equation exactly |
| SolverSpec.PureQuadraticState | QuadraticEquationSolver.h:250-267 | a·x² + c = 0 has one root when c == 0, none when a·c > 0, and two when a·c < 0 |
| SolverSpec.NoConstantState | QuadraticEquationSolver.h:271-288 | a·x² + b·x = 0 with a, b ≠ 0 always has two distinct roots |
| SolverSpec.TextbookIsRoot | QuadraticEquationSolver.h:316-320 | each textbook value (−b ± sqrt(b² − 4ac))/2a, which the two roots deliver, solves a·x² + b·x + c = 0 when the discriminant is not negative |
| SolverAlgebra.MantissaBounds | QuadraticEquationSolver.h:295-297 | a frexp mantissa lies in [0.5, 1) in magnitude and has the sign of its argument |
| SolverAlgebra.FrexpUnique | QuadraticEquationSolver.h:295-297 | the frexp decomposition of a value is unique |
| SolverAlgebra.ExponentHalving | QuadraticEquationSolver.h:328-330 | ecp == 2·((ecp & ~1) >> 1) + (ecp & 1), and the shift is ecp/2 rounded down |
| SolverAlgebra.RescaleIdentity | QuadraticEquationSolver.h:299-302 | substituting x = y·2^k turns the equation into 2^(2eb−ea) times the mantissa equation with constant c2·2^ecp |
| SolverAlgebra.DiscriminantRescaled | QuadraticEquationSolver.h:308-309 | the true discriminant is 2^(2eb) times the mantissa discriminant, so both have the same sign |
| SolverAlgebra.MantissaRoots | QuadraticEquationSolver.h:317-318 | the cancellation-free form −2cp/(b2 + sign(b)·sqrt(δ)) equals the other textbook root of the mantissa equation, and its denominator is non-zero |
| SolverAlgebra.SqrtRescaled | QuadraticEquationSolver.h:317-320 | sqrt of the true discriminant is 2^eb times sqrt of the mantissa one |
| SolverAlgebra.InBandRoots | QuadraticEquationSolver.h:317-320 | y1·2^k and y2·2^k are the two textbook roots of the original equation |
| SolverAlgebra.TextbookRescaled | QuadraticEquationSolver.h:318-320 | a mantissa textbook root times 2^k is the corresponding original root |
| SolverAlgebra.DoubleRootRescaled | QuadraticEquationSolver.h:325 | (−b2/2a2)·2^k is the double root −b/2a |
| SolverAlgebra.BelowBandLinearRoot | QuadraticEquationSolver.h:335-338 | below the band, (−b2/a2)·2^k is −b/a |
| SolverAlgebra.BelowBandConstantRoot | QuadraticEquationSolver.h:331-339 | below the band, (c3/(a2·y1))·2^(dm+k) is −c/b |
| SolverAlgebra.SqrtOfQuotient | QuadraticEquationSolver.h:238-243 | sqrt(−c3/a2)·2^m is sqrt(−c/a) when a and c have opposite signs |
| SolverAlgebra.SmallConstantTerm | QuadraticEquationSolver.h:333 | below e_min the mantissa discriminant is positive, so two real roots are certain |
| SolverAlgebra.LargeConstantTerm | QuadraticEquationSolver.h:344-349 | above e_max the sign of a·c alone decides between no root and two roots |
| SolverCases.SplitFacts | QuadraticEquationSolver.h:295-302 | the frexp parts rebuild the coefficients, and ecp is ec + ea − 2·eb |
| SolverCases.DiscriminantSign | QuadraticEquationSolver.h:308-315 | the mantissa discriminant δ has the sign of b² − 4ac |
| SolverCases.InBandNoRoot | QuadraticEquationSolver.h:310-314 | δ < 0 inside the band gives `NO_ROOT` (NaN, NaN), as the specification requires |
| SolverCases.InBandOneReal | QuadraticEquationSolver.h:325 | δ == 0 gives `ONE_REAL` with the double root −b/2a |
| SolverCases.InBandTwoReal | QuadraticEquationSolver.h:315-324 | δ > 0 gives `TWO_REAL` with the two textbook roots, ascending |
| SolverCases.BelowBandState | QuadraticEquationSolver.h:333 | below the band the equation has two real roots |
| SolverCases.AboveBandState | QuadraticEquationSolver.h:345 | above the band the signs of a and c decide between no root and two roots |
| SolverCases.BelowBand | QuadraticEquationSolver.h:333-343 | below the band the roots are −b/a and −c/b, ascending |
| SolverCases.AboveNoRoot | QuadraticEquationSolver.h:345-349 | above the band, with a and c of one sign, the result is `NO_ROOT` |
| SolverCases.AboveTwoReal | QuadraticEquationSolver.h:350-354 | above the band, with opposite signs, the roots are ±sqrt(−c/a) |
| SolverCases.SqrtMinusCDivA | QuadraticEquationSolver.h:229-246 | `sqrt_minus_c_div_a` gives `TWO_REAL` with x1 == −x2 and x2 delivering sqrt(−c/a) |
| SolverCases.OrderedTwoReal | QuadraticEquationSolver.h:383-394 | on every path, a `TWO_REAL` result that survives the over/underflow check has x1 ≤ x2 |
| SolverCases.CompleteOrdered | QuadraticEquationSolver.h:290-355 | a finite `TWO_REAL` result of the complete case is ascending in all three bands, including above the band, where the pair is −r, r |
| SolverCases.OppositePairOrdered | QuadraticEquationSolver.h:243-244 | for a and c of opposite signs, the pair −x2, x2 with x2 delivering sqrt(−c/a) is ascending when finite |
| QuadraticEquationSolver.Sign | QuadraticEquationSolver.h:10 | `sign` is −1 exactly below zero, else 1 (also for NaN) |
| QuadraticEquationSolver.SignMatchesProduct | QuadraticEquationSolver.h:258 | for non-zero finite values, equal signs mean a positive product |
| QuadraticEquationSolver.SignOfNaN | QuadraticEquationSolver.h:10 | `sign(NaN)` is 1 |
| QuadraticEquationSolver.InvalidInputMeansNotFinite | QuadraticEquationSolver.h:11 | `is_invalid_input` holds exactly for values that are not finite |
| QuadraticEquationSolver.PrintSolverState | QuadraticEquationSolver.h:407-428 | each enumerator prints as its own name, and any other value as "UNKNOWN_ERROR" |
| QuadraticEquationSolver.PrintedNamesDistinct | QuadraticEquationSolver.h:407-428 | different states print differently, and never as "UNKNOWN_ERROR" |
| QuadraticEquationSolver.QuotientSign | QuadraticEquationSolver.h:274-287 | −b/a is negative exactly when a and b have one sign |
| QuadraticEquationSolver.InBandQuotients | QuadraticEquationSolver.h:317-318 | with sb the sign of b and δ > 0, the denominator b2 + sb·sqrt(δ) and both mantissa roots are non-zero, so no division by zero occurs and the scaled roots keep their signs |
| QuadraticEquationSolver.IsInvalidInput | QuadraticEquationSolver.h:11 | the `is_invalid_input` macro holds exactly for values that are not finite (NaN or ±∞) |
| QuadraticEquationSolver.LinearOutcome | QuadraticEquationSolver.h:198-227 | the exact (state, x1, x2) of `solve_linear`; for finite b and c it meets the linear table `LinearResult` |
| QuadraticEquationSolver.SqrtMinusCDivAOutcome | QuadraticEquationSolver.h:229-246 | the exact (state, x1, x2) of `sqrt_minus_c_div_a`: `TWO_REAL` with x1 == −x2 |
| QuadraticEquationSolver.AxxPlusCOutcome | QuadraticEquationSolver.h:248-269 | the exact (state, x1, x2) of `solve_axx_plus_c`: `ONE_REAL` (0, NaN) exactly when c == 0, `NO_ROOT` (NaN, NaN) exactly when a·c > 0, `TWO_REAL` exactly when a·c < 0 |
| QuadraticEquationSolver.AxxPlusBxOutcome | QuadraticEquationSolver.h:271-288 | the exact (state, x1, x2) of `solve_axx_plus_bx`; for non-zero finite a and b it meets `AxxPlusBxResult`: `TWO_REAL` with 0 and −b/a, the smaller first |
| QuadraticEquationSolver.InBandOutcome | QuadraticEquationSolver.h:306-327 | the exact in-band (state, x1, x2): `NO_ROOT`, `ONE_REAL` or `TWO_REAL` exactly as the mantissa discriminant is negative, zero or positive, and two roots that are not NaN are ascending |
| QuadraticEquationSolver.BelowBandOutcome | QuadraticEquationSolver.h:328-343 | the exact below-band (state, x1, x2): always `TWO_REAL`, and two roots that are not NaN are ascending |
| QuadraticEquationSolver.AboveBandOutcome | QuadraticEquationSolver.h:344-354 | the exact above-band (state, x1, x2): `NO_ROOT` exactly when a and c have one sign, otherwise `TWO_REAL` with x1 == −x2 |
| QuadraticEquationSolver.CompleteOutcome | QuadraticEquationSolver.h:290-355 | the exact (state, x1, x2) of `solve_complete`: no root with (NaN, NaN), one root with x2 NaN, or two roots |
| QuadraticEquationSolver.CasesOutcome | QuadraticEquationSolver.h:357-381 | the exact (state, x1, x2) of the private `solve()`: `INVALID_INPUT` exactly for a non-finite coefficient, and then the old slots; never `UNCERTAIN` or `OVER_UNDER_FLOW` |
| QuadraticEquationSolver.SolveOutcome | QuadraticEquationSolver.h:383-394 | the (state, x1, x2) that `solve(r1, r2)` leaves, as a function of the format, the coefficients and the old slots; a non-finite coefficient leaves `INVALID_INPUT` and the old slots |
| QuadraticEquationSolver.SolveIdempotent | QuadraticEquationSolver.h:383-394 | solving again from the state and slots a solve left gives the same state and slots, for every input and every old slot value |
| QuadraticEquationSolver.QuadtraticEquationSolver.constructor | QuadraticEquationSolver.h:65-71 | the coefficients are stored, both slots are 0, the state is `UNCERTAIN` |
| QuadraticEquationSolver.QuadtraticEquationSolver.MarkInvalidInput | QuadraticEquationSolver.h:91-95 | only the state changes, to `INVALID_INPUT` |
| QuadraticEquationSolver.QuadtraticEquationSolver.MarkAllReal | QuadraticEquationSolver.h:97-103 | `ALL_REAL` with slots (+∞, −∞) |
| QuadraticEquationSolver.QuadtraticEquationSolver.MarkNoRoot | QuadraticEquationSolver.h:105-111 | `NO_ROOT` with slots (NaN, NaN) |
| QuadraticEquationSolver.QuadtraticEquationSolver.MarkOneReal | QuadraticEquationSolver.h:113-119 | `ONE_REAL` with slots (x, NaN) |
| QuadraticEquationSolver.QuadtraticEquationSolver.LowHighSort | QuadraticEquationSolver.h:121-134 | `SolverSpec.SortedPair`: the output is the input pair or its swap, kept exactly when y1 < y2, and ascending whenever neither is NaN; the pair is `SolverSpec.LowHigh(y1, y2)` |
| QuadraticEquationSolver.QuadtraticEquationSolver.KeepExponent | QuadraticEquationSolver.h:136-153 | `SolverSpec.ExponentSplit`: m1 + m2 == m, m1 is a normal exponent (so 2^m1 is exact), m2 == 0 exactly when m is in range, and otherwise m1 is the nearer limit; the split is `SolverSpec.KeptExponent(t, m)` |
| QuadraticEquationSolver.QuadtraticEquationSolver.SolveLinear | QuadraticEquationSolver.h:198-227 | b·x + c = 0: all reals (+∞, −∞), no root (NaN, NaN), or the one root −c/b, overflow-checked |
| QuadraticEquationSolver.QuadtraticEquationSolver.SqrtMinusCDivA | QuadraticEquationSolver.h:229-246 | for a and c of opposite signs: `TWO_REAL`, x1 == −x2, and x2 delivers sqrt(−c/a) |
| QuadraticEquationSolver.QuadtraticEquationSolver.SolveAxxPlusC | QuadraticEquationSolver.h:248-269 | a·x² + c = 0: the double root 0, no root, or ±sqrt(−c/a) |
| QuadraticEquationSolver.QuadtraticEquationSolver.SolveAxxPlusBx | QuadraticEquationSolver.h:271-288 | a·x² + b·x = 0: `TWO_REAL` with roots 0 and −b/a (overflow-checked), the smaller first |
| QuadraticEquationSolver.QuadtraticEquationSolver.SolveComplete | QuadraticEquationSolver.h:290-355 | all coefficients non-zero: the exact state, and inside the band the textbook roots, ascending, delivered; below it −b/a and −c/b; above it ±sqrt(−c/a) |
| QuadraticEquationSolver.QuadtraticEquationSolver.SolveInBand | QuadraticEquationSolver.h:306-327 | the in-band branch meets the complete-case specification for every sign of δ |
| QuadraticEquationSolver.QuadtraticEquationSolver.SolveInBandTwoReal | QuadraticEquationSolver.h:315-324 | δ > 0: the sorted rescaled mantissa roots are the textbook roots, ascending |
| QuadraticEquationSolver.QuadtraticEquationSolver.SolveBelowBand | QuadraticEquationSolver.h:328-343 | below the band: `TWO_REAL` with −b/a and −c/b, ascending |
| QuadraticEquationSolver.QuadtraticEquationSolver.SolveAboveBand | QuadraticEquationSolver.h:344-354 | above the band: no root for a and c of one sign, else ±sqrt(−c/a) |
| QuadraticEquationSolver.QuadtraticEquationSolver.SolveCases | QuadraticEquationSolver.h:357-381 | non-finite input sets only `INVALID_INPUT`; otherwise the first zero coefficient picks the case, and the case's specification holds |
| QuadraticEquationSolver.QuadtraticEquationSolver.Solve | QuadraticEquationSolver.h:383-394 | the case's specification holds with the exact classification, the state is that classification after the over/underflow check, a final `TWO_REAL` has x1 ≤ x2, the returned values are the new state and slots, and (state, x1, x2) is exactly `SolveOutcome` of the coefficients and the old slots, so a second solve changes nothing (`SolveIdempotent`) |
| QuadraticEquationSolver.QuadtraticEquationSolver.Reset | QuadraticEquationSolver.h:396-405 | new coefficients, slots 0, state `UNCERTAIN` |
| QuadraticEquationSolver.QuadtraticEquationSolver.PrintState | QuadraticEquationSolver.h:430-434 | the current state's name, never "UNKNOWN_ERROR" |
| LegacySolver.CppConstants | QuadraticEquationSolver.cpp:4-8 | the file's n_bit_e, n_bit_f, m_max and m_min are the template's at double, and so are its e_min and e_max |
| LegacySolver.PrintSolverState | QuadraticEquationSolver.cpp:10-30 | the codes 0..6 print as their enumerator's name, and every other code as "UNKNOWN_ERROR" |
| LegacySolver.PrintSolverStateAgrees | QuadraticEquationSolver.cpp:10-30 | the file's `print_solver_state` prints what the template's does, for every value |
| LegacySolver.Sign | QuadraticEquationSolver.cpp:32-39 | −1 exactly below zero, else 1, the same as the template's `sign` |
| LegacySolver.IsInvalidInput | QuadraticEquationSolver.cpp:73-76 | the static `is_invalid_input` holds exactly for values that are not finite |
| LegacySolver.IsInvalidInputAgrees | QuadraticEquationSolver.cpp:73-76 | it refuses exactly the non-finite values, like the template's macro |
| LegacySolver.LowHighSort | QuadraticEquationSolver.cpp:41-53 | `SolverSpec.SortedPair`, the template's `low_high_sort` contract, and the same pair `SolverSpec.LowHigh` |
| LegacySolver.KeepExponent | QuadraticEquationSolver.cpp:55-71 | with the file's own limits, `SolverSpec.ExponentSplit` at double, the template's `keep_exponent` contract, and the same split `SolverSpec.KeptExponent` |
| LegacySolver.QuadtraticEquationSolver.constructor | QuadraticEquationSolver.cpp:116-120 | the coefficients are stored, both slots are 0, the state is `UNCERTAIN` |
| LegacySolver.QuadtraticEquationSolver.MarkInvalidInput | QuadraticEquationSolver.cpp:126-129 | only the state changes, to `INVALID_INPUT` |
| LegacySolver.QuadtraticEquationSolver.MarkAllReal | QuadraticEquationSolver.cpp:131-136 | `ALL_REAL` with slots (+∞, −∞) |
| LegacySolver.QuadtraticEquationSolver.MarkNoRoot | QuadraticEquationSolver.cpp:138-143 | `NO_ROOT` with slots (NaN, NaN) |
| LegacySolver.QuadtraticEquationSolver.MarkOneReal | QuadraticEquationSolver.cpp:145-150 | `ONE_REAL` with slots (x, NaN) |
| LegacySolver.QuadtraticEquationSolver.SolveLinear | QuadraticEquationSolver.cpp:152-180 | the linear-case specification at double |
| LegacySolver.QuadtraticEquationSolver.SqrtMinusCDivA | QuadraticEquationSolver.cpp:182-197 | `TWO_REAL`, x1 == −x2, and x2 delivers sqrt(−c/a) |
| LegacySolver.QuadtraticEquationSolver.SolveAxxPlusC | QuadraticEquationSolver.cpp:199-219 | the b == 0 specification |
| LegacySolver.QuadtraticEquationSolver.SolveAxxPlusBx | QuadraticEquationSolver.cpp:221-237 | the c == 0 specification at double |
| LegacySolver.QuadtraticEquationSolver.SolveComplete | QuadraticEquationSolver.cpp:239-308 | the complete-case specification at double, with the file's literal band edges |
| LegacySolver.QuadtraticEquationSolver.SolveInBand | QuadraticEquationSolver.cpp:253-280 | the in-band branch, with NO_ROOT and ONE_REAL written out inline, meets the complete-case specification |
| LegacySolver.QuadtraticEquationSolver.SolveInBandTwoReal | QuadraticEquationSolver.cpp:264-273 | δ > 0: the textbook roots, ascending |
| LegacySolver.QuadtraticEquationSolver.SolveBelowBand | QuadraticEquationSolver.cpp:281-294 | below the band: −b/a and −c/b, ascending |
| LegacySolver.QuadtraticEquationSolver.SolveAboveBand | QuadraticEquationSolver.cpp:295-307 | above the band: no root, or ±sqrt(−c/a) |
| LegacySolver.QuadtraticEquationSolver.SolveCases | QuadraticEquationSolver.cpp:310-333 | the same dispatch specification as the template's private `solve()` |
| LegacySolver.QuadtraticEquationSolver.Solve | QuadraticEquationSolver.cpp:335-345 | the same specification as the template's `solve(r1, r2)` at double, including x1 ≤ x2 for a final `TWO_REAL`; (state, x1, x2) is exactly the template's `SolveOutcome` at double, so the two classes give identical results and a second solve changes nothing |
| LegacySolver.QuadtraticEquationSolver.Reset | QuadraticEquationSolver.cpp:347-355 | new coefficients, slots 0, state `UNCERTAIN` |
| NaiveReference.NaiveSolver | demo.cpp:9-65 | the reference never reports `UNCERTAIN` or `OVER_UNDER_FLOW`, refuses exactly the non-finite inputs, leaves NaN in the slots of rootless results, NaN in x2 of a one-root result, and (+∞, −∞) for 0 = 0 |
| NaiveReference.NaiveLinear | demo.cpp:20-46 | for a == 0 the reference gives exactly the solver's linear result |
| NaiveReference.NaiveDeltaExact | demo.cpp:47 | when nothing overflows, the computed b·b − 4·a·c is the exact discriminant |
| NaiveReference.NaiveQuadratic | demo.cpp:47-64 | when nothing overflows, the reference classifies a quadratic exactly, and its roots deliver −b/2a and the two textbook roots |
| NaiveReference.QuotientDelivers | demo.cpp:62-63 | dividing a value that delivers n by a finite non-zero d delivers n/d |
| NaiveReference.NaiveAgreesWithSolver | demo.cpp:9-65 | wherever the reference does not overflow, it reaches the solver's state before the over/underflow check |
| NaiveReference.NaiveDeltaFinite | demo.cpp:47 | `b * b - 4 * a * c` evaluated in the format: when it is finite, the coefficients are finite and it is the exact discriminant |
| NaiveReference.IsSameResult | demo.cpp:105-125 | a match needs equal states; rootless states match on the state alone; `ONE_REAL` matches exactly when x1 is equal and not NaN, and `TWO_REAL` when both slots are (the template `is_same_result` of test/test.h is the same comparison) |
| NaiveReference.SameResultFacts | demo.cpp:105-125 | `is_same_result` is symmetric and requires equal states; rootless states match on the state alone; the second slot counts only for `TWO_REAL`; a NaN root never matches |
| TestHarness.IsInvalidRoot | test/test.h:82 | the `is_invalid_root` macro holds exactly for values that are not finite |
| TestHarness.NaiveSolver | test/test.h:11-88 | the slots are the demo reference's, and the state is its state after the solver's over/underflow check; `ONE_REAL`/`TWO_REAL` come only with finite roots |
| TestHarness.CheckedResultMatchesItself | test/test.h:130-151 | a checked result always matches itself; an unchecked `TWO_REAL` with a NaN root does not |
| TestHarness.StrCenter | test/test.h:153-158 | the result has width w, holds the caption at (w − \|tips\|)/2 and blanks elsewhere, with the right padding equal to the left or one more |
| ConcreteCases.PureQuadraticExample | test/double_test.cpp:34 | for x² − 9 = 0 the b == 0 case gives `TWO_REAL`, and finite slots hold exactly −3 and 3 |
| ConcreteCases.CompleteExample | test/double_test.cpp:53 | 6x² − 33x + 45 = 0 lies inside the band (ecp == −3), δ > 0, and finite slots hold exactly 2.5 and 3, ascending |
| ConcreteCases.ExampleFrexp | QuadraticEquationSolver.h:295-302 | frexp(6) == (0.75, 3), frexp(−33) == (−33/64, 6), frexp(45) == (45/64, 6), and ecp == −3 |
| ConcreteCases.NaivePureQuadratic | test/double_test.cpp:34 | the reference computes x² − 9 = 0 exactly: (`TWO_REAL`, −3, 3) |
| ConcreteCases.NaiveComplete | test/double_test.cpp:53 | the reference computes 6x² − 33x + 45 = 0 exactly: (`TWO_REAL`, 2.5, 3) |
| ConcreteCases.PureQuadraticRoot | QuadraticEquationSolver.h:229-246 | on x² − 9 = 0, `sqrt_minus_c_div_a` takes ecp == 3, c3 == −9/8 and m == 1, and gives `TWO_REAL` with −3 and 3 exactly |
| ConcreteCases.PureQuadraticOutcome | test/double_test.cpp:34 | the solver's outcome on x² − 9 = 0 at double is (`TWO_REAL`, −3, 3), whatever the slots held |
| ConcreteCases.CompleteInBand | QuadraticEquationSolver.h:306-324 | on 6x² − 33x + 45 = 0 the in-band branch has cp == 45/512 and δ == 9/4096, and gives `TWO_REAL` with 2.5 and 3 exactly |
| ConcreteCases.CompleteOutcomeExample | test/double_test.cpp:53 | the solver's outcome on 6x² − 33x + 45 = 0 at double is (`TWO_REAL`, 2.5, 3), whatever the slots held |
| ConcreteCases.SolvePureQuadraticExample | test/double_test.cpp:34 | solving x² − 9 = 0 ends in `TWO_REAL` with (−3, 3) and matches the reference, as the driver expects |
| ConcreteCases.SolveCompleteExample | test/double_test.cpp:53 | solving 6x² − 33x + 45 = 0 ends in `TWO_REAL` with (2.5, 3) and matches the reference, as the driver expects |

## Left out

- Rounding. Every operation is exact except for overflow to ±∞. Underflow
  to zero, subnormal values and signed zeros are not modelled: −0 is 0, and
  a division by zero is taken as a division by +0.
- `kahan_discriminant`, `exactmult` and `veltkamp_split` are taken as
  exact. They only compensate rounding, which is not modelled, and in exact
  arithmetic `kahan_discriminant` is b² − 4ac.
- Accuracy in units in the last place, and the overflow avoidance or
  cancellation freedom the rescaling buys. These are statements about
  rounding.
- `FloatingPoint.Delivers`: "delivers v" allows either v itself or an
  infinity of the sign of v. This holds even where v fits the format,
  because the model does not bound the intermediate mantissa-space values.
  So `OVER_UNDER_FLOW` is not proved to arise only from a true overflow.
- `ConcreteCases.PureQuadraticExample`, `ConcreteCases.CompleteExample`:
  these derive the roots from the result predicates alone, so they prove
  the exact roots only for finite slots. The reason is the `Delivers`
  weakness above. The exact outcome is proved from the outcome functions
  instead, in `PureQuadraticOutcome` and `CompleteOutcomeExample`.
- `std::sqrt` is a parameter `sqrt: real -> real`, assumed to be the exact
  square root (`IsSqrt`) wherever a property needs it.
- `nan()` is the value NaN. The `static_assert`s on the type and the IEC 559
  check are compile-time facts of the format (`FloatType` has only `Float`
  and `Double`).
- Printing and the drivers: `print_iterm`, `print_info`, `demo`,
  `num_center`, both `main` functions, and float_test.cpp and
  double_test.cpp beyond the two equations in `ConcreteCases`. They format
  and print text, or time runs.
- `solve_complete` is split into one method per branch (`SolveInBand`,
  `SolveInBandTwoReal`, `SolveBelowBand`, `SolveAboveBand`). The branches
  and their order are the source's.
- `TestHarness.StrCenter` requires the width to hold the caption. The
  source computes `w - tips.size()` in unsigned arithmetic, which wraps
  otherwise. The precision argument `p` (the precision `num_center`
  passes on) is unused, as in the source.
- QuadraticEquationSolver.cpp defines members of a non-template
  `QuadtraticEquationSolver`, while the header declares a template of that
  name, so the two files do not build together. The model keeps them as
  two classes in two modules.
