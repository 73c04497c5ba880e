/** test/test.h: the template `naive_solver`, which ends every path at the
    same over/underflow check as the solver, the template `is_same_result`,
    and `str_center`, which pads a caption to a column width. */
module TestHarness {
  import opened FloatingPoint
  import opened SolverSpec
  import opened NaiveReference

  /** The `is_invalid_root` macro of the post-check. */
  predicate IsInvalidRoot(x: Fp): (r: bool)
    ensures r <==> !x.Fin?
  {
    x.NaN? || x.Inf?
  }

  /** `naive_solver<T>`: the discriminant is computed first, then each
      branch sets (s, x1, x2) and jumps to CHECK_OVERUNDERFLOW, where a
      one-root result with a non-finite x1, or a two-root result with a
      non-finite slot, becomes OVER_UNDER_FLOW. The slots are those of the
      demo's reference, and the state is that reference's state after the
      solver's own over/underflow rule. */
  method NaiveSolver(t: FloatType, sqrt: real -> real, a: Fp, b: Fp, c: Fp)
    returns (s: SolverState, x1: Fp, x2: Fp)
    ensures var r := NaiveReference.NaiveSolver(t, sqrt, a, b, c);
      x1 == r.x1 && x2 == r.x2 && s == Finalised(r.state, x1, x2)
    ensures s != Uncertain
    ensures s == OneReal ==> x1.Fin? && x2.NaN?
    ensures s == TwoReal ==> x1.Fin? && x2.Fin?
  {
    hide Mul, Div, Add, Sub, Sqrt, NaiveDelta, Round, MaxFinite;
    var delta := NaiveDelta(t, a, b, c);
    var twoA := Mul(t, Fin(2.0), a);
    if a.NaN? || b.NaN? || c.NaN? || a.Inf? || b.Inf? || c.Inf? {
      x1, x2, s := NaN, NaN, InvalidInput;
    } else if Eq(a, Zero) {
      if Eq(b, Zero) {
        if Eq(c, Zero) {
          x1, x2, s := PosInf, NegInf, AllReal;
        } else {
          x1, x2, s := NaN, NaN, NoRoot;
        }
      } else {
        x1, x2, s := Div(t, Neg(c), b), NaN, OneReal;
      }
    } else if Lt(delta, Zero) {
      x1, x2, s := NaN, NaN, NoRoot;
    } else if Eq(delta, Zero) {
      x1, x2, s := Div(t, Neg(b), twoA), NaN, OneReal;
    } else {
      x1 := Div(t, Sub(t, Neg(b), Sqrt(sqrt, delta)), twoA);
      x2 := Div(t, Add(t, Neg(b), Sqrt(sqrt, delta)), twoA);
      s := TwoReal;
    }
    // CHECK_OVERUNDERFLOW
    if (s == TwoReal && (IsInvalidRoot(x1) || IsInvalidRoot(x2))) || (s == OneReal && IsInvalidRoot(x1)) {
      s := OverUnderFlow;
    }
  }

  /** After the post-check, a result always matches itself under
      `is_same_result`: no NaN is left in a slot the comparison reads. The
      demo's reference, which has no post-check, can report TWO_REAL with NaN
      roots (when b*b and 4ac both overflow, delta is inf - inf), and such a
      result does not match itself. */
  lemma CheckedResultMatchesItself(s0: SolverState, x1: Fp, x2: Fp)
    ensures var s := Finalised(s0, x1, x2); IsSameResult(s, x1, x2, s, x1, x2)
    ensures s0 == TwoReal && x1.NaN? ==> !IsSameResult(s0, x1, x2, s0, x1, x2)
  {
    var s := Finalised(s0, x1, x2);
    if s == OneReal || s == TwoReal {
      assert x1.Fin?;
    }
  }

  /** n blanks. */
  function Spaces(n: nat): (r: string)
    ensures |r| == n && forall j :: 0 <= j < n ==> r[j] == ' '
  {
    seq(n, _ => ' ')
  }

  /** `str_center(tips, w, p)`: tips between (w - |tips|) / 2 blanks on the
      left and the rest of the width on the right; p is not used. The width
      must hold the caption, since the source computes w - tips.size() in
      unsigned arithmetic. */
  function StrCenter(tips: string, w: nat, p: nat): (r: string)
    requires |tips| <= w
    ensures |r| == w
    ensures var i := (w - |tips|) / 2; r[i..i + |tips|] == tips
    ensures var i := (w - |tips|) / 2;
      forall j :: 0 <= j < w && !(i <= j < i + |tips|) ==> r[j] == ' '
    ensures var i := (w - |tips|) / 2; i <= w - |tips| - i <= i + 1
  {
    var i := (w - |tips|) / 2;
    Spaces(i) + tips + Spaces(w - i - |tips|)
  }
}
