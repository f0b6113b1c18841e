/**
  Nullstelle: the bisection root finder shared by all three scripts. The
  function under search is a parameter, called as f(x, t) like the source's
  `func(x, t)`.
 */
module Bisection {
  import opened Maths

  /** tol */
  const Tolerance: real := 0.001
  /** max_iter */
  const MaxIterations: nat := 25

  /** The midpoint of a bracket. */
  function Midpoint(a: real, b: real): (m: real)
    ensures m - a == b - m
  {
    (a + b) / 2.0
  }

  /** u and v are non-zero and of opposite sign. */
  predicate OppositeSigns(u: real, v: real)
  {
    (u < 0.0 && 0.0 < v) || (v < 0.0 && 0.0 < u)
  }

  /** u and v are non-zero and of the same sign. */
  predicate SameSign(u: real, v: real)
  {
    (u < 0.0 && v < 0.0) || (0.0 < u && 0.0 < v)
  }

  /** The sign of a product, stated without multiplication. */
  lemma ProductSign(u: real, v: real)
    ensures u * v < 0.0 <==> OppositeSigns(u, v)
    ensures u * v > 0.0 <==> SameSign(u, v)
  {
    if u < 0.0 && v < 0.0 {
      assert (-u) * (-v) > 0.0;
    } else if u < 0.0 && 0.0 < v {
      assert (-u) * v > 0.0;
    } else if 0.0 < u && v < 0.0 {
      assert u * (-v) > 0.0;
    }
  }

  /** What the halving loop returns when it is entered with the bracket
      [a, b] after k passes: the reference the loop is checked against. Each
      pass takes the midpoint and stops on the tolerance, an exact zero or the
      last of the 25 passes; otherwise it keeps [a, mid] when f(b) and f(mid)
      share a sign and [mid, b] when they do not. */
  function HalvingResult(f: (real, real) -> real, t: real, a: real, b: real, k: nat): real
    decreases MaxIterations - k
  {
    var mid := Midpoint(a, b);
    if Abs(b - a) <= Tolerance || f(mid, t) == 0.0 || k + 1 >= MaxIterations then mid
    else
      var next := Narrowed(f, t, a, b);
      HalvingResult(f, t, next.0, next.1, k + 1)
  }

  /** The half of [a, b] a pass keeps: [a, mid] when f(b) and f(mid) share a
      sign, [mid, b] otherwise. */
  function Narrowed(f: (real, real) -> real, t: real, a: real, b: real): (real, real)
  {
    var mid := Midpoint(a, b);
    if SameSign(f(b, t), f(mid, t)) then (a, mid) else (mid, b)
  }

  /** The value Nullstelle returns for [x1, x2]: an endpoint where f vanishes,
      x1 first, and otherwise the result of the halving loop. */
  function BisectionRoot(f: (real, real) -> real, t: real, x1: real, x2: real): real
  {
    if f(x1, t) == 0.0 then x1
    else if f(x2, t) == 0.0 then x2
    else HalvingResult(f, t, x1, x2, 0)
  }

  /**
    Bisection on [x1, x2]. Besides the root it reports, as ghost results, the
    bracket (lo, hi) whose midpoint was returned and the number of loop passes
    that ran; a pass count of 0 means an endpoint was returned untouched.
   */
  method Nullstelle(f: (real, real) -> real, t: real, x1: real, x2: real)
    returns (root: real, ghost lo: real, ghost hi: real, ghost passes: nat)
    // endpoint tie-break: no bisection happens
    ensures f(x1, t) == 0.0 ==> root == x1 && passes == 0
    ensures f(x1, t) != 0.0 && f(x2, t) == 0.0 ==> root == x2 && passes == 0
    // otherwise the loop ran between 1 and 25 times, and the result is the
    // midpoint last computed (the fallback after the loop is never used)
    ensures f(x1, t) != 0.0 && f(x2, t) != 0.0 ==>
      && 1 <= passes <= MaxIterations
      && root == (lo + hi) / 2.0
      && hi - lo == Halved(x2 - x1, passes - 1)
      && Between(x1, x2, lo) && Between(x1, x2, hi)
      // why it stopped: an exact zero, the tolerance, or the iteration cap
      && (f(root, t) == 0.0 || Abs(hi - lo) <= Tolerance || passes == MaxIterations)
      // the pass before the last saw a bracket wider than the tolerance
      && (passes >= 2 ==> Halved(Abs(x2 - x1), passes - 2) > Tolerance)
      // the sign bracket survives every update
      && (f(x1, t) * f(x2, t) <= 0.0 ==> f(lo, t) * f(hi, t) < 0.0)
    ensures Between(x1, x2, root)
    ensures root == BisectionRoot(f, t, x1, x2)
  {
    if f(x1, t) == 0.0 {
      return x1, x1, x2, 0;
    }
    if f(x2, t) == 0.0 {
      return x2, x1, x2, 0;
    }
    root, lo, hi, passes := Bisect(f, t, x1, x2);
  }

  /** The bisection loop of Nullstelle, entered with two non-zero endpoint values. */
  method Bisect(f: (real, real) -> real, t: real, x1: real, x2: real)
    returns (root: real, ghost lo: real, ghost hi: real, ghost passes: nat)
    requires f(x1, t) != 0.0 && f(x2, t) != 0.0
    ensures 1 <= passes <= MaxIterations
    ensures root == (lo + hi) / 2.0
    ensures hi - lo == Halved(x2 - x1, passes - 1)
    ensures Between(x1, x2, lo) && Between(x1, x2, hi)
    ensures f(root, t) == 0.0 || Abs(hi - lo) <= Tolerance || passes == MaxIterations
    ensures passes >= 2 ==> Halved(Abs(x2 - x1), passes - 2) > Tolerance
    ensures f(x1, t) * f(x2, t) <= 0.0 ==> f(lo, t) * f(hi, t) < 0.0
    ensures Between(x1, x2, root)
    ensures root == HalvingResult(f, t, x1, x2, 0)
  {
    var xMid, a, b, mid;
    ghost var bracketed := f(x1, t) * f(x2, t) <= 0.0;
    ProductSign(f(x1, t), f(x2, t));
    xMid, a, b, mid, lo, hi, passes := Halvings(f, t, x1, x2, bracketed);
    root := Fallback(xMid, Midpoint(a, b));
    assert root == mid;
    SignKept(f, t, x1, x2, lo, hi);
  }

  /** x_mid if a pass ran, else the midpoint of the last bracket. */
  function Fallback(xMid: Option<real>, otherwise: real): (r: real)
    ensures xMid.Some? ==> r == xMid.value
    ensures xMid.None? ==> r == otherwise
  {
    if xMid.Some? then xMid.value else otherwise
  }

  /** A sign change of the endpoints survives, restated with products. */
  lemma SignKept(f: (real, real) -> real, t: real, x1: real, x2: real, lo: real, hi: real)
    requires f(x1, t) * f(x2, t) <= 0.0 && f(x1, t) != 0.0 && f(x2, t) != 0.0 ==> OppositeSigns(f(lo, t), f(hi, t))
    ensures f(x1, t) != 0.0 && f(x2, t) != 0.0 ==> (f(x1, t) * f(x2, t) <= 0.0 ==> f(lo, t) * f(hi, t) < 0.0)
  {
    ProductSign(f(lo, t), f(hi, t));
  }

  /** The for loop of Nullstelle: halve [a, b] until the bracket is within
      the tolerance, a midpoint is an exact zero, or 25 passes have run. */
  method Halvings(f: (real, real) -> real, t: real, x1: real, x2: real, ghost bracketed: bool)
    returns (xMid: Option<real>, a: real, b: real, mid: real, ghost lo: real, ghost hi: real, ghost passes: nat)
    requires bracketed ==> OppositeSigns(f(x1, t), f(x2, t))
    ensures 1 <= passes <= MaxIterations
    ensures xMid == Some(Midpoint(lo, hi))
    ensures xMid == Some(mid) && mid == HalvingResult(f, t, x1, x2, 0)
    ensures Bracket(f, t, x1, x2, lo, hi, f(lo, t), f(hi, t), passes - 1, bracketed)
    ensures f(Midpoint(lo, hi), t) == 0.0 || Abs(hi - lo) <= Tolerance || passes == MaxIterations
    ensures passes >= 2 ==> Halved(Abs(x2 - x1), passes - 2) > Tolerance
    // the bracket the loop ends with is nested in [x1, x2] and keeps the sign change
    ensures Between(x1, x2, a) && Between(x1, x2, b)
    ensures bracketed ==> OppositeSigns(f(a, t), f(b, t))
  {
    mid, lo, hi, passes, a, b := HalvingsFrom(f, t, x1, x2, x1, x2, f(x1, t), f(x2, t), 0, bracketed);
    xMid := Some(mid);
  }

  /** The passes of the loop from the bracket [a, b] after k passes, one pass
      per call: the result is the midpoint of the bracket the last pass saw,
      and the returned a', b' are the loop's x1, x2 when it ends. */
  method HalvingsFrom(f: (real, real) -> real, t: real, x1: real, x2: real,
                      a: real, b: real, fa: real, fb: real, k: nat, ghost bracketed: bool)
    returns (mid: real, ghost lo: real, ghost hi: real, ghost passes: nat, a': real, b': real)
    requires k < MaxIterations
    requires Bracket(f, t, x1, x2, a, b, fa, fb, k, bracketed)
    requires k >= 1 ==> Halved(Abs(x2 - x1), k - 1) > Tolerance
    ensures k + 1 <= passes
    ensures Ran(f, t, x1, x2, bracketed, mid, lo, hi, passes, a', b')
    ensures mid == HalvingResult(f, t, a, b, k)
    decreases MaxIterations - k
  {
    var stop, na, nb, nfa, nfb; ghost var ref;
    mid, stop, na, nb, nfa, nfb, ref := HalvingPass(f, t, x1, x2, a, b, fa, fb, k, bracketed);
    if stop || k + 1 == MaxIterations {
      assert mid == ref;
      return mid, a, b, k + 1, na, nb;
    }
    mid, lo, hi, passes, a', b' := HalvingsFrom(f, t, x1, x2, na, nb, nfa, nfb, k + 1, bracketed);
    assert mid == ref;
  }

  /** What a run of the loop from [x1, x2] leaves: its last pass saw the
      bracket [lo, hi] after passes - 1 halvings and took x_mid = mid, it
      stopped for one of its three reasons, and its final x1, x2 (here a', b')
      lie in [x1, x2] and keep the sign change. */
  ghost predicate Ran(f: (real, real) -> real, t: real, x1: real, x2: real, bracketed: bool,
                      mid: real, lo: real, hi: real, passes: nat, a': real, b': real)
  {
    && 1 <= passes <= MaxIterations
    && mid == Midpoint(lo, hi)
    && Bracket(f, t, x1, x2, lo, hi, f(lo, t), f(hi, t), passes - 1, bracketed)
    && (f(mid, t) == 0.0 || Abs(hi - lo) <= Tolerance || passes == MaxIterations)
    && (passes >= 2 ==> Halved(Abs(x2 - x1), passes - 2) > Tolerance)
    && Between(x1, x2, a') && Between(x1, x2, b')
    && (bracketed ==> OppositeSigns(f(a', t), f(b', t)))
  }

  /** One pass of the loop on [a, b] after k passes: take the midpoint, stop
      on the tolerance or an exact zero, else keep the half that still holds
      a sign change with f(b). */
  method HalvingPass(f: (real, real) -> real, t: real, x1: real, x2: real,
                     a: real, b: real, fa: real, fb: real, k: nat, ghost bracketed: bool)
    returns (mid: real, stop: bool, a': real, b': real, fa': real, fb': real, ghost ref: real)
    requires k < MaxIterations
    requires Bracket(f, t, x1, x2, a, b, fa, fb, k, bracketed)
    ensures mid == Midpoint(a, b)
    ensures stop <==> Abs(b - a) <= Tolerance || f(mid, t) == 0.0
    ensures stop ==> a' == a && b' == b && fa' == fa && fb' == fb
    ensures ref == HalvingResult(f, t, a, b, k)
    ensures stop || k + 1 == MaxIterations ==> ref == mid
    ensures !stop ==> Bracket(f, t, x1, x2, a', b', fa', fb', k + 1, bracketed)
    ensures !stop ==> Halved(Abs(x2 - x1), k) > Tolerance
    ensures !stop ==> (a', b') == Narrowed(f, t, a, b)
    ensures !stop && k + 1 < MaxIterations ==> HalvingResult(f, t, a', b', k + 1) == ref
  {
    ref := HalvingResult(f, t, a, b, k);
    mid := Midpoint(a, b);
    var fMid := f(mid, t);
    a', b', fa', fb' := a, b, fa, fb;
    stop := Abs(b - a) <= Tolerance || fMid == 0.0;
    if stop {
      return;
    }
    HalvedAbs(x2 - x1, k);
    Narrow(f, t, x1, x2, a, b, fa, fb, k, bracketed);
    ProductSign(fb, fMid);
    if fb * fMid > 0.0 {
      b', fb' := mid, fMid;
    } else {
      a', fa' := mid, fMid;
    }
  }

  /** The loop state after k halvings: [a, b] with its cached values, of
      width (x2 - x1) / 2^k, inside [x1, x2], still bracketing a sign change
      if the first one did. */
  ghost predicate Bracket(f: (real, real) -> real, t: real, x1: real, x2: real,
                          a: real, b: real, fa: real, fb: real, k: nat, bracketed: bool)
  {
    && fa == f(a, t) && fb == f(b, t)
    && b - a == Halved(x2 - x1, k)
    && Between(x1, x2, a) && Between(x1, x2, b)
    && (bracketed ==> OppositeSigns(fa, fb))
  }

  /** One update of the loop: keep the half whose ends still differ in sign. */
  lemma Narrow(f: (real, real) -> real, t: real, x1: real, x2: real,
               a: real, b: real, fa: real, fb: real, k: nat, bracketed: bool)
    requires Bracket(f, t, x1, x2, a, b, fa, fb, k, bracketed)
    requires f(Midpoint(a, b), t) != 0.0
    ensures var m, fm := Midpoint(a, b), f(Midpoint(a, b), t);
            fb * fm > 0.0 ==> Bracket(f, t, x1, x2, a, m, fa, fm, k + 1, bracketed)
    ensures var m, fm := Midpoint(a, b), f(Midpoint(a, b), t);
            fb * fm <= 0.0 ==> Bracket(f, t, x1, x2, m, b, fm, fb, k + 1, bracketed)
  {
    HalveBracket(x1, x2, a, b, k);
    ProductSign(fb, f(Midpoint(a, b), t));
  }

  /** Either half of a bracket is half as wide and stays between x1 and x2. */
  lemma HalveBracket(x1: real, x2: real, a: real, b: real, k: nat)
    requires b - a == Halved(x2 - x1, k)
    requires Between(x1, x2, a) && Between(x1, x2, b)
    ensures Between(x1, x2, Midpoint(a, b))
    ensures Midpoint(a, b) - a == Halved(x2 - x1, k + 1)
    ensures b - Midpoint(a, b) == Halved(x2 - x1, k + 1)
  {
  }
}
