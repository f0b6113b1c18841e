/**
  The numeric library the dipole engine calls (numpy's cos, sin, sqrt and the
  constant pi), kept uninterpreted: the model never depends on the values of
  these functions, only on the two laws of the square root stated below.
 */
module Maths {

  /** A value of the standard library as seen by the formulas. */
  datatype Library = Library(cos: real -> real, sin: real -> real, sqrt: real -> real, pi: real)

  /** The laws of the square root the model relies on: it vanishes at zero and
      is strictly increasing on the non-negative reals. */
  ghost predicate SqrtLaws(sqrt: real -> real)
  {
    && sqrt(0.0) == 0.0
    && forall a, b :: 0.0 <= a < b ==> sqrt(a) < sqrt(b)
  }

  ghost predicate Valid(lib: Library)
  {
    SqrtLaws(lib.sqrt) && lib.pi > 0.0
  }

  /** A square root is positive exactly on the positive reals. */
  lemma SqrtZeroIff(lib: Library, a: real)
    requires Valid(lib)
    requires a >= 0.0
    ensures lib.sqrt(a) == 0.0 <==> a == 0.0
    ensures lib.sqrt(a) >= 0.0
  {
    if a > 0.0 {
      assert lib.sqrt(0.0) < lib.sqrt(a);
    }
  }

  function Abs(x: real): real
  {
    if x < 0.0 then -x else x
  }

  function Min(a: real, b: real): real
  {
    if a <= b then a else b
  }

  function Max(a: real, b: real): real
  {
    if a <= b then b else a
  }

  /** v lies between a and b, whichever of the two is smaller. */
  predicate Between(a: real, b: real, v: real)
  {
    (a <= v <= b) || (b <= v <= a)
  }

  /** 2 raised to n, as a real. */
  function Pow2(n: nat): (r: real)
    ensures r >= 1.0
  {
    if n == 0 then 1.0 else 2.0 * Pow2(n - 1)
  }

  /** d halved k times. */
  function Halved(d: real, k: nat): real
  {
    if k == 0 then d else Halved(d, k - 1) / 2.0
  }

  lemma {:induction false} HalvedIsDivision(d: real, k: nat)
    ensures Halved(d, k) == d / Pow2(k)
  {
    if k > 0 {
      HalvedIsDivision(d, k - 1);
    }
  }

  lemma {:induction false} HalvedAbs(d: real, k: nat)
    ensures Abs(Halved(d, k)) == Halved(Abs(d), k)
  {
    if k > 0 {
      HalvedAbs(d, k - 1);
    }
  }

  lemma DivUnique(a: real, b: real, c: real)
    requires b != 0.0 && c * b == a
    ensures a / b == c
  {
    assert (a / b) * b == a;
    assert (a / b - c) * b == 0.0;
  }

  /** How many more steps of size `step` a cursor at x can take before it
      passes `limit`: the termination measure of the outward walks. */
  function StepsLeft(x: real, limit: real, step: real): nat
    requires step > 0.0
  {
    if x > limit then 0 else ((limit - x) / step).Floor + 1
  }

  lemma StepsLeftDecreases(x: real, limit: real, step: real)
    requires step > 0.0
    requires x <= limit
    ensures StepsLeft(x + step, limit, step) < StepsLeft(x, limit, step)
  {
    var q := (limit - x) / step;
    assert q * step == limit - x;
    DivUnique(limit - (x + step), step, q - 1.0);
  }

  predicate NonDecreasing(s: seq<real>)
  {
    forall i, j :: 0 <= i < j < |s| ==> s[i] <= s[j]
  }

  predicate StrictlyIncreasing(s: seq<real>)
  {
    forall i, j :: 0 <= i < j < |s| ==> s[i] < s[j]
  }

  predicate StrictlyDecreasing(s: seq<real>)
  {
    forall i, j :: 0 <= i < j < |s| ==> s[i] > s[j]
  }

  datatype Option<+T> = None | Some(value: T)
}
