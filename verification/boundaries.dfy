/**
  Grenzlinien_bestimmen: the lobe boundaries on the positive x-axis that
  separate the field lines of one frame.

  For the Hertzian dipole the x-axis is walked in windows of lambda/16 starting
  just outside the near zone; every window over which F changes sign (or
  touches zero) contributes one root found by Nullstelle. The two copies stop
  the walk differently:
    LobeRule   (DIPOLANIMATION_E_ARROWS.py and DIPOLANIMATION_EH_3D.py): stop
               once the window start or the last root passes
               sizeFactor * 7 * lambda/4, or 100 roots were collected;
    WindowRule (DIPOLANIMATION_H_ARROWS.py): stop once the window start passes
               lambda * sizeFactor; no cap.
  For the rod dipole the boundaries are closed-form radii; the H_ARROWS copy
  has no rod branch and leaves the list empty.

  The boundary count the scripts keep in the global Zahl_der_Extrema is the
  length of the returned list here.
 */
module Boundaries {
  import opened Maths
  import opened Configuration
  import opened Bisection
  import opened Field

  datatype WalkRule = LobeRule | WindowRule

  /** Keulenzahl of the Hertzian branch. */
  const HertzLobes: real := 7.0
  /** The safety cap of the LobeRule walk. */
  const EntryCap: nat := 100

  /** The geometry of one walk: the first window start, the window width, the
      bound the window start (and, under LobeRule, the last root) must not pass. */
  datatype Walk = Walk(rule: WalkRule, start: real, step: real, limit: real)

  /** The walk of a configuration: it starts half a line spacing beyond the
      near-zone radius 3 and uses windows of lambda/16 (Schrittweite). */
  function WalkOf(cfg: Config, rule: WalkRule): (w: Walk)
    requires cfg.Valid()
    ensures w.step > 0.0
  {
    var limit := match rule
      case LobeRule => cfg.sizeFactor * HertzLobes * cfg.QuarterWave()
      case WindowRule => cfg.wavelength * cfg.sizeFactor;
    Walk(rule, cfg.lineSpacing / 2.0 + 3.0, cfg.QuarterWave() / 4.0, limit)
  }

  /** x1 after k passes; the scripts advance it by adding the step to the
      previous window end, which is what this recursion does. */
  function WindowStart(walk: Walk, k: nat): real
  {
    if k == 0 then walk.start else WindowStart(walk, k - 1) + walk.step
  }

  /** The walk tests f1 * f2 <= 0 on each window. */
  predicate SignChange(f: (real, real) -> real, t: real, a: real, b: real)
  {
    f(a, t) * f(b, t) <= 0.0
  }

  /** Window w (the pass of that number) shows a sign change. */
  predicate WindowChanges(f: (real, real) -> real, t: real, walk: Walk, w: nat)
  {
    SignChange(f, t, WindowStart(walk, w), WindowStart(walk, w + 1))
  }

  /** v lies in window w. */
  predicate InWindow(walk: Walk, w: nat, v: real)
  {
    WindowStart(walk, w) <= v <= WindowStart(walk, w + 1)
  }

  /** The stop test run at the end of pass k (k >= 1), with `bounds` the roots
      collected so far and WindowStart(k) the new x1. */
  predicate StopsAfter(walk: Walk, k: nat, bounds: seq<real>)
  {
    || WindowStart(walk, k) > walk.limit
    || (walk.rule == LobeRule && |bounds| > 0 && bounds[|bounds| - 1] > walk.limit)
    || (walk.rule == LobeRule && |bounds| >= EntryCap)
  }

  lemma {:induction false} WindowStartMonotone(walk: Walk, j: nat, k: nat)
    requires walk.step > 0.0
    requires j <= k
    ensures WindowStart(walk, j) <= WindowStart(walk, k)
    ensures j < k ==> WindowStart(walk, j) + walk.step <= WindowStart(walk, k)
  {
    if j < k {
      WindowStartMonotone(walk, j, k - 1);
    }
  }

  /** What the walk has recorded after `passes` passes: one root per window
      that showed a sign change, in pass order, each the value Nullstelle
      returns for its window (and so inside it). */
  ghost predicate Recorded(f: (real, real) -> real, t: real, walk: Walk,
                           bounds: seq<real>, windows: seq<nat>, passes: nat)
  {
    && |windows| == |bounds|
    && (forall i :: 0 <= i < |windows| ==> windows[i] < passes)
    && (forall i, j :: 0 <= i < j < |windows| ==> windows[i] < windows[j])
    && (forall w :: 0 <= w < passes ==> (w in windows <==> WindowChanges(f, t, walk, w)))
    && (forall i :: 0 <= i < |bounds| ==> InWindow(walk, windows[i], bounds[i]))
    && (forall i {:trigger WindowRoot(f, t, walk, windows[i])} :: 0 <= i < |bounds| ==> bounds[i] == WindowRoot(f, t, walk, windows[i]))
  }

  /** The root Nullstelle finds in window w. */
  function WindowRoot(f: (real, real) -> real, t: real, walk: Walk, w: nat): real
  {
    BisectionRoot(f, t, WindowStart(walk, w), WindowStart(walk, w + 1))
  }

  /** A window without a sign change adds nothing. */
  lemma RecordedSkip(f: (real, real) -> real, t: real, walk: Walk,
                     bounds: seq<real>, windows: seq<nat>, passes: nat)
    requires Recorded(f, t, walk, bounds, windows, passes)
    requires !WindowChanges(f, t, walk, passes)
    ensures Recorded(f, t, walk, bounds, windows, passes + 1)
  {
  }

  /** A window with a sign change adds its bisection root, tagged with the pass number. */
  lemma RecordedAdd(f: (real, real) -> real, t: real, walk: Walk,
                    bounds: seq<real>, windows: seq<nat>, passes: nat, root: real)
    requires Recorded(f, t, walk, bounds, windows, passes)
    requires WindowChanges(f, t, walk, passes) && InWindow(walk, passes, root)
    requires root == WindowRoot(f, t, walk, passes)
    ensures Recorded(f, t, walk, bounds + [root], windows + [passes], passes + 1)
  {
    var ws := windows + [passes];
    forall w | 0 <= w < passes
      ensures w in ws <==> w in windows
    {
    }
  }

  /** One pass over the window [x1, x2]: bisect it when F changes sign there. */
  method WalkPass(f: (real, real) -> real, t: real, walk: Walk, x1: real, x2: real,
                  bounds: seq<real>, ghost windows: seq<nat>, ghost passes: nat)
    returns (bounds': seq<real>, ghost windows': seq<nat>)
    requires x1 < x2
    requires x1 == WindowStart(walk, passes) && x2 == WindowStart(walk, passes + 1)
    requires Recorded(f, t, walk, bounds, windows, passes)
    ensures Recorded(f, t, walk, bounds', windows', passes + 1)
    ensures |bounds| <= |bounds'| <= |bounds| + 1 && bounds'[..|bounds|] == bounds
  {
    var f1 := f(x1, t);
    var f2 := f(x2, t);
    if f1 * f2 <= 0.0 {
      bounds', windows' := AddWindowRoot(f, t, walk, x1, x2, bounds, windows, passes);
    } else {
      RecordedSkip(f, t, walk, bounds, windows, passes);
      bounds', windows' := bounds, windows;
    }
  }

  /** The sign-change branch of a pass: append Nullstelle's root of the window. */
  method AddWindowRoot(f: (real, real) -> real, t: real, walk: Walk, x1: real, x2: real,
                  bounds: seq<real>, ghost windows: seq<nat>, ghost passes: nat)
    returns (bounds': seq<real>, ghost windows': seq<nat>)
    requires x1 < x2
    requires x1 == WindowStart(walk, passes) && x2 == WindowStart(walk, passes + 1)
    requires Recorded(f, t, walk, bounds, windows, passes)
    requires WindowChanges(f, t, walk, passes)
    ensures Recorded(f, t, walk, bounds', windows', passes + 1)
    ensures |bounds'| == |bounds| + 1 && bounds'[..|bounds|] == bounds
  {
    var root := WindowBisect(f, t, walk, x1, x2, passes);
    RecordedAdd(f, t, walk, bounds, windows, passes, root);
    bounds', windows' := bounds + [root], windows + [passes];
  }

  /** Nullstelle on window w: its root lies in the window. */
  method WindowBisect(f: (real, real) -> real, t: real, walk: Walk, x1: real, x2: real, ghost w: nat)
    returns (root: real)
    requires x1 < x2
    requires x1 == WindowStart(walk, w) && x2 == WindowStart(walk, w + 1)
    ensures root == WindowRoot(f, t, walk, w)
    ensures InWindow(walk, w, root)
  {
    ghost var lo, hi, bisections;
    root, lo, hi, bisections := Nullstelle(f, t, x1, x2);
  }

  /**
    The Hertzian walk. The ghost results record which windows (by pass number)
    produced a root and how many passes ran.
   */
  method HertzWalk(f: (real, real) -> real, t: real, walk: Walk)
    returns (bounds: seq<real>, ghost windows: seq<nat>, ghost passes: nat)
    requires walk.step > 0.0
    // the loop body runs at least once; the last pass, and only it, stops the walk
    ensures passes >= 1
    ensures StopsAfter(walk, passes, bounds)
    ensures forall k :: 1 <= k < passes ==> WindowStart(walk, k) <= walk.limit
    // one root per window that shows a sign change, in pass order, each in its window
    ensures Recorded(f, t, walk, bounds, windows, passes)
    // the LobeRule cap and last-root rule
    ensures walk.rule == LobeRule ==> |bounds| <= EntryCap
    ensures walk.rule == LobeRule ==> forall i :: 0 <= i < |bounds| - 1 ==> bounds[i] <= walk.limit
  {
    var x1 := walk.start;
    var x2 := x1 + walk.step;
    bounds, windows, passes := [], [], 0;
    var done := false;
    while !done
      invariant x1 == WindowStart(walk, passes) && x2 == WindowStart(walk, passes + 1)
      invariant done ==> passes >= 1 && StopsAfter(walk, passes, bounds)
      invariant !done && passes >= 1 ==> x1 <= walk.limit
      invariant forall k :: 1 <= k < passes ==> WindowStart(walk, k) <= walk.limit
      invariant Recorded(f, t, walk, bounds, windows, passes)
      invariant walk.rule == LobeRule ==> |bounds| <= EntryCap
      invariant walk.rule == LobeRule && !done ==> |bounds| < EntryCap
      invariant walk.rule == LobeRule ==> forall i :: 0 <= i < |bounds| - 1 ==> bounds[i] <= walk.limit
      invariant walk.rule == LobeRule && !done ==> forall i :: 0 <= i < |bounds| ==> bounds[i] <= walk.limit
      decreases !done, StepsLeft(x1, walk.limit, walk.step)
    {
      ghost var before := bounds;
      bounds, windows := WalkPass(f, t, walk, x1, x2, bounds, windows, passes);
      if walk.rule == LobeRule {
        BelowLimitKept(before, bounds, walk.limit);
      }
      ghost var previous := x1;
      x1 := x2;
      x2 := x1 + walk.step;
      passes := passes + 1;
      if walk.rule == LobeRule && |bounds| > 0 && bounds[|bounds| - 1] > walk.limit {
        done := true;
      }
      if x1 > walk.limit {
        done := true;
      }
      if walk.rule == LobeRule && |bounds| >= EntryCap {
        done := true;
      }
      if !done {
        StepsLeftDecreases(previous, walk.limit, walk.step);
      }
    }
  }

  /** A pass that appends at most one root keeps every earlier root at most
      the limit; all roots are, once the last one is too. */
  lemma BelowLimitKept(before: seq<real>, bounds: seq<real>, limit: real)
    requires |before| <= |bounds| <= |before| + 1 && bounds[..|before|] == before
    requires forall i :: 0 <= i < |before| ==> before[i] <= limit
    ensures forall i :: 0 <= i < |bounds| - 1 ==> bounds[i] <= limit
    ensures |bounds| > 0 && bounds[|bounds| - 1] <= limit ==> forall i :: 0 <= i < |bounds| ==> bounds[i] <= limit
  {
    assert forall i :: 0 <= i < |before| ==> bounds[i] == before[i];
  }

  /**
    The properties the rest of the engine relies on: the roots never decrease
    (two equal neighbours are possible when a zero sits on a shared window
    end), none lies before the walk start, and none lies more than one window
    beyond the larger of the start and the stop bound.
   */
  lemma WindowedRootsAscend(f: (real, real) -> real, t: real, walk: Walk,
                            bounds: seq<real>, windows: seq<nat>, passes: nat)
    requires walk.step > 0.0
    requires Recorded(f, t, walk, bounds, windows, passes)
    requires forall k :: 1 <= k < passes ==> WindowStart(walk, k) <= walk.limit
    ensures NonDecreasing(bounds)
    ensures forall i :: 0 <= i < |bounds| ==> walk.start <= bounds[i]
    ensures forall i :: 0 <= i < |bounds| ==> bounds[i] <= Max(walk.start, walk.limit) + walk.step
  {
    forall i, j | 0 <= i < j < |bounds|
      ensures bounds[i] <= bounds[j]
    {
      WindowStartMonotone(walk, windows[i] + 1, windows[j]);
    }
    forall i | 0 <= i < |bounds|
      ensures walk.start <= bounds[i]
      ensures bounds[i] <= Max(walk.start, walk.limit) + walk.step
    {
      WindowStartMonotone(walk, 0, windows[i]);
    }
  }

  // ------------------------------------------------------------ rod branch

  /** Keulenzahl of the rod branch, chosen by the zoom factor. */
  function RodLobeCount(sizeFactor: real): (k: nat)
    ensures 4 <= k <= 12
    ensures sizeFactor < 1.0 <==> k == 4
    ensures sizeFactor == 1.0 <==> k == 5
    ensures sizeFactor == 4.0 <==> k == 12
    ensures k == 7 <==> sizeFactor > 1.0 && sizeFactor != 4.0
  {
    if sizeFactor < 1.0 then 4
    else if sizeFactor == 1.0 then 5
    else if sizeFactor == 2.0 then 7
    else if sizeFactor == 4.0 then 12
    else 7
  }

  /** pi / w, half a period: the folded phase is at most this, and positive
      whenever t exceeds it (the first frame, t = 0, keeps phase 0). */
  function HalfPeriod(lib: Library, cfg: Config): (h: real)
    requires Valid(lib) && cfg.Valid()
    ensures h > 0.0
  {
    lib.pi / Omega(lib, cfg)
  }

  /** t with `shifts` half periods taken off. */
  function Shifted(t: real, half: real, shifts: nat): real
  {
    if shifts == 0 then t else Shifted(t, half, shifts - 1) - half
  }

  /** aa1 for lobe n: the arm length 2n * lambda/4 + c * phase. */
  function RodArm(cfg: Config, phase: real, n: nat): real
  {
    (2 * n) as real * cfg.QuarterWave() + cfg.c * phase
  }

  /** The radius appended for an arm longer than lambda/4. */
  function RodRadius(lib: Library, cfg: Config, arm: real): real
  {
    var l4 := cfg.QuarterWave();
    lib.sqrt(arm * arm - l4 * l4)
  }

  /** The rod radii for lobes n .. count-1, in the order the loop visits them:
      the reference the rod branch is checked against. */
  function RodRadii(lib: Library, cfg: Config, phase: real, n: nat, count: nat): seq<real>
    decreases count - n
  {
    if n >= count then []
    else if RodArm(cfg, phase, n) > cfg.QuarterWave() then
      [RodRadius(lib, cfg, RodArm(cfg, phase, n))] + RodRadii(lib, cfg, phase, n + 1, count)
    else RodRadii(lib, cfg, phase, n + 1, count)
  }

  /** The phase normalisation: take half periods off while the phase exceeds one. */
  method FoldPhase(tt: real, half: real) returns (phase: real, ghost shifts: nat)
    requires half > 0.0
    ensures phase == Shifted(tt, half, shifts)
    ensures phase <= half
    ensures tt <= half ==> phase == tt && shifts == 0
    ensures tt > half ==> 0.0 < phase
  {
    phase, shifts := tt, 0;
    while phase > half
      invariant phase == Shifted(tt, half, shifts)
      invariant tt <= half ==> phase == tt && shifts == 0
      invariant tt > half ==> 0.0 < phase
      decreases StepsLeft(-phase, -half, half)
    {
      StepsLeftDecreases(-phase, -half, half);
      phase, shifts := phase - half, shifts + 1;
    }
  }

  /**
    The rod branch. The phase is normalised inside the lobe loop, as in the
    scripts; the folding happens on the first lobe and changes nothing
    afterwards.
   */
  method RodBoundaries(lib: Library, cfg: Config, t: real)
    returns (bounds: seq<real>, phase: real, ghost shifts: nat)
    requires Valid(lib) && cfg.Valid()
    ensures phase == Shifted(t, HalfPeriod(lib, cfg), shifts)
    ensures phase <= HalfPeriod(lib, cfg)
    ensures t <= HalfPeriod(lib, cfg) ==> phase == t && shifts == 0
    ensures t > HalfPeriod(lib, cfg) ==> 0.0 < phase
    ensures bounds == RodRadii(lib, cfg, phase, 0, RodLobeCount(cfg.sizeFactor))
  {
    bounds, phase, shifts := RodLobes(lib, cfg, t, HalfPeriod(lib, cfg), RodLobeCount(cfg.sizeFactor));
  }

  /** The lobe loop of the rod branch for a given half period and lobe count. */
  method RodLobes(lib: Library, cfg: Config, t: real, half: real, count: nat)
    returns (bounds: seq<real>, phase: real, ghost shifts: nat)
    requires half > 0.0 && count >= 1
    ensures phase == Shifted(t, half, shifts)
    ensures phase <= half
    ensures t <= half ==> phase == t && shifts == 0
    ensures t > half ==> 0.0 < phase
    ensures bounds == RodRadii(lib, cfg, phase, 0, count)
  {
    phase, shifts := t, 0;
    bounds := [];
    var n := 0;
    while n < count
      invariant n <= count
      invariant phase == Shifted(t, half, shifts)
      invariant n > 0 ==> phase <= half
      invariant t <= half ==> phase == t && shifts == 0
      invariant t > half ==> 0.0 < phase
      invariant n > 0 ==> bounds + RodRadii(lib, cfg, phase, n, count) == RodRadii(lib, cfg, phase, 0, count)
      invariant n == 0 ==> bounds == [] && phase == t && shifts == 0
    {
      bounds, phase, shifts := RodLobeStep(lib, cfg, t, half, count, n, bounds, phase, shifts);
      n := n + 1;
    }
  }

  /** One pass of the lobe loop: fold the phase, then append lobe n's radius
      if its arm exceeds lambda/4, keeping the loop's invariant. */
  method RodLobeStep(lib: Library, cfg: Config, t: real, half: real, count: nat, n: nat,
                     bounds: seq<real>, phase: real, ghost shifts: nat)
    returns (bounds': seq<real>, phase': real, ghost shifts': nat)
    requires half > 0.0 && n < count
    requires phase == Shifted(t, half, shifts)
    requires n > 0 ==> phase <= half
    requires t <= half ==> phase == t && shifts == 0
    requires t > half ==> 0.0 < phase
    requires n > 0 ==> bounds + RodRadii(lib, cfg, phase, n, count) == RodRadii(lib, cfg, phase, 0, count)
    requires n == 0 ==> bounds == [] && phase == t && shifts == 0
    ensures phase' == Shifted(t, half, shifts')
    ensures phase' <= half
    ensures t <= half ==> phase' == t && shifts' == 0
    ensures t > half ==> 0.0 < phase'
    ensures bounds' + RodRadii(lib, cfg, phase', n + 1, count) == RodRadii(lib, cfg, phase', 0, count)
  {
    ghost var more;
    var entry;
    phase', entry, more := RodLobe(lib, cfg, half, phase, n);
    // only the first pass can fold: afterwards the phase is already at most half
    if n == 0 {
      shifts' := more;
    } else {
      assert phase' == phase && more == 0;
      shifts' := shifts;
    }
    RodRadiiExtend(lib, cfg, phase', n, count, bounds, entry);
    bounds' := bounds + entry;
  }

  /** Appending lobe n's entry to the radii of lobes before n leaves the
      radii of lobes after n still to come. */
  lemma RodRadiiExtend(lib: Library, cfg: Config, phase: real, n: nat, count: nat,
                       bounds: seq<real>, entry: seq<real>)
    requires n < count
    requires bounds + RodRadii(lib, cfg, phase, n, count) == RodRadii(lib, cfg, phase, 0, count)
    requires entry == (if RodArm(cfg, phase, n) > cfg.QuarterWave() then [RodRadius(lib, cfg, RodArm(cfg, phase, n))] else [])
    ensures (bounds + entry) + RodRadii(lib, cfg, phase, n + 1, count) == RodRadii(lib, cfg, phase, 0, count)
  {
    RodRadiiUnfold(lib, cfg, phase, n, count);
    AppendAssociates(bounds, entry, RodRadii(lib, cfg, phase, n + 1, count));
  }

  lemma AppendAssociates(a: seq<real>, b: seq<real>, c: seq<real>)
    ensures (a + b) + c == a + (b + c)
  {
  }

  lemma RodRadiiUnfold(lib: Library, cfg: Config, phase: real, n: nat, count: nat)
    requires n < count
    ensures RodRadii(lib, cfg, phase, n, count)
         == (if RodArm(cfg, phase, n) > cfg.QuarterWave() then [RodRadius(lib, cfg, RodArm(cfg, phase, n))] else [])
            + RodRadii(lib, cfg, phase, n + 1, count)
  {
  }

  /** One pass of the rod loop: fold the phase, then the lobe's radius when
      its arm exceeds lambda/4. */
  method RodLobe(lib: Library, cfg: Config, half: real, tt: real, n: nat)
    returns (phase: real, entry: seq<real>, ghost shifts: nat)
    requires half > 0.0
    ensures phase == Shifted(tt, half, shifts)
    ensures phase <= half
    ensures tt <= half ==> phase == tt && shifts == 0
    ensures tt > half ==> 0.0 < phase
    ensures entry == (if RodArm(cfg, phase, n) > cfg.QuarterWave() then [RodRadius(lib, cfg, RodArm(cfg, phase, n))] else [])
  {
    phase, shifts := FoldPhase(tt, half);
    var arm := RodArm(cfg, phase, n);
    if arm > cfg.QuarterWave() {
      entry := [RodRadius(lib, cfg, arm)];
    } else {
      entry := [];
    }
  }

  lemma {:induction false} RodRadiiCount(lib: Library, cfg: Config, phase: real, n: nat, count: nat)
    requires n <= count
    ensures |RodRadii(lib, cfg, phase, n, count)| <= count - n
    decreases count - n
  {
    if n < count {
      RodRadiiCount(lib, cfg, phase, n + 1, count);
    }
  }

  /** Exactness of the rod branch: a value is a boundary iff it is the radius
      of some lobe n < count whose arm exceeds lambda/4. */
  lemma {:induction false} RodRadiiMembers(lib: Library, cfg: Config, phase: real, n: nat, count: nat, v: real)
    ensures v in RodRadii(lib, cfg, phase, n, count) <==>
      exists m :: n <= m < count && RodArm(cfg, phase, m) > cfg.QuarterWave()
                  && v == RodRadius(lib, cfg, RodArm(cfg, phase, m))
    decreases count - n
  {
    if n < count {
      RodRadiiMembers(lib, cfg, phase, n + 1, count, v);
    }
  }

  lemma ArmsIncrease(cfg: Config, phase: real, n: nat, m: nat)
    requires cfg.Valid()
    requires n < m
    ensures RodArm(cfg, phase, n) < RodArm(cfg, phase, m)
  {
    var l4 := cfg.QuarterWave();
    var gap := (2 * m - 2 * n) as real;
    assert gap > 0.0;
    assert gap * l4 > 0.0;
    assert (2 * m) as real * l4 == (2 * n) as real * l4 + gap * l4;
  }

  lemma SquaresIncrease(a: real, b: real)
    requires 0.0 < a < b
    ensures a * a < b * b
  {
    assert a * a < a * b;
    assert a * b < b * b;
  }

  /** Every radius the rod branch produces exceeds every earlier one. */
  lemma {:induction false} RodRadiiIncrease(lib: Library, cfg: Config, phase: real, n: nat, count: nat)
    requires Valid(lib) && cfg.Valid()
    ensures StrictlyIncreasing(RodRadii(lib, cfg, phase, n, count))
    ensures forall v :: v in RodRadii(lib, cfg, phase, n, count) ==>
      exists m :: n <= m < count && RodArm(cfg, phase, m) > cfg.QuarterWave()
                  && v == RodRadius(lib, cfg, RodArm(cfg, phase, m))
    decreases count - n
  {
    if n < count {
      RodRadiiIncrease(lib, cfg, phase, n + 1, count);
      var rest := RodRadii(lib, cfg, phase, n + 1, count);
      var arm := RodArm(cfg, phase, n);
      var l4 := cfg.QuarterWave();
      forall v | v in RodRadii(lib, cfg, phase, n, count)
        ensures exists m :: n <= m < count && RodArm(cfg, phase, m) > l4
                  && v == RodRadius(lib, cfg, RodArm(cfg, phase, m))
      {
        RodRadiiMembers(lib, cfg, phase, n, count, v);
      }
      if arm > l4 {
        forall j | 0 <= j < |rest|
          ensures RodRadius(lib, cfg, arm) < rest[j]
        {
          assert rest[j] in rest;
          var m :| n + 1 <= m < count && RodArm(cfg, phase, m) > l4
                   && rest[j] == RodRadius(lib, cfg, RodArm(cfg, phase, m));
          ArmsIncrease(cfg, phase, n, m);
          RadiusIncreases(lib, cfg, arm, RodArm(cfg, phase, m));
        }
      }
    }
  }

  lemma RadiusIncreases(lib: Library, cfg: Config, a: real, b: real)
    requires Valid(lib) && cfg.Valid()
    requires cfg.QuarterWave() < a < b
    ensures RodRadius(lib, cfg, a) < RodRadius(lib, cfg, b)
  {
    var l4 := cfg.QuarterWave();
    SquaresIncrease(l4, a);
    SquaresIncrease(a, b);
    assert 0.0 <= a * a - l4 * l4 < b * b - l4 * l4;
  }

  /** The rod branch holds at most Keulenzahl strictly increasing radii. */
  lemma RodBoundariesShape(lib: Library, cfg: Config, phase: real)
    requires Valid(lib) && cfg.Valid()
    ensures var b := RodRadii(lib, cfg, phase, 0, RodLobeCount(cfg.sizeFactor));
            |b| <= RodLobeCount(cfg.sizeFactor) && StrictlyIncreasing(b)
  {
    RodRadiiCount(lib, cfg, phase, 0, RodLobeCount(cfg.sizeFactor));
    RodRadiiIncrease(lib, cfg, phase, 0, RodLobeCount(cfg.sizeFactor));
  }

  /** The walks and lobe counts of the three shipped configurations: the walk
      starts at 7 with windows of 16, the LobeRule bound is sizeFactor * 7 *
      lambda/4 and the WindowRule bound lambda * sizeFactor, and RodLobeCount
      is 7 at zoom 2, 3 and 1.5, so the rod loop of E_ARROWS and EH_3D runs 7
      times (H_ARROWS has no rod branch). */
  lemma ShippedWalks()
    ensures WalkOf(EArrowsConfig, LobeRule) == Walk(LobeRule, 7.0, 16.0, 896.0)
    ensures WalkOf(Eh3dConfig, LobeRule) == Walk(LobeRule, 7.0, 16.0, 1344.0)
    ensures WalkOf(HArrowsConfig, WindowRule) == Walk(WindowRule, 7.0, 16.0, 384.0)
    ensures RodLobeCount(EArrowsConfig.sizeFactor) == 7
    ensures RodLobeCount(Eh3dConfig.sizeFactor) == 7
    ensures RodLobeCount(HArrowsConfig.sizeFactor) == 7
  {
    DefaultsDerived();
  }

  // ------------------------------------------------------------ dispatcher

  /**
    Grenzlinien_bestimmen for one frame. The ghost results are those of the
    branch that ran: the windows and pass count of the Hertzian walk, or the
    folded phase and its number of half-period shifts for the rod.
   */
  method Grenzlinien(lib: Library, cfg: Config, v: Variant, rule: WalkRule, t: real)
    returns (bounds: seq<real>, ghost windows: seq<nat>, ghost passes: nat, ghost phase: real, ghost shifts: nat)
    requires Valid(lib) && cfg.Valid()
    // Hertzian: exactly the record of the walk, which stopped after its last pass
    ensures v == Hertzian ==>
      && passes >= 1
      && Recorded(AxialFOf(lib, cfg), t, WalkOf(cfg, rule), bounds, windows, passes)
      && StopsAfter(WalkOf(cfg, rule), passes, bounds)
      && forall k :: 1 <= k < passes ==> WindowStart(WalkOf(cfg, rule), k) <= WalkOf(cfg, rule).limit
    ensures v == Hertzian ==> NonDecreasing(bounds)
    ensures v == Hertzian ==> forall i :: 0 <= i < |bounds| ==> WalkOf(cfg, rule).start <= bounds[i]
    ensures v == Hertzian && rule == LobeRule ==> |bounds| <= EntryCap
    // rod: exactly the radii of the Keulenzahl lobes at the folded phase
    ensures v == Rod && rule == LobeRule ==>
      && phase == Shifted(t, HalfPeriod(lib, cfg), shifts)
      && phase <= HalfPeriod(lib, cfg)
      && (t <= HalfPeriod(lib, cfg) ==> phase == t)
      && (t > HalfPeriod(lib, cfg) ==> 0.0 < phase)
      && bounds == RodRadii(lib, cfg, phase, 0, RodLobeCount(cfg.sizeFactor))
    ensures v == Rod && rule == LobeRule ==> StrictlyIncreasing(bounds) && |bounds| <= RodLobeCount(cfg.sizeFactor)
    ensures v == Rod && rule == WindowRule ==> bounds == []
  {
    windows, passes, phase, shifts := [], 0, t, 0;
    match v {
      case Hertzian =>
        var walk := WalkOf(cfg, rule);
        bounds, windows, passes := HertzWalk(AxialFOf(lib, cfg), t, walk);
        WindowedRootsAscend(AxialFOf(lib, cfg), t, walk, bounds, windows, passes);
      case Rod =>
        if rule == LobeRule {
          bounds, phase, shifts := RodBoundaries(lib, cfg, t);
          RodBoundariesShape(lib, cfg, phase);
        } else {
          bounds := [];
        }
    }
  }
}
