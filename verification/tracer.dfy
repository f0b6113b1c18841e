/**
  E_Linie_berechnen and Folgepkt: tracing one electric field line from a seed
  on the x-axis with fourth-order Runge-Kutta steps whose length is inversely
  proportional to the field strength. The field evaluator E_berechnen is a
  parameter `e`, called as e(t, x, y).
 */
module Tracer {
  import opened Maths
  import opened Configuration
  import opened Field

  datatype Point = Point(x: real, y: real)

  /** Rechenrichtung: with the field (+1) or against it (-1). */
  datatype Direction = Forward | Backward
  {
    function Sign(): real
    {
      if this == Forward then 1.0 else -1.0
    }
  }

  /** The E_ARROWS and EH_3D step uses the field strength as it is; the
      H_ARROWS step first raises it to at least MinStrength. */
  datatype StepRule = Plain | Clamped

  /** The floor of the field strength in a Clamped step (1e-6). */
  const MinStrength: real := 0.000001

  /** The radius of the near zone a field line must stay outside of. */
  const NearRadiusSquared: real := 9.0

  /** The field strength a step divides by. */
  function StepStrength(rule: StepRule, mag: real): (m: real)
    ensures rule == Plain ==> m == mag
    ensures rule == Clamped ==> m >= MinStrength && (mag >= MinStrength ==> m == mag)
  {
    match rule
    case Plain => mag
    case Clamped => if mag < MinStrength then MinStrength else mag
  }

  /** The step scale h (d in the unclamped copies): the step factor over the
      field strength, times the direction. */
  function StepScale(rule: StepRule, stepFactor: real, mag: real, dir: Direction): (h: real)
    requires mag != 0.0
    // h * strength == stepFactor * direction: a step covers stepFactor of
    // arc per unit of field direction
    ensures h * StepStrength(rule, mag) == stepFactor * dir.Sign()
  {
    var m := StepStrength(rule, mag);
    var q := stepFactor / m;
    assert q * m == stepFactor;
    q * dir.Sign()
  }

  /** One classic RK4 step with scale h: four field samples, each one taken
      at p displaced by the previous sample times h (halved for the two
      middle stages). */
  function Rk4(e: (real, real, real) -> EField, t: real, p: Point, h: real): Point
  {
    var k1 := e(t, p.x, p.y);
    var k2 := Probe(e, t, p, k1, h, true);
    var k3 := Probe(e, t, p, k2, h, true);
    var k4 := Probe(e, t, p, k3, h, false);
    Rk4Sum(p, h, k1, k2, k3, k4)
  }

  /** The field at p displaced by the increment k times h, or by half of it. */
  function Probe(e: (real, real, real) -> EField, t: real, p: Point, k: EField, h: real, half: bool): EField
  {
    e(t, p.x + Shift(k.ex, h, half), p.y + Shift(k.ey, h, half))
  }

  /** One coordinate of a probe's displacement: dk = a * h, or dk / 2. */
  function Shift(a: real, h: real, half: bool): real
  {
    if half then a * h / 2.0 else a * h
  }

  /** The weighted sum (dk1 + 2 dk2 + 2 dk3 + dk4) / 6 added to p. */
  function Rk4Sum(p: Point, h: real, k1: EField, k2: EField, k3: EField, k4: EField): Point
  {
    Point(p.x + Increment(k1.ex, k2.ex, k3.ex, k4.ex, h),
          p.y + Increment(k1.ey, k2.ey, k3.ey, k4.ey, h))
  }

  /** One coordinate of the RK4 increment, each stage scaled by h. */
  function Increment(a1: real, a2: real, a3: real, a4: real, h: real): real
  {
    (a1 * h + 2.0 * (a2 * h) + 2.0 * (a3 * h) + a4 * h) / 6.0
  }

  /** Folgepkt: the next point along the field line. */
  function Folgepkt(rule: StepRule, e: (real, real, real) -> EField, stepFactor: real,
                    t: real, p: Point, dir: Direction): (q: Point)
    // a point where the field vanishes is a fixed point
    ensures e(t, p.x, p.y).mag == 0.0 ==> q == p
  {
    var k1 := e(t, p.x, p.y);
    if k1.mag == 0.0 then p
    else Rk4(e, t, p, StepScale(rule, stepFactor, k1.mag, dir))
  }

  /** A field line may continue from p: outside the near zone, in the upper
      half-plane and right of x = 1. */
  predicate Inside(p: Point)
  {
    p.x * p.x + p.y * p.y >= NearRadiusSquared && p.y >= 0.0 && p.x > 1.0
  }

  /** The seed direction: along the field when Ey > 0 at the seed, against
      it otherwise (so Ey == 0 traces backwards). */
  function SeedDirection(e: (real, real, real) -> EField, t: real, xStart: real): (dir: Direction)
    ensures dir == Forward <==> e(t, xStart, 0.0).ey > 0.0
  {
    if e(t, xStart, 0.0).ey > 0.0 then Forward else Backward
  }

  /** The k-th point of the orbit of p under a step function. */
  function Orbit(next: Point -> Point, p: Point, k: nat): Point
  {
    if k == 0 then p else next(Orbit(next, p, k - 1))
  }

  /** The step function of one field line: Folgepkt in a fixed direction. */
  function StepOf(rule: StepRule, e: (real, real, real) -> EField, stepFactor: real,
                  t: real, dir: Direction): Point -> Point
  {
    p => Folgepkt(rule, e, stepFactor, t, p, dir)
  }

  /** The loop of E_Linie_berechnen: record the current point and step while
      it is Inside and the budget lasts, then record the point it stopped at. */
  method Follow(next: Point -> Point, start: Point, budget: nat) returns (pts: seq<Point>)
    ensures 1 <= |pts| <= budget + 1
    ensures forall i :: 0 <= i < |pts| ==> pts[i] == Orbit(next, start, i)
    ensures forall i :: 0 <= i < |pts| - 1 ==> Inside(pts[i])
    // the last point is where it stopped: outside, or the budget is spent
    ensures !Inside(pts[|pts| - 1]) || |pts| == budget + 1
  {
    var p := start;
    var steps: nat := 0;
    pts := [];
    while Inside(p) && steps < budget
      invariant steps <= budget
      invariant |pts| == steps
      invariant p == Orbit(next, start, steps)
      invariant forall i :: 0 <= i < |pts| ==> pts[i] == Orbit(next, start, i)
      invariant forall i :: 0 <= i < |pts| ==> Inside(pts[i])
    {
      pts := pts + [p];
      p := next(p);
      steps := steps + 1;
    }
    pts := pts + [p];
  }

  /** E_Linie_berechnen: the points of the field line through (xStart, 0) and
      the orientation flag, which is the negated direction. Only the Plain
      step rule belongs to a shipped script here: the clamped copy of
      Folgepkt has no E_Linie_berechnen. */
  method TraceLine(rule: StepRule, e: (real, real, real) -> EField, cfg: Config, t: real, xStart: real)
    returns (pts: seq<Point>, orientation: int)
    requires cfg.Valid()
    ensures 1 <= |pts| <= cfg.MaxSteps() + 1
    ensures pts[0] == Point(xStart, 0.0)
    ensures forall i :: 0 < i < |pts| ==>
      pts[i] == Folgepkt(rule, e, cfg.stepFactor, t, pts[i - 1], SeedDirection(e, t, xStart))
    ensures forall i :: 0 <= i < |pts| - 1 ==> Inside(pts[i])
    // the last point is where it stopped: outside, or the step cap is spent
    ensures !Inside(pts[|pts| - 1]) || |pts| == cfg.MaxSteps() + 1
    ensures orientation == -1 <==> e(t, xStart, 0.0).ey > 0.0
    ensures orientation as real == -SeedDirection(e, t, xStart).Sign()
  {
    var start := Point(xStart, 0.0);
    var dir := if e(t, start.x, start.y).ey > 0.0 then Forward else Backward;
    var next := StepOf(rule, e, cfg.stepFactor, t, dir);
    pts := Follow(next, start, cfg.MaxSteps());
    forall i | 0 < i < |pts|
      ensures pts[i] == Folgepkt(rule, e, cfg.stepFactor, t, pts[i - 1], dir)
    {
      assert pts[i] == next(Orbit(next, start, i - 1));
    }
    orientation := if dir == Forward then -1 else 1;
  }

  /** E_Linie_berechnen with the model's own field evaluator. */
  method TraceField(lib: Library, cfg: Config, v: Variant, rule: StepRule, t: real, xStart: real)
    returns (pts: seq<Point>, orientation: int)
    requires Valid(lib) && cfg.Valid()
    ensures 1 <= |pts| <= cfg.MaxSteps() + 1
    ensures pts[0] == Point(xStart, 0.0)
    ensures forall i :: 0 < i < |pts| ==>
      pts[i] == Folgepkt(rule, EFieldOf(lib, cfg, v), cfg.stepFactor, t, pts[i - 1],
                         SeedDirection(EFieldOf(lib, cfg, v), t, xStart))
    ensures forall i :: 0 <= i < |pts| - 1 ==> Inside(pts[i])
    // the last point is where it stopped: outside, or the step cap is spent
    ensures !Inside(pts[|pts| - 1]) || |pts| == cfg.MaxSteps() + 1
    ensures orientation == -1 <==> E(lib, cfg, v, t, xStart, 0.0).ey > 0.0
    ensures orientation as real == -SeedDirection(EFieldOf(lib, cfg, v), t, xStart).Sign()
  {
    pts, orientation := TraceLine(rule, EFieldOf(lib, cfg, v), cfg, t, xStart);
  }

  // ---------------------------------------------------------------- lemmas

  /** The clamp bounds every Clamped step scale by stepFactor / 1e-6. */
  lemma ClampedScaleBound(stepFactor: real, mag: real, dir: Direction)
    requires stepFactor >= 0.0
    requires mag != 0.0
    ensures Abs(StepScale(Clamped, stepFactor, mag, dir)) <= stepFactor / MinStrength
  {
    var m := StepStrength(Clamped, mag);
    var q := stepFactor / m;
    assert q * m == stepFactor;
    assert q <= stepFactor / MinStrength by {
      assert q * MinStrength <= q * m;
    }
  }

  /** In a uniform field every RK4 stage sees the same vector, so the step is
      exact: it moves the point by h times the field. */
  lemma UniformFieldStep(e: (real, real, real) -> EField, t: real, p: Point, h: real, f: EField)
    requires forall x, y :: e(t, x, y) == f
    ensures Rk4(e, t, p, h) == Point(p.x + f.ex * h, p.y + f.ey * h)
  {
    var k1 := e(t, p.x, p.y);
    var k2 := Probe(e, t, p, k1, h, true);
    var k3 := Probe(e, t, p, k2, h, true);
    var k4 := Probe(e, t, p, k3, h, false);
    assert k1 == f && k2 == f && k3 == f && k4 == f;
    assert Rk4(e, t, p, h) == Rk4Sum(p, h, f, f, f, f);
    IncrementUniform(f.ex, h);
    IncrementUniform(f.ey, h);
  }

  lemma IncrementUniform(a: real, h: real)
    ensures Increment(a, a, a, a, h) == a * h
  {
    var d := a * h;
    assert (d + 2.0 * d + 2.0 * d + d) / 6.0 == d;
  }

  /** In a uniform field of strength |E| a plain step moves the point by
      stepFactor/|E| times the field, with the direction's sign. */
  lemma UniformFieldFolgepkt(e: (real, real, real) -> EField, stepFactor: real, t: real, p: Point,
                             dir: Direction, f: EField)
    requires forall x, y :: e(t, x, y) == f
    requires f.mag != 0.0
    ensures var q := Folgepkt(Plain, e, stepFactor, t, p, dir);
            && (q.x - p.x) * f.mag == stepFactor * dir.Sign() * f.ex
            && (q.y - p.y) * f.mag == stepFactor * dir.Sign() * f.ey
  {
    var h := StepScale(Plain, stepFactor, f.mag, dir);
    UniformFieldStep(e, t, p, h, f);
    assert h * f.mag == stepFactor * dir.Sign();
    assert (f.ex * h) * f.mag == f.ex * (h * f.mag);
    assert (f.ey * h) * f.mag == f.ey * (h * f.mag);
  }

  function MirrorPoint(p: Point): Point
  {
    Point(-p.x, p.y)
  }

  /** The evaluator is odd in Ex and even in Ey and |E| under x -> -x, as the
      model's E is. */
  ghost predicate MirrorSymmetric(e: (real, real, real) -> EField, t: real)
  {
    forall x, y :: e(t, -x, y) == MirrorField(e(t, x, y))
  }

  /** Folgepkt commutes with the mirror x -> -x when the field does. */
  lemma FolgepktMirror(rule: StepRule, e: (real, real, real) -> EField, stepFactor: real,
                       t: real, p: Point, dir: Direction)
    requires MirrorSymmetric(e, t)
    ensures Folgepkt(rule, e, stepFactor, t, MirrorPoint(p), dir)
         == MirrorPoint(Folgepkt(rule, e, stepFactor, t, p, dir))
  {
    var k1 := e(t, p.x, p.y);
    assert e(t, -p.x, p.y) == MirrorField(k1);
    if k1.mag != 0.0 {
      Rk4Mirror(e, t, p, StepScale(rule, stepFactor, k1.mag, dir));
    }
  }

  function MirrorField(f: EField): EField
  {
    EField(-f.ex, f.ey, f.mag)
  }

  lemma Rk4Mirror(e: (real, real, real) -> EField, t: real, p: Point, h: real)
    requires MirrorSymmetric(e, t)
    ensures Rk4(e, t, MirrorPoint(p), h) == MirrorPoint(Rk4(e, t, p, h))
  {
    var k1 := e(t, p.x, p.y);
    var k2 := Probe(e, t, p, k1, h, true);
    var k3 := Probe(e, t, p, k2, h, true);
    var k4 := Probe(e, t, p, k3, h, false);
    MirrorAt(e, t, p.x, p.y);
    ProbeMirror(e, t, p, k1, h, true);
    ProbeMirror(e, t, p, k2, h, true);
    ProbeMirror(e, t, p, k3, h, false);
    Rk4SumMirror(p, h, k1, k2, k3, k4);
  }

  lemma MirrorAt(e: (real, real, real) -> EField, t: real, x: real, y: real)
    requires MirrorSymmetric(e, t)
    ensures e(t, -x, y) == MirrorField(e(t, x, y))
  {
  }

  lemma ProbeMirror(e: (real, real, real) -> EField, t: real, p: Point, k: EField, h: real, half: bool)
    requires MirrorSymmetric(e, t)
    ensures Probe(e, t, MirrorPoint(p), MirrorField(k), h, half) == MirrorField(Probe(e, t, p, k, h, half))
  {
    ShiftOdd(k.ex, h, half);
    MirrorAt(e, t, p.x + Shift(k.ex, h, half), p.y + Shift(k.ey, h, half));
  }

  lemma ShiftOdd(a: real, h: real, half: bool)
    ensures Shift(-a, h, half) == -Shift(a, h, half)
  {
    NegProducts(a, h);
  }

  lemma Rk4SumMirror(p: Point, h: real, k1: EField, k2: EField, k3: EField, k4: EField)
    ensures Rk4Sum(MirrorPoint(p), h, MirrorField(k1), MirrorField(k2), MirrorField(k3), MirrorField(k4))
         == MirrorPoint(Rk4Sum(p, h, k1, k2, k3, k4))
  {
    IncrementOdd(k1.ex, k2.ex, k3.ex, k4.ex, h);
  }

  lemma IncrementOdd(a1: real, a2: real, a3: real, a4: real, h: real)
    ensures Increment(-a1, -a2, -a3, -a4, h) == -Increment(a1, a2, a3, a4, h)
  {
    NegProducts(a1, h);
    NegProducts(a2, h);
    NegProducts(a3, h);
    NegProducts(a4, h);
    var d1, d2, d3, d4 := a1 * h, a2 * h, a3 * h, a4 * h;
    assert (-d1 + 2.0 * (-d2) + 2.0 * (-d3) + -d4) / 6.0 == -((d1 + 2.0 * d2 + 2.0 * d3 + d4) / 6.0);
  }

  /** The model's Hertzian and rod fields both satisfy the mirror law. */
  lemma FieldIsMirrorSymmetric(lib: Library, cfg: Config, v: Variant, t: real)
    requires Valid(lib) && cfg.Valid()
    ensures MirrorSymmetric(EFieldOf(lib, cfg, v), t)
  {
    forall x, y
      ensures E(lib, cfg, v, t, -x, y) == MirrorField(E(lib, cfg, v, t, x, y))
    {
      EMirror(lib, cfg, v, t, x, y);
    }
  }
}
