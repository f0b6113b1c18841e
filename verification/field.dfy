/**
  The closed-form field evaluators E_berechnen, H_berechnen and S_berechnen of
  the three scripts, for the Hertzian (point) dipole and the rod dipole made of
  two retarded sources at y = +-lambda/4.

  Only their structure is of interest here: which points are treated as
  degenerate (and return zero before any division happens, which Dafny checks
  for every division below), and how each field behaves under the mirror
  x -> -x that the renderers use to fill the other quadrants.

  The copies disagree on H and on the sign of Sy; both readings are kept:
  ArrowScripts is DIPOLANIMATION_E_ARROWS.py and DIPOLANIMATION_H_ARROWS.py,
  ThreeDScript is DIPOLANIMATION_EH_3D.py.
 */
module Field {
  import opened Maths
  import opened Configuration

  datatype Variant = Hertzian | Rod

  datatype Copy = ArrowScripts | ThreeDScript

  /** (Ex, Ey, |E|) */
  datatype EField = EField(ex: real, ey: real, mag: real)

  /** (Sx, Sy, |S|) */
  datatype Poynting = Poynting(sx: real, sy: real, mag: real)

  const ZeroE := EField(0.0, 0.0, 0.0)
  const ZeroS := Poynting(0.0, 0.0, 0.0)

  /** a*a + b*b, the squared length the scripts take the root of. */
  function SquareSum(a: real, b: real): real
  {
    a * a + b * b
  }

  /** |(a, b)|, as the scripts compute it: sqrt(a*a + b*b). */
  function Norm(lib: Library, a: real, b: real): real
  {
    lib.sqrt(SquareSum(a, b))
  }

  /** The guards answer ZeroE, whose length is that of (0, 0). */
  lemma NormZero(lib: Library)
    requires Valid(lib)
    ensures Norm(lib, 0.0, 0.0) == 0.0
  {
    SqrtZeroIff(lib, 0.0);
  }

  // ---------------------------------------------------------------- E field

  function HertzE(lib: Library, cfg: Config, t: real, x: real, y: real): (e: EField)
    requires Valid(lib) && cfg.Valid()
    ensures x == 0.0 && y == 0.0 ==> e == ZeroE
    ensures x == 0.0 ==> e.ex == 0.0
    ensures e.mag == Norm(lib, e.ex, e.ey)
  {
    var r2 := SquareSum(x, y);
    var r := lib.sqrt(r2);
    if r == 0.0 then NormZero(lib); ZeroE
    else
      assert r2 != 0.0;
      HertzEAt(lib, cfg, t, r2, r, y / r, x / r)
  }

  /** The Hertzian E at distance r (r2 = x*x + y*y, r its root), with
      cos(alpha) = y/r and sin(alpha) = x/r. */
  function HertzEAt(lib: Library, cfg: Config, t: real, r2: real, r: real, cosa: real, sina: real): (e: EField)
    requires Valid(lib) && cfg.Valid()
    requires r != 0.0 && r2 != 0.0
    ensures sina == 0.0 ==> e.ex == 0.0
    ensures e.mag == Norm(lib, e.ex, e.ey)
  {
    var er := HertzRadial(lib, cfg, t, r2, r) * cosa;
    var ex := er * sina;
    var ey := er * cosa + HertzTransverse(lib, cfg, t, r2, r);
    EField(ex, ey, Norm(lib, ex, ey))
  }

  /** Efy, the far-field term, with p taken at the retarded time t - r/c. */
  function HertzFar(lib: Library, cfg: Config, t: real, r: real): real
    requires Valid(lib) && cfg.Valid()
    requires r != 0.0
  {
    var w := Omega(lib, cfg);
    var p := cfg.p0 * lib.cos(w * (t - r / cfg.c));
    (w * w * p) / (cfg.c2 * r)
  }

  /** Er before the factor cos(alpha). */
  function HertzRadial(lib: Library, cfg: Config, t: real, r2: real, r: real): real
    requires Valid(lib) && cfg.Valid()
    requires r != 0.0 && r2 != 0.0
  {
    var w := Omega(lib, cfg);
    var tt := t - r / cfg.c;
    var p := cfg.p0 * lib.cos(w * tt);
    var pd1 := -w * cfg.p0 * lib.sin(w * tt);
    3.0 * pd1 / (cfg.c * r2) - HertzFar(lib, cfg, t, r) + 3.0 * p / (r2 * r)
  }

  /** Ep, the component added to Ey alone. */
  function HertzTransverse(lib: Library, cfg: Config, t: real, r2: real, r: real): real
    requires Valid(lib) && cfg.Valid()
    requires r != 0.0 && r2 != 0.0
  {
    var w := Omega(lib, cfg);
    var tt := t - r / cfg.c;
    var p := cfg.p0 * lib.cos(w * tt);
    var pd1 := -w * cfg.p0 * lib.sin(w * tt);
    HertzFar(lib, cfg, t, r) - pd1 / (cfg.c * r2) - p / (r2 * r)
  }

  function RodE(lib: Library, cfg: Config, t: real, x: real, y: real): (e: EField)
    requires Valid(lib) && cfg.Valid()
    ensures x == 0.0 ==> e.ex == 0.0
    ensures x == 0.0 && (y == cfg.QuarterWave() || y == -cfg.QuarterWave()) ==> e == ZeroE
    ensures e.mag == Norm(lib, e.ex, e.ey)
  {
    var l4 := cfg.QuarterWave();
    var lPlus := y + l4;
    var lMinus := y - l4;
    var rPlus := Norm(lib, x, lPlus);
    var rMinus := Norm(lib, x, lMinus);
    if rPlus == 0.0 || rMinus == 0.0 then NormZero(lib); ZeroE
    else
      var sinPlus := RodWave(lib, cfg, t, rPlus);
      var sinMinus := RodWave(lib, cfg, t, rMinus);
      var ey := (sinPlus + sinMinus) / 40.0;
      var ex := if x == 0.0 then 0.0 else RodEx(lPlus, lMinus, x, sinPlus, sinMinus);
      EField(ex, ey, Norm(lib, ex, ey))
  }

  /** The retarded wave of one rod source at distance r, falling off as 1/r. */
  function RodWave(lib: Library, cfg: Config, t: real, r: real): real
    requires Valid(lib) && cfg.Valid()
    requires r != 0.0
  {
    (1.0 / r) * lib.cos(Omega(lib, cfg) * (t - r / cfg.c))
  }

  /** Ex of the rod dipole off the axis (_Stabfaktor = 40). */
  function RodEx(lPlus: real, lMinus: real, x: real, sinPlus: real, sinMinus: real): real
    requires x != 0.0
  {
    -((lPlus / x * sinPlus) + (lMinus / x * sinMinus)) / 40.0
  }

  /** E_berechnen (identical in the three scripts). */
  function E(lib: Library, cfg: Config, v: Variant, t: real, x: real, y: real): (e: EField)
    requires Valid(lib) && cfg.Valid()
    // the degenerate points answer (0, 0, 0) before any division
    ensures v == Hertzian && x == 0.0 && y == 0.0 ==> e == ZeroE
    ensures v == Rod && x == 0.0 && (y == cfg.QuarterWave() || y == -cfg.QuarterWave()) ==> e == ZeroE
    // on the dipole axis the field is parallel to it
    ensures x == 0.0 ==> e.ex == 0.0
    // the third component is the length of the first two
    ensures e.mag == Norm(lib, e.ex, e.ey)
  {
    match v
    case Hertzian => HertzE(lib, cfg, t, x, y)
    case Rod => RodE(lib, cfg, t, x, y)
  }

  /** E of one dipole as the field function the tracer follows. */
  function EFieldOf(lib: Library, cfg: Config, v: Variant): (real, real, real) -> EField
    requires Valid(lib) && cfg.Valid()
  {
    (t, x, y) => E(lib, cfg, v, t, x, y)
  }

  // ---------------------------------------------------------------- H field

  /** H of the arrow scripts: second and first derivative of p, times sin(alpha) = x/r. */
  function HertzHArrows(lib: Library, cfg: Config, t: real, x: real, y: real): (h: real)
    requires Valid(lib) && cfg.Valid()
    ensures x == 0.0 ==> h == 0.0
  {
    var r2 := SquareSum(x, y);
    var r := lib.sqrt(r2);
    if r == 0.0 then 0.0
    else
      assert r2 != 0.0;
      var sina := x / r;
      (HertzHFar(lib, cfg, t, r) * sina) + (HertzHNear(lib, cfg, t, r2, r) * sina)
  }

  /** pd2/(c2*r) with pd2 = w*w*p, p at the retarded time. */
  function HertzHFar(lib: Library, cfg: Config, t: real, r: real): real
    requires Valid(lib) && cfg.Valid()
    requires r != 0.0
  {
    var w := Omega(lib, cfg);
    var p := cfg.p0 * lib.cos(w * (t - r / cfg.c));
    (w * w * p) / (cfg.c2 * r)
  }

  /** pd1/(c*r2), the sign of pd1 turned for the z+ direction. */
  function HertzHNear(lib: Library, cfg: Config, t: real, r2: real, r: real): real
    requires Valid(lib) && cfg.Valid()
    requires r2 != 0.0
  {
    var w := Omega(lib, cfg);
    var pd1 := w * cfg.p0 * lib.sin(w * (t - r / cfg.c));
    pd1 / (cfg.c * r2)
  }

  /** H of the 3-D script: normalised by the wave impedance, no x/r factor. */
  function HertzHThreeD(lib: Library, cfg: Config, t: real, x: real, y: real): (h: real)
    requires Valid(lib) && cfg.Valid()
    ensures x == 0.0 && y == 0.0 ==> h == 0.0
  {
    var r := Norm(lib, x, y);
    if r == 0.0 then 0.0
    else HertzHImpedance(lib, cfg, t, r)
  }

  function HertzHImpedance(lib: Library, cfg: Config, t: real, r: real): real
    requires Valid(lib) && cfg.Valid()
    requires r != 0.0
  {
    var w := Omega(lib, cfg);
    var tt := t - r / cfg.c;
    var p := cfg.p0 * lib.cos(w * tt);
    var pd1 := -w * cfg.p0 * lib.sin(w * tt);
    pd1 / (cfg.z0 * r) + (w * p) / (cfg.z0 * cfg.c * r)
  }

  function RodHArrows(lib: Library, cfg: Config, t: real, x: real, y: real): (h: real)
    requires Valid(lib) && cfg.Valid()
    ensures x == 0.0 ==> h == 0.0
  {
    var l4 := cfg.QuarterWave();
    var rPlus := Norm(lib, x, y + l4);
    var rMinus := Norm(lib, x, y - l4);
    if rPlus == 0.0 || rMinus == 0.0 || x == 0.0 then 0.0
    else OverX40(RodWaveSum(lib, cfg, t, rPlus, rMinus), x)
  }

  /** The two undamped retarded waves of the rod sources, summed. */
  function RodWaveSum(lib: Library, cfg: Config, t: real, rPlus: real, rMinus: real): real
    requires Valid(lib) && cfg.Valid()
  {
    var w := Omega(lib, cfg);
    lib.cos(w * (t - rPlus / cfg.c)) + lib.cos(w * (t - rMinus / cfg.c))
  }

  /** Division by x * _Stabfaktor. */
  function OverX40(u: real, x: real): real
    requires x != 0.0
  {
    u / (x * 40.0)
  }

  /** The 3-D script's rod H: a current p0*sin(w*t) spread over a circle of radius r. */
  function RodHThreeD(lib: Library, cfg: Config, t: real, x: real, y: real): (h: real)
    requires Valid(lib) && cfg.Valid()
    ensures x == 0.0 && y == 0.0 ==> h == 0.0
  {
    var r := Norm(lib, x, y);
    if r == 0.0 then 0.0
    else
      var current := cfg.p0 * lib.sin(Omega(lib, cfg) * t);
      current / (2.0 * lib.pi * r)
  }

  /** H_berechnen of each copy. */
  function H(lib: Library, cfg: Config, v: Variant, copy: Copy, t: real, x: real, y: real): (h: real)
    requires Valid(lib) && cfg.Valid()
    // every copy answers 0 at the origin; the arrow scripts' sin(alpha) factor
    // and x guard make H vanish on the whole dipole axis
    ensures x == 0.0 && y == 0.0 ==> h == 0.0
    ensures copy == ArrowScripts && x == 0.0 ==> h == 0.0
  {
    match (v, copy)
    case (Hertzian, ArrowScripts) => HertzHArrows(lib, cfg, t, x, y)
    case (Hertzian, ThreeDScript) => HertzHThreeD(lib, cfg, t, x, y)
    case (Rod, ArrowScripts) => RodHArrows(lib, cfg, t, x, y)
    case (Rod, ThreeDScript) => RodHThreeD(lib, cfg, t, x, y)
  }

  // ---------------------------------------------------------- Poynting vector

  /** S_berechnen: Sx = Ey*H everywhere; Sy = Ex*H in the arrow scripts and
      Sy = -Ex*H in the 3-D script. */
  function S(lib: Library, cfg: Config, v: Variant, copy: Copy, t: real, x: real, y: real): (s: Poynting)
    requires Valid(lib) && cfg.Valid()
    ensures x == 0.0 && y == 0.0 ==> s == ZeroS
  {
    Combine(lib, copy, E(lib, cfg, v, t, x, y), H(lib, cfg, v, copy, t, x, y))
  }

  /** The cross product E x H projected into the plane, per copy. */
  function Combine(lib: Library, copy: Copy, e: EField, h: real): Poynting
  {
    var sx := e.ey * h;
    var sy := if copy == ArrowScripts then e.ex * h else -e.ex * h;
    Poynting(sx, sy, Norm(lib, sx, sy))
  }

  /** F, the axial projection whose zeros on the x-axis separate the lobes of
      the Hertzian field (the root finder treats it as a black box). */
  function AxialF(lib: Library, cfg: Config, x: real, t: real): (r: real)
    requires Valid(lib) && cfg.Valid()
    // at the dipole itself F is the phase cos(w*t) of the moment p(t)
    ensures x == 0.0 ==> r == lib.cos(Omega(lib, cfg) * t)
  {
    var w := Omega(lib, cfg);
    var zw := RetardedPhase(w, cfg.c, x, t);
    var weight := NearWeight(w, cfg.c, x);
    lib.cos(zw) - weight * lib.sin(zw)
  }

  /** zw = -w*(x/c - t), the phase at x of a wave leaving the origin at time t - x/c. */
  function RetardedPhase(w: real, c: real, x: real, t: real): (zw: real)
    requires c > 0.0
    ensures x == 0.0 ==> zw == w * t
  {
    -w * (x / c - t)
  }

  /** x*w/c, the weight of the sine term of F; zero at the dipole. */
  function NearWeight(w: real, c: real, x: real): (k: real)
    requires c > 0.0
    ensures x == 0.0 ==> k == 0.0
  {
    x * w / c
  }

  /** F as the function the boundary walk searches for zeros. */
  function AxialFOf(lib: Library, cfg: Config): (real, real) -> real
    requires Valid(lib) && cfg.Valid()
  {
    (x, t) => AxialF(lib, cfg, x, t)
  }

  // ------------------------------------------------------ degenerate points

  /** The Hertzian guard r == 0 fires exactly at the origin. */
  lemma HertzGuardExact(lib: Library, x: real, y: real)
    requires Valid(lib)
    ensures x == 0.0 && y == 0.0 ==> Norm(lib, x, y) == 0.0
    ensures x != 0.0 || y != 0.0 ==> Norm(lib, x, y) > 0.0
  {
    if x != 0.0 || y != 0.0 {
      SumOfSquaresPositive(x, y);
      assert lib.sqrt(0.0) < lib.sqrt(x * x + y * y);
    } else {
      assert SquareSum(x, y) == 0.0;
    }
  }

  /** The rod guard rplus == 0 or rminus == 0 fires exactly at the two sources
      (0, -lambda/4) and (0, lambda/4). */
  lemma RodGuardExact(lib: Library, cfg: Config, x: real, y: real)
    requires Valid(lib) && cfg.Valid()
    ensures var l4 := cfg.QuarterWave();
            x == 0.0 && (y == l4 || y == -l4) ==>
              Norm(lib, x, y + l4) == 0.0 || Norm(lib, x, y - l4) == 0.0
    ensures var l4 := cfg.QuarterWave();
            !(x == 0.0 && (y == l4 || y == -l4)) ==>
              Norm(lib, x, y + l4) > 0.0 && Norm(lib, x, y - l4) > 0.0
  {
    var l4 := cfg.QuarterWave();
    HertzGuardExact(lib, x, y + l4);
    HertzGuardExact(lib, x, y - l4);
  }

  lemma SumOfSquaresPositive(a: real, b: real)
    requires a != 0.0 || b != 0.0
    ensures a * a + b * b > 0.0
  {
    SquarePositive(a);
    SquarePositive(b);
  }

  lemma SquarePositive(a: real)
    ensures a * a >= 0.0
    ensures a != 0.0 ==> a * a > 0.0
  {
    if a < 0.0 {
      assert a * a == (-a) * (-a);
    }
  }

  // ---------------------------------------------------------------- mirror

  lemma NegProducts(a: real, b: real)
    ensures (-a) * b == -(a * b) && a * (-b) == -(a * b) && (-a) * (-b) == a * b
  {
  }

  lemma NegQuotients(a: real, b: real)
    requires b != 0.0
    ensures (-a) / b == -(a / b) && a / (-b) == -(a / b)
  {
    DivUnique(-a, b, -(a / b));
    DivUnique(a, -b, -(a / b));
  }

  lemma SquareSumMirror(a: real, b: real)
    ensures SquareSum(-a, b) == SquareSum(a, b)
  {
    NegProducts(a, a);
  }

  lemma NormMirror(lib: Library, a: real, b: real)
    ensures Norm(lib, -a, b) == Norm(lib, a, b)
    ensures Norm(lib, a, -b) == Norm(lib, a, b)
  {
    NegProducts(a, a);
    NegProducts(b, b);
  }

  lemma HertzEAtOdd(lib: Library, cfg: Config, t: real, r2: real, r: real, cosa: real, sina: real)
    requires Valid(lib) && cfg.Valid()
    requires r != 0.0 && r2 != 0.0
    ensures var e := HertzEAt(lib, cfg, t, r2, r, cosa, sina);
            HertzEAt(lib, cfg, t, r2, r, cosa, -sina) == EField(-e.ex, e.ey, e.mag)
  {
    var er := HertzRadial(lib, cfg, t, r2, r) * cosa;
    var ey := er * cosa + HertzTransverse(lib, cfg, t, r2, r);
    NegProducts(er, sina);
    NormMirror(lib, er * sina, ey);
  }

  lemma HertzEMirror(lib: Library, cfg: Config, t: real, x: real, y: real)
    requires Valid(lib) && cfg.Valid()
    ensures var e := HertzE(lib, cfg, t, x, y);
            HertzE(lib, cfg, t, -x, y) == EField(-e.ex, e.ey, e.mag)
  {
    var r2 := SquareSum(x, y);
    var r := lib.sqrt(r2);
    SquareSumMirror(x, y);
    if r != 0.0 {
      assert r2 != 0.0;
      NegQuotients(x, r);
      HertzEAtOdd(lib, cfg, t, r2, r, y / r, x / r);
    }
  }

  lemma RodExOdd(lPlus: real, lMinus: real, x: real, sinPlus: real, sinMinus: real)
    requires x != 0.0
    ensures RodEx(lPlus, lMinus, -x, sinPlus, sinMinus) == -RodEx(lPlus, lMinus, x, sinPlus, sinMinus)
  {
    var a, b := lPlus / x, lMinus / x;
    NegQuotients(lPlus, x);
    NegQuotients(lMinus, x);
    NegProducts(a, sinPlus);
    NegProducts(b, sinMinus);
  }

  lemma RodEMirror(lib: Library, cfg: Config, t: real, x: real, y: real)
    requires Valid(lib) && cfg.Valid()
    ensures var e := RodE(lib, cfg, t, x, y);
            RodE(lib, cfg, t, -x, y) == EField(-e.ex, e.ey, e.mag)
  {
    var l4 := cfg.QuarterWave();
    var lPlus, lMinus := y + l4, y - l4;
    NormMirror(lib, x, lPlus);
    NormMirror(lib, x, lMinus);
    var rPlus := Norm(lib, x, lPlus);
    var rMinus := Norm(lib, x, lMinus);
    if rPlus != 0.0 && rMinus != 0.0 && x != 0.0 {
      var sinPlus := RodWave(lib, cfg, t, rPlus);
      var sinMinus := RodWave(lib, cfg, t, rMinus);
      var ey := (sinPlus + sinMinus) / 40.0;
      var ex := RodEx(lPlus, lMinus, x, sinPlus, sinMinus);
      RodExOdd(lPlus, lMinus, x, sinPlus, sinMinus);
      NormMirror(lib, ex, ey);
    }
  }

  /** E under x -> -x: Ex changes sign, Ey and |E| do not (both variants). */
  lemma EMirror(lib: Library, cfg: Config, v: Variant, t: real, x: real, y: real)
    requires Valid(lib) && cfg.Valid()
    ensures var e := E(lib, cfg, v, t, x, y);
            E(lib, cfg, v, t, -x, y) == EField(-e.ex, e.ey, e.mag)
  {
    match v
    case Hertzian => HertzEMirror(lib, cfg, t, x, y);
    case Rod => RodEMirror(lib, cfg, t, x, y);
  }

  lemma HertzHArrowsOdd(lib: Library, cfg: Config, t: real, x: real, y: real)
    requires Valid(lib) && cfg.Valid()
    ensures HertzHArrows(lib, cfg, t, -x, y) == -HertzHArrows(lib, cfg, t, x, y)
  {
    var r2 := SquareSum(x, y);
    var r := lib.sqrt(r2);
    SquareSumMirror(x, y);
    if r != 0.0 {
      assert r2 != 0.0;
      var sina := x / r;
      NegQuotients(x, r);
      NegProducts(HertzHFar(lib, cfg, t, r), sina);
      NegProducts(HertzHNear(lib, cfg, t, r2, r), sina);
    }
  }

  lemma HertzHThreeDEven(lib: Library, cfg: Config, t: real, x: real, y: real)
    requires Valid(lib) && cfg.Valid()
    ensures HertzHThreeD(lib, cfg, t, -x, y) == HertzHThreeD(lib, cfg, t, x, y)
  {
    NormMirror(lib, x, y);
  }

  lemma RodHArrowsOdd(lib: Library, cfg: Config, t: real, x: real, y: real)
    requires Valid(lib) && cfg.Valid()
    ensures RodHArrows(lib, cfg, t, -x, y) == -RodHArrows(lib, cfg, t, x, y)
  {
    var l4 := cfg.QuarterWave();
    NormMirror(lib, x, y + l4);
    NormMirror(lib, x, y - l4);
    if x != 0.0 {
      var u := RodWaveSum(lib, cfg, t, Norm(lib, x, y + l4), Norm(lib, x, y - l4));
      NegProducts(x, 40.0);
      NegQuotients(u, x * 40.0);
    }
  }

  lemma RodHThreeDEven(lib: Library, cfg: Config, t: real, x: real, y: real)
    requires Valid(lib) && cfg.Valid()
    ensures RodHThreeD(lib, cfg, t, -x, y) == RodHThreeD(lib, cfg, t, x, y)
  {
    NormMirror(lib, x, y);
  }

  /** H under x -> -x: odd in the arrow scripts (the x/r factor, or the 1/x of
      the rod formula), even in the 3-D script, which depends on r alone. */
  lemma HMirror(lib: Library, cfg: Config, v: Variant, copy: Copy, t: real, x: real, y: real)
    requires Valid(lib) && cfg.Valid()
    ensures copy == ArrowScripts ==> H(lib, cfg, v, copy, t, -x, y) == -H(lib, cfg, v, copy, t, x, y)
    ensures copy == ThreeDScript ==> H(lib, cfg, v, copy, t, -x, y) == H(lib, cfg, v, copy, t, x, y)
  {
    match (v, copy)
    case (Hertzian, ArrowScripts) => HertzHArrowsOdd(lib, cfg, t, x, y);
    case (Hertzian, ThreeDScript) => HertzHThreeDEven(lib, cfg, t, x, y);
    case (Rod, ArrowScripts) => RodHArrowsOdd(lib, cfg, t, x, y);
    case (Rod, ThreeDScript) => RodHThreeDEven(lib, cfg, t, x, y);
  }

  /** Combine under a mirrored E and an odd (arrow scripts) or even (3-D
      script) H. */
  lemma CombineMirror(lib: Library, copy: Copy, e: EField, h: real)
    ensures var s := Combine(lib, copy, e, h);
            copy == ArrowScripts ==> Combine(lib, copy, EField(-e.ex, e.ey, e.mag), -h) == Poynting(-s.sx, s.sy, s.mag)
    ensures var s := Combine(lib, copy, e, h);
            copy == ThreeDScript ==> Combine(lib, copy, EField(-e.ex, e.ey, e.mag), h) == Poynting(s.sx, -s.sy, s.mag)
  {
    var s := Combine(lib, copy, e, h);
    var m := EField(-e.ex, e.ey, e.mag);
    NormMirror(lib, s.sx, s.sy);
    NegProducts(e.ey, h);
    NegProducts(e.ex, h);
    if copy == ArrowScripts {
      CombineAt(lib, copy, m, -h, -s.sx, s.sy);
    } else {
      CombineAt(lib, copy, m, h, s.sx, -s.sy);
    }
  }

  /** Combine in terms of its two products, named. */
  lemma CombineAt(lib: Library, copy: Copy, e: EField, h: real, sx: real, sy: real)
    requires sx == e.ey * h
    requires sy == if copy == ArrowScripts then e.ex * h else -e.ex * h
    ensures Combine(lib, copy, e, h) == Poynting(sx, sy, Norm(lib, sx, sy))
  {
    var c := Combine(lib, copy, e, h);
    assert c.sx == sx && c.sy == sy;
    assert c.mag == Norm(lib, c.sx, c.sy);
  }

  /** S under x -> -x. In the arrow scripts Sx flips and Sy stays, which is
      the pattern their renderers use to mirror the arrows; the 3-D script's
      even H and negated Sy give the opposite pattern. */
  lemma SMirror(lib: Library, cfg: Config, v: Variant, copy: Copy, t: real, x: real, y: real)
    requires Valid(lib) && cfg.Valid()
    ensures var s := S(lib, cfg, v, copy, t, x, y);
            copy == ArrowScripts ==> S(lib, cfg, v, copy, t, -x, y) == Poynting(-s.sx, s.sy, s.mag)
    ensures var s := S(lib, cfg, v, copy, t, x, y);
            copy == ThreeDScript ==> S(lib, cfg, v, copy, t, -x, y) == Poynting(s.sx, -s.sy, s.mag)
  {
    EMirror(lib, cfg, v, t, x, y);
    HMirror(lib, cfg, v, copy, t, x, y);
    CombineMirror(lib, copy, E(lib, cfg, v, t, x, y), H(lib, cfg, v, copy, t, x, y));
  }
}
