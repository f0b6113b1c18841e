# Dipole field-line engine, modelled in Dafny

The three DipoleFieldLines animation scripts each carry a copy of the same small
numerical-geometry engine. The copies are DIPOLANIMATION_E_ARROWS.py,
DIPOLANIMATION_EH_3D.py and DIPOLANIMATION_H_ARROWS.py. The engine draws the
field of a Hertzian (point) dipole or a rod dipole in one frame at time t. It
has six parts:

- **Bisection** (`Bisection`, bisection.dfy): the root finder `Nullstelle`.
- **Lobe boundaries** (`Boundaries`, boundaries.dfy): `Grenzlinien_bestimmen`.
  The Hertzian branch walks the positive x-axis in lambda/16 windows and
  bisects every window over which the axial function F changes sign. The rod
  branch computes closed-form radii after folding the time phase: the folded
  phase is at most pi/w, and positive whenever t > pi/w (the first frame, at
  t = 0, keeps phase 0).
- **Seed planner** (`Seeds`, seeds.dfy): `LinienStarts_bestimmen`. It writes a
  flat list: a count slot, the start positions of the field lines, and the end
  marker 666666.0.
- **Tracer** (`Tracer`, tracer.dfy): `E_Linie_berechnen` with the RK4 step
  `Folgepkt`.
- **Ring scheduler** (`Rings`, rings.dfy): `H_Linien_Radien` with the `_radd`
  offset table. This file also holds the ring-redraw test in the H_ARROWS
  `update`.
- **Field evaluators** (`Field`, field.dfy): `E_berechnen`, `H_berechnen`,
  `S_berechnen`. Only their degenerate-point guards and their behaviour under
  the mirror x -> -x are modelled.

`Maths` (maths.dfy) holds the numeric library. cos, sin, sqrt and pi are the
fields of a `Library` value. The only laws assumed about them are sqrt(0) = 0,
strict monotonicity of sqrt on the non-negative reals, and pi > 0.
`Configuration` (config.dfy) replaces the scripts' module-level constants with
one `Config` record that every operation receives.

The copies differ in a few places, and each difference is kept as a named
variant rather than reconciled:

- `Copy.ArrowScripts` / `Copy.ThreeDScript`: the H formula and the sign of Sy.
- `StepRule.Plain` / `StepRule.Clamped`: the Folgepkt step, where the H_ARROWS
  copy floors the field strength at 1e-6. `TraceLine` and `TraceField` accept
  either rule, but only `Plain` corresponds to a shipped script: H_ARROWS has
  no E_Linie_berechnen.
- `WalkRule.LobeRule` / `WalkRule.WindowRule`: the stop rule of the Hertzian
  boundary walk.
  - LobeRule (E_ARROWS, EH_3D) stops once the window start or the last root
    passes sizeFactor * 7 * lambda/4, or once 100 roots exist.
  - WindowRule (H_ARROWS) stops once the window start passes
    lambda * sizeFactor and has no cap.

The field evaluator and F are passed to the root finder, the walk and the
tracer as function parameters. The model's own `Field.E` and `Field.AxialF`
are plugged in by `Tracer.TraceField` and `Boundaries.Grenzlinien`.

Where the code and its documentation disagree, the model follows the code:

- The `_radd` table holds 17 offsets. Its entry 0 is the count 17, not an
  eighteenth offset.
- The Hertzian boundary list is only non-decreasing, not strictly increasing. A
  zero of F that falls exactly on the shared end of two windows is reported by
  both windows.

## Model

| member | source | states |
|---|---|---|
| Bisection.Nullstelle | DIPOLANIMATION_H_ARROWS.py:201-225 | The result equals the recursive reference BisectionRoot. If f(x1) = 0 the result is x1; otherwise if f(x2) = 0 it is x2; in both cases no bisection pass runs. Otherwise 1 to 25 passes run, the result is the midpoint of the last bracket (the fallback after the loop is never taken), that bracket is (x2 - x1) / 2^(passes-1) wide, lies inside [x1, x2], and the loop stopped on an exact zero, the 0.001 tolerance or the 25-pass cap; a sign change on entry survives in the final bracket; the result lies in [x1, x2]. |
| Bisection.Bisect | DIPOLANIMATION_H_ARROWS.py:212-225 | With both endpoint values non-zero: the same pass count, bracket width, nesting, stop reason and sign-bracket facts, and the returned value is the last midpoint, equal to the reference HalvingResult from [x1, x2]. |
| Bisection.Halvings | DIPOLANIMATION_H_ARROWS.py:212-224 | The for loop always sets x_mid, and x_mid equals the reference HalvingResult, the recursion that halves on the same tests. It leaves a last bracket whose cached values are f at its ends, whose width halved on every pass, which stays in [x1, x2], and which still brackets a sign change if the first one did; a pass count of at least 2 means the previous bracket was wider than the tolerance; the pair (x1, x2) the loop leaves behind is likewise nested and still brackets the sign change. |
| Bisection.HalvingsFrom | DIPOLANIMATION_H_ARROWS.py:212-224 | The passes from the k-th bracket on: at least one more pass runs, the x_mid they end with equals the reference HalvingResult from that bracket, and the run ends as Ran describes. The last bracket has its cached values, its halved width and its nesting, the loop stopped for one of its three reasons, and the final pair stays nested and keeps the sign change. |
| Bisection.HalvingPass | DIPOLANIMATION_H_ARROWS.py:213-224 | One pass takes the midpoint and stops exactly on the 0.001 tolerance or an exact zero; a stopping pass, or the 25th, returns that midpoint as the reference result; otherwise the kept half is the bracket invariant at half the width, the reference result is unchanged, and the bracket was wider than the tolerance. |
| Bisection.Narrow | DIPOLANIMATION_H_ARROWS.py:217-224 | Replacing x2 by the midpoint when f2 * f_mid > 0, and x1 otherwise, keeps the bracket invariant with half the width. |
| Bisection.ProductSign | DIPOLANIMATION_H_ARROWS.py:217 | The product test f2 * f_mid > 0 holds exactly when both values are non-zero with the same sign, and a negative product means opposite signs. |
| Field.HertzGuardExact | DIPOLANIMATION_E_ARROWS.py:76-79 | The Hertzian guard r == 0 fires exactly at the origin; everywhere else r > 0, so no division by zero follows. |
| Field.RodGuardExact | DIPOLANIMATION_E_ARROWS.py:95-98 | The rod guard rplus == 0 or rminus == 0 fires exactly at the two source points (0, +-lambda/4). |
| Field.HertzE | DIPOLANIMATION_E_ARROWS.py:76-79 | The Hertzian E is (0, 0, 0) at the origin. |
| Field.RodE | DIPOLANIMATION_E_ARROWS.py:93-107 | The rod E has Ex = 0 on the axis x = 0 and is (0, 0, 0) at both source points. |
| Field.HertzHArrows | DIPOLANIMATION_E_ARROWS.py:116-125 | The arrow scripts' Hertzian H vanishes on the axis x = 0 (origin included), because of its x/r factor. |
| Field.HertzHThreeD | DIPOLANIMATION_EH_3D.py:154-162 | The wave-impedance H of the 3-D script is 0 at the origin. |
| Field.RodHArrows | DIPOLANIMATION_E_ARROWS.py:128-136 | The arrow scripts' rod H is 0 whenever x = 0. |
| Field.RodHThreeD | DIPOLANIMATION_EH_3D.py:163-170 | The 3-D script's rod H is 0 at the origin. |
| Field.E | DIPOLANIMATION_E_ARROWS.py:74-109 | E_berechnen answers (0, 0, 0) at its guards: the origin for the Hertzian dipole, the two rod sources (0, +-lambda/4) for the rod. On the dipole axis x = 0 the field has no x component, and the third component is always the length sqrt(Ex^2 + Ey^2) of the first two. |
| Field.H | DIPOLANIMATION_E_ARROWS.py:113-137 | H_berechnen is 0 at the origin in every copy. In the arrow scripts it is 0 on the whole dipole axis x = 0, through the Hertzian sin(alpha) = x/r factor and the rod's x guard. The 3-D script's H (DIPOLANIMATION_EH_3D.py:154-170) has no such factor. |
| Field.S | DIPOLANIMATION_E_ARROWS.py:141-147 | S is (0, 0, 0) at the origin, in both copies. |
| Field.AxialF | DIPOLANIMATION_E_ARROWS.py:158-161 | F(x, t) = cos(zw) - (x*w/c) * sin(zw) with zw = -w*(x/c - t); at the dipole itself (x = 0) it reduces to cos(w*t), the phase of the moment p(t). |
| Field.EMirror | DIPOLANIMATION_E_ARROWS.py:74-109 | Mirror law of E for both dipoles: E(t, -x, y) = (-Ex, Ey, \|E\|) with Ex, Ey, \|E\| taken at (x, y). |
| Field.HMirror | DIPOLANIMATION_E_ARROWS.py:113-137 | The arrow scripts' H is odd in x; the 3-D script's H is even in x; for both dipoles. |
| Field.HertzHArrowsOdd | DIPOLANIMATION_E_ARROWS.py:120-125 | H(t, -x, y) = -H(t, x, y) for the Hertzian H of the arrow scripts. |
| Field.HertzHThreeDEven | DIPOLANIMATION_EH_3D.py:154-162 | H(t, -x, y) = H(t, x, y) for the Hertzian H of the 3-D script, which has no x/r factor. |
| Field.RodHArrowsOdd | DIPOLANIMATION_E_ARROWS.py:128-136 | H(t, -x, y) = -H(t, x, y) for the rod H of the arrow scripts. |
| Field.RodHThreeDEven | DIPOLANIMATION_EH_3D.py:163-170 | H(t, -x, y) = H(t, x, y) for the rod H of the 3-D script. |
| Field.CombineMirror | DIPOLANIMATION_EH_3D.py:177-185 | Combining a mirrored E with the mirrored H gives (-Sx, Sy, \|S\|) when Sy = Ex * H and (Sx, -Sy, \|S\|) when Sy = -Ex * H. |
| Field.SMirror | DIPOLANIMATION_EH_3D.py:174-185 | Mirror law of S: (-Sx, Sy, \|S\|) in the arrow scripts, (Sx, -Sy, \|S\|) in the 3-D script. |
| Boundaries.WalkPass | DIPOLANIMATION_E_ARROWS.py:218-224 | One window adds exactly one root when f1 * f2 <= 0, and nothing otherwise. That root is the value Nullstelle returns for the window (BisectionRoot) and lies inside it. Earlier roots are untouched. |
| Boundaries.AddWindowRoot | DIPOLANIMATION_E_ARROWS.py:218-224 | A sign-change window appends exactly one root and keeps every earlier root. The record stays exact, with the new root equal to Nullstelle's result for the window. |
| Boundaries.WindowBisect | DIPOLANIMATION_E_ARROWS.py:219 | Nullstelle on a window returns that window's reference root (BisectionRoot of its two ends), and the root lies inside the window. |
| Boundaries.RecordedAdd | DIPOLANIMATION_E_ARROWS.py:220-224 | Appending the bisection root of a sign-change window keeps the record exact: one root per sign-change window, in pass order, each equal to Nullstelle's result for its window. |
| Boundaries.RecordedSkip | DIPOLANIMATION_E_ARROWS.py:220 | A window without a sign change leaves the record exact. |
| Boundaries.HertzWalk | DIPOLANIMATION_E_ARROWS.py:212-236 | The walk runs at least one pass and stops after the first pass whose next window start exceeds the bound, or whose roots meet the LobeRule cap or last-root test. Every window start before that pass stayed within the bound. The list holds one root for each window with f1 * f2 <= 0, in pass order; each is the value Nullstelle returns for its own window and lies inside it. Under LobeRule it holds at most 100 entries, and every root but the last is within the bound. |
| Boundaries.WindowedRootsAscend | DIPOLANIMATION_E_ARROWS.py:213-226 | The Hertzian roots never decrease (they need not strictly increase), none lies below Linienabst/2 + 3, and none lies more than one window beyond the larger of the walk start and the stop bound. |
| Boundaries.RodLobeCount | DIPOLANIMATION_E_ARROWS.py:242-251 | Keulenzahl is between 4 and 12: 4 exactly below zoom 1, 5 exactly at 1, 12 exactly at 4, and 7 for every other zoom above 1. |
| Boundaries.FoldPhase | DIPOLANIMATION_E_ARROWS.py:254-255 | The folded phase is t minus a whole number of half periods pi/w and at most pi/w; a phase already within it is unchanged; a folded phase stays positive. |
| Boundaries.RodLobe | DIPOLANIMATION_E_ARROWS.py:254-261 | One lobe pass folds the phase and appends sqrt(aa1^2 - (lambda/4)^2) exactly when aa1 > lambda/4. |
| Boundaries.RodLobeStep | DIPOLANIMATION_E_ARROWS.py:252-261 | One pass of the lobe loop keeps its invariant. The phase is folded to at most pi/w, and only on the first pass. The list so far, followed by the radii of the lobes still to come, gives the radii of all lobes. |
| Boundaries.RodLobes | DIPOLANIMATION_E_ARROWS.py:252-261 | The lobe loop yields the radii of lobes 0 .. count-1 whose arm exceeds lambda/4, in lobe order, at the phase folded on the first pass. |
| Boundaries.RodBoundaries | DIPOLANIMATION_E_ARROWS.py:237-261 | The rod branch's phase is t minus whole half periods, at most pi/w, equal to t when t <= pi/w (so 0 in the first frame) and positive whenever t > pi/w; the list is the reference radius list for Keulenzahl lobes at that phase. |
| Boundaries.RodRadiiMembers | DIPOLANIMATION_E_ARROWS.py:256-260 | A value is a rod boundary iff it is the radius of some lobe n < Keulenzahl whose arm aa1 exceeds lambda/4. |
| Boundaries.RodRadiiIncrease | DIPOLANIMATION_E_ARROWS.py:252-260 | The rod radii strictly increase with the lobe number. |
| Boundaries.RodRadiiCount | DIPOLANIMATION_E_ARROWS.py:252-260 | At most one radius per lobe. |
| Boundaries.RodBoundariesShape | DIPOLANIMATION_E_ARROWS.py:242-260 | The rod branch holds at most Keulenzahl radii, in strictly increasing order. |
| Boundaries.ArmsIncrease | DIPOLANIMATION_E_ARROWS.py:256 | aa1 = 2n * lambda/4 + c * tt grows strictly with n. |
| Boundaries.RadiusIncreases | DIPOLANIMATION_E_ARROWS.py:259 | sqrt(aa1^2 - (lambda/4)^2) grows strictly with aa1 above lambda/4. |
| Boundaries.Grenzlinien | DIPOLANIMATION_E_ARROWS.py:206-261 | Per variant and stop rule. Hertzian (both branches of this copy; the WindowRule walk is DIPOLANIMATION_H_ARROWS.py lines 249-271): the list is exactly the walk's record for F, one bisection root per sign-change window in pass order, and the walk stopped after its last pass and not before; the roots are non-decreasing and at least the walk start, and at most 100 under LobeRule. Rod under LobeRule (lines 237-261): the list is exactly the radii of the Keulenzahl lobes at the folded phase, which is at most pi/w, t itself when t <= pi/w and positive otherwise; the radii strictly increase and number at most Keulenzahl. The H_ARROWS copy has no rod branch and leaves the list empty. |
| Seeds.LinienStarts | DIPOLANIMATION_E_ARROWS.py:269-282 | The flat list is [count] ++ seeds ++ [666666.0], where count is the number of seeds and the seeds are those of the first \|bounds\| - 1 lobes, lobe after lobe. |
| Seeds.PlaceLobe | DIPOLANIMATION_E_ARROWS.py:274-280 | The inner while-loop produces exactly the reference seed list of one lobe. |
| Seeds.LobeSeedsShape | DIPOLANIMATION_E_ARROWS.py:274-280 | Within a lobe the first seed is b[n] - Linienabst/2, each next one is Linienabst further in, every seed is > 3 and at most the first, and the last one was placed while fewer than _Linien_pro_Welle were there. |
| Seeds.LobeSeedsMaximal | DIPOLANIMATION_E_ARROWS.py:276 | A lobe stops only because its next position is <= 3 or because _Linien_pro_Welle seeds are placed. |
| Seeds.LobeSeedsDecrease | DIPOLANIMATION_E_ARROWS.py:276-280 | Seeds within a lobe strictly decrease. |
| Seeds.LobeAtMostEight | DIPOLANIMATION_E_ARROWS.py:41 | With the shipped constants (_Linien_pro_Welle = 8) a lobe holds at most 8 seeds. |
| Seeds.SeedsOutsideNearZone | DIPOLANIMATION_E_ARROWS.py:276 | Every planned seed lies beyond x = 3. |
| Seeds.PlanIgnoresLastBoundary | DIPOLANIMATION_E_ARROWS.py:273 | Only the first Zahl_der_Extrema - 1 boundaries open a lobe: changing the last boundary changes no seed. |
| Tracer.StepStrength | DIPOLANIMATION_H_ARROWS.py:285-286 | The unclamped step divides by \|E\| itself; the clamped step divides by a strength of at least 1e-6 that equals \|E\| whenever \|E\| >= 1e-6. |
| Tracer.StepScale | DIPOLANIMATION_EH_3D.py:356 | The step scale d satisfies d * strength = Grobfaktor2 * direction. |
| Tracer.ClampedScaleBound | DIPOLANIMATION_H_ARROWS.py:285-287 | In the clamped copy \|h\| <= Grobfaktor2 / 1e-6 for every non-zero field strength. |
| Tracer.Folgepkt | DIPOLANIMATION_EH_3D.py:353-355 | A point where \|E\| = 0 is returned unchanged. |
| Tracer.UniformFieldStep | DIPOLANIMATION_EH_3D.py:357-369 | In a uniform field the RK4 combination (dx1 + 2dx2 + 2dx3 + dx4)/6 is exactly the field times h. |
| Tracer.UniformFieldFolgepkt | DIPOLANIMATION_EH_3D.py:352-370 | In a uniform field of non-zero strength \|E\| a step moves the point by Grobfaktor2 * direction / \|E\| times (Ex, Ey). |
| Tracer.Rk4Mirror | DIPOLANIMATION_EH_3D.py:357-369 | For a field obeying the mirror law, the RK4 step from the mirrored point is the mirrored RK4 step. |
| Tracer.FolgepktMirror | DIPOLANIMATION_E_ARROWS.py:286-304 | For a field obeying the mirror law, Folgepkt commutes with x -> -x, in both step rules. |
| Tracer.FieldIsMirrorSymmetric | DIPOLANIMATION_E_ARROWS.py:74-109 | The model's Hertzian and rod E both obey the mirror law the tracer lemmas assume. |
| Tracer.Follow | DIPOLANIMATION_EH_3D.py:336-346 | The loop returns 1 to budget+1 points, the i-th being the i-th iterate of the step from the start; all but the last satisfy x^2 + y^2 >= 9, y >= 0, x > 1; the last one fails that test or the budget is spent, and it is still appended. |
| Tracer.TraceLine | DIPOLANIMATION_EH_3D.py:330-348 | A field line has 1 to _ZahlDerRechenschritte + 1 points and starts at (x_start, 0). Each next point is Folgepkt of the previous one in the seed direction. Every point but the last lies in the allowed region, and the last is outside it or the step cap is spent. The orientation is -1 exactly when Ey > 0 at the seed, that is, the negated direction. |
| Tracer.TraceField | DIPOLANIMATION_E_ARROWS.py:308-326 | With the model's own E: 1 to _ZahlDerRechenschritte + 1 points from (x_start, 0), each next one Folgepkt of the previous in the seed direction; all but the last inside the region, the last outside it or the step cap spent; the orientation is -1 exactly when Ey > 0 at the seed, the negated direction. |
| Rings.OffsetCount | DIPOLANIMATION_EH_3D.py:56-57 | The table's leading count is 17 and indexes inside the table. |
| Rings.OffsetsShape | DIPOLANIMATION_EH_3D.py:56-75 | The 17 offsets strictly increase from 5 to 125. |
| Rings.HLinienRadien | DIPOLANIMATION_EH_3D.py:315-327 | The radii equal the generation-by-generation reference list; every radius lies strictly inside (0, lambda * Groessenfaktor); a value is a radius iff it is r0 + k * lambda/2 + _radd[i] for a generation k the loop visits and some i in 1..17, inside that window; and when lambda/2 exceeds 125 - 5 the list strictly increases. |
| Rings.Schedule | DIPOLANIMATION_EH_3D.py:321-326 | The while-loop over generations, r0 advancing by lambda/2, yields the reference list. |
| Rings.PlaceGeneration | DIPOLANIMATION_EH_3D.py:322-325 | The for-loop over i = 1..17 yields the reference generation: r0 + _radd[i] for each i, kept only when inside the open window. |
| Rings.GenerationShape | DIPOLANIMATION_EH_3D.py:322-325 | One generation contributes at most one radius per offset, inside the window and within [r0 + 5, r0 + 125], in increasing order. |
| Rings.GenerationMembers | DIPOLANIMATION_EH_3D.py:322-325 | A value is in a generation iff it is r0 plus one of its offsets and lies in the open window. |
| Rings.GenerationOfTable | DIPOLANIMATION_EH_3D.py:56-75 | With the shipped table a generation contributes at most 17 radii, in increasing order. |
| Rings.RingsExact | DIPOLANIMATION_EH_3D.py:321-326 | All radii lie in the open window, and a value is a radius iff it is a promised ring of a visited generation. |
| Rings.RingsSound | DIPOLANIMATION_EH_3D.py:321-326 | Every produced radius is r0 + k * lambda/2 + an offset for a visited generation k. |
| Rings.RingsComplete | DIPOLANIMATION_EH_3D.py:321-326 | Every such value inside the window is produced. |
| Rings.RingsAbove | DIPOLANIMATION_EH_3D.py:321-326 | No radius lies below the first generation's start plus the smallest offset. |
| Rings.RingsIncrease | DIPOLANIMATION_EH_3D.py:321-326 | Generations further apart than the spread of the offsets never interleave, so the whole list strictly increases. |
| Rings.TableIncreases | DIPOLANIMATION_EH_3D.py:56-75 | With the shipped offsets, any generation spacing above 120 gives a strictly increasing radius list. |
| Rings.Sort | DIPOLANIMATION_H_ARROWS.py:473 | sorted() returns a permutation of its input. |
| Rings.SortSorted | DIPOLANIMATION_H_ARROWS.py:473 | sorted() returns a non-decreasing list. |
| Rings.SortedUnique | DIPOLANIMATION_H_ARROWS.py:473 | Two non-decreasing lists with the same elements are equal, so sorted() depends only on the multiset of its input. |
| Rings.NeedsRedraw | DIPOLANIMATION_H_ARROWS.py:472-474 | The test "counts differ or sorted lists differ" is true exactly when the new radii are not a permutation of the drawn ones. |
| Rings.RedrawIffNotPermutation | DIPOLANIMATION_H_ARROWS.py:472-474 | The rings are redrawn iff the new radii are not a permutation of the drawn ones; the length test never decides on its own, since the sorted comparison already differs. |
| Boundaries.ShippedWalks | DIPOLANIMATION_E_ARROWS.py:210-214 | With the shipped constants the walk starts at 8/2 + 3 = 7 with windows of 64/4 = 16; the LobeRule bound is 896 in E_ARROWS (zoom 2) and 1344 in EH_3D (zoom 3); the WindowRule bound is 384 in H_ARROWS (zoom 1.5); RodLobeCount is 7 at zoom 2, 3 and 1.5, so the rod loop of E_ARROWS and EH_3D runs 7 times; each pass appends a radius only when its arm exceeds lambda/4, and H_ARROWS has no rod branch. |
| Configuration.Omega | DIPOLANIMATION_E_ARROWS.py:18 | The angular frequency 2 * pi * c / lambda is positive, so pi/w is a positive half period. |

## Left out

- The values of the E, H, S and F formulas: cos, sin, sqrt and pi are uninterpreted. Only the guards, the absence of division by zero and the mirror laws are stated.
- Floating-point rounding: all arithmetic is over exact reals. This includes `_c * _T / 4` being only approximately lambda/4 in the first ring front.
- Rendering: matplotlib and PyVista scenes, arrow grids and their quadrant mirroring, colour maps, the progress bar, animation saving, and the frame loop of `update` apart from its ring-redraw test.
- gif2mp4.py is not part of this model: it only wraps moviepy and ffmpeg with file-system I/O.
- `E_Linie_berechnen2` in DIPOLANIMATION_EH_3D.py is never called.
- `Energiedichte_berechnen` and `FSt` are plain formulas, and `FSt` is never called.
- The `new_radii` NameError in H_ARROWS when the H-field flag is off is rendering glue, and an unbound name has no counterpart in a typed model.
- Global state: each operation returns its list. The boundary count `Zahl_der_Extrema` is the length of the list the planner is given. The scripts do not reset that global when a frame finds no root; the model cannot carry such a stale count.
- Both dipole flags set at once: the model takes one `Variant`, so the scripts' sequential "Hertzian walk, then rod branch" overwrite is not modelled.
- Boundaries.Grenzlinien: for the rod dipole under WindowRule it returns the empty list, since the H_ARROWS copy has no rod branch; that copy would instead keep the stale global count.
- Boundaries.RodLobes: requires at least one lobe, because the phase is folded only inside the lobe loop. Every Keulenzahl from the table is at least 4.
- Bisection.Nullstelle: the fallback `(x1 + x2) / 2` after the loop is modelled but proved unreachable.
- The time wrap `_t -= _T` in `update` is frame scheduling and is left out; t is a parameter.
