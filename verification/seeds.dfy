/**
  LinienStarts_bestimmen: the x-positions on the axis where field lines start.

  Every lobe between two consecutive boundaries gets seeds from half a line
  spacing inside its outer boundary inwards, one line spacing apart, while
  they stay outside the near zone (x > 3) and the lobe holds fewer than
  _Linien_pro_Welle of them. The result is the flat list the renderer reads:
  a count slot, the seeds, and an end marker.
 */
module Seeds {
  import opened Maths
  import opened Configuration

  /** The end marker appended after the seeds. */
  const Sentinel: real := 666666.0
  /** The near-zone radius no seed may reach. */
  const NearZone: real := 3.0

  /** The seeds of one lobe still to be placed when the cursor is at `pos`
      and `placed` seeds already sit in this lobe. */
  function LobeSeeds(pos: real, spacing: real, perLobe: real, placed: nat): seq<real>
    requires spacing > 0.0
    decreases StepsLeft(placed as real, perLobe, 1.0)
  {
    if pos > NearZone && (placed as real) < perLobe then
      StepsLeftDecreases(placed as real, perLobe, 1.0);
      [pos] + LobeSeeds(pos - spacing, spacing, perLobe, placed + 1)
    else []
  }

  /** Where the first seed of the lobe below boundary b goes. */
  function LobeStart(cfg: Config, b: real): real
  {
    b - cfg.lineSpacing / 2.0
  }

  /** The seeds of the first `lobes` lobes, lobe after lobe. */
  function SeedsUpTo(cfg: Config, bounds: seq<real>, lobes: nat): seq<real>
    requires cfg.Valid()
    requires lobes <= |bounds|
  {
    if lobes == 0 then []
    else
      SeedsUpTo(cfg, bounds, lobes - 1)
        + LobeSeeds(LobeStart(cfg, bounds[lobes - 1]), cfg.lineSpacing, cfg.LinesPerLobe(), 0)
  }

  /** The lobes that get seeds: all boundaries but the last open one. */
  function LobeCount(bounds: seq<real>): nat
  {
    if |bounds| == 0 then 0 else |bounds| - 1
  }

  /** The seed plan of a boundary list. */
  function Plan(cfg: Config, bounds: seq<real>): seq<real>
    requires cfg.Valid()
  {
    SeedsUpTo(cfg, bounds, LobeCount(bounds))
  }

  method LinienStarts(cfg: Config, bounds: seq<real>) returns (flat: seq<real>)
    requires cfg.Valid()
    // count slot, the seeds, the end marker
    ensures |flat| >= 2
    ensures flat == [(|flat| - 2) as real] + Plan(cfg, bounds) + [Sentinel]
  {
    var perLobe := cfg.LinesPerLobe();
    flat := [0.0];
    var j := 1;
    var n := 0;
    while n < |bounds| - 1
      invariant n <= LobeCount(bounds)
      invariant |flat| >= 1 && flat[1..] == SeedsUpTo(cfg, bounds, n)
      invariant j == |flat|
    {
      var lobe := PlaceLobe(LobeStart(cfg, bounds[n]), cfg.lineSpacing, perLobe);
      assert (flat + lobe)[1..] == flat[1..] + lobe;
      flat := flat + lobe;
      j := j + |lobe|;
      n := n + 1;
    }
    flat := flat[0 := (j - 1) as real];
    flat := flat + [Sentinel];
  }

  /** The inner loop: seeds of one lobe from pos inwards. */
  method PlaceLobe(start: real, spacing: real, perLobe: real) returns (lobe: seq<real>)
    requires spacing > 0.0
    ensures lobe == LobeSeeds(start, spacing, perLobe, 0)
  {
    lobe := [];
    var pos := start;
    var placed: nat := 0;
    while pos > NearZone && (placed as real) < perLobe
      invariant lobe + LobeSeeds(pos, spacing, perLobe, placed) == LobeSeeds(start, spacing, perLobe, 0)
      decreases StepsLeft(placed as real, perLobe, 1.0)
    {
      StepsLeftDecreases(placed as real, perLobe, 1.0);
      assert lobe + ([pos] + LobeSeeds(pos - spacing, spacing, perLobe, placed + 1))
          == (lobe + [pos]) + LobeSeeds(pos - spacing, spacing, perLobe, placed + 1);
      lobe := lobe + [pos];
      placed := placed + 1;
      pos := pos - spacing;
    }
  }

  // ---------------------------------------------------------------- lemmas

  /** Inside a lobe: the first seed is at the start, each next one a line
      spacing further in, all outside the near zone, and the last one was
      placed while fewer than perLobe were there. */
  lemma {:induction false} LobeSeedsShape(pos: real, spacing: real, perLobe: real, placed: nat)
    requires spacing > 0.0
    ensures var s := LobeSeeds(pos, spacing, perLobe, placed);
            && (|s| > 0 ==> s[0] == pos)
            && (forall k :: 0 <= k < |s| - 1 ==> s[k + 1] == s[k] - spacing)
            && (forall k :: 0 <= k < |s| ==> s[k] > NearZone && s[k] <= pos)
            && (|s| == 0 || ((placed + |s| - 1) as real) < perLobe)
    decreases StepsLeft(placed as real, perLobe, 1.0)
  {
    if pos > NearZone && (placed as real) < perLobe {
      StepsLeftDecreases(placed as real, perLobe, 1.0);
      LobeSeedsShape(pos - spacing, spacing, perLobe, placed + 1);
      var s := LobeSeeds(pos, spacing, perLobe, placed);
      var rest := LobeSeeds(pos - spacing, spacing, perLobe, placed + 1);
      assert s == [pos] + rest;
    }
  }

  /** Seeds within a lobe strictly decrease. */
  lemma LobeSeedsDecrease(pos: real, spacing: real, perLobe: real)
    requires spacing > 0.0
    ensures StrictlyDecreasing(LobeSeeds(pos, spacing, perLobe, 0))
  {
    var s := LobeSeeds(pos, spacing, perLobe, 0);
    LobeSeedsShape(pos, spacing, perLobe, 0);
    forall i, j | 0 <= i < j < |s|
      ensures s[i] > s[j]
    {
      DecreasingStep(s, spacing, i, j);
    }
  }

  lemma {:induction false} DecreasingStep(s: seq<real>, spacing: real, i: nat, j: nat)
    requires spacing > 0.0
    requires forall k :: 0 <= k < |s| - 1 ==> s[k + 1] == s[k] - spacing
    requires i < j < |s|
    ensures s[i] > s[j]
    decreases j - i
  {
    if j > i + 1 {
      DecreasingStep(s, spacing, i + 1, j);
    }
  }

  /** Why a lobe stops: its next cursor would reach the near zone, or it is full. */
  lemma {:induction false} LobeSeedsMaximal(pos: real, spacing: real, perLobe: real, placed: nat)
    requires spacing > 0.0
    ensures var s := LobeSeeds(pos, spacing, perLobe, placed);
            var next := pos - |s| as real * spacing;
            next <= NearZone || ((placed + |s|) as real) >= perLobe
    decreases StepsLeft(placed as real, perLobe, 1.0)
  {
    if pos > NearZone && (placed as real) < perLobe {
      StepsLeftDecreases(placed as real, perLobe, 1.0);
      LobeSeedsMaximal(pos - spacing, spacing, perLobe, placed + 1);
      var rest := LobeSeeds(pos - spacing, spacing, perLobe, placed + 1);
      assert (pos - spacing) - |rest| as real * spacing == pos - (|rest| + 1) as real * spacing;
    }
  }

  /** With the shipped configuration a lobe holds at most 8 seeds. */
  lemma LobeAtMostEight(pos: real)
    ensures |LobeSeeds(pos, EArrowsConfig.lineSpacing, EArrowsConfig.LinesPerLobe(), 0)| <= 8
  {
    var s := LobeSeeds(pos, EArrowsConfig.lineSpacing, EArrowsConfig.LinesPerLobe(), 0);
    LobeSeedsShape(pos, EArrowsConfig.lineSpacing, EArrowsConfig.LinesPerLobe(), 0);
    assert EArrowsConfig.LinesPerLobe() == 8.0;
  }

  /** Every seed of the plan lies outside the near zone. */
  lemma {:induction false} SeedsOutsideNearZone(cfg: Config, bounds: seq<real>, lobes: nat)
    requires cfg.Valid()
    requires lobes <= |bounds|
    ensures forall v :: v in SeedsUpTo(cfg, bounds, lobes) ==> v > NearZone
  {
    if lobes > 0 {
      SeedsOutsideNearZone(cfg, bounds, lobes - 1);
      LobeSeedsShape(LobeStart(cfg, bounds[lobes - 1]), cfg.lineSpacing, cfg.LinesPerLobe(), 0);
    }
  }

  /** The outermost boundary opens no lobe: the plan does not depend on it. */
  lemma {:induction false} LastBoundaryUnused(cfg: Config, bounds: seq<real>, other: seq<real>, lobes: nat)
    requires cfg.Valid()
    requires lobes <= |bounds| && lobes <= |other|
    requires bounds[..lobes] == other[..lobes]
    ensures SeedsUpTo(cfg, bounds, lobes) == SeedsUpTo(cfg, other, lobes)
  {
    if lobes > 0 {
      assert bounds[..lobes - 1] == other[..lobes - 1];
      assert bounds[lobes - 1] == bounds[..lobes][lobes - 1];
      assert other[lobes - 1] == other[..lobes][lobes - 1];
      LastBoundaryUnused(cfg, bounds, other, lobes - 1);
    }
  }

  /** The plan of a boundary list is the plan of any list that agrees with it
      everywhere but in the last entry. */
  lemma PlanIgnoresLastBoundary(cfg: Config, bounds: seq<real>, last: real)
    requires cfg.Valid()
    requires |bounds| >= 1
    ensures Plan(cfg, bounds) == Plan(cfg, bounds[..|bounds| - 1] + [last])
  {
    var other := bounds[..|bounds| - 1] + [last];
    assert bounds[..|bounds| - 1] == other[..|bounds| - 1];
    LastBoundaryUnused(cfg, bounds, other, |bounds| - 1);
  }
}
