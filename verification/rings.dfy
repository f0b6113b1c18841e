/**
  H_Linien_Radien and the ring-redraw test of the H-field animation: the radii
  at which magnetic field-line rings are drawn at time t, and whether a new
  set of radii differs from the drawn one.

  Wavefront generations start one wavelength behind the front that left the
  dipole a quarter period ago and follow each other half a wavelength apart;
  each generation places a ring at every offset of the _radd table that lands
  strictly between 0 and the plot range.
 */
module Rings {
  import opened Maths
  import opened Configuration

  /** _radd: index 0 holds the number of offsets, the offsets follow. */
  const Radd: seq<real> := [17.0, 5.0, 16.0, 26.0, 35.0, 43.0, 50.0, 55.0, 60.0,
                            64.0, 68.0, 73.0, 79.0, 86.0, 94.0, 103.0, 112.0, 125.0]

  /** int(_radd[0]): how many offsets a generation uses. */
  function OffsetCount(): (n: nat)
    ensures n == 17 && n < |Radd|
  {
    Radd[0].Floor
  }

  /** The offsets the loop reads, _radd[1] to _radd[int(_radd[0])]. */
  function Offsets(): (offs: seq<real>)
    ensures |offs| == OffsetCount()
  {
    Radd[1..OffsetCount() + 1]
  }

  /** The smallest and the largest offset. */
  const FirstOffset: real := 5.0
  const LastOffset: real := 125.0

  /** The offsets increase from 5 to 125. */
  lemma OffsetsShape()
    ensures StrictlyIncreasing(Offsets())
    ensures forall i :: 0 <= i < |Offsets()| ==> FirstOffset <= Offsets()[i] <= LastOffset
  {
    var offs := Offsets();
    assert offs == [5.0, 16.0, 26.0, 35.0, 43.0, 50.0, 55.0, 60.0,
                    64.0, 68.0, 73.0, 79.0, 86.0, 94.0, 103.0, 112.0, 125.0];
    forall i, j | 0 <= i < j < |offs| ensures offs[i] < offs[j] {
      Adjacent(offs, i, j);
    }
  }

  lemma {:induction false} Adjacent(offs: seq<real>, i: nat, j: nat)
    requires forall k :: 0 <= k < |offs| - 1 ==> offs[k] < offs[k + 1]
    requires i < j < |offs|
    ensures offs[i] < offs[j]
    decreases j - i
  {
    if j > i + 1 {
      Adjacent(offs, i + 1, j);
    }
  }

  /** r0 of the first generation at time t. */
  function FirstFront(cfg: Config, t: real): real
    requires cfg.Valid()
  {
    cfg.c * (t - cfg.Period() / 4.0) - cfg.wavelength
  }

  /** max_range, the radius of the plotted area. */
  function MaxRange(cfg: Config): (m: real)
    requires cfg.Valid()
    ensures m > 0.0
  {
    cfg.wavelength * cfg.sizeFactor
  }

  /** The rings of the generation at r0, offsets from index i on. */
  function Generation(r0: real, maxRange: real, offs: seq<real>, i: nat): seq<real>
    requires i <= |offs|
    decreases |offs| - i
  {
    if i == |offs| then []
    else
      var r := r0 + offs[i];
      (if 0.0 < r < maxRange then [r] else []) + Generation(r0, maxRange, offs, i + 1)
  }

  /** The rings of all generations from r0 on while r0 < maxRange. */
  function Rings(r0: real, maxRange: real, half: real, offs: seq<real>): seq<real>
    requires half > 0.0
    decreases StepsLeft(r0, maxRange, half)
  {
    if r0 < maxRange then
      StepsLeftDecreases(r0, maxRange, half);
      Generation(r0, maxRange, offs, 0) + Rings(r0 + half, maxRange, half, offs)
    else []
  }

  /** The start of the k-th generation. */
  function Front(r0: real, half: real, k: nat): real
  {
    if k == 0 then r0 else Front(r0, half, k - 1) + half
  }

  /** v is a ring the scheduler promises: an offset of a generation k that
      the loop reaches, landing strictly inside (0, maxRange). */
  ghost predicate RingOf(r0: real, maxRange: real, half: real, offs: seq<real>, v: real)
  {
    exists k: nat, i: nat ::
      && i < |offs|
      && Front(r0, half, k) < maxRange
      && v == Front(r0, half, k) + offs[i]
      && 0.0 < v < maxRange
  }

  /** H_Linien_Radien */
  method HLinienRadien(cfg: Config, t: real) returns (radii: seq<real>)
    requires cfg.Valid()
    ensures radii == Rings(FirstFront(cfg, t), MaxRange(cfg), cfg.wavelength / 2.0, Offsets())
    ensures forall v :: v in radii ==> 0.0 < v < MaxRange(cfg)
    ensures forall v :: v in radii <==> RingOf(FirstFront(cfg, t), MaxRange(cfg), cfg.wavelength / 2.0, Offsets(), v)
    // generations more than the offset span apart never interleave
    ensures cfg.wavelength / 2.0 > LastOffset - FirstOffset ==> StrictlyIncreasing(radii)
  {
    var offs := Offsets();
    var first, maxRange, half := FirstFront(cfg, t), MaxRange(cfg), cfg.wavelength / 2.0;
    radii := Schedule(offs, first, maxRange, half);
    RingsExact(first, maxRange, half, offs);
    if half > LastOffset - FirstOffset {
      TableIncreases(first, maxRange, half);
    }
  }

  /** The outer loop of H_Linien_Radien: one generation per pass while r0 is
      below the range, r0 advancing by half a wavelength. */
  method Schedule(offs: seq<real>, first: real, maxRange: real, half: real) returns (radii: seq<real>)
    requires half > 0.0
    ensures radii == Rings(first, maxRange, half, offs)
  {
    radii := [];
    var r0 := first;
    while r0 < maxRange
      invariant radii + Rings(r0, maxRange, half, offs) == Rings(first, maxRange, half, offs)
      decreases StepsLeft(r0, maxRange, half)
    {
      var gen := PlaceGeneration(offs, r0, maxRange);
      ghost var rest := Rings(r0 + half, maxRange, half, offs);
      RingsUnfold(r0, maxRange, half, offs);
      assert radii + (gen + rest) == (radii + gen) + rest;
      radii := radii + gen;
      StepsLeftDecreases(r0, maxRange, half);
      r0 := r0 + half;
    }
  }

  lemma RingsUnfold(r0: real, maxRange: real, half: real, offs: seq<real>)
    requires half > 0.0 && r0 < maxRange
    ensures Rings(r0, maxRange, half, offs)
         == Generation(r0, maxRange, offs, 0) + Rings(r0 + half, maxRange, half, offs)
  {
  }

  /** The inner loop of H_Linien_Radien: the rings of one generation, with
      offs[i - 1] standing for _radd[i]. */
  method PlaceGeneration(offs: seq<real>, r0: real, maxRange: real) returns (gen: seq<real>)
    ensures gen == Generation(r0, maxRange, offs, 0)
  {
    gen := [];
    var i := 1;
    while i <= |offs|
      invariant 1 <= i <= |offs| + 1
      invariant gen + Generation(r0, maxRange, offs, i - 1) == Generation(r0, maxRange, offs, 0)
    {
      var r := r0 + offs[i - 1];
      // a ring is kept only strictly inside (0, max_range)
      var placed := if r > 0.0 && r < maxRange then [r] else [];
      ghost var rest := Generation(r0, maxRange, offs, i);
      assert Generation(r0, maxRange, offs, i - 1) == placed + rest;
      assert gen + (placed + rest) == (gen + placed) + rest;
      gen := gen + placed;
      i := i + 1;
    }
  }

  // ---------------------------------------------------------------- lemmas

  /** All offsets lie in [lo, hi]. */
  ghost predicate Within(offs: seq<real>, lo: real, hi: real)
  {
    forall i :: 0 <= i < |offs| ==> lo <= offs[i] <= hi
  }

  /** A generation holds at most one ring per offset, each inside the window
      and between r0 + lo and r0 + hi, in increasing order. */
  lemma GenerationShape(r0: real, maxRange: real, offs: seq<real>, i: nat, lo: real, hi: real)
    requires i <= |offs|
    requires StrictlyIncreasing(offs) && Within(offs, lo, hi)
    ensures var g := Generation(r0, maxRange, offs, i);
            && |g| <= |offs| - i
            && (forall v :: v in g ==> 0.0 < v < maxRange && r0 + lo <= v <= r0 + hi)
            && StrictlyIncreasing(g)
  {
    GenerationBounds(r0, maxRange, offs, i, lo, hi);
    GenerationIncreasing(r0, maxRange, offs, i, lo, hi);
  }

  /** Size and position of a generation's rings; none lies below the offset
      it starts from. */
  lemma {:induction false} GenerationBounds(r0: real, maxRange: real, offs: seq<real>, i: nat, lo: real, hi: real)
    requires i <= |offs|
    requires StrictlyIncreasing(offs) && Within(offs, lo, hi)
    ensures var g := Generation(r0, maxRange, offs, i);
            && |g| <= |offs| - i
            && (forall v :: v in g ==> 0.0 < v < maxRange && r0 + lo <= v <= r0 + hi)
            && (i < |offs| ==> forall v :: v in g ==> r0 + offs[i] <= v)
    decreases |offs| - i
  {
    if i < |offs| {
      GenerationBounds(r0, maxRange, offs, i + 1, lo, hi);
      var r := r0 + offs[i];
      var rest := Generation(r0, maxRange, offs, i + 1);
      if i + 1 < |offs| {
        assert offs[i] < offs[i + 1];
      }
      assert Generation(r0, maxRange, offs, i) == (if 0.0 < r < maxRange then [r] else []) + rest;
    }
  }

  lemma {:induction false} GenerationIncreasing(r0: real, maxRange: real, offs: seq<real>, i: nat, lo: real, hi: real)
    requires i <= |offs|
    requires StrictlyIncreasing(offs) && Within(offs, lo, hi)
    ensures StrictlyIncreasing(Generation(r0, maxRange, offs, i))
    decreases |offs| - i
  {
    if i < |offs| {
      GenerationIncreasing(r0, maxRange, offs, i + 1, lo, hi);
      var r := r0 + offs[i];
      var rest := Generation(r0, maxRange, offs, i + 1);
      var g := Generation(r0, maxRange, offs, i);
      if i + 1 < |offs| {
        GenerationBounds(r0, maxRange, offs, i + 1, lo, hi);
        assert offs[i] < offs[i + 1];
      }
      assert forall v :: v in rest ==> r < v;
      if 0.0 < r < maxRange {
        assert g == [r] + rest;
        ConcatIncreasing([r], rest, r);
      } else {
        assert g == rest;
      }
    }
  }

  /** Starting one step later shifts every generation by one. */
  lemma {:induction false} FrontShift(r0: real, half: real, k: nat)
    ensures Front(r0 + half, half, k) == Front(r0, half, k + 1)
  {
    if k > 0 {
      FrontShift(r0, half, k - 1);
    }
  }

  lemma {:induction false} FrontGrows(r0: real, half: real, k: nat)
    requires half > 0.0
    ensures Front(r0, half, k) >= r0
  {
    if k > 0 {
      FrontGrows(r0, half, k - 1);
    }
  }

  /** Exactness: the radii are exactly the promised rings, all inside the window. */
  lemma RingsExact(r0: real, maxRange: real, half: real, offs: seq<real>)
    requires half > 0.0
    ensures forall v :: v in Rings(r0, maxRange, half, offs) ==> 0.0 < v < maxRange
    ensures forall v :: v in Rings(r0, maxRange, half, offs) <==> RingOf(r0, maxRange, half, offs, v)
  {
    forall v
      ensures v in Rings(r0, maxRange, half, offs) ==> RingOf(r0, maxRange, half, offs, v)
      ensures RingOf(r0, maxRange, half, offs, v) ==> v in Rings(r0, maxRange, half, offs)
    {
      if v in Rings(r0, maxRange, half, offs) {
        RingsSound(r0, maxRange, half, offs, v);
      }
      if RingOf(r0, maxRange, half, offs, v) {
        RingsComplete(r0, maxRange, half, offs, v);
      }
    }
  }

  /** Every radius produced is a promised ring. */
  lemma {:induction false} RingsSound(r0: real, maxRange: real, half: real, offs: seq<real>, v: real)
    requires half > 0.0
    requires v in Rings(r0, maxRange, half, offs)
    ensures RingOf(r0, maxRange, half, offs, v)
    decreases StepsLeft(r0, maxRange, half)
  {
    StepsLeftDecreases(r0, maxRange, half);
    RingsUnfold(r0, maxRange, half, offs);
    if v in Generation(r0, maxRange, offs, 0) {
      GenerationMembers(r0, maxRange, offs, 0);
      var j :| 0 <= j < |offs| && v == r0 + offs[j] && 0.0 < v < maxRange;
      assert Front(r0, half, 0) == r0;
      assert v == Front(r0, half, 0) + offs[j];
    } else {
      RingsSound(r0 + half, maxRange, half, offs, v);
      var k: nat, i: nat :| i < |offs| && Front(r0 + half, half, k) < maxRange
        && v == Front(r0 + half, half, k) + offs[i] && 0.0 < v < maxRange;
      FrontShift(r0, half, k);
      assert v == Front(r0, half, k + 1) + offs[i];
    }
  }

  /** Every promised ring is produced. */
  lemma {:induction false} RingsComplete(r0: real, maxRange: real, half: real, offs: seq<real>, v: real)
    requires half > 0.0
    requires RingOf(r0, maxRange, half, offs, v)
    ensures v in Rings(r0, maxRange, half, offs)
    decreases StepsLeft(r0, maxRange, half)
  {
    var k: nat, i: nat :| i < |offs| && Front(r0, half, k) < maxRange
      && v == Front(r0, half, k) + offs[i] && 0.0 < v < maxRange;
    FrontGrows(r0, half, k);
    StepsLeftDecreases(r0, maxRange, half);
    RingsUnfold(r0, maxRange, half, offs);
    if k == 0 {
      GenerationMembers(r0, maxRange, offs, 0);
      assert v in Generation(r0, maxRange, offs, 0);
    } else {
      FrontShift(r0, half, k - 1);
      assert v == Front(r0 + half, half, k - 1) + offs[i];
      RingsComplete(r0 + half, maxRange, half, offs, v);
    }
  }

  /** Membership in a generation, without any assumption on the offsets. */
  lemma {:induction false} GenerationMembers(r0: real, maxRange: real, offs: seq<real>, i: nat)
    requires i <= |offs|
    ensures forall v :: v in Generation(r0, maxRange, offs, i) <==>
      exists j :: i <= j < |offs| && v == r0 + offs[j] && 0.0 < v < maxRange
    decreases |offs| - i
  {
    if i < |offs| {
      GenerationMembers(r0, maxRange, offs, i + 1);
    }
  }

  /** Every ring of the generations from r0 on lies at or above r0 + lo. */
  lemma {:induction false} RingsAbove(r0: real, maxRange: real, half: real, offs: seq<real>, lo: real, hi: real)
    requires half > 0.0
    requires StrictlyIncreasing(offs) && Within(offs, lo, hi)
    ensures forall v :: v in Rings(r0, maxRange, half, offs) ==> r0 + lo <= v
    decreases StepsLeft(r0, maxRange, half)
  {
    if r0 < maxRange {
      StepsLeftDecreases(r0, maxRange, half);
      RingsAbove(r0 + half, maxRange, half, offs, lo, hi);
      GenerationBounds(r0, maxRange, offs, 0, lo, hi);
      RingsUnfold(r0, maxRange, half, offs);
      var g := Generation(r0, maxRange, offs, 0);
      var rest := Rings(r0 + half, maxRange, half, offs);
      forall v | v in g + rest ensures r0 + lo <= v {
        if v !in g {
          assert v in rest;
        }
      }
    }
  }

  /** Generations further apart than the spread of the offsets do not
      overlap, so the whole list of radii strictly increases. */
  lemma {:induction false} RingsIncrease(r0: real, maxRange: real, half: real, offs: seq<real>, lo: real, hi: real)
    requires StrictlyIncreasing(offs) && Within(offs, lo, hi)
    requires half > hi - lo && half > 0.0
    ensures StrictlyIncreasing(Rings(r0, maxRange, half, offs))
    decreases StepsLeft(r0, maxRange, half)
  {
    if r0 < maxRange {
      StepsLeftDecreases(r0, maxRange, half);
      RingsIncrease(r0 + half, maxRange, half, offs, lo, hi);
      RingsAbove(r0 + half, maxRange, half, offs, lo, hi);
      GenerationShape(r0, maxRange, offs, 0, lo, hi);
      var g := Generation(r0, maxRange, offs, 0);
      var rest := Rings(r0 + half, maxRange, half, offs);
      assert Rings(r0, maxRange, half, offs) == g + rest;
      ConcatIncreasing(g, rest, r0 + hi);
    }
  }

  /** Two increasing lists separated by a bound make an increasing list. */
  lemma ConcatIncreasing(g: seq<real>, rest: seq<real>, bound: real)
    requires StrictlyIncreasing(g) && StrictlyIncreasing(rest)
    requires forall v :: v in g ==> v <= bound
    requires forall v :: v in rest ==> bound < v
    ensures StrictlyIncreasing(g + rest)
  {
    var all := g + rest;
    forall a, b | 0 <= a < b < |all| ensures all[a] < all[b] {
      if b < |g| {
        assert all[a] == g[a] && all[b] == g[b];
      } else if a >= |g| {
        assert all[a] == rest[a - |g|] && all[b] == rest[b - |g|];
      } else {
        assert all[a] == g[a] && g[a] in g;
        assert all[b] == rest[b - |g|] && rest[b - |g|] in rest;
      }
    }
  }

  /** A generation contributes at most 17 rings, in increasing order. */
  lemma GenerationOfTable(r0: real, maxRange: real)
    ensures |Generation(r0, maxRange, Offsets(), 0)| <= OffsetCount()
    ensures StrictlyIncreasing(Generation(r0, maxRange, Offsets(), 0))
  {
    OffsetsShape();
    GenerationShape(r0, maxRange, Offsets(), 0, FirstOffset, LastOffset);
  }

  /** The radii from any first front strictly increase once generations are
      more than the offset span apart. */
  lemma TableIncreases(first: real, maxRange: real, half: real)
    requires half > LastOffset - FirstOffset
    ensures StrictlyIncreasing(Rings(first, maxRange, half, Offsets()))
  {
    var offs := Offsets();
    OffsetsShape();
    assert Within(offs, FirstOffset, LastOffset);
    RingsIncrease(first, maxRange, half, offs, FirstOffset, LastOffset);
  }

  // ------------------------------------------------------------ redraw test

  /** Insert x into the sorted list s before its first larger entry. */
  function Insert(x: real, s: seq<real>): (r: seq<real>)
    ensures multiset(r) == multiset(s) + multiset{x}
    ensures |r| == |s| + 1
  {
    if |s| == 0 || x <= s[0] then [x] + s
    else
      assert s == [s[0]] + s[1..];
      [s[0]] + Insert(x, s[1..])
  }

  /** sorted(): an insertion sort. */
  function Sort(s: seq<real>): (r: seq<real>)
    ensures multiset(r) == multiset(s)
    ensures |r| == |s|
  {
    if |s| == 0 then []
    else
      assert s == [s[0]] + s[1..];
      Insert(s[0], Sort(s[1..]))
  }

  lemma {:induction false} InsertSorted(x: real, s: seq<real>)
    requires NonDecreasing(s)
    ensures NonDecreasing(Insert(x, s))
  {
    if |s| > 0 && x > s[0] {
      InsertSorted(x, s[1..]);
      var r := Insert(x, s[1..]);
      TailAtLeastHead(x, s, r);
      ConsNonDecreasing(s[0], r);
    }
  }

  /** Whatever holds x and the tail of a sorted list is no less than its head, if x is not. */
  lemma TailAtLeastHead(x: real, s: seq<real>, r: seq<real>)
    requires NonDecreasing(s) && |s| > 0 && x > s[0]
    requires multiset(r) == multiset(s[1..]) + multiset{x}
    ensures forall v :: v in r ==> s[0] <= v
  {
    forall v | v in r ensures s[0] <= v {
      assert v in multiset(r);
      if v != x {
        assert v in multiset(s[1..]);
        var j :| 0 <= j < |s[1..]| && s[1..][j] == v;
        assert s[j + 1] == v;
      }
    }
  }

  lemma ConsNonDecreasing(h: real, r: seq<real>)
    requires NonDecreasing(r)
    requires forall v :: v in r ==> h <= v
    ensures NonDecreasing([h] + r)
  {
    var all := [h] + r;
    forall a, b | 0 <= a < b < |all| ensures all[a] <= all[b] {
      if a == 0 {
        assert all[b] == r[b - 1] && r[b - 1] in r;
      } else {
        assert all[a] == r[a - 1] && all[b] == r[b - 1];
      }
    }
  }

  lemma {:induction false} SortSorted(s: seq<real>)
    ensures NonDecreasing(Sort(s))
  {
    if |s| > 0 {
      SortSorted(s[1..]);
      InsertSorted(s[0], Sort(s[1..]));
    }
  }

  /** The head of a sorted list is at most every entry of a permutation of it. */
  lemma HeadIsLeast(a: seq<real>, b: seq<real>)
    requires NonDecreasing(b) && |b| > 0 && |a| > 0
    requires multiset(a) == multiset(b)
    ensures b[0] <= a[0]
  {
    assert a[0] in multiset(b);
    var i :| 0 <= i < |b| && b[i] == a[0];
  }

  /** Two sorted lists with the same entries are equal. */
  lemma {:induction false} SortedUnique(a: seq<real>, b: seq<real>)
    requires NonDecreasing(a) && NonDecreasing(b)
    requires multiset(a) == multiset(b)
    ensures a == b
    decreases |a|
  {
    if |a| > 0 {
      assert |b| == |multiset(b)| == |multiset(a)| == |a|;
      assert a[0] == b[0] by {
        HeadIsLeast(a, b);
        HeadIsLeast(b, a);
      }
      assert a == [a[0]] + a[1..];
      assert b == [b[0]] + b[1..];
      assert multiset(a[1..]) == multiset(b[1..]) by {
        assert multiset(a) == multiset{a[0]} + multiset(a[1..]);
        assert multiset(b) == multiset{b[0]} + multiset(b[1..]);
        assert multiset(a[1..]) == multiset(a) - multiset{a[0]};
        assert multiset(b[1..]) == multiset(b) - multiset{b[0]};
      }
      SortedUnique(a[1..], b[1..]);
    } else {
      assert |b| == |multiset(b)| == 0;
    }
  }

  /** The redraw test in update(): the counts differ or the sorted lists do. */
  function NeedsRedraw(incoming: seq<real>, current: seq<real>): (redraw: bool)
    // the rings are redrawn exactly when the new radii are not a permutation of the drawn ones
    ensures redraw <==> multiset(incoming) != multiset(current)
  {
    RedrawIffNotPermutation(incoming, current);
    |incoming| != |current| || Sort(incoming) != Sort(current)
  }

  /** The redraw test fires exactly when the new radii are not a permutation
      of the drawn ones; the count test never decides on its own. */
  lemma RedrawIffNotPermutation(incoming: seq<real>, current: seq<real>)
    ensures (|incoming| != |current| || Sort(incoming) != Sort(current)) <==> multiset(incoming) != multiset(current)
    ensures (|incoming| != |current| || Sort(incoming) != Sort(current)) <==> Sort(incoming) != Sort(current)
  {
    SortSorted(incoming);
    SortSorted(current);
    if multiset(incoming) == multiset(current) {
      SortedUnique(Sort(incoming), Sort(current));
    }
    if |incoming| != |current| {
      assert |Sort(incoming)| != |Sort(current)|;
    }
  }
}
