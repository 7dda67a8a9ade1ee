/**
 * Rivers and lakes (WaterGenerator.cs). A river starts at a cell and keeps
 * stepping to its lowest dry 8-neighbour while that is strictly lower on the
 * height map; where it stops, a lake is flooded from the neighbour it could
 * not descend to, growing one 4-neighbour at a time.
 */
module WaterGenerator {
  import opened Geometry
  import opened CellData
  import opened Terrain
  import opened HeightMapService

  // ---------------------------------------------------------------------
  // Rivers.

  /**
   * The first entry of `s` that lies on the height map and is not water in
   * the grid, or (0, 0), the default Vector2Int, when there is none.
   */
  function FirstDry(hm: Heights, t: Terrain, s: seq<Point>): Point {
    if s == [] then Point(0, 0)
    else if Wet(t, s[0]) || !InField(hm, s[0]) then FirstDry(hm, t, s[1..])
    else s[0]
  }

  /** Where the river goes from `p`: the first dry entry of the height-sorted neighbour list. */
  function RiverNext(hm: Heights, t: Terrain, p: Point): Point {
    FirstDry(hm, t, ExchangeSort(t.heights, MooreNeighbours(p, hm.width, hm.length)))
  }

  /** A cell the river may step to from `p`: an in-bounds, dry 8-neighbour. */
  predicate DryNeighbour(hm: Heights, t: Terrain, p: Point, q: Point) {
    InField(hm, q) && Adjacent8(p, q) && !Wet(t, q)
  }

  /**
   * FirstDry is the first entry of `s` that is dry and on the map, when `s`
   * has one: it sits at an index `k` and every entry before `k` is water or
   * off the map. With no such entry it is (0, 0).
   */
  lemma {:induction false} FirstDrySpec(hm: Heights, t: Terrain, s: seq<Point>)
    ensures (exists q :: q in s && !Wet(t, q) && InField(hm, q)) ==>
      FirstDry(hm, t, s) in s && !Wet(t, FirstDry(hm, t, s)) && InField(hm, FirstDry(hm, t, s))
    ensures (exists q :: q in s && !Wet(t, q) && InField(hm, q)) ==>
      exists k :: 0 <= k < |s| && s[k] == FirstDry(hm, t, s) && forall j :: 0 <= j < k ==> Wet(t, s[j]) || !InField(hm, s[j])
    ensures (forall q :: q in s ==> Wet(t, q) || !InField(hm, q)) ==> FirstDry(hm, t, s) == Point(0, 0)
  {
    if s != [] {
      FirstDrySpec(hm, t, s[1..]);
      assert forall q :: q in s[1..] ==> q in s;
      if Wet(t, s[0]) || !InField(hm, s[0]) {
        assert forall q :: q in s ==> q == s[0] || q in s[1..];
      }
    }
    if exists q :: q in s && !Wet(t, q) && InField(hm, q) {
      FirstDryIndex(hm, t, s);
    }
  }

  lemma {:induction false} FirstDryIndex(hm: Heights, t: Terrain, s: seq<Point>)
    requires exists q :: q in s && !Wet(t, q) && InField(hm, q)
    ensures exists k :: 0 <= k < |s| && s[k] == FirstDry(hm, t, s) && forall j :: 0 <= j < k ==> Wet(t, s[j]) || !InField(hm, s[j])
  {
    if Wet(t, s[0]) || !InField(hm, s[0]) {
      assert exists q :: q in s[1..] && !Wet(t, q) && InField(hm, q) by {
        var q :| q in s && !Wet(t, q) && InField(hm, q);
        assert q != s[0];
        var i :| 0 <= i < |s| && s[i] == q;
        assert s[1..][i - 1] == q;
      }
      FirstDryIndex(hm, t, s[1..]);
      var k :| 0 <= k < |s[1..]| && s[1..][k] == FirstDry(hm, t, s[1..])
        && forall j :: 0 <= j < k ==> Wet(t, s[1..][j]) || !InField(hm, s[1..][j]);
      assert s[k + 1] == FirstDry(hm, t, s);
      assert forall j :: 1 <= j < k + 1 ==> s[j] == s[1..][j - 1];
    } else {
      assert s[0] == FirstDry(hm, t, s);
    }
  }

  /** In a sorted list the first dry entry is no higher than any other dry entry. */
  lemma {:induction false} FirstDryIsLowest(hm: Heights, t: Terrain, h: Heights, s: seq<Point>, q: Point)
    requires SortedBy(h, s) && q in s && !Wet(t, q) && InField(hm, q)
    ensures Height(h, FirstDry(hm, t, s)) <= Height(h, q)
  {
    if Wet(t, s[0]) || !InField(hm, s[0]) {
      assert q != s[0] && q in s[1..];
      assert SortedBy(h, s[1..]);
      FirstDryIsLowest(hm, t, h, s[1..], q);
    } else {
      SortedFirstIsLowest(h, s, q);
    }
  }

  /**
   * The river's next cell, when `p` has a dry neighbour at all, is one of
   * them and is no higher on the grid than any other; with none it is (0, 0).
   */
  lemma RiverNextSpec(hm: Heights, t: Terrain, p: Point)
    requires FitsGrid(hm, t)
    ensures (exists q :: DryNeighbour(hm, t, p, q)) ==>
      DryNeighbour(hm, t, p, RiverNext(hm, t, p))
      && forall q :: DryNeighbour(hm, t, p, q) ==> H(t, RiverNext(hm, t, p)) <= H(t, q)
    ensures (forall q :: !DryNeighbour(hm, t, p, q)) ==> RiverNext(hm, t, p) == Point(0, 0)
  {
    if q :| DryNeighbour(hm, t, p, q) {
      RiverNextLowest(hm, t, p, q);
    } else {
      RiverNextNone(hm, t, p);
    }
  }

  /** The neighbour list the river chooses from: the in-bounds 8-neighbours, sorted by the grid's heights. */
  lemma SortedAround(hm: Heights, t: Terrain, p: Point)
    ensures var sorted := ExchangeSort(t.heights, MooreNeighbours(p, hm.width, hm.length));
      SortedBy(t.heights, sorted) && forall q :: q in sorted <==> InField(hm, q) && Adjacent8(p, q)
  {
    var nb := MooreNeighbours(p, hm.width, hm.length);
    MooreNeighboursSpec(p, hm.width, hm.length);
    ExchangeSortSorts(t.heights, nb);
    PermutationKeepsDistinct(nb, ExchangeSort(t.heights, nb));
  }

  lemma RiverNextLowest(hm: Heights, t: Terrain, p: Point, q0: Point)
    requires FitsGrid(hm, t) && DryNeighbour(hm, t, p, q0)
    ensures DryNeighbour(hm, t, p, RiverNext(hm, t, p))
    ensures forall q :: DryNeighbour(hm, t, p, q) ==> H(t, RiverNext(hm, t, p)) <= H(t, q)
  {
    var sorted := ExchangeSort(t.heights, MooreNeighbours(p, hm.width, hm.length));
    SortedAround(hm, t, p);
    assert q0 in sorted;
    FirstDrySpec(hm, t, sorted);
    forall q | DryNeighbour(hm, t, p, q)
      ensures H(t, RiverNext(hm, t, p)) <= H(t, q)
    {
      FirstDryIsLowest(hm, t, t.heights, sorted, q);
    }
  }

  lemma RiverNextNone(hm: Heights, t: Terrain, p: Point)
    requires forall q :: !DryNeighbour(hm, t, p, q)
    ensures RiverNext(hm, t, p) == Point(0, 0)
  {
    var sorted := ExchangeSort(t.heights, MooreNeighbours(p, hm.width, hm.length));
    SortedAround(hm, t, p);
    assert forall q :: q in sorted ==> Wet(t, q) || !InField(hm, q) by {
      forall q | q in sorted ensures Wet(t, q) || !InField(hm, q) {
        assert !DryNeighbour(hm, t, p, q);
      }
    }
    FirstDrySpec(hm, t, sorted);
  }

  /** The neighbour loop of GenerateRiver: the first entry that is neither water nor off the map. */
  method FindDry(hm: Heights, t: Terrain, nbs: seq<Point>) returns (lowest: Point)
    ensures lowest == FirstDry(hm, t, nbs)
  {
    lowest := Point(0, 0);
    var j := 0;
    while j < |nbs|
      invariant 0 <= j <= |nbs|
      invariant FirstDry(hm, t, nbs) == FirstDry(hm, t, nbs[j..])
    {
      assert nbs[j..][1..] == nbs[j + 1..];
      if Wet(t, nbs[j]) || !InField(hm, nbs[j]) {
        j := j + 1;
        continue;
      }
      lowest := nbs[j];
      return;
    }
  }

  /** The cells lower than `p` on the height map: the river's termination measure. */
  ghost function Below(hm: Heights, p: Point): set<Point> {
    set q | q in AllCells(hm.width, hm.length) && Height(hm, q) < Height(hm, p)
  }

  lemma BelowShrinks(hm: Heights, p: Point, q: Point)
    requires InField(hm, q) && Height(hm, q) < Height(hm, p)
    ensures Below(hm, q) < Below(hm, p)
  {
    InAllCells(q, hm.width, hm.length);
    assert q in Below(hm, p) && q !in Below(hm, q);
  }

  /**
   * The river ends here: the next cell is not lower. All river cells are
   * distinct, because heights fall strictly along it.
   */
  ghost predicate RiverCourse(hm: Heights, t: Terrain, start: Point, river: seq<Point>) {
    && |river| >= 1 && river[0] == start
    && (forall k :: 0 <= k < |river| ==> InField(hm, river[k]))
    && (forall k :: 0 <= k < |river| - 1 ==>
          river[k + 1] == RiverNext(hm, t, river[k]) && Height(hm, river[k + 1]) < Height(hm, river[k]))
  }

  /** Heights fall strictly along a river course, so no cell repeats. */
  lemma {:induction false} RiverFalls(hm: Heights, t: Terrain, start: Point, river: seq<Point>, a: nat, b: nat)
    requires RiverCourse(hm, t, start, river) && a < b < |river|
    ensures Height(hm, river[b]) < Height(hm, river[a])
    decreases b - a
  {
    if a + 1 < b {
      RiverFalls(hm, t, start, river, a + 1, b);
    }
  }

  lemma RiverDistinct(hm: Heights, t: Terrain, start: Point, river: seq<Point>)
    requires RiverCourse(hm, t, start, river)
    ensures Distinct(river)
  {
    forall a, b | 0 <= a < b < |river|
      ensures river[a] != river[b]
    {
      RiverFalls(hm, t, start, river, a, b);
    }
  }

  /**
   * GenerateRiver: the river from `start` and the lake flooded where it
   * stops. Heights for the descent test come from `hm`; the neighbour order
   * and the water test from the grid.
   */
  method GenerateRiver(hm: Heights, t: Terrain, start: Point) returns (river: seq<Point>, lakes: LakeResult)
    requires FitsGrid(hm, t) && InField(hm, start)
    ensures RiverCourse(hm, t, start, river) && Distinct(river)
    ensures LakeShape(t, lakes, 4)
    ensures var last := river[|river| - 1];
      Height(hm, RiverNext(hm, t, last)) >= Height(hm, last)
      && lakes.cells[0] == RiverNext(hm, t, last)
  {
    river := [start];
    while true
      invariant RiverCourse(hm, t, start, river)
      decreases Below(hm, river[|river| - 1])
    {
      var current := river[|river| - 1];
      MooreNeighboursSpec(current, hm.width, hm.length);
      var neighbour := GetLowestNeighbour(current, hm, t.heights);
      var lowest := FindDry(hm, t, neighbour);
      RiverNextIn(hm, t, current);
      if Height(hm, lowest) >= Height(hm, current) {
        lakes := GenerateLake(t, lowest, 4);
        RiverDistinct(hm, t, start, river);
        return;
      }
      RiverGrows(hm, t, start, river, lowest);
      river := river + [lowest];
    }
  }

  /** The next cell is always on the map: a dry neighbour, or the corner (0, 0). */
  lemma RiverNextIn(hm: Heights, t: Terrain, p: Point)
    requires FitsGrid(hm, t) && InField(hm, p)
    ensures InField(hm, RiverNext(hm, t, p)) && In(t, RiverNext(hm, t, p))
  {
    RiverNextSpec(hm, t, p);
  }

  lemma RiverGrows(hm: Heights, t: Terrain, start: Point, river: seq<Point>, next: Point)
    requires RiverCourse(hm, t, start, river) && InField(hm, next)
    requires next == RiverNext(hm, t, river[|river| - 1])
    requires Height(hm, next) < Height(hm, river[|river| - 1])
    ensures RiverCourse(hm, t, start, river + [next])
    ensures Below(hm, next) < Below(hm, river[|river| - 1])
  {
    var r := river + [next];
    assert r[..|river|] == river && r[|river|] == next;
    forall k | 0 <= k < |r| - 1
      ensures r[k + 1] == RiverNext(hm, t, r[k]) && Height(hm, r[k + 1]) < Height(hm, r[k])
    {
      assert r[k] == river[k];
    }
    BelowShrinks(hm, river[|river| - 1], next);
  }

  /**
   * GenerateWater: a river from the cell picked by the two random draws.
   * Random.Range(0, n) is modelled as a draw reduced modulo n (Reduce).
   */
  method GenerateWater(hm: Heights, t: Terrain, drawX: nat, drawY: nat) returns (river: seq<Point>, lakes: LakeResult)
    requires FitsGrid(hm, t) && hm.width > 0 && hm.length > 0
    ensures RiverCourse(hm, t, Point(Reduce(drawX, hm.width), Reduce(drawY, hm.length)), river) && Distinct(river)
    ensures LakeShape(t, lakes, 4)
    ensures var last := river[|river| - 1];
      Height(hm, RiverNext(hm, t, last)) >= Height(hm, last)
      && lakes.cells[0] == RiverNext(hm, t, last)
  {
    var start := Point(Reduce(drawX, hm.width), Reduce(drawY, hm.length));
    river, lakes := GenerateRiver(hm, t, start);
  }

  // ---------------------------------------------------------------------
  // Lakes.

  /**
   * A finished lake, or the flood that ran out of frontier: the source reads
   * `neighbour[0]` of an empty list there and throws.
   */
  datatype LakeResult = Lake(cells: seq<Point>) | FrontierExhausted(cells: seq<Point>)

  /** Each lake cell after the first is a 4-neighbour of an earlier one. */
  ghost predicate Grown(lake: seq<Point>) {
    forall k :: 1 <= k < |lake| ==> Touches(lake[..k], lake[k])
  }

  /** The number of entries of `s` higher than `h0` on the grid. */
  function Above(t: Terrain, s: seq<Point>, h0: int): nat {
    if s == [] then 0
    else Above(t, s[..|s| - 1], h0) + (if H(t, s[|s| - 1]) > h0 then 1 else 0)
  }

  /** No lake cell has a 4-neighbour in bounds outside the lake. */
  ghost predicate Closed(t: Terrain, lake: seq<Point>) {
    forall q, n :: q in lake && n in StrictNeighbours(q, Width(t), Length(t)) ==> n in lake
  }

  /**
   * What GenerateLake promises: a flood of distinct in-bounds cells from its
   * start, each joined to an earlier one by a 4-step. A finished lake has at
   * least `minSize` cells, of which at most `minSize - 1` lie above the
   * start's height; an exhausted flood is closed under 4-steps.
   */
  ghost predicate LakeShape(t: Terrain, r: LakeResult, minSize: int) {
    && |r.cells| >= 1
    && Distinct(r.cells) && (forall q :: q in r.cells ==> In(t, q)) && Grown(r.cells)
    && (r.Lake? ==> |r.cells| >= minSize && Above(t, r.cells, H(t, r.cells[0])) < (if minSize > 1 then minSize else 1))
    && (r.FrontierExhausted? ==> Closed(t, r.cells))
  }

  /**
   * The flood between two steps: the lake starts at `start`, its cells are
   * distinct, in bounds and 4-connected in order; the frontier `nb` holds no
   * lake cell, only in-bounds cells touching the lake, and every in-bounds
   * 4-neighbour of a lake cell is in the lake or on the frontier.
   */
  ghost predicate Flood(t: Terrain, start: Point, lake: seq<Point>, nb: seq<Point>) {
    && In(t, start)
    && (lake == [] ==> nb == [start])
    && (lake != [] ==> lake[0] == start)
    && Distinct(lake) && (forall q :: q in lake ==> In(t, q)) && Grown(lake)
    && (lake != [] ==> forall q :: q in nb ==> In(t, q) && q !in lake && Touches(lake, q))
    && (forall q, n :: q in lake && n in StrictNeighbours(q, Width(t), Length(t)) ==> n in lake || n in nb)
  }

  /**
   * The dedupe loop from index `i` on: drops `s[i]` when it equals
   * `s[i + 1]`, then moves on to `i + 1` without looking back, while `i` is
   * below the current length minus one.
   */
  function CollapseFrom(s: seq<Point>, i: nat): seq<Point>
    decreases |s| - i
  {
    if i + 1 >= |s| then s
    else if s[i] == s[i + 1] then CollapseFrom(s[..i] + s[i + 1..], i + 1)
    else CollapseFrom(s, i + 1)
  }

  /** The dedupe loop over the whole list. */
  method CollapseAdjacent(s: seq<Point>) returns (r: seq<Point>)
    ensures r == CollapseFrom(s, 0)
  {
    r := s;
    var i := 0;
    while i < |r| - 1
      invariant CollapseFrom(r, i) == CollapseFrom(s, 0)
      decreases |r| - i
    {
      if r[i] == r[i + 1] {
        r := r[..i] + r[i + 1..];
      }
      i := i + 1;
    }
  }

  /** Dropping one entry keeps a list sorted. */
  lemma DropKeepsSorted(h: Heights, s: seq<Point>, i: nat)
    requires SortedBy(h, s) && i < |s|
    ensures SortedBy(h, s[..i] + s[i + 1..])
  {
    var r := s[..i] + s[i + 1..];
    forall a, b | 0 <= a < b < |r|
      ensures Height(h, r[a]) <= Height(h, r[b])
    {
      var a', b' := if a < i then a else a + 1, if b < i then b else b + 1;
      assert r[a] == s[a'] && r[b] == s[b'];
    }
  }

  /**
   * What the dedupe keeps: the same cells, no more copies of any, the same
   * first entry, and a sorted list stays sorted.
   */
  lemma {:induction false} CollapseSpec(h: Heights, s: seq<Point>, i: nat)
    ensures forall q :: q in CollapseFrom(s, i) <==> q in s
    ensures |CollapseFrom(s, i)| <= |s| && multiset(CollapseFrom(s, i)) <= multiset(s)
    ensures |s| > 0 ==> |CollapseFrom(s, i)| > 0 && CollapseFrom(s, i)[0] == s[0]
    ensures SortedBy(h, s) ==> SortedBy(h, CollapseFrom(s, i))
  {
    CollapseMembers(s, i);
    CollapseCount(s, i);
    if |s| > 0 {
      CollapseHead(s, i);
    }
    if SortedBy(h, s) {
      CollapseSorted(h, s, i);
    }
  }

  /** Dropping the repeat at index i keeps every member. */
  lemma DropRepeat(s: seq<Point>, i: nat)
    requires i + 1 < |s| && s[i] == s[i + 1]
    ensures forall q :: q in s[..i] + s[i + 1..] <==> q in s
    ensures multiset(s[..i] + s[i + 1..]) <= multiset(s)
    ensures |s[..i] + s[i + 1..]| == |s| - 1
    ensures (s[..i] + s[i + 1..])[0] == s[0]
  {
    assert s == s[..i] + [s[i]] + s[i + 1..];
    forall q ensures q in s ==> q in s[..i] + s[i + 1..] {
      if q == s[i] { assert s[i + 1..][0] == q; }
    }
  }

  lemma {:induction false} CollapseMembers(s: seq<Point>, i: nat)
    ensures forall q :: q in CollapseFrom(s, i) <==> q in s
    decreases |s| - i
  {
    if i + 1 < |s| {
      if s[i] == s[i + 1] {
        DropRepeat(s, i);
        CollapseMembers(s[..i] + s[i + 1..], i + 1);
      } else {
        CollapseMembers(s, i + 1);
      }
    }
  }

  lemma {:induction false} CollapseCount(s: seq<Point>, i: nat)
    ensures |CollapseFrom(s, i)| <= |s| && multiset(CollapseFrom(s, i)) <= multiset(s)
    decreases |s| - i
  {
    if i + 1 < |s| {
      if s[i] == s[i + 1] {
        DropRepeat(s, i);
        CollapseCount(s[..i] + s[i + 1..], i + 1);
      } else {
        CollapseCount(s, i + 1);
      }
    }
  }

  lemma {:induction false} CollapseHead(s: seq<Point>, i: nat)
    requires |s| > 0
    ensures |CollapseFrom(s, i)| > 0 && CollapseFrom(s, i)[0] == s[0]
    decreases |s| - i
  {
    if i + 1 < |s| {
      if s[i] == s[i + 1] {
        DropRepeat(s, i);
        CollapseHead(s[..i] + s[i + 1..], i + 1);
      } else {
        CollapseHead(s, i + 1);
      }
    }
  }

  lemma {:induction false} CollapseSorted(h: Heights, s: seq<Point>, i: nat)
    requires SortedBy(h, s)
    ensures SortedBy(h, CollapseFrom(s, i))
    decreases |s| - i
  {
    if i + 1 < |s| {
      if s[i] == s[i + 1] {
        DropKeepsSorted(h, s, i);
        CollapseSorted(h, s[..i] + s[i + 1..], i + 1);
      } else {
        CollapseSorted(h, s, i + 1);
      }
    }
  }

  /** Removing lake cells keeps a list sorted. */
  lemma {:induction false} WithoutKeepsSorted(h: Heights, s: seq<Point>, ex: seq<Point>)
    requires SortedBy(h, s)
    ensures SortedBy(h, Without(s, ex))
  {
    if s != [] {
      assert SortedBy(h, s[1..]);
      WithoutKeepsSorted(h, s[1..], ex);
      forall q | q in Without(s[1..], ex) ensures Height(h, s[0]) <= Height(h, q) {
        var k :| 0 <= k < |s[1..]| && s[1..][k] == q;
        assert s[k + 1] == q;
      }
    }
  }

  lemma AboveAppend(t: Terrain, s: seq<Point>, c: Point, h0: int)
    ensures Above(t, s + [c], h0) == Above(t, s, h0) + (if H(t, c) > h0 then 1 else 0)
  {
    assert (s + [c])[..|s|] == s;
  }

  /** A lake of distinct in-bounds cells has at most as many cells as the grid. */
  lemma LakeFits(t: Terrain, lake: seq<Point>)
    requires Distinct(lake) && forall q :: q in lake ==> In(t, q)
    ensures |lake| <= |AllCells(Width(t), Length(t))|
  {
    DistinctSetSize(lake);
    forall q | q in lake ensures q in AllCells(Width(t), Length(t)) {
      InAllCells(q, Width(t), Length(t));
    }
    var a := set q | q in lake;
    var b := AllCells(Width(t), Length(t));
    assert a <= b;
    assert b == a + (b - a) && a * (b - a) == {};
  }

  /**
   * One pass of the inner loop up to the break test: move the first
   * frontier cell into the lake, add its sorted strict neighbours, sort,
   * drop lake cells, collapse adjacent duplicates. The new frontier is
   * sorted and holds exactly the other frontier cells and the new cell's
   * in-bounds 4-neighbours that are not in the lake; when the frontier was
   * sorted, the cell moved is a lowest one.
   */
  method LakeStep(t: Terrain, start: Point, lake: seq<Point>, nb: seq<Point>) returns (lake': seq<Point>, nb': seq<Point>)
    requires Flood(t, start, lake, nb) && |nb| > 0
    ensures lake' == lake + [nb[0]]
    ensures Flood(t, start, lake', nb')
    ensures forall q :: q in nb' <==> (q in nb[1..] || (In(t, q) && Adjacent4(nb[0], q))) && q !in lake'
    ensures SortedBy(t.heights, nb')
    ensures SortedBy(t.heights, nb) ==> forall q :: q in nb ==> H(t, lake'[|lake|]) <= H(t, q)
  {
    var c := nb[0];
    assert c in nb;
    lake' := lake + [c];
    var rest := nb[1..];
    assert forall q :: q in rest ==> q in nb && In(t, q);
    var w, l := Width(t), Length(t);
    StrictNeighboursSpec(c, w, l);
    var sn := GetLowestStrictNeighbour(c, t.heights, t.heights);
    var joined := rest + sn;
    assert forall q :: q in joined ==> q in rest || q in sn;
    var sorted := SortListByHeight(joined, t.heights);
    assert forall q :: q in sorted <==> q in joined by {
      forall q ensures q in sorted <==> q in joined {
        assert q in sorted <==> q in multiset(sorted);
        assert q in joined <==> q in multiset(joined);
      }
    }
    var kept := Without(sorted, lake');
    WithoutKeepsSorted(t.heights, sorted, lake');
    nb' := CollapseAdjacent(kept);
    CollapseSpec(t.heights, kept, 0);
    assert forall q :: q in nb' <==> (q in rest || q in sn) && q !in lake';
    LakeStepFlood(t, start, lake, nb, sn, nb');
    if SortedBy(t.heights, nb) {
      forall q | q in nb ensures H(t, lake'[|lake|]) <= H(t, q) {
        SortedFirstIsLowest(t.heights, nb, q);
      }
    }
  }

  lemma LakeStepFlood(t: Terrain, start: Point, lake: seq<Point>, nb: seq<Point>, sn: seq<Point>, nb': seq<Point>)
    requires Flood(t, start, lake, nb) && |nb| > 0
    requires forall q :: q in sn <==> In(t, q) && Adjacent4(nb[0], q)
    requires forall q :: q in nb' <==> (q in nb[1..] || q in sn) && q !in lake + [nb[0]]
    ensures Flood(t, start, lake + [nb[0]], nb')
  {
    var c := nb[0];
    var lake' := lake + [c];
    assert c in nb;
    assert lake'[..|lake|] == lake;
    forall k | 1 <= k < |lake'|
      ensures Touches(lake'[..k], lake'[k])
    {
      if k < |lake| {
        assert lake'[..k] == lake[..k];
      }
    }
    StrictNeighboursSpec(c, Width(t), Length(t));
    forall q | q in nb'
      ensures In(t, q) && q !in lake' && Touches(lake', q)
    {
      if q in sn {
        assert lake'[|lake|] == c;
      } else {
        assert q in nb;
        TouchesGrow(lake, c, q);
      }
    }
    forall q, n | q in lake' && n in StrictNeighbours(q, Width(t), Length(t))
      ensures n in lake' || n in nb'
    {
      StrictNeighboursSpec(q, Width(t), Length(t));
      if q == c {
        assert n in sn;
      } else if n != c && n !in lake {
        assert n in nb;
        assert n in nb[1..] by {
          var k :| 0 <= k < |nb| && nb[k] == n;
          assert k != 0;
          assert nb[1..][k - 1] == n;
        }
      }
    }
  }

  /**
   * GenerateLake: floods from `startPoint` in passes of at most 1000 cells.
   * A pass ends early once the lowest frontier cell is higher than the
   * start; passes repeat while the lake is smaller than `minSize`. A
   * finished lake under 1000 cells ended on that test: every in-bounds
   * 4-neighbour outside it is higher than the start.
   */
  method GenerateLake(t: Terrain, startPoint: Point, minSize: int) returns (r: LakeResult)
    requires In(t, startPoint)
    ensures LakeShape(t, r, minSize)
    ensures r.cells[0] == startPoint
    ensures r.Lake? && |r.cells| < 1000 ==>
      forall q, n :: q in r.cells && n in StrictNeighbours(q, Width(t), Length(t)) && n !in r.cells ==>
        H(t, n) > H(t, startPoint)
  {
    var lake: seq<Point> := [];
    var nb := [startPoint];
    ghost var h0 := H(t, startPoint);
    ghost var passes := 0;
    ghost var all := AllCells(Width(t), Length(t));
    var first := true;
    while first || |lake| < minSize
      invariant Flood(t, startPoint, lake, nb) && |nb| > 0
      invariant first <==> lake == []
      invariant passes <= |lake| && (passes <= 1 || passes <= minSize)
      invariant lake != [] ==> Above(t, lake, h0) < passes
      invariant !first ==> SortedBy(t.heights, nb) && (H(t, nb[0]) > h0 || |lake| >= 1000)
      invariant |lake| <= |all|
      decreases |all| - |lake| + (if first then 1 else 0)
    {
      first := false;
      passes := passes + 1;
      lake, nb := FloodPass(t, startPoint, lake, nb);
      if |nb| == 0 {
        r := FrontierExhausted(lake);
        ExhaustedIsClosed(t, startPoint, lake);
        return;
      }
    }
    r := Lake(lake);
    if |lake| < 1000 {
      ShoreIsHigher(t, startPoint, lake, nb);
    }
  }

  /**
   * One pass of the do-while body: up to 1000 flood steps, stopping early
   * when the lowest frontier cell is higher than the start, or when the
   * frontier runs out (`nb'` empty). Every cell the pass adds after its
   * first was a lowest frontier cell no higher than the start, so only the
   * pass's first cell can lie above the start, and not even that one in the
   * first pass.
   */
  method FloodPass(t: Terrain, startPoint: Point, lake: seq<Point>, nb: seq<Point>) returns (lake': seq<Point>, nb': seq<Point>)
    requires Flood(t, startPoint, lake, nb) && |nb| > 0
    ensures Flood(t, startPoint, lake', nb') && SortedBy(t.heights, nb')
    ensures |lake| < |lake'| <= |lake| + 1000 && lake'[..|lake|] == lake
    ensures |lake'| <= |AllCells(Width(t), Length(t))|
    ensures |nb'| == 0 || H(t, nb'[0]) > H(t, startPoint) || |lake'| == |lake| + 1000
    ensures forall k :: |lake| < k < |lake'| ==> H(t, lake'[k]) <= H(t, startPoint)
    ensures var h0 := H(t, startPoint);
      Above(t, lake', h0) <= Above(t, lake, h0) + (if lake == [] then 0 else 1)
  {
    lake', nb' := lake, nb;
    var j := 0;
    while j < 1000
      invariant 0 <= j <= 1000
      invariant Pass(t, startPoint, lake, lake', nb', j)
      invariant j > 0 ==> PassEnd(t, startPoint, lake, lake', nb')
      decreases 1000 - j
    {
      lake', nb' := PassStep(t, startPoint, lake, lake', nb', j);
      if |nb'| == 0 || H(t, nb'[0]) > H(t, lake'[0]) {
        PassResult(t, startPoint, lake, lake', nb');
        return;
      }
      j := j + 1;
    }
    PassResult(t, startPoint, lake, lake', nb');
  }

  /** What a finished pass promises, read off its bookkeeping. */
  lemma PassResult(t: Terrain, start: Point, lake: seq<Point>, cur: seq<Point>, nb: seq<Point>)
    requires PassEnd(t, start, lake, cur, nb)
    requires |nb| == 0 || H(t, nb[0]) > H(t, cur[0]) || |cur| == |lake| + 1000
    ensures Flood(t, start, cur, nb) && SortedBy(t.heights, nb)
    ensures |lake| < |cur| <= |lake| + 1000 && cur[..|lake|] == lake
    ensures |cur| <= |AllCells(Width(t), Length(t))|
    ensures |nb| == 0 || H(t, nb[0]) > H(t, start) || |cur| == |lake| + 1000
    ensures forall k :: |lake| < k < |cur| ==> H(t, cur[k]) <= H(t, start)
    ensures var h0 := H(t, start);
      Above(t, cur, h0) <= Above(t, lake, h0) + (if lake == [] then 0 else 1)
  {
  }

  /**
   * The count of a pass after `j` steps: `cur` extends `lake` by `j` cells,
   * those after the first no higher than the start.
   */
  ghost predicate Tally(t: Terrain, start: Point, lake: seq<Point>, cur: seq<Point>, j: nat) {
    var h0 := H(t, start);
    && |cur| == |lake| + j && cur[..|lake|] == lake
    && (forall k :: |lake| < k < |cur| ==> H(t, cur[k]) <= h0)
    && Above(t, cur, h0) <= Above(t, lake, h0) + (if lake == [] || j == 0 then 0 else 1)
  }

  /** A pass after `j` steps that did not stop: `cur` is the lake, `nb` the frontier. */
  ghost predicate Pass(t: Terrain, start: Point, lake: seq<Point>, cur: seq<Point>, nb: seq<Point>, j: nat) {
    && Flood(t, start, cur, nb) && |nb| > 0 && Tally(t, start, lake, cur, j)
    && (j > 0 ==> SortedBy(t.heights, nb) && H(t, nb[0]) <= H(t, start))
  }

  /** What holds once a pass has taken `j` steps, the last one possibly a stopping one. */
  ghost predicate PassEnd(t: Terrain, start: Point, lake: seq<Point>, cur: seq<Point>, nb: seq<Point>) {
    && Flood(t, start, cur, nb) && SortedBy(t.heights, nb)
    && |lake| < |cur| <= |lake| + 1000 && Tally(t, start, lake, cur, |cur| - |lake|)
    && |cur| <= |AllCells(Width(t), Length(t))|
  }

  /** Step `j` of a pass: one LakeStep, with the pass's bookkeeping. */
  method PassStep(t: Terrain, start: Point, ghost lake: seq<Point>, cur: seq<Point>, nb: seq<Point>, ghost j: nat)
    returns (cur': seq<Point>, nb': seq<Point>)
    requires Pass(t, start, lake, cur, nb, j) && j < 1000
    ensures cur' == cur + [nb[0]]
    ensures PassEnd(t, start, lake, cur', nb')
    ensures |nb'| == 0 || H(t, nb'[0]) > H(t, start) || Pass(t, start, lake, cur', nb', j + 1)
  {
    cur', nb' := LakeStep(t, start, cur, nb);
    TallyAdvance(t, start, lake, cur, nb[0], j);
    LakeFits(t, cur');
  }

  lemma TallyAdvance(t: Terrain, start: Point, lake: seq<Point>, cur: seq<Point>, c: Point, j: nat)
    requires Tally(t, start, lake, cur, j) && (j > 0 ==> H(t, c) <= H(t, start))
    requires lake == [] && j == 0 ==> c == start
    ensures Tally(t, start, lake, cur + [c], j + 1)
  {
    var h0 := H(t, start);
    AboveAppend(t, cur, c, h0);
    assert (cur + [c])[..|lake|] == cur[..|lake|];
  }

  lemma ExhaustedIsClosed(t: Terrain, start: Point, lake: seq<Point>)
    requires Flood(t, start, lake, [])
    ensures Closed(t, lake)
  {
  }

  /**
   * When the lowest cell of a sorted frontier is higher than the start,
   * so is every in-bounds 4-neighbour of the lake outside it.
   */
  lemma ShoreIsHigher(t: Terrain, start: Point, lake: seq<Point>, nb: seq<Point>)
    requires Flood(t, start, lake, nb) && SortedBy(t.heights, nb) && |nb| > 0 && H(t, nb[0]) > H(t, start)
    ensures forall q, n :: q in lake && n in StrictNeighbours(q, Width(t), Length(t)) && n !in lake ==> H(t, n) > H(t, start)
  {
    forall q, n | q in lake && n in StrictNeighbours(q, Width(t), Length(t)) && n !in lake
      ensures H(t, n) > H(t, start)
    {
      SortedFirstIsLowest(t.heights, nb, n);
    }
  }
}
