/**
 * Placing forests and settlements (ElementsGeneration.cs): a nearest-element
 * search over growing square rings, forest growth outwards from the river
 * banks, and settlement sites sampled next to river cells.
 */
module ElementsGeneration {
  import opened Geometry
  import opened CellData
  import opened Terrain
  import opened HeightMapService

  // ---------------------------------------------------------------------
  // FindClosestElement.

  /**
   * Ring `r` around `s` is scanned through the offsets (x, y) with
   * -r <= x, y <= 0 and x == -r or y == -r, each checked at the four
   * reflections (x, y), (-x, y), (x, -y), (-x, -y). FoldX and FoldY give the
   * offset that reaches `q`; Mirror gives the first reflection that does.
   */
  function FoldX(s: Point, q: Point): int { -(Abs(s.x - q.x) as int) }
  function FoldY(s: Point, q: Point): int { -(Abs(s.y - q.y) as int) }
  function Mirror(s: Point, q: Point): nat {
    (if q.x > s.x then 1 else 0) + (if q.y > s.y then 2 else 0)
  }

  /** `p` is checked before `q` in the scan around `s`: by ring, then x, then y, then reflection. */
  predicate Precedes(s: Point, p: Point, q: Point) {
    var rp, rq := Chebyshev(s, p), Chebyshev(s, q);
    || rp < rq
    || (rp == rq && FoldX(s, p) < FoldX(s, q))
    || (rp == rq && FoldX(s, p) == FoldX(s, q) && FoldY(s, p) < FoldY(s, q))
    || (rp == rq && FoldX(s, p) == FoldX(s, q) && FoldY(s, p) == FoldY(s, q) && Mirror(s, p) < Mirror(s, q))
  }

  /** The scan order is a strict total order: of two different cells exactly one is checked first. */
  lemma PrecedesTotal(s: Point, p: Point, q: Point)
    ensures p != q <==> Precedes(s, p, q) || Precedes(s, q, p)
    ensures !(Precedes(s, p, q) && Precedes(s, q, p))
  {
  }

  /** Beyond this radius no ring around `s` meets the grid. */
  function Reach(t: Terrain, s: Point): nat { Abs(s.x) + Abs(s.y) + Width(t) + Length(t) }

  /** Whether an element lies in the checked cell, and which cell (GetCellData, then Elements.Contains). */
  method CheckMirrors(t: Terrain, e: ElementKind, s: Point, x: int, y: int) returns (seen: bool, hit: bool, p: Point)
    requires x <= 0 && y <= 0
    ensures hit ==> Holds(t, p, e) && FoldX(s, p) == x && FoldY(s, p) == y
    ensures hit ==> forall q :: FoldX(s, q) == x && FoldY(s, q) == y && Mirror(s, q) < Mirror(s, p) ==> !Holds(t, q, e)
    ensures !hit ==> forall q :: FoldX(s, q) == x && FoldY(s, q) == y ==> !Holds(t, q, e)
    ensures !hit && !seen ==> forall q :: FoldX(s, q) == x && FoldY(s, q) == y ==> !In(t, q)
    ensures seen ==> -x <= Reach(t, s) && -y <= Reach(t, s)
  {
    seen, hit, p := false, false, Point(0, 0);
    MirrorCells(s, x, y);
    var m0 := Point(s.x + x, s.y + y);
    var inside0, has0 := Probe(t, e, m0);
    if inside0 {
      InReach(t, s, m0);
      seen := true;
      if has0 {
        hit, p := true, m0;
        return;
      }
    }
    var m1 := Point(s.x - x, s.y + y);
    var inside1, has1 := Probe(t, e, m1);
    if inside1 {
      InReach(t, s, m1);
      seen := true;
      if has1 {
        hit, p := true, m1;
        return;
      }
    }
    var m2 := Point(s.x + x, s.y - y);
    var inside2, has2 := Probe(t, e, m2);
    if inside2 {
      InReach(t, s, m2);
      seen := true;
      if has2 {
        hit, p := true, m2;
        return;
      }
    }
    var m3 := Point(s.x - x, s.y - y);
    var inside3, has3 := Probe(t, e, m3);
    if inside3 {
      InReach(t, s, m3);
      seen := true;
      if has3 {
        hit, p := true, m3;
        return;
      }
    }
  }

  /** No in-bounds cell lies beyond `Reach` from `s` along either axis. */
  lemma InReach(t: Terrain, s: Point, q: Point)
    requires In(t, q)
    ensures -FoldX(s, q) <= Reach(t, s) && -FoldY(s, q) <= Reach(t, s)
  {
  }

  /** GetCellData (null off the grid), then Elements.Contains. */
  method Probe(t: Terrain, e: ElementKind, m: Point) returns (inside: bool, has: bool)
    ensures inside == In(t, m) && has == Holds(t, m, e)
  {
    inside := In(t, m);
    has := inside && e in ElementsAt(t, m);
  }

  /**
   * The cells at fold (x, y) are the four reflections the scan checks, in
   * the order of their mirror index.
   */
  lemma MirrorCells(s: Point, x: int, y: int)
    requires x <= 0 && y <= 0
    ensures var m0, m1, m2, m3 := Point(s.x + x, s.y + y), Point(s.x - x, s.y + y), Point(s.x + x, s.y - y), Point(s.x - x, s.y - y);
      && FoldX(s, m0) == x && FoldY(s, m0) == y && FoldX(s, m1) == x && FoldY(s, m1) == y
      && FoldX(s, m2) == x && FoldY(s, m2) == y && FoldX(s, m3) == x && FoldY(s, m3) == y
      && forall q :: FoldX(s, q) == x && FoldY(s, q) == y ==>
        && (q == m0 || q == m1 || q == m2 || q == m3)
        && (Mirror(s, q) < Mirror(s, m1) ==> q == m0)
        && (Mirror(s, q) < Mirror(s, m2) ==> q == m0 || q == m1)
        && (Mirror(s, q) < Mirror(s, m3) ==> q == m0 || q == m1 || q == m2)
  {
  }

  /** A hit at offset (x, y) of ring `r`, with nothing found before it, is the first holder in scan order. */
  lemma HitIsFirst(t: Terrain, e: ElementKind, s: Point, r: int, x: int, y: int, p: Point)
    requires 0 <= r && -r <= x <= 0 && -r <= y <= 0 && (x == -r || y == -r)
    requires FoldX(s, p) == x && FoldY(s, p) == y
    requires forall q :: Chebyshev(s, q) < r ==> !Holds(t, q, e)
    requires forall q :: Chebyshev(s, q) == r && (FoldX(s, q) < x || (FoldX(s, q) == x && FoldY(s, q) < y)) ==> !Holds(t, q, e)
    requires forall q :: FoldX(s, q) == x && FoldY(s, q) == y && Mirror(s, q) < Mirror(s, p) ==> !Holds(t, q, e)
    ensures Chebyshev(s, p) == r
    ensures forall q :: Precedes(s, q, p) ==> !Holds(t, q, e)
  {
  }

  function Clamp(d: int, r: int): int { if d > r then r else if d < -r then -r else d }

  /** The cell `r` steps from `s` towards `q`, moving along each axis as far as `r` allows. */
  function Toward(s: Point, q: Point, r: int): Point {
    Point(s.x + Clamp(q.x - s.x, r), s.y + Clamp(q.y - s.y, r))
  }

  /** With `s` on the grid, every ring out to an in-bounds cell `q` meets the grid. */
  lemma RingReaches(t: Terrain, s: Point, q: Point, r: int)
    requires 0 <= r && In(t, s) && In(t, q) && r <= Chebyshev(s, q)
    ensures In(t, Toward(s, q, r)) && Chebyshev(s, Toward(s, q, r)) == r
  {
  }

  /**
   * FindClosestElement: rings of growing radius around `s` until a cell
   * holding `e` turns up, or until a whole ring lies off the grid.
   */
  method FindClosestElement(t: Terrain, e: ElementKind, s: Point) returns (found: bool, closest: Point)
    ensures found ==> Holds(t, closest, e)
    ensures found ==> forall q :: Holds(t, q, e) ==> Chebyshev(s, closest) <= Chebyshev(s, q)
    ensures found ==> forall q :: Precedes(s, q, closest) ==> !Holds(t, q, e)
    ensures !found ==> closest == Point(0, 0)
    ensures !found && In(t, s) ==> forall q :: !Holds(t, q, e)
  {
    closest := Point(0, 0);
    var radius := 0;
    while true
      invariant 0 <= radius <= Reach(t, s) + 1
      invariant forall q :: Chebyshev(s, q) < radius ==> !Holds(t, q, e)
      decreases Reach(t, s) + 1 - radius
    {
      var inRange := false;
      var x := -radius;
      while x <= 0
        invariant -radius <= x <= 1
        invariant forall q :: Chebyshev(s, q) == radius && FoldX(s, q) < x ==> !Holds(t, q, e)
        invariant !inRange ==> forall q :: Chebyshev(s, q) == radius && FoldX(s, q) < x ==> !In(t, q)
        invariant inRange ==> radius <= Reach(t, s)
      {
        var y := -radius;
        while y <= 0
          invariant -radius <= y <= 1
          invariant x > -radius ==> y == -radius
          invariant forall q :: Chebyshev(s, q) == radius && (FoldX(s, q) < x || (FoldX(s, q) == x && FoldY(s, q) < y)) ==> !Holds(t, q, e)
          invariant !inRange ==> forall q :: Chebyshev(s, q) == radius && (FoldX(s, q) < x || (FoldX(s, q) == x && FoldY(s, q) < y)) ==> !In(t, q)
          invariant inRange ==> radius <= Reach(t, s)
        {
          var seen, hit, p := CheckMirrors(t, e, s, x, y);
          if hit {
            HitIsFirst(t, e, s, radius, x, y, p);
            found, closest := true, p;
            return;
          }
          inRange := inRange || seen;
          if x != -radius {
            break;
          }
          y := y + 1;
        }
        x := x + 1;
      }
      if !inRange {
        found := false;
        forall q | In(t, s) && Holds(t, q, e)
          ensures false
        {
          RingReaches(t, s, q, radius);
        }
        return;
      }
      radius := radius + 1;
    }
  }

  datatype Option<T> = None | Some(value: T)

  /** `p` holds `e` and no cell checked before it around `s` does. */
  ghost predicate FirstHolder(t: Terrain, e: ElementKind, s: Point, p: Point) {
    Holds(t, p, e) && forall q :: Precedes(s, q, p) ==> !Holds(t, q, e)
  }

  /** What FindClosestElement finds around `s`: the first holder of `e` in scan order, if any. */
  ghost function Nearest(t: Terrain, e: ElementKind, s: Point): Option<Point> {
    if exists p :: FirstHolder(t, e, s, p) then Some(var p :| FirstHolder(t, e, s, p); p) else None
  }

  /** The scan order is total, so there is one first holder at most. */
  lemma FirstHolderUnique(t: Terrain, e: ElementKind, s: Point, p: Point, p': Point)
    requires FirstHolder(t, e, s, p) && FirstHolder(t, e, s, p')
    ensures p == p'
  {
    PrecedesTotal(s, p, p');
  }

  /** The first holder is a holder nearest to `s` in Chebyshev distance. */
  lemma NearestIsClosest(t: Terrain, e: ElementKind, s: Point)
    ensures Nearest(t, e, s).Some? ==>
      (Holds(t, Nearest(t, e, s).value, e)
       && forall q :: Holds(t, q, e) ==> Chebyshev(s, Nearest(t, e, s).value) <= Chebyshev(s, q))
  {
    if Nearest(t, e, s).Some? {
      var p := Nearest(t, e, s).value;
      assert FirstHolder(t, e, s, p);
      forall q | Holds(t, q, e) ensures Chebyshev(s, p) <= Chebyshev(s, q) {
        assert !Precedes(s, q, p);
      }
    }
  }

  /** From an in-bounds start, FindClosestElement's outcome is Nearest. */
  lemma NearestIs(t: Terrain, e: ElementKind, s: Point, found: bool, c: Point)
    requires found ==> Holds(t, c, e) && forall q :: Precedes(s, q, c) ==> !Holds(t, q, e)
    requires !found ==> forall q :: !Holds(t, q, e)
    ensures Nearest(t, e, s) == if found then Some(c) else None
  {
    if found {
      assert FirstHolder(t, e, s, c);
      FirstHolderUnique(t, e, s, Nearest(t, e, s).value, c);
    }
  }

  // ---------------------------------------------------------------------
  // GenerateForests.

  /** The sorted strict neighbours of every river cell, river by river (the AddRange loop). */
  function Banks(t: Terrain, rivers: seq<Point>): seq<Point> {
    if rivers == [] then []
    else
      Banks(t, rivers[..|rivers| - 1])
        + ExchangeSort(t.heights, StrictNeighbours(rivers[|rivers| - 1], Width(t), Length(t)))
  }

  /** A bank cell is an in-bounds 4-neighbour of some river cell, and every such cell is one. */
  lemma {:induction false} BanksSpec(t: Terrain, rivers: seq<Point>)
    ensures forall q :: q in Banks(t, rivers) <==> In(t, q) && Touches(rivers, q)
  {
    if rivers != [] {
      var pre, last := rivers[..|rivers| - 1], rivers[|rivers| - 1];
      BanksSpec(t, pre);
      var sn := StrictNeighbours(last, Width(t), Length(t));
      StrictNeighboursSpec(last, Width(t), Length(t));
      ExchangeSortSorts(t.heights, sn);
      forall q ensures q in Banks(t, rivers) <==> In(t, q) && Touches(rivers, q) {
        assert q in ExchangeSort(t.heights, sn) <==> q in multiset(sn);
        TouchesSnoc(pre, last, q);
      }
    }
  }

  lemma TouchesSnoc(s: seq<Point>, c: Point, q: Point)
    ensures Touches(s + [c], q) <==> Touches(s, q) || Adjacent4(c, q)
  {
    if Touches(s + [c], q) {
      var m :| 0 <= m < |s + [c]| && Adjacent4((s + [c])[m], q);
      if m < |s| {
        assert (s + [c])[m] == s[m];
      }
    }
    if Touches(s, q) {
      TouchesGrow(s, c, q);
    }
    if Adjacent4(c, q) {
      assert (s + [c])[|s|] == c;
    }
  }

  /** The neighbour loop over the river cells. */
  method CollectBanks(t: Terrain, rivers: seq<Point>) returns (banks: seq<Point>)
    ensures banks == Banks(t, rivers)
  {
    banks := [];
    var i := 0;
    while i < |rivers|
      invariant 0 <= i <= |rivers|
      invariant banks == Banks(t, rivers[..i])
    {
      var w, l := Width(t), Length(t);
      StrictNeighboursSpec(rivers[i], w, l);
      var sn := GetLowestStrictNeighbour(rivers[i], t.heights, t.heights);
      assert rivers[..i + 1][..i] == rivers[..i];
      banks := banks + sn;
      i := i + 1;
    }
    assert rivers[..i] == rivers;
  }

  lemma {:induction false} WithoutSnoc(s: seq<Point>, ex: seq<Point>, g: nat)
    requires g < |s|
    ensures Without(s[..g + 1], ex) == Without(s[..g], ex) + (if s[g] in ex then [] else [s[g]])
  {
    WithoutConcat(s[..g], [s[g]], ex);
    assert s[..g + 1] == s[..g] + [s[g]];
  }

  lemma {:induction false} WithoutConcat(a: seq<Point>, b: seq<Point>, ex: seq<Point>)
    ensures Without(a + b, ex) == Without(a, ex) + Without(b, ex)
    decreases |a|, 1
  {
    if a != [] {
      WithoutConcatCons(a, b, ex);
    } else {
      assert a + b == b;
    }
  }

  /** WithoutConcat for a non-empty first part, by peeling its head. */
  lemma {:induction false} WithoutConcatCons(a: seq<Point>, b: seq<Point>, ex: seq<Point>)
    requires a != []
    ensures Without(a + b, ex) == Without(a, ex) + Without(b, ex)
    decreases |a|, 0
  {
    var hd := if a[0] in ex then [] else [a[0]];
    assert (a + b)[0] == a[0] && (a + b)[1..] == a[1..] + b;
    calc {
      Without(a + b, ex);
      hd + Without(a[1..] + b, ex);
      { WithoutConcat(a[1..], b, ex); }
      hd + (Without(a[1..], ex) + Without(b, ex));
      (hd + Without(a[1..], ex)) + Without(b, ex);
      Without(a, ex) + Without(b, ex);
    }
  }

  /** The removal loop for river cells: RemoveAt(i) and i-- whenever the entry is a river cell. */
  method DropRivers(nbs: seq<Point>, rivers: seq<Point>) returns (kept: seq<Point>)
    ensures kept == Without(nbs, rivers)
  {
    kept := nbs;
    ghost var g := 0;
    var i := 0;
    while i < |kept|
      invariant Dropping(nbs, rivers, kept, i, g)
      decreases |nbs| - g
    {
      kept, i := DropStep(nbs, rivers, kept, i, g);
      g := g + 1;
    }
    assert nbs[..g] == nbs;
  }

  /** The removal loop after `g` entries, `i` of them kept. */
  ghost predicate Dropping(nbs: seq<Point>, rivers: seq<Point>, kept: seq<Point>, i: int, g: int) {
    && 0 <= g <= |nbs| && 0 <= i <= |kept|
    && i == |Without(nbs[..g], rivers)|
    && kept == Without(nbs[..g], rivers) + nbs[g..]
  }

  /** One pass of the removal loop: entry `g`, now at index `i`, goes if it is a river cell. */
  method DropStep(nbs: seq<Point>, rivers: seq<Point>, kept: seq<Point>, i: int, ghost g: int) returns (kept': seq<Point>, i': int)
    requires Dropping(nbs, rivers, kept, i, g) && i < |kept|
    ensures Dropping(nbs, rivers, kept', i', g + 1)
  {
    var river := IsRiver(kept[i], rivers);
    if river {
      DropRiverCell(nbs, rivers, kept, i, g);
      kept', i' := kept[..i] + kept[i + 1..], i;
    } else {
      KeepOtherCell(nbs, rivers, kept, i, g);
      kept', i' := kept, i + 1;
    }
  }

  /** Where entry `g` sits in the half-filtered list: at index `i`, between the kept prefix and the rest. */
  lemma DropSplit(nbs: seq<Point>, rivers: seq<Point>, kept: seq<Point>, i: int, g: int)
    requires Dropping(nbs, rivers, kept, i, g) && i < |kept|
    ensures g < |nbs| && kept[i] == nbs[g]
    ensures kept[..i] + kept[i + 1..] == Without(nbs[..g], rivers) + nbs[g + 1..]
    ensures kept == (Without(nbs[..g], rivers) + [nbs[g]]) + nbs[g + 1..]
  {
    SplitAt(Without(nbs[..g], rivers), nbs[g..]);
    assert nbs[g..][0] == nbs[g] && nbs[g..][1..] == nbs[g + 1..];
  }

  lemma DropRiverCell(nbs: seq<Point>, rivers: seq<Point>, kept: seq<Point>, i: int, g: int)
    requires Dropping(nbs, rivers, kept, i, g) && i < |kept| && kept[i] in rivers
    ensures Dropping(nbs, rivers, kept[..i] + kept[i + 1..], i, g + 1)
  {
    DropSplit(nbs, rivers, kept, i, g);
    WithoutSnoc(nbs, rivers, g);
  }

  lemma KeepOtherCell(nbs: seq<Point>, rivers: seq<Point>, kept: seq<Point>, i: int, g: int)
    requires Dropping(nbs, rivers, kept, i, g) && i < |kept| && kept[i] !in rivers
    ensures Dropping(nbs, rivers, kept, i + 1, g + 1)
  {
    DropSplit(nbs, rivers, kept, i, g);
    WithoutSnoc(nbs, rivers, g);
  }

  /** The inner loop over the river cells, leaving at the first match. */
  method IsRiver(q: Point, rivers: seq<Point>) returns (river: bool)
    ensures river <==> q in rivers
  {
    river := false;
    var j := 0;
    while j < |rivers|
      invariant 0 <= j <= |rivers|
      invariant q !in rivers[..j]
    {
      assert rivers[..j + 1] == rivers[..j] + [rivers[j]];
      if q == rivers[j] {
        river := true;
        return;
      }
      j := j + 1;
    }
    assert rivers[..j] == rivers;
  }

  /** Number of entries of `s` that are in `placed` (the per-neighbour Contains test). */
  function CountIn(s: seq<Point>, placed: seq<Point>): nat {
    if s == [] then 0
    else CountIn(s[..|s| - 1], placed) + (if s[|s| - 1] in placed then 1 else 0)
  }

  /**
   * The chance of a forest at `n`, with `c` the nearest river cell and
   * `placed` the forests so far: 1 - 0.2 * distance, plus 0.035 for every
   * forest 4-neighbour. The distance (Vector2.Distance) is a parameter.
   */
  function Chance(t: Terrain, dist: (Point, Point) -> real, placed: seq<Point>, n: Point, c: Point): real {
    var around := ExchangeSort(t.heights, StrictNeighbours(n, Width(t), Length(t)));
    1.0 - 0.2 * dist(n, c) + 0.035 * (CountIn(around, placed) as real)
  }

  /** The forests, or the crash on an empty initial frontier (`neighbours[0]`). */
  datatype ForestResult = Forests(cells: seq<Point>) | EmptyFrontier

  /** A cell the forest may spread to: an initial frontier cell, or plains next to a placed forest. */
  ghost predicate Spreads(t: Terrain, frontier: seq<Point>, placed: seq<Point>, q: Point) {
    In(t, q) && (q in frontier || (GroundAt(t, q) == Plains && Touches(placed, q)))
  }

  /**
   * The forest list so far: each cell spread from the initial frontier or an
   * earlier forest, and each was accepted at a strictly later iteration
   * `when[k]`, against the nearest river cell `near[k]`, with a roll below
   * its chance at the time.
   */
  ghost predicate Planted(t: Terrain, frontier: seq<Point>, roll: nat -> real, dist: (Point, Point) -> real,
                          forests: seq<Point>, near: seq<Point>, when: seq<nat>, i: nat)
  {
    && |near| == |forests| && |when| == |forests|
    && (forall k :: 0 <= k < |forests| ==> Spreads(t, frontier, forests[..k], forests[k]))
    && (forall k :: 0 <= k < |forests| ==> when[k] < i)
    && (forall k, k' :: 0 <= k < k' < |forests| ==> when[k] < when[k'])
    && (forall k :: 0 <= k < |forests| ==> Holds(t, near[k], River))
    && (forall k, q :: 0 <= k < |forests| && Holds(t, q, River) ==> Chebyshev(forests[k], near[k]) <= Chebyshev(forests[k], q))
    && (forall k :: 0 <= k < |forests| ==> roll(when[k]) < Chance(t, dist, forests[..k], forests[k], near[k]))
  }

  /** The contains-count loop behind the chance. */
  method ForestChance(t: Terrain, dist: (Point, Point) -> real, forests: seq<Point>, n: Point, c: Point)
    returns (chance: real)
    requires In(t, n)
    ensures chance == Chance(t, dist, forests, n, c)
  {
    var w, l := Width(t), Length(t);
    StrictNeighboursSpec(n, w, l);
    var around := GetLowestStrictNeighbour(n, t.heights, t.heights);
    chance := 1.0;
    chance := chance - 0.2 * dist(n, c);
    var k := 0;
    while k < |around|
      invariant 0 <= k <= |around|
      invariant chance == 1.0 - 0.2 * dist(n, c) + 0.035 * (CountIn(around[..k], forests) as real)
    {
      assert around[..k + 1][..k] == around[..k];
      if around[k] in forests {
        chance := chance + 0.035;
      }
      k := k + 1;
    }
    assert around[..k] == around;
  }

  /** A cell the forest loop queues next to a new forest: in bounds, plains, and not forest yet. */
  predicate Field(t: Terrain, q: Point, forests: seq<Point>) {
    In(t, q) && q !in forests && GroundAt(t, q) == Plains
  }

  /** The entries of `s` that are fields, in order. */
  function FieldsAmong(t: Terrain, s: seq<Point>, forests: seq<Point>): seq<Point> {
    if s == [] then []
    else FieldsAmong(t, s[..|s| - 1], forests) + (if Field(t, s[|s| - 1], forests) then [s[|s| - 1]] else [])
  }

  lemma {:induction false} FieldsAmongSpec(t: Terrain, s: seq<Point>, forests: seq<Point>)
    ensures forall q :: q in FieldsAmong(t, s, forests) <==> q in s && Field(t, q, forests)
    ensures |FieldsAmong(t, s, forests)| <= |s|
  {
    if s != [] {
      FieldsAmongSpec(t, s[..|s| - 1], forests);
      assert s == s[..|s| - 1] + [s[|s| - 1]];
    }
  }

  /** What planting `n` queues: the fields among its height-sorted in-bounds 4-neighbours. */
  function NewFields(t: Terrain, forests: seq<Point>, n: Point): seq<Point> {
    FieldsAmong(t, ExchangeSort(t.heights, StrictNeighbours(n, Width(t), Length(t))), forests)
  }

  /** The queued fields of a new forest may take a forest later and are not forest yet. */
  lemma NewFieldsSpread(t: Terrain, frontier: seq<Point>, forests: seq<Point>, n: Point)
    requires |forests| > 0 && forests[|forests| - 1] == n
    ensures forall q :: q in NewFields(t, forests, n) ==> Spreads(t, frontier, forests, q) && q !in forests
  {
    var sn := StrictNeighbours(n, Width(t), Length(t));
    StrictNeighboursSpec(n, Width(t), Length(t));
    ExchangeSortSorts(t.heights, sn);
    FieldsAmongSpec(t, ExchangeSort(t.heights, sn), forests);
    forall q | q in NewFields(t, forests, n) ensures Touches(forests, q) {
      assert q in multiset(ExchangeSort(t.heights, sn));
      assert Adjacent4(forests[|forests| - 1], q);
    }
  }

  /** The loop over a new forest's strict neighbours, queueing the fields. */
  method QueueFields(t: Terrain, forests: seq<Point>, n: Point, nbs: seq<Point>)
    returns (nbs': seq<Point>)
    ensures nbs' == nbs + NewFields(t, forests, n)
  {
    var w, l := Width(t), Length(t);
    StrictNeighboursSpec(n, w, l);
    var adjacent := GetLowestStrictNeighbour(n, t.heights, t.heights);
    nbs' := nbs;
    var j := 0;
    while j < |adjacent|
      invariant 0 <= j <= |adjacent|
      invariant nbs' == nbs + FieldsAmong(t, adjacent[..j], forests)
    {
      FieldsAmongSnoc(t, adjacent, j, forests);
      assert adjacent[j] in adjacent;
      if adjacent[j] !in forests && GroundAt(t, adjacent[j]) == Plains {
        nbs' := nbs' + [adjacent[j]];
      }
      j := j + 1;
    }
    assert adjacent[..j] == adjacent;
  }

  lemma FieldsAmongSnoc(t: Terrain, s: seq<Point>, j: nat, forests: seq<Point>)
    requires j < |s|
    ensures FieldsAmong(t, s[..j + 1], forests) == FieldsAmong(t, s[..j], forests) + (if Field(t, s[j], forests) then [s[j]] else [])
  {
    assert s[..j + 1][..j] == s[..j];
  }

  /** The initial frontier: in-bounds 4-neighbours of river cells that are not river cells, each once. */
  lemma FrontierSpec(t: Terrain, rivers: seq<Point>)
    ensures var f := Without(Dedup(Banks(t, rivers)), rivers);
      Distinct(f) && forall q :: q in f <==> In(t, q) && Touches(rivers, q) && q !in rivers
  {
    BanksSpec(t, rivers);
    WithoutDistinct(Dedup(Banks(t, rivers)), rivers);
  }

  /** Iteration `i` plants `n`: a river cell is found around it and the roll beats the chance. */
  ghost predicate Plants(t: Terrain, roll: nat -> real, dist: (Point, Point) -> real, forests: seq<Point>, n: Point, i: nat) {
    var c := Nearest(t, River, n);
    c.Some? && roll(i) < Chance(t, dist, forests, n, c.value)
  }

  /**
   * The forest loop replayed from iteration `i`, with queue `nbs` and the
   * forests so far: pop the head, plant it and queue its fields when
   * Plants holds, stop on an empty queue or after iteration 9999.
   */
  ghost function Grow(t: Terrain, roll: nat -> real, dist: (Point, Point) -> real,
                      nbs: seq<Point>, forests: seq<Point>, i: nat): seq<Point>
    decreases 10000 - i
  {
    if i >= 10000 || |nbs| == 0 then forests
    else if Plants(t, roll, dist, forests, nbs[0], i) then
      Grow(t, roll, dist, nbs[1..] + NewFields(t, forests + [nbs[0]], nbs[0]), forests + [nbs[0]], i + 1)
    else Grow(t, roll, dist, nbs[1..], forests, i + 1)
  }

  /** The replay only appends, at most one forest per remaining iteration. */
  lemma {:induction false} GrowExtends(t: Terrain, roll: nat -> real, dist: (Point, Point) -> real,
                                       nbs: seq<Point>, forests: seq<Point>, i: nat)
    ensures var r := Grow(t, roll, dist, nbs, forests, i);
      |forests| <= |r| <= |forests| + (if i < 10000 then 10000 - i else 0) && r[..|forests|] == forests
    decreases 10000 - i
  {
    if i < 10000 && nbs != [] {
      if Plants(t, roll, dist, forests, nbs[0], i) {
        var f := forests + [nbs[0]];
        GrowExtends(t, roll, dist, nbs[1..] + NewFields(t, f, nbs[0]), f, i + 1);
        assert f[..|forests|] == forests;
      } else {
        GrowExtends(t, roll, dist, nbs[1..], forests, i + 1);
      }
    }
  }

  /**
   * GenerateForests: a frontier queue, popped from the front for at most
   * 10000 iterations. A popped cell becomes forest when a river cell is
   * found and the roll beats the chance; then its fitting neighbours are
   * queued. `roll(i)` is the draw of iteration `i`. The forests are the
   * replay Grow from the initial frontier, and each planting is recorded.
   */
  method GenerateForests(t: Terrain, rivers: seq<Point>, roll: nat -> real, dist: (Point, Point) -> real)
    returns (r: ForestResult, ghost near: seq<Point>, ghost when: seq<nat>)
    ensures var frontier := Without(Dedup(Banks(t, rivers)), rivers);
      frontier == [] <==> r == EmptyFrontier
    ensures var frontier := Without(Dedup(Banks(t, rivers)), rivers);
      r.Forests? ==> r.cells == Grow(t, roll, dist, frontier, [], 0)
    ensures var frontier := Without(Dedup(Banks(t, rivers)), rivers);
      r.Forests? ==> |r.cells| <= 10000 && Planted(t, frontier, roll, dist, r.cells, near, when, 10000)
  {
    var banks := CollectBanks(t, rivers);
    var unique := Dedup(banks);
    var nbs := DropRivers(unique, rivers);
    FrontierSpec(t, rivers);
    near, when := [], [];
    if |nbs| == 0 {
      r := EmptyFrontier;
      return;
    }
    var forests;
    forests, near, when := ForestLoop(t, nbs, roll, dist);
    r := Forests(forests);
  }

  /** The `for (i < 10000)` loop, from a non-empty frontier. */
  method ForestLoop(t: Terrain, frontier: seq<Point>, roll: nat -> real, dist: (Point, Point) -> real)
    returns (forests: seq<Point>, ghost near: seq<Point>, ghost when: seq<nat>)
    requires |frontier| > 0 && forall q :: q in frontier ==> In(t, q)
    ensures forests == Grow(t, roll, dist, frontier, [], 0)
    ensures |forests| <= 10000 && Planted(t, frontier, roll, dist, forests, near, when, 10000)
  {
    var nbs := frontier;
    forests, near, when := [], [], [];
    ghost var goal := Grow(t, roll, dist, frontier, [], 0);
    var i := 0;
    while i < 10000
      invariant |nbs| > 0 && Foresting(t, frontier, roll, dist, nbs, forests, near, when, i)
      invariant Grow(t, roll, dist, nbs, forests, i) == goal
    {
      nbs, forests, near, when := ForestStep(t, frontier, roll, dist, nbs, forests, near, when, i);
      if |nbs| == 0 {
        ForestDone(t, frontier, roll, dist, nbs, forests, near, when, i + 1);
        return;
      }
      i := i + 1;
    }
    ForestDone(t, frontier, roll, dist, nbs, forests, near, when, i);
  }

  /** Once the queue is empty or the iterations are used up, the replay gives the forests planted. */
  lemma ForestDone(t: Terrain, frontier: seq<Point>, roll: nat -> real, dist: (Point, Point) -> real,
                   nbs: seq<Point>, forests: seq<Point>, near: seq<Point>, when: seq<nat>, i: nat)
    requires Foresting(t, frontier, roll, dist, nbs, forests, near, when, i) && (nbs == [] || i == 10000)
    requires Grow(t, roll, dist, nbs, forests, i) == Grow(t, roll, dist, frontier, [], 0)
    ensures forests == Grow(t, roll, dist, frontier, [], 0)
    ensures |forests| <= 10000 && Planted(t, frontier, roll, dist, forests, near, when, 10000)
  {
    PlantedLater(t, frontier, roll, dist, forests, near, when, i, 10000);
  }

  /** The forest loop before iteration `i`: every queued cell may take a forest, and the forests so far are planted. */
  ghost predicate Foresting(t: Terrain, frontier: seq<Point>, roll: nat -> real, dist: (Point, Point) -> real,
                            nbs: seq<Point>, forests: seq<Point>, near: seq<Point>, when: seq<nat>, i: nat)
  {
    && i <= 10000 && |forests| <= i
    && (forall q :: q in nbs ==> Spreads(t, frontier, forests, q))
    && Planted(t, frontier, roll, dist, forests, near, when, i)
  }

  /**
   * One pass of the forest loop up to its exit test: pop the front cell,
   * and plant it and queue its fields exactly when Plants holds; the
   * replay from the new state is the replay from the old one.
   */
  method ForestStep(t: Terrain, ghost frontier: seq<Point>, roll: nat -> real, dist: (Point, Point) -> real,
                    nbs: seq<Point>, forests: seq<Point>, ghost near: seq<Point>, ghost when: seq<nat>, i: nat)
    returns (nbs': seq<Point>, forests': seq<Point>, ghost near': seq<Point>, ghost when': seq<nat>)
    requires |nbs| > 0 && i < 10000 && Foresting(t, frontier, roll, dist, nbs, forests, near, when, i)
    ensures Foresting(t, frontier, roll, dist, nbs', forests', near', when', i + 1)
    ensures Plants(t, roll, dist, forests, nbs[0], i) ==>
      forests' == forests + [nbs[0]] && nbs' == nbs[1..] + NewFields(t, forests', nbs[0])
    ensures !Plants(t, roll, dist, forests, nbs[0], i) ==> forests' == forests && nbs' == nbs[1..]
    ensures Grow(t, roll, dist, nbs', forests', i + 1) == Grow(t, roll, dist, nbs, forests, i)
  {
    var n := nbs[0];
    assert In(t, n) by {
      assert Spreads(t, frontier, forests, n);
    }
    var ok, c := FindClosestElement(t, River, n);
    NearestIs(t, River, n, ok, c);
    var plant := false;
    if ok {
      var chance := ForestChance(t, dist, forests, n, c);
      plant := roll(i) < chance;
    }
    if plant {
      nbs', forests', near', when' := Plant(t, frontier, roll, dist, nbs, forests, near, when, i, c);
    } else {
      nbs', forests', near', when' := nbs[1..], forests, near, when;
      PlantedLater(t, frontier, roll, dist, forests, near, when, i, i + 1);
      assert forall q :: q in nbs[1..] ==> q in nbs;
    }
    GrowUnfold(t, roll, dist, nbs, forests, i, nbs', forests');
  }

  /** The planting branch: record the forest, queue its fields, pop the head. */
  method Plant(t: Terrain, ghost frontier: seq<Point>, roll: nat -> real, dist: (Point, Point) -> real,
               nbs: seq<Point>, forests: seq<Point>, ghost near: seq<Point>, ghost when: seq<nat>, i: nat, c: Point)
    returns (nbs': seq<Point>, forests': seq<Point>, ghost near': seq<Point>, ghost when': seq<nat>)
    requires |nbs| > 0 && i < 10000 && Foresting(t, frontier, roll, dist, nbs, forests, near, when, i)
    requires Holds(t, c, River) && forall q :: Holds(t, q, River) ==> Chebyshev(nbs[0], c) <= Chebyshev(nbs[0], q)
    requires roll(i) < Chance(t, dist, forests, nbs[0], c)
    ensures forests' == forests + [nbs[0]] && nbs' == nbs[1..] + NewFields(t, forests', nbs[0])
    ensures Foresting(t, frontier, roll, dist, nbs', forests', near', when', i + 1)
  {
    var n := nbs[0];
    forests' := forests + [n];
    near', when' := near + [c], when + [i];
    var queued := QueueFields(t, forests', n, nbs);
    nbs' := queued[1..];
    assert nbs' == nbs[1..] + NewFields(t, forests', n);
    PlantKeeps(t, frontier, roll, dist, nbs, forests, near, when, i, c);
  }

  /** Planting the head cell, with nearest river cell `c`, keeps the loop's facts. */
  lemma PlantKeeps(t: Terrain, frontier: seq<Point>, roll: nat -> real, dist: (Point, Point) -> real,
                   nbs: seq<Point>, forests: seq<Point>, near: seq<Point>, when: seq<nat>, i: nat, c: Point)
    requires |nbs| > 0 && i < 10000 && Foresting(t, frontier, roll, dist, nbs, forests, near, when, i)
    requires Holds(t, c, River) && forall q :: Holds(t, q, River) ==> Chebyshev(nbs[0], c) <= Chebyshev(nbs[0], q)
    requires roll(i) < Chance(t, dist, forests, nbs[0], c)
    ensures var n := nbs[0];
      Foresting(t, frontier, roll, dist, nbs[1..] + NewFields(t, forests + [n], n), forests + [n], near + [c], when + [i], i + 1)
  {
    var n := nbs[0];
    assert Spreads(t, frontier, forests, n);
    var near', when' := near + [c], when + [i];
    assert near'[..|forests|] == near && when'[..|forests|] == when;
    PlantedGrows(t, frontier, roll, dist, forests, near', when', i, n, c);
    NewFieldsSpread(t, frontier, forests + [n], n);
    QueueSpreads(t, frontier, forests, n, nbs, NewFields(t, forests + [n], n));
  }

  /** After planting n, the rest of the queue and n's new fields all spread. */
  lemma QueueSpreads(t: Terrain, frontier: seq<Point>, forests: seq<Point>, n: Point,
                     nbs: seq<Point>, fields: seq<Point>)
    requires |nbs| > 0
    requires forall q :: q in nbs ==> Spreads(t, frontier, forests, q)
    requires forall q :: q in fields ==> Spreads(t, frontier, forests + [n], q)
    ensures forall q :: q in nbs[1..] + fields ==> Spreads(t, frontier, forests + [n], q)
  {
    forall q | q in nbs[1..] + fields
      ensures Spreads(t, frontier, forests + [n], q)
    {
      if q in nbs[1..] {
        assert q in nbs;
        SpreadsGrow(t, frontier, forests, n, q);
      }
    }
  }

  /** One unfolding of the replay, matching one iteration of the loop. */
  lemma GrowUnfold(t: Terrain, roll: nat -> real, dist: (Point, Point) -> real,
                   nbs: seq<Point>, forests: seq<Point>, i: nat, nbs': seq<Point>, forests': seq<Point>)
    requires |nbs| > 0 && i < 10000
    requires Plants(t, roll, dist, forests, nbs[0], i) ==>
      forests' == forests + [nbs[0]] && nbs' == nbs[1..] + NewFields(t, forests', nbs[0])
    requires !Plants(t, roll, dist, forests, nbs[0], i) ==> forests' == forests && nbs' == nbs[1..]
    ensures Grow(t, roll, dist, nbs', forests', i + 1) == Grow(t, roll, dist, nbs, forests, i)
  {
  }

  /** A planted list stays planted at any later iteration. */
  lemma PlantedLater(t: Terrain, frontier: seq<Point>, roll: nat -> real, dist: (Point, Point) -> real,
                     forests: seq<Point>, near: seq<Point>, when: seq<nat>, i: nat, i': nat)
    requires Planted(t, frontier, roll, dist, forests, near, when, i) && i <= i'
    ensures Planted(t, frontier, roll, dist, forests, near, when, i')
  {
  }

  lemma SpreadsGrow(t: Terrain, frontier: seq<Point>, placed: seq<Point>, c: Point, q: Point)
    requires Spreads(t, frontier, placed, q)
    ensures Spreads(t, frontier, placed + [c], q)
  {
    if q !in frontier {
      TouchesGrow(placed, c, q);
    }
  }

  lemma PlantedGrows(t: Terrain, frontier: seq<Point>, roll: nat -> real, dist: (Point, Point) -> real,
                     forests: seq<Point>, near: seq<Point>, when: seq<nat>, i: nat, n: Point, c: Point)
    requires |near| == |forests| + 1 && |when| == |forests| + 1
    requires Planted(t, frontier, roll, dist, forests, near[..|forests|], when[..|forests|], i)
    requires near[|forests|] == c && when[|forests|] == i
    requires Spreads(t, frontier, forests, n)
    requires Holds(t, c, River) && forall q :: Holds(t, q, River) ==> Chebyshev(n, c) <= Chebyshev(n, q)
    requires roll(i) < Chance(t, dist, forests, n, c)
    ensures Planted(t, frontier, roll, dist, forests + [n], near, when, i + 1)
  {
    var f' := forests + [n];
    var m := |forests|;
    assert f'[..m] == forests && f'[m] == n;
    forall k | 0 <= k < |f'|
      ensures Spreads(t, frontier, f'[..k], f'[k])
      && roll(when[k]) < Chance(t, dist, f'[..k], f'[k], near[k])
    {
      if k < m {
        assert f'[..k] == forests[..k] && f'[k] == forests[k];
        assert near[k] == near[..m][k] && when[k] == when[..m][k];
      }
    }
    forall k | 0 <= k < |f'|
      ensures when[k] < i + 1 && Holds(t, near[k], River)
      && forall q :: Holds(t, q, River) ==> Chebyshev(f'[k], near[k]) <= Chebyshev(f'[k], q)
    {
      if k < m {
        assert f'[k] == forests[k] && near[k] == near[..m][k] && when[k] == when[..m][k];
      }
    }
    forall k, k' | 0 <= k < k' < |f'| ensures when[k] < when[k'] {
      assert when[k] == when[..m][k];
      if k' < m {
        assert when[k'] == when[..m][k'];
      }
    }
  }

  // ---------------------------------------------------------------------
  // GenerateSettlements.

  /** A settlement site: plains or highlands without a river. */
  predicate Buildable(t: Terrain, q: Point) {
    In(t, q) && (GroundAt(t, q) == Plains || GroundAt(t, q) == HighLands) && River !in ElementsAt(t, q)
  }

  /** The first buildable entry of `s`, or (0, 0). */
  function FirstBuildable(t: Terrain, s: seq<Point>): Point {
    if s == [] then Point(0, 0)
    else if Buildable(t, s[0]) then s[0]
    else FirstBuildable(t, s[1..])
  }

  /** The site tried next to river cell `p`: the lowest buildable 4-neighbour. */
  function Candidate(t: Terrain, p: Point): Point {
    FirstBuildable(t, ExchangeSort(t.heights, StrictNeighbours(p, Width(t), Length(t))))
  }

  /**
   * FirstBuildable is the first buildable entry of `s`, when there is one:
   * it sits at an index `k` and no entry before `k` is buildable. With none
   * it is (0, 0).
   */
  lemma {:induction false} FirstBuildableSpec(t: Terrain, s: seq<Point>)
    ensures (exists q :: q in s && Buildable(t, q)) ==> FirstBuildable(t, s) in s && Buildable(t, FirstBuildable(t, s))
    ensures (exists q :: q in s && Buildable(t, q)) ==>
      exists k :: 0 <= k < |s| && s[k] == FirstBuildable(t, s) && forall j :: 0 <= j < k ==> !Buildable(t, s[j])
    ensures (forall q :: q in s ==> !Buildable(t, q)) ==> FirstBuildable(t, s) == Point(0, 0)
  {
    if s != [] {
      FirstBuildableSpec(t, s[1..]);
      assert forall q :: q in s <==> q == s[0] || q in s[1..];
    }
    if exists q :: q in s && Buildable(t, q) {
      FirstBuildableIndex(t, s);
    }
  }

  lemma {:induction false} FirstBuildableIndex(t: Terrain, s: seq<Point>)
    requires exists q :: q in s && Buildable(t, q)
    ensures exists k :: 0 <= k < |s| && s[k] == FirstBuildable(t, s) && forall j :: 0 <= j < k ==> !Buildable(t, s[j])
  {
    if !Buildable(t, s[0]) {
      assert exists q :: q in s[1..] && Buildable(t, q) by {
        var q :| q in s && Buildable(t, q);
        var i :| 0 <= i < |s| && s[i] == q;
        assert i != 0 && s[1..][i - 1] == q;
      }
      FirstBuildableIndex(t, s[1..]);
      var k :| 0 <= k < |s[1..]| && s[1..][k] == FirstBuildable(t, s[1..])
        && forall j :: 0 <= j < k ==> !Buildable(t, s[1..][j]);
      assert s[k + 1] == FirstBuildable(t, s);
      assert forall j :: 1 <= j < k + 1 ==> s[j] == s[1..][j - 1];
    } else {
      assert s[0] == FirstBuildable(t, s);
    }
  }

  lemma {:induction false} FirstBuildableIsLowest(t: Terrain, s: seq<Point>, q: Point)
    requires SortedBy(t.heights, s) && q in s && Buildable(t, q)
    ensures H(t, FirstBuildable(t, s)) <= H(t, q)
  {
    if !Buildable(t, s[0]) {
      assert q in s[1..];
      assert SortedBy(t.heights, s[1..]);
      FirstBuildableIsLowest(t, s[1..], q);
    } else {
      SortedFirstIsLowest(t.heights, s, q);
    }
  }

  /**
   * With some buildable 4-neighbour of `p`, the candidate is one and no other
   * is lower; with none, the candidate is (0, 0).
   */
  lemma CandidateSpec(t: Terrain, p: Point)
    ensures (exists q :: Buildable(t, q) && Adjacent4(p, q)) ==>
      Buildable(t, Candidate(t, p)) && Adjacent4(p, Candidate(t, p))
      && forall q :: Buildable(t, q) && Adjacent4(p, q) ==> H(t, Candidate(t, p)) <= H(t, q)
    ensures (forall q :: Buildable(t, q) ==> !Adjacent4(p, q)) ==> Candidate(t, p) == Point(0, 0)
  {
    var sn := StrictNeighbours(p, Width(t), Length(t));
    var sorted := ExchangeSort(t.heights, sn);
    StrictNeighboursSpec(p, Width(t), Length(t));
    ExchangeSortSorts(t.heights, sn);
    assert forall q :: q in sorted <==> q in sn by {
      forall q ensures q in sorted <==> q in sn {
        assert q in sorted <==> q in multiset(sorted);
        assert q in sn <==> q in multiset(sn);
      }
    }
    FirstBuildableSpec(t, sorted);
    forall q | Buildable(t, q) && Adjacent4(p, q)
      ensures H(t, Candidate(t, p)) <= H(t, q)
    {
      FirstBuildableIsLowest(t, sorted, q);
    }
  }

  /** The candidate loop: the first neighbour that is plains or highlands and has no river. */
  method FindSite(t: Terrain, nbs: seq<Point>) returns (site: Point)
    ensures site == FirstBuildable(t, nbs)
  {
    site := Point(0, 0);
    var j := 0;
    while j < |nbs|
      invariant 0 <= j <= |nbs|
      invariant FirstBuildable(t, nbs) == FirstBuildable(t, nbs[j..])
    {
      assert nbs[j..][1..] == nbs[j + 1..];
      if Buildable(t, nbs[j]) {
        site := nbs[j];
        return;
      }
      j := j + 1;
    }
  }

  /** Slopes and mountains count as stone. */
  predicate IsStone(t: Terrain, q: Point) {
    In(t, q) && (GroundAt(t, q) == Slopes || GroundAt(t, q) == Mountains)
  }

  /** Plains and highlands with neither river nor forest make a field. */
  predicate IsField(t: Terrain, q: Point) {
    && In(t, q) && (GroundAt(t, q) == Plains || GroundAt(t, q) == HighLands)
    && River !in ElementsAt(t, q) && Forest !in ElementsAt(t, q)
  }

  /** The disk cell at offset (x, y) from `c`, if x*x + y*y <= 16 (Vector2.Distance <= 4). */
  function DiskCell(c: Point, x: int, y: int): seq<Point> {
    if x * x + y * y <= 16 then [Point(c.x + x, c.y + y)] else []
  }

  /**
   * The disk cells the scan over x, y in [-4, 4] visits before reaching
   * (x, y), in scan order; y == 5 stands for a finished row.
   */
  function DiskTo(c: Point, x: int, y: int): seq<Point>
    requires -4 <= x <= 5 && -4 <= y <= 5
    decreases x + 4, y + 4
  {
    if y > -4 then DiskTo(c, x, y - 1) + DiskCell(c, x, y - 1)
    else if x > -4 then DiskTo(c, x - 1, 5)
    else []
  }

  /** The whole disk of radius 4 around `c`. */
  function Disk(c: Point): seq<Point> { DiskTo(c, 4, 5) }

  function FieldsOf(t: Terrain, s: seq<Point>): seq<Point> {
    if s == [] then []
    else FieldsOf(t, s[..|s| - 1]) + (if IsField(t, s[|s| - 1]) then [s[|s| - 1]] else [])
  }

  function StonesOf(t: Terrain, s: seq<Point>): nat {
    if s == [] then 0
    else StonesOf(t, s[..|s| - 1]) + (if IsStone(t, s[|s| - 1]) then 1 else 0)
  }

  /** A site is accepted with some stone and at least four fields in its disk. */
  predicate Suitable(t: Terrain, c: Point) {
    StonesOf(t, Disk(c)) > 0 && |FieldsOf(t, Disk(c))| >= 4
  }

  lemma FilterStep(t: Terrain, s: seq<Point>, v: seq<Point>)
    requires |v| <= 1
    ensures FieldsOf(t, s + v) == FieldsOf(t, s) + FieldsOf(t, v)
    ensures StonesOf(t, s + v) == StonesOf(t, s) + StonesOf(t, v)
  {
    if |v| == 1 {
      assert (s + v)[..|s|] == s;
      assert v[..0] == [];
    } else {
      assert s + v == s;
    }
  }

  /** The disk loops: counts stone cells and lists field cells, in scan order. */
  method SurveyDisk(t: Terrain, c: Point) returns (stones: nat, fields: seq<Point>)
    ensures stones == StonesOf(t, Disk(c)) && fields == FieldsOf(t, Disk(c))
  {
    stones, fields := 0, [];
    var x := -4;
    while x < 5
      invariant -4 <= x <= 5
      invariant stones == StonesOf(t, DiskTo(c, x, -4)) && fields == FieldsOf(t, DiskTo(c, x, -4))
    {
      var y := -4;
      while y < 5
        invariant -4 <= y <= 5
        invariant stones == StonesOf(t, DiskTo(c, x, y)) && fields == FieldsOf(t, DiskTo(c, x, y))
      {
        stones, fields := ScanCell(t, c, x, y, stones, fields);
        y := y + 1;
      }
      x := x + 1;
    }
  }

  /** The body of the disk loops at offset (x, y): one more cell of the scan is counted. */
  method ScanCell(t: Terrain, c: Point, x: int, y: int, stones: nat, fields: seq<Point>) returns (stones': nat, fields': seq<Point>)
    requires -4 <= x <= 4 && -4 <= y <= 4
    requires stones == StonesOf(t, DiskTo(c, x, y)) && fields == FieldsOf(t, DiskTo(c, x, y))
    ensures stones' == StonesOf(t, DiskTo(c, x, y + 1)) && fields' == FieldsOf(t, DiskTo(c, x, y + 1))
  {
    stones', fields' := stones, fields;
    var q := Point(x + c.x, y + c.y);
    FilterStep(t, DiskTo(c, x, y), DiskCell(c, x, y));
    if x * x + y * y <= 16 && In(t, q) {
      match GroundAt(t, q)
      case Slopes => stones' := stones + 1;
      case Mountains => stones' := stones + 1;
      case Plains =>
        if River !in ElementsAt(t, q) && Forest !in ElementsAt(t, q) {
          fields' := fields + [q];
        }
      case HighLands =>
        if River !in ElementsAt(t, q) && Forest !in ElementsAt(t, q) {
          fields' := fields + [q];
        }
      case _ =>
    }
  }

  /** The cells the disk scan visits before (x, y) are exactly the disk cells with earlier offsets. */
  lemma {:induction false} DiskToSpec(c: Point, q: Point, x: int, y: int)
    requires -4 <= x <= 5 && -4 <= y <= 5
    ensures var a, b := q.x - c.x, q.y - c.y;
      q in DiskTo(c, x, y) <==>
        -4 <= a <= 4 && -4 <= b <= 4 && a * a + b * b <= 16 && (a < x || (a == x && b < y))
    decreases x + 4, y + 4
  {
    if y > -4 {
      DiskToSpec(c, q, x, y - 1);
    } else if x > -4 {
      DiskToSpec(c, q, x - 1, 5);
    }
  }

  /** A square is non-negative, and at most 16 only for offsets in [-4, 4]. */
  lemma SquareBound(a: int)
    ensures a * a >= 0
    ensures a * a <= 16 ==> -4 <= a <= 4
  {
    if a < 0 {
      assert a * a == (-a) * (-a);
    }
  }

  lemma InDisk(c: Point, q: Point)
    ensures q in Disk(c) <==> SqDist(c, q) <= 16
  {
    var a, b := q.x - c.x, q.y - c.y;
    DiskToSpec(c, q, 4, 5);
    assert SqDist(c, q) == a * a + b * b;
    SquareBound(a);
    SquareBound(b);
  }

  /** The disk is every cell within Euclidean distance 4 of `c`. */
  lemma DiskSpec(c: Point)
    ensures forall q :: q in Disk(c) <==> SqDist(c, q) <= 16
  {
    forall q ensures q in Disk(c) <==> SqDist(c, q) <= 16 {
      InDisk(c, q);
    }
  }

  lemma {:induction false} FieldsOfSpec(t: Terrain, s: seq<Point>)
    ensures forall q :: q in FieldsOf(t, s) <==> q in s && IsField(t, q)
  {
    if s != [] {
      FieldsOfSpec(t, s[..|s| - 1]);
      assert s == s[..|s| - 1] + [s[|s| - 1]];
    }
  }

  lemma {:induction false} StonesOfSpec(t: Terrain, s: seq<Point>)
    ensures StonesOf(t, s) == 0 <==> forall q :: q in s ==> !IsStone(t, q)
  {
    if s != [] {
      StonesOfSpec(t, s[..|s| - 1]);
      assert s == s[..|s| - 1] + [s[|s| - 1]];
    }
  }

  /**
   * What the disk test means: the fields are the field cells within distance
   * 4 of `c`, and there is stone exactly when some stone cell lies that close.
   */
  lemma SurveySpec(t: Terrain, c: Point)
    ensures forall q :: q in FieldsOf(t, Disk(c)) <==> IsField(t, q) && SqDist(c, q) <= 16
    ensures StonesOf(t, Disk(c)) > 0 <==> exists q :: IsStone(t, q) && SqDist(c, q) <= 16
  {
    DiskSpec(c);
    FieldsOfSpec(t, Disk(c));
    StonesOfSpec(t, Disk(c));
  }

  /** The settlements, or the crash of drawing from an empty river list. */
  datatype SettleResult = Settlements(sites: seq<Point>) | NoRivers

  /** The site accepted next to river cell `p`, if any: its candidate, when suitable. */
  function Pick(t: Terrain, p: Point): seq<Point> {
    var c := Candidate(t, p);
    if Suitable(t, c) then [c] else []
  }

  function Picker(t: Terrain): Point -> seq<Point> { p => Pick(t, p) }

  /** The sites `pick` gives for `p`. */
  function Take(pick: Point -> seq<Point>, p: Point): seq<Point> { pick(p) }

  lemma PickerTakes(t: Terrain, p: Point)
    ensures Take(Picker(t), p) == Pick(t, p)
  {
  }

  /**
   * The settlement loop from draw `k` on, with the sites `placed` so far and
   * `need` settlements still wanted: stop once none is wanted or the list is
   * empty; otherwise draw a river cell, take the sites `pick` gives for it,
   * remove the drawn cell and go on. Returns the sites and what is left of
   * the list.
   */
  function Settle(pick: Point -> seq<Point>, rivers: seq<Point>, draw: nat -> nat, k: nat, need: int, placed: seq<Point>): (seq<Point>, seq<Point>)
    decreases |rivers|
  {
    if need <= 0 || |rivers| == 0 then (placed, rivers)
    else
      var p := rivers[Reduce(draw(k), |rivers|)];
      Settle(pick, RemoveValue(rivers, p), draw, k + 1, need - |Take(pick, p)|, placed + Take(pick, p))
  }

  /**
   * What the loop guarantees, for `sites` and `left` as it returns them: the
   * sites already placed stay in front; at most `need` new ones follow, each
   * picked for one of the river cells; the list only loses entries; and the
   * loop ends with enough sites or an empty list.
   */
  ghost predicate SettleFacts(pick: Point -> seq<Point>, rivers: seq<Point>, need: int, placed: seq<Point>, sites: seq<Point>, left: seq<Point>) {
    && |placed| <= |sites| <= |placed| + need && sites[..|placed|] == placed
    && (|sites| == |placed| + need || left == [])
    && (forall c :: c in sites[|placed|..] ==> exists p :: p in rivers && c in Take(pick, p))
    && multiset(left) <= multiset(rivers) && |left| <= |rivers|
  }

  /**
   * SettleFacts hold of the loop when each draw yields at most one site, and
   * a loop that draws at all shortens the list.
   */
  lemma {:induction false} SettleSpec(pick: Point -> seq<Point>, rivers: seq<Point>, draw: nat -> nat, k: nat, need: int, placed: seq<Point>)
    requires need >= 0
    requires forall p :: |Take(pick, p)| <= 1
    ensures var r := Settle(pick, rivers, draw, k, need, placed);
      SettleFacts(pick, rivers, need, placed, r.0, r.1) && (need > 0 && rivers != [] ==> |r.1| < |rivers|)
    decreases |rivers|, 1
  {
    if need > 0 && rivers != [] {
      SettleNext(pick, rivers, draw, k, need, placed);
    } else {
      assert placed[|placed|..] == [];
    }
  }

  /** SettleSpec for a loop that makes at least one more draw. */
  lemma {:induction false} SettleNext(pick: Point -> seq<Point>, rivers: seq<Point>, draw: nat -> nat, k: nat, need: int, placed: seq<Point>)
    requires need > 0 && rivers != []
    requires forall p :: |Take(pick, p)| <= 1
    ensures var r := Settle(pick, rivers, draw, k, need, placed);
      SettleFacts(pick, rivers, need, placed, r.0, r.1) && |r.1| < |rivers|
    decreases |rivers|, 0
  {
    var p := rivers[Reduce(draw(k), |rivers|)];
    var here := Take(pick, p);
    var rest := RemoveValue(rivers, p);
    var r := Settle(pick, rest, draw, k + 1, need - |here|, placed + here);
    assert Settle(pick, rivers, draw, k, need, placed) == r by {
      SettleOnce(pick, rivers, draw, k, need, placed, p);
    }
    assert SettleFacts(pick, rivers, need, placed, r.0, r.1) && |r.1| < |rivers| by {
      RemoveValueCounts(rivers, p);
      SettleSpec(pick, rest, draw, k + 1, need - |here|, placed + here);
      SettleFactsExtend(pick, rivers, rest, p, need, placed, r.0, r.1);
    }
  }

  /** SettleFacts for the loop after drawing `p` give SettleFacts for the loop before. */
  lemma SettleFactsExtend(pick: Point -> seq<Point>, rivers: seq<Point>, rest: seq<Point>, p: Point, need: int,
                          placed: seq<Point>, sites: seq<Point>, left: seq<Point>)
    requires p in rivers && multiset(rest) == multiset(rivers) - multiset{p} && |rest| == |rivers| - 1
    requires need > 0 && |Take(pick, p)| <= 1
    requires SettleFacts(pick, rest, need - |Take(pick, p)|, placed + Take(pick, p), sites, left)
    ensures SettleFacts(pick, rivers, need, placed, sites, left) && |left| < |rivers|
  {
    var here := Take(pick, p);
    PrefixSplit(placed, here, sites);
    SitesFromRivers(pick, rivers, rest, p, sites[|placed + here|..]);
  }

  /** One draw of a loop that goes on: the loop after drawing `p`. */
  lemma SettleOnce(pick: Point -> seq<Point>, rivers: seq<Point>, draw: nat -> nat, k: nat, need: int, placed: seq<Point>, p: Point)
    requires need > 0 && rivers != [] && p == rivers[Reduce(draw(k), |rivers|)]
    ensures Settle(pick, rivers, draw, k, need, placed)
      == Settle(pick, RemoveValue(rivers, p), draw, k + 1, need - |Take(pick, p)|, placed + Take(pick, p))
  {
  }

  /** A list that starts with `placed + here`: its part after `placed` is `here` and then the rest. */
  lemma PrefixSplit(placed: seq<Point>, here: seq<Point>, sites: seq<Point>)
    requires |placed + here| <= |sites| && sites[..|placed + here|] == placed + here
    ensures sites[..|placed|] == placed
    ensures sites[|placed|..] == here + sites[|placed + here|..]
  {
    assert sites[..|placed|] == (placed + here)[..|placed|];
  }

  /** Sites picked for `p` and then for cells of a sub-list are all picked for cells of the list. */
  lemma SitesFromRivers(pick: Point -> seq<Point>, rivers: seq<Point>, rest: seq<Point>, p: Point, tail: seq<Point>)
    requires p in rivers && multiset(rest) <= multiset(rivers)
    requires forall c :: c in tail ==> exists p' :: p' in rest && c in Take(pick, p')
    ensures forall c :: c in Take(pick, p) + tail ==> exists p' :: p' in rivers && c in Take(pick, p')
  {
    forall c | c in Take(pick, p) + tail
      ensures exists p' :: p' in rivers && c in Take(pick, p')
    {
      if c !in Take(pick, p) {
        var p' :| p' in rest && c in Take(pick, p');
        assert multiset(rest)[p'] > 0;
      }
    }
  }

  /** The river cells the loop draws, in draw order. */
  function Drawn(pick: Point -> seq<Point>, rivers: seq<Point>, draw: nat -> nat, k: nat, need: int): seq<Point>
    decreases |rivers|, 1
  {
    if need <= 0 || |rivers| == 0 then []
    else
      var p := rivers[Reduce(draw(k), |rivers|)];
      [p] + DrawnAfter(pick, rivers, draw, k, need, p)
  }

  /** The cells drawn after `p` is drawn from `rivers`. */
  function DrawnAfter(pick: Point -> seq<Point>, rivers: seq<Point>, draw: nat -> nat, k: nat, need: int, p: Point): seq<Point>
    requires p in rivers
    decreases |rivers|, 0
  {
    Drawn(pick, RemoveValue(rivers, p), draw, k + 1, need - |Take(pick, p)|)
  }

  /** The sites `pick` gives for each cell of `ds`, in order. */
  function TakeAll(pick: Point -> seq<Point>, ds: seq<Point>): seq<Point> {
    if ds == [] then [] else Take(pick, ds[0]) + TakeAll(pick, ds[1..])
  }

  /**
   * Each draw removes the drawn cell from the list once: what is left and
   * what was drawn make up the list, copy for copy. The sites are the
   * picks of the drawn cells, in draw order, after those placed before.
   */
  lemma {:induction false} DrawnSpec(pick: Point -> seq<Point>, rivers: seq<Point>, draw: nat -> nat, k: nat, need: int, placed: seq<Point>)
    ensures var r := Settle(pick, rivers, draw, k, need, placed);
      multiset(r.1) + multiset(Drawn(pick, rivers, draw, k, need)) == multiset(rivers)
      && r.0 == placed + TakeAll(pick, Drawn(pick, rivers, draw, k, need))
    decreases |rivers|
  {
    if need > 0 && rivers != [] {
      var p := rivers[Reduce(draw(k), |rivers|)];
      var here := Take(pick, p);
      var rest := RemoveValue(rivers, p);
      var need' := need - |here|;
      var d := Drawn(pick, rest, draw, k + 1, need');
      var r := Settle(pick, rest, draw, k + 1, need', placed + here);
      assert Settle(pick, rivers, draw, k, need, placed) == r by {
        SettleOnce(pick, rivers, draw, k, need, placed, p);
      }
      assert Drawn(pick, rivers, draw, k, need) == [p] + d by {
        DrawnOnce(pick, rivers, draw, k, need, p);
      }
      assert multiset(r.1) + multiset([p] + d) == multiset(rivers) && r.0 == placed + TakeAll(pick, [p] + d) by {
        DrawnSpec(pick, rest, draw, k + 1, need', placed + here);
        RemoveValueCounts(rivers, p);
        DrawnStep(rivers, rest, p, d, r.1);
        TakeAllCons(pick, p, d);
        Regroup(placed, here, TakeAll(pick, d), r.0);
      }
    } else {
      assert placed + [] == placed;
    }
  }

  lemma DrawnOnce(pick: Point -> seq<Point>, rivers: seq<Point>, draw: nat -> nat, k: nat, need: int, p: Point)
    requires need > 0 && rivers != [] && p == rivers[Reduce(draw(k), |rivers|)]
    ensures Drawn(pick, rivers, draw, k, need) == [p] + Drawn(pick, RemoveValue(rivers, p), draw, k + 1, need - |Take(pick, p)|)
  {
    assert Drawn(pick, rivers, draw, k, need) == [p] + DrawnAfter(pick, rivers, draw, k, need, p);
  }

  /** The count of one draw, of `p`, on top of the count for the rest of the loop. */
  lemma DrawnStep(rivers: seq<Point>, rest: seq<Point>, p: Point, d: seq<Point>, left: seq<Point>)
    requires p in rivers && multiset(rest) == multiset(rivers) - multiset{p}
    requires multiset(left) + multiset(d) == multiset(rest)
    ensures multiset(left) + multiset([p] + d) == multiset(rivers)
  {
    assert multiset([p] + d) == multiset{p} + multiset(d);
    assert multiset(rivers) == multiset(rivers) - multiset{p} + multiset{p} by {
      assert multiset(rivers)[p] > 0;
    }
  }

  lemma Regroup(a: seq<Point>, b: seq<Point>, c: seq<Point>, s: seq<Point>)
    requires s == (a + b) + c
    ensures s == a + (b + c)
  {
  }

  lemma TakeAllCons(pick: Point -> seq<Point>, p: Point, d: seq<Point>)
    ensures TakeAll(pick, [p] + d) == Take(pick, p) + TakeAll(pick, d)
  {
    assert ([p] + d)[1..] == d;
  }

  /** Every settlement is a suitable site next to some river cell of the original list. */
  lemma SettlementsSpec(t: Terrain, rivers: seq<Point>, draw: nat -> nat, need: int)
    requires rivers != [] && need > 0
    ensures var (sites, left) := Settle(Picker(t), rivers, draw, 0, need, []);
      && |sites| <= need && (|sites| == need || left == [])
      && (forall c :: c in sites ==> Suitable(t, c) && exists p :: p in rivers && c == Candidate(t, p))
      && multiset(left) <= multiset(rivers)
  {
    forall p ensures Take(Picker(t), p) == Pick(t, p) {
      PickerTakes(t, p);
    }
    SettleSpec(Picker(t), rivers, draw, 0, need, []);
    assert Settle(Picker(t), rivers, draw, 0, need, []).0[0..] == Settle(Picker(t), rivers, draw, 0, need, []).0;
  }

  /**
   * GenerateSettlements: up to `amount` sites; a rejected draw is retried
   * (i--) with the drawn cell removed from the caller's list either way.
   * `draw(k)` is the k-th Random.Range draw, reduced modulo the list length.
   */
  method GenerateSettlements(t: Terrain, amount: int, rivers: seq<Point>, draw: nat -> nat)
    returns (r: SettleResult, rivers': seq<Point>)
    ensures amount <= 0 ==> r == Settlements([]) && rivers' == rivers
    ensures amount > 0 && rivers == [] ==> r == NoRivers && rivers' == rivers
    ensures amount > 0 && rivers != [] ==>
      r == Settlements(Settle(Picker(t), rivers, draw, 0, amount, []).0)
      && rivers' == Settle(Picker(t), rivers, draw, 0, amount, []).1
  {
    rivers' := rivers;
    if amount <= 0 {
      r := Settlements([]);
      return;
    }
    if rivers == [] {
      r := NoRivers;
      return;
    }
    var settlements: seq<Point> := [];
    var k: nat := 0;
    var i := 0;
    while i < amount
      invariant rivers' != [] && Settling(t, rivers, draw, amount, settlements, rivers', k, i)
      decreases |rivers'|
    {
      settlements, rivers', k, i := SettleStep(t, rivers, draw, amount, settlements, rivers', k, i);
      if |rivers'| == 0 {
        break;
      }
      i := i + 1;
    }
    r := Settlements(settlements);
  }

  /**
   * The settlement loop after `i` accepted sites, with `left` the river
   * cells not yet drawn and `k` draws made: the rest of the loop yields
   * what the whole loop does.
   */
  ghost predicate Settling(t: Terrain, rivers: seq<Point>, draw: nat -> nat, amount: int, placed: seq<Point>, left: seq<Point>, k: nat, i: int) {
    SettlingWith(Picker(t), rivers, draw, amount, placed, left, k, i)
  }

  ghost predicate SettlingWith(pick: Point -> seq<Point>, rivers: seq<Point>, draw: nat -> nat, amount: int, placed: seq<Point>, left: seq<Point>, k: nat, i: int) {
    && rivers != [] && amount > 0 && 0 <= i <= amount && i == |placed|
    && Settle(pick, rivers, draw, 0, amount, []) == Settle(pick, left, draw, k, amount - i, placed)
  }

  /** One draw, of `p`, keeps the loop on its course. */
  lemma SettlingAdvance(pick: Point -> seq<Point>, rivers: seq<Point>, draw: nat -> nat, amount: int, placed: seq<Point>, left: seq<Point>, k: nat, i: int,
                        p: Point, placed': seq<Point>, left': seq<Point>, i': int)
    requires SettlingWith(pick, rivers, draw, amount, placed, left, k, i) && left != [] && i < amount
    requires p == left[Reduce(draw(k), |left|)] && |Take(pick, p)| <= 1
    requires placed' == placed + Take(pick, p) && left' == RemoveValue(left, p) && i' + 1 == i + |Take(pick, p)|
    ensures SettlingWith(pick, rivers, draw, amount, placed', left', k + 1, i' + 1)
  {
    SettleOnce(pick, left, draw, k, amount - i, placed, p);
  }

  /**
   * One pass of the settlement loop up to its exit test: draw, try the site,
   * keep it or step `i` back, and remove the drawn river cell.
   */
  method SettleStep(t: Terrain, rivers: seq<Point>, draw: nat -> nat, amount: int, placed: seq<Point>, left: seq<Point>, k: nat, i: int)
    returns (placed': seq<Point>, left': seq<Point>, k': nat, i': int)
    requires left != [] && i < amount && Settling(t, rivers, draw, amount, placed, left, k, i)
    ensures Settling(t, rivers, draw, amount, placed', left', k', i' + 1) && |left'| < |left|
  {
    var riverPoint, settlement, accepted := TrySite(t, left, draw, k);
    PickerTakes(t, riverPoint);
    placed', i' := placed, i;
    if !accepted {
      i' := i - 1;
      assert placed' == placed + [];
    } else {
      placed' := placed + [settlement];
    }
    left' := RemoveValue(left, riverPoint);
    k' := k + 1;
    SettlingAdvance(Picker(t), rivers, draw, amount, placed, left, k, i, riverPoint, placed', left', i');
  }

  /** The body of one settlement draw up to the accept test. */
  method TrySite(t: Terrain, left: seq<Point>, draw: nat -> nat, k: nat) returns (riverPoint: Point, settlement: Point, accepted: bool)
    requires left != []
    ensures riverPoint == left[Reduce(draw(k), |left|)]
    ensures Pick(t, riverPoint) == if accepted then [settlement] else []
  {
    riverPoint := left[Reduce(draw(k), |left|)];
    var neighbours := GetSiteNeighbours(t, riverPoint);
    settlement := FindSite(t, neighbours);
    var stoneNumber, fields := SurveyDisk(t, settlement);
    accepted := !(stoneNumber <= 0 || |fields| < 4);
  }

  /** GetLowestStrictNeighbour on the grid's own heights. */
  method GetSiteNeighbours(t: Terrain, p: Point) returns (nbs: seq<Point>)
    ensures nbs == ExchangeSort(t.heights, StrictNeighbours(p, Width(t), Length(t)))
  {
    StrictNeighboursSpec(p, Width(t), Length(t));
    nbs := GetLowestStrictNeighbour(p, t.heights, t.heights);
  }
}
