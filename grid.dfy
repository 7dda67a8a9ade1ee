/**
 * The world grid (Grid.cs): a W x L array of cells, the height map read off
 * it, bounds-checked cell lookup, and the A*-style path search between two
 * cells over non-water ground.
 */
module Grid {
  import opened Geometry
  import opened CellData
  import opened Terrain
  import opened HeightMapService

  /**
   * gCost of a cell, for the only values the search ever stores: infinity
   * before the cell is reached, 1 for an orthogonal and sqrt 2 for a
   * diagonal step from the cell's predecessor.
   */
  datatype Step = Unreached | Orthogonal | Diagonal

  /** The step cost of moving from `p` to its 8-neighbour `q`. */
  function StepTo(p: Point, q: Point): Step {
    if p.x == q.x || p.y == q.y then Orthogonal else Diagonal
  }

  /**
   * `fDist < fCost[n]`: only the heuristic (same on both sides) and the
   * step cost enter, so a new step improves exactly when the cell was
   * unreached or a diagonal step is replaced by an orthogonal one.
   */
  predicate Improves(was: Step, now: Step) {
    was == Unreached || (was == Diagonal && now == Orthogonal)
  }

  /** What GetPath returns: a path, null, or (Diverged) the reconstruction loop never ends. */
  datatype PathResult = Found(path: seq<Point>) | NoPath | Diverged

  /**
   * A walk from `start` to `end` the search can take: king moves, every cell
   * after `start` in bounds and not water.
   */
  ghost predicate IsWalk(t: Terrain, path: seq<Point>, start: Point, end: Point) {
    && |path| >= 2 && path[0] == start && path[|path| - 1] == end
    && (forall k :: 0 <= k < |path| - 1 ==> Adjacent8(path[k], path[k + 1]))
    && (forall k :: 1 <= k < |path| ==> In(t, path[k]) && !IsWater(t, path[k]))
  }

  ghost predicate Connected(t: Terrain, start: Point, end: Point) {
    exists path :: IsWalk(t, path, start, end)
  }

  /** The entries of `s` that are not water, in order. */
  function Dry(t: Terrain, s: seq<Point>): seq<Point> {
    if s == [] then []
    else
      var last := s[|s| - 1];
      Dry(t, s[..|s| - 1]) + (if Wet(t, last) then [] else [last])
  }

  lemma {:induction false} DryMembers(t: Terrain, s: seq<Point>)
    ensures forall q :: q in Dry(t, s) <==> q in s && !Wet(t, q)
  {
    if s != [] {
      DryMembers(t, s[..|s| - 1]);
      assert s == s[..|s| - 1] + [s[|s| - 1]];
    }
  }

  /** `s` with `v` appended unless it is already there (Contains, then Add). */
  function AddOnce(s: seq<Point>, v: Point): (r: seq<Point>)
    ensures Distinct(s) ==> Distinct(r)
    ensures forall q :: q in r <==> q in s || q == v
  {
    if v in s then s else s + [v]
  }

  /** Every in-bounds cell has its step recorded against the ghost sets of reached and orthogonally reached cells. */
  ghost predicate Tracks(t: Terrain, step: array2<Step>, reached: set<Point>, orth: set<Point>)
    reads step
  {
    && step.Length0 == Width(t) && step.Length1 == Length(t)
    && orth <= reached
    && (forall p :: p in reached ==> In(t, p))
    && (forall i, j :: 0 <= i < Width(t) && 0 <= j < Length(t) ==>
          (step[i, j] != Unreached <==> Point(i, j) in reached)
          && (step[i, j] == Orthogonal <==> Point(i, j) in orth))
  }

  /**
   * Every reached cell is dry ground next to its recorded predecessor, which
   * is `start` or reached itself.
   */
  ghost predicate Parents(t: Terrain, cameFrom: array2<Point>, start: Point, reached: set<Point>)
    reads cameFrom
  {
    && cameFrom.Length0 == Width(t) && cameFrom.Length1 == Length(t)
    && (forall p :: p in reached ==> In(t, p) && !IsWater(t, p))
    && forall p {:trigger cameFrom[p.x, p.y]} :: p in reached ==>
         && Adjacent8(cameFrom[p.x, p.y], p)
         && (cameFrom[p.x, p.y] == start || cameFrom[p.x, p.y] in reached)
  }

  /** `route` holds, for every reached cell, a walk to it from `start`. */
  ghost predicate Routes(t: Terrain, start: Point, reached: set<Point>, route: map<Point, seq<Point>>) {
    forall p :: p in reached ==> p in route && IsWalk(t, route[p], start, p)
  }

  /** Every dry neighbour of the expanded cell `p` has been reached, and none of them is `end`. */
  ghost predicate Settled(t: Terrain, p: Point, reached: set<Point>, end: Point) {
    forall q :: q in MooreNeighbours(p, Width(t), Length(t)) && In(t, q) && !IsWater(t, q) ==>
      q in reached && q != end
  }

  /** The search's termination measure. */
  ghost function Potential(t: Terrain, reached: set<Point>, orth: set<Point>, open: seq<Point>): nat {
    var all := AllCells(Width(t), Length(t));
    |all - reached| + |all - orth| + |open|
  }

  /** A route extended by one dry step is a walk to the new cell. */
  lemma ExtendWalk(t: Terrain, path: seq<Point>, start: Point, p: Point, q: Point)
    requires IsWalk(t, path, start, p)
    requires Adjacent8(p, q) && In(t, q) && !IsWater(t, q)
    ensures IsWalk(t, path + [q], start, q)
  {
    var r := path + [q];
    forall k | 0 <= k < |r| - 1 ensures Adjacent8(r[k], r[k + 1]) {
      if k < |path| - 1 {
        assert r[k] == path[k] && r[k + 1] == path[k + 1];
      }
    }
  }

  /**
   * Index of the open cell closest to `end`: the first of the closest ones,
   * as the scan with a strict comparison picks.
   */
  method SelectCurrent(open: seq<Point>, end: Point) returns (k: nat)
    requires |open| > 0
    ensures k < |open|
    ensures forall i :: 0 <= i < |open| ==> SqDist(open[k], end) <= SqDist(open[i], end)
    ensures forall i :: 0 <= i < k ==> SqDist(open[i], end) > SqDist(open[k], end)
  {
    k := 0;
    var i := 1;
    while i < |open|
      invariant 1 <= i <= |open| && k < i
      invariant forall m :: 0 <= m < i ==> SqDist(open[k], end) <= SqDist(open[m], end)
      invariant forall m :: 0 <= m < k ==> SqDist(open[m], end) > SqDist(open[k], end)
    {
      if SqDist(open[i], end) < SqDist(open[k], end) {
        k := i;
      }
      i := i + 1;
    }
  }

  /**
   * The water-removal loop: the dry neighbours stay, in order; every water
   * neighbour ends up in the closed list, which only grows.
   */
  method DropWater(t: Terrain, nbs: seq<Point>, closed: seq<Point>) returns (walk: seq<Point>, closed': seq<Point>)
    requires forall q :: q in nbs ==> In(t, q)
    ensures walk == Dry(t, nbs)
    ensures |closed| <= |closed'| && closed'[..|closed|] == closed
    ensures forall q :: q in nbs && Wet(t, q) ==> q in closed'
    ensures forall q :: q in closed' ==> q in closed || (q in nbs && Wet(t, q))
  {
    walk := nbs;
    closed' := closed;
    ghost var g := 0;
    var i := 0;
    while i < |walk|
      invariant Dropping(t, nbs, closed, walk, closed', i, g)
      decreases |nbs| - g
    {
      walk, closed', i := DropOne(t, nbs, closed, walk, closed', i, g);
      g := g + 1;
    }
    assert nbs[..g] == nbs;
  }

  /** The water-removal loop after `g` neighbours, `i` of them kept. */
  ghost predicate Dropping(t: Terrain, nbs: seq<Point>, closed: seq<Point>, walk: seq<Point>, closed': seq<Point>, i: int, g: int) {
    && 0 <= g <= |nbs| && 0 <= i <= |walk|
    && i == |Dry(t, nbs[..g])|
    && walk == Dry(t, nbs[..g]) + nbs[g..]
    && |walk| == i + |nbs| - g
    && |closed| <= |closed'| && closed'[..|closed|] == closed
    && (forall k :: 0 <= k < g && Wet(t, nbs[k]) ==> nbs[k] in closed')
    && (forall q :: q in closed' ==> q in closed || (q in nbs && Wet(t, q)))
  }

  /** One pass of the water-removal loop: neighbour `g`, at index `i`, is dropped if it is water. */
  method DropOne(t: Terrain, nbs: seq<Point>, closed: seq<Point>, walk: seq<Point>, closed': seq<Point>, i: int, ghost g: int)
    returns (walk': seq<Point>, closed'': seq<Point>, i': int)
    requires Dropping(t, nbs, closed, walk, closed', i, g) && i < |walk|
    ensures Dropping(t, nbs, closed, walk', closed'', i', g + 1)
  {
    DryStep(t, nbs, g);
    ghost var kept := Dry(t, nbs[..g]);
    SplitAt(kept, nbs[g..]);
    assert nbs[g..][0] == nbs[g] && nbs[g..][1..] == nbs[g + 1..];
    closed'' := closed';
    if Wet(t, walk[i]) {
      if walk[i] !in closed' {
        closed'' := closed' + [walk[i]];
      }
      walk' := walk[..i] + walk[i + 1..];
      i' := i;
    } else {
      walk' := walk;
      i' := i + 1;
    }
  }

  lemma DryStep(t: Terrain, nbs: seq<Point>, g: nat)
    requires g < |nbs|
    ensures Dry(t, nbs[..g + 1]) == Dry(t, nbs[..g]) + (if Wet(t, nbs[g]) then [] else [nbs[g]])
  {
    assert nbs[..g + 1][..g] == nbs[..g];
  }

  /**
   * The search state between steps: recorded steps and predecessors agree
   * with the ghost sets, every reached cell has a route, and the open list
   * holds distinct cells, each `start` or reached.
   */
  ghost predicate Frontier(t: Terrain, start: Point, step: array2<Step>, cameFrom: array2<Point>, open: seq<Point>,
                           reached: set<Point>, orth: set<Point>, route: map<Point, seq<Point>>)
    reads step, cameFrom
  {
    && Tracks(t, step, reached, orth) && Parents(t, cameFrom, start, reached) && Routes(t, start, reached, route)
    && Distinct(open) && (forall q :: q in open ==> q == start || q in reached)
  }

  /**
   * From one state to a later one: reached and orthogonal sets only grow,
   * no open cell is dropped, every newly reached cell is open, and the
   * termination measure does not increase.
   */
  ghost predicate Grows(t: Terrain, open: seq<Point>, reached: set<Point>, orth: set<Point>,
                        open': seq<Point>, reached': set<Point>, orth': set<Point>) {
    && reached <= reached' && orth <= orth'
    && (forall q :: q in open ==> q in open')
    && (forall q :: q in reached' && q !in reached ==> q in open')
    && Potential(t, reached', orth', open') <= Potential(t, reached, orth, open)
  }

  lemma GrowsTrans(t: Terrain, o0: seq<Point>, r0: set<Point>, h0: set<Point>, o1: seq<Point>, r1: set<Point>, h1: set<Point>,
                   o2: seq<Point>, r2: set<Point>, h2: set<Point>)
    requires Grows(t, o0, r0, h0, o1, r1, h1) && Grows(t, o1, r1, h1, o2, r2, h2)
    ensures Grows(t, o0, r0, h0, o2, r2, h2)
  {
  }

  /**
   * The foreach over the dry neighbours of `current`: stops at `end`;
   * otherwise records `current` as predecessor wherever the step improves
   * and appends newly improved cells missing from the open list.
   */
  method Expand(t: Terrain, start: Point, end: Point, current: Point, walk: seq<Point>,
                step: array2<Step>, cameFrom: array2<Point>, open: seq<Point>,
                ghost reached: set<Point>, ghost orth: set<Point>, ghost route: map<Point, seq<Point>>)
    returns (hit: bool, open': seq<Point>, ghost reached': set<Point>, ghost orth': set<Point>,
             ghost route': map<Point, seq<Point>>)
    requires Frontier(t, start, step, cameFrom, open, reached, orth, route)
    requires current == start || current in reached
    requires forall q :: q in walk <==> q in MooreNeighbours(current, Width(t), Length(t)) && In(t, q) && !IsWater(t, q)
    modifies step, cameFrom
    ensures Frontier(t, start, step, cameFrom, open', reached', orth', route')
    ensures Grows(t, open, reached, orth, open', reached', orth')
    ensures hit ==> In(t, end) && !IsWater(t, end) && Adjacent8(current, end)
    ensures !hit ==> Settled(t, current, reached', end)
  {
    MooreNeighboursSpec(current, Width(t), Length(t));
    hit, open', reached', orth', route' := false, open, reached, orth, route;
    var m := 0;
    while m < |walk|
      invariant 0 <= m <= |walk|
      invariant Frontier(t, start, step, cameFrom, open', reached', orth', route')
      invariant Grows(t, open, reached, orth, open', reached', orth')
      invariant current == start || current in reached'
      invariant forall q :: q in walk[..m] ==> q in reached' && q != end
    {
      var n := walk[m];
      assert n in walk;
      if n == end {
        hit := true;
        return;
      }
      ghost var o1, r1, h1 := open', reached', orth';
      open', reached', orth', route' := Relax(t, start, current, n, step, cameFrom, open', reached', orth', route');
      GrowsTrans(t, open, reached, orth, o1, r1, h1, open', reached', orth');
      PrefixStep(walk, m);
      m := m + 1;
    }
    assert walk[..m] == walk;
  }

  lemma PrefixStep(s: seq<Point>, m: nat)
    requires m < |s|
    ensures s[..m + 1] == s[..m] + [s[m]]
  {
  }

  /**
   * One neighbour `n` of the expanded cell `current`: when the step from
   * `current` improves on `n`'s recorded step, `current` becomes its
   * predecessor and `n` joins the open list unless it is there already.
   */
  method Relax(t: Terrain, start: Point, current: Point, n: Point,
               step: array2<Step>, cameFrom: array2<Point>, open: seq<Point>,
               ghost reached: set<Point>, ghost orth: set<Point>, ghost route: map<Point, seq<Point>>)
    returns (open': seq<Point>, ghost reached': set<Point>, ghost orth': set<Point>,
             ghost route': map<Point, seq<Point>>)
    requires Frontier(t, start, step, cameFrom, open, reached, orth, route)
    requires current == start || current in reached
    requires In(t, n) && !IsWater(t, n) && Adjacent8(current, n)
    modifies step, cameFrom
    ensures Frontier(t, start, step, cameFrom, open', reached', orth', route')
    ensures Grows(t, open, reached, orth, open', reached', orth')
    ensures n in reached'
  {
    open', reached', orth', route' := open, reached, orth, route;
    var s := StepTo(current, n);
    if Improves(step[n.x, n.y], s) {
      open', reached', orth', route' := Improve(t, start, current, n, s, step, cameFrom, open, reached, orth, route);
    } else {
      assert n == Point(n.x, n.y);
    }
  }

  /** The improving case of Relax: `current` becomes `n`'s predecessor with step `s`. */
  method Improve(t: Terrain, start: Point, current: Point, n: Point, s: Step,
                 step: array2<Step>, cameFrom: array2<Point>, open: seq<Point>,
                 ghost reached: set<Point>, ghost orth: set<Point>, ghost route: map<Point, seq<Point>>)
    returns (open': seq<Point>, ghost reached': set<Point>, ghost orth': set<Point>,
             ghost route': map<Point, seq<Point>>)
    requires Frontier(t, start, step, cameFrom, open, reached, orth, route)
    requires current == start || current in reached
    requires In(t, n) && !IsWater(t, n) && Adjacent8(current, n)
    requires s == StepTo(current, n) && Improves(step[n.x, n.y], s)
    modifies step, cameFrom
    ensures Frontier(t, start, step, cameFrom, open', reached', orth', route')
    ensures Grows(t, open, reached, orth, open', reached', orth')
    ensures n in reached'
  {
    ghost var was := step[n.x, n.y];
    assert (was != Unreached <==> n in reached) && (was == Orthogonal <==> n in orth) by {
      assert n == Point(n.x, n.y);
    }
    RelaxPotential(t, reached, orth, open, n, was, s);
    RelaxRoutes(t, start, reached, route, current, n);
    SetParent(t, cameFrom, start, reached, current, n);
    SetStep(t, step, reached, orth, n, s);
    reached' := reached + {n};
    orth' := if s == Orthogonal then orth + {n} else orth;
    route' := route[n := if current in reached then route[current] + [n] else [start, n]];
    open' := AddOnce(open, n);
  }

  /** An improving step reaches a new cell, or turns a diagonal step orthogonal; either outweighs one more open cell. */
  lemma RelaxPotential(t: Terrain, reached: set<Point>, orth: set<Point>, open: seq<Point>, n: Point, was: Step, s: Step)
    requires In(t, n) && orth <= reached && Improves(was, s)
    requires (was != Unreached <==> n in reached) && (was == Orthogonal <==> n in orth)
    ensures Potential(t, reached + {n}, if s == Orthogonal then orth + {n} else orth, AddOnce(open, n))
            <= Potential(t, reached, orth, open)
  {
    var all := AllCells(Width(t), Length(t));
    InAllCells(n, Width(t), Length(t));
    if was == Unreached {
      ShrinkBy(all, reached, n);
    } else {
      assert reached + {n} == reached;
    }
    if s == Orthogonal {
      ShrinkBy(all, orth, n);
    }
  }

  lemma RelaxRoutes(t: Terrain, start: Point, reached: set<Point>, route: map<Point, seq<Point>>, current: Point, n: Point)
    requires Routes(t, start, reached, route)
    requires current == start || current in reached
    requires In(t, n) && !IsWater(t, n) && Adjacent8(current, n)
    ensures Routes(t, start, reached + {n}, route[n := if current in reached then route[current] + [n] else [start, n]])
  {
    if current in reached {
      ExtendWalk(t, route[current], start, current, n);
    }
  }

  method SetParent(t: Terrain, cameFrom: array2<Point>, start: Point, ghost reached: set<Point>, current: Point, n: Point)
    requires Parents(t, cameFrom, start, reached)
    requires current == start || current in reached
    requires In(t, n) && !IsWater(t, n) && Adjacent8(current, n)
    modifies cameFrom
    ensures Parents(t, cameFrom, start, reached + {n})
  {
    cameFrom[n.x, n.y] := current;
  }

  method SetStep(t: Terrain, step: array2<Step>, ghost reached: set<Point>, ghost orth: set<Point>, n: Point, s: Step)
    requires Tracks(t, step, reached, orth) && In(t, n) && s != Unreached
    requires s == Orthogonal || n !in orth
    modifies step
    ensures Tracks(t, step, reached + {n}, if s == Orthogonal then orth + {n} else orth)
  {
    step[n.x, n.y] := s;
  }

  /** The cell `n` parent links up from `p` (a cell off the array has no parent and stays put). */
  ghost function Up(cameFrom: array2<Point>, p: Point, n: nat): Point
    reads cameFrom
  {
    if n == 0 then p
    else
      var q := Up(cameFrom, p, n - 1);
      if 0 <= q.x < cameFrom.Length0 && 0 <= q.y < cameFrom.Length1 then cameFrom[q.x, q.y] else q
  }

  /**
   * `path` (without its last entry) is the parent chain of `current`
   * reversed, none of its links being `start`.
   */
  ghost predicate Chain(cameFrom: array2<Point>, start: Point, current: Point, path: seq<Point>)
    reads cameFrom
  {
    forall k :: 0 <= k < |path| - 1 ==> Up(cameFrom, current, k) != start && path[|path| - 2 - k] == Up(cameFrom, current, k)
  }

  lemma ChainGrows(cameFrom: array2<Point>, start: Point, current: Point, path: seq<Point>, parent: Point)
    requires |path| >= 1 && Chain(cameFrom, start, current, path)
    requires parent == Up(cameFrom, current, |path| - 1) && parent != start
    ensures Chain(cameFrom, start, current, [parent] + path)
  {
    var p' := [parent] + path;
    forall k | 0 <= k < |p'| - 1
      ensures Up(cameFrom, current, k) != start && p'[|p'| - 2 - k] == Up(cameFrom, current, k)
    {
      if k < |path| - 1 {
        assert p'[|p'| - 2 - k] == path[|path| - 2 - k];
      }
    }
  }

  lemma ChainFound(cameFrom: array2<Point>, start: Point, current: Point, path: seq<Point>)
    requires Chain(cameFrom, start, current, path)
    ensures var m := |path| - 1;
      forall k :: 0 <= k < m ==> Up(cameFrom, current, k) != start && ([start] + path)[m - k] == Up(cameFrom, current, k)
  {
    assert forall j :: 0 <= j < |path| ==> ([start] + path)[j + 1] == path[j];
  }

  /**
   * The predecessor walk from `current` back to `start`, laid out from
   * `start` to `end`: `start`, then the parent chain of `current` reversed,
   * then `end`, where the chain is cut at its first `start`. `Diverged`
   * once the chain has missed `start` for W*L+1 links.
   */
  method Reconstruct(t: Terrain, start: Point, end: Point, current: Point, cameFrom: array2<Point>,
                     ghost reached: set<Point>)
    returns (r: PathResult)
    requires Parents(t, cameFrom, start, reached)
    requires current == start || current in reached
    requires In(t, end) && !IsWater(t, end) && Adjacent8(current, end)
    ensures r.Found? ==> IsWalk(t, r.path, start, end)
    ensures r.Found? ==> var m := |r.path| - 2;
      && m >= 0 && Up(cameFrom, current, m) == start
      && (forall k :: 0 <= k < m ==> Up(cameFrom, current, k) != start && r.path[m - k] == Up(cameFrom, current, k))
    ensures r.Diverged? ==> forall k :: 0 <= k <= Width(t) * Length(t) + 1 ==> Up(cameFrom, current, k) != start
    ensures !r.NoPath?
  {
    var path, parent := WalkBack(t, start, end, current, cameFrom, reached);
    if parent == start {
      r := Found([start] + path);
      WalkFromBack(t, start, end, path);
      ChainFound(cameFrom, start, current, path);
    } else {
      r := Diverged;
      ChainMissed(cameFrom, start, current, path);
    }
  }

  /**
   * The walk back so far: `path` runs by king moves over dry in-bounds
   * cells to `end`, `parent` is next to its head, and `path` is the parent
   * chain of `current` reversed, with `parent` the next link.
   */
  ghost predicate BackWalk(t: Terrain, start: Point, end: Point, current: Point, cameFrom: array2<Point>,
                           reached: set<Point>, path: seq<Point>, parent: Point)
    reads cameFrom
  {
    && |path| >= 1 && path[|path| - 1] == end && Adjacent8(parent, path[0])
    && (parent == start || parent in reached)
    && (forall k :: 0 <= k < |path| - 1 ==> Adjacent8(path[k], path[k + 1]))
    && (forall k :: 0 <= k < |path| ==> In(t, path[k]) && !IsWater(t, path[k]))
    && parent == Up(cameFrom, current, |path| - 1) && Chain(cameFrom, start, current, path)
  }

  /** The `while (parent != start)` loop, cut off after W*L+1 links. */
  method WalkBack(t: Terrain, start: Point, end: Point, current: Point, cameFrom: array2<Point>,
                  ghost reached: set<Point>)
    returns (path: seq<Point>, parent: Point)
    requires Parents(t, cameFrom, start, reached)
    requires current == start || current in reached
    requires In(t, end) && !IsWater(t, end) && Adjacent8(current, end)
    ensures BackWalk(t, start, end, current, cameFrom, reached, path, parent)
    ensures parent == start || |path| - 1 == Width(t) * Length(t) + 1
  {
    path := [end];
    parent := current;
    var fuel := Width(t) * Length(t) + 1;
    ghost var cap := fuel;
    while parent != start && fuel > 0
      invariant BackWalk(t, start, end, current, cameFrom, reached, path, parent)
      invariant fuel + |path| - 1 == cap && fuel >= 0
    {
      path, parent := BackStep(t, start, end, current, cameFrom, reached, path, parent);
      fuel := fuel - 1;
    }
  }

  /** One pass: put `parent` in front and move to its parent. */
  method BackStep(t: Terrain, start: Point, end: Point, current: Point, cameFrom: array2<Point>,
                  ghost reached: set<Point>, path: seq<Point>, parent: Point)
    returns (path': seq<Point>, parent': Point)
    requires Parents(t, cameFrom, start, reached)
    requires BackWalk(t, start, end, current, cameFrom, reached, path, parent) && parent != start
    ensures BackWalk(t, start, end, current, cameFrom, reached, path', parent') && |path'| == |path| + 1
  {
    ChainGrows(cameFrom, start, current, path, parent);
    path' := [parent] + path;
    parent' := cameFrom[parent.x, parent.y];
  }

  lemma WalkFromBack(t: Terrain, start: Point, end: Point, path: seq<Point>)
    requires |path| >= 1 && path[|path| - 1] == end && Adjacent8(start, path[0])
    requires forall k :: 0 <= k < |path| - 1 ==> Adjacent8(path[k], path[k + 1])
    requires forall k :: 0 <= k < |path| ==> In(t, path[k]) && !IsWater(t, path[k])
    ensures IsWalk(t, [start] + path, start, end)
  {
    assert forall k :: 0 <= k < |path| ==> ([start] + path)[k + 1] == path[k];
  }

  lemma ChainMissed(cameFrom: array2<Point>, start: Point, current: Point, path: seq<Point>)
    requires |path| >= 1 && Chain(cameFrom, start, current, path) && Up(cameFrom, current, |path| - 1) != start
    ensures forall k :: 0 <= k < |path| ==> Up(cameFrom, current, k) != start
  {
  }

  lemma SettledMono(t: Terrain, p: Point, reached: set<Point>, reached': set<Point>, end: Point)
    requires Settled(t, p, reached, end) && reached <= reached'
    ensures Settled(t, p, reached', end)
  {
  }

  /** Once every expanded cell is settled and no reached cell is left open, no walk reaches `end`. */
  lemma {:induction false} NoWalkFromSettled(t: Terrain, expanded: set<Point>, start: Point, end: Point, path: seq<Point>)
    requires start in expanded
    requires forall p :: p in expanded ==> Settled(t, p, expanded, end)
    ensures !IsWalk(t, path, start, end)
  {
    if IsWalk(t, path, start, end) {
      WalkStaysInside(t, expanded, start, end, path, |path| - 1);
    }
  }

  lemma {:induction false} WalkStaysInside(t: Terrain, expanded: set<Point>, start: Point, end: Point, path: seq<Point>, k: nat)
    requires start in expanded
    requires forall p :: p in expanded ==> Settled(t, p, expanded, end)
    requires IsWalk(t, path, start, end) && k < |path|
    ensures path[k] in expanded && (k > 0 ==> path[k] != end)
  {
    if k > 0 {
      WalkStaysInside(t, expanded, start, end, path, k - 1);
      MooreNeighboursSpec(path[k - 1], Width(t), Length(t));
      assert path[k] in MooreNeighbours(path[k - 1], Width(t), Length(t));
    }
  }

  /**
   * The loop invariant of the search: the search state, every expanded
   * cell settled, every reached cell open or expanded, and `start` too.
   */
  ghost predicate Searching(t: Terrain, start: Point, end: Point, step: array2<Step>, cameFrom: array2<Point>,
                            open: seq<Point>, reached: set<Point>, orth: set<Point>, route: map<Point, seq<Point>>,
                            expanded: set<Point>)
    reads step, cameFrom
  {
    && Frontier(t, start, step, cameFrom, open, reached, orth, route)
    && (forall p :: p in expanded ==> Settled(t, p, reached, end))
    && (forall q :: q in reached ==> q in open || q in expanded)
    && (start in open || start in expanded)
  }

  /**
   * The search of GetPath on a grid snapshot, from `start` towards `end`
   * over dry cells. A result other than NoPath has found `end` as a dry
   * neighbour of an expanded cell; NoPath (null) comes back exactly when no
   * walk exists.
   */
  method Search(t: Terrain, start: Point, end: Point) returns (r: PathResult)
    ensures r.Found? ==> IsWalk(t, r.path, start, end)
    ensures r.NoPath? <==> !Connected(t, start, end)
  {
    var w, l := Width(t), Length(t);
    var open := [start];
    var closed: seq<Point> := [];
    var step := new Step[w, l]((i, j) => Unreached);
    var cameFrom := new Point[w, l]((i, j) => Point(0, 0));
    ghost var reached: set<Point>, orth: set<Point>, route: map<Point, seq<Point>>, expanded: set<Point> := {}, {}, map[], {};
    while |open| > 0
      invariant Searching(t, start, end, step, cameFrom, open, reached, orth, route, expanded)
      decreases Potential(t, reached, orth, open)
    {
      var hit, current;
      ghost var before := Potential(t, reached, orth, open);
      hit, current, open, closed, reached, orth, route, expanded :=
        Visit(t, start, end, step, cameFrom, open, closed, reached, orth, route, expanded);
      if hit {
        r := Conclude(t, start, end, current, cameFrom, reached, route);
        return;
      }
    }
    r := NoPath;
    Exhausted(t, start, end, reached, expanded);
  }

  /**
   * One pass of the search loop: pick the open cell closest to `end`, drop
   * its water neighbours into the closed list, relax the dry ones; unless
   * `end` was among them, close `current` and take it off the open list.
   */
  method Visit(t: Terrain, start: Point, end: Point, step: array2<Step>, cameFrom: array2<Point>,
               open: seq<Point>, closed: seq<Point>, ghost reached: set<Point>, ghost orth: set<Point>,
               ghost route: map<Point, seq<Point>>, ghost expanded: set<Point>)
    returns (hit: bool, current: Point, open': seq<Point>, closed': seq<Point>, ghost reached': set<Point>,
             ghost orth': set<Point>, ghost route': map<Point, seq<Point>>, ghost expanded': set<Point>)
    requires |open| > 0
    requires Searching(t, start, end, step, cameFrom, open, reached, orth, route, expanded)
    modifies step, cameFrom
    ensures hit ==> Parents(t, cameFrom, start, reached') && Routes(t, start, reached', route')
    ensures hit ==> (current == start || current in reached')
    ensures hit ==> In(t, end) && !IsWater(t, end) && Adjacent8(current, end)
    ensures !hit ==> Searching(t, start, end, step, cameFrom, open', reached', orth', route', expanded')
    ensures !hit ==> Potential(t, reached', orth', open') < Potential(t, reached, orth, open)
  {
    var k := SelectCurrent(open, end);
    current := open[k];
    OpenCell(t, start, step, cameFrom, open, reached, orth, route, k);
    var nbs := CollectMoore(current, Width(t), Length(t));
    var walk;
    walk, closed' := DropWater(t, nbs, closed);
    DryNeighbours(t, current, nbs);
    hit, open', reached', orth', route' := Expand(t, start, end, current, walk, step, cameFrom, open, reached, orth, route);
    expanded' := expanded;
    if !hit {
      SettledStill(t, expanded, reached, reached', end);
      CloseCell(t, start, end, step, cameFrom, open, reached, orth, expanded, current, open', reached', orth', route');
      closed' := closed' + [current];
      open' := RemoveValue(open', current);
      expanded' := expanded + {current};
    }
  }

  /** Closing the expanded cell keeps the search state and lowers the measure. */
  lemma CloseCell(t: Terrain, start: Point, end: Point, step: array2<Step>, cameFrom: array2<Point>,
                  open: seq<Point>, reached: set<Point>, orth: set<Point>, expanded: set<Point>, current: Point,
                  open': seq<Point>, reached': set<Point>, orth': set<Point>, route': map<Point, seq<Point>>)
    requires Frontier(t, start, step, cameFrom, open', reached', orth', route')
    requires Grows(t, open, reached, orth, open', reached', orth')
    requires current in open && Settled(t, current, reached', end)
    requires forall p :: p in expanded ==> Settled(t, p, reached', end)
    requires forall q :: q in reached ==> q in open || q in expanded
    requires start in open || start in expanded
    ensures Searching(t, start, end, step, cameFrom, RemoveValue(open', current), reached', orth', route', expanded + {current})
    ensures Potential(t, reached', orth', RemoveValue(open', current)) < Potential(t, reached, orth, open)
  {
    CloseOpen(open, reached, expanded, current, open', reached', start);
  }

  /** The open list without the closed cell still covers what it covered. */
  lemma CloseOpen(open: seq<Point>, reached: set<Point>, expanded: set<Point>, current: Point,
                  open': seq<Point>, reached': set<Point>, start: Point)
    requires Distinct(open') && current in open
    requires forall q :: q in open ==> q in open'
    requires forall q :: q in reached' && q !in reached ==> q in open'
    requires forall q :: q in reached ==> q in open || q in expanded
    requires start in open || start in expanded
    ensures var o := RemoveValue(open', current);
      && |o| == |open'| - 1 && Distinct(o) && (forall q :: q in o ==> q in open')
      && (forall q :: q in reached' ==> q in o || q in expanded + {current})
      && (start in o || start in expanded + {current})
  {
    RemoveValueDistinct(open', current);
  }
  lemma OpenCell(t: Terrain, start: Point, step: array2<Step>, cameFrom: array2<Point>, open: seq<Point>,
                 reached: set<Point>, orth: set<Point>, route: map<Point, seq<Point>>, k: nat)
    requires Frontier(t, start, step, cameFrom, open, reached, orth, route) && k < |open|
    ensures open[k] == start || open[k] in reached
  {
    assert open[k] in open;
  }

  /** The dry Moore neighbours, as the water-removal loop leaves them. */
  lemma DryNeighbours(t: Terrain, p: Point, nbs: seq<Point>)
    requires nbs == MooreNeighbours(p, Width(t), Length(t))
    ensures forall q :: q in Dry(t, nbs) <==> q in MooreNeighbours(p, Width(t), Length(t)) && In(t, q) && !IsWater(t, q)
  {
    MooreNeighboursSpec(p, Width(t), Length(t));
    DryMembers(t, nbs);
  }

  lemma SettledStill(t: Terrain, expanded: set<Point>, reached: set<Point>, reached': set<Point>, end: Point)
    requires forall p :: p in expanded ==> Settled(t, p, reached, end)
    requires reached <= reached'
    ensures forall p :: p in expanded ==> Settled(t, p, reached', end)
  {
    forall p | p in expanded
      ensures Settled(t, p, reached', end)
    {
      SettledMono(t, p, reached, reached', end);
    }
  }

  /** With the open list empty, the expanded cells are closed under dry steps and `end` is not among them. */
  lemma Exhausted(t: Terrain, start: Point, end: Point, reached: set<Point>, expanded: set<Point>)
    requires forall p :: p in expanded ==> Settled(t, p, reached, end)
    requires reached <= expanded && start in expanded
    ensures !Connected(t, start, end)
  {
    SettledStill(t, expanded, reached, expanded, end);
    forall path
      ensures !IsWalk(t, path, start, end)
    {
      NoWalkFromSettled(t, expanded, start, end, path);
    }
  }

  /**
   * `end` turned up next to `current`: the reconstruction's result, and a
   * walk to `end` exists whatever that result is.
   */
  method Conclude(t: Terrain, start: Point, end: Point, current: Point, cameFrom: array2<Point>,
                  ghost reached: set<Point>, ghost route: map<Point, seq<Point>>)
    returns (r: PathResult)
    requires Parents(t, cameFrom, start, reached) && Routes(t, start, reached, route)
    requires current == start || current in reached
    requires In(t, end) && !IsWater(t, end) && Adjacent8(current, end)
    ensures r.Found? ==> IsWalk(t, r.path, start, end)
    ensures !r.NoPath? && Connected(t, start, end)
  {
    r := Reconstruct(t, start, end, current, cameFrom, reached);
    ghost var via := if current in reached then route[current] + [end] else [start, end];
    if current in reached {
      ExtendWalk(t, route[current], start, current, end);
    }
    assert IsWalk(t, via, start, end);
  }

  class Grid {
    const cells: array2<Cell>

    constructor (cells: array2<Cell>)
      ensures this.cells == cells
    {
      this.cells := cells;
    }

    function GetWidth(): nat { cells.Length0 }

    function GetLength(): nat { cells.Length1 }

    /** The cell at (x, y), or null for any position outside the grid. */
    function GetCellData(x: int, y: int): (c: Cell?)
      reads cells
      ensures c == null <==> !InRect(Point(x, y), GetWidth(), GetLength())
      ensures c != null ==> c == cells[x, y]
    {
      if x < 0 || x >= cells.Length0 || y < 0 || y >= cells.Length1 then null
      else cells[x, y]
    }

    /** A fresh W x L array holding every cell's height. */
    method GetHeightMap() returns (hm: array2<int>)
      ensures fresh(hm)
      ensures hm.Length0 == GetWidth() && hm.Length1 == GetLength()
      ensures forall i, j :: 0 <= i < hm.Length0 && 0 <= j < hm.Length1 ==> hm[i, j] == cells[i, j].height
    {
      hm := new int[cells.Length0, cells.Length1];
      var i := 0;
      while i < cells.Length0
        invariant 0 <= i <= cells.Length0
        invariant forall a, b :: 0 <= a < i && 0 <= b < cells.Length1 ==> hm[a, b] == cells[a, b].height
      {
        var j := 0;
        while j < cells.Length1
          invariant 0 <= j <= cells.Length1
          invariant forall a, b :: 0 <= a < i && 0 <= b < cells.Length1 ==> hm[a, b] == cells[a, b].height
          invariant forall b :: 0 <= b < j ==> hm[i, b] == cells[i, b].height
        {
          hm[i, j] := cells[i, j].height;
          j := j + 1;
        }
        i := i + 1;
      }
    }

    /** The heights, ground types and element lists of every cell, as a value. */
    function View(): (t: Terrain)
      reads cells, set i, j | 0 <= i < cells.Length0 && 0 <= j < cells.Length1 :: cells[i, j]
      ensures Width(t) == GetWidth() && Length(t) == GetLength()
      ensures forall i, j :: 0 <= i < cells.Length0 && 0 <= j < cells.Length1 ==>
        var p := Point(i, j);
        H(t, p) == cells[i, j].height && GroundAt(t, p) == cells[i, j].ground && ElementsAt(t, p) == cells[i, j].elements
    {
      var w, l := cells.Length0, cells.Length1;
      var hv := seq(w, i requires 0 <= i < w reads cells =>
        seq(l, j requires 0 <= j < l reads cells => cells[i, j].height));
      var gv := seq(w, i requires 0 <= i < w reads cells, set b | 0 <= b < l && 0 <= i < w :: cells[i, b] =>
        seq(l, j requires 0 <= j < l reads cells, if 0 <= i < w && 0 <= j < l then {cells[i, j]} else {} =>
          cells[i, j].ground));
      var ev := seq(w, i requires 0 <= i < w reads cells, set b | 0 <= b < l && 0 <= i < w :: cells[i, b] =>
        seq(l, j requires 0 <= j < l reads cells, if 0 <= i < w && 0 <= j < l then {cells[i, j]} else {} =>
          cells[i, j].elements));
      Land(HeightField(w, l, hv), gv, ev)
    }

    /**
     * GetPath: best-first search from `start` towards `end` over the dry
     * cells of the grid, as Search describes.
     */
    method GetPath(start: Point, end: Point) returns (r: PathResult)
      ensures r.Found? ==> IsWalk(View(), r.path, start, end)
      ensures r.NoPath? <==> !Connected(View(), start, end)
    {
      r := Search(View(), start, end);
    }
  }
}
