/**
 * Neighbour queries and height ordering (HeightMapService.cs).
 *
 * The all-pairs exchange sort is given twice: as the functions InnerPass /
 * OuterPass / ExchangeSort, which replay the two loops swap by swap (so the
 * order of equal heights is the source's), and as the in-place method
 * SortByHeight, proved equal to them. Sortedness and permutation are proved
 * about the functions.
 */
module HeightMapService {
  import opened Geometry
  import opened Terrain

  // ---------------------------------------------------------------------
  // The exchange sort, step by step.

  predicate SortedUpTo(h: Heights, s: seq<Point>, n: int) {
    forall a, b :: 0 <= a < b < n && b < |s| ==> Height(h, s[a]) <= Height(h, s[b])
  }

  /** Non-decreasing height along the whole list. */
  predicate SortedBy(h: Heights, s: seq<Point>) { SortedUpTo(h, s, |s|) }

  /** One step of the inner loop: swap entries i and j when h[i] < h[j]. */
  function SwapIfLower(h: Heights, s: seq<Point>, i: nat, j: nat): (r: seq<Point>)
    requires i < |s| && j < |s|
    ensures |r| == |s| && multiset(r) == multiset(s)
  {
    if Height(h, s[i]) < Height(h, s[j]) then s[i := s[j]][j := s[i]] else s
  }

  /** The inner loop for row i from column j on. */
  function InnerPass(h: Heights, s: seq<Point>, i: nat, j: nat): (r: seq<Point>)
    requires i < |s| && j <= |s|
    ensures |r| == |s|
    decreases |s| - j
  {
    if j == |s| then s else InnerPass(h, SwapIfLower(h, s, i, j), i, j + 1)
  }

  /** The outer loop from row i on. */
  function OuterPass(h: Heights, s: seq<Point>, i: nat): (r: seq<Point>)
    requires i <= |s|
    ensures |r| == |s|
    decreases |s| - i
  {
    if i == |s| then s else OuterPass(h, InnerPass(h, s, i, 0), i + 1)
  }

  /** What SortByHeight leaves in its argument. */
  function ExchangeSort(h: Heights, s: seq<Point>): (r: seq<Point>)
    ensures |r| == |s|
  {
    OuterPass(h, s, 0)
  }

  /** The state before row i: the first i entries are sorted and entry i-1 is a maximum. */
  predicate OuterInv(h: Heights, s: seq<Point>, i: nat) {
    && SortedUpTo(h, s, i)
    && (0 < i <= |s| ==> forall k :: 0 <= k < |s| ==> Height(h, s[k]) <= Height(h, s[i - 1]))
  }

  /** The state inside row i before column j. */
  predicate InnerInv(h: Heights, s: seq<Point>, i: nat, j: nat)
    requires i < |s|
  {
    && (j <= i ==> SortedUpTo(h, s, i))
    && (j > i ==> SortedUpTo(h, s, i + 1))
    && (forall k :: 0 <= k < j && k < |s| ==> Height(h, s[k]) <= Height(h, s[i]))
    && (0 < i && j <= i ==>
          forall k :: i < k < |s| ==>
            Height(h, s[k]) <= Height(h, s[i - 1]) || Height(h, s[k]) <= Height(h, s[i]))
    && (0 < i && j > i ==> forall k :: 0 <= k < |s| ==> Height(h, s[k]) <= Height(h, s[i]))
  }

  lemma InnerStepBelowRow(h: Heights, s: seq<Point>, i: nat, j: nat)
    requires i < |s| && j < i && InnerInv(h, s, i, j)
    ensures InnerInv(h, SwapIfLower(h, s, i, j), i, j + 1)
  {
    var s' := SwapIfLower(h, s, i, j);
    if Height(h, s[i]) < Height(h, s[j]) {
      assert s'[j] == s[i] && s'[i] == s[j];
      assert forall k :: 0 <= k < |s| && k != i && k != j ==> s'[k] == s[k];
      forall a, b | 0 <= a < b < i
        ensures Height(h, s'[a]) <= Height(h, s'[b])
      {
        if b == j {
          assert Height(h, s[a]) <= Height(h, s[i]);
        } else if a == j {
          assert Height(h, s[j]) <= Height(h, s[b]);
        }
      }
      assert SortedUpTo(h, s', i);
      if 0 < i {
        forall k | i < k < |s|
          ensures Height(h, s'[k]) <= Height(h, s'[i - 1]) || Height(h, s'[k]) <= Height(h, s'[i])
        {
          assert s'[k] == s[k];
        }
      }
    }
  }

  lemma InnerStepOnRow(h: Heights, s: seq<Point>, i: nat)
    requires i < |s| && InnerInv(h, s, i, i)
    ensures InnerInv(h, SwapIfLower(h, s, i, i), i, i + 1)
  {
    assert SwapIfLower(h, s, i, i) == s;
    if 0 < i {
      assert Height(h, s[i - 1]) <= Height(h, s[i]);
    }
  }

  lemma InnerStepAboveRow(h: Heights, s: seq<Point>, i: nat, j: nat)
    requires i < j < |s| && InnerInv(h, s, i, j)
    ensures InnerInv(h, SwapIfLower(h, s, i, j), i, j + 1)
  {
    var s' := SwapIfLower(h, s, i, j);
    if i == 0 && Height(h, s[0]) < Height(h, s[j]) {
      assert s'[0] == s[j] && s'[j] == s[0];
      assert forall k :: 0 < k < |s| && k != j ==> s'[k] == s[k];
    }
  }

  lemma {:induction false} InnerPassEstablishes(h: Heights, s: seq<Point>, i: nat, j: nat)
    requires i < |s| && j <= |s| && InnerInv(h, s, i, j)
    ensures OuterInv(h, InnerPass(h, s, i, j), i + 1)
    decreases |s| - j
  {
    if j < |s| {
      InnerPassNext(h, s, i, j);
    } else {
      assert InnerPass(h, s, i, j) == s;
      RowDone(h, s, i);
    }
  }

  /** The step case of InnerPassEstablishes, kept apart so each proof stays small. */
  lemma {:induction false} InnerPassNext(h: Heights, s: seq<Point>, i: nat, j: nat)
    requires i < |s| && j < |s| && InnerInv(h, s, i, j)
    ensures OuterInv(h, InnerPass(h, s, i, j), i + 1)
    decreases |s| - j, 0
  {
    var s' := SwapIfLower(h, s, i, j);
    InnerStep(h, s, i, j);
    InnerPassEstablishes(h, s', i, j + 1);
    InnerPassUnfold(h, s, i, j);
  }

  lemma InnerStep(h: Heights, s: seq<Point>, i: nat, j: nat)
    requires i < |s| && j < |s| && InnerInv(h, s, i, j)
    ensures InnerInv(h, SwapIfLower(h, s, i, j), i, j + 1)
  {
    if j < i {
      InnerStepBelowRow(h, s, i, j);
    } else if j == i {
      InnerStepOnRow(h, s, i);
    } else {
      InnerStepAboveRow(h, s, i, j);
    }
  }

  /** At the end of row i the first i + 1 entries are sorted and entry i is a maximum. */
  lemma RowDone(h: Heights, s: seq<Point>, i: nat)
    requires i < |s| && InnerInv(h, s, i, |s|)
    ensures OuterInv(h, s, i + 1)
  {
  }

  lemma {:induction false} OuterPassSorts(h: Heights, s: seq<Point>, i: nat)
    requires i <= |s| && OuterInv(h, s, i)
    ensures SortedBy(h, OuterPass(h, s, i))
    decreases |s| - i
  {
    if i < |s| {
      InnerPassEstablishes(h, s, i, 0);
      OuterPassSorts(h, InnerPass(h, s, i, 0), i + 1);
    }
  }

  lemma {:induction false} InnerPassPermutes(h: Heights, s: seq<Point>, i: nat, j: nat)
    requires i < |s| && j <= |s|
    ensures multiset(InnerPass(h, s, i, j)) == multiset(s)
    decreases |s| - j
  {
    if j < |s| {
      InnerPassPermutes(h, SwapIfLower(h, s, i, j), i, j + 1);
    }
  }

  lemma {:induction false} OuterPassPermutes(h: Heights, s: seq<Point>, i: nat)
    requires i <= |s|
    ensures multiset(OuterPass(h, s, i)) == multiset(s)
    decreases |s| - i
  {
    if i < |s| {
      InnerPassPermutes(h, s, i, 0);
      OuterPassPermutes(h, InnerPass(h, s, i, 0), i + 1);
    }
  }

  /** The exchange sort puts any list into non-decreasing height order, as a permutation. */
  lemma ExchangeSortSorts(h: Heights, s: seq<Point>)
    ensures SortedBy(h, ExchangeSort(h, s))
    ensures multiset(ExchangeSort(h, s)) == multiset(s)
  {
    OuterPassSorts(h, s, 0);
    OuterPassPermutes(h, s, 0);
  }

  lemma SortedFirstIsLowest(h: Heights, s: seq<Point>, q: Point)
    requires SortedBy(h, s) && q in s
    ensures Height(h, s[0]) <= Height(h, q)
  {
    var k :| 0 <= k < |s| && s[k] == q;
    if k > 0 {
      assert Height(h, s[0]) <= Height(h, s[k]);
    }
  }

  // ---------------------------------------------------------------------
  // SortByHeight, both overloads.

  /**
   * SortByHeight(ref Vector2Int[]): exchange entries i and j, for every i
   * and every j, when the height at i is below the height at j. Heights are
   * the grid's; every entry must lie on the grid.
   */
  method SortByHeight(cells: array<Point>, h: Heights)
    requires forall k :: 0 <= k < cells.Length ==> InField(h, cells[k])
    modifies cells
    ensures cells[..] == ExchangeSort(h, old(cells[..]))
  {
    var n := cells.Length;
    ghost var cur := cells[..];
    var i := 0;
    while i < n
      invariant 0 <= i <= n && |cur| == n
      invariant cells[..] == cur
      invariant OuterPass(h, cur, i) == ExchangeSort(h, old(cells[..]))
    {
      SortRow(cells, h, i);
      cur := InnerPass(h, cur, i, 0);
      i := i + 1;
    }
  }

  lemma InnerPassUnfold(h: Heights, s: seq<Point>, i: nat, j: nat)
    requires i < |s| && j < |s|
    ensures InnerPass(h, s, i, j) == InnerPass(h, SwapIfLower(h, s, i, j), i, j + 1)
  {
  }

  /** The inner loop of SortByHeight for one row i. */
  method SortRow(cells: array<Point>, h: Heights, i: nat)
    requires i < cells.Length
    modifies cells
    ensures cells[..] == InnerPass(h, old(cells[..]), i, 0)
  {
    var n := cells.Length;
    ghost var cur := cells[..];
    ghost var target := InnerPass(h, cur, i, 0);
    var j := 0;
    while j < n
      invariant 0 <= j <= n && cells.Length == n
      invariant cells[..] == cur && |cur| == n
      invariant InnerPass(h, cur, i, j) == target
    {
      SwapStep(cells, h, i, j);
      InnerPassUnfold(h, cur, i, j);
      cur := SwapIfLower(h, cur, i, j);
      j := j + 1;
    }
    assert InnerPass(h, cur, i, n) == cur;
  }

  /** The body of the inner loop: exchange when the height at i is below the height at j. */
  method SwapStep(cells: array<Point>, h: Heights, i: nat, j: nat)
    requires i < cells.Length && j < cells.Length
    modifies cells
    ensures cells[..] == SwapIfLower(h, old(cells[..]), i, j)
  {
    if Height(h, cells[i]) < Height(h, cells[j]) {
      cells[j], cells[i] := cells[i], cells[j];
    }
  }

  /** SortByHeight(ref List<Vector2Int>): the same exchange loop over a list. */
  method SortListByHeight(cells: seq<Point>, h: Heights) returns (sorted: seq<Point>)
    requires forall q :: q in cells ==> InField(h, q)
    ensures sorted == ExchangeSort(h, cells)
    ensures SortedBy(h, sorted) && multiset(sorted) == multiset(cells)
  {
    var a := new Point[|cells|](k requires 0 <= k < |cells| => cells[k]);
    assert a[..] == cells;
    SortByHeight(a, h);
    sorted := a[..];
    ExchangeSortSorts(h, cells);
  }

  // ---------------------------------------------------------------------
  // The 8-neighbourhood (GetLowestNeighbour).

  /** The 3 x 3 block around p in the order of the two offset loops (i outer, j inner). */
  function Block(p: Point): seq<Point> {
    [Shift(p, -1, -1), Shift(p, -1, 0), Shift(p, -1, 1),
     Shift(p, 0, -1), Shift(p, 0, 0), Shift(p, 0, 1),
     Shift(p, 1, -1), Shift(p, 1, 0), Shift(p, 1, 1)]
  }

  lemma BlockAt(p: Point, i: int, j: int)
    requires -1 <= i <= 1 && -1 <= j <= 1
    ensures 3 * (i + 1) + (j + 1) < 9
    ensures Block(p)[3 * (i + 1) + (j + 1)] == Shift(p, i, j)
  {
  }

  /** Whether the offset loops keep cell q around p: not p itself, and inside W x L. */
  predicate KeptAround(q: Point, p: Point, w: int, l: int) { q != p && InRect(q, w, l) }

  function KeepAround(s: seq<Point>, p: Point, w: int, l: int): (r: seq<Point>)
    ensures forall q :: q in r <==> q in s && KeptAround(q, p, w, l)
  {
    if s == [] then []
    else KeepAround(s[..|s| - 1], p, w, l)
         + (if KeptAround(s[|s| - 1], p, w, l) then [s[|s| - 1]] else [])
  }

  lemma {:induction false} KeepAroundAppend(a: seq<Point>, b: seq<Point>, p: Point, w: int, l: int)
    ensures KeepAround(a + b, p, w, l) == KeepAround(a, p, w, l) + KeepAround(b, p, w, l)
    decreases |b|
  {
    if b != [] {
      assert (a + b)[..|a + b| - 1] == a + b[..|b| - 1];
      KeepAroundAppend(a, b[..|b| - 1], p, w, l);
    } else {
      assert a + b == a;
    }
  }

  /** The in-bounds cells around p, excluding p, in scan order. */
  function MooreNeighbours(p: Point, w: int, l: int): seq<Point> {
    KeepAround(Block(p), p, w, l)
  }

  lemma InBlock(p: Point, q: Point)
    ensures q in Block(p) <==> Chebyshev(p, q) <= 1
  {
    if Chebyshev(p, q) <= 1 {
      BlockAt(p, q.x - p.x, q.y - p.y);
    }
  }

  lemma BlockDistinct(p: Point)
    ensures Distinct(Block(p))
  {
  }

  /** Exactly the in-bounds cells at Chebyshev distance 1, each once, so at most 8. */
  lemma MooreNeighboursSpec(p: Point, w: int, l: int)
    ensures forall q :: q in MooreNeighbours(p, w, l) <==> InRect(q, w, l) && Adjacent8(p, q)
    ensures Distinct(MooreNeighbours(p, w, l))
    ensures |MooreNeighbours(p, w, l)| <= 8
  {
    forall q ensures q in MooreNeighbours(p, w, l) <==> InRect(q, w, l) && Adjacent8(p, q) {
      InBlock(p, q);
    }
    BlockDistinct(p);
    KeepAroundDistinct(Block(p), p, w, l);
    MooreSize(p, w, l);
  }

  lemma MooreSize(p: Point, w: int, l: int)
    ensures |MooreNeighbours(p, w, l)| <= 8
  {
    var b := Block(p);
    assert b == b[..4] + [p] + b[5..];
    KeepAroundAppend(b[..4] + [p], b[5..], p, w, l);
    KeepAroundAppend(b[..4], [p], p, w, l);
    assert KeepAround([p], p, w, l) == [];
    KeepAroundShorter(b[..4], p, w, l);
    KeepAroundShorter(b[5..], p, w, l);
  }

  lemma {:induction false} KeepAroundShorter(s: seq<Point>, p: Point, w: int, l: int)
    ensures |KeepAround(s, p, w, l)| <= |s|
  {
    if s != [] {
      KeepAroundShorter(s[..|s| - 1], p, w, l);
    }
  }

  lemma {:induction false} KeepAroundDistinct(s: seq<Point>, p: Point, w: int, l: int)
    requires Distinct(s)
    ensures Distinct(KeepAround(s, p, w, l))
  {
    if s != [] {
      var init := s[..|s| - 1];
      assert Distinct(init);
      KeepAroundDistinct(init, p, w, l);
      assert s[|s| - 1] !in init;
    }
  }

  /** One visit of the offset loops extends the kept prefix of the block by at most that cell. */
  lemma ScanStep(p: Point, w: int, l: int, i: int, j: int)
    requires -1 <= i <= 1 && -1 <= j <= 1
    ensures var k := 3 * (i + 1) + (j + 1);
      k < 9 &&
      KeepAround(Block(p)[..k + 1], p, w, l)
        == KeepAround(Block(p)[..k], p, w, l)
           + (if (i == 0 && j == 0) || !InRect(Shift(p, i, j), w, l) then [] else [Shift(p, i, j)])
  {
    var k := 3 * (i + 1) + (j + 1);
    BlockAt(p, i, j);
    var s := Block(p)[..k + 1];
    assert s[..|s| - 1] == Block(p)[..k];
    assert s[|s| - 1] == Shift(p, i, j);
  }

  /** The two offset loops of GetLowestNeighbour and GetPath, collecting in scan order. */
  method CollectMoore(p: Point, w: int, l: int) returns (nb: seq<Point>)
    ensures nb == MooreNeighbours(p, w, l)
  {
    nb := [];
    var i := -1;
    while i < 2
      invariant -1 <= i <= 2
      invariant nb == KeepAround(Block(p)[..3 * (i + 1)], p, w, l)
    {
      nb := MooreRow(p, w, l, i, nb);
      i := i + 1;
    }
    assert Block(p)[..9] == Block(p);
  }

  /** The inner offset loop for one value of i. */
  method MooreRow(p: Point, w: int, l: int, i: int, nb: seq<Point>) returns (nb': seq<Point>)
    requires -1 <= i <= 1
    requires nb == KeepAround(Block(p)[..3 * (i + 1)], p, w, l)
    ensures nb' == KeepAround(Block(p)[..3 * (i + 1) + 3], p, w, l)
  {
    nb' := nb;
    ghost var k: nat := 3 * (i + 1);
    var j := -1;
    while j < 2
      invariant -1 <= j <= 2 && k == 3 * (i + 1) + (j + 1)
      invariant nb' == KeepAround(Block(p)[..k], p, w, l)
    {
      nb' := MooreStep(p, w, l, i, j, k, nb');
      k := k + 1;
      j := j + 1;
    }
  }

  /** The body of the offset loops: skip the centre and off-field cells, keep the rest. */
  method MooreStep(p: Point, w: int, l: int, i: int, j: int, ghost k: nat, nb: seq<Point>) returns (nb': seq<Point>)
    requires -1 <= i <= 1 && -1 <= j <= 1 && k == 3 * (i + 1) + (j + 1)
    requires nb == KeepAround(Block(p)[..k], p, w, l)
    ensures nb' == KeepAround(Block(p)[..k + 1], p, w, l)
  {
    ScanStep(p, w, l, i, j);
    if (i == 0 && j == 0) || i + p.x < 0 || i + p.x >= w || j + p.y < 0 || j + p.y >= l {
      nb' := nb;
    } else {
      nb' := nb + [Shift(p, i, j)];
    }
  }

  /**
   * GetLowestNeighbour: the in-bounds cells around `point`, bounds taken
   * from `heightMap`, ordered by the exchange sort on the grid's heights.
   */
  method GetLowestNeighbour(point: Point, heightMap: Heights, grid: Heights) returns (nb: seq<Point>)
    requires forall q :: q in MooreNeighbours(point, heightMap.width, heightMap.length) ==> InField(grid, q)
    ensures nb == ExchangeSort(grid, MooreNeighbours(point, heightMap.width, heightMap.length))
    ensures forall q :: q in nb <==> InField(heightMap, q) && Adjacent8(point, q)
    ensures Distinct(nb) && |nb| <= 8
    ensures SortedBy(grid, nb)
  {
    var found := CollectMoore(point, heightMap.width, heightMap.length);
    var a := new Point[|found|](k requires 0 <= k < |found| => found[k]);
    assert a[..] == found;
    SortByHeight(a, grid);
    nb := a[..];
    MooreNeighboursSpec(point, heightMap.width, heightMap.length);
    ExchangeSortSorts(grid, found);
    PermutationKeepsDistinct(found, nb);
  }

  lemma PermutationKeepsDistinct(s: seq<Point>, r: seq<Point>)
    requires multiset(r) == multiset(s) && Distinct(s)
    ensures Distinct(r) && |r| == |s|
    ensures forall q :: q in r <==> q in s
  {
    assert |r| == |multiset(r)| == |multiset(s)| == |s|;
    forall q ensures q in r <==> q in s {
      assert q in r <==> q in multiset(r);
      assert q in s <==> q in multiset(s);
    }
    forall a, b | 0 <= a < b < |r| ensures r[a] != r[b] {
      if r[a] == r[b] {
        var q := r[a];
        assert multiset(r)[q] >= 2 by {
          assert r == r[..a] + [q] + r[a + 1..b] + [q] + r[b + 1..];
        }
        DistinctCountsOnce(s, q);
      }
    }
  }

  lemma {:induction false} DistinctCountsOnce(s: seq<Point>, q: Point)
    requires Distinct(s)
    ensures multiset(s)[q] <= 1
  {
    if s != [] {
      assert s == [s[0]] + s[1..];
      DistinctCountsOnce(s[1..], q);
      if s[0] == q {
        assert q !in s[1..];
      }
    }
  }

  // ---------------------------------------------------------------------
  // The 4-neighbourhood (GetLowestStrictNeighbour).

  /** The four candidates in the order the source writes them. */
  function Cross(p: Point): seq<Point> {
    [Shift(p, 1, 0), Shift(p, -1, 0), Shift(p, 0, 1), Shift(p, 0, -1)]
  }

  /**
   * The removal loop from index i on: an out-of-bounds entry is overwritten
   * by the last entry, the list shrinks by one, and the same index is
   * examined again.
   */
  function Prune(s: seq<Point>, i: nat, w: int, l: int): seq<Point>
    requires i <= |s|
    decreases |s| - i, |s|
  {
    if i == |s| then s
    else if !InRect(s[i], w, l) then Prune(s[i := s[|s| - 1]][..|s| - 1], i, w, l)
    else Prune(s, i + 1, w, l)
  }

  lemma {:induction false} PruneSpec(s: seq<Point>, i: nat, w: int, l: int)
    requires i <= |s| && Distinct(s)
    requires forall k :: 0 <= k < i ==> InRect(s[k], w, l)
    ensures forall q :: q in Prune(s, i, w, l) <==> q in s && InRect(q, w, l)
    ensures Distinct(Prune(s, i, w, l))
    decreases |s| - i, |s|
  {
    if i < |s| {
      if !InRect(s[i], w, l) {
        var s' := s[i := s[|s| - 1]][..|s| - 1];
        forall q ensures q in s' <==> q in s && q != s[i] {
          if q in s && q != s[i] {
            var k :| 0 <= k < |s| && s[k] == q;
            if k == |s| - 1 { assert s'[i] == q || i == |s| - 1; } else { assert s'[k] == q; }
          }
        }
        forall a, b | 0 <= a < b < |s'| ensures s'[a] != s'[b] {
          if a == i { assert s'[a] == s[|s| - 1] && s'[b] == s[b]; }
          else if b == i { assert s'[b] == s[|s| - 1] && s'[a] == s[a]; }
        }
        PruneSpec(s', i, w, l);
      } else {
        PruneSpec(s, i + 1, w, l);
      }
    }
  }

  /** The in-bounds cells among (x+-1, y) and (x, y+-1), once each, in the order the removal loop leaves them. */
  function StrictNeighbours(p: Point, w: int, l: int): seq<Point> {
    Prune(Cross(p), 0, w, l)
  }

  /** Exactly the in-bounds 4-neighbours, each once, so at most 4. */
  lemma StrictNeighboursSpec(p: Point, w: int, l: int)
    ensures forall q :: q in StrictNeighbours(p, w, l) <==> InRect(q, w, l) && Adjacent4(p, q)
    ensures Distinct(StrictNeighbours(p, w, l))
    ensures |StrictNeighbours(p, w, l)| <= 4
  {
    var c := Cross(p);
    forall q ensures q in c <==> Adjacent4(p, q) {
      if Adjacent4(p, q) {
        if q.x == p.x + 1 { assert q == c[0]; }
        else if q.x == p.x - 1 { assert q == c[1]; }
        else if q.y == p.y + 1 { assert q == c[2]; }
        else { assert q == c[3]; }
      }
    }
    PruneSpec(c, 0, w, l);
    var r := StrictNeighbours(p, w, l);
    PermutationBound(r, c);
  }

  lemma PermutationBound(r: seq<Point>, s: seq<Point>)
    requires Distinct(r) && forall q :: q in r ==> q in s
    ensures |r| <= |s|
  {
    var rs := set q | q in r;
    var ss := set q | q in s;
    assert rs <= ss;
    DistinctSetSize(r);
    SetSizeAtMostLength(s);
    assert ss == rs + (ss - rs) && rs * (ss - rs) == {};
  }

  lemma {:induction false} DistinctSetSize(r: seq<Point>)
    requires Distinct(r)
    ensures |set q | q in r| == |r|
  {
    if r != [] {
      var init := r[..|r| - 1];
      assert Distinct(init);
      DistinctSetSize(init);
      assert (set q | q in r) == (set q | q in init) + {r[|r| - 1]};
      assert r[|r| - 1] !in init;
    }
  }

  lemma {:induction false} SetSizeAtMostLength(s: seq<Point>)
    ensures |set q | q in s| <= |s|
  {
    if s != [] {
      var init := s[..|s| - 1];
      SetSizeAtMostLength(init);
      assert (set q | q in s) == (set q | q in init) + {s[|s| - 1]};
    }
  }

  /**
   * GetLowestStrictNeighbour: the four axis neighbours, out-of-bounds ones
   * removed by swap-with-last (bounds from `heightMap`), then ordered by the
   * exchange sort on the grid's heights.
   */
  method GetLowestStrictNeighbour(point: Point, heightMap: Heights, grid: Heights) returns (nb: seq<Point>)
    requires forall q :: q in StrictNeighbours(point, heightMap.width, heightMap.length) ==> InField(grid, q)
    ensures nb == ExchangeSort(grid, StrictNeighbours(point, heightMap.width, heightMap.length))
    ensures forall q :: q in nb <==> InField(heightMap, q) && Adjacent4(point, q)
    ensures Distinct(nb) && |nb| <= 4
    ensures SortedBy(grid, nb)
  {
    var w, l := heightMap.width, heightMap.length;
    var cand := Cross(point);
    var i: int := 0;
    while i < |cand|
      invariant 0 <= i <= |cand|
      invariant Prune(cand, i, w, l) == StrictNeighbours(point, w, l)
      decreases |cand| - i, |cand|
    {
      var q := cand[i];
      if q.x < 0 || q.x >= w || q.y < 0 || q.y >= l {
        cand := cand[i := cand[|cand| - 1]][..|cand| - 1];
        i := i - 1;
      }
      i := i + 1;
    }
    var a := new Point[|cand|](k requires 0 <= k < |cand| => cand[k]);
    assert a[..] == cand;
    SortByHeight(a, grid);
    nb := a[..];
    StrictNeighboursSpec(point, w, l);
    ExchangeSortSorts(grid, cand);
    PermutationKeepsDistinct(cand, nb);
  }
}
