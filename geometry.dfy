/**
 * Integer cell coordinates, the distances the generators compare, and the
 * list helpers they share (filtering and de-duplication of coordinate lists).
 */
module Geometry {

  /** A grid coordinate (Unity's Vector2Int). */
  datatype Point = Point(x: int, y: int)

  function Abs(n: int): nat { if n < 0 then -n else n }

  /**
   * A random draw `a` brought into [0, n) by repeated subtraction; it is
   * `a % n` (ReduceIsMod), written so that proofs about the draws need no
   * reasoning about division.
   */
  function Reduce(a: nat, n: nat): (r: nat)
    requires n > 0
    ensures r < n
    decreases a
  {
    if a < n then a else Reduce(a - n, n)
  }

  lemma {:induction false} ReduceIsMod(a: nat, n: nat)
    requires n > 0
    ensures Reduce(a, n) == a % n
    decreases a
  {
    if a >= n {
      ReduceIsMod(a - n, n);
      var q, r := (a - n) / n, (a - n) % n;
      assert a == (q + 1) * n + r;
      RemainderUnique(a, n, q + 1, r);
    }
  }

  /** The remainder is the only r in [0, n) with a == q * n + r. */
  lemma RemainderUnique(a: int, n: int, q: int, r: int)
    requires n > 0 && 0 <= r < n && a == q * n + r
    ensures a % n == r
  {
    var q', r' := a / n, a % n;
    assert a == q' * n + r' && 0 <= r' < n;
    assert (q - q') * n == r' - r;
    assert (q' - q) * n == r - r';
    if q > q' {
      MulAtLeast(q - q', n);
    }
    if q' > q {
      MulAtLeast(q' - q, n);
    }
  }

  lemma MulAtLeast(d: int, n: int)
    requires d >= 1 && n > 0
    ensures d * n >= n
  {
    assert d * n == (d - 1) * n + n;
    assert (d - 1) * n >= 0;
  }

  /** King-move distance: the ring index of `q` around `p`. */
  function Chebyshev(p: Point, q: Point): nat {
    var dx, dy := Abs(p.x - q.x), Abs(p.y - q.y);
    if dx < dy then dy else dx
  }

  /** Squared Euclidean distance; it orders cells exactly as Vector2Int.Distance does. */
  function SqDist(p: Point, q: Point): int {
    (p.x - q.x) * (p.x - q.x) + (p.y - q.y) * (p.y - q.y)
  }

  /** One of the eight surrounding cells. */
  predicate Adjacent8(p: Point, q: Point) { Chebyshev(p, q) == 1 }

  /** One of the four axis-aligned ("strict") neighbours. */
  predicate Adjacent4(p: Point, q: Point) { Abs(p.x - q.x) + Abs(p.y - q.y) == 1 }

  predicate InRect(p: Point, w: int, l: int) { 0 <= p.x < w && 0 <= p.y < l }

  function Shift(p: Point, dx: int, dy: int): Point { Point(p.x + dx, p.y + dy) }

  predicate Distinct(s: seq<Point>) {
    forall i, j :: 0 <= i < j < |s| ==> s[i] != s[j]
  }

  /** The set of cells of a W x L grid. */
  function AllCells(w: nat, l: nat): set<Point> {
    set x, y | 0 <= x < w && 0 <= y < l :: Point(x, y)
  }

  lemma InAllCells(p: Point, w: nat, l: nat)
    ensures p in AllCells(w, l) <==> InRect(p, w, l)
  {
    if InRect(p, w, l) {
      assert p == Point(p.x, p.y);
    }
  }

  /** Adding a new member of `all` to `r` leaves one fewer cell of `all` outside it. */
  lemma ShrinkBy(all: set<Point>, r: set<Point>, n: Point)
    requires n in all && n !in r
    ensures |all - (r + {n})| == |all - r| - 1
  {
    assert all - r == (all - (r + {n})) + {n};
  }

  /**
   * `s` without every entry that occurs in `ex`, in the original order
   * (List.RemoveAll with a Contains predicate).
   */
  function Without(s: seq<Point>, ex: seq<Point>): (r: seq<Point>)
    ensures forall q :: q in r <==> q in s && q !in ex
    ensures |r| <= |s|
  {
    if s == [] then []
    else (if s[0] in ex then [] else [s[0]]) + Without(s[1..], ex)
  }

  lemma {:induction false} WithoutFirst(s: seq<Point>, ex: seq<Point>, k: nat)
    requires k < |s| && s[k] !in ex
    requires forall i :: 0 <= i < k ==> s[i] in ex
    ensures |Without(s, ex)| > 0 && Without(s, ex)[0] == s[k]
  {
    if k > 0 {
      WithoutFirst(s[1..], ex, k - 1);
    }
  }

  lemma {:induction false} WithoutDistinct(s: seq<Point>, ex: seq<Point>)
    requires Distinct(s)
    ensures Distinct(Without(s, ex))
  {
    if s != [] {
      WithoutDistinct(s[1..], ex);
    }
  }

  /**
   * The distinct entries of `s`, each at its first occurrence, in order
   * (LINQ Distinct).
   */
  function Dedup(s: seq<Point>): (r: seq<Point>)
    ensures forall q :: q in r <==> q in s
    ensures Distinct(r)
    ensures |r| <= |s|
  {
    if s == [] then []
    else
      var r := Dedup(s[..|s| - 1]);
      if s[|s| - 1] in r then r else r + [s[|s| - 1]]
  }

  /** `s` without its first `v` (List.Remove). */
  function RemoveValue(s: seq<Point>, v: Point): (r: seq<Point>)
    ensures v in s ==> |r| == |s| - 1
    ensures v !in s ==> r == s
  {
    if s == [] then []
    else if s[0] == v then s[1..]
    else [s[0]] + RemoveValue(s[1..], v)
  }

  /** On a list without repeats, removing `v` leaves no repeats and exactly the other entries. */
  lemma {:induction false} RemoveValueDistinct(s: seq<Point>, v: Point)
    requires Distinct(s)
    ensures Distinct(RemoveValue(s, v)) && forall q :: q in RemoveValue(s, v) <==> q in s && q != v
  {
    if s != [] && s[0] != v {
      assert Distinct(s[1..]) && s[0] !in s[1..];
      RemoveValueDistinct(s[1..], v);
    }
  }

  /** Removing the first `v` takes exactly one `v` out of the multiset, and nothing when `v` is absent. */
  lemma {:induction false} RemoveValueCounts(s: seq<Point>, v: Point)
    ensures multiset(RemoveValue(s, v)) == multiset(s) - multiset{v}
  {
    if s != [] {
      assert s == [s[0]] + s[1..];
      if s[0] != v {
        RemoveValueCounts(s[1..], v);
      }
    }
  }

  /** Some cell of `s` is a 4-neighbour of `q`. */
  ghost predicate Touches(s: seq<Point>, q: Point) {
    exists m :: 0 <= m < |s| && Adjacent4(s[m], q)
  }

  lemma TouchesGrow(s: seq<Point>, c: Point, q: Point)
    requires Touches(s, q)
    ensures Touches(s + [c], q)
  {
    var m :| 0 <= m < |s| && Adjacent4(s[m], q);
    assert (s + [c])[m] == s[m];
  }

  /** Where a concatenation splits, and the entry just past the split. */
  lemma SplitAt(a: seq<Point>, b: seq<Point>)
    requires |b| > 0
    ensures (a + b)[..|a|] == a && (a + b)[|a|] == b[0] && (a + b)[|a| + 1..] == b[1..]
    ensures (a + b)[..|a|] + (a + b)[|a| + 1..] == a + b[1..]
    ensures a + b == (a + [b[0]]) + b[1..]
  {
    assert (a + b)[..|a|] == a && (a + b)[|a| + 1..] == b[1..];
    assert b == [b[0]] + b[1..];
  }
}
