/**
 * One grid tile (CellData.cs): its height, ground type and slope, and the
 * list of map elements placed on it together with one render handle each.
 */
module CellData {

  /** GroundType, in declaration order. */
  datatype Ground = Slopes | Plains | HighLands | Mountains | MountainTop | Water

  /** The kinds of element a cell can carry (enum Elements). */
  datatype ElementKind = River | Forest | Settlement

  /** An opaque render handle (a Unity Transform); the model never looks inside. */
  datatype Handle = Handle(id: nat)

  /** The stored slope vector; it is kept, never interpreted. */
  datatype Slope = Slope(dx: real, dy: real)

  /** Index of the first `e` in `s`, or `|s|` when there is none. */
  function IndexOf(s: seq<ElementKind>, e: ElementKind): (k: nat)
    ensures k <= |s|
    ensures k < |s| ==> s[k] == e
    ensures forall i :: 0 <= i < k ==> s[i] != e
  {
    if s == [] then 0
    else if s[0] == e then 0
    else 1 + IndexOf(s[1..], e)
  }

  /** `s` with the entry at index `k` taken out (List.RemoveAt). */
  function RemoveAt<T>(s: seq<T>, k: nat): seq<T>
    requires k < |s|
  {
    s[..k] + s[k + 1..]
  }

  /** The element list after removing the first `e`, if any. */
  function RemoveFirst(s: seq<ElementKind>, e: ElementKind): seq<ElementKind> {
    var k := IndexOf(s, e);
    if k < |s| then RemoveAt(s, k) else s
  }

  /** Removing the first `e` takes exactly one `e` out of the multiset, and nothing when `e` is absent. */
  lemma RemoveFirstCounts(s: seq<ElementKind>, e: ElementKind)
    ensures multiset(RemoveFirst(s, e)) == multiset(s) - multiset{e}
    ensures e !in s ==> RemoveFirst(s, e) == s
    ensures e in s ==> |RemoveFirst(s, e)| == |s| - 1
  {
    var k := IndexOf(s, e);
    if k < |s| {
      assert s == s[..k] + [s[k]] + s[k + 1..];
      assert multiset(s) == multiset(s[..k]) + multiset{e} + multiset(s[k + 1..]);
    } else {
      assert e !in s;
    }
  }

  class Cell {
    // Height and Slope have private setters that only the constructor uses.
    const height: int
    const slope: Slope
    /** The cell's own tile object in the scene (CellData.Element). */
    const tile: Handle
    var ground: Ground
    var elements: seq<ElementKind>
    /** elementsTransform: the render handle bound with each element. */
    var handles: seq<Handle>

    /** Every element has a handle; RemoveAllElements may leave extra handles behind. */
    ghost predicate Valid()
      reads this
    {
      |elements| <= |handles|
    }

    /** Each element is at the same index as the handle it was added with. */
    ghost predicate Aligned()
      reads this
    {
      |elements| == |handles|
    }

    constructor (height: int, ground: Ground, slope: Slope, tile: Handle)
      ensures Valid() && Aligned()
      ensures this.height == height && this.ground == ground
      ensures this.slope == slope && this.tile == tile
      ensures elements == [] && handles == []
    {
      this.height := height;
      this.ground := ground;
      this.slope := slope;
      this.tile := tile;
      elements := [];
      handles := [];
    }

    method AddElement(e: ElementKind, h: Handle)
      requires Valid()
      modifies this
      ensures Valid()
      ensures elements == old(elements) + [e] && handles == old(handles) + [h]
      ensures old(Aligned()) ==> Aligned()
      ensures ground == old(ground)
    {
      elements := elements + [e];
      handles := handles + [h];
    }

    method SetGroundType(g: Ground)
      modifies this
      ensures ground == g
      ensures elements == old(elements) && handles == old(handles)
    {
      ground := g;
    }

    /**
     * Removes the first `e` and the handle at the same index, and returns
     * that handle as the one released; a no-op releasing nothing when `e`
     * is absent.
     */
    method RemoveElement(e: ElementKind) returns (released: seq<Handle>)
      requires Valid()
      modifies this
      ensures Valid()
      ensures var k := IndexOf(old(elements), e);
        released == if k < |old(elements)| then [old(handles)[k]] else []
      ensures elements == RemoveFirst(old(elements), e)
      ensures var k := IndexOf(old(elements), e);
        handles == if k < |old(elements)| then RemoveAt(old(handles), k) else old(handles)
      ensures old(Aligned()) ==> Aligned()
      ensures ground == old(ground)
    {
      released := [];
      var i := 0;
      while i < |elements|
        invariant 0 <= i <= |elements|
        invariant elements == old(elements) && handles == old(handles)
        invariant forall k :: 0 <= k < i ==> elements[k] != e
      {
        if elements[i] == e {
          assert IndexOf(elements, e) == i;
          released := [handles[i]];
          elements := RemoveAt(elements, i);
          handles := RemoveAt(handles, i);
          return;
        }
        i := i + 1;
      }
      assert IndexOf(elements, e) == |elements|;
    }

    /**
     * Empties the element list one head at a time. The loop hands
     * handles[0] to the renderer on every pass and never shortens the handle
     * list, so the returned `released` repeats the first handle and the
     * handle list is left as it was.
     */
    method RemoveAllElements() returns (released: seq<Handle>)
      requires Valid()
      modifies this
      ensures Valid()
      ensures elements == [] && handles == old(handles)
      ensures released == ReleasedByRemoveAll(old(elements), old(handles))
      ensures ground == old(ground)
    {
      released := [];
      ghost var n := |elements|;
      while |elements| > 0
        invariant Valid() && handles == old(handles) && ground == old(ground)
        invariant |elements| <= n && released == ReleasedByRemoveAll(old(elements), old(handles))[..n - |elements|]
        invariant elements == old(elements)[n - |elements|..]
      {
        released := released + [handles[0]];
        elements := elements[1..];
      }
    }

    /** RemoveAllElements with the handle removed together with its element, as RemoveElement does. */
    method RemoveAllElementsAndHandles() returns (released: seq<Handle>)
      requires Valid()
      modifies this
      ensures Valid()
      ensures elements == [] && released == ReleasedWithHandles(old(elements), old(handles))
      ensures handles == old(handles)[|old(elements)|..]
      ensures ground == old(ground)
    {
      released := [];
      ghost var n := |elements|;
      while |elements| > 0
        invariant Valid() && ground == old(ground)
        invariant |elements| <= n && n - |elements| <= |old(handles)|
        invariant elements == old(elements)[n - |elements|..] && handles == old(handles)[n - |elements|..]
        invariant released == old(handles)[..n - |elements|]
      {
        released := released + [handles[0]];
        elements := elements[1..];
        handles := handles[1..];
      }
    }
  }

  /** The handles RemoveAllElements gives the renderer: handles[0] once per element. */
  function ReleasedByRemoveAll(elements: seq<ElementKind>, handles: seq<Handle>): (r: seq<Handle>)
    requires |elements| <= |handles|
    ensures |r| == |elements| && forall k :: 0 <= k < |r| ==> r[k] == handles[0]
  {
    seq(|elements|, k requires 0 <= k < |elements| => handles[0])
  }

  /** The handles released when each element's own handle goes with it: the first |elements| handles. */
  function ReleasedWithHandles(elements: seq<ElementKind>, handles: seq<Handle>): (r: seq<Handle>)
    requires |elements| <= |handles|
    ensures |r| == |elements| && forall k :: 0 <= k < |r| ==> r[k] == handles[k]
  {
    handles[..|elements|]
  }

  /**
   * A cell with two elements: RemoveAllElements releases the first handle
   * twice and never the second, whose tile object stays in the scene.
   */
  lemma RemoveAllKeepsSecondHandle()
    ensures var r := ReleasedByRemoveAll([River, Forest], [Handle(0), Handle(1)]);
      r == [Handle(0), Handle(0)] && Handle(1) !in r
  {
    var r := ReleasedByRemoveAll([River, Forest], [Handle(0), Handle(1)]);
    assert r[0] == Handle(0) && r[1] == Handle(0);
  }

  /** With element and handle lists aligned, every handle is released exactly once and none is left. */
  lemma RemoveAllWithHandlesReleasesEach(elements: seq<ElementKind>, handles: seq<Handle>)
    requires |elements| == |handles|
    ensures ReleasedWithHandles(elements, handles) == handles
    ensures handles[|elements|..] == []
  {
  }
}
