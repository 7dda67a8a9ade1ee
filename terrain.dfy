/**
 * Read-only views the generators work on: a W x L height field (the
 * float[,] arrays of the source) and a snapshot of the whole grid (height,
 * ground type and element list of every cell).
 */
module Terrain {
  import opened Geometry
  import opened CellData

  datatype HeightField = HeightField(width: nat, length: nat, values: seq<seq<int>>) {
    predicate WellFormed() {
      |values| == width && forall i :: 0 <= i < width ==> |values[i]| == length
    }
  }

  /** A rectangular height field. */
  type Heights = h: HeightField | h.WellFormed() witness HeightField(0, 0, [])

  predicate InField(h: Heights, p: Point) { InRect(p, h.width, h.length) }

  /**
   * The height at `p`. Every caller keeps `p` inside the field; the value
   * outside is never used.
   */
  function Height(h: Heights, p: Point): int {
    if InField(h, p) then h.values[p.x][p.y] else 0
  }

  predicate SameShape(a: Heights, b: Heights) {
    a.width == b.width && a.length == b.length
  }

  datatype Land = Land(heights: Heights, ground: seq<seq<Ground>>, elements: seq<seq<seq<ElementKind>>>) {
    predicate WellFormed() {
      && |ground| == heights.width
      && |elements| == heights.width
      && (forall i :: 0 <= i < heights.width ==> |ground[i]| == heights.length)
      && (forall i :: 0 <= i < heights.width ==> |elements[i]| == heights.length)
    }
  }

  /** A snapshot of the grid: every cell's height, ground type and elements. */
  type Terrain = t: Land | t.WellFormed() witness Land(HeightField(0, 0, []), [], [])

  function Width(t: Terrain): nat { t.heights.width }
  function Length(t: Terrain): nat { t.heights.length }

  predicate In(t: Terrain, p: Point) { InRect(p, Width(t), Length(t)) }

  function H(t: Terrain, p: Point): int { Height(t.heights, p) }

  function GroundAt(t: Terrain, p: Point): Ground
    requires In(t, p)
  {
    t.ground[p.x][p.y]
  }

  function ElementsAt(t: Terrain, p: Point): seq<ElementKind>
    requires In(t, p)
  {
    t.elements[p.x][p.y]
  }

  predicate IsWater(t: Terrain, p: Point)
    requires In(t, p)
  {
    GroundAt(t, p) == Water
  }

  /** An in-bounds water cell. */
  predicate Wet(t: Terrain, p: Point) { In(t, p) && IsWater(t, p) }

  /** An in-bounds cell that carries element `e`. */
  predicate Holds(t: Terrain, p: Point, e: ElementKind) {
    In(t, p) && e in ElementsAt(t, p)
  }

  /** The field has the grid's dimensions (the source indexes one with the other's bounds). */
  predicate FitsGrid(h: Heights, t: Terrain) { SameShape(h, t.heights) }
}
