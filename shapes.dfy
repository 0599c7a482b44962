/** `shape_square_filled`, the rectangle shape callback of the examples: an
    inclusive axis-aligned box from points[0] to points[1]. */
module Shapes {
  import opened Types

  /** The box test `shape_square_filled` makes, both bounds inclusive. */
  predicate InBox(p0: Point, p1: Point, x: real, y: real) {
    p0.x <= x <= p1.x && p0.y <= y <= p1.y
  }

  /** `shape_square_filled` of Example/Example.cpp, on double coordinates. */
  function SquareFilled(points: seq<Point>, x: real, y: real): (r: int)
    requires |points| >= 2
    ensures r == 0 || r == 1
  {
    if x >= points[0].x && x <= points[1].x && y >= points[0].y && y <= points[1].y then 1 else 0
  }

  /** `shape_square_filled` of Examples/ThreeSquares/ThreeSquares.cpp, on unsigned
      pixel coordinates compared against the double corners. */
  function SquareFilledPixel(points: seq<Point>, x: nat, y: nat): (r: int)
    requires |points| >= 2
    ensures r == SquareFilled(points, x as real, y as real)
  {
    if x as real >= points[0].x && x as real <= points[1].x &&
       y as real >= points[0].y && y as real <= points[1].y then 1 else 0
  }

  /** The shape is 1 exactly inside the inclusive box, and it reads only the first
      two points. */
  lemma SquareIsBox(points: seq<Point>, x: real, y: real)
    requires |points| >= 2
    ensures SquareFilled(points, x, y) == 1 <==> InBox(points[0], points[1], x, y)
    ensures SquareFilled(points, x, y) == 0 <==> !InBox(points[0], points[1], x, y)
    ensures SquareFilled(points, x, y) == SquareFilled(points[..2], x, y)
  {
  }

  /** The rectangle spanned by two corners in either order. */
  predicate InNormalisedBox(p0: Point, p1: Point, x: real, y: real) {
    (p0.x <= x <= p1.x || p1.x <= x <= p0.x) && (p0.y <= y <= p1.y || p1.y <= y <= p0.y)
  }

  /** With ordered corners the shape is the rectangle they span. */
  lemma OrderedCornersGiveRectangle(points: seq<Point>, x: real, y: real)
    requires |points| >= 2
    requires points[0].x <= points[1].x && points[0].y <= points[1].y
    ensures SquareFilled(points, x, y) == 1 <==> InNormalisedBox(points[0], points[1], x, y)
  {
  }

  /** Corners are not normalised: swapped corners give an empty shape, although
      the rectangle they span still contains both corners. */
  lemma SwappedCornersGiveEmptyShape(points: seq<Point>)
    requires |points| >= 2
    requires points[0].x > points[1].x || points[0].y > points[1].y
    ensures forall x: real, y: real :: SquareFilled(points, x, y) == 0
    ensures InNormalisedBox(points[0], points[1], points[0].x, points[0].y)
    ensures InNormalisedBox(points[0], points[1], points[1].x, points[1].y)
  {
  }

  /** Every point moved by (dx, dy). */
  function Translated(points: seq<Point>, dx: real, dy: real): seq<Point> {
    seq(|points|, i requires 0 <= i < |points| => Point(points[i].x + dx, points[i].y + dy))
  }

  /** Translating the corners translates the covered set. */
  lemma SquareTranslates(points: seq<Point>, dx: real, dy: real, x: real, y: real)
    requires |points| >= 2
    ensures SquareFilled(Translated(points, dx, dy), x + dx, y + dy) == SquareFilled(points, x, y)
  {
  }
}
