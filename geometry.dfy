/**
  Rectangles and points as the monitor compares them. Coordinates are only compared,
  never computed, so integers stand for the DOM's floating-point values.
 */
module Geometry {

  /** A bounding box `left/top/right/bottom`; two rectangles are equal when all four
      edges are (the field-wise `Rect.equals` of the source). */
  datatype Rect = Rect(left: int, top: int, right: int, bottom: int)

  datatype Point = Point(x: int, y: int)

  /** The point lies in the rectangle, edges included. */
  predicate Inside(p: Point, r: Rect) {
    r.left <= p.x <= r.right && r.top <= p.y <= r.bottom
  }
}
