/**
 * Integer pixel geometry shared by the game and the editor: a point and the
 * point-in-rectangle test of the graphics library's `Rect.collidepoint`.
 */
module Rects {

  /** A pixel (or grid) position `(x, y)`. */
  type Pos = (int, int)

  /** An axis-aligned rectangle: top-left corner, width and height. */
  datatype Rect = Rect(x: int, y: int, w: int, h: int)

  /**
   * `Rect.collidepoint`: the left and top edges are inside, the right and
   * bottom edges are not.
   */
  function CollidePoint(r: Rect, p: Pos): (b: bool)
    // the point's offset from the corner lies within the size on both axes
    ensures b <==> 0 <= p.0 - r.x < r.w && 0 <= p.1 - r.y < r.h
    // a rectangle with no width or no height contains no point
    ensures r.w <= 0 || r.h <= 0 ==> !b
  {
    r.x <= p.0 < r.x + r.w && r.y <= p.1 < r.y + r.h
  }
}
