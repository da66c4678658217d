/** The axis-aligned rectangle of geomUtils/inc/rect.h, over integer coordinates. */
module Rects {

  /** Rect(x, y, width, height); the accessors are the datatype's fields. */
  datatype Rect = Rect(x: int, y: int, width: int, height: int)
  {
    /** contains(x, y): the point, translated to the rectangle's origin, lies in [0, width) x [0, height). */
    predicate Contains(px: int, py: int)
    {
      var xTrans, yTrans := px - x, py - y;
      xTrans >= 0 && xTrans < width && yTrans >= 0 && yTrans < height
    }
  }

  /** Containment is half-open: the low edges are inside, the high edges outside. */
  lemma ContainsHalfOpen(r: Rect, px: int, py: int)
    ensures r.Contains(px, py) <==> r.x <= px < r.x + r.width && r.y <= py < r.y + r.height
    ensures !r.Contains(r.x + r.width, py) && !r.Contains(px, r.y + r.height)
  {
  }

  /** A rectangle without width or without height contains no point. */
  lemma EmptyContainsNothing(r: Rect, px: int, py: int)
    requires r.width <= 0 || r.height <= 0
    ensures !r.Contains(px, py)
  {
  }

  /** The origin corner is contained exactly when the rectangle is not empty. */
  lemma OriginContained(r: Rect)
    ensures r.Contains(r.x, r.y) <==> r.width > 0 && r.height > 0
  {
  }
}
