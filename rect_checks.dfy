/** The combinational checks of the rectangle validator (day_9/rtl/checks.py),
    one function per check.  All operands are the validator's unsigned
    `coord_width`-bit registers. */
module RectChecksRtl {
  import opened RectGeometry
  import opened Registers

  /** CHECK 1 (VRC): the edge's first vertex is inside the rectangle and on
      none of its four side lines.  The second conjunct is redundant: the
      violation is exactly "strictly inside". */
  function VertexInRectangle(p: Point, rx: int, ry: int, rx2: int, ry2: int): (violation: bool)
    ensures violation <==> rx < p.x < rx2 && ry < p.y < ry2
  {
    var notOnBoundary := p.x != rx && p.x != rx2 && p.y != ry && p.y != ry2;
    var inside := p.x > rx && p.x < rx2 && p.y > ry && p.y < ry2;
    notOnBoundary && inside
  }

  /** CHECK 2 (EIC) on the shrunk box `[sx1, sx2] x [sy1, sy2]`: a vertical
      edge whose y-span strictly contains `sy1` at an x strictly between
      `sx1` and `sx2`, or a horizontal edge whose x-span strictly contains
      `sx1` at a y strictly between `sy1` and `sy2`.  An edge is flagged
      exactly when it passes through a point of the box's bottom or left
      side, strictly between that side's ends, without ending there. */
  function EdgeIntersection(p: Point, q: Point, sx1: int, sx2: int, sy1: int, sy2: int): (violation: bool)
    ensures violation ==> p != q && (p.x == q.x || p.y == q.y)
    ensures violation <==>
              (p.x == q.x && OnEdge(Point(p.x, sy1), p, q) && sx1 < p.x < sx2 && p.y != sy1 && q.y != sy1)
              || (p.y == q.y && OnEdge(Point(sx1, p.y), p, q) && sy1 < p.y < sy2 && p.x != sx1 && q.x != sx1)
  {
    var isVertical := p.x == q.x;
    var isHorizontal := p.y == q.y;
    var eymin := if p.y < q.y then p.y else q.y;
    var eymax := if p.y > q.y then p.y else q.y;
    var exmin := if p.x < q.x then p.x else q.x;
    var exmax := if p.x > q.x then p.x else q.x;
    var vIntersects := isVertical && eymin < sy1 && sy1 < eymax && sx1 < p.x && p.x < sx2;
    var hIntersects := isHorizontal && exmin < sx1 && sx1 < exmax && sy1 < p.y && p.y < sy2;
    vIntersects || hIntersects
  }

  /** The EIC verdict does not depend on the direction of the edge. */
  lemma EdgeIntersectionSymmetric(p: Point, q: Point, sx1: int, sx2: int, sy1: int, sy2: int)
    ensures EdgeIntersection(p, q, sx1, sx2, sy1, sy2) == EdgeIntersection(q, p, sx1, sx2, sy1, sy2)
  {
  }

  /** A zero-length edge never violates CHECK 2. */
  lemma EdgeIntersectionPoint(p: Point, sx1: int, sx2: int, sy1: int, sy2: int)
    ensures !EdgeIntersection(p, p, sx1, sx2, sy1, sy2)
  {
  }

  /** What CHECK 3+4 contribute for one corner and one edge. */
  datatype CornerStep = CornerStep(crossingInc: bool, boundarySet: bool)

  /** CHECK 3+4 (CV) for one corner: `crossing_inc` and `boundary_set`, both
      forced low once the corner's sticky `on_boundary` flag is set.  The
      registered min/max inputs of the hardware are not used: the bounds are
      recomputed from the endpoints, so the outputs depend on the endpoints,
      the corner and the flag only.  Unflagged, the two outputs are the
      software reference's ray-cast and boundary tests for this edge. */
  function CornerValidation(p: Point, q: Point, corner: Point, onBoundary: bool): (s: CornerStep)
    ensures onBoundary ==> !s.crossingInc && !s.boundarySet
    ensures !onBoundary ==> (s.crossingInc <==> RayHit(corner, p, q))
    ensures !onBoundary ==> (s.boundarySet <==> OnEdge(corner, p, q))
  {
    var active := !onBoundary;
    var ymin := if p.y < q.y then p.y else q.y;
    var ymax := if p.y > q.y then p.y else q.y;
    var xmin := if p.x < q.x then p.x else q.x;
    var xmax := if p.x > q.x then p.x else q.x;
    var isVertical := p.x == q.x;
    var isHorizontal := p.y == q.y;
    var rayCastHit := !isHorizontal && p.x <= corner.x && corner.y >= ymin && corner.y < ymax;
    var onVEdge := isVertical && corner.x == p.x && corner.y >= ymin && corner.y <= ymax;
    var onHEdge := isHorizontal && corner.y == p.y && corner.x >= xmin && corner.x <= xmax;
    CornerStep(active && rayCastHit, active && (onVEdge || onHEdge))
  }

  /** Examples: a vertex at the rectangle's corner is not a violation, one
      strictly inside is; a vertical edge through the bottom of the shrunk
      box is, one ending on it is not. */
  lemma CheckExamples()
    ensures !VertexInRectangle(Point(2, 2), 2, 2, 4, 4) && VertexInRectangle(Point(3, 3), 2, 2, 4, 4)
    ensures EdgeIntersection(Point(5, 0), Point(5, 10), 3, 7, 3, 7)
    ensures !EdgeIntersection(Point(5, 0), Point(5, 3), 3, 7, 3, 7)
  {
  }
}
