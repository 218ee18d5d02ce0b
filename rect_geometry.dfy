/** Shared vocabulary of the day_9 rectangle search: points, axis-aligned
    rectangles, the bounding box of a vertex pair with its area formula, and
    the two per-edge tests every validator in the repository uses — "the
    point lies on this edge" and "this edge is crossed by the ray cast to the
    right of the point". */
module RectGeometry {
  import opened Registers

  datatype Point = Point(x: int, y: int)

  /** An axis-aligned rectangle: corner `(x, y)`, width `w`, height `h`. */
  datatype Rect = Rect(x: int, y: int, w: int, h: int)

  function Min(a: int, b: int): (m: int)
    ensures m <= a && m <= b && (m == a || m == b)
  {
    if a < b then a else b
  }

  function Max(a: int, b: int): (m: int)
    ensures m >= a && m >= b && (m == a || m == b)
  {
    if a > b then a else b
  }

  /** The candidate of a vertex pair: the min/max bounding box of the two
      points, at the lower-left corner with non-negative width and height. */
  function Candidate(p: Point, q: Point): (r: Rect)
    ensures r.w >= 0 && r.h >= 0
    ensures r.x <= p.x <= r.x + r.w && r.x <= q.x <= r.x + r.w
    ensures r.y <= p.y <= r.y + r.h && r.y <= q.y <= r.y + r.h
    ensures (p.x == r.x || p.x == r.x + r.w) && (q.x == r.x || q.x == r.x + r.w)
    ensures (p.y == r.y || p.y == r.y + r.h) && (q.y == r.y || q.y == r.y + r.h)
  {
    Rect(Min(p.x, q.x), Min(p.y, q.y), Max(p.x, q.x) - Min(p.x, q.x), Max(p.y, q.y) - Min(p.y, q.y))
  }

  /** A pair whose bounding box has zero width or height is skipped. */
  predicate Degenerate(r: Rect)
  {
    r.w == 0 || r.h == 0
  }

  /** The area formula `(w + 4) * (h + 4)`: on coordinates scaled by 4 it is
      16 times the number of lattice points of the unscaled box. */
  function Area(r: Rect): int
  {
    (r.w + 4) * (r.h + 4)
  }

  /** The pair order is irrelevant to the candidate. */
  lemma CandidateSymmetric(p: Point, q: Point)
    ensures Candidate(p, q) == Candidate(q, p)
  {
  }

  /** A non-degenerate candidate has area above 25. */
  lemma AreaPositive(r: Rect)
    requires r.w >= 0 && r.h >= 0 && !Degenerate(r)
    ensures Area(r) >= 25
  {
    assert r.w + 4 >= 5 && r.h + 4 >= 5;
    assert (r.w + 4) * (r.h + 4) >= 5 * (r.h + 4) >= 25;
  }

  /** On a four-times scaled box `(4W, 4H)` the area formula is sixteen times
      the lattice-point count `(W + 1) * (H + 1)`, so shifting right by 4
      recovers that count. */
  lemma AreaOfScaled(wd: nat, ht: nat)
    ensures Area(Rect(0, 0, 4 * wd, 4 * ht)) == 16 * ((wd + 1) * (ht + 1))
    ensures Area(Rect(0, 0, 4 * wd, 4 * ht)) / 16 == (wd + 1) * (ht + 1)
  {
    assert (4 * wd + 4) * (4 * ht + 4) == 16 * ((wd + 1) * (ht + 1));
  }

  // ---------------------------------------------------------------------------
  // Per-edge tests.

  /** The point lies on the edge `p -> q`: on a horizontal edge at its height
      within its x-span, or on a vertical edge at its x within its y-span,
      endpoints included. */
  predicate OnEdge(c: Point, p: Point, q: Point)
  {
    (p.y == q.y && c.y == p.y && Min(p.x, q.x) <= c.x <= Max(p.x, q.x))
    || (p.x == q.x && c.x == p.x && Min(p.y, q.y) <= c.y <= Max(p.y, q.y))
  }

  /** The edge `p -> q` counts as a crossing of the ray from `c` to the
      right: it is not horizontal, its first endpoint is at or left of `c`,
      and `c.y` lies in the half-open span `[ymin, ymax)`. */
  predicate RayHit(c: Point, p: Point, q: Point)
  {
    p.y != q.y && p.x <= c.x && Min(p.y, q.y) <= c.y < Max(p.y, q.y)
  }

  /** For an axis-parallel edge, "on the edge" is "inside the segment's
      bounding box": the test is exactly membership of the segment. */
  lemma OnEdgeIsOnSegment(c: Point, p: Point, q: Point)
    requires p.x == q.x || p.y == q.y
    ensures OnEdge(c, p, q) <==>
              Min(p.x, q.x) <= c.x <= Max(p.x, q.x) && Min(p.y, q.y) <= c.y <= Max(p.y, q.y)
  {
  }

  /** The boundary test does not depend on the direction of the edge. */
  lemma OnEdgeSymmetric(c: Point, p: Point, q: Point)
    ensures OnEdge(c, p, q) <==> OnEdge(c, q, p)
  {
  }

  /** A zero-length edge is never crossed, and a point is on it only when it
      is that point. */
  lemma PointEdge(c: Point, p: Point)
    ensures !RayHit(c, p, p)
    ensures OnEdge(c, p, p) <==> c == p
  {
  }

  // ---------------------------------------------------------------------------
  // Polygon-level tests: the vertices in order, the edge from vertex `k` to
  // vertex `k + 1` and a closing edge from the last vertex to the first.

  function NextIndex(n: nat, k: nat): (j: nat)
    requires k < n
    ensures j < n
    ensures k + 1 < n ==> j == k + 1
    ensures k + 1 == n ==> j == 0
  {
    if k + 1 < n then k + 1 else 0
  }

  /** The number of the first `k` edges the ray from `c` crosses. */
  function CrossingsUpTo(vs: seq<Point>, c: Point, k: nat): (count: nat)
    requires k <= |vs|
    ensures count <= k
  {
    if k == 0 then 0
    else CrossingsUpTo(vs, c, k - 1)
         + (if RayHit(c, vs[k - 1], vs[NextIndex(|vs|, k - 1)]) then 1 else 0)
  }

  /** The indices of the crossed edges among the first `k`. */
  ghost function CrossedEdges(vs: seq<Point>, c: Point, k: nat): set<nat>
    requires k <= |vs|
  {
    set i: nat | i < k && RayHit(c, vs[i], vs[NextIndex(|vs|, i)])
  }

  /** The count is the number of crossed edges among the first `k`. */
  lemma {:induction false} CrossingsUpToCounts(vs: seq<Point>, c: Point, k: nat)
    requires k <= |vs|
    ensures CrossingsUpTo(vs, c, k) == |CrossedEdges(vs, c, k)|
  {
    if k == 0 {
      assert CrossedEdges(vs, c, k) == {};
    } else {
      CrossingsUpToCounts(vs, c, k - 1);
      if RayHit(c, vs[k - 1], vs[NextIndex(|vs|, k - 1)]) {
        assert CrossedEdges(vs, c, k) == CrossedEdges(vs, c, k - 1) + {k - 1};
        assert k - 1 !in CrossedEdges(vs, c, k - 1);
      } else {
        assert CrossedEdges(vs, c, k) == CrossedEdges(vs, c, k - 1);
      }
    }
  }

  /** Whether one of the first `k` edges has `c` on it. */
  function OnBoundaryUpTo(vs: seq<Point>, c: Point, k: nat): (on: bool)
    requires k <= |vs|
    ensures on <==> exists i :: 0 <= i < k && OnEdge(c, vs[i], vs[NextIndex(|vs|, i)])
  {
    if k == 0 then false
    else OnBoundaryUpTo(vs, c, k - 1) || OnEdge(c, vs[k - 1], vs[NextIndex(|vs|, k - 1)])
  }
}
