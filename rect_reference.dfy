/** The day_9 software reference (day_9/software_reference/max_rectangle_finder.py):
    vertices are stored scaled by 4, every vertex pair's bounding box is a
    candidate, and a candidate is valid when no vertex lies strictly inside
    it, no edge meets it shrunk by 4, and each of its four corners is on the
    polygon's boundary or has an odd ray-casting count.  Python's integers
    are unbounded and signed, and so are these. */
module RectReference {
  import opened RectGeometry
  import opened Registers
  import opened PairSearch

  /** Coordinates are stored multiplied by this factor. */
  const ScaleFactor: int := 4

  function Scale(x: int, y: int): (p: Point)
    ensures p.x == ScaleFactor * x && p.y == ScaleFactor * y
  {
    Point(x * ScaleFactor, y * ScaleFactor)
  }

  /** CHECK 2's test of one edge against the shrunk box
      `[rx1, rx2] x [ry1, ry2]`, the endpoints ordered first: a horizontal
      edge strictly between the box's bottom and top that overlaps its
      x-range, or a vertical edge strictly between its left and right that
      overlaps its y-range. */
  function EdgeIntersectsRect(p: Point, q: Point, rx1: int, ry1: int, rx2: int, ry2: int): (hit: bool)
    ensures hit ==> p.x == q.x || p.y == q.y
  {
    var x1 := Min(p.x, q.x);
    var x2 := Max(p.x, q.x);
    var y1 := Min(p.y, q.y);
    var y2 := Max(p.y, q.y);
    (y1 == y2 && ry1 < y1 < ry2 && !(x2 <= rx1 || x1 >= rx2))
    || (x1 == x2 && rx1 < x1 < rx2 && !(y2 <= ry1 || y1 >= ry2))
  }

  /** Ordering the endpoints first makes the test independent of the
      edge's direction. */
  lemma EdgeIntersectsRectSymmetric(p: Point, q: Point, rx1: int, ry1: int, rx2: int, ry2: int)
    ensures EdgeIntersectsRect(p, q, rx1, ry1, rx2, ry2) == EdgeIntersectsRect(q, p, rx1, ry1, rx2, ry2)
  {
  }

  /** For an axis-parallel edge and a box with an integer point strictly
      inside, the test says exactly that some point of the edge lies
      strictly inside the box. */
  lemma EdgeIntersectsRectMeaning(p: Point, q: Point, rx1: int, ry1: int, rx2: int, ry2: int)
    requires p.x == q.x || p.y == q.y
    requires rx1 + 1 < rx2 && ry1 + 1 < ry2
    ensures EdgeIntersectsRect(p, q, rx1, ry1, rx2, ry2) <==>
              exists c: Point :: OnEdge(c, p, q) && rx1 < c.x < rx2 && ry1 < c.y < ry2
  {
    var x1, x2, y1, y2 := Min(p.x, q.x), Max(p.x, q.x), Min(p.y, q.y), Max(p.y, q.y);
    if y1 == y2 && ry1 < y1 < ry2 && !(x2 <= rx1 || x1 >= rx2) {
      var c := Point(Max(x1, rx1 + 1), y1);
      assert OnEdge(c, p, q) && rx1 < c.x < rx2 && ry1 < c.y < ry2;
    } else if x1 == x2 && rx1 < x1 < rx2 && !(y2 <= ry1 || y1 >= ry2) {
      var c := Point(x1, Max(y1, ry1 + 1));
      assert OnEdge(c, p, q) && rx1 < c.x < rx2 && ry1 < c.y < ry2;
    }
  }

  /** CHECK 1: the vertex lies strictly inside the rectangle. */
  predicate StrictlyInside(v: Point, r: Rect)
  {
    r.x < v.x < r.x + r.w && r.y < v.y < r.y + r.h
  }

  /** The corners in the order the reference tests them: bottom-left,
      bottom-right, top-left, top-right. */
  function Corners(r: Rect): (cs: seq<Point>)
    ensures |cs| == 4
  {
    [Point(r.x, r.y), Point(r.x + r.w, r.y), Point(r.x, r.y + r.h), Point(r.x + r.w, r.y + r.h)]
  }

  /** The four corners are exactly the points at `x` or `x + w` and at `y`
      or `y + h`. */
  lemma CornersAre(r: Rect)
    ensures forall c: Point :: c in Corners(r) <==>
              (c.x == r.x || c.x == r.x + r.w) && (c.y == r.y || c.y == r.y + r.h)
  {
    var cs := Corners(r);
    forall c: Point | (c.x == r.x || c.x == r.x + r.w) && (c.y == r.y || c.y == r.y + r.h)
      ensures c in cs
    {
      if c.x == r.x && c.y == r.y { assert c == cs[0]; }
      else if c.y == r.y { assert c == cs[1]; }
      else if c.x == r.x { assert c == cs[2]; }
      else { assert c == cs[3]; }
    }
  }

  /** CHECK 1 and CHECK 2 pass for the edge that starts at vertex `k`. */
  predicate EdgeClear(vs: seq<Point>, r: Rect, k: nat)
    requires k < |vs|
  {
    !StrictlyInside(vs[k], r)
    && !EdgeIntersectsRect(vs[k], vs[NextIndex(|vs|, k)], r.x + 4, r.y + 4, r.x + r.w - 4, r.y + r.h - 4)
  }

  /** CHECK 3 and CHECK 4 pass for a corner: it is on the boundary or the
      ray from it crosses an odd number of edges. */
  predicate CornerInside(vs: seq<Point>, c: Point)
  {
    OnBoundaryUpTo(vs, c, |vs|) || CrossingsUpTo(vs, c, |vs|) % 2 == 1
  }

  /** The reference's verdict on a rectangle. */
  predicate ReferenceValid(vs: seq<Point>, r: Rect)
  {
    (forall k :: 0 <= k < |vs| ==> EdgeClear(vs, r, k))
    && (forall c :: c in Corners(r) ==> CornerInside(vs, c))
  }

  /** The verdict as the validity test the pair search takes. */
  function ValidIn(vs: seq<Point>): (valid: Rect -> bool)
    ensures forall r :: valid(r) == ReferenceValid(vs, r)
  {
    r => ReferenceValid(vs, r)
  }

  /** Some point of the edge `p -> q` lies strictly inside the rectangle
      shrunk by 4 on every side. */
  ghost predicate MeetsShrunk(p: Point, q: Point, r: Rect)
  {
    exists c: Point :: OnEdge(c, p, q) && r.x + 4 < c.x < r.x + r.w - 4 && r.y + 4 < c.y < r.y + r.h - 4
  }

  /** On a rectilinear polygon and a rectangle wider and taller than 9, a
      valid rectangle is one with no vertex strictly inside it, no edge
      meeting the inside of the box shrunk by 4, and every corner on the
      boundary or with an odd crossing count. */
  lemma ReferenceValidMeaning(vs: seq<Point>, r: Rect)
    requires forall k :: 0 <= k < |vs| ==> vs[k].x == vs[NextIndex(|vs|, k)].x || vs[k].y == vs[NextIndex(|vs|, k)].y
    requires r.w > 9 && r.h > 9
    ensures ReferenceValid(vs, r) <==>
              (forall k :: 0 <= k < |vs| ==>
                 !StrictlyInside(vs[k], r) && !MeetsShrunk(vs[k], vs[NextIndex(|vs|, k)], r))
              && (forall c: Point :: (c.x == r.x || c.x == r.x + r.w) && (c.y == r.y || c.y == r.y + r.h) ==>
                    CornerInside(vs, c))
  {
    forall k | 0 <= k < |vs|
      ensures EdgeClear(vs, r, k) <==> !StrictlyInside(vs[k], r) && !MeetsShrunk(vs[k], vs[NextIndex(|vs|, k)], r)
    {
      EdgeIntersectsRectMeaning(vs[k], vs[NextIndex(|vs|, k)], r.x + 4, r.y + 4, r.x + r.w - 4, r.y + r.h - 4);
    }
    CornersAre(r);
  }

  /** A candidate of two scaled vertices has a width and height that are
      multiples of 4, so its area shifted right by 4 is the number of lattice
      points of the unscaled box. */
  lemma ScaledCandidateArea(x1: int, y1: int, x2: int, y2: int)
    ensures Area(Candidate(Scale(x1, y1), Scale(x2, y2))) / 16
            == (Max(x1, x2) - Min(x1, x2) + 1) * (Max(y1, y2) - Min(y1, y2) + 1)
  {
    var c := Candidate(Scale(x1, y1), Scale(x2, y2));
    assert c.w == 4 * (Max(x1, x2) - Min(x1, x2));
    assert c.h == 4 * (Max(y1, y2) - Min(y1, y2));
    AreaOfScaled(Max(x1, x2) - Min(x1, x2), Max(y1, y2) - Min(y1, y2));
    assert Area(c) == Area(Rect(0, 0, c.w, c.h));
  }

  /** The reference's area register never overflows. */
  lemma UnboundedNoOverflow(vs: seq<Point>)
    ensures NoOverflow(vs, Unbounded)
  {
  }

  class MaxRectangleFinder {
    var vertices: seq<Point>
    var maxArea: int
    var rectanglesTested: nat
    var rectanglesPruned: nat
    var validRectanglesFound: nat

    /** The search registers as the pair search names them. */
    ghost function Stats(): SearchState
      reads this
    {
      SearchState(maxArea, validRectanglesFound, rectanglesTested, rectanglesPruned)
    }

    constructor()
      ensures vertices == [] && Stats() == Initial
    {
      vertices := [];
      maxArea := 0;
      rectanglesTested := 0;
      rectanglesPruned := 0;
      validRectanglesFound := 0;
    }

    /** Appends the vertex scaled by 4. */
    method AddVertex(x: int, y: int)
      modifies this
      ensures vertices == old(vertices) + [Scale(x, y)]
      ensures Stats() == old(Stats())
    {
      var scaledX := x * ScaleFactor;
      var scaledY := y * ScaleFactor;
      vertices := vertices + [Point(scaledX, scaledY)];
    }

    /** The number of edges the ray from `c` to the right crosses. */
    method RayCastCrossings(c: Point) returns (crossings: nat)
      ensures crossings == CrossingsUpTo(vertices, c, |vertices|)
      ensures crossings <= |vertices|
    {
      crossings := 0;
      var n := |vertices|;
      for i := 0 to n
        invariant crossings == CrossingsUpTo(vertices, c, i)
      {
        var p := vertices[i];
        ModRange(i + 1, n);
        var q := vertices[(i + 1) % n];
        if p.y == q.y {
          continue;
        }
        var ymin := Min(p.y, q.y);
        var ymax := Max(p.y, q.y);
        if p.x <= c.x && ymin <= c.y < ymax {
          crossings := crossings + 1;
        }
      }
    }

    /** The four checks, in the reference's order, stopping at the first
        failure. */
    method ValidateRectangle(r: Rect) returns (ok: bool)
      ensures ok == ReferenceValid(vertices, r)
    {
      var vs := vertices;
      var x2 := r.x + r.w;
      var y2 := r.y + r.h;
      var shrinkX1, shrinkX2, shrinkY1, shrinkY2 := r.x + 4, x2 - 4, r.y + 4, y2 - 4;
      var n := |vs|;
      for k := 0 to n
        invariant forall e :: 0 <= e < k ==> EdgeClear(vs, r, e)
      {
        var p := vs[k];
        ModRange(k + 1, n);
        var q := vs[(k + 1) % n];
        if r.x < p.x < x2 && r.y < p.y < y2 {
          assert !EdgeClear(vs, r, k);
          return false;
        }
        if EdgeIntersectsRect(p, q, shrinkX1, shrinkY1, shrinkX2, shrinkY2) {
          assert !EdgeClear(vs, r, k);
          return false;
        }
      }
      var corners := Corners(r);
      for m := 0 to 4
        invariant forall e :: 0 <= e < m ==> CornerInside(vs, corners[e])
      {
        var c := corners[m];
        var onBoundary := OnBoundaryUpTo(vs, c, n);
        var crossings := RayCastCrossings(c);
        if !(onBoundary || crossings % 2 == 1) {
          assert !CornerInside(vs, corners[m]);
          return false;
        }
      }
      return true;
    }

    /** One pair's turn in the search (the body of the nested loops): the
        registers take the step `Visit` describes, with this reference's
        validity test and an unbounded maximum. */
    method VisitPair(i: nat, j: nat)
      requires i < j < |vertices|
      modifies this
      ensures vertices == old(vertices)
      ensures Stats() == Visit(old(Stats()), PairCandidate(vertices, i, j), ValidIn(vertices), Unbounded)
    {
      var p := vertices[i];
      var q := vertices[j];
      var minX, maxX := Min(p.x, q.x), Max(p.x, q.x);
      var minY, maxY := Min(p.y, q.y), Max(p.y, q.y);
      var width := maxX - minX;
      var height := maxY - minY;
      if width == 0 || height == 0 {
        return;
      }
      var candidateArea := (width + 4) * (height + 4);
      if candidateArea <= maxArea {
        rectanglesPruned := rectanglesPruned + 1;
        return;
      }
      var ok := ValidateRectangle(Rect(minX, minY, width, height));
      if ok {
        if candidateArea > maxArea {
          maxArea := candidateArea;
        }
        validRectanglesFound := validRectanglesFound + 1;
      }
      rectanglesTested := rectanglesTested + 1;
    }

    /** The search over all vertex pairs.  With fewer than 3 vertices it
        returns 0 and leaves the statistics as they were; otherwise the
        registers end as the pair search's result, so the maximum is the
        largest area of a valid candidate, and the result is that area
        shifted right by 4. */
    method FindMaxRectangle() returns (area: int)
      modifies this
      ensures vertices == old(vertices)
      ensures |vertices| < 3 ==> area == 0 && Stats() == old(Stats())
      ensures |vertices| >= 3 ==> Stats() == Search(vertices, ValidIn(vertices), Unbounded)
      ensures |vertices| >= 3 ==> Summary(vertices, ValidIn(vertices), Stats(), |vertices|, 0)
      ensures |vertices| >= 3 ==> area == maxArea / 16
    {
      if |vertices| < 3 {
        return 0;
      }
      maxArea := 0;
      rectanglesTested := 0;
      rectanglesPruned := 0;
      validRectanglesFound := 0;
      var n := |vertices|;
      ghost var vs := vertices;
      ghost var valid := ValidIn(vs);
      ghost var result := Search(vs, valid, Unbounded);
      for i := 0 to n
        invariant vertices == vs
        invariant SearchFrom(vs, valid, Unbounded, i, i + 1, Stats()) == result
      {
        for j := i + 1 to n
          invariant vertices == vs
          invariant SearchFrom(vs, valid, Unbounded, i, j, Stats()) == result
        {
          ghost var st := Stats();
          assert SearchFrom(vs, valid, Unbounded, i, j, st)
                 == SearchFrom(vs, valid, Unbounded, i, j + 1, Visit(st, PairCandidate(vs, i, j), valid, Unbounded));
          VisitPair(i, j);
        }
        assert SearchFrom(vs, valid, Unbounded, i, n, Stats()) == SearchFrom(vs, valid, Unbounded, i + 1, i + 2, Stats());
      }
      assert SearchFrom(vs, valid, Unbounded, n, n + 1, Stats()) == Stats();
      UnboundedNoOverflow(vs);
      SearchIsMaximum(vs, valid, Unbounded);
      return maxArea / 16;
    }
  }
}
