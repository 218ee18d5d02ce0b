/** The rectangle validator (day_9/rtl/validate_rectangle.py): the polygon's
    vertices sit in a block RAM; a validation walks the closed polygon's
    edges circularly from `start_vertex`, applying CHECK 1 and CHECK 2 to each
    edge and stopping at the first violation, and otherwise accumulating, for
    each of the rectangle's four corners, a 16-bit ray-crossing counter and a
    sticky on-boundary flag.  FINALIZE publishes the verdict.

    Everything about a walk is stated in terms of the number of PROCESS
    steps it takes: step `s` examines the edge that starts at vertex
    `(start_vertex + s) mod n`.  As written the walk takes `n + 1` steps, so
    the start edge is examined twice (see `AsWrittenCountsStartEdgeTwice`);
    the corrected walk takes `n` steps, and its verdict is the order-free
    `InsidePolygon` whatever the start vertex. */
module ValidateRectangleRtl {
  import opened Wrappers
  import opened RectGeometry
  import opened Registers
  import opened RectChecksRtl

  /** The crossing counters are 16-bit registers. */
  const CrossingModulus: int := 0x1_0000

  /** The constructor's parameter check: `coord_width` in 16..32 and
      `max_vertices` in 3..8192, a `ValueError` otherwise. */
  function CheckParameters(coordWidth: int, maxVertices: int): (r: Result<()>)
    ensures r.Success? <==> 16 <= coordWidth <= 32 && 3 <= maxVertices <= 8192
  {
    if coordWidth < 16 || coordWidth > 32 then Failure("coord_width must be 16-32 bits")
    else if maxVertices < 3 || maxVertices > 8192 then Failure("max_vertices must be 3-8192")
    else Success(())
  }

  /** The registers INIT_FETCH_V2 derives from the rectangle: the far corner
      and the box shrunk by one on every side, each truncated to
      `coord_width` bits. */
  datatype Derived = Derived(x2: int, y2: int, sx1: int, sx2: int, sy1: int, sy2: int)

  function Derive(r: Rect, m: nat): (d: Derived)
    requires m > 0
    ensures 0 <= r.x && 1 <= r.w && r.x + r.w < m && 0 <= r.y && 1 <= r.h && r.y + r.h < m ==>
              d == Derived(r.x + r.w, r.y + r.h, r.x + 1, r.x + r.w - 1, r.y + 1, r.y + r.h - 1)
  {
    Derived(Wrap(r.x + r.w, m), Wrap(r.y + r.h, m), Wrap(r.x + 1, m), Wrap(r.x + r.w - 1, m),
            Wrap(r.y + 1, m), Wrap(r.y + r.h - 1, m))
  }

  /** Corners 0..3: `(x, y)`, `(x2, y)`, `(x2, y2)`, `(x, y2)`. */
  function Corner(r: Rect, d: Derived, c: nat): Point
    requires c < 4
  {
    if c == 0 then Point(r.x, r.y)
    else if c == 1 then Point(d.x2, r.y)
    else if c == 2 then Point(d.x2, d.y2)
    else Point(r.x, d.y2)
  }

  /** The vertex at which the edge of walk step `s` starts: `(sv + s) mod n`. */
  function StepEdge(n: nat, sv: nat, s: nat): (k: nat)
    requires n > 0
    ensures k < n
    ensures sv + s < n ==> k == sv + s
    ensures n <= sv + s < 2 * n ==> k == sv + s - n
  {
    Wrap(sv + s, n)
  }

  /** CHECK 1 or CHECK 2 fires on the edge starting at vertex `k`. */
  predicate Violation(vs: seq<Point>, r: Rect, d: Derived, k: nat)
    requires k < |vs|
  {
    VertexInRectangle(vs[k], r.x, r.y, d.x2, d.y2)
    || EdgeIntersection(vs[k], vs[NextIndex(|vs|, k)], d.sx1, d.sx2, d.sy1, d.sy2)
  }

  /** The first step in `[from, steps)` whose edge violates, if any. */
  function FirstFail(vs: seq<Point>, r: Rect, d: Derived, sv: nat, from: nat, steps: nat): (f: Option<nat>)
    requires |vs| > 0 && from <= steps
    decreases steps - from
    ensures f.None? <==> forall s :: from <= s < steps ==> !Violation(vs, r, d, StepEdge(|vs|, sv, s))
    ensures f.Some? ==> from <= f.value < steps && Violation(vs, r, d, StepEdge(|vs|, sv, f.value))
    ensures f.Some? ==> forall s :: from <= s < f.value ==> !Violation(vs, r, d, StepEdge(|vs|, sv, s))
  {
    if from == steps then None
    else if Violation(vs, r, d, StepEdge(|vs|, sv, from)) then Some(from)
    else FirstFail(vs, r, d, sv, from + 1, steps)
  }

  /** One corner's registers: the crossing counter and the sticky flag. */
  datatype CornerRegs = CornerRegs(crossings: nat, onBoundary: bool)

  /** The corner's registers after `k` steps of a walk with no violation:
      each step applies CHECK 3+4, the counter incrementing (16-bit) on
      `crossing_inc` and the flag setting on `boundary_set`. */
  function CornerAfter(vs: seq<Point>, c: Point, sv: nat, k: nat): (regs: CornerRegs)
    requires |vs| > 0
    ensures regs.crossings < CrossingModulus
  {
    if k == 0 then CornerRegs(0, false)
    else
      var e := StepEdge(|vs|, sv, k - 1);
      UpdateCorner(CornerAfter(vs, c, sv, k - 1), vs[e], vs[NextIndex(|vs|, e)], c)
  }

  /** One PROCESS step's update of a corner's registers on the edge
      `p -> q`: the flag sets when the corner is on the edge and, while the
      flag is clear, the 16-bit counter increments when the edge crosses the
      corner's ray.  A flagged corner's registers no longer change. */
  function UpdateCorner(regs: CornerRegs, p: Point, q: Point, corner: Point): (next: CornerRegs)
    ensures next.onBoundary <==> regs.onBoundary || OnEdge(corner, p, q)
    ensures regs.onBoundary ==> next.crossings == regs.crossings
    ensures !regs.onBoundary && RayHit(corner, p, q) ==> next.crossings == (regs.crossings + 1) % CrossingModulus
    ensures !regs.onBoundary && !RayHit(corner, p, q) ==> next.crossings == regs.crossings
    ensures regs.crossings < CrossingModulus ==> next.crossings < CrossingModulus
  {
    var step := CornerValidation(p, q, corner, regs.onBoundary);
    CornerRegs(if step.crossingInc then (regs.crossings + 1) % CrossingModulus else regs.crossings,
               regs.onBoundary || step.boundarySet)
  }

  /** `on_boundary[c] | crossings[c][0]`. */
  predicate CornerOk(regs: CornerRegs)
  {
    regs.onBoundary || regs.crossings % 2 == 1
  }

  /** FINALIZE's outputs. */
  datatype Outcome = Outcome(isValid: bool, check1Fail: bool, check2Fail: bool, check3Fail: bool, failEdgeIndex: nat)

  /** The outcome of a walk of `steps` steps from `sv`: after a violation,
      invalid with the failing check(s) and the failing edge's start vertex;
      otherwise valid iff every corner is flagged or has an odd count, with
      `check3_fail` its negation.  Exactly one verdict is reported. */
  function Verdict(vs: seq<Point>, r: Rect, m: nat, sv: nat, steps: nat): (o: Outcome)
    requires |vs| > 0 && m > 0
    ensures o.isValid ==> !o.check1Fail && !o.check2Fail && !o.check3Fail
    ensures o.check1Fail || o.check2Fail ==> !o.check3Fail && o.failEdgeIndex < |vs|
    ensures o.isValid || o.check1Fail || o.check2Fail || o.check3Fail
  {
    var d := Derive(r, m);
    match FirstFail(vs, r, d, sv, 0, steps)
    case Some(s) =>
      var k := StepEdge(|vs|, sv, s);
      Outcome(false, VertexInRectangle(vs[k], r.x, r.y, d.x2, d.y2),
              EdgeIntersection(vs[k], vs[NextIndex(|vs|, k)], d.sx1, d.sx2, d.sy1, d.sy2), false, k)
    case None =>
      var ok := forall c :: 0 <= c < 4 ==> CornerOk(CornerAfter(vs, Corner(r, d, c), sv, steps));
      Outcome(ok, false, false, !ok, 0)
  }

  /** The order-free reading of a validation: no edge violates CHECK 1 or
      CHECK 2, and every corner is on the polygon's boundary or has an odd
      number of ray crossings over all `n` edges. */
  predicate InsidePolygon(vs: seq<Point>, r: Rect, m: nat)
    requires |vs| > 0 && m > 0
  {
    var d := Derive(r, m);
    (forall k :: 0 <= k < |vs| ==> !Violation(vs, r, d, k))
    && forall c :: 0 <= c < 4 ==>
         OnBoundaryUpTo(vs, Corner(r, d, c), |vs|) || CrossingsUpTo(vs, Corner(r, d, c), |vs|) % 2 == 1
  }

  // ---------------------------------------------------------------------------
  // What a walk accumulates, edge by edge.

  /** Crossings of the ray from `c` over the first `k` steps. */
  function HitsAlong(vs: seq<Point>, c: Point, sv: nat, k: nat): (count: nat)
    requires |vs| > 0
    ensures count <= k
  {
    if k == 0 then 0
    else
      var e := StepEdge(|vs|, sv, k - 1);
      HitsAlong(vs, c, sv, k - 1) + (if RayHit(c, vs[e], vs[NextIndex(|vs|, e)]) then 1 else 0)
  }

  /** Whether one of the first `k` steps has `c` on its edge. */
  function OnAlong(vs: seq<Point>, c: Point, sv: nat, k: nat): (on: bool)
    requires |vs| > 0
    ensures on <==> exists s :: 0 <= s < k && OnEdge(c, vs[StepEdge(|vs|, sv, s)], vs[NextIndex(|vs|, StepEdge(|vs|, sv, s))])
  {
    if k == 0 then false
    else
      var e := StepEdge(|vs|, sv, k - 1);
      OnAlong(vs, c, sv, k - 1) || OnEdge(c, vs[e], vs[NextIndex(|vs|, e)])
  }

  lemma ModStep(a: nat)
    ensures (a % CrossingModulus + 1) % CrossingModulus == (a + 1) % CrossingModulus
    ensures (a % CrossingModulus) % 2 == a % 2
  {
    var q, r := a / CrossingModulus, a % CrossingModulus;
    assert a == r + q * CrossingModulus;
    ModMultiple(r + 1, q, CrossingModulus);
    assert q * CrossingModulus == (q * 0x8000) * 2;
    ModMultiple(r, q * 0x8000, 2);
  }

  /** The gated registers against the walk: the flag records whether some
      step's edge had the corner on it, and while it is clear the counter is
      the number of crossings so far, modulo `2^16`. */
  lemma {:induction false} CornerAfterMeaning(vs: seq<Point>, c: Point, sv: nat, k: nat)
    requires |vs| > 0
    ensures CornerAfter(vs, c, sv, k).onBoundary == OnAlong(vs, c, sv, k)
    ensures !CornerAfter(vs, c, sv, k).onBoundary ==>
              CornerAfter(vs, c, sv, k).crossings == HitsAlong(vs, c, sv, k) % CrossingModulus
  {
    if k > 0 {
      CornerAfterMeaning(vs, c, sv, k - 1);
      ModStep(HitsAlong(vs, c, sv, k - 1));
    }
  }

  /** A corner is accepted iff some edge of the walk has it on it or the
      walk's crossing count is odd. */
  lemma CornerOkMeaning(vs: seq<Point>, c: Point, sv: nat, k: nat)
    requires |vs| > 0
    ensures CornerOk(CornerAfter(vs, c, sv, k)) <==> OnAlong(vs, c, sv, k) || HitsAlong(vs, c, sv, k) % 2 == 1
  {
    CornerAfterMeaning(vs, c, sv, k);
    ModStep(HitsAlong(vs, c, sv, k));
  }

  /** The walk's crossing count in terms of the polygon-order counts: the
      steps cover the vertex range from `sv`, wrapping past the last vertex. */
  lemma {:induction false} HitsAlongSplit(vs: seq<Point>, c: Point, sv: nat, k: nat)
    requires sv < |vs| && k <= |vs|
    ensures sv + k <= |vs| ==> HitsAlong(vs, c, sv, k) == CrossingsUpTo(vs, c, sv + k) - CrossingsUpTo(vs, c, sv)
    ensures sv + k > |vs| ==>
              HitsAlong(vs, c, sv, k)
              == CrossingsUpTo(vs, c, |vs|) - CrossingsUpTo(vs, c, sv) + CrossingsUpTo(vs, c, sv + k - |vs|)
  {
    if k > 0 {
      HitsAlongSplit(vs, c, sv, k - 1);
      var e := StepEdge(|vs|, sv, k - 1);
      var hit := if RayHit(c, vs[e], vs[NextIndex(|vs|, e)]) then 1 else 0;
      assert HitsAlong(vs, c, sv, k) == HitsAlong(vs, c, sv, k - 1) + hit;
      if sv + k <= |vs| {
        assert e == sv + k - 1;
        assert CrossingsUpTo(vs, c, sv + k) == CrossingsUpTo(vs, c, sv + k - 1) + hit;
      } else {
        assert e == sv + k - 1 - |vs|;
        assert CrossingsUpTo(vs, c, sv + k - |vs|) == CrossingsUpTo(vs, c, sv + k - 1 - |vs|) + hit;
      }
    }
  }

  /** Every vertex starts exactly one step of an `n`-step walk. */
  lemma StepEdgeOnto(n: nat, sv: nat, k: nat) returns (s: nat)
    requires sv < n && k < n
    ensures s < n && StepEdge(n, sv, s) == k
  {
    s := if k >= sv then k - sv else k + n - sv;
  }

  /** An `n`-step walk sees every edge once: the boundary flag and the
      crossing count do not depend on where it starts. */
  lemma FullWalk(vs: seq<Point>, c: Point, sv: nat)
    requires sv < |vs|
    ensures HitsAlong(vs, c, sv, |vs|) == CrossingsUpTo(vs, c, |vs|)
    ensures OnAlong(vs, c, sv, |vs|) == OnBoundaryUpTo(vs, c, |vs|)
  {
    HitsAlongSplit(vs, c, sv, |vs|);
    if OnBoundaryUpTo(vs, c, |vs|) {
      var k :| 0 <= k < |vs| && OnEdge(c, vs[k], vs[NextIndex(|vs|, k)]);
      var s := StepEdgeOnto(|vs|, sv, k);
      assert OnEdge(c, vs[StepEdge(|vs|, sv, s)], vs[NextIndex(|vs|, StepEdge(|vs|, sv, s))]);
    }
  }

  /** An `n`-step walk meets a violating edge iff the polygon has one. */
  lemma FullWalkFails(vs: seq<Point>, r: Rect, d: Derived, sv: nat)
    requires sv < |vs|
    ensures FirstFail(vs, r, d, sv, 0, |vs|).None? <==> forall k :: 0 <= k < |vs| ==> !Violation(vs, r, d, k)
  {
    if FirstFail(vs, r, d, sv, 0, |vs|).None? {
      forall k | 0 <= k < |vs| ensures !Violation(vs, r, d, k) {
        var s := StepEdgeOnto(|vs|, sv, k);
      }
    }
  }

  /** The corrected, single-pass walk decides `InsidePolygon`, from any
      start vertex; in particular its verdict does not depend on where the
      walk starts, which is what lets the finder resume at a failing edge. */
  lemma SinglePassVerdict(vs: seq<Point>, r: Rect, m: nat, sv: nat)
    requires sv < |vs| && m > 0
    ensures Verdict(vs, r, m, sv, |vs|).isValid <==> InsidePolygon(vs, r, m)
    ensures Verdict(vs, r, m, sv, |vs|).check3Fail <==>
              (forall k :: 0 <= k < |vs| ==> !Violation(vs, r, Derive(r, m), k)) && !InsidePolygon(vs, r, m)
  {
    var d := Derive(r, m);
    FullWalkFails(vs, r, d, sv);
    forall c | 0 <= c < 4
      ensures CornerOk(CornerAfter(vs, Corner(r, d, c), sv, |vs|)) <==>
                OnBoundaryUpTo(vs, Corner(r, d, c), |vs|) || CrossingsUpTo(vs, Corner(r, d, c), |vs|) % 2 == 1
    {
      CornerOkMeaning(vs, Corner(r, d, c), sv, |vs|);
      FullWalk(vs, Corner(r, d, c), sv);
    }
  }

  /** The walk as written takes `n + 1` steps: the start edge is seen twice,
      so its crossing is counted twice. */
  lemma AsWrittenCountsStartEdgeTwice(vs: seq<Point>, c: Point, sv: nat)
    requires sv < |vs|
    ensures HitsAlong(vs, c, sv, |vs| + 1)
            == CrossingsUpTo(vs, c, |vs|) + (if RayHit(c, vs[sv], vs[NextIndex(|vs|, sv)]) then 1 else 0)
  {
    FullWalk(vs, c, sv);
  }

  /** The square `(0,0), (0,10), (10,10), (10,0)` and the rectangle at
      `(2, 2)` of size `2 x 2` with 16-bit coordinates: the rectangle is
      inside, and no edge violates CHECK 1 or 2. */
  lemma SquareExampleInside(vs: seq<Point>, r: Rect)
    requires vs == [Point(0, 0), Point(0, 10), Point(10, 10), Point(10, 0)] && r == Rect(2, 2, 2, 2)
    ensures InsidePolygon(vs, r, 0x1_0000)
    ensures forall c :: 0 <= c < 4 ==> !OnBoundaryUpTo(vs, Corner(r, Derive(r, 0x1_0000), c), 4)
    ensures forall c :: 0 <= c < 4 ==> CrossingsUpTo(vs, Corner(r, Derive(r, 0x1_0000), c), 4) == 1
    ensures RayHit(Corner(r, Derive(r, 0x1_0000), 0), vs[0], vs[1])
  {
    var d := Derive(r, 0x1_0000);
    assert d == Derived(4, 4, 3, 3, 3, 3);
    forall c | 0 <= c < 4 ensures CrossingsUpTo(vs, Corner(r, d, c), 4) == 1 {
      var pt := Corner(r, d, c);
      assert CrossingsUpTo(vs, pt, 1) == 1;
      assert CrossingsUpTo(vs, pt, 2) == 1;
      assert CrossingsUpTo(vs, pt, 3) == 1;
    }
  }

  /** The double-counted start edge changes the verdict: started at vertex
      0, whose edge every corner's ray crosses, the walk as written rejects
      the rectangle (CHECK 3) that the single-pass walk accepts; started at
      vertex 1 it accepts it.  The as-written verdict depends on the start
      vertex. */
  lemma AsWrittenRejectsInsideRectangle(vs: seq<Point>, r: Rect)
    requires vs == [Point(0, 0), Point(0, 10), Point(10, 10), Point(10, 0)] && r == Rect(2, 2, 2, 2)
    ensures Verdict(vs, r, 0x1_0000, 0, 4).isValid
    ensures !Verdict(vs, r, 0x1_0000, 0, 5).isValid && Verdict(vs, r, 0x1_0000, 0, 5).check3Fail
    ensures Verdict(vs, r, 0x1_0000, 1, 5).isValid
  {
    var m := 0x1_0000;
    var d := Derive(r, m);
    SquareExampleInside(vs, r);
    SinglePassVerdict(vs, r, m, 0);
    AsWrittenFacts(vs, r, m, 0);
    AsWrittenFacts(vs, r, m, 1);
    var c0 := Corner(r, d, 0);
    CornerOkMeaning(vs, c0, 0, 5);
    AsWrittenCountsStartEdgeTwice(vs, c0, 0);
    assert !CornerOk(CornerAfter(vs, c0, 0, 5));
    forall c | 0 <= c < 4 ensures CornerOk(CornerAfter(vs, Corner(r, d, c), 1, 5)) {
      CornerOkMeaning(vs, Corner(r, d, c), 1, 5);
      AsWrittenCountsStartEdgeTwice(vs, Corner(r, d, c), 1);
    }
  }

  /** On a polygon with no violating edge, the as-written walk meets no
      violation either, and its boundary flags are those of the full polygon. */
  lemma AsWrittenFacts(vs: seq<Point>, r: Rect, m: nat, sv: nat)
    requires sv < |vs| && m > 0
    requires forall k :: 0 <= k < |vs| ==> !Violation(vs, r, Derive(r, m), k)
    ensures FirstFail(vs, r, Derive(r, m), sv, 0, |vs| + 1).None?
    ensures forall c :: OnAlong(vs, c, sv, |vs| + 1) == OnBoundaryUpTo(vs, c, |vs|)
  {
    forall c ensures OnAlong(vs, c, sv, |vs| + 1) == OnBoundaryUpTo(vs, c, |vs|) {
      FullWalk(vs, c, sv);
    }
  }

  // ---------------------------------------------------------------------------
  // The FSM.

  /** The vertex the PROCESS step's edge starts at, from `current_vertex`,
      which runs two vertices ahead: the inverse of two circular steps. */
  function FailVertex(n: nat, current: nat): (k: nat)
    requires 2 <= n && current < n
    ensures k < n && NextIndex(n, NextIndex(n, k)) == current
  {
    if current < 2 then n + current - 2 else current - 2
  }

  /** The mux undoes two circular steps. */
  lemma FailVertexInverts(n: nat, e: nat)
    requires 2 <= n && e < n
    ensures FailVertex(n, NextIndex(n, NextIndex(n, e))) == e
  {
  }

  /** One circular step of the walk advances the edge to the next vertex. */
  lemma StepEdgeNext(n: nat, sv: nat, k: nat)
    requires sv < n && k < n
    ensures StepEdge(n, sv, k + 1) == NextIndex(n, StepEdge(n, sv, k))
  {
  }

  /** The first violation of a walk that had none in its first `k` steps. */
  lemma FirstFailAt(vs: seq<Point>, r: Rect, d: Derived, sv: nat, k: nat, steps: nat)
    requires |vs| > 0 && k < steps
    requires FirstFail(vs, r, d, sv, 0, k).None? && Violation(vs, r, d, StepEdge(|vs|, sv, k))
    ensures FirstFail(vs, r, d, sv, 0, steps) == Some(k)
  {
  }

  /** A walk with no violation in its first `k` steps and none at step `k`
      has none in its first `k + 1`. */
  lemma FirstFailExtend(vs: seq<Point>, r: Rect, d: Derived, sv: nat, k: nat)
    requires |vs| > 0
    requires FirstFail(vs, r, d, sv, 0, k).None? && !Violation(vs, r, d, StepEdge(|vs|, sv, k))
    ensures FirstFail(vs, r, d, sv, 0, k + 1).None?
  {
  }

  datatype ValidatorState = Idle | InitFetchV1 | InitFetchV2 | ProcessPipeline | Finalize

  /** The walk's registers: the edge window, `current_vertex` (the BRAM
      read address, two vertices ahead of the window's first vertex),
      `edge_counter`, the four corners' registers and the sticky check flags. */
  datatype WalkRegs = WalkRegs(p1: Point, p2: Point, currentVertex: nat, edgeCounter: nat,
                               corners: seq<CornerRegs>, check1Failed: bool, check2Failed: bool)

  /** The registers as IDLE clears them. */
  const ClearedRegs: WalkRegs :=
    WalkRegs(Point(0, 0), Point(0, 0), 0, 0,
             [CornerRegs(0, false), CornerRegs(0, false), CornerRegs(0, false), CornerRegs(0, false)],
             false, false)

  /** The outputs as IDLE clears them. */
  const ClearedOutputs: Outcome := Outcome(false, false, false, false, 0)

  /** The four corners' registers after a PROCESS step on the edge `p -> q`. */
  function UpdatedCorners(cs: seq<CornerRegs>, p: Point, q: Point, r: Rect, d: Derived): (next: seq<CornerRegs>)
    requires |cs| == 4
    ensures |next| == 4
    ensures forall c :: 0 <= c < 4 ==> next[c] == UpdateCorner(cs[c], p, q, Corner(r, d, c))
  {
    [UpdateCorner(cs[0], p, q, Corner(r, d, 0)), UpdateCorner(cs[1], p, q, Corner(r, d, 1)),
     UpdateCorner(cs[2], p, q, Corner(r, d, 2)), UpdateCorner(cs[3], p, q, Corner(r, d, 3))]
  }

  /** The walk registers before step `k`: the edge window holds the step's
      edge, `current_vertex` is two vertices ahead, no earlier step violated,
      nothing has failed and every corner holds its gated registers. */
  ghost predicate WalkAt(vs: seq<Point>, r: Rect, d: Derived, sv: nat, w: WalkRegs, failIdx: nat, k: nat)
    requires 2 <= |vs| && sv < |vs|
  {
    var e := StepEdge(|vs|, sv, k);
    w.edgeCounter == k && |w.corners| == 4
    && w.p1 == vs[e] && w.p2 == vs[NextIndex(|vs|, e)]
    && w.currentVertex == NextIndex(|vs|, NextIndex(|vs|, e))
    && !w.check1Failed && !w.check2Failed && failIdx == 0
    && FirstFail(vs, r, d, sv, 0, k).None?
    && forall c :: 0 <= c < 4 ==> w.corners[c] == CornerAfter(vs, Corner(r, d, c), sv, k)
  }

  /** The walk registers FINALIZE reads after a walk of `steps` steps: the
      failing checks and edge at the first violation, or the corner
      registers of the whole walk. */
  ghost predicate WalkEnd(vs: seq<Point>, r: Rect, d: Derived, sv: nat, w: WalkRegs, failIdx: nat, steps: nat)
    requires 2 <= |vs| && sv < |vs|
  {
    |w.corners| == 4
    && match FirstFail(vs, r, d, sv, 0, steps)
       case Some(s) =>
         var e := StepEdge(|vs|, sv, s);
         w.check1Failed == VertexInRectangle(vs[e], r.x, r.y, d.x2, d.y2)
         && w.check2Failed == EdgeIntersection(vs[e], vs[NextIndex(|vs|, e)], d.sx1, d.sx2, d.sy1, d.sy2)
         && failIdx == e
       case None =>
         !w.check1Failed && !w.check2Failed && failIdx == 0
         && forall c :: 0 <= c < 4 ==> w.corners[c] == CornerAfter(vs, Corner(r, d, c), sv, steps)
  }

  /** FINALIZE's reading of the walk registers is the walk's verdict: the
      failed checks after a violation, otherwise the four corner tests. */
  lemma FinalizeReadsVerdict(vs: seq<Point>, r: Rect, m: nat, sv: nat, w: WalkRegs, failIdx: nat, steps: nat)
    requires 2 <= |vs| && sv < |vs| && m > 0 && WalkEnd(vs, r, Derive(r, m), sv, w, failIdx, steps)
    ensures w.check1Failed || w.check2Failed ==>
              Verdict(vs, r, m, sv, steps) == Outcome(false, w.check1Failed, w.check2Failed, false, failIdx)
    ensures !(w.check1Failed || w.check2Failed) ==>
              var ok := CornerOk(w.corners[0]) && CornerOk(w.corners[1]) && CornerOk(w.corners[2]) && CornerOk(w.corners[3]);
              Verdict(vs, r, m, sv, steps) == Outcome(ok, false, false, !ok, failIdx)
  {
    var d := Derive(r, m);
    var f := FirstFail(vs, r, d, sv, 0, steps);
    if f.None? {
      assert forall c :: 0 <= c < 4 ==> w.corners[c] == CornerAfter(vs, Corner(r, d, c), sv, steps);
    }
  }

  /** A violating step ends the walk at its first violation: the flags are
      the two checks and the mux recovers the edge's start vertex. */
  lemma WalkFails(vs: seq<Point>, r: Rect, d: Derived, sv: nat, w: WalkRegs, k: nat, lastStep: nat)
    requires 2 <= |vs| && sv < |vs| && k <= lastStep && WalkAt(vs, r, d, sv, w, 0, k)
    requires VertexInRectangle(w.p1, r.x, r.y, d.x2, d.y2)
             || EdgeIntersection(w.p1, w.p2, d.sx1, d.sx2, d.sy1, d.sy2)
    ensures WalkEnd(vs, r, d, sv,
                    w.(check1Failed := VertexInRectangle(w.p1, r.x, r.y, d.x2, d.y2),
                       check2Failed := EdgeIntersection(w.p1, w.p2, d.sx1, d.sx2, d.sy1, d.sy2)),
                    FailVertex(|vs|, w.currentVertex), lastStep + 1)
  {
    FirstFailAt(vs, r, d, sv, k, lastStep + 1);
    FailVertexInverts(|vs|, StepEdge(|vs|, sv, k));
  }

  /** A step without violation updates the corners; at the last step the
      walk ends with them. */
  lemma WalkCompletes(vs: seq<Point>, r: Rect, d: Derived, sv: nat, w: WalkRegs, k: nat)
    requires 2 <= |vs| && sv < |vs| && WalkAt(vs, r, d, sv, w, 0, k)
    requires !VertexInRectangle(w.p1, r.x, r.y, d.x2, d.y2)
             && !EdgeIntersection(w.p1, w.p2, d.sx1, d.sx2, d.sy1, d.sy2)
    ensures WalkEnd(vs, r, d, sv, w.(corners := UpdatedCorners(w.corners, w.p1, w.p2, r, d), edgeCounter := k + 1),
                    0, k + 1)
  {
    FirstFailExtend(vs, r, d, sv, k);
  }

  /** A step without violation before the last slides the edge window to
      the next edge, reading the vertex at `current_vertex`. */
  lemma WalkAdvances(vs: seq<Point>, r: Rect, d: Derived, sv: nat, w: WalkRegs, k: nat)
    requires 2 <= |vs| && sv < |vs| && k < |vs| && WalkAt(vs, r, d, sv, w, 0, k)
    requires !VertexInRectangle(w.p1, r.x, r.y, d.x2, d.y2)
             && !EdgeIntersection(w.p1, w.p2, d.sx1, d.sx2, d.sy1, d.sy2)
    ensures w.currentVertex < |vs|
    ensures WalkAt(vs, r, d, sv,
                   w.(corners := UpdatedCorners(w.corners, w.p1, w.p2, r, d), edgeCounter := k + 1,
                      p1 := w.p2, p2 := vs[w.currentVertex], currentVertex := NextIndex(|vs|, w.currentVertex)),
                   0, k + 1)
  {
    FirstFailExtend(vs, r, d, sv, k);
    StepEdgeNext(|vs|, sv, k);
  }

  /** The validator with its vertex BRAM. */
  class ValidateRectangle {
    const coordWidth: nat
    const maxVertices: nat
    /** `2 ^ coord_width`: the coordinate registers hold values below it. */
    const modulus: nat
    /** The vertex BRAM. */
    const mem: array<Point>

    var state: ValidatorState
    var rect: Rect
    var numVertices: nat
    var startVertex: nat
    var derived: Derived
    var regs: WalkRegs
    var done: bool
    var out: Outcome

    ghost predicate Valid()
      reads this
    {
      16 <= coordWidth <= 32 && 3 <= maxVertices <= 8192 && modulus == Pow2(coordWidth)
      && mem.Length == maxVertices && |regs.corners| == 4
    }

    /** A run is under way on a polygon the walk can step around. */
    ghost predicate Running()
      reads this
    {
      Valid() && 2 <= numVertices <= maxVertices && startVertex < numVertices
    }

    /** The polygon the run validates. */
    ghost function Polygon(): seq<Point>
      reads this, mem
      requires Running()
    {
      mem[..numVertices]
    }

    /** The registers IDLE leaves for a run that starts. */
    ghost predicate Started()
      reads this
    {
      state == InitFetchV1 && regs == ClearedRegs.(currentVertex := startVertex) && !done && out == ClearedOutputs
    }

    /** The PROCESS registers before walk step `k`. */
    ghost predicate At(k: nat)
      reads this, mem
      requires Running()
    {
      derived == Derive(rect, modulus) && WalkAt(Polygon(), rect, derived, startVertex, regs, out.failEdgeIndex, k)
    }

    /** The registers FINALIZE reads after a walk of `steps` steps. */
    ghost predicate WalkDone(steps: nat)
      reads this, mem
      requires Running()
    {
      derived == Derive(rect, modulus) && WalkEnd(Polygon(), rect, derived, startVertex, regs, out.failEdgeIndex, steps)
    }

    /** Elaboration: a `ValueError` on out-of-range parameters, an empty
        (all-zero) BRAM of `max_vertices` entries, the FSM in IDLE. */
    constructor(coordWidth: nat, maxVertices: nat)
      requires CheckParameters(coordWidth, maxVertices).Success?
      ensures Valid() && state == Idle && !done && out == ClearedOutputs
      ensures this.coordWidth == coordWidth && this.maxVertices == maxVertices
      ensures fresh(mem) && forall i :: 0 <= i < mem.Length ==> mem[i] == Point(0, 0)
    {
      this.coordWidth := coordWidth;
      this.maxVertices := maxVertices;
      modulus := Pow2(coordWidth);
      mem := new Point[maxVertices](_ => Point(0, 0));
      state := Idle;
      regs := ClearedRegs;
      done := false;
      out := ClearedOutputs;
    }

    /** One IDLE cycle: the BRAM write port stores a vertex when `load_wr`
        and `load_mode` are both high, at `load_addr` truncated to the port
        width, and drops a write past the depth; every register is cleared; and `start`
        without `load_mode` latches the rectangle and begins a run from
        `start_vertex`. */
    method IdleCycle(start: bool, loadMode: bool, loadWr: bool, loadAddr: nat, vertex: Point,
                     r: Rect, n: nat, sv: nat)
      requires Valid() && state == Idle
      modifies this, mem
      ensures Valid() && !done && out == ClearedOutputs
      ensures mem[..] == if loadWr && loadMode then PortWrite(old(mem[..]), loadAddr, vertex) else old(mem[..])
      ensures start && !loadMode ==> Started() && rect == r && numVertices == n && startVertex == sv
      ensures !(start && !loadMode) ==> state == Idle && rect == old(rect)
    {
      if loadWr && loadMode {
        LoadVertexCycle(loadAddr, vertex);
      } else if start && !loadMode {
        StartRunCycle(r, n, sv);
      } else {
        regs := ClearedRegs;
        done, out := false, ClearedOutputs;
      }
    }

    /** An IDLE cycle with `load_mode` and `load_wr` high: the vertex goes
        through the write port and the registers are cleared. */
    method LoadVertexCycle(loadAddr: nat, vertex: Point)
      requires Valid() && state == Idle
      modifies this, mem
      ensures Valid() && state == Idle && !done && out == ClearedOutputs && rect == old(rect)
      ensures mem[..] == PortWrite(old(mem[..]), loadAddr, vertex)
    {
      var p := Pow2(RangeWidth(mem.Length));
      ModRange(loadAddr, p);
      if loadAddr % p < mem.Length {
        mem[loadAddr % p] := vertex;
      }
      regs := ClearedRegs;
      done, out := false, ClearedOutputs;
    }

    /** An IDLE cycle with `start` high and `load_mode` low: the rectangle,
        the vertex count and the start vertex are latched and a run begins. */
    method StartRunCycle(r: Rect, n: nat, sv: nat)
      requires Valid() && state == Idle
      modifies this
      ensures Valid() && Started() && rect == r && numVertices == n && startVertex == sv
    {
      rect, numVertices, startVertex := r, n, sv;
      regs := ClearedRegs.(currentVertex := sv);
      done, out := false, ClearedOutputs;
      state := InitFetchV1;
    }

    /** INIT_FETCH_V1 and INIT_FETCH_V2: the first edge's endpoints come out
        of the BRAM, `current_vertex` moves two vertices ahead and the
        derived rectangle registers are loaded. */
    method InitFetch()
      requires Running() && Started()
      modifies this
      ensures Running() && state == ProcessPipeline && At(0)
      ensures rect == old(rect) && numVertices == old(numVertices) && startVertex == old(startVertex)
      ensures !done && out == old(out)
    {
      assert StepEdge(numVertices, startVertex, 0) == startVertex;
      ghost var vs := mem[..numVertices];
      assert FirstFail(vs, rect, Derive(rect, modulus), startVertex, 0, 0).None?;
      var first := mem[startVertex];
      var next := NextIndex(numVertices, startVertex);
      state := InitFetchV2;
      regs := regs.(p1 := first, p2 := mem[next], currentVertex := NextIndex(numVertices, next), edgeCounter := 0);
      derived := Derive(rect, modulus);
      state := ProcessPipeline;
    }

    /** PROCESS_PIPELINE, one loop iteration per cycle: a CHECK 1 or CHECK 2
        violation ends the walk with the failing edge's start vertex;
        otherwise the corner registers update and the edge window slides,
        until the step with `edge_counter >= last_step` ends it.  The walk
        takes `last_step + 1` steps. */
    method Process(lastStep: nat)
      requires Running() && state == ProcessPipeline && At(0) && lastStep <= numVertices
      modifies this
      ensures Running() && state == Finalize && WalkDone(lastStep + 1)
      ensures rect == old(rect) && numVertices == old(numVertices) && startVertex == old(startVertex)
      ensures done == old(done)
    {
      while state == ProcessPipeline
        invariant Running() && (state == ProcessPipeline || state == Finalize)
        invariant rect == old(rect) && numVertices == old(numVertices) && startVertex == old(startVertex)
        invariant done == old(done)
        invariant state == ProcessPipeline ==> regs.edgeCounter <= lastStep && At(regs.edgeCounter)
        invariant state == Finalize ==> WalkDone(lastStep + 1)
        decreases if state == ProcessPipeline then lastStep + 1 - regs.edgeCounter else 0
      {
        ProcessStep(lastStep);
      }
    }

    /** One PROCESS_PIPELINE cycle. */
    method ProcessStep(lastStep: nat)
      requires Running() && state == ProcessPipeline && lastStep <= numVertices
      requires regs.edgeCounter <= lastStep && At(regs.edgeCounter)
      modifies this
      ensures Running() && (state == ProcessPipeline || state == Finalize)
      ensures rect == old(rect) && numVertices == old(numVertices) && startVertex == old(startVertex)
      ensures done == old(done)
      ensures state == ProcessPipeline ==> regs.edgeCounter == old(regs.edgeCounter) + 1 <= lastStep && At(regs.edgeCounter)
      ensures state == Finalize ==> WalkDone(lastStep + 1)
    {
      var violation1 := VertexInRectangle(regs.p1, rect.x, rect.y, derived.x2, derived.y2);
      var violation2 := EdgeIntersection(regs.p1, regs.p2, derived.sx1, derived.sx2, derived.sy1, derived.sy2);
      if violation1 || violation2 {
        StopOnViolation(lastStep, violation1, violation2);
      } else if regs.edgeCounter >= lastStep {
        FinishWalk(lastStep);
      } else {
        SlideWindow(lastStep);
      }
    }

    /** A CHECK 1 or CHECK 2 violation: the failing edge's start vertex is
        recorded with the failed checks and the FSM goes to FINALIZE. */
    method StopOnViolation(lastStep: nat, violation1: bool, violation2: bool)
      requires Running() && state == ProcessPipeline && lastStep <= numVertices
      requires regs.edgeCounter <= lastStep && At(regs.edgeCounter)
      requires violation1 == VertexInRectangle(regs.p1, rect.x, rect.y, derived.x2, derived.y2)
      requires violation2 == EdgeIntersection(regs.p1, regs.p2, derived.sx1, derived.sx2, derived.sy1, derived.sy2)
      requires violation1 || violation2
      modifies this
      ensures Running() && state == Finalize && WalkDone(lastStep + 1)
      ensures rect == old(rect) && numVertices == old(numVertices) && startVertex == old(startVertex)
      ensures done == old(done)
    {
      ghost var vs := Polygon();
      var w := regs;
      WalkFails(vs, rect, derived, startVertex, w, w.edgeCounter, lastStep);
      ghost var next := w.(check1Failed := VertexInRectangle(w.p1, rect.x, rect.y, derived.x2, derived.y2),
                           check2Failed := EdgeIntersection(w.p1, w.p2, derived.sx1, derived.sx2, derived.sy1, derived.sy2));
      assert |vs| == numVertices;
      out := out.(failEdgeIndex := FailVertex(numVertices, w.currentVertex));
      regs := w.(check1Failed := violation1, check2Failed := violation2);
      state := Finalize;
      assert regs == next && out.failEdgeIndex == FailVertex(|vs|, w.currentVertex) && Polygon() == vs;
    }

    /** The step with `edge_counter >= last_step` and no violation: the
        corner registers take the last edge and the FSM goes to FINALIZE. */
    method FinishWalk(lastStep: nat)
      requires Running() && state == ProcessPipeline && lastStep <= numVertices
      requires regs.edgeCounter == lastStep && At(regs.edgeCounter)
      requires !VertexInRectangle(regs.p1, rect.x, rect.y, derived.x2, derived.y2)
      requires !EdgeIntersection(regs.p1, regs.p2, derived.sx1, derived.sx2, derived.sy1, derived.sy2)
      modifies this
      ensures Running() && state == Finalize && WalkDone(lastStep + 1)
      ensures rect == old(rect) && numVertices == old(numVertices) && startVertex == old(startVertex)
      ensures done == old(done)
    {
      ghost var vs := Polygon();
      var w := regs;
      WalkCompletes(vs, rect, derived, startVertex, w, lastStep);
      regs := w.(corners := UpdatedCorners(w.corners, w.p1, w.p2, rect, derived), edgeCounter := lastStep + 1);
      state := Finalize;
      assert Polygon() == vs;
    }

    /** A step before the last with no violation: the corner registers take
        the edge, the window slides to the next edge and the vertex at
        `current_vertex` is read. */
    method SlideWindow(lastStep: nat)
      requires Running() && state == ProcessPipeline && lastStep <= numVertices
      requires regs.edgeCounter < lastStep && At(regs.edgeCounter)
      requires !VertexInRectangle(regs.p1, rect.x, rect.y, derived.x2, derived.y2)
      requires !EdgeIntersection(regs.p1, regs.p2, derived.sx1, derived.sx2, derived.sy1, derived.sy2)
      modifies this
      ensures Running() && state == ProcessPipeline
      ensures regs.edgeCounter == old(regs.edgeCounter) + 1 && At(regs.edgeCounter)
      ensures rect == old(rect) && numVertices == old(numVertices) && startVertex == old(startVertex)
      ensures done == old(done)
    {
      ghost var vs := Polygon();
      var w := regs;
      var k := w.edgeCounter;
      WalkAdvances(vs, rect, derived, startVertex, w, k);
      var cur := w.currentVertex;
      ghost var next := w.(corners := UpdatedCorners(w.corners, w.p1, w.p2, rect, derived), edgeCounter := k + 1,
                           p1 := w.p2, p2 := vs[w.currentVertex], currentVertex := NextIndex(|vs|, w.currentVertex));
      assert mem[cur] == vs[cur] && |vs| == numVertices && out.failEdgeIndex == 0;
      regs := w.(corners := UpdatedCorners(w.corners, w.p1, w.p2, rect, derived), edgeCounter := k + 1,
                 p1 := w.p2, p2 := mem[cur], currentVertex := NextIndex(numVertices, cur));
      assert regs == next && Polygon() == vs;
    }

    /** FINALIZE: after a violation the result is invalid with the failing
        checks; otherwise it is valid iff every corner is flagged or has an
        odd count, `check3_fail` the negation.  `done` rises for a cycle. */
    method FinalizeCycle(ghost steps: nat)
      requires Running() && state == Finalize && WalkDone(steps)
      modifies this
      ensures Running() && state == Idle && done
      ensures out == Verdict(Polygon(), rect, modulus, startVertex, steps)
      ensures rect == old(rect) && numVertices == old(numVertices) && startVertex == old(startVertex)
    {
      FinalizeReadsVerdict(Polygon(), rect, modulus, startVertex, regs, out.failEdgeIndex, steps);
      if regs.check1Failed || regs.check2Failed {
        out := out.(isValid := false, check1Fail := regs.check1Failed, check2Fail := regs.check2Failed,
                    check3Fail := false);
      } else {
        var cs := regs.corners;
        var allCornersValid := CornerOk(cs[0]) && CornerOk(cs[1]) && CornerOk(cs[2]) && CornerOk(cs[3]);
        out := out.(isValid := allCornersValid, check1Fail := false, check2Fail := false,
                    check3Fail := !allCornersValid);
      }
      done := true;
      state := Idle;
    }

    /** INIT_FETCH_V1 through the last PROCESS_PIPELINE cycle of a walk
        that ends at the step with `edge_counter >= last_step`. */
    method Walk(lastStep: nat)
      requires Running() && Started() && lastStep <= numVertices
      modifies this
      ensures Running() && state == Finalize && WalkDone(lastStep + 1)
      ensures rect == old(rect) && numVertices == old(numVertices) && startVertex == old(startVertex)
    {
      InitFetch();
      Process(lastStep);
    }

    /** A run as written: the walk ends at the step with `edge_counter >=
        num_vertices`, so it takes `n + 1` steps and sees the start edge
        twice (see `AsWrittenRejectsInsideRectangle`). */
    method RunAsWritten()
      requires Running() && Started()
      modifies this
      ensures Running() && state == Idle && done
      ensures out == Verdict(Polygon(), rect, modulus, startVertex, old(numVertices) + 1)
      ensures Polygon() == old(Polygon())
      ensures rect == old(rect) && numVertices == old(numVertices) && startVertex == old(startVertex)
    {
      ghost var vs := Polygon();
      var steps := numVertices + 1;
      Walk(steps - 1);
      assert Polygon() == vs;
      FinalizeCycle(steps);
    }

    /** A run with the single-pass walk the design describes: it ends at the
        step with `edge_counter + 1 >= num_vertices`, so every edge is seen
        once and the result is `InsidePolygon` whatever the start vertex. */
    method Run()
      requires Running() && Started()
      modifies this
      ensures Running() && state == Idle && done
      ensures out == Verdict(Polygon(), rect, modulus, startVertex, old(numVertices))
      ensures Polygon() == old(Polygon())
      ensures out.isValid <==> InsidePolygon(Polygon(), rect, modulus)
      ensures rect == old(rect) && numVertices == old(numVertices) && startVertex == old(startVertex)
    {
      ghost var vs := Polygon();
      var n := numVertices;
      Walk(n - 1);
      assert Polygon() == vs;
      FinalizeCycle(n);
      SinglePassVerdict(vs, rect, modulus, startVertex);
    }
  }
}
