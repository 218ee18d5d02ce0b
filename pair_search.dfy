/** The pair enumeration both day_9 finders share: every unordered vertex
    pair `i < j`, in the order `(0,1), (0,2), ..., (0,n-1), (1,2), ...`;
    a pair's candidate is its bounding box; degenerate candidates are
    skipped, candidates whose area cannot beat the maximum are pruned, and
    the others are validated, a valid one raising the maximum.

    The validity test is a parameter: the software reference passes its own
    four checks, the hardware finder the validator's verdict.  The area the
    maximum stores is either the full area (software) or the area truncated
    to the hardware's `2 * coord_width`-bit register. */
module PairSearch {
  import opened RectGeometry
  import opened Registers

  /** The search's running registers: the maximum area, the number of valid
      candidates, the number validated and the number pruned. */
  datatype SearchState = SearchState(maxArea: int, validCount: nat, tested: nat, pruned: nat)

  const Initial: SearchState := SearchState(0, 0, 0, 0)

  /** How the maximum stores an area. */
  datatype AreaRegister = Unbounded | Truncated(bits: nat)

  function Stored(reg: AreaRegister, area: int): (v: int)
    ensures reg.Unbounded? ==> v == area
    ensures reg.Truncated? ==> 0 <= v < Pow2(reg.bits)
    ensures reg.Truncated? && 0 <= area < Pow2(reg.bits) ==> v == area
  {
    match reg
    case Unbounded => area
    case Truncated(bits) => Wrap(area, Pow2(bits))
  }

  /** The candidate of the pair `(i, j)`. */
  function PairCandidate(vs: seq<Point>, i: nat, j: nat): Rect
    requires i < |vs| && j < |vs|
  {
    Candidate(vs[i], vs[j])
  }

  /** One candidate's step: a degenerate candidate changes nothing; one
      whose area does not exceed the maximum is counted as pruned; any other
      is counted as validated and, when valid, counted as valid and raises
      the maximum to its stored area if that is larger.  The maximum never
      decreases, and every non-degenerate candidate is counted exactly once
      as pruned or validated. */
  function Visit(st: SearchState, r: Rect, valid: Rect -> bool, reg: AreaRegister): (next: SearchState)
    ensures next.maxArea >= st.maxArea
    ensures next.tested + next.pruned == st.tested + st.pruned + (if Degenerate(r) then 0 else 1)
    ensures next.validCount == st.validCount + (if !Degenerate(r) && Area(r) > st.maxArea && valid(r) then 1 else 0)
  {
    if Degenerate(r) then st
    else if Area(r) <= st.maxArea then st.(pruned := st.pruned + 1)
    else if valid(r) then
      var stored := Stored(reg, Area(r));
      st.(maxArea := if stored > st.maxArea then stored else st.maxArea,
          validCount := st.validCount + 1, tested := st.tested + 1)
    else st.(tested := st.tested + 1)
  }

  /** The search from the pair `(i, j)` on, in the nested-loop order: when
      `j` runs past the last vertex the next row starts at `(i + 1, i + 2)`. */
  function SearchFrom(vs: seq<Point>, valid: Rect -> bool, reg: AreaRegister, i: nat, j: nat, st: SearchState): (r: SearchState)
    decreases |vs| - i, |vs| - j
    ensures r.maxArea >= st.maxArea && r.validCount >= st.validCount
  {
    if i >= |vs| then st
    else if j >= |vs| then SearchFrom(vs, valid, reg, i + 1, i + 2, st)
    else SearchFrom(vs, valid, reg, i, j + 1, Visit(st, PairCandidate(vs, i, j), valid, reg))
  }

  /** The whole search, from `(0, 1)` with cleared registers. */
  function Search(vs: seq<Point>, valid: Rect -> bool, reg: AreaRegister): SearchState
  {
    SearchFrom(vs, valid, reg, 0, 1, Initial)
  }

  // ---------------------------------------------------------------------------
  // What the search computes.

  /** The pair `(a, b)` comes before `(i, j)` in the enumeration. */
  ghost predicate Before(a: nat, b: nat, i: nat, j: nat)
  {
    a < i || (a == i && b < j)
  }

  /** The pair `(a, b)`, `a < b`, has a non-degenerate, valid candidate. */
  predicate Good(vs: seq<Point>, valid: Rect -> bool, a: nat, b: nat)
  {
    a < b < |vs| && !Degenerate(PairCandidate(vs, a, b)) && valid(PairCandidate(vs, a, b))
  }

  /** Every non-degenerate candidate's area fits the register. */
  ghost predicate NoOverflow(vs: seq<Point>, reg: AreaRegister)
  {
    forall a, b :: 0 <= a < b < |vs| && !Degenerate(PairCandidate(vs, a, b)) ==>
      Stored(reg, Area(PairCandidate(vs, a, b))) == Area(PairCandidate(vs, a, b))
  }

  /** The maximum bounds the area of every good pair before `(i, j)`. */
  ghost predicate Bounded(vs: seq<Point>, valid: Rect -> bool, st: SearchState, i: nat, j: nat)
  {
    forall a, b :: Before(a, b, i, j) && Good(vs, valid, a, b) ==> Area(PairCandidate(vs, a, b)) <= st.maxArea
  }

  /** The maximum is 0 or the area of some good pair before `(i, j)`. */
  ghost predicate Attained(vs: seq<Point>, valid: Rect -> bool, st: SearchState, i: nat, j: nat)
  {
    st.maxArea == 0
    || exists a, b :: Before(a, b, i, j) && Good(vs, valid, a, b) && Area(PairCandidate(vs, a, b)) == st.maxArea
  }

  /** Some candidate was counted valid iff some pair before `(i, j)` is good. */
  ghost predicate Reported(vs: seq<Point>, valid: Rect -> bool, st: SearchState, i: nat, j: nat)
  {
    st.validCount > 0 <==> exists a, b :: Before(a, b, i, j) && Good(vs, valid, a, b)
  }

  /** The registers summarise the pairs before `(i, j)`: the maximum is the
      largest good area (0 if none) and validity is reported iff some pair
      is good. */
  ghost predicate Summary(vs: seq<Point>, valid: Rect -> bool, st: SearchState, i: nat, j: nat)
  {
    st.maxArea >= 0 && Bounded(vs, valid, st, i, j) && Attained(vs, valid, st, i, j) && Reported(vs, valid, st, i, j)
  }

  /** One step keeps the summary, the pair `(i, j)` joining the pairs seen. */
  lemma VisitSummary(vs: seq<Point>, valid: Rect -> bool, reg: AreaRegister, i: nat, j: nat, st: SearchState)
    requires i < j < |vs| && NoOverflow(vs, reg) && Summary(vs, valid, st, i, j)
    ensures Summary(vs, valid, Visit(st, PairCandidate(vs, i, j), valid, reg), i, j + 1)
  {
    VisitBounded(vs, valid, reg, i, j, st);
    VisitAttained(vs, valid, reg, i, j, st);
    VisitReported(vs, valid, reg, i, j, st);
  }

  lemma VisitBounded(vs: seq<Point>, valid: Rect -> bool, reg: AreaRegister, i: nat, j: nat, st: SearchState)
    requires i < j < |vs| && NoOverflow(vs, reg) && Bounded(vs, valid, st, i, j)
    ensures Bounded(vs, valid, Visit(st, PairCandidate(vs, i, j), valid, reg), i, j + 1)
  {
    var r := PairCandidate(vs, i, j);
    if Good(vs, valid, i, j) && Area(r) > st.maxArea {
      assert Area(r) == Stored(reg, Area(r));
    }
  }

  lemma VisitAttained(vs: seq<Point>, valid: Rect -> bool, reg: AreaRegister, i: nat, j: nat, st: SearchState)
    requires i < j < |vs| && NoOverflow(vs, reg) && Attained(vs, valid, st, i, j)
    ensures Attained(vs, valid, Visit(st, PairCandidate(vs, i, j), valid, reg), i, j + 1)
  {
    var r := PairCandidate(vs, i, j);
    var next := Visit(st, r, valid, reg);
    if next.maxArea != st.maxArea {
      assert Area(r) == Stored(reg, Area(r)) && next.maxArea == Area(r);
      assert Before(i, j, i, j + 1) && Good(vs, valid, i, j);
    } else if st.maxArea != 0 {
      var a, b :| Before(a, b, i, j) && Good(vs, valid, a, b) && Area(PairCandidate(vs, a, b)) == st.maxArea;
      assert Before(a, b, i, j + 1);
    }
  }

  lemma VisitReported(vs: seq<Point>, valid: Rect -> bool, reg: AreaRegister, i: nat, j: nat, st: SearchState)
    requires i < j < |vs| && st.maxArea >= 0
    requires Attained(vs, valid, st, i, j) && Reported(vs, valid, st, i, j)
    ensures Reported(vs, valid, Visit(st, PairCandidate(vs, i, j), valid, reg), i, j + 1)
  {
    var r := PairCandidate(vs, i, j);
    if st.validCount > 0 {
      var a, b :| Before(a, b, i, j) && Good(vs, valid, a, b);
      assert Before(a, b, i, j + 1);
    } else if Good(vs, valid, i, j) {
      AreaPositive(r);
    }
  }

  /** Any property of the registers that a visit carries from `(a, b)` to
      `(a, b + 1)`, the end of a row to the next row and the last row to the
      end holds of the search's result when it holds where the search starts. */
  lemma {:induction false} SearchFromKeeps(vs: seq<Point>, valid: Rect -> bool, reg: AreaRegister,
                                           inv: (SearchState, nat, nat) -> bool, i: nat, j: nat, st: SearchState)
    requires i < j && inv(st, i, j)
    requires forall s, a: nat, b: nat :: a < b < |vs| && inv(s, a, b) ==>
               inv(Visit(s, PairCandidate(vs, a, b), valid, reg), a, b + 1)
    requires forall s, a: nat, b: nat :: a < |vs| <= b && a < b && inv(s, a, b) ==> inv(s, a + 1, a + 2)
    requires forall s, a: nat, b: nat :: |vs| <= a < b && inv(s, a, b) ==> inv(s, |vs|, 0)
    ensures inv(SearchFrom(vs, valid, reg, i, j, st), |vs|, 0)
    decreases |vs| - i, |vs| - j
  {
    if i >= |vs| {
    } else if j >= |vs| {
      SearchFromKeeps(vs, valid, reg, inv, i + 1, i + 2, st);
    } else {
      SearchFromKeeps(vs, valid, reg, inv, i, j + 1, Visit(st, PairCandidate(vs, i, j), valid, reg));
    }
  }

  /** At the end of a row, or past the last row, moving on skips no pair. */
  lemma SummaryWiden(vs: seq<Point>, valid: Rect -> bool, st: SearchState, i: nat, j: nat, i2: nat, j2: nat)
    requires Summary(vs, valid, st, i, j) && i < j
    requires (i >= |vs| && i2 == |vs| && j2 == 0) || (i < |vs| <= j && i2 == i + 1 && j2 == i + 2)
    ensures Summary(vs, valid, st, i2, j2)
  {
    assert forall a, b :: Good(vs, valid, a, b) ==> (Before(a, b, i, j) <==> Before(a, b, i2, j2));
    if st.maxArea != 0 {
      var a, b :| Before(a, b, i, j) && Good(vs, valid, a, b) && Area(PairCandidate(vs, a, b)) == st.maxArea;
      assert Before(a, b, i2, j2);
    }
    if st.validCount > 0 {
      var a, b :| Before(a, b, i, j) && Good(vs, valid, a, b);
      assert Before(a, b, i2, j2);
    }
  }

  /** The search's result: the maximum is the largest area of a valid
      non-degenerate candidate over all pairs (0 when there is none), pruning
      notwithstanding, and a valid candidate is reported iff one exists. */
  lemma SearchIsMaximum(vs: seq<Point>, valid: Rect -> bool, reg: AreaRegister)
    requires NoOverflow(vs, reg)
    ensures Summary(vs, valid, Search(vs, valid, reg), |vs|, 0)
  {
    var inv := (s, a: nat, b: nat) => Summary(vs, valid, s, a, b);
    forall s, a: nat, b: nat | a < b < |vs| && inv(s, a, b)
      ensures inv(Visit(s, PairCandidate(vs, a, b), valid, reg), a, b + 1)
    {
      VisitSummary(vs, valid, reg, a, b, s);
    }
    forall s, a: nat, b: nat | a < |vs| <= b && a < b && inv(s, a, b)
      ensures inv(s, a + 1, a + 2)
    {
      SummaryWiden(vs, valid, s, a, b, a + 1, a + 2);
    }
    forall s, a: nat, b: nat | |vs| <= a < b && inv(s, a, b)
      ensures inv(s, |vs|, 0)
    {
      SummaryWiden(vs, valid, s, a, b, |vs|, 0);
    }
    SearchFromKeeps(vs, valid, reg, inv, 0, 1, Initial);
  }
}
