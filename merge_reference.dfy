/** The software reference for coalescing (day_5/software_reference/range_merger.py):
    `merge_all_ranges` sorts the ranges and folds them left to right, extending
    the last merged range whenever the next one starts at or before its end;
    `calculate_total_coverage` sums the widths; `suma` is Gauss's formula.
    The properties its property-based tests check are proved here for all
    inputs: the result is a coalesced interval set, covers exactly the same
    integers, is idempotent and independent of input order, and its summed
    width counts the covered integers. */
module MergeReference {
  import opened Intervals

  function Last(s: seq<Range>): Range
    requires s != []
  {
    s[|s| - 1]
  }

  /** One iteration of the coalescing loop: a range starting at or before the
      end of the last merged range extends it (touching ranges merge), any
      other range is appended. */
  function MergeStep(merged: seq<Range>, cur: Range): (r: seq<Range>)
    requires merged != []
    ensures r != []
  {
    var last := Last(merged);
    if cur.lo <= last.hi then merged[|merged| - 1 := Range(last.lo, Max(last.hi, cur.hi))]
    else merged + [cur]
  }

  /** The coalescing loop run over a list in the order given. */
  function Coalesce(s: seq<Range>): (r: seq<Range>)
    ensures |r| <= |s|
    ensures (r == []) == (s == [])
  {
    if |s| <= 1 then s else MergeStep(Coalesce(s[..|s| - 1]), Last(s))
  }

  /** What `merge_all_ranges` returns. */
  function Merged(ranges: seq<Range>): seq<Range>
  {
    Coalesce(SortRanges(ranges))
  }

  // ---------------------------------------------------------------------------
  // Shape of the coalesced output.

  /** In whatever order the ranges arrive, each coalesced range ends strictly
      before the next one starts: an appended range starts after the last end,
      and extending the last range moves only its end. */
  lemma {:induction false} CoalesceSeparated(s: seq<Range>)
    ensures Separated(Coalesce(s))
  {
    if |s| > 1 {
      var p := s[..|s| - 1];
      CoalesceSeparated(p);
      var m := Coalesce(p);
      var r := Coalesce(s);
      var c, last := Last(s), Last(m);
      if c.lo <= last.hi {
        assert |r| == |m| && r[|r| - 1].lo == last.lo;
        forall i | 0 <= i < |r| - 1 ensures r[i].hi < r[i + 1].lo {
          assert r[i] == m[i];
        }
      } else {
        assert r == m + [c];
        forall i | 0 <= i < |r| - 1 ensures r[i].hi < r[i + 1].lo {
          if i < |m| - 1 {
            assert r[i] == m[i] && r[i + 1] == m[i + 1];
          }
        }
      }
    }
  }

  /** On a lexicographically sorted list, the coalesced list is itself sorted,
      its neighbours are strictly apart, and its last range never sorts after
      the last input. */
  lemma {:induction false} CoalesceShape(s: seq<Range>)
    requires LexSorted(s) && s != []
    ensures LexSorted(Coalesce(s)) && Separated(Coalesce(s))
    ensures LexLe(Last(Coalesce(s)), Last(s))
  {
    if |s| > 1 {
      var p := s[..|s| - 1];
      assert LexSorted(p);
      CoalesceShape(p);
      var m := Coalesce(p);
      var c := Last(s);
      assert Last(p) == s[|s| - 2];
      assert LexLe(Last(p), c);
      LexLeTransitive(Last(m), Last(p), c);
      var r := MergeStep(m, c);
      if c.lo <= Last(m).hi {
        var nl := Range(Last(m).lo, Max(Last(m).hi, c.hi));
        assert r == m[|m| - 1 := nl];
        assert LexLe(Last(m), nl);
        forall i, j | 0 <= i < j < |r| ensures LexLe(r[i], r[j]) {
          if j == |r| - 1 {
            if i < j { LexLeTransitive(m[i], Last(m), nl); }
          }
        }
      } else {
        assert r == m + [c];
        forall i, j | 0 <= i < j < |r| ensures LexLe(r[i], r[j]) {
          if j == |r| - 1 {
            if i < |m| - 1 { LexLeTransitive(m[i], Last(m), c); }
          }
        }
      }
    }
  }

  /** Coalescing keeps every range non-empty when the inputs are. */
  lemma {:induction false} CoalesceWellFormed(s: seq<Range>)
    requires WellFormed(s)
    ensures WellFormed(Coalesce(s))
  {
    if |s| > 1 {
      CoalesceWellFormed(s[..|s| - 1]);
    }
  }

  /** One loop step covers what the merged list covered and the new range,
      provided the new range does not start before the last merged one. */
  lemma MergeStepCovers(m: seq<Range>, c: Range, v: int)
    requires m != [] && Last(m).lo <= c.lo
    ensures Covers(MergeStep(m, c), v) <==> Covers(m, v) || Contains(c, v)
  {
    if c.lo <= Last(m).hi {
      var nl := Range(Last(m).lo, Max(Last(m).hi, c.hi));
      var front := m[..|m| - 1];
      assert m == front + [Last(m)];
      assert MergeStep(m, c) == front + [nl];
      CoversAppend(front, Last(m), v);
      CoversAppend(front, nl, v);
    } else {
      CoversAppend(m, c, v);
    }
  }

  /** On a list whose starts ascend, coalescing covers exactly the integers the
      list covers. */
  lemma {:induction false} CoalesceCovers(s: seq<Range>, v: int)
    requires LexSorted(s)
    ensures Covers(Coalesce(s), v) <==> Covers(s, v)
  {
    if |s| > 1 {
      var p := s[..|s| - 1];
      var c := Last(s);
      assert LexSorted(p);
      CoalesceCovers(p, v);
      CoalesceShape(p);
      var m := Coalesce(p);
      assert LexLe(Last(p), c);
      LexLeTransitive(Last(m), Last(p), c);
      MergeStepCovers(m, c, v);
      assert s == p + [c];
      CoversAppend(p, c, v);
    }
  }

  /** A list that is already separated passes through the loop unchanged. */
  lemma {:induction false} CoalesceSeparatedIdentity(s: seq<Range>)
    requires Separated(s)
    ensures Coalesce(s) == s
  {
    if |s| > 1 {
      var p := s[..|s| - 1];
      assert Separated(p);
      CoalesceSeparatedIdentity(p);
      assert s[|s| - 2].hi < s[|s| - 1].lo;
      assert s == p + [Last(s)];
    }
  }

  // ---------------------------------------------------------------------------
  // Properties of merge_all_ranges (the Hypothesis suite, for every input).

  /** The result is sorted, ascending by start, and neighbours are strictly apart. */
  lemma MergedIsIntervalSet(ranges: seq<Range>)
    ensures LexSorted(Merged(ranges)) && IsIntervalSet(Merged(ranges))
    ensures WellFormed(ranges) ==> WellFormed(Merged(ranges))
  {
    SortRangesSorted(ranges);
    var s := SortRanges(ranges);
    if s != [] {
      CoalesceShape(s);
      LexSortedByStart(Coalesce(s));
    }
    if WellFormed(ranges) {
      forall i | 0 <= i < |s| ensures s[i].lo <= s[i].hi {
        assert s[i] in multiset(ranges);
      }
      CoalesceWellFormed(s);
    }
  }

  /** The merged ranges cover exactly the integers the input ranges cover. */
  lemma MergedCovers(ranges: seq<Range>, v: int)
    ensures Covers(Merged(ranges), v) <==> Covers(ranges, v)
  {
    SortRangesSorted(ranges);
    CoalesceCovers(SortRanges(ranges), v);
    CoversPermutation(SortRanges(ranges), ranges, v);
  }

  /** Merging twice gives the same list as merging once. */
  lemma MergedIdempotent(ranges: seq<Range>)
    ensures Merged(Merged(ranges)) == Merged(ranges)
  {
    var m := Merged(ranges);
    MergedIsIntervalSet(ranges);
    SortedPermutationIsSort(m, m);
    CoalesceSeparatedIdentity(m);
  }

  /** The result does not depend on the order of the input. */
  lemma MergedOrderIndependent(a: seq<Range>, b: seq<Range>)
    requires multiset(a) == multiset(b)
    ensures Merged(a) == Merged(b)
  {
    SortRangesSorted(a);
    SortedPermutationIsSort(b, SortRanges(a));
  }

  /** Merging the reversed input (the permutation the test suite uses) gives the same list. */
  lemma MergedReversed(ranges: seq<Range>)
    ensures Merged(Reverse(ranges)) == Merged(ranges)
  {
    ReverseMultiset(ranges);
    MergedOrderIndependent(Reverse(ranges), ranges);
  }

  function Reverse(s: seq<Range>): (r: seq<Range>)
  {
    if s == [] then [] else Reverse(s[1..]) + [s[0]]
  }

  lemma {:induction false} ReverseMultiset(s: seq<Range>)
    ensures multiset(Reverse(s)) == multiset(s)
  {
    if s != [] {
      ReverseMultiset(s[1..]);
      assert s == [s[0]] + s[1..];
    }
  }

  /** An empty input gives an empty result, and a single range comes back unchanged. */
  lemma MergedSmall(r: Range)
    ensures Merged([]) == []
    ensures Merged([r]) == [r]
  {
    assert SortRanges([r]) == [r];
  }

  // ---------------------------------------------------------------------------
  // The loops of the reference, proved against the functions above.

  /** `merge_all_ranges`: sort, then extend `merged[-1]` or append, one range at a time. */
  method MergeAllRanges(ranges: seq<Range>) returns (merged: seq<Range>)
    ensures merged == Merged(ranges)
    ensures LexSorted(merged) && IsIntervalSet(merged)
    ensures forall v :: Covers(merged, v) <==> Covers(ranges, v)
  {
    var sorted := SortRanges(ranges);
    if |ranges| == 0 {
      merged := [];
    } else {
      merged := [sorted[0]];
      var k := 1;
      assert sorted[..1] == [sorted[0]];
      while k < |sorted|
        invariant 1 <= k <= |sorted|
        invariant merged == Coalesce(sorted[..k])
      {
        var cur := sorted[k];
        var last := merged[|merged| - 1];
        assert sorted[..k + 1][..k] == sorted[..k];
        assert Coalesce(sorted[..k + 1]) == MergeStep(merged, cur);
        if cur.lo <= last.hi {
          merged := merged[|merged| - 1 := Range(last.lo, Max(last.hi, cur.hi))];
        } else {
          merged := merged + [cur];
        }
        k := k + 1;
      }
      assert sorted[..k] == sorted;
    }
    MergedIsIntervalSet(ranges);
    forall v ensures Covers(Merged(ranges), v) <==> Covers(ranges, v) {
      MergedCovers(ranges, v);
    }
  }

  /** Sum of `end - start + 1` over the list. */
  function TotalCoverage(rs: seq<Range>): int
  {
    if rs == [] then 0 else TotalCoverage(rs[..|rs| - 1]) + (Last(rs).hi - Last(rs).lo + 1)
  }

  /** `calculate_total_coverage`: accumulates `end - (start - 1)` over the list. */
  method CalculateTotalCoverage(ranges: seq<Range>) returns (total: int)
    ensures total == TotalCoverage(ranges)
    ensures WellFormed(ranges) ==> total >= |ranges|
  {
    total := 0;
    var k := 0;
    while k < |ranges|
      invariant 0 <= k <= |ranges|
      invariant total == TotalCoverage(ranges[..k])
      invariant WellFormed(ranges) ==> total >= k
    {
      assert ranges[..k + 1][..k] == ranges[..k];
      total := total + (ranges[k].hi - (ranges[k].lo - 1));
      k := k + 1;
    }
    assert ranges[..k] == ranges;
  }

  // ---------------------------------------------------------------------------
  // The summed width of the merged list counts the distinct covered integers.

  /** The integers `lo..hi`, one at a time from the top. */
  function Span(lo: int, hi: int): (r: set<int>)
    ensures forall v :: v in r <==> lo <= v <= hi
    decreases hi - lo
  {
    if lo > hi then {} else Span(lo, hi - 1) + {hi}
  }

  /** The set of integers covered by the list. */
  function CoveredSet(rs: seq<Range>): (r: set<int>)
    ensures forall v :: v in r <==> Covers(rs, v)
  {
    if rs == [] then {}
    else
      assert rs == rs[..|rs| - 1] + [Last(rs)];
      assert forall v :: Covers(rs, v) <==> Covers(rs[..|rs| - 1], v) || Contains(Last(rs), v) by {
        forall v ensures Covers(rs, v) <==> Covers(rs[..|rs| - 1], v) || Contains(Last(rs), v) {
          CoversAppend(rs[..|rs| - 1], Last(rs), v);
        }
      }
      CoveredSet(rs[..|rs| - 1]) + Span(Last(rs).lo, Last(rs).hi)
  }

  lemma {:induction false} SpanSize(lo: int, hi: int)
    requires lo <= hi + 1
    ensures |Span(lo, hi)| == hi - lo + 1
    decreases hi - lo
  {
    if lo <= hi {
      SpanSize(lo, hi - 1);
    }
  }

  /** On a well-formed interval set, the summed width is the number of covered integers. */
  lemma {:induction false} CoverageCountsIntervalSet(rs: seq<Range>)
    requires WellFormed(rs) && Separated(rs)
    ensures |CoveredSet(rs)| == TotalCoverage(rs)
  {
    if rs != [] {
      var p := rs[..|rs| - 1];
      var r := Last(rs);
      assert WellFormed(p) && Separated(p);
      CoverageCountsIntervalSet(p);
      assert CoveredSet(rs) == CoveredSet(p) + Span(r.lo, r.hi);
      EndsBelowLast(rs);
      assert CoveredSet(p) !! Span(r.lo, r.hi);
      SpanSize(r.lo, r.hi);
    }
  }

  /** In an interval set every earlier range ends below the start of the
      last one. */
  lemma EndsBelowLast(rs: seq<Range>)
    requires WellFormed(rs) && Separated(rs) && rs != []
    ensures forall i :: 0 <= i < |rs| - 1 ==> rs[i].hi < Last(rs).lo
  {
    forall i | 0 <= i < |rs| - 1 ensures rs[i].hi < Last(rs).lo {
      SeparatedEndsBelow(rs, i);
    }
  }

  lemma {:induction false} SeparatedEndsBelow(rs: seq<Range>, i: int)
    requires WellFormed(rs) && Separated(rs) && 0 <= i < |rs| - 1
    ensures rs[i].hi < Last(rs).lo
    decreases |rs| - i
  {
    if i < |rs| - 2 {
      SeparatedEndsBelow(rs, i + 1);
    }
  }

  /** `calculate_total_coverage(merge_all_ranges(x))` is the number of distinct
      integers the well-formed input `x` covers. */
  lemma MergedCoverageCountsDistinct(ranges: seq<Range>)
    requires WellFormed(ranges)
    ensures TotalCoverage(Merged(ranges)) == |CoveredSet(ranges)|
  {
    var m := Merged(ranges);
    MergedIsIntervalSet(ranges);
    CoverageCountsIntervalSet(m);
    forall v ensures v in CoveredSet(m) <==> v in CoveredSet(ranges) {
      MergedCovers(ranges, v);
    }
    assert CoveredSet(m) == CoveredSet(ranges);
  }

  // ---------------------------------------------------------------------------

  /** `suma(n) = n * (n + 1) // 2`; the product of two consecutive integers is
      even, so floor division and Dafny's division agree. */
  function Suma(n: int): int
  {
    (n * (n + 1)) / 2
  }

  function SumTo(n: nat): nat
  {
    if n == 0 then 0 else SumTo(n - 1) + n
  }

  /** Gauss: `suma(n)` is `1 + 2 + ... + n`. */
  lemma {:induction false} SumaIsGauss(n: nat)
    ensures Suma(n) == SumTo(n)
  {
    if n > 0 {
      SumaIsGauss(n - 1);
      assert n * (n + 1) == (n - 1) * n + 2 * n;
    }
  }
}
