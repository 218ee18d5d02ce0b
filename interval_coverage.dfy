/** The sort-then-merge coordinator (day_5/rtl/interval_coverage.py).  Inputs
    and `count_in` pass straight through to the block-RAM sorter; `start` in
    IDLE starts it and moves to SORTING.  Every sorted beat is fed to the
    range merger in the same cycle and counted, and the beat whose index is
    `count_in - 1` is flagged as the merger's last input.  Once the sorter is
    done the coordinator waits in MERGING for the merger's last beat and then
    sits in DONE for good. */
module IntervalCoverageRtl {
  import opened Intervals
  import opened MergeReference
  import opened MergeSortRtl
  import RangeMergerRtl
  import opened Registers

  datatype CoverageState = Idle | Sorting | Merging | Done

  class IntervalCoverage {
    const maxRanges: nat
    const sorter: MergeSortBram
    const merger: RangeMergerRtl.RangeMerger
    var state: CoverageState
    var sortedCount: nat
    var done: bool

    ghost predicate Valid()
      reads this, sorter, merger
    {
      sorter.Valid() && sorter.maxRanges == maxRanges && merger.Valid()
      && (state == Idle ==> !sorter.busy && merger.state == RangeMergerRtl.Idle && sortedCount == 0 && !done)
    }

    constructor (maxRanges: nat, width: nat, computeCoverage: bool)
      ensures Valid() && state == Idle && this.maxRanges == maxRanges
      ensures fresh(sorter) && fresh(sorter.bankA) && fresh(sorter.bankB) && fresh(merger)
      ensures sorter.inputIdx == 0 && merger.width == width && merger.computeCoverage == computeCoverage
    {
      this.maxRanges := maxRanges;
      sorter := new MergeSortBram(maxRanges);
      merger := new RangeMergerRtl.RangeMerger(width, computeCoverage);
      state, sortedCount, done := Idle, 0, false;
    }

    /** One IDLE cycle: the input beat is loaded into the sorter, and `start`
        starts the sorter with `countIn` and moves to SORTING. */
    method IdleCycle(validIn: bool, r: Range, start: bool, countIn: nat)
      requires Valid() && state == Idle
      modifies this, sorter, sorter.bankA
      ensures Valid()
      ensures sorter.bankA[..] == if validIn then PortWrite(old(sorter.bankA[..]), old(sorter.inputIdx), r) else old(sorter.bankA[..])
      ensures sorter.inputIdx == if validIn then Increment(old(sorter.inputIdx), sorter.IndexWidth()) else 0
      ensures state == if start then Sorting else Idle
      ensures start ==> sorter.busy && sorter.numRanges == countIn % Pow2(sorter.IndexWidth())
      ensures start ==> sorter.mergeWidth == 1 && sorter.useAAsSource
      ensures start ==> merger.state == RangeMergerRtl.Idle && merger.accepted == [] && sortedCount == 0 && !done
    {
      sorter.IdleCycle(validIn, r, start, countIn);
      sortedCount := 0;
      if start {
        state := Sorting;
      }
    }

    /** SORTING and MERGING once the sorter streams: each sorted beat goes to
        the merger in the cycle it appears and is counted, the beat with index
        `count_in - 1` carrying the last flag; after the sorter's `done` the
        merger's last beat moves the coordinator to DONE.  The merged stream
        is the fold of the sorted stream.  `count_in` is taken to be the count
        the sorter latched. */
    method FeedMerger(sorted: seq<Range>) returns (outs: seq<Range>)
      requires merger.Valid() && merger.state == RangeMergerRtl.Idle && merger.accepted == []
      requires sortedCount == 0 && !done
      modifies this, merger
      ensures merger.Valid()
      ensures sorted != [] ==> done && state == Done && outs == Coalesce(sorted) && merger.emitted == outs
      ensures sorted == [] ==> !done && state == Merging && outs == []
    {
      var countIn := |sorted|;
      outs := [];
      while sortedCount < |sorted|
        invariant merger.Valid()
        invariant sortedCount <= |sorted| && !done
        invariant merger.accepted == sorted[..sortedCount] && merger.emitted == outs
        invariant if sortedCount == 0 then merger.state == RangeMergerRtl.Idle
                  else if sortedCount < |sorted| then merger.state == RangeMergerRtl.Process
                  else merger.state == RangeMergerRtl.OutputLast
      {
        assert sorted[..sortedCount + 1] == sorted[..sortedCount] + [sorted[sortedCount]];
        var beat := merger.Cycle(true, sorted[sortedCount], sortedCount == countIn - 1);
        if beat.Some? {
          outs := outs + [beat.value.range];
        }
        sortedCount := sortedCount + 1;
      }
      assert sorted[..sortedCount] == sorted;
      state := Merging;
      if countIn >= 1 {
        var beat := merger.Cycle(false, Range(0, 0), false);
        outs := outs + [beat.value.range];
        done, state := true, Done;
      }
    }

    /** SORTING through DONE: the merged stream is what `merge_all_ranges`
        returns on the loaded ranges, and the coverage output is the sum of
        its `range_size` values modulo `2^128`: the number of distinct
        integers the loaded ranges cover, when they are non-empty and fit
        the registers.  With `count_in = 0` no beat is ever flagged last and
        the coordinator never leaves MERGING. */
    method Run() returns (outs: seq<Range>)
      requires Valid() && state == Sorting && !done && sorter.numRanges <= maxRanges
      requires sorter.busy && sorter.mergeWidth == 1 && sorter.useAAsSource
      requires merger.state == RangeMergerRtl.Idle && merger.accepted == [] && sortedCount == 0
      modifies this, sorter, sorter.bankA, sorter.bankB, merger
      ensures Valid()
      ensures old(sorter.numRanges) >= 1 ==> done && state == Done && outs == Merged(old(sorter.bankA[..sorter.numRanges]))
      ensures old(sorter.numRanges) >= 1 && merger.computeCoverage ==>
                merger.coverage == RangeMergerRtl.SizeSum(Merged(old(sorter.bankA[..sorter.numRanges])), merger.width)
                                   % RangeMergerRtl.CoverageModulus
      ensures var input := old(sorter.bankA[..sorter.numRanges]);
              old(sorter.numRanges) >= 1 && merger.computeCoverage
              && WellFormed(input) && RangeMergerRtl.InRegisters(input, merger.width) ==>
                merger.coverage == |CoveredSet(input)| % RangeMergerRtl.CoverageModulus
      ensures old(sorter.numRanges) == 0 ==> !done && state == Merging && outs == []
    {
      ghost var input := sorter.bankA[..sorter.numRanges];
      var sorted := sorter.SortAndStream();
      outs := FeedMerger(sorted);
      if WellFormed(input) && RangeMergerRtl.InRegisters(input, merger.width) {
        CoverageCountsCovered(input, merger.width);
      }
    }
  }

  /** On non-empty ranges that fit the registers, the coverage register's
      sum over the merged ranges is the number of distinct integers covered. */
  lemma CoverageCountsCovered(input: seq<Range>, width: nat)
    requires WellFormed(input) && RangeMergerRtl.InRegisters(input, width)
    ensures RangeMergerRtl.SizeSum(Merged(input), width) == |CoveredSet(input)|
  {
    var s := SortRanges(input);
    assert RangeMergerRtl.InRegisters(s, width) by {
      forall i | 0 <= i < |s| ensures 0 <= s[i].lo < Pow2(width) && 0 <= s[i].hi < Pow2(width) {
        assert s[i] in multiset(input);
      }
    }
    RangeMergerRtl.CoalesceInRegisters(s, width);
    MergedIsIntervalSet(input);
    RangeMergerRtl.SizeSumIsCoverage(Merged(input), width);
    MergedCoverageCountsDistinct(input);
  }

  /** Coalescing the sorted example `(1,5),(3,10),(15,20),(18,25)`. */
  lemma SortedExampleCoalesces()
    ensures Coalesce([Range(1, 5), Range(3, 10), Range(15, 20), Range(18, 25)]) == [Range(1, 10), Range(15, 25)]
  {
    var sorted := [Range(1, 5), Range(3, 10), Range(15, 20), Range(18, 25)];
    assert sorted[..1] == [Range(1, 5)];
    assert sorted[..2][..1] == sorted[..1];
    assert Coalesce(sorted[..2]) == [Range(1, 10)];
    assert sorted[..3][..2] == sorted[..2];
    assert Coalesce(sorted[..3]) == [Range(1, 10), Range(15, 20)];
    assert sorted[..3] == sorted[..|sorted| - 1];
  }

  /** The example input is a permutation of the sorted example. */
  lemma ExamplePermutation(input: seq<Range>, sorted: seq<Range>)
    requires input == [Range(15, 20), Range(1, 5), Range(3, 10), Range(18, 25)]
    requires sorted == [Range(1, 5), Range(3, 10), Range(15, 20), Range(18, 25)]
    ensures LexSorted(sorted) && multiset(input) == multiset(sorted)
  {
  }

  /** `(15,20),(1,5),(3,10),(18,25)` in that order comes out as `(1,10),(15,25)`. */
  lemma CoverageExample(input: seq<Range>)
    requires input == [Range(15, 20), Range(1, 5), Range(3, 10), Range(18, 25)]
    ensures Merged(input) == [Range(1, 10), Range(15, 25)]
  {
    var sorted := [Range(1, 5), Range(3, 10), Range(15, 20), Range(18, 25)];
    ExamplePermutation(input, sorted);
    SortedPermutationIsSort(input, sorted);
    SortedExampleCoalesces();
  }
}
