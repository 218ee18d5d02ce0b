/** The ID checker and the system that feeds it (day_5/rtl/range_checker.py).

    `RangeChecker` stores the merged ranges in a table in IDLE, latches the
    range and check counts on `start`, then takes one ID at a time and
    binary-searches the table for it, counting hits in a 32-bit register;
    once every ID has been checked it publishes the count and holds DONE.
    The table write index is never cleared, so the module is used once per
    reset.  The search states (SEARCH_SETUP, SEARCH_READ, SEARCH_LATCH,
    SEARCH_COMPARE) run between two LOAD_CHECK visits and are modelled as one
    loop; the one-cycle table read latency is collapsed. */
module RangeCheckerRtl {
  import opened Intervals
  import opened MergeReference
  import opened RangeSearch
  import opened Registers

  /** `valid_count` is a 32-bit register. */
  const CountModulus: int := 0x1_0000_0000

  datatype CheckerState = Idle | LoadCheck | Done

  class RangeChecker {
    const maxRanges: nat
    const table: array<Range>
    var state: CheckerState
    var numRanges: nat
    var numChecks: nat
    var rangeIdx: nat
    var checkIdx: nat
    var validCount: nat
    var validCountOut: nat
    var busy: bool
    var done: bool
    /** The IDs checked since `start`, in order. */
    ghost var checked: seq<int>
    /** The number of hits, without the 32-bit wrap. */
    ghost var hits: nat

    ghost predicate Valid()
      reads this, table
    {
      table.Length == maxRanges
      && validCount == hits % CountModulus && hits <= |checked| && checkIdx == |checked|
      && (numRanges <= maxRanges && IsIntervalSet(table[..numRanges]) ==> hits == CountCovered(table[..numRanges], checked))
      && (state == Idle ==> checked == [] && !done)
    }

    constructor (maxRanges: nat)
      ensures Valid() && state == Idle && this.maxRanges == maxRanges && rangeIdx == 0 && fresh(table)
    {
      this.maxRanges := maxRanges;
      table := new Range[maxRanges](_ => Range(0, 0));
      state := Idle;
      numRanges, numChecks, rangeIdx, checkIdx := 0, 0, 0, 0;
      validCount, validCountOut, busy, done := 0, 0, false, false;
      checked, hits := [], 0;
    }

    /** The width of `range_idx`, `num_ranges` and the `range_count_in`
        port, all declared `range(max_ranges + 1)`. */
    function IndexWidth(): nat
      reads this
    {
      RangeWidth(maxRanges + 1)
    }

    /** One IDLE cycle: a valid range goes through the write ports at
        `range_idx`, which counts up, wrapping at its width, and is never
        cleared; the address is cut to the table's address width, so past
        `max_ranges` a power-of-two table is overwritten from slot 0 and any
        other table drops the write.  `start` latches both counts (the range
        count at its port's width), clears the check index and moves to
        LOAD_CHECK. */
    method IdleCycle(rangeValidIn: bool, r: Range, start: bool, rangeCountIn: nat, checkCountIn: nat)
      requires Valid() && state == Idle
      modifies this, table
      ensures Valid()
      ensures table[..] == if rangeValidIn then PortWrite(old(table[..]), old(rangeIdx), r) else old(table[..])
      ensures rangeIdx == if rangeValidIn then Increment(old(rangeIdx), IndexWidth()) else old(rangeIdx)
      ensures state == if start then LoadCheck else Idle
      ensures start ==> numRanges == rangeCountIn % Pow2(IndexWidth()) && numChecks == checkCountIn && checked == [] && busy
      ensures !done
    {
      busy, done, validCount, hits := false, false, 0, 0;
      if rangeValidIn {
        LoadRange(r);
      }
      if start {
        Start(rangeCountIn, checkCountIn);
      }
    }

    /** The write ports at `range_idx`, which then counts up. */
    method LoadRange(r: Range)
      requires Valid() && state == Idle && !busy && hits == 0
      modifies this, table
      ensures Valid() && state == Idle && !busy && !done && hits == 0
      ensures table[..] == PortWrite(old(table[..]), old(rangeIdx), r)
      ensures rangeIdx == Increment(old(rangeIdx), IndexWidth())
    {
      WriteTable(rangeIdx, r);
      rangeIdx := Increment(rangeIdx, IndexWidth());
      assert checked == [];
    }

    /** `start`: the counts are latched and the check index cleared. */
    method Start(rangeCountIn: nat, checkCountIn: nat)
      requires Valid() && state == Idle && hits == 0
      modifies this
      ensures Valid() && state == LoadCheck && busy && !done && rangeIdx == old(rangeIdx)
      ensures numRanges == rangeCountIn % Pow2(IndexWidth()) && numChecks == checkCountIn && checked == []
    {
      numRanges, numChecks, checkIdx, busy := rangeCountIn % Pow2(IndexWidth()), checkCountIn, 0, true;
      state := LoadCheck;
      assert checked == [];
    }

    /** The table's write ports enabled with address register `addr`. */
    method WriteTable(addr: nat, r: Range)
      modifies table
      ensures table[..] == PortWrite(old(table[..]), addr, r)
    {
      var p := Pow2(RangeWidth(table.Length));
      ModRange(addr, p);
      if addr % p < table.Length {
        table[addr % p] := r;
      }
    }

    /** SEARCH_SETUP through SEARCH_COMPARE for one ID: an empty table or
        `left > right` is a miss; below the probed start a probe at index 0
        is a miss and any other probe moves `right` to `mid - 1`; above the
        probed end `left` moves to `mid + 1`; otherwise it is a hit.  A hit is
        always genuine, and on a coalesced table a miss is too. */
    method Search(v: int) returns (found: bool)
      requires numRanges <= table.Length
      ensures found ==> Covers(table[..numRanges], v)
      ensures IsIntervalSet(table[..numRanges]) ==> (found <==> Covers(table[..numRanges], v))
    {
      ghost var t := table[..numRanges];
      if numRanges == 0 {
        return false;
      }
      var left, right := 0, numRanges - 1;
      while left <= right
        invariant 0 <= left <= right + 1 <= numRanges
        invariant IsIntervalSet(t) ==> forall j :: 0 <= j < left ==> !Contains(t[j], v)
        invariant IsIntervalSet(t) ==> forall j :: right < j < |t| ==> !Contains(t[j], v)
        decreases right - left
      {
        var mid := (left + right) / 2;
        var r := table[mid];
        assert r == t[mid];
        if v < r.lo {
          if mid == 0 {
            return false;
          }
          right := mid - 1;
        } else if v > r.hi {
          if IsIntervalSet(t) {
            forall j | 0 <= j <= mid ensures !Contains(t[j], v) {
              if j < mid {
                assert t[j].hi < t[j + 1].lo <= t[mid].lo;
              }
            }
          }
          left := mid + 1;
        } else {
          return true;
        }
      }
      return false;
    }

    /** One visit to LOAD_CHECK and the search it starts.  With every ID
        checked, the count is published with `done` and the checker stays in
        DONE; otherwise an offered ID is searched, counted on a hit, and the
        check index advances by one. */
    method CheckCycle(checkValidIn: bool, id: int)
      requires Valid() && state == LoadCheck && numRanges <= maxRanges
      modifies this
      ensures Valid() && numRanges == old(numRanges) && numChecks == old(numChecks)
      ensures old(checkIdx) >= numChecks ==> state == Done && done && validCountOut == validCount && checked == old(checked)
      ensures old(checkIdx) < numChecks && checkValidIn ==> state == LoadCheck && checked == old(checked) + [id]
      ensures old(checkIdx) < numChecks && !checkValidIn ==> state == LoadCheck && checked == old(checked)
    {
      if checkIdx >= numChecks {
        validCountOut, done, busy := validCount, true, false;
        state := Done;
      } else if checkValidIn {
        CheckId(id);
      }
    }

    /** The search for one offered ID: a hit counts, and the check index
        advances by one. */
    method CheckId(id: int)
      requires Valid() && state == LoadCheck && numRanges <= maxRanges
      modifies this
      ensures Valid() && state == LoadCheck && numRanges == old(numRanges) && numChecks == old(numChecks)
      ensures checked == old(checked) + [id]
    {
      var found := Search(id);
      CountCoveredAppend(table[..numRanges], checked, id);
      if found {
        ModIncrement(hits, CountModulus);
        validCount := (validCount + 1) % CountModulus;
        hits := hits + 1;
      }
      checked := checked + [id];
      checkIdx := checkIdx + 1;
    }
  }
}

/** `RangeCheckerSystem`: the coordinator runs, each merged beat is loaded
    into the checker's table and counted, the checker is started with that
    count, and the system waits for the checker's `done`. */
module RangeCheckerSystemRtl {
  import opened Intervals
  import opened MergeReference
  import opened RangeSearch
  import RangeCheckerRtl
  import IntervalCoverageRtl
  import RangeMergerRtl
  import opened Registers

  datatype SystemState = Idle | Coverage | StartChecker | Checking | Done

  class RangeCheckerSystem {
    const coverage: IntervalCoverageRtl.IntervalCoverage
    const checker: RangeCheckerRtl.RangeChecker
    var state: SystemState
    var mergedCount: nat

    ghost predicate Valid()
      reads this, coverage, coverage.sorter, coverage.merger, checker, checker.table
    {
      coverage.Valid() && checker.Valid() && coverage.maxRanges == checker.maxRanges
      && (state == Idle ==> coverage.state == IntervalCoverageRtl.Idle && checker.state == RangeCheckerRtl.Idle
                            && checker.rangeIdx == 0 && mergedCount == 0)
    }

    constructor (maxRanges: nat, width: nat)
      ensures Valid() && state == Idle && coverage.maxRanges == maxRanges
      ensures coverage.sorter.inputIdx == 0
      ensures fresh(coverage) && fresh(coverage.sorter) && fresh(coverage.sorter.bankA)
      ensures fresh(coverage.sorter.bankB) && fresh(coverage.merger) && fresh(checker) && fresh(checker.table)
    {
      coverage := new IntervalCoverageRtl.IntervalCoverage(maxRanges, width, false);
      checker := new RangeCheckerRtl.RangeChecker(maxRanges);
      state, mergedCount := Idle, 0;
    }

    /** One IDLE cycle: the range beat is loaded into the coordinator, and
        `start` starts it with `count_in`. */
    method IdleCycle(validIn: bool, r: Range, start: bool, countIn: nat)
      requires Valid() && state == Idle
      modifies this, coverage, coverage.sorter, coverage.sorter.bankA
      ensures Valid()
      ensures coverage.sorter.bankA[..] == if validIn then PortWrite(old(coverage.sorter.bankA[..]), old(coverage.sorter.inputIdx), r)
                                           else old(coverage.sorter.bankA[..])
      ensures coverage.sorter.inputIdx == if validIn then Increment(old(coverage.sorter.inputIdx), coverage.sorter.IndexWidth()) else 0
      ensures state == if start then Coverage else Idle
      ensures start ==> coverage.state == IntervalCoverageRtl.Sorting && !coverage.done
      ensures start ==> coverage.sorter.busy && coverage.sorter.numRanges == countIn % Pow2(coverage.sorter.IndexWidth())
      ensures start ==> coverage.sorter.mergeWidth == 1 && coverage.sorter.useAAsSource
      ensures start ==> coverage.merger.state == RangeMergerRtl.Idle && coverage.merger.accepted == [] && coverage.sortedCount == 0
      ensures checker.state == RangeCheckerRtl.Idle && checker.rangeIdx == 0 && mergedCount == 0
    {
      coverage.IdleCycle(validIn, r, start, countIn);
      if start {
        state := Coverage;
      }
    }

    /** IDLE from reset: the ranges are loaded one per cycle, then a cycle
        without data raises `start` with their number. */
    method LoadRanges(ranges: seq<Range>)
      requires Valid() && state == Idle && coverage.sorter.inputIdx == 0
      requires 1 <= |ranges| <= coverage.maxRanges
      modifies this, coverage, coverage.sorter, coverage.sorter.bankA
      ensures Valid() && state == Coverage
      ensures coverage.state == IntervalCoverageRtl.Sorting && !coverage.done
      ensures coverage.sorter.busy && coverage.sorter.mergeWidth == 1 && coverage.sorter.useAAsSource
      ensures coverage.merger.state == RangeMergerRtl.Idle && coverage.merger.accepted == [] && coverage.sortedCount == 0
      ensures checker.state == RangeCheckerRtl.Idle && checker.rangeIdx == 0 && mergedCount == 0
      ensures coverage.sorter.numRanges == |ranges| && coverage.sorter.bankA[..|ranges|] == ranges
    {
      var k := 0;
      while k < |ranges|
        invariant k <= |ranges| && Valid() && state == Idle
        invariant coverage.sorter.inputIdx == k && coverage.sorter.bankA[..k] == ranges[..k]
      {
        coverage.sorter.LoadBelowCapacity(coverage.sorter.bankA[..], k, ranges[k]);
        IdleCycle(true, ranges[k], false, 0);
        assert coverage.sorter.bankA[..k + 1] == ranges[..k + 1];
        k := k + 1;
      }
      ModRange(|ranges|, Pow2(coverage.sorter.IndexWidth()));
      IdleCycle(false, Range(0, 0), true, |ranges|);
      assert coverage.sorter.bankA[..|ranges|] == ranges;
    }

    /** COVERAGE and START_CHECKER: the coordinator runs; each merged beat is
        written into the checker's table and counted in `merged_count`; once
        the coordinator is done the checker is started with that count and
        the given number of checks.  With no ranges the coordinator never
        finishes and the system stays in COVERAGE. */
    method RunCoverage(checkCount: nat)
      requires Valid() && state == Coverage && coverage.sorter.numRanges <= coverage.maxRanges
      requires coverage.state == IntervalCoverageRtl.Sorting && !coverage.done
      requires coverage.sorter.busy && coverage.sorter.mergeWidth == 1 && coverage.sorter.useAAsSource
      requires coverage.merger.state == RangeMergerRtl.Idle && coverage.merger.accepted == [] && coverage.sortedCount == 0
      requires checker.state == RangeCheckerRtl.Idle && checker.rangeIdx == 0 && mergedCount == 0
      modifies this, coverage, coverage.sorter, coverage.sorter.bankA, coverage.sorter.bankB, coverage.merger
      modifies checker, checker.table
      ensures Valid()
      ensures old(coverage.sorter.numRanges) == 0 ==> state == Coverage
      ensures old(coverage.sorter.numRanges) >= 1 ==>
                state == Checking && checker.state == RangeCheckerRtl.LoadCheck && checker.numChecks == checkCount
                && checker.numRanges <= checker.maxRanges && checker.table[..checker.numRanges] == Merged(old(coverage.sorter.bankA[..coverage.sorter.numRanges]))
                && checker.checked == []
    {
      var outs := coverage.Run();
      if !coverage.done {
        return;
      }
      ghost var input := old(coverage.sorter.bankA[..coverage.sorter.numRanges]);
      SortRangesSorted(input);
      MergedIsIntervalSet(input);
      LoadMerged(outs);
      state := StartChecker;
      ModRange(mergedCount, Pow2(checker.IndexWidth()));
      checker.IdleCycle(false, Range(0, 0), true, mergedCount, checkCount);
      state := Checking;
    }

    /** COVERAGE: each merged beat is written into the checker's table at
        the next index and counted. */
    method LoadMerged(outs: seq<Range>)
      requires checker.Valid() && checker.state == RangeCheckerRtl.Idle && checker.rangeIdx == 0 && mergedCount == 0
      requires |outs| <= checker.maxRanges
      modifies this`mergedCount, checker, checker.table
      ensures checker.Valid() && checker.state == RangeCheckerRtl.Idle
      ensures mergedCount == |outs| && checker.table[..mergedCount] == outs
    {
      while mergedCount < |outs|
        invariant mergedCount <= |outs|
        invariant checker.Valid() && checker.state == RangeCheckerRtl.Idle
        invariant checker.rangeIdx == mergedCount && checker.table[..mergedCount] == outs[..mergedCount]
      {
        ModRange(mergedCount, Pow2(RangeWidth(checker.table.Length)));
        ModRange(mergedCount + 1, Pow2(checker.IndexWidth()));
        checker.IdleCycle(true, outs[mergedCount], false, 0, 0);
        assert checker.table[..mergedCount + 1] == outs[..mergedCount + 1];
        mergedCount := mergedCount + 1;
      }
    }

    /** CHECKING: the IDs are offered one per LOAD_CHECK visit; after the last
        one the checker publishes its count and the system reaches DONE.  On
        a coalesced table the count is the number of covered IDs, modulo
        `2^32`. */
    method RunChecks(checks: seq<int>) returns (count: nat)
      requires Valid() && state == Checking
      requires checker.state == RangeCheckerRtl.LoadCheck && checker.checked == [] && checker.numChecks == |checks|
      requires checker.numRanges <= checker.maxRanges
      modifies this, checker
      ensures Valid() && state == Done && checker.done && count == checker.validCountOut
      ensures checker.checked == checks && checker.numRanges == old(checker.numRanges)
      ensures IsIntervalSet(checker.table[..checker.numRanges]) ==>
                count == CountCovered(checker.table[..checker.numRanges], checks) % RangeCheckerRtl.CountModulus
    {
      var k := 0;
      while k < |checks|
        invariant k <= |checks| && checker.Valid() && checker.state == RangeCheckerRtl.LoadCheck
        invariant checker.numRanges == old(checker.numRanges)
        invariant checker.numChecks == |checks| && checker.checked == checks[..k]
      {
        checker.CheckCycle(true, checks[k]);
        assert checks[..k + 1] == checks[..k] + [checks[k]];
        k := k + 1;
      }
      assert checks[..k] == checks;
      checker.CheckCycle(false, 0);
      count := checker.validCountOut;
      state := Done;
    }
  }

  /** The whole system from reset: the ranges are loaded, then the checks
      are run.  With at least one range the published count is the number of
      IDs some input range covers, modulo `2^32`, as `count_valid_ids`
      computes it; with none the system never gets past COVERAGE. */
  method RunSystem(maxRanges: nat, width: nat, ranges: seq<Range>, checks: seq<int>) returns (count: nat)
    requires 1 <= |ranges| <= maxRanges
    ensures count == CountCovered(ranges, checks) % RangeCheckerRtl.CountModulus
  {
    var system := new RangeCheckerSystem(maxRanges, width);
    system.LoadRanges(ranges);
    system.RunCoverage(|checks|);
    assert system.checker.table[..system.checker.numRanges] == Merged(ranges);
    MergedIsIntervalSet(ranges);
    count := system.RunChecks(checks);
    CountCoveredMerged(ranges, checks);
  }
}
