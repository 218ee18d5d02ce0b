# adventRTL interval and rectangle cores in Dafny

This project models two integer hardware cores of the adventRTL repository,
together with the Python software references they were designed against.

**day_5: interval coverage.** A list of inclusive integer ranges
`(start, end)` is sorted and coalesced into a sorted list in which each range ends strictly before the
next one starts. Query ids are then counted against that list.

- `MergeSortBRAM` is a bottom-up merge sort over two memory banks used in
  ping-pong fashion. It compares keys lexicographically on `(start, end)`.
- `RangeMerger` is a one-accumulator streaming coalescer. It keeps an
  optional 128-bit coverage sum.
- `IntervalCoverage` chains the sorter into the merger and tags the last
  sorted element.
- `RangeChecker` runs one binary search per query over the merged table.
  `RangeCheckerSystem` sequences coverage and then checking.
- The software references are `merge_all_ranges`,
  `calculate_total_coverage`, `suma`, `is_in_ranges` and `count_valid_ids`.

**day_9: largest rectangle inside a rectilinear polygon.** The rectangles
considered are the bounding boxes of vertex pairs, with coordinates scaled
by 4.

- The software reference `MaxRectangleFinder` enumerates the pairs, prunes
  them by area, and validates each candidate with four geometric checks
  (vertex inside, edge crossing, ray-cast parity, boundary).
- The hardware modules are:
  - the combinational checks of `checks.py`;
  - the edge-walking `ValidateRectangle` state machine;
  - the pair-enumerating `MaxRectangleFinder` state machine;
  - the ASCII front end `MaxRectangleAsciiWrapper`. It parses `x,y` lines
    into scaled vertices and prints the result through a double-dabble
    binary-to-decimal converter.

**How the model is built.**

- Pure code becomes functions and lemmas:
  - the range algebra (`Intervals`, `MergeReference`);
  - the check predicates (`RectChecksRtl`);
  - the shared geometry (`RectGeometry`);
  - the pair enumeration (`PairSearch`);
  - the text format (`PolygonText`).
- Every state machine is a class whose fields are the module's registers:
  - memories are `array`s written in place;
  - each FSM state, or each phase of several states, is a method;
  - every method's `ensures` ties the new registers to a specification
    function, whose properties are proved as lemmas.
- Fixed register widths are written out where they change a result:
  - the 128-bit coverage sum;
  - the 32-bit match counter;
  - the 16-bit crossing counters;
  - the `2 * coord_width`-bit area register;
  - the 16-bit vertex counter;
  - the `coord_width`-bit scaled coordinates;
  - the 40-bit double-dabble window;
  - the `range(n)` index and count registers and the memories' write
    ports, whose addresses are truncated to the port width and whose
    writes past the depth are dropped (`Registers`).

The software references and the RTL are kept apart. The reference shrinks
the rectangle by 4 for its edge check and uses unbounded integers. The RTL
shrinks by 1 and uses unsigned registers. No equivalence between them is
claimed.

Four operations have two implementations:

- **merge_all_ranges.** It appears identically in
  `day_5/software_reference/range_merger.py:51-89` and
  `day_5/software_reference/range_checker.py:48-86`.
  `MergeReference.MergeAllRanges` models both.
- **Validator walk.** `ValidateRectangleRtl.ValidateRectangle.RunAsWritten`
  walks the edges as the RTL does, for `n + 1` steps.
  `ValidateRectangleRtl.ValidateRectangle.Run` walks `n` steps. See
  Findings. The finder's `singlePassWalk` constant chooses which one its
  validations use. With `false` the finder is the RTL as written: each
  verdict depends on the `start_vertex_reg` the previous validation left,
  and the search is `FinderSearch` with `n + 1` steps. With `true` the
  search is proved equal to the shared pair search with the polygon test
  (`FinderSearchSinglePass`).
- **Finder vertex load.** `MaxRectangleFinderRtl.MaxRectangleFinder.LoadCycle`
  drops the write of the vertex that carries `vertex_last`, as the RTL
  does. `LoadCycleIntended` stores it. See Findings.
- **Result serialiser.** `AsciiWrapper.MaxRectangleAsciiWrapper.Respond`
  loads `max_area >> 4` into an `area_width`-bit register, as written.
  `RespondWidened` loads it into a register at least 40 bits wide. See
  Findings.

## Model

The specification functions that the contracts below name have no rows of their own. Examples are `AsciiWrapper.Feed`, `AsciiWrapper.Converted`, `MaxRectangleFinderRtl.FinderSearch`, `PolygonText.ParseInt`, `MergeReference.Suma` and `ValidateRectangleRtl.InsidePolygon`. Each is the reference definition that the rows' contracts are stated against, and sits next to them in the same module.

| member | source | states |
|---|---|---|
| Intervals.LexSortedByStart | day_5/formal/tests_hypothesis.py:38-43 | a list sorted lexicographically on `(start, end)` is sorted by start |
| Intervals.CoversAppend | day_5/formal/tests_hypothesis.py:30-35 | the integers covered by `rs + [r]` are those covered by `rs` plus those in `r` |
| Intervals.CoversPermutation | day_5/formal/tests_hypothesis.py:147-160 | two lists with the same multiset of ranges cover exactly the same integers |
| Intervals.Insert | day_5/software_reference/range_merger.py:75 | insertion adds exactly one copy of the element to the multiset |
| Intervals.InsertSorted | day_5/software_reference/range_merger.py:75 | inserting into a lexicographically sorted list keeps it sorted |
| Intervals.SortRanges | day_5/software_reference/range_merger.py:75 | `sorted(ranges)` is a permutation of its input (same multiset, same length) |
| Intervals.SortRangesSorted | day_5/software_reference/range_merger.py:75 | `sorted(ranges)` is lexicographically sorted on `(start, end)` |
| Intervals.SortedHeadIsLeast | day_5/software_reference/range_merger.py:75 | the head of a sorted list is lexicographically at most every element of it |
| Intervals.SortedPermutationUnique | day_5/software_reference/range_merger.py:75 | two sorted lists with the same multiset are equal: the sorted order is unique |
| Intervals.SortedPermutationIsSort | day_5/software_reference/range_merger.py:75 | any sorted permutation of the input is `sorted(input)`, whichever algorithm produced it |
| MergeReference.Coalesce | day_5/software_reference/range_merger.py:76-89 | the merge loop never lengthens the list, and its output is empty iff its input is |
| MergeReference.CoalesceSeparated | day_5/software_reference/range_merger.py:78-87 | after the loop, every merged range ends strictly before the next one starts |
| MergeReference.CoalesceShape | day_5/software_reference/range_merger.py:75-87 | on sorted input the output is sorted and separated, and its last range starts no later than the last input range |
| MergeReference.CoalesceWellFormed | day_5/software_reference/range_merger.py:78-87 | if every input range has `start <= end`, so does every output range |
| MergeReference.MergeStepCovers | day_5/software_reference/range_merger.py:82-87 | extending the last range to `max(last_end, cur_end)`, or appending `cur`, covers exactly the old cover plus `cur` |
| MergeReference.CoalesceCovers | day_5/software_reference/range_merger.py:78-87 | on sorted input, the merge loop preserves the set of covered integers (both directions) |
| MergeReference.CoalesceSeparatedIdentity | day_5/formal/tests_hypothesis.py:166-184 | a list that is already separated passes through the merge loop unchanged |
| MergeReference.MergedIsIntervalSet | day_5/formal/tests_hypothesis.py:76-92 | `merge_all_ranges` output is sorted, and each of its ranges ends strictly before the next one starts; it is well formed if the input is |
| MergeReference.MergedCovers | day_5/formal/tests_hypothesis.py:57-70 | `merge_all_ranges` covers exactly the integers its input covers |
| MergeReference.MergedIdempotent | day_5/formal/tests_hypothesis.py:98-105 | merging a merged list returns it unchanged |
| MergeReference.MergedOrderIndependent | day_5/formal/tests_hypothesis.py:147-160 | any two orderings of the same ranges merge to the same list |
| MergeReference.MergedReversed | day_5/formal/tests_hypothesis.py:152-160 | the reversed input merges to the same list |
| MergeReference.MergedSmall | day_5/formal/tests_hypothesis.py:110-123 | the empty input merges to `[]`, and a single range merges to itself |
| MergeReference.MergeAllRanges | day_5/software_reference/range_merger.py:51-89 | the loop returns the merge specification: sorted, separated, and covering exactly the input's integers; `[]` for `[]` |
| MergeReference.CalculateTotalCoverage | day_5/software_reference/range_merger.py:92-105 | the loop returns the sum of `end - start + 1`, which is at least the number of ranges when all are well formed |
| MergeReference.CoveredSet | day_5/formal/tests_hypothesis.py:30-35 | an integer is in the covered set iff some range contains it |
| MergeReference.CoverageCountsIntervalSet | day_5/formal/tests_hypothesis.py:129-141 | on well-formed, separated ranges, the summed coverage equals the number of distinct covered integers |
| MergeReference.MergedCoverageCountsDistinct | day_5/formal/tests_hypothesis.py:129-141 | the total coverage of `merge_all_ranges(ranges)` is the number of distinct integers the input covers |
| MergeReference.SumaIsGauss | day_5/software_reference/range_merger.py:38-48 | `suma(n) = n(n+1)/2` equals `0 + 1 + ... + n` |
| RangeSearch.IsInRanges | day_5/software_reference/range_checker.py:89-125 | the binary search reports True only for a covered value; on a table sorted by start whose ranges end before the next starts, it reports True iff some `(s, e)` has `s <= v <= e`; it reports False for an empty table |
| RangeSearch.CountCovered | day_5/software_reference/range_checker.py:147-153 | the number of covered check ids is at most the number of checks |
| RangeSearch.CountCoveredMerged | day_5/software_reference/range_checker.py:144-153 | counting against the merged table gives the same count as counting against the raw ranges |
| RangeSearch.CountValidIds | day_5/software_reference/range_checker.py:128-153 | `count_valid_ids` returns the number of check ids covered by the input ranges, at most `len(checks)` |
| Registers.BitLength | day_9/rtl/max_rectangle_finder.py:63 | `x.bit_length()` is the least `k` with `x < 2^k` |
| Registers.RangeWidth | day_5/rtl/merge_sort.py:91-92 | a `range(n)` register is `(n - 1).bit_length()` bits wide, enough for every value below `n` |
| Registers.RangeWidthOfPow2 | day_5/rtl/merge_sort.py:68-83 | a memory of depth `2^k` has a `k`-bit write address |
| Registers.Increment | day_5/rtl/merge_sort.py:139 | an index register incremented in place: one more while that fits its width, 0 when it wraps |
| Registers.PortWrite | day_5/rtl/merge_sort.py:130-138 | a write port keeps the length of the memory; an address below the depth writes exactly that entry |
| Registers.PortWriteWrapsAround | day_5/rtl/merge_sort.py:130-139 | on a memory of depth `2^k`, address `2^k + a` is truncated and overwrites entry `a` |
| Registers.PortWritePastDepth | day_5/rtl/merge_sort.py:130-138 | an address at or past the depth that fits the address port leaves the memory unchanged |
| MergeSortRtl.MergeSeq | day_5/rtl/merge_sort.py:267-375 | a block merge emits exactly as many elements as its two runs hold |
| MergeSortRtl.MergePass | day_5/rtl/merge_sort.py:155-182 | one pass of width `w` keeps the length of the bank prefix |
| MergeSortRtl.PassesFrom | day_5/rtl/merge_sort.py:386-398 | the pass sequence, doubling `w` until `2w >= n`, keeps the length |
| MergeSortRtl.MergeSeqPermutation | day_5/rtl/merge_sort.py:267-375 | the elements a block merge writes are exactly those of its two halves (multiset) |
| MergeSortRtl.MergePassPermutation | day_5/rtl/merge_sort.py:155-385 | a pass writes a permutation of its source bank prefix, including the copied trailing block |
| MergeSortRtl.PassesFromPermutation | day_5/rtl/merge_sort.py:386-398 | the whole pass sequence writes a permutation of the loaded input |
| MergeSortRtl.MergeSeqSorted | day_5/rtl/merge_sort.py:267-323 | taking the left head iff `(left_start, left_end) <= (right_start, right_end)` merges two sorted runs into a sorted run |
| MergeSortRtl.RunsSortedSingletons | day_5/rtl/merge_sort.py:142-154 | with the initial width 1, every run is trivially sorted |
| MergeSortRtl.MergePassDoublesRuns | day_5/rtl/merge_sort.py:376-397 | a pass over sorted runs of width `w` leaves sorted runs of width `2w` |
| MergeSortRtl.PassesFromSorts | day_5/rtl/merge_sort.py:386-398 | once `2w >= n` ends the passes, the written bank prefix is sorted |
| MergeSortRtl.PassesFromOneIsSort | day_5/amaranth_benchs/rtl_merge_sort_tests.py:130-143 | the passes from width 1 compute exactly `sorted(input)` |
| MergeSortRtl.MergeRange | day_5/rtl/merge_sort.py:183-375 | the merge from index pair `(l, r)` has exactly as many elements as remain in both halves |
| MergeSortRtl.MergeRangeIsMergeSeq | day_5/rtl/merge_sort.py:183-375 | the index-driven merge over the source bank is the merge of the two slices `[l, ll)` and `[r, rl)` |
| MergeSortRtl.MergeRangeHead | day_5/rtl/merge_sort.py:267-323 | the next element written is the left head when the left is chosen, otherwise the right head |
| MergeSortRtl.MergeAdvance | day_5/rtl/merge_sort.py:276-374 | after a step, the emitted prefix plus the remaining merge is still the whole block merge |
| MergeSortRtl.MergeRangeCopiesLeft | day_5/rtl/merge_sort.py:202-214 | a trailing block with an empty right half is copied element by element |
| MergeSortRtl.MergeStep | day_5/rtl/merge_sort.py:267-375 | one merge step writes one element at `out_idx` in the destination bank; the element is the left head iff the left is non-empty and (the right is exhausted or left <= right); exactly one of `left_idx`/`right_idx` advances |
| MergeSortRtl.BlockMerge | day_5/rtl/merge_sort.py:157-172 | the block at `bs` produces `min(bs + 2w, n) - bs` elements |
| MergeSortRtl.BlockMergeIsMergeSeq | day_5/rtl/merge_sort.py:157-172 | the block's left half is `[bs, min(bs+w, n))`, and its right half is `[min(bs+w, n), min(bs+2w, n))` |
| MergeSortRtl.MergeBlock | day_5/rtl/merge_sort.py:155-375 | BLOCK_SETUP to the end of the merge writes the block's merge at `bs` in the destination bank and nothing else |
| MergeSortRtl.MergePassFront | day_5/rtl/merge_sort.py:376-385 | a pass is its first block merge followed by the pass over what remains |
| MergeSortRtl.ShortPassFront | day_5/rtl/merge_sort.py:174-181 | a final block of at most `w` elements is merged with an empty right half |
| MergeSortRtl.LastPairFront | day_5/rtl/merge_sort.py:157-172 | a final block of between `w` and `2w` elements merges `[0, w)` with `[w, len)` |
| MergeSortRtl.PassAdvances | day_5/rtl/merge_sort.py:376-385 | BLOCK_NEXT moves `bs` by `2w`, and the pass from `bs` is that block's merge plus the pass from the next block |
| MergeSortRtl.PassStep | day_5/rtl/merge_sort.py:376-385 | the blocks written so far plus the pass over the rest is the whole pass |
| MergeSortRtl.PassBlock | day_5/rtl/merge_sort.py:155-385 | one block of a pass extends the written prefix of the destination bank by that block's merge |
| MergeSortRtl.PassComplete | day_5/rtl/merge_sort.py:376-385 | when the written prefix reaches `n`, the destination holds the whole pass |
| MergeSortRtl.MergePassBanks | day_5/rtl/merge_sort.py:151-385 | a pass writes `MergePass(source[..n], w)` into the destination bank's prefix and leaves the rest of it unchanged |
| MergeSortRtl.MergeSortBram.constructor | day_5/rtl/merge_sort.py:43-71 | two fresh banks of `max_ranges` entries; idle, with the load index at 0 |
| MergeSortRtl.MergeSortBram.IdleCycle | day_5/rtl/merge_sort.py:120-150 | `valid_in` writes bank A through its write port at the load index, which then increments with wrap-around; a cycle without `valid_in` resets the index to 0; `start` latches `count_in` as its register holds it and sets width 1 with bank A as source; nothing is refused when the index passes `max_ranges` |
| MergeSortRtl.MergeSortBram.Pass | day_5/rtl/merge_sort.py:151-385 | a pass writes `MergePass` of the source prefix into the destination bank and leaves the tail unchanged |
| MergeSortRtl.MergeSortBram.RunPasses | day_5/rtl/merge_sort.py:386-398 | PASS_END doubles `w` and flips the source until `2w >= n`; the bank last written holds `PassesFrom(input, 1)`, and the bank tails are unchanged |
| MergeSortRtl.MergeSortBram.Stream | day_5/rtl/merge_sort.py:399-452 | the output phase emits the first `n` entries of the bank opposite the last source, in index order, then sets `done` |
| MergeSortRtl.MergeSortBram.SortAndStream | day_5/rtl/merge_sort.py:151-452 | the emitted stream is `sorted(loaded input)`, a sorted permutation of the `count_in` loaded ranges |
| RangeMergerRtl.AddCoverage | day_5/rtl/range_merger.py:138-141 | an emitted range adds its `range_size` to the coverage register, modulo 2^128 |
| RangeMergerRtl.CoverageAppend | day_5/rtl/range_merger.py:138-141 | the coverage register always holds the summed `range_size` of the ranges emitted so far, modulo 2^128 |
| RangeMergerRtl.RangeSize | day_5/rtl/range_merger.py:140 | `range_size` lies in `[1, 2^(width+1)]`; it is `end - start + 1` for a non-empty range the registers hold, and `end - start + 1 + 2^(width+1)` for an inverted one |
| RangeMergerRtl.SizeSumIsCoverage | day_5/rtl/range_merger.py:138-141 | on non-empty ranges within `width` bits, the summed `range_size` is the reference total coverage |
| RangeMergerRtl.CoalesceInRegisters | day_5/rtl/range_merger.py:109-148 | coalescing keeps every bound within the `width`-bit registers |
| RangeMergerRtl.InvertedRangeSize | day_5/rtl/range_merger.py:140 | an inverted range `(5, 3)` adds `2^(width+1) - 1` to the coverage, not `-1` |
| RangeMergerRtl.HeldFacts | day_5/formal/range_merger.py:122-129 | the accumulator starts strictly after the last emitted range ends, and it is well formed when the inputs are |
| RangeMergerRtl.ExtendHeld | day_5/rtl/range_merger.py:119-126 | an input with `start_in <= accum_end` widens the accumulator to `max(accum_end, end_in)`, which matches the reference merge of the inputs so far |
| RangeMergerRtl.PushOutHeld | day_5/rtl/range_merger.py:127-147 | an input with `start_in > accum_end` emits the accumulator and replaces it with the input, which matches the reference merge |
| RangeMergerRtl.RangeMerger.constructor | day_5/rtl/range_merger.py:38-66 | idle, in a consistent state, with the `compute_coverage` choice latched |
| RangeMergerRtl.RangeMerger.Cycle | day_5/rtl/range_merger.py:89-171 | an input is accepted only when ready; an output appears iff the FSM is in OUTPUT_LAST, or an accepted input starts after `accum_end`; `last_out` is set only from OUTPUT_LAST; there is no output before the first input; each output starts after the previous one ends, and is well formed when the inputs are; OUTPUT_LAST and DONE lead to DONE |
| RangeMergerRtl.RangeMerger.Absorb | day_5/rtl/range_merger.py:109-148 | a PROCESS input is appended to the accepted stream; it emits the previous accumulator iff `start_in > accum_end`, with `last_out = 0`; `last_in` moves to OUTPUT_LAST |
| RangeMergerRtl.RangeMerger.Flush | day_5/rtl/range_merger.py:149-165 | OUTPUT_LAST emits the accumulator with `last_out = 1` after the previous output, then enters DONE |
| RangeMergerRtl.MergeStream | day_5/rtl/range_merger.py:89-171 | streaming a non-empty input emits exactly the reference coalescing of that order; only the final beat carries `last_out`; the coverage register holds the summed `range_size` of the output modulo 2^128, which is its total coverage when the inputs are non-empty and fit the registers, or 0 when coverage is off |
| RangeMergerRtl.SortedStreamIsMerged | day_5/rtl/range_merger.py:109-148 | on a sorted stream the merger's output is `merge_all_ranges(stream)`, and for well-formed inputs its coverage is the number of distinct covered integers |
| RangeMergerRtl.MergerExamples | day_5/amaranth_benchs/rtl_range_merger_tests.py:172-190 | `(1,5),(5,10)` gives `(1,10)`; `(1,5),(10,15),(20,25)` passes through unchanged |
| IntervalCoverageRtl.IntervalCoverage.constructor | day_5/rtl/interval_coverage.py:53-76 | a fresh sorter and merger, idle, with the coverage option latched |
| IntervalCoverageRtl.IntervalCoverage.IdleCycle | day_5/rtl/interval_coverage.py:115-123 | inputs go through the sorter's write port into bank A at the wrapping load index; `start` latches `count_in` as its register holds it and enters SORTING with a cleared merger and sorted count |
| IntervalCoverageRtl.IntervalCoverage.FeedMerger | day_5/rtl/interval_coverage.py:124-145 | sorter outputs feed the merger, with `last_in` on the element at index `count_in - 1`; a non-empty stream ends in DONE with the coalesced stream as output; an empty one never completes |
| IntervalCoverageRtl.IntervalCoverage.Run | day_5/rtl/interval_coverage.py:115-145 | with `count_in >= 1` the module ends DONE, its outputs are `merge_all_ranges(input)` and its coverage is their summed `range_size` modulo 2^128, which is the number of distinct covered integers when the inputs are non-empty and fit the registers; with `count_in = 0` it stays in MERGING |
| IntervalCoverageRtl.CoverageCountsCovered | day_5/rtl/interval_coverage.py:124-145 | on non-empty inputs within the registers, the coverage register's sum over the merged ranges is the number of distinct covered integers |
| IntervalCoverageRtl.SortedExampleCoalesces | day_5/amaranth_benchs/rtl_interval_coverage_tests.py:152-156 | `(1,5),(3,10),(15,20),(18,25)` gives `(1,10),(15,25)` |
| IntervalCoverageRtl.ExamplePermutation | day_5/amaranth_benchs/rtl_interval_coverage_tests.py:157-161 | the sorted bench input is a sorted permutation of the unsorted one |
| IntervalCoverageRtl.CoverageExample | day_5/amaranth_benchs/rtl_interval_coverage_tests.py:157-161 | unsorted `(15,20),(1,5),(3,10),(18,25)` merges to `(1,10),(15,25)` |
| RangeCheckerRtl.RangeChecker.constructor | day_5/rtl/range_checker.py:51-77 | a fresh table, idle, with the range index at 0 |
| RangeCheckerRtl.RangeChecker.IdleCycle | day_5/rtl/range_checker.py:121-153 | `range_valid_in` writes the table through its write port at the range index, which increments with wrap-around; `start` latches `range_count_in` as its register holds it and `num_checks`, and enters LOAD_CHECK; nothing is refused when the index passes `max_ranges` |
| RangeCheckerRtl.RangeChecker.LoadRange | day_5/rtl/range_checker.py:130-140 | `range_valid_in` in IDLE writes the range through the write port at `range_idx`, which increments with wrap-around |
| RangeCheckerRtl.RangeChecker.Start | day_5/rtl/range_checker.py:142-153 | `start` latches `range_count_in` as its register holds it and `check_count_in`, clears the processed list and enters LOAD_CHECK |
| RangeCheckerRtl.RangeChecker.Search | day_5/rtl/range_checker.py:172-233 | the binary search from `left = 0, right = n - 1`, with `mid = (left + right) >> 1`, reports found only for a covered id; on a table sorted by start whose ranges end before the next starts, it reports found iff the id is covered; `n = 0` gives not found |
| RangeCheckerRtl.RangeChecker.CheckId | day_5/rtl/range_checker.py:164-233 | an accepted id is searched and appended to the processed list; on a sorted table of disjoint ranges `valid_count` stays the number of covered ids in the list, modulo its register width |
| RangeCheckerRtl.RangeChecker.CheckCycle | day_5/rtl/range_checker.py:154-171 | an accepted id is searched and added to the processed list; when `check_idx >= num_checks`, `valid_count` is published with `done` |
| RangeCheckerSystemRtl.RangeCheckerSystem.constructor | day_5/rtl/range_checker.py:249-276 | a fresh coverage unit and checker, both idle |
| RangeCheckerSystemRtl.RangeCheckerSystem.IdleCycle | day_5/rtl/range_checker.py:339-348 | ranges go through the sorter's write port at the wrapping load index; `start` starts the coverage unit with `count_in` as its register holds it and enters COVERAGE |
| RangeCheckerSystemRtl.RangeCheckerSystem.LoadRanges | day_5/rtl/range_checker.py:339-348 | loading `ranges` and starting leaves them in the sorter's bank A, with `count_in = len(ranges)` |
| RangeCheckerSystemRtl.RangeCheckerSystem.RunCoverage | day_5/rtl/range_checker.py:349-362 | after `coverage.done`, the checker table holds `merge_all_ranges(ranges)`, and the checker is started with `num_checks` |
| RangeCheckerSystemRtl.RangeCheckerSystem.LoadMerged | day_5/rtl/range_checker.py:320-352 | coverage outputs are written to the checker table in order and counted in `merged_count` |
| RangeCheckerSystemRtl.RangeCheckerSystem.RunChecks | day_5/rtl/range_checker.py:363-374 | after `checker.done`, the system is DONE, every check id has been searched, and, when the checker table is sorted by start and each range ends before the next starts, the count is the number of check ids it covers modulo 2^32 |
| RangeCheckerSystemRtl.RunSystem | day_5/rtl/range_checker.py:339-374 | for a non-empty range list, the system's count equals `count_valid_ids(ranges, checks)` modulo 2^32 |
| RectGeometry.Candidate | day_9/software_reference/max_rectangle_finder.py:64-74 | the candidate is the min/max bounding box of the pair: both points lie on its sides, with width and height >= 0 |
| RectGeometry.CandidateSymmetric | day_9/rtl/max_rectangle_finder.py:288-308 | the bounding box does not depend on the order of the pair |
| RectGeometry.AreaPositive | day_9/software_reference/max_rectangle_finder.py:76-80 | a non-degenerate candidate has area `(w+4)(h+4) >= 25` |
| RectGeometry.AreaOfScaled | day_9/software_reference/max_rectangle_finder.py:80-97 | on coordinates scaled by 4, `(w+4)(h+4)` is 16 times the lattice-point count, so `>> 4` recovers that count |
| RectGeometry.OnEdgeIsOnSegment | day_9/software_reference/max_rectangle_finder.py:206-230 | for an axis-parallel edge, the boundary test holds iff the point lies on the segment, endpoints included |
| RectGeometry.OnEdgeSymmetric | day_9/rtl/checks.py:192-209 | the boundary test does not depend on the edge's direction |
| RectGeometry.PointEdge | day_9/rtl/checks.py:182-209 | a zero-length edge is never crossed, and a point is on it iff it is that point |
| RectGeometry.NextIndex | day_9/rtl/validate_rectangle.py:239 | the next vertex is `cur + 1` when that is `< n`, else 0 |
| RectGeometry.CrossingsUpTo | day_9/software_reference/max_rectangle_finder.py:232-261 | the crossing count over the first `k` edges is at most `k` |
| RectGeometry.CrossingsUpToCounts | day_9/software_reference/max_rectangle_finder.py:232-261 | the crossing count is the number of edges that are non-horizontal, start at or left of the point, and have `ymin <= py < ymax` |
| RectGeometry.OnBoundaryUpTo | day_9/software_reference/max_rectangle_finder.py:206-230 | the boundary scan is true iff some edge has the point on it |
| RectReference.Scale | day_9/software_reference/max_rectangle_finder.py:28-41 | `add_vertex` stores both coordinates multiplied by 4 |
| RectReference.EdgeIntersectsRect | day_9/software_reference/max_rectangle_finder.py:171-204 | only a vertical or horizontal edge can intersect |
| RectReference.EdgeIntersectsRectSymmetric | day_9/software_reference/max_rectangle_finder.py:180-184 | the test normalises the endpoint order, so it is symmetric in the endpoints |
| RectReference.EdgeIntersectsRectMeaning | day_9/software_reference/max_rectangle_finder.py:171-204 | for an axis-parallel edge and a shrunk box wider than one unit, the test holds iff some point of the edge lies strictly inside the shrunk box |
| RectReference.Corners | day_9/software_reference/max_rectangle_finder.py:150-169 | there are four corners |
| RectReference.CornersAre | day_9/software_reference/max_rectangle_finder.py:150-169 | the corners are exactly the points with `x` in `{x, x2}` and `y` in `{y, y2}` |
| RectReference.ValidIn | day_9/software_reference/max_rectangle_finder.py:99-169 | the validity function the search receives is the four-check validation |
| RectReference.ReferenceValidMeaning | day_9/software_reference/max_rectangle_finder.py:99-169 | on a rectilinear polygon and a rectangle wider and taller than 9: valid iff no vertex is strictly inside, no edge meets the rectangle shrunk by 4, and every corner is on the boundary or has an odd crossing count |
| RectReference.ScaledCandidateArea | day_9/software_reference/max_rectangle_finder.py:37-97 | for scaled vertices, `area >> 4` is `(dx + 1)(dy + 1)` in the unscaled coordinates |
| RectReference.UnboundedNoOverflow | day_9/software_reference/max_rectangle_finder.py:80-91 | Python integers never truncate an area |
| RectReference.MaxRectangleFinder.constructor | day_9/software_reference/max_rectangle_finder.py:30-35 | no vertices, with the maximum and all counters at 0 |
| RectReference.MaxRectangleFinder.AddVertex | day_9/software_reference/max_rectangle_finder.py:37-41 | appends the scaled vertex and changes no statistic |
| RectReference.MaxRectangleFinder.RayCastCrossings | day_9/software_reference/max_rectangle_finder.py:232-261 | the loop returns the crossing count, which lies in `[0, #vertices]` |
| RectReference.MaxRectangleFinder.ValidateRectangle | day_9/software_reference/max_rectangle_finder.py:99-169 | the validation loop returns the four-check predicate: vertex, shrunk edge, then corner parity and boundary |
| RectReference.MaxRectangleFinder.VisitPair | day_9/software_reference/max_rectangle_finder.py:64-94 | one inner iteration skips, prunes or validates the pair's candidate, as `Visit` specifies |
| RectReference.MaxRectangleFinder.FindMaxRectangle | day_9/software_reference/max_rectangle_finder.py:43-97 | fewer than 3 vertices return 0; otherwise the statistics are the pair search, `max_area` is the largest valid candidate area (0 if none), and the result is `max_area >> 4` |
| PairSearch.Stored | day_9/rtl/max_rectangle_finder.py:78 | a software area is stored as is; a hardware area is reduced modulo `2^(2 coord_width)`, and an area that fits is unchanged |
| PairSearch.Visit | day_9/software_reference/max_rectangle_finder.py:74-94 | the maximum never decreases; each non-degenerate candidate is counted once, as pruned or validated; the valid count grows iff the candidate beats the maximum and is valid |
| PairSearch.SearchFrom | day_9/software_reference/max_rectangle_finder.py:61-94 | running the remaining pairs never lowers the maximum or the valid count |
| PairSearch.VisitSummary | day_9/software_reference/max_rectangle_finder.py:74-94 | one visit extends "the maximum is the largest good area so far, and valid-found iff some pair is good" from the pairs before `(i, j)` to those before `(i, j+1)` |
| PairSearch.VisitBounded | day_9/software_reference/max_rectangle_finder.py:80-91 | after a visit, the maximum still bounds every good candidate, pruned ones included |
| PairSearch.VisitAttained | day_9/software_reference/max_rectangle_finder.py:88-91 | after a visit, the maximum is still 0 or the area of a good pair |
| PairSearch.VisitReported | day_9/software_reference/max_rectangle_finder.py:88-91 | after a visit, the valid count is positive iff some pair so far is good |
| PairSearch.SearchFromKeeps | day_9/software_reference/max_rectangle_finder.py:61-94 | an invariant kept by each pair visit and by each row change holds when the nested loop ends |
| PairSearch.SummaryWiden | day_9/software_reference/max_rectangle_finder.py:61-62 | moving to the next row, or past the last one, adds no pair, so the summary still holds |
| PairSearch.SearchIsMaximum | day_9/software_reference/max_rectangle_finder.py:43-97 | when no area overflows its register, the search ends with the largest good area (0 if none), and valid-found iff some pair is good |
| RectChecksRtl.VertexInRectangle | day_9/rtl/checks.py:39-59 | the violation holds iff `rect_x < x < rect_x2` and `rect_y < y < rect_y2` |
| RectChecksRtl.EdgeIntersection | day_9/rtl/checks.py:90-125 | a violation is exactly a vertical edge that strictly spans `shrunk_y1` at an `x` strictly inside `(shrunk_x1, shrunk_x2)`, or the horizontal counterpart; never a zero-length edge |
| RectChecksRtl.EdgeIntersectionSymmetric | day_9/rtl/checks.py:101-121 | swapping the endpoints does not change the verdict |
| RectChecksRtl.EdgeIntersectionPoint | day_9/rtl/checks.py:101-121 | a zero-length edge never violates |
| RectChecksRtl.CornerValidation | day_9/rtl/checks.py:165-211 | once `on_boundary` is set, neither output fires; otherwise `crossing_inc` is the ray-cast hit (non-horizontal edge, `p1_x <= corner_x`, `ymin <= corner_y < ymax`), and `boundary_set` is the on-edge test |
| RectChecksRtl.CheckExamples | day_9/rtl/checks.py:39-125 | a vertex on the rectangle's corner is not inside but an interior one is; a vertical edge through the shrunk box violates, and one that ends at `shrunk_y1` does not |
| ValidateRectangleRtl.CheckParameters | day_9/rtl/validate_rectangle.py:55-59 | accepted iff `16 <= coord_width <= 32` and `3 <= max_vertices <= 8192` |
| ValidateRectangleRtl.Derive | day_9/rtl/validate_rectangle.py:306-327 | `x2 = x + w`, `y2 = y + h`, and the shrunk box is `[x+1, x+w-1] x [y+1, y+h-1]` (when no register wraps) |
| ValidateRectangleRtl.StepEdge | day_9/rtl/validate_rectangle.py:239 | step `s` of a walk from `start_vertex` visits edge `(sv + s) mod n` |
| ValidateRectangleRtl.FirstFail | day_9/rtl/validate_rectangle.py:338-353 | no failure iff no walked edge violates CHECK1/CHECK2; otherwise the index of the first violating step, with no violation before it |
| ValidateRectangleRtl.CornerAfter | day_9/rtl/validate_rectangle.py:354-362 | a corner's crossing register stays below 2^16 |
| ValidateRectangleRtl.UpdateCorner | day_9/rtl/validate_rectangle.py:354-362 | `on_boundary` is sticky and set by an on-edge corner; crossings increment modulo 2^16 on a hit only while the corner is not on the boundary |
| ValidateRectangleRtl.Verdict | day_9/rtl/validate_rectangle.py:383-408 | valid excludes every failure flag; a CHECK1/CHECK2 failure excludes CHECK3 and names an edge `< n`; at least one of valid or a failure flag is reported |
| ValidateRectangleRtl.HitsAlong | day_9/rtl/validate_rectangle.py:354-362 | after `k` steps a corner has at most `k` hits |
| ValidateRectangleRtl.OnAlong | day_9/rtl/validate_rectangle.py:354-362 | the sticky flag after `k` steps is true iff some walked edge has the corner on it |
| ValidateRectangleRtl.CornerAfterMeaning | day_9/rtl/validate_rectangle.py:354-362 | after `k` steps, `on_boundary` is the on-edge test over the walked edges, and the crossings register holds the walked hit count modulo 2^16 while the corner is off the boundary |
| ValidateRectangleRtl.CornerOkMeaning | day_9/rtl/validate_rectangle.py:221-229 | a corner passes iff it is on a walked edge or its walked hit count is odd (the counter's LSB survives the 16-bit wrap) |
| ValidateRectangleRtl.HitsAlongSplit | day_9/rtl/validate_rectangle.py:332-381 | hits along a walk from `sv` equal the crossing count of edges `[sv, sv+k)`, wrapping past the last edge |
| ValidateRectangleRtl.StepEdgeOnto | day_9/rtl/validate_rectangle.py:239 | every edge is reached by some step of an `n`-step walk |
| ValidateRectangleRtl.FullWalk | day_9/rtl/validate_rectangle.py:332-381 | an `n`-step walk from any start counts every edge once: its hits and boundary flag equal the whole-polygon ones |
| ValidateRectangleRtl.FullWalkFails | day_9/rtl/validate_rectangle.py:338-353 | an `n`-step walk from any start finds no failure iff no edge violates |
| ValidateRectangleRtl.SinglePassVerdict | day_9/rtl/validate_rectangle.py:221-229 | with `n` steps: valid iff no vertex or edge violates and every corner is on the boundary or has an odd crossing count; CHECK3 iff no violation but some corner fails |
| ValidateRectangleRtl.AsWrittenCountsStartEdgeTwice | day_9/rtl/validate_rectangle.py:362-365 | with `n + 1` steps, a corner's hit count is the polygon's crossing count plus one more if the start edge is a hit |
| ValidateRectangleRtl.SquareExampleInside | day_9/rtl/validate_rectangle.py:221-229 | in the square `(0,0),(0,10),(10,10),(10,0)`, the rectangle `(2,2,2,2)` is inside, its corners cross once each, and the start edge is a hit |
| ValidateRectangleRtl.AsWrittenRejectsInsideRectangle | day_9/rtl/validate_rectangle.py:362-365 | that rectangle is valid with `n` steps; with `n + 1` steps from vertex 0 it fails CHECK3, and from vertex 1 it passes |
| ValidateRectangleRtl.AsWrittenFacts | day_9/rtl/validate_rectangle.py:362-365 | the extra step revisits the start edge: it finds no new violation and does not change any boundary flag |
| ValidateRectangleRtl.FailVertex | day_9/rtl/validate_rectangle.py:342-347 | `(current_vertex - 2) mod n` is the index two steps behind the fetch pointer |
| ValidateRectangleRtl.FailVertexInverts | day_9/rtl/validate_rectangle.py:342-347 | the reported fail edge is the start of the edge being checked |
| ValidateRectangleRtl.StepEdgeNext | day_9/rtl/validate_rectangle.py:239 | consecutive walk steps follow `next_vertex` |
| ValidateRectangleRtl.FirstFailAt | day_9/rtl/validate_rectangle.py:338-353 | a first violation at step `k` is the walk's first failure, however long the walk |
| ValidateRectangleRtl.FirstFailExtend | day_9/rtl/validate_rectangle.py:354-365 | a clean step extends a clean prefix |
| ValidateRectangleRtl.UpdatedCorners | day_9/rtl/validate_rectangle.py:354-360 | all four corner registers update in the same cycle, each by its own corner |
| ValidateRectangleRtl.FinalizeReadsVerdict | day_9/rtl/validate_rectangle.py:383-408 | FINALIZE's outputs are the verdict of the walked steps: a recorded CHECK1/CHECK2 failure with its edge, or the corner result with `check3 = not valid` |
| ValidateRectangleRtl.WalkFails | day_9/rtl/validate_rectangle.py:338-353 | a violation at step `k` ends the walk with its flags and fail edge |
| ValidateRectangleRtl.WalkCompletes | day_9/rtl/validate_rectangle.py:363-365 | a clean last step updates the corners and ends the walk |
| ValidateRectangleRtl.WalkAdvances | day_9/rtl/validate_rectangle.py:366-381 | a clean intermediate step updates the corners and slides the edge window by one vertex |
| ValidateRectangleRtl.ValidateRectangle.constructor | day_9/rtl/validate_rectangle.py:55-95 | parameters in range; idle, with zeroed memory and cleared outputs |
| ValidateRectangleRtl.ValidateRectangle.IdleCycle | day_9/rtl/validate_rectangle.py:114-282 | memory is written only when `load_wr` and `load_mode` are both set, through the write port: `load_addr` is truncated to the port width and a write past the depth is dropped; `start` is ignored during `load_mode` and otherwise latches the rectangle, `n` and `start_vertex` |
| ValidateRectangleRtl.ValidateRectangle.LoadVertexCycle | day_9/rtl/validate_rectangle.py:117-122 | an IDLE cycle with `load_wr` and `load_mode` high: the memory becomes the port write of the vertex at `load_addr`, truncated to the port width and dropped past the depth; the FSM stays in IDLE with the rectangle kept and the outputs cleared |
| ValidateRectangleRtl.ValidateRectangle.StartRunCycle | day_9/rtl/validate_rectangle.py:246-282 | an IDLE cycle with `start` high and `load_mode` low: every register is cleared, the rectangle, `n` and `start_vertex` are latched and the FSM enters INIT_FETCH_V1 at `start_vertex` |
| ValidateRectangleRtl.ValidateRectangle.InitFetch | day_9/rtl/validate_rectangle.py:284-330 | INIT_FETCH loads the first edge from `start_vertex`, derives the rectangle values and clears the walk |
| ValidateRectangleRtl.ValidateRectangle.Process | day_9/rtl/validate_rectangle.py:332-381 | PROCESS_PIPELINE walks until a violation or its last step, and the walk registers then describe those steps |
| ValidateRectangleRtl.ValidateRectangle.ProcessStep | day_9/rtl/validate_rectangle.py:332-381 | one pipeline cycle either stops at FINALIZE or advances the edge counter by exactly one |
| ValidateRectangleRtl.ValidateRectangle.StopOnViolation | day_9/rtl/validate_rectangle.py:338-353 | a CHECK1/CHECK2 violation goes to FINALIZE with the failure recorded |
| ValidateRectangleRtl.ValidateRectangle.FinishWalk | day_9/rtl/validate_rectangle.py:354-365 | a clean step with `edge_counter` at its limit updates the corners and goes to FINALIZE |
| ValidateRectangleRtl.ValidateRectangle.SlideWindow | day_9/rtl/validate_rectangle.py:354-381 | a clean step below the limit updates the corners, slides the window and increments `edge_counter` |
| ValidateRectangleRtl.ValidateRectangle.FinalizeCycle | day_9/rtl/validate_rectangle.py:383-408 | FINALIZE publishes the walk's verdict, sets `done` and returns to IDLE |
| ValidateRectangleRtl.ValidateRectangle.Walk | day_9/rtl/validate_rectangle.py:284-381 | the fetch and pipeline states together walk `lastStep + 1` edges from `start_vertex` |
| ValidateRectangleRtl.ValidateRectangle.RunAsWritten | day_9/rtl/validate_rectangle.py:246-408 | as written, the outputs are the verdict of an `n + 1`-step walk |
| ValidateRectangleRtl.ValidateRectangle.Run | day_9/rtl/validate_rectangle.py:246-408 | with the loop bound corrected, the outputs are the `n`-step verdict, and `is_valid` holds iff the rectangle passes every check |
| MaxRectangleFinderRtl.AreaRegisterOverflow | day_9/rtl/max_rectangle_finder.py:124 | the square of side `2^cw - 4` has area `2^(2cw)`, which the `2cw`-bit area register stores as 0 |
| MaxRectangleFinderRtl.NextStart | day_9/rtl/max_rectangle_finder.py:385-399 | after a verdict `start_vertex_reg` is either vertex 0 or the failing edge's start vertex |
| MaxRectangleFinderRtl.FinderVisit | day_9/rtl/max_rectangle_finder.py:322-399 | a skipped or pruned candidate leaves `start_vertex_reg` unchanged; a validated one moves it to the restart vertex of the verdict taken from the current start vertex |
| MaxRectangleFinderRtl.FinderSearchFromStartVertex | day_9/rtl/max_rectangle_finder.py:269-453 | with the validator's verdicts, as written or single-pass, the walk over the remaining pairs keeps `start_vertex_reg` a vertex of the polygon |
| MaxRectangleFinderRtl.FinderVisitSinglePass | day_9/rtl/max_rectangle_finder.py:379-399 | with the single-pass walk a candidate's step is the shared pair step with the polygon test, whatever the start vertex |
| MaxRectangleFinderRtl.FinderSearchFromSinglePass | day_9/rtl/max_rectangle_finder.py:269-453 | with the single-pass walk the finder's walk from any pair and start vertex is the pair search |
| MaxRectangleFinderRtl.FinderSearchSinglePass | day_9/rtl/max_rectangle_finder.py:269-453 | with the single-pass walk the whole finder walk is the pair search with the polygon test |
| MaxRectangleFinderRtl.MaxRectangleFinder.constructor | day_9/rtl/max_rectangle_finder.py:55-88 | parameters in range; idle, with a vertex memory of zeros and a fresh validator; the validator walk, as written or single-pass, is fixed |
| MaxRectangleFinderRtl.MaxRectangleFinder.IdleCycle | day_9/rtl/max_rectangle_finder.py:189-208 | the first vertex is stored at address 0 and nothing else changes in the memory; the FSM enters LOAD_VERTICES with one vertex |
| MaxRectangleFinderRtl.MaxRectangleFinder.LoadCycle | day_9/rtl/max_rectangle_finder.py:210-226 | as written: a vertex sets the count to `write_addr + 1` and advances the wrapping `write_addr`; it is written through the port unless `vertex_last` is set, so the last vertex is counted but not stored and the polygon ends with the RAM's old entry |
| MaxRectangleFinderRtl.MaxRectangleFinder.LoadCycleIntended | day_9/rtl/max_rectangle_finder.py:210-226 | corrected: every vertex, the last included, is written and appended to the polygon |
| MaxRectangleFinderRtl.MaxRectangleFinder.LoadPolygon | day_9/rtl/max_rectangle_finder.py:189-226 | as written, streaming `vs` with `vertex_last` on the final beat loads `vs` with its last vertex replaced by the RAM's old entry at that address |
| MaxRectangleFinderRtl.MaxRectangleFinder.LoadPolygonIntended | day_9/rtl/max_rectangle_finder.py:189-226 | corrected, streaming `vs` loads exactly `vs` |
| MaxRectangleFinderRtl.SquareLoadedAsWritten | day_9/rtl/max_rectangle_finder.py:210-226 | the square `(0,0),(40,0),(40,40),(0,40)` streamed after reset loads as `(0,0),(40,0),(40,40),(0,0)` |
| MaxRectangleFinderRtl.SquareLoadedIntended | day_9/rtl/max_rectangle_finder.py:210-226 | with the corrected load the same stream loads the square |
| MaxRectangleFinderRtl.MaxRectangleFinder.WaitStartCycle | day_9/rtl/max_rectangle_finder.py:228-245 | `start_search` clears the statistics and sets `(i, j) = (0, 1)` and `start_vertex = 0`; without it every register keeps its value |
| MaxRectangleFinderRtl.MaxRectangleFinder.LoadPoly | day_9/rtl/max_rectangle_finder.py:248-266 | the polygon is copied once into the validator's memory |
| MaxRectangleFinderRtl.MaxRectangleFinder.LoadPolyCycle | day_9/rtl/max_rectangle_finder.py:248-266 | one copy cycle extends the copied prefix by one vertex, and the last one moves to INIT_SEARCH |
| MaxRectangleFinderRtl.MaxRectangleFinder.Validate | day_9/rtl/max_rectangle_finder.py:335-378 | starting the validator and waiting for `done` yields its verdict on the candidate from `start_vertex_reg`, an `n + 1`-step walk as written; with the single-pass walk `is_valid` is the polygon test |
| MaxRectangleFinderRtl.MaxRectangleFinder.ValidateCandidate | day_9/rtl/max_rectangle_finder.py:335-399 | a candidate that is neither skipped nor pruned takes the finder's step with the validator's verdict and the truncated `cand_area` |
| MaxRectangleFinderRtl.MaxRectangleFinder.CandidateCycles | day_9/rtl/max_rectangle_finder.py:288-399 | REGISTER_PAIR to VALIDATE_WAIT updates the statistics and `start_vertex_reg` exactly as the finder's step, which with the single-pass walk is the shared pair step with the polygon test and a `2cw`-bit area register |
| MaxRectangleFinderRtl.MaxRectangleFinder.RecordVerdict | day_9/rtl/max_rectangle_finder.py:379-399 | `rect_count` increments; a valid candidate raises the maximum if larger and counts as valid; `start_vertex_reg` becomes the failing vertex after CHECK 1 or 2 and 0 otherwise |
| MaxRectangleFinderRtl.MaxRectangleFinder.SearchPairs | day_9/rtl/max_rectangle_finder.py:269-453 | the pair loop from `(0, 1)` leaves the registers equal to the finder's walk over the polygon, and with the single-pass walk the statistics equal the pair search |
| MaxRectangleFinderRtl.MaxRectangleFinder.PairStep | day_9/rtl/max_rectangle_finder.py:278-453 | one pair advances `(i, j)` lexicographically, or completes with the walk's result |
| MaxRectangleFinderRtl.MaxRectangleFinder.VisitPair | day_9/rtl/max_rectangle_finder.py:278-399 | FETCH_J and the candidate's cycles take the walk's step for the pair `(i, j)`, so the rest of the walk continues from `(i, j + 1)` with the same result |
| MaxRectangleFinderRtl.MaxRectangleFinder.NextPair | day_9/rtl/max_rectangle_finder.py:403-444 | NEXT_RECT advances `j`, or moves to the next row, or completes when `i + 1 >= n - 1` |
| MaxRectangleFinderRtl.MaxRectangleFinder.NextColumn | day_9/rtl/max_rectangle_finder.py:431-444 | within a row NEXT_RECT advances `j` and the walk's result is unchanged |
| MaxRectangleFinderRtl.MaxRectangleFinder.FinishWalk | day_9/rtl/max_rectangle_finder.py:407-414 | after the last pair NEXT_RECT goes to COMPLETE with the registers equal to the walk's result |
| MaxRectangleFinderRtl.MaxRectangleFinder.NextRow | day_9/rtl/max_rectangle_finder.py:403-453 | when `j + 1` reaches the count, the walk continues at `(i + 1, i + 2)` with `v_{i+1}` fetched and the same result |
| MaxRectangleFinderRtl.MaxRectangleFinder.FetchRow | day_9/rtl/max_rectangle_finder.py:415-453 | the new row's indices are `(i + 1, i + 2)` and FETCH_I reads vertex `i + 1`, keeping the statistics and `start_vertex_reg` |
| MaxRectangleFinderRtl.MaxRectangleFinder.CompleteCycle | day_9/rtl/max_rectangle_finder.py:455-466 | COMPLETE publishes `done`, `valid`, `max_area` and the counters, then returns to IDLE |
| MaxRectangleFinderRtl.MaxRectangleFinder.RunSearch | day_9/rtl/max_rectangle_finder.py:228-466 | the outputs are the finder's walk over the loaded polygon with the validator as written; with the single-pass walk they are the pair search's, and without area overflow `max_area` is the largest validated candidate area and `valid` holds iff one exists |
| PolygonText.TrimLeft | day_9/software_reference/max_rectangle_finder.py:285 | removes exactly the leading whitespace |
| PolygonText.TrimRight | day_9/software_reference/max_rectangle_finder.py:285 | removes exactly the trailing whitespace |
| PolygonText.Strip | day_9/software_reference/max_rectangle_finder.py:285 | the stripped text neither starts nor ends with whitespace |
| PolygonText.StripUnchanged | day_9/software_reference/max_rectangle_finder.py:285 | already-stripped text is unchanged |
| PolygonText.IndexOf | day_9/software_reference/max_rectangle_finder.py:289 | the first occurrence of the separator |
| PolygonText.Split | day_9/software_reference/max_rectangle_finder.py:285-289 | `split` gives at least one part, and no part contains the separator |
| PolygonText.JoinSplit | day_9/software_reference/max_rectangle_finder.py:285-289 | joining the parts of a split gives back the text |
| PolygonText.SplitJoin | day_9/software_reference/max_rectangle_finder.py:285-289 | splitting a join of separator-free parts gives back the parts |
| PolygonText.DigitValue | day_9/software_reference/max_rectangle_finder.py:290 | a digit's value is below 10 |
| PolygonText.DigitChar | day_9/software_reference/max_rectangle_finder.py:290 | the digit character of `d` reads back as `d` |
| PolygonText.Digits | day_9/software_reference/max_rectangle_finder.py:290 | `int()` drops the underscore group separators and keeps the digits |
| PolygonText.NatToString | day_9/software_reference/max_rectangle_finder.py:290 | the decimal numeral of `n` is all digits and reads back as `n` |
| PolygonText.NatToStringLiteral | day_9/software_reference/max_rectangle_finder.py:290 | a numeral is a well-grouped literal without surrounding whitespace |
| PolygonText.ParseIntToString | day_9/software_reference/max_rectangle_finder.py:290 | `int(str(x)) == x` for every integer |
| PolygonText.ParseIntLiteral | day_9/software_reference/max_rectangle_finder.py:290 | `int` of an optionally signed, well-grouped literal is its value |
| PolygonText.ParseSignedLiteral | day_9/software_reference/max_rectangle_finder.py:290 | the signed body of a literal parses to its value |
| PolygonText.ParseVertex | day_9/software_reference/max_rectangle_finder.py:289-291 | a parsed line has exactly one comma, and its two fields are the `int`s of the vertex |
| PolygonText.ParseLines | day_9/software_reference/max_rectangle_finder.py:284-294 | at most one vertex per line |
| PolygonText.Prepend | day_9/software_reference/max_rectangle_finder.py:291 | prepending vertices keeps success or failure and concatenates on success |
| PolygonText.ParseLinesStopsAtEmpty | day_9/software_reference/max_rectangle_finder.py:286-288 | the first empty line ends the polygon, and nothing after it is read |
| PolygonText.ParsePolygonText | day_9/software_reference/max_rectangle_finder.py:274-294 | `parse_polygon_text` parses the lines of the stripped text |
| PolygonText.CollectVertices | day_9/software_reference/max_rectangle_finder.py:284-294 | the loop collects the vertices the line parser specifies, or its error |
| PolygonText.ParseLinesAt | day_9/software_reference/max_rectangle_finder.py:284-294 | the line parse is one line's step on the parse of the rest |
| PolygonText.PrependNothing | day_9/software_reference/max_rectangle_finder.py:291 | prepending nothing changes nothing |
| PolygonText.PrependTwice | day_9/software_reference/max_rectangle_finder.py:291 | two prepends are one prepend of the concatenation |
| PolygonText.VertexLines | day_9/software_reference/max_rectangle_finder.py:284-294 | one `x,y` line per vertex |
| PolygonText.ParseVertexLine | day_9/software_reference/max_rectangle_finder.py:289-291 | an `x,y` line is stripped, has a comma and no newline, and parses back to its vertex |
| PolygonText.NumeralChars | day_9/software_reference/max_rectangle_finder.py:289-291 | an integer's numeral is non-empty, with no comma, newline or surrounding whitespace |
| PolygonText.VertexLineText | day_9/software_reference/max_rectangle_finder.py:289-291 | a vertex line contains a comma, contains no newline, and is already stripped |
| PolygonText.VertexLineSplit | day_9/software_reference/max_rectangle_finder.py:289 | splitting a vertex line at the comma gives its two numerals |
| PolygonText.ParseRender | day_9/software_reference/max_rectangle_finder.py:274-294 | rendering vertices as `x,y` lines and parsing the text returns them (round trip) |
| PolygonText.StripRender | day_9/software_reference/max_rectangle_finder.py:285 | stripping the rendered text removes only its final newline |
| PolygonText.JoinEnds | day_9/software_reference/max_rectangle_finder.py:285 | a join of non-empty parts starts with the first part's first character and ends with the last part's last |
| PolygonText.LineStepVertex | day_9/software_reference/max_rectangle_finder.py:286-291 | one vertex line's step prepends that vertex |
| PolygonText.ParseLinesAll | day_9/software_reference/max_rectangle_finder.py:284-294 | lines that each prepend their vertex parse to the vertex list |
| PolygonText.ParseVertexLines | day_9/software_reference/max_rectangle_finder.py:284-294 | the lines of a vertex list parse back to that list |
| AsciiWrapper.Scaled | day_9/impl/ascii_wrapper.py:250-253 | the vertex sent is `acc << 2`, which is `4 * acc` when it fits in `coord_width` bits |
| AsciiWrapper.Accept | day_9/impl/ascii_wrapper.py:270-365 | one accepted character drives at most one vertex beat, and only in START_SEARCH on a digit, LF or NUL; IDLE clears the vertex count |
| AsciiWrapper.Send | day_9/impl/ascii_wrapper.py:321-328 | SEND_VERTEX drives the held vertex once with `last = 0` and moves to START_SEARCH |
| AsciiWrapper.FeedAppend | day_9/impl/ascii_wrapper.py:256-365 | feeding `a + b` is feeding `a` and then `b`: registers compose and beats concatenate |
| AsciiWrapper.DigitRun | day_9/impl/ascii_wrapper.py:288-306 | a run of digits accumulates `acc * 10 + digit` into the decimal value of the whole run, emitting nothing |
| AsciiWrapper.FeedOne | day_9/impl/ascii_wrapper.py:270-365 | feeding a single character is one accepted cycle |
| AsciiWrapper.FirstNumber | day_9/impl/ascii_wrapper.py:276-280 | a numeral after IDLE or START_SEARCH starts `x` at its value; from START_SEARCH the held vertex is sent first, with `last = 0` |
| AsciiWrapper.NewlineFeed | day_9/impl/ascii_wrapper.py:310-316 | LF in PARSE_Y completes the vertex, increments the 16-bit `vertex_count` and sends the vertex |
| AsciiWrapper.LineRest | day_9/impl/ascii_wrapper.py:293-316 | `,y\n` after `x` holds vertex `(x, y)` and sends it scaled by 4 |
| AsciiWrapper.LineFeed | day_9/impl/ascii_wrapper.py:270-365 | one `x,y\n` line sends its vertex, preceded by a resend of the previously held vertex when there was one |
| AsciiWrapper.Doubled | day_9/impl/ascii_wrapper.py:321-353 | every vertex but the last appears twice on the finder port |
| AsciiWrapper.LineAfterHeld | day_9/impl/ascii_wrapper.py:336-353 | a new line after a held vertex resends it and then sends the new vertex |
| AsciiWrapper.LinesFeed | day_9/impl/ascii_wrapper.py:270-365 | the lines of a polygon send every vertex but the last twice and the last once, and count the vertices modulo 2^16 |
| AsciiWrapper.EndFeed | day_9/impl/ascii_wrapper.py:355-362 | an empty line in START_SEARCH resends the held vertex with `last = 1` and enters WAIT_COMPLETE |
| AsciiWrapper.PolygonFeed | day_9/impl/ascii_wrapper.py:270-372 | a whole polygon text ends in WAIT_COMPLETE; the finder port sees every vertex but the last twice, then the last once without and once with `last`, all scaled by 4 |
| AsciiWrapper.Dabble | day_9/impl/ascii_wrapper.py:409-413 | a 4-bit BCD digit stays a 4-bit value after the dabble |
| AsciiWrapper.ShiftIn | day_9/impl/ascii_wrapper.py:406-426 | the shift keeps the number of BCD digits |
| AsciiWrapper.DigitShift | day_9/impl/ascii_wrapper.py:409-426 | adding 3 to a digit `>= 5` before the shift makes the 4-bit shift carry exactly when the doubled digit exceeds 9, leaving a decimal digit |
| AsciiWrapper.ShiftInValue | day_9/impl/ascii_wrapper.py:406-426 | one dabble-and-shift step maps a decimal value `v` and an incoming bit `c` to `2v + c`, keeping the digits decimal |
| AsciiWrapper.BitsValue | day_9/impl/ascii_wrapper.py:193 | a register of `k` bits holds less than `2^k` |
| AsciiWrapper.ToBits | day_9/impl/ascii_wrapper.py:389 | assigning to a register keeps its width |
| AsciiWrapper.ToBitsValue | day_9/impl/ascii_wrapper.py:389 | a value below `2^n` is stored unchanged in an `n`-bit register |
| AsciiWrapper.Low40 | day_9/impl/ascii_wrapper.py:417 | the window keeps 40 bits of a register at least 40 bits wide, and none of a narrower one |
| AsciiWrapper.ConvertedWide | day_9/impl/ascii_wrapper.py:405-430 | in a register of 40 or more bits, a value below `2^40` is converted exactly |
| AsciiWrapper.ConvertedNarrow | day_9/impl/ascii_wrapper.py:417 | in a register narrower than 40 bits, bit 39 does not exist and the conversion yields 0 |
| AsciiWrapper.ConvertRange | day_9/impl/ascii_wrapper.py:197 | 13 BCD digits hold every 40-bit value |
| AsciiWrapper.DigitText | day_9/impl/ascii_wrapper.py:449-450 | one character per BCD digit |
| AsciiWrapper.SignificantLength | day_9/impl/ascii_wrapper.py:455-458 | the length is one past the highest non-zero digit, and every digit above it is 0 |
| AsciiWrapper.SignificantLengthUnique | day_9/impl/ascii_wrapper.py:455-458 | any index with that property is the significant length |
| AsciiWrapper.DigitTextValue | day_9/impl/ascii_wrapper.py:448-460 | the significant digits, read most significant first, are the decimal numeral of their value |
| AsciiWrapper.ResultTextValue | day_9/impl/ascii_wrapper.py:436-460 | the text written for the BCD digits is the decimal numeral of their value, `"0"` for zero |
| AsciiWrapper.ShiftLeft | day_9/impl/ascii_wrapper.py:429 | a left shift keeps the register width |
| AsciiWrapper.ShiftLeftValue | day_9/impl/ascii_wrapper.py:429 | `binary_value << 1` in its own width is `2v mod 2^width` |
| AsciiWrapper.Taken | day_9/impl/ascii_wrapper.py:417 | after 40 steps the bits taken in are the register's low 40 (bits 39..0) |
| AsciiWrapper.ConvertStep | day_9/impl/ascii_wrapper.py:406-430 | each shift cycle keeps "the BCD value is the value of the bits taken so far" |
| AsciiWrapper.TakenStep | day_9/impl/ascii_wrapper.py:417-429 | each shift doubles the value of the bits taken in and adds the bit carried in, and the register then holds its original bits from `k + 1` on, followed by zeros |
| AsciiWrapper.TakenGrows | day_9/impl/ascii_wrapper.py:417 | the bits taken so far double and gain the carried-in bit |
| AsciiWrapper.ShiftLeftDrops | day_9/impl/ascii_wrapper.py:429 | after `k` shifts the register holds its original bits from `k` on, followed by zeros |
| AsciiWrapper.DigitChars | day_9/impl/ascii_wrapper.py:449-450 | `result_buffer[i] = bcd_digits[i] + '0'` for every digit |
| AsciiWrapper.Reversed | day_9/impl/ascii_wrapper.py:468 | reading the buffer from `result_len - 1` down to 0 reverses it |
| AsciiWrapper.ReversedDigitChars | day_9/impl/ascii_wrapper.py:448-468 | the buffer read from the top is the digits most significant first |
| AsciiWrapper.MaxRectangleAsciiWrapper.constructor | day_9/impl/ascii_wrapper.py:100-208 | registers at reset: IDLE, zero accumulators, cleared BCD digits, result buffer, length and index |
| AsciiWrapper.MaxRectangleAsciiWrapper.IdleCycle | day_9/impl/ascii_wrapper.py:270-274 | IDLE clears `vertex_count` |
| AsciiWrapper.MaxRectangleAsciiWrapper.InputCycle | day_9/impl/ascii_wrapper.py:270-365 | one accepted character updates the parser registers and drives the finder port as `Accept` specifies |
| AsciiWrapper.MaxRectangleAsciiWrapper.SendVertexCycle | day_9/impl/ascii_wrapper.py:321-328 | SEND_VERTEX drives the held vertex and moves to START_SEARCH |
| AsciiWrapper.MaxRectangleAsciiWrapper.Receive | day_9/impl/ascii_wrapper.py:256-365 | receiving a text leaves the registers and finder beats that `Feed` specifies, with SEND_VERTEX cycles interleaved while `ascii_in_ready` is low |
| AsciiWrapper.MaxRectangleAsciiWrapper.WaitCompleteCycle | day_9/impl/ascii_wrapper.py:370-372 | WAIT_COMPLETE moves to ASSERT_START after one cycle |
| AsciiWrapper.MaxRectangleAsciiWrapper.AssertStartCycle | day_9/impl/ascii_wrapper.py:377-379 | ASSERT_START pulses `start_search` and moves to WAIT_RESULT |
| AsciiWrapper.MaxRectangleAsciiWrapper.Load | day_9/impl/ascii_wrapper.py:388-397 | the conversion starts with the value loaded, the counters cleared and all BCD digits 0 |
| AsciiWrapper.MaxRectangleAsciiWrapper.WaitResultCycle | day_9/impl/ascii_wrapper.py:384-397 | on `finder.done`, `max_area >> 4` is loaded into the `area_width`-bit register and BCD_CONVERT starts; otherwise nothing changes |
| AsciiWrapper.MaxRectangleAsciiWrapper.WaitResultCycleWidened | day_9/impl/ascii_wrapper.py:384-397 | the same, with the value register widened to at least 40 bits |
| AsciiWrapper.MaxRectangleAsciiWrapper.ShiftCycle | day_9/impl/ascii_wrapper.py:406-430 | one conversion cycle dabbles and shifts the BCD digits with bit 39 carried in, shifts `binary_value` left and increments `shift_count` |
| AsciiWrapper.MaxRectangleAsciiWrapper.CompleteCycle | day_9/impl/ascii_wrapper.py:432-460 | the result length is the significant length, or 1 for zero, and the buffer read from the top is the decimal text of the BCD value |
| AsciiWrapper.MaxRectangleAsciiWrapper.WriteZero | day_9/impl/ascii_wrapper.py:441-446 | an all-zero value writes `'0'` at index 0 with length 1 |
| AsciiWrapper.MaxRectangleAsciiWrapper.WriteNumber | day_9/impl/ascii_wrapper.py:447-458 | a non-zero value writes all 13 digit characters and sets the length to one past the highest non-zero digit |
| AsciiWrapper.MaxRectangleAsciiWrapper.AllZero | day_9/impl/ascii_wrapper.py:436-439 | `all_zero` holds iff every BCD digit is 0 |
| AsciiWrapper.MaxRectangleAsciiWrapper.WriteDigits | day_9/impl/ascii_wrapper.py:449-450 | the first 13 buffer entries become the digit characters, and the rest are unchanged |
| AsciiWrapper.MaxRectangleAsciiWrapper.DigitCount | day_9/impl/ascii_wrapper.py:455-458 | the highest non-zero digit wins: the length is the significant length |
| AsciiWrapper.MaxRectangleAsciiWrapper.SendCycle | day_9/impl/ascii_wrapper.py:465-480 | while `result_idx < result_len`, the character at `result_len - 1 - result_idx` is offered and the index advances on `ready`; then `'\n'` is offered, and `ready` enters DONE |
| AsciiWrapper.MaxRectangleAsciiWrapper.SendAll | day_9/impl/ascii_wrapper.py:465-480 | SEND_RESULT emits the unsent digits most significant first, then `'\n'`, and ends in DONE |
| AsciiWrapper.MaxRectangleAsciiWrapper.ShiftAll | day_9/impl/ascii_wrapper.py:405-430 | 40 shift cycles leave in BCD the value of the register's low 40 bits (39..0) |
| AsciiWrapper.MaxRectangleAsciiWrapper.Convert | day_9/impl/ascii_wrapper.py:400-460 | BCD_CONVERT leaves in the buffer the decimal numeral of the register's low 40 bits (39..0), in reverse |
| AsciiWrapper.MaxRectangleAsciiWrapper.Respond | day_9/impl/ascii_wrapper.py:384-480 | as written, the wrapper prints the decimal numeral of the converted `max_area >> 4`, then `'\n'`; with `area_width < 40` that is always `"0\n"` |
| AsciiWrapper.MaxRectangleAsciiWrapper.RespondWidened | day_9/impl/ascii_wrapper.py:384-480 | with the register widened, the wrapper prints `max_area >> 4` in decimal for every area the `2 coord_width`-bit register can hold (`coord_width <= 22`) |
| AsciiWrapper.ConvertStart | day_9/impl/ascii_wrapper.py:388-397 | before the first shift, nothing has been taken in and the BCD value is 0 |
| AsciiWrapper.AreaQuotientFits | day_9/impl/ascii_wrapper.py:389 | for `area_width <= 44`, `max_area >> 4` fits in 40 bits |
| AsciiWrapper.NarrowAreaConvertsToZero | day_9/impl/ascii_wrapper.py:417 | with `coord_width = 16`, area 400 converts to 0 as written and to 25 when widened |

## Left out

- One-cycle BRAM read latency, prefetch registers and timing-only copies of registers: memories are read directly. The order of the algorithmic steps is kept. Registered write-port signals take effect in the cycle they are set.
- `MergeSortRtl.MergeSortBram.Stream`: it raises `done` and clears `busy` in the same step. The source pulses `done` in OUTPUT and clears `busy` one cycle later, in DONE.
- `read_input` and the `main()` entry points of the software references, and the Verilog-generation `__main__` blocks: file I/O and command lines.
- The stub `MaxRectangleFinder` inside `day_9/impl/ascii_wrapper.py`. The wrapper's `finder.done` and `finder.max_area` are parameters of `WaitResultCycle`/`Respond`.
- The UART transport and its FIFOs, the Verilator wrappers and ctypes drivers, and the Amaranth, Hypothesis and SymbiYosys harnesses. These are transport or foreign code. The harnesses appear only as the source of properties and examples.
- Debug and performance outputs (`idle_count`, `cycle_counter`, `validation_cycles`, `debug_*`). They do not affect any result.
- `get_statistics` of the software reference: its counters are the `Stats()` of the reference class; the dictionary packaging is not modelled.
- Characters are `char`, not 8-bit bytes. The wrapper only compares them with ASCII digits, `,`, CR, LF and NUL.
- `PolygonText.IsDigit`: it accepts only the ASCII digits. Python's `int()` in the software reference also accepts other Unicode decimal digits; the model does not.
- The 64-bit range registers of the day_5 RTL and the `coord_width`-bit vertex registers of day_9 are unbounded integers. The day_5 RTL compares unsigned values, and the model orders integers the same way on non-negative inputs.
- The 6-bit `result_len`/`result_idx` and the 7-bit `shift_count` are unbounded. In the model they stay at most 13 and 40, which fit those widths.
- `AsciiWrapper.MaxRectangleAsciiWrapper.Respond`: it converts only the register's low 40 bits (39..0), as the source does. Values of `2^40` or more lose their high bits there, and this is stated only through `Converted`.
- `AsciiWrapper.MaxRectangleAsciiWrapper.RespondWidened`: the exact decimal result is stated for `coord_width <= 22`. Wider areas do not fit the 40-bit window or the 13 digits in the source either.
- `RangeCheckerSystemRtl.RunSystem`: requires at least one range. With none, the interval-coverage unit never tags a last element, and the system waits in COVERAGE forever. `RunCoverage` states that it stays in COVERAGE.
- `IntervalCoverageRtl.IntervalCoverage.Run`: with `count_in = 0` the model states only that the unit is still in MERGING without `done`, because the source never leaves it.
- `MaxRectangleFinderRtl.MaxRectangleFinder.RunSearch`: the "largest area" reading is stated only when no candidate area overflows the `2 coord_width`-bit register. `MaxRectangleFinderRtl.AreaRegisterOverflow` shows a candidate that does.
- `RangeCheckerRtl.RangeChecker.Search`: it is a loop over `left`, `right` and `mid` rather than the SEARCH_SETUP/SEARCH_READ/SEARCH_LATCH/SEARCH_COMPARE cycles. It stops at `mid = 0` as the source does, and its index registers are unbounded.
- `MergeSortRtl.MergeSortBram.Pass`, `MergeSortRtl.MergeSortBram.RunPasses`, `MergeSortRtl.MergeSortBram.Stream`, `MergeSortRtl.MergeSortBram.SortAndStream`, `IntervalCoverageRtl.IntervalCoverage.Run`, `RangeCheckerRtl.RangeChecker.CheckCycle`, `RangeCheckerSystemRtl.RangeCheckerSystem.RunCoverage` and `RangeCheckerSystemRtl.RangeCheckerSystem.RunChecks`: they require the latched count to be at most `max_ranges`. The load and `start` cycles accept any count their registers hold, and the model states what they store. A larger count makes the sort, search and check read past the memory depth, whose contents are undefined.
- `MaxRectangleFinderRtl.MaxRectangleFinder.LoadPoly`, `SearchPairs` and `RunSearch`: they require a count of at most `max_vertices`. `LoadCycle` accepts longer streams and states the count and writes. Past the depth the copy and the search would read undefined memory.
- `IntervalCoverageRtl.IntervalCoverage.FeedMerger`: `count_in` is read live by the hardware while the sorted stream is fed. The model takes it to be the count the sorter latched, as every caller holds it.
- `ValidateRectangleRtl.ValidateRectangle.Run` and `ValidateRectangleRtl.ValidateRectangle.RunAsWritten`: `num_vertices` and `start_vertex` are read live by the hardware. The model takes them at `start` and holds them for the run, as the finder does.
- `ValidateRectangleRtl.ValidateRectangle.InitFetch`, `Process`, `ProcessStep`, `StopOnViolation`, `FinishWalk`, `SlideWindow`, `FinalizeCycle`, `Walk`, `Run` and `RunAsWritten`: the validator's BRAM write port is enabled by `load_wr & load_mode` in every state, not only in IDLE. The model takes the port as idle outside IDLE, so the memory is unchanged during a run. The finder drives it that way: it raises `load_mode` only while copying the polygon, before any run starts.
- The comparison of the day_9 software reference with the RTL: they shrink the rectangle by different amounts and use different edge tests, so no equivalence is stated.

## Findings

| source | as written | input that shows it | evidently intended | confidence | as-written member | corrected member |
|---|---|---|---|---|---|---|
| day_9/rtl/validate_rectangle.py:362-365 | PROCESS_PIPELINE tests the old `edge_counter >= num_vertices`, so the walk goes to FINALIZE only after `n + 1` edges. The start edge is checked twice, and its ray-cast hit is counted twice. | the square `(0,0),(0,10),(10,10),(10,0)`, rectangle `x=2, y=2, w=2, h=2`, `start_vertex = 0`: corner `(2,2)` crosses edge 0 twice, so its count is even and the rectangle fails CHECK3, although it lies inside | each edge walked once (`n` steps), so a corner's parity is the polygon's ray-cast parity | not executed | ValidateRectangleRtl.ValidateRectangle.RunAsWritten, ValidateRectangleRtl.AsWrittenRejectsInsideRectangle, MaxRectangleFinderRtl.MaxRectangleFinder.Validate | ValidateRectangleRtl.ValidateRectangle.Run, ValidateRectangleRtl.SinglePassVerdict, MaxRectangleFinderRtl.FinderSearchSinglePass |
| day_9/impl/ascii_wrapper.py:417 | the double-dabble takes `binary_value.bit_select(39, 1)` from a register only `area_width = 2 * coord_width` bits wide. For `coord_width < 20` bit 39 does not exist, and every result prints as `0`. | `coord_width = 16`, `max_area = 400`: prints `"0\n"` instead of `"25\n"` | bit 39 of a register at least 40 bits wide, i.e. `max_area >> 4` loaded into such a register and its low 40 bits converted | not executed | AsciiWrapper.MaxRectangleAsciiWrapper.Respond, AsciiWrapper.NarrowAreaConvertsToZero | AsciiWrapper.MaxRectangleAsciiWrapper.RespondWidened |
| day_9/rtl/max_rectangle_finder.py:213-224 | in LOAD_VERTICES, `write_port.en.eq(0)` under `vertex_last` comes after `write_port.en.eq(1)` and wins. The vertex that carries `vertex_last` is counted in `num_vertices` but never written, so the polygon's last vertex is whatever the RAM held at that address. The ASCII wrapper sends every vertex twice and sets `vertex_last` on the second copy of the last one, so through it that copy is replaced by a stale entry. | the square `(0,0),(40,0),(40,40),(0,40)` streamed after reset, with `vertex_last` on `(0,40)`: the RAM holds `(0,0),(40,0),(40,40),(0,0)` | every vertex is written, the last included | not executed | MaxRectangleFinderRtl.MaxRectangleFinder.LoadCycle, MaxRectangleFinderRtl.MaxRectangleFinder.LoadPolygon, MaxRectangleFinderRtl.SquareLoadedAsWritten | MaxRectangleFinderRtl.MaxRectangleFinder.LoadCycleIntended, MaxRectangleFinderRtl.MaxRectangleFinder.LoadPolygonIntended, MaxRectangleFinderRtl.SquareLoadedIntended |
