/** The streaming range merger (day_5/rtl/range_merger.py).  One accumulator
    register holds the range being grown: an input that starts at or before
    the accumulator's end extends it to the larger end, any other input pushes
    the accumulator out and takes its place, and after the input marked last
    the accumulator is pushed out with the last flag and the FSM stops for
    good.  With coverage enabled each pushed-out range adds its size
    `end - start + 1`, computed on the `width`-bit registers, to a 128-bit
    total.

    The output registers are written on the clock edge that decides them; the
    model returns that beat from the same `Cycle`.  The accumulator is the
    last element of the software fold over the accepted inputs, so the output
    stream is that fold, in whatever order the inputs arrive. */
module RangeMergerRtl {
  import opened Intervals
  import opened MergeReference
  import opened Wrappers
  import opened Registers

  /** The 128-bit coverage register wraps modulo `2^128`. */
  const CoverageModulus: int := 0x1_0000_0000_0000_0000_0000_0000_0000_0000

  datatype MergerState = Idle | Process | OutputLast | Done

  /** One output beat: `(start_out, end_out)` and `last_out`. */
  datatype Beat = Beat(range: Range, last: bool)

  /** `range_size`, `accum_end - accum_start + 1` on `width`-bit registers.
      The difference of two unsigned values is an unsigned `width + 1`-bit
      value, so an end below the start wraps it; 1 is then added.  For a
      non-empty range the registers can hold, it is the range's size. */
  function RangeSize(r: Range, width: nat): (s: int)
    ensures 1 <= s <= Pow2(width + 1)
    ensures r.lo <= r.hi < r.lo + Pow2(width + 1) ==> s == r.hi - r.lo + 1
    ensures r.lo - Pow2(width + 1) <= r.hi < r.lo ==> s == r.hi - r.lo + 1 + Pow2(width + 1)
  {
    var p := Pow2(width + 1);
    ModRange(r.hi - r.lo, p);
    ModShift(r.hi - r.lo, p);
    ModRange(r.hi - r.lo + p, p);
    (r.hi - r.lo) % p + 1
  }

  /** The sizes of a list of ranges, summed as the coverage register sees them. */
  function SizeSum(rs: seq<Range>, width: nat): int
  {
    if rs == [] then 0 else SizeSum(rs[..|rs| - 1], width) + RangeSize(Last(rs), width)
  }

  /** Every bound fits a `width`-bit register. */
  predicate InRegisters(rs: seq<Range>, width: nat)
  {
    forall i :: 0 <= i < |rs| ==> 0 <= rs[i].lo < Pow2(width) && 0 <= rs[i].hi < Pow2(width)
  }

  /** What one pushed-out range adds to the coverage register: its
      `range_size`, truncated to 128 bits, added with 128-bit wrap-around. */
  function AddCoverage(coverage: int, r: Range, width: nat): (c: int)
    requires 0 <= coverage < CoverageModulus
    ensures 0 <= c < CoverageModulus
    ensures c == (coverage + RangeSize(r, width)) % CoverageModulus
  {
    ModAdd(RangeSize(r, width), coverage);
    (coverage + RangeSize(r, width) % CoverageModulus) % CoverageModulus
  }

  /** Adding one more range to the summed sizes commutes with the wrap. */
  lemma CoverageAppend(emitted: seq<Range>, r: Range, coverage: int, width: nat)
    requires coverage == SizeSum(emitted, width) % CoverageModulus
    ensures AddCoverage(coverage, r, width) == SizeSum(emitted + [r], width) % CoverageModulus
  {
    var e := emitted + [r];
    assert e[..|e| - 1] == emitted;
    ModAdd(SizeSum(emitted, width), RangeSize(r, width));
  }

  /** On non-empty ranges held in `width`-bit registers the register sizes
      are the true sizes, and their sum is `TotalCoverage`. */
  lemma {:induction false} SizeSumIsCoverage(rs: seq<Range>, width: nat)
    requires WellFormed(rs) && InRegisters(rs, width)
    ensures SizeSum(rs, width) == TotalCoverage(rs)
  {
    if rs != [] {
      var front := rs[..|rs| - 1];
      assert WellFormed(front) && InRegisters(front, width) by {
        forall i | 0 <= i < |front| ensures front[i] == rs[i] { }
      }
      SizeSumIsCoverage(front, width);
      assert Pow2(width + 1) == 2 * Pow2(width);
      assert Last(rs) == rs[|rs| - 1];
    }
  }

  /** Coalescing keeps every bound in the registers: each output bound is
      an input bound. */
  lemma {:induction false} CoalesceInRegisters(s: seq<Range>, width: nat)
    requires InRegisters(s, width)
    ensures InRegisters(Coalesce(s), width)
  {
    if |s| > 1 {
      var front := s[..|s| - 1];
      assert InRegisters(front, width) by {
        forall i | 0 <= i < |front| ensures front[i] == s[i] { }
      }
      CoalesceInRegisters(front, width);
      assert Last(s) == s[|s| - 1];
    }
  }

  /** A range whose end is below its start adds `end - start + 1 + 2^(width+1)`
      rather than a non-positive amount: `(5, 3)` on 64-bit registers adds
      `2^65 - 1`. */
  lemma InvertedRangeSize(width: nat)
    ensures RangeSize(Range(5, 3), width) == Pow2(width + 1) - 1
  {
    assert Pow2(width + 1) >= 2;
  }

  lemma ModAdd(a: int, b: int)
    ensures (a % CoverageModulus + b) % CoverageModulus == (a + b) % CoverageModulus
  {
    var q := a / CoverageModulus;
    assert a == q * CoverageModulus + a % CoverageModulus;
    assert a + b == (a % CoverageModulus + b) + q * CoverageModulus;
  }

  /** The held range of a fold starts after every earlier range ends, and is
      non-empty when the inputs are. */
  lemma HeldFacts(accepted: seq<Range>, emitted: seq<Range>, held: Range)
    requires emitted + [held] == Coalesce(accepted)
    ensures emitted != [] ==> Last(emitted).hi < held.lo
    ensures WellFormed(accepted) ==> held.lo <= held.hi
  {
    CoalesceSeparated(accepted);
    assert Coalesce(accepted)[|emitted|] == held;
    if emitted != [] {
      assert Coalesce(accepted)[|emitted| - 1] == Last(emitted);
    }
    if WellFormed(accepted) {
      CoalesceWellFormed(accepted);
    }
  }

  /** An input starting at or before the held end extends the held range. */
  lemma ExtendHeld(accepted: seq<Range>, emitted: seq<Range>, held: Range, r: Range)
    requires accepted != [] && emitted + [held] == Coalesce(accepted) && r.lo <= held.hi
    ensures emitted + [Range(held.lo, Max(held.hi, r.hi))] == Coalesce(accepted + [r])
  {
    var a, m, grown := accepted + [r], Coalesce(accepted), Range(held.lo, Max(held.hi, r.hi));
    assert a[..|a| - 1] == accepted && Last(a) == r;
    assert Coalesce(a) == MergeStep(m, r);
    assert Last(m) == held;
    assert MergeStep(m, r) == m[|m| - 1 := grown];
    assert m[|m| - 1 := grown] == emitted + [grown];
  }

  /** An input starting after the held end pushes the held range out and
      becomes the held range. */
  lemma PushOutHeld(accepted: seq<Range>, emitted: seq<Range>, held: Range, r: Range)
    requires accepted != [] && emitted + [held] == Coalesce(accepted) && r.lo > held.hi
    ensures (emitted + [held]) + [r] == Coalesce(accepted + [r])
    ensures emitted != [] ==> Last(emitted).hi < held.lo
    ensures WellFormed(accepted + [r]) ==> held.lo <= held.hi
  {
    var a := accepted + [r];
    assert a[..|a| - 1] == accepted;
    HeldFacts(accepted, emitted, held);
    if WellFormed(a) {
      assert WellFormed(accepted) by {
        forall i | 0 <= i < |accepted| ensures accepted[i].lo <= accepted[i].hi {
          assert a[i] == accepted[i];
        }
      }
    }
  }

  class RangeMerger {
    /** The width of the range ports and the accumulator registers. */
    const width: nat
    const computeCoverage: bool
    var state: MergerState
    var accumStart: int
    var accumEnd: int
    var haveAccum: bool
    var coverage: int
    /** The inputs accepted so far, in arrival order. */
    ghost var accepted: seq<Range>
    /** The ranges pushed out so far, in order. */
    ghost var emitted: seq<Range>

    /** `ready`: inputs are taken in IDLE and PROCESS only. */
    predicate Ready()
      reads this
    {
      state == Idle || state == Process
    }

    /** The register contents against the fold over the accepted inputs: the
        pushed-out ranges followed by the accumulator are that fold while a
        range is held, and the pushed-out ranges alone once it is flushed. */
    ghost predicate Valid()
      reads this
    {
      0 <= coverage < CoverageModulus
      && (computeCoverage ==> coverage == SizeSum(emitted, width) % CoverageModulus)
      && (!computeCoverage ==> coverage == 0)
      && (state == Idle ==> accepted == [] && emitted == [] && !haveAccum)
      && ((state == Process || state == OutputLast) ==>
            accepted != [] && haveAccum && emitted + [Range(accumStart, accumEnd)] == Coalesce(accepted))
      && (state == Done ==> accepted != [] && !haveAccum && emitted == Coalesce(accepted))
    }

    constructor (width: nat, computeCoverage: bool)
      ensures Valid() && state == Idle && this.width == width && this.computeCoverage == computeCoverage
    {
      this.width := width;
      this.computeCoverage := computeCoverage;
      state := Idle;
      accumStart, accumEnd, haveAccum, coverage := 0, 0, false, 0;
      accepted, emitted := [], [];
    }

    /** One clock cycle with inputs `valid_in`, `(start_in, end_in)` and
        `last_in`; returns the beat it puts on the output, if any. */
    method Cycle(validIn: bool, r: Range, lastIn: bool) returns (out: Option<Beat>)
      requires Valid()
      modifies this
      ensures Valid()
      ensures accepted == if old(Ready()) && validIn then old(accepted) + [r] else old(accepted)
      ensures emitted == old(emitted) + (if out.Some? then [out.value.range] else [])
      ensures out.Some? <==> old(state) == OutputLast || (old(state) == Process && validIn && r.lo > old(accumEnd))
      ensures out.Some? ==> out.value.last == (old(state) == OutputLast)
      ensures out.Some? ==> old(accepted) != []
      ensures out.Some? && old(emitted) != [] ==> Last(old(emitted)).hi < out.value.range.lo
      ensures out.Some? && WellFormed(accepted) ==> out.value.range.lo <= out.value.range.hi
      ensures old(Ready()) && validIn ==> state == if lastIn then OutputLast else Process
      ensures old(Ready()) && !validIn ==> state == old(state)
      ensures old(state) == OutputLast || old(state) == Done ==> state == Done
    {
      match state {
        case Idle =>
          out := None;
          if validIn {
            accumStart, accumEnd, haveAccum := r.lo, r.hi, true;
            accepted := [r];
            state := if lastIn then OutputLast else Process;
          }
        case Process =>
          out := None;
          if validIn {
            out := Absorb(r, lastIn);
          }
        case OutputLast =>
          out := Flush();
        case Done =>
          out := None;
      }
    }

    /** PROCESS with a valid input: an input starting at or before the
        accumulator's end grows it to the larger end, any other input pushes
        the accumulator out (adding its size to the coverage register) and
        takes its place; `last_in` moves on to OUTPUT_LAST. */
    method Absorb(r: Range, lastIn: bool) returns (out: Option<Beat>)
      requires Valid() && state == Process
      modifies this
      ensures Valid()
      ensures accepted == old(accepted) + [r]
      ensures emitted == old(emitted) + (if out.Some? then [out.value.range] else [])
      ensures out.Some? <==> r.lo > old(accumEnd)
      ensures out.Some? ==> !out.value.last
      ensures out.Some? && old(emitted) != [] ==> Last(old(emitted)).hi < out.value.range.lo
      ensures out.Some? && WellFormed(accepted) ==> out.value.range.lo <= out.value.range.hi
      ensures state == if lastIn then OutputLast else Process
    {
      out := None;
      var held := Range(accumStart, accumEnd);
      if r.lo <= accumEnd {
        ExtendHeld(accepted, emitted, held, r);
        accumEnd := if r.hi > accumEnd then r.hi else accumEnd;
      } else {
        out := Some(Beat(held, false));
        PushOutHeld(accepted, emitted, held, r);
        if computeCoverage {
          CoverageAppend(emitted, held, coverage, width);
          coverage := AddCoverage(coverage, held, width);
        }
        emitted := emitted + [held];
        accumStart, accumEnd := r.lo, r.hi;
      }
      accepted := accepted + [r];
      if lastIn {
        state := OutputLast;
      }
    }

    /** OUTPUT_LAST: the accumulator goes out with `last_out` set, its size is
        added to the coverage register, and the FSM stops in DONE. */
    method Flush() returns (out: Option<Beat>)
      requires Valid() && state == OutputLast
      modifies this
      ensures Valid() && state == Done && accepted == old(accepted)
      ensures out.Some? && out.value.last
      ensures emitted == old(emitted) + [out.value.range]
      ensures old(emitted) != [] ==> Last(old(emitted)).hi < out.value.range.lo
      ensures WellFormed(accepted) ==> out.value.range.lo <= out.value.range.hi
    {
      var held := Range(accumStart, accumEnd);
      out := Some(Beat(held, true));
      HeldFacts(accepted, emitted, held);
      if computeCoverage {
        CoverageAppend(emitted, held, coverage, width);
        coverage := AddCoverage(coverage, held, width);
      }
      emitted := emitted + [held];
      haveAccum := false;
      state := Done;
    }
  }

  /** A stream of `n >= 1` inputs, the last one flagged, fed one per cycle
      into a fresh merger, followed by one more cycle to flush the
      accumulator: the beats are the fold of the stream, only the final one
      is flagged last, and the coverage output is the sum of its
      `range_size` values modulo `2^128` -- its summed width when every input
      is non-empty and fits the registers. */
  method MergeStream(inputs: seq<Range>, width: nat, computeCoverage: bool) returns (outs: seq<Range>, lasts: seq<bool>, coverage: int)
    requires inputs != []
    ensures outs == Coalesce(inputs)
    ensures |lasts| == |outs| && forall k :: 0 <= k < |lasts| ==> (lasts[k] <==> k == |lasts| - 1)
    ensures computeCoverage ==> coverage == SizeSum(Coalesce(inputs), width) % CoverageModulus
    ensures computeCoverage && WellFormed(inputs) && InRegisters(inputs, width) ==>
              coverage == TotalCoverage(Coalesce(inputs)) % CoverageModulus
    ensures !computeCoverage ==> coverage == 0
  {
    var m := new RangeMerger(width, computeCoverage);
    outs, lasts := [], [];
    var k := 0;
    while k < |inputs|
      invariant 0 <= k <= |inputs| && m.Valid() && m.computeCoverage == computeCoverage
      invariant m.accepted == inputs[..k] && m.emitted == outs
      invariant |lasts| == |outs| && forall i :: 0 <= i < |lasts| ==> !lasts[i]
      invariant if k == 0 then m.state == Idle else if k < |inputs| then m.state == Process else m.state == OutputLast
    {
      assert inputs[..k + 1] == inputs[..k] + [inputs[k]];
      var beat := m.Cycle(true, inputs[k], k == |inputs| - 1);
      if beat.Some? {
        outs, lasts := outs + [beat.value.range], lasts + [beat.value.last];
      }
      k := k + 1;
    }
    assert inputs[..k] == inputs;
    var beat := m.Cycle(false, Range(0, 0), false);
    outs, lasts := outs + [beat.value.range], lasts + [beat.value.last];
    coverage := m.coverage;
    if WellFormed(inputs) && InRegisters(inputs, width) {
      CoalesceWellFormed(inputs);
      CoalesceInRegisters(inputs, width);
      SizeSumIsCoverage(Coalesce(inputs), width);
    }
  }

  /** On a stream sorted by `(start, end)` the merger produces exactly what
      the software `merge_all_ranges` returns, and its coverage total is
      the number of distinct integers covered, modulo `2^128`, when every
      range is non-empty. */
  lemma SortedStreamIsMerged(inputs: seq<Range>)
    requires LexSorted(inputs)
    ensures Coalesce(inputs) == Merged(inputs)
    ensures WellFormed(inputs) ==> TotalCoverage(Coalesce(inputs)) == |CoveredSet(inputs)|
  {
    SortedPermutationIsSort(inputs, inputs);
    if WellFormed(inputs) {
      MergedCoverageCountsDistinct(inputs);
    }
  }

  /** `(1,5),(5,10)` touch and become `(1,10)`; `(1,5),(10,15),(20,25)` pass
      through unchanged. */
  lemma MergerExamples()
    ensures Coalesce([Range(1, 5), Range(5, 10)]) == [Range(1, 10)]
    ensures Coalesce([Range(1, 5), Range(10, 15), Range(20, 25)]) == [Range(1, 5), Range(10, 15), Range(20, 25)]
  {
    assert [Range(1, 5), Range(5, 10)][..1] == [Range(1, 5)];
    var s := [Range(1, 5), Range(10, 15), Range(20, 25)];
    assert s[..2][..1] == [Range(1, 5)];
    assert s[..2] == [Range(1, 5), Range(10, 15)];
  }
}
