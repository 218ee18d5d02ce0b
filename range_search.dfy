/** The software reference for ID validation
    (day_5/software_reference/range_checker.py): `is_in_ranges` binary-searches
    a coalesced list of ranges, and `count_valid_ids` merges the raw ranges and
    counts the IDs the search accepts.  Its `merge_all_ranges` is a copy of the
    one in `MergeReference` and is modelled by that module. */
module RangeSearch {
  import opened Intervals
  import opened MergeReference

  /** `is_in_ranges`: binary search by start.  An ID below the probed start
      goes left, one above the probed end goes right, anything else is a hit.
      A hit is always genuine; on a coalesced interval set a miss is genuine too. */
  method IsInRanges(value: int, ranges: seq<Range>) returns (found: bool)
    ensures found ==> Covers(ranges, value)
    ensures IsIntervalSet(ranges) ==> (found <==> Covers(ranges, value))
  {
    if |ranges| == 0 {
      return false;
    }
    var left, right := 0, |ranges| - 1;
    while left <= right
      invariant 0 <= left <= right + 1 <= |ranges|
      invariant IsIntervalSet(ranges) ==> forall j :: 0 <= j < left ==> !Contains(ranges[j], value)
      invariant IsIntervalSet(ranges) ==> forall j :: right < j < |ranges| ==> !Contains(ranges[j], value)
      decreases right - left
    {
      var mid := (left + right) / 2;
      var r := ranges[mid];
      if value < r.lo {
        right := mid - 1;
      } else if value > r.hi {
        if IsIntervalSet(ranges) {
          forall j | 0 <= j <= mid ensures !Contains(ranges[j], value) {
            if j < mid {
              assert ranges[j].hi < ranges[j + 1].lo <= ranges[mid].lo;
            }
          }
        }
        left := mid + 1;
      } else {
        assert Contains(ranges[mid], value);
        return true;
      }
    }
    return false;
  }

  /** How many of `checks` some range of `ranges` covers. */
  function CountCovered(ranges: seq<Range>, checks: seq<int>): (n: nat)
    ensures n <= |checks|
  {
    if checks == [] then 0
    else CountCovered(ranges, checks[..|checks| - 1]) + (if Covers(ranges, checks[|checks| - 1]) then 1 else 0)
  }

  /** One more ID counts once more exactly when it is covered. */
  lemma CountCoveredAppend(ranges: seq<Range>, checks: seq<int>, id: int)
    ensures CountCovered(ranges, checks + [id]) == CountCovered(ranges, checks) + (if Covers(ranges, id) then 1 else 0)
  {
    var c := checks + [id];
    assert c[..|c| - 1] == checks;
  }

  /** Merging first does not change which IDs are counted. */
  lemma {:induction false} CountCoveredMerged(ranges: seq<Range>, checks: seq<int>)
    ensures CountCovered(Merged(ranges), checks) == CountCovered(ranges, checks)
  {
    if checks != [] {
      CountCoveredMerged(ranges, checks[..|checks| - 1]);
      MergedCovers(ranges, checks[|checks| - 1]);
    }
  }

  /** `count_valid_ids`: merge once, then one binary search per ID.  The count
      is the number of IDs the raw ranges cover. */
  method CountValidIds(ranges: seq<Range>, checks: seq<int>) returns (validCount: nat)
    ensures validCount == CountCovered(ranges, checks)
    ensures validCount <= |checks|
  {
    var merged := MergeAllRanges(ranges);
    validCount := 0;
    var k := 0;
    while k < |checks|
      invariant 0 <= k <= |checks|
      invariant validCount == CountCovered(ranges, checks[..k])
    {
      assert checks[..k + 1][..k] == checks[..k];
      var hit := IsInRanges(checks[k], merged);
      if hit {
        validCount := validCount + 1;
      }
      k := k + 1;
    }
    assert checks[..k] == checks;
  }
}
