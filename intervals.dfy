/** Inclusive integer ranges and the vocabulary shared by every stage of the
    interval pipeline: the lexicographic key order used for sorting, what it
    means for a list of ranges to cover a value, and the shape of a coalesced
    interval set.  The reference sort (Python's `sorted` on `(start, end)`
    tuples) is given here as an insertion sort together with the fact that a
    sorted permutation is unique, which is what lets every other sorter in the
    project be compared with it. */
module Intervals {

  /** An inclusive range `[lo, hi]`; `lo > hi` is representable and covers nothing. */
  datatype Range = Range(lo: int, hi: int)

  function Max(a: int, b: int): int { if a >= b then a else b }

  predicate Contains(r: Range, v: int) { r.lo <= v <= r.hi }

  /** Some range of `rs` contains `v`. */
  predicate Covers(rs: seq<Range>, v: int)
  {
    exists i :: 0 <= i < |rs| && Contains(rs[i], v)
  }

  /** Tuple order on `(start, end)`: by start, ties broken by end. */
  predicate LexLe(a: Range, b: Range)
  {
    a.lo < b.lo || (a.lo == b.lo && a.hi <= b.hi)
  }

  predicate LexSorted(rs: seq<Range>)
  {
    forall i, j :: 0 <= i < j < |rs| ==> LexLe(rs[i], rs[j])
  }

  predicate SortedByStart(rs: seq<Range>)
  {
    forall i, j :: 0 <= i < j < |rs| ==> rs[i].lo <= rs[j].lo
  }

  /** Each range ends strictly before the next one starts (no overlap, no touching). */
  predicate Separated(rs: seq<Range>)
  {
    forall i :: 0 <= i < |rs| - 1 ==> rs[i].hi < rs[i + 1].lo
  }

  /** Every range is non-empty: `lo <= hi`. */
  predicate WellFormed(rs: seq<Range>)
  {
    forall i :: 0 <= i < |rs| ==> rs[i].lo <= rs[i].hi
  }

  /** A coalesced interval set: ascending by start, neighbours strictly apart. */
  predicate IsIntervalSet(rs: seq<Range>)
  {
    SortedByStart(rs) && Separated(rs)
  }

  lemma LexLeTransitive(a: Range, b: Range, c: Range)
    requires LexLe(a, b) && LexLe(b, c)
    ensures LexLe(a, c)
  {
  }

  lemma LexSortedByStart(rs: seq<Range>)
    requires LexSorted(rs)
    ensures SortedByStart(rs)
  {
  }

  lemma CoversAppend(rs: seq<Range>, r: Range, v: int)
    ensures Covers(rs + [r], v) <==> Covers(rs, v) || Contains(r, v)
  {
    if Covers(rs, v) {
      var i :| 0 <= i < |rs| && Contains(rs[i], v);
      assert (rs + [r])[i] == rs[i];
    }
    if Contains(r, v) {
      assert (rs + [r])[|rs|] == r;
    }
  }

  /** Covering depends only on which ranges occur, not on their order or count. */
  lemma CoversPermutation(a: seq<Range>, b: seq<Range>, v: int)
    requires multiset(a) == multiset(b)
    ensures Covers(a, v) <==> Covers(b, v)
  {
    if Covers(a, v) {
      var i :| 0 <= i < |a| && Contains(a[i], v);
      assert a[i] in multiset(b);
      var j :| 0 <= j < |b| && b[j] == a[i];
    }
    if Covers(b, v) {
      var i :| 0 <= i < |b| && Contains(b[i], v);
      assert b[i] in multiset(a);
      var j :| 0 <= j < |a| && a[j] == b[i];
    }
  }

  // ---------------------------------------------------------------------------
  // Reference sort: Python's sorted() on (start, end) tuples.

  function Insert(x: Range, s: seq<Range>): (r: seq<Range>)
    ensures multiset(r) == multiset(s) + multiset{x}
    ensures |r| == |s| + 1
  {
    if s == [] then [x]
    else if LexLe(x, s[0]) then [x] + s
    else
      assert s == [s[0]] + s[1..];
      [s[0]] + Insert(x, s[1..])
  }

  lemma {:induction false} InsertSorted(x: Range, s: seq<Range>)
    requires LexSorted(s)
    ensures LexSorted(Insert(x, s))
  {
    if s != [] && !LexLe(x, s[0]) {
      InsertSorted(x, s[1..]);
      var r := Insert(x, s[1..]);
      forall k | 0 <= k < |r|
        ensures LexLe(s[0], r[k])
      {
        assert r[k] in multiset(r);
        assert r[k] == x || r[k] in multiset(s[1..]);
        if r[k] != x {
          var m :| 0 <= m < |s[1..]| && s[1..][m] == r[k];
          assert s[1..][m] == s[m + 1];
        }
      }
    }
  }

  /** `sorted(ranges)`: ascending by `(start, end)`. */
  function SortRanges(s: seq<Range>): (r: seq<Range>)
    ensures multiset(r) == multiset(s)
    ensures |r| == |s|
  {
    if s == [] then []
    else
      assert s == [s[0]] + s[1..];
      Insert(s[0], SortRanges(s[1..]))
  }

  lemma {:induction false} SortRangesSorted(s: seq<Range>)
    ensures LexSorted(SortRanges(s))
  {
    if s != [] {
      SortRangesSorted(s[1..]);
      InsertSorted(s[0], SortRanges(s[1..]));
    }
  }

  lemma SortedHeadIsLeast(s: seq<Range>, x: Range)
    requires LexSorted(s) && x in multiset(s)
    ensures s != [] && LexLe(s[0], x)
  {
    var k :| 0 <= k < |s| && s[k] == x;
  }

  /** Two sorted arrangements of the same multiset of ranges are identical, so
      "sorted and a permutation of the input" pins the output down completely. */
  lemma {:induction false} SortedPermutationUnique(a: seq<Range>, b: seq<Range>)
    requires LexSorted(a) && LexSorted(b)
    requires multiset(a) == multiset(b)
    ensures a == b
  {
    if a != [] {
      assert a[0] in multiset(a);
      assert b != [];
      assert b[0] in multiset(b);
      SortedHeadIsLeast(a, b[0]);
      SortedHeadIsLeast(b, a[0]);
      assert a[0] == b[0];
      assert a == [a[0]] + a[1..];
      assert b == [b[0]] + b[1..];
      assert multiset(a) == multiset{a[0]} + multiset(a[1..]);
      assert multiset(b) == multiset{b[0]} + multiset(b[1..]);
      assert multiset(a[1..]) == multiset(a) - multiset{a[0]};
      assert multiset(b[1..]) == multiset(b) - multiset{b[0]};
      SortedPermutationUnique(a[1..], b[1..]);
    } else {
      assert |b| == |multiset(b)| == 0;
    }
  }

  /** Any sorted permutation of `s` is `SortRanges(s)`. */
  lemma SortedPermutationIsSort(s: seq<Range>, r: seq<Range>)
    requires LexSorted(r) && multiset(r) == multiset(s)
    ensures r == SortRanges(s)
  {
    SortRangesSorted(s);
    SortedPermutationUnique(r, SortRanges(s));
  }
}
