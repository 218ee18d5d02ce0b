/** The block-RAM bottom-up merge sort (day_5/rtl/merge_sort.py).  Ranges are
    loaded into bank A in IDLE; after `start` each pass merges adjacent blocks
    of `mergeWidth` elements from the source bank into the other bank (a
    trailing block without a right half is copied), the width doubles and the
    banks swap roles, until a pass with `2 * mergeWidth >= numRanges` has been
    made; the result is then streamed out of the bank that pass wrote.

    The start and end memories of a bank are always written together at the
    same address, so each bank is one array of `Range`.  The one-cycle read
    latency of the memories is collapsed into direct reads. */
module MergeSortRtl {
  import opened Intervals
  import opened Registers

  function Min(a: int, b: int): int { if a <= b then a else b }

  /** The merge of two runs as the FSM performs it: while both have elements
      the left head is taken when `(left_start, left_end) <= (right_start,
      right_end)`, otherwise the right head; the leftover run is copied. */
  function MergeSeq(a: seq<Range>, b: seq<Range>): (r: seq<Range>)
    ensures |r| == |a| + |b|
    decreases |a| + |b|
  {
    if a == [] then b
    else if b == [] then a
    else if LexLe(a[0], b[0]) then [a[0]] + MergeSeq(a[1..], b)
    else [b[0]] + MergeSeq(a, b[1..])
  }

  /** One pass at block width `w`: blocks of `2w` from the front, the left
      half `[bs, min(bs+w, n))` merged with the right half `[bs+w, min(bs+2w, n))`. */
  function MergePass(t: seq<Range>, w: nat): (r: seq<Range>)
    requires w >= 1
    ensures |r| == |t|
    decreases |t|
  {
    if |t| <= w then t
    else if |t| <= 2 * w then MergeSeq(t[..w], t[w..])
    else MergeSeq(t[..w], t[w..2 * w]) + MergePass(t[2 * w..], w)
  }

  /** Passes from width `w` on: the pass at `w` is always made, and another
      follows at `2w` only while `2w < n`. */
  function PassesFrom(t: seq<Range>, w: nat): (r: seq<Range>)
    requires w >= 1
    ensures |r| == |t|
    decreases |t| - w
  {
    var p := MergePass(t, w);
    if 2 * w >= |t| then p else PassesFrom(p, 2 * w)
  }

  /** Every block of `w` elements from the front is sorted. */
  predicate RunsSorted(t: seq<Range>, w: nat)
    requires w >= 1
    decreases |t|
  {
    if |t| <= w then LexSorted(t) else LexSorted(t[..w]) && RunsSorted(t[w..], w)
  }

  // ---------------------------------------------------------------------------
  // Correctness of the pass structure.

  /** A merge is a permutation of its two runs. */
  lemma {:induction false} MergeSeqPermutation(a: seq<Range>, b: seq<Range>)
    ensures multiset(MergeSeq(a, b)) == multiset(a) + multiset(b)
    decreases |a| + |b|
  {
    if a != [] && b != [] {
      if LexLe(a[0], b[0]) {
        assert MergeSeq(a, b) == [a[0]] + MergeSeq(a[1..], b);
        MergeSeqPermutation(a[1..], b);
        assert a == [a[0]] + a[1..];
        assert multiset(a) == multiset([a[0]]) + multiset(a[1..]);
      } else {
        assert MergeSeq(a, b) == [b[0]] + MergeSeq(a, b[1..]);
        MergeSeqPermutation(a, b[1..]);
        assert b == [b[0]] + b[1..];
        assert multiset(b) == multiset([b[0]]) + multiset(b[1..]);
      }
    }
  }

  /** A pass is a permutation of its input. */
  lemma {:induction false} MergePassPermutation(t: seq<Range>, w: nat)
    requires w >= 1
    ensures multiset(MergePass(t, w)) == multiset(t)
    decreases |t|
  {
    if w < |t| <= 2 * w {
      assert MergePass(t, w) == MergeSeq(t[..w], t[w..]);
      MergeSeqPermutation(t[..w], t[w..]);
      assert t == t[..w] + t[w..];
    } else if |t| > 2 * w {
      var a, b, c := t[..w], t[w..2 * w], t[2 * w..];
      var front, back := MergeSeq(a, b), MergePass(c, w);
      assert MergePass(t, w) == front + back;
      MergeSeqPermutation(a, b);
      MergePassPermutation(c, w);
      assert t == a + b + c;
      calc {
        multiset(front + back);
        multiset(front) + multiset(back);
        multiset(a) + multiset(b) + multiset(c);
        multiset(a + b + c);
      }
    }
  }

  lemma {:induction false} PassesFromPermutation(t: seq<Range>, w: nat)
    requires w >= 1
    ensures multiset(PassesFrom(t, w)) == multiset(t)
    decreases |t| - w
  {
    MergePassPermutation(t, w);
    if 2 * w < |t| {
      PassesFromPermutation(MergePass(t, w), 2 * w);
    }
  }

  /** `h` sorts no later than any element of `s`. */
  predicate LeAll(h: Range, s: seq<Range>)
  {
    forall i :: 0 <= i < |s| ==> LexLe(h, s[i])
  }

  lemma LeAllPermutation(h: Range, a: seq<Range>, b: seq<Range>, r: seq<Range>)
    requires LeAll(h, a) && LeAll(h, b)
    requires multiset(r) == multiset(a) + multiset(b)
    ensures LeAll(h, r)
  {
    forall i | 0 <= i < |r| ensures LexLe(h, r[i]) {
      assert r[i] in multiset(r);
      if r[i] in multiset(a) {
        var k :| 0 <= k < |a| && a[k] == r[i];
      } else {
        var k :| 0 <= k < |b| && b[k] == r[i];
      }
    }
  }

  lemma SortedCons(h: Range, rest: seq<Range>)
    requires LexSorted(rest) && LeAll(h, rest)
    ensures LexSorted([h] + rest)
  {
    var r := [h] + rest;
    forall i, j | 0 <= i < j < |r| ensures LexLe(r[i], r[j]) {
      if i > 0 {
        assert r[i] == rest[i - 1] && r[j] == rest[j - 1];
      } else {
        assert r[j] == rest[j - 1];
      }
    }
  }

  lemma SortedHeadLeAll(h: Range, s: seq<Range>)
    requires LexSorted(s) && s != [] && LexLe(h, s[0])
    ensures LeAll(h, s)
  {
    forall i | 0 <= i < |s| ensures LexLe(h, s[i]) {
      if i > 0 { LexLeTransitive(h, s[0], s[i]); }
    }
  }

  lemma SortedTail(s: seq<Range>)
    requires LexSorted(s) && s != []
    ensures LexSorted(s[1..]) && LeAll(s[0], s[1..])
  {
    forall i | 0 <= i < |s| - 1 ensures LexLe(s[0], s[1..][i]) {
      assert s[1..][i] == s[i + 1];
    }
  }

  /** Merging two sorted runs gives a sorted run. */
  lemma {:induction false} MergeSeqSorted(a: seq<Range>, b: seq<Range>)
    requires LexSorted(a) && LexSorted(b)
    ensures LexSorted(MergeSeq(a, b))
    decreases |a| + |b|
  {
    if a != [] && b != [] {
      SortedTail(a);
      SortedTail(b);
      if LexLe(a[0], b[0]) {
        MergeSeqSorted(a[1..], b);
        MergeSeqPermutation(a[1..], b);
        SortedHeadLeAll(a[0], b);
        LeAllPermutation(a[0], a[1..], b, MergeSeq(a[1..], b));
        SortedCons(a[0], MergeSeq(a[1..], b));
      } else {
        MergeSeqSorted(a, b[1..]);
        MergeSeqPermutation(a, b[1..]);
        SortedHeadLeAll(b[0], a);
        LeAllPermutation(b[0], a, b[1..], MergeSeq(a, b[1..]));
        SortedCons(b[0], MergeSeq(a, b[1..]));
      }
    }
  }

  /** Blocks of one element are trivially sorted. */
  lemma {:induction false} RunsSortedSingletons(t: seq<Range>)
    ensures RunsSorted(t, 1)
    decreases |t|
  {
    if |t| > 1 {
      RunsSortedSingletons(t[1..]);
    }
  }

  /** A pass at width `w` turns sorted runs of `w` into sorted runs of `2w`. */
  lemma {:induction false} MergePassDoublesRuns(t: seq<Range>, w: nat)
    requires w >= 1 && RunsSorted(t, w)
    ensures RunsSorted(MergePass(t, w), 2 * w)
    decreases |t|
  {
    if |t| <= w {
    } else if |t| <= 2 * w {
      MergeSeqSorted(t[..w], t[w..]);
    } else {
      var u := t[w..];
      assert u[..w] == t[w..2 * w] && u[w..] == t[2 * w..];
      MergeSeqSorted(t[..w], t[w..2 * w]);
      MergePassDoublesRuns(t[2 * w..], w);
      var r := MergePass(t, w);
      assert r[..2 * w] == MergeSeq(t[..w], t[w..2 * w]);
      assert r[2 * w..] == MergePass(t[2 * w..], w);
    }
  }

  /** The passes from width `w` on sort a list made of sorted runs of `w`. */
  lemma {:induction false} PassesFromSorts(t: seq<Range>, w: nat)
    requires w >= 1 && RunsSorted(t, w)
    ensures LexSorted(PassesFrom(t, w))
    decreases |t| - w
  {
    var p := MergePass(t, w);
    MergePassDoublesRuns(t, w);
    if 2 * w < |t| {
      PassesFromSorts(p, 2 * w);
    }
  }

  /** The bottom-up sort from width 1 is the `(start, end)` sort of its input. */
  lemma PassesFromOneIsSort(t: seq<Range>)
    ensures PassesFrom(t, 1) == SortRanges(t)
  {
    RunsSortedSingletons(t);
    PassesFromSorts(t, 1);
    PassesFromPermutation(t, 1);
    SortedPermutationIsSort(t, PassesFrom(t, 1));
  }

  // ---------------------------------------------------------------------------
  // One block of a pass (BLOCK_SETUP, MERGE_READ_LEFT/RIGHT, MERGE_COMPARE,
  // MERGE_WRITE_*), proved against MergeSeq.

  /** The merge of `src[l..ll)` with `src[r..rl)` read by index, as the block
      FSM walks it: a half whose index has reached its limit is exhausted. */
  function MergeRange(src: seq<Range>, l: nat, ll: nat, r: nat, rl: nat): (m: seq<Range>)
    requires ll <= |src| && rl <= |src|
    ensures |m| == (if l < ll then ll - l else 0) + (if r < rl then rl - r else 0)
    decreases (if l < ll then ll - l else 0) + (if r < rl then rl - r else 0)
  {
    if l >= ll && r >= rl then []
    else if l >= ll then [src[r]] + MergeRange(src, l, ll, r + 1, rl)
    else if r >= rl then [src[l]] + MergeRange(src, l + 1, ll, r, rl)
    else if LexLe(src[l], src[r]) then [src[l]] + MergeRange(src, l + 1, ll, r, rl)
    else [src[r]] + MergeRange(src, l, ll, r + 1, rl)
  }

  /** Walking the halves by index is the merge of the two slices. */
  lemma {:induction false} MergeRangeIsMergeSeq(src: seq<Range>, l: nat, ll: nat, r: nat, rl: nat)
    requires l <= ll <= |src| && r <= rl <= |src|
    ensures MergeRange(src, l, ll, r, rl) == MergeSeq(src[l..ll], src[r..rl])
    decreases (ll - l) + (rl - r)
  {
    var a, b := src[l..ll], src[r..rl];
    if l < ll && (r >= rl || LexLe(src[l], src[r])) {
      MergeRangeIsMergeSeq(src, l + 1, ll, r, rl);
      assert a[0] == src[l] && a[1..] == src[l + 1..ll];
      if r >= rl {
        var e: seq<Range> := [];
        assert b == e;
        assert MergeSeq(a[1..], e) == a[1..];
        assert a == [a[0]] + a[1..];
      }
    } else if r < rl {
      MergeRangeIsMergeSeq(src, l, ll, r + 1, rl);
      assert b[0] == src[r] && b[1..] == src[r + 1..rl];
      if l >= ll {
        assert b == [b[0]] + b[1..];
      }
    }
  }

  /** The walk's first element is the head the FSM takes next. */
  lemma MergeRangeHead(src: seq<Range>, l: nat, ll: nat, r: nat, rl: nat, takeLeft: bool)
    requires ll <= |src| && rl <= |src| && (l < ll || r < rl)
    requires takeLeft == (l < ll && (r >= rl || LexLe(src[l], src[r])))
    ensures takeLeft ==> MergeRange(src, l, ll, r, rl) == [src[l]] + MergeRange(src, l + 1, ll, r, rl)
    ensures !takeLeft ==> MergeRange(src, l, ll, r, rl) == [src[r]] + MergeRange(src, l, ll, r + 1, rl)
  {
  }

  /** One element more of the block merge: the head taken is appended to
      what was emitted, and the walk goes on from the advanced index. */
  lemma MergeAdvance(src: seq<Range>, l: nat, ll: nat, r: nat, rl: nat, takeLeft: bool,
                     emitted: seq<Range>, whole: seq<Range>)
    requires ll <= |src| && rl <= |src| && (l < ll || r < rl)
    requires takeLeft == (l < ll && (r >= rl || LexLe(src[l], src[r])))
    requires emitted + MergeRange(src, l, ll, r, rl) == whole
    ensures takeLeft ==> (emitted + [src[l]]) + MergeRange(src, l + 1, ll, r, rl) == whole
    ensures !takeLeft ==> (emitted + [src[r]]) + MergeRange(src, l, ll, r + 1, rl) == whole
  {
    MergeRangeHead(src, l, ll, r, rl, takeLeft);
    var x := if takeLeft then src[l] else src[r];
    var next := if takeLeft then MergeRange(src, l + 1, ll, r, rl) else MergeRange(src, l, ll, r + 1, rl);
    assert MergeRange(src, l, ll, r, rl) == [x] + next;
    assert (emitted + [x]) + next == emitted + ([x] + next);
  }

  /** With the right index past its limit, the walk copies the left half. */
  lemma {:induction false} MergeRangeCopiesLeft(src: seq<Range>, l: nat, ll: nat, r: nat, rl: nat)
    requires l <= ll <= |src| && rl <= |src| && r >= rl
    ensures MergeRange(src, l, ll, r, rl) == src[l..ll]
    decreases ll - l
  {
    if l < ll {
      MergeRangeCopiesLeft(src, l + 1, ll, r, rl);
    }
  }

  /** `s` with `e` written over it from index `b` on. */
  function Overlay(s: seq<Range>, b: nat, e: seq<Range>): (r: seq<Range>)
    requires b + |e| <= |s|
    ensures |r| == |s|
  {
    s[..b] + e + s[b + |e|..]
  }

  lemma OverlayExtend(s: seq<Range>, b: nat, e: seq<Range>, x: Range)
    requires b + |e| < |s|
    ensures Overlay(s, b, e)[b + |e| := x] == Overlay(s, b, e + [x])
  {
  }

  /** One element of a block merge (MERGE_READ_LEFT through MERGE_WRITE_*):
      with the left half exhausted the right head is copied, with the right
      half exhausted the left head is copied, otherwise the left head is taken
      iff it sorts no later than the right head.  The element is written at
      `outIdx` and exactly one of the two read indices advances. */
  method MergeStep(src: seq<Range>, dst: array<Range>, leftIdx: nat, rightIdx: nat, outIdx: nat,
                   leftLimit: nat, rightLimit: nat)
    returns (takeLeft: bool, nextLeftIdx: nat, nextRightIdx: nat)
    requires leftIdx < leftLimit || rightIdx < rightLimit
    requires leftLimit <= |src| && rightLimit <= |src| && outIdx < dst.Length
    modifies dst
    ensures takeLeft == (leftIdx < leftLimit && (rightIdx >= rightLimit || LexLe(src[leftIdx], src[rightIdx])))
    ensures nextLeftIdx == (if takeLeft then leftIdx + 1 else leftIdx)
    ensures nextRightIdx == (if takeLeft then rightIdx else rightIdx + 1)
    ensures dst[..] == old(dst[..])[outIdx := if takeLeft then src[leftIdx] else src[rightIdx]]
  {
    if leftIdx >= leftLimit {
      takeLeft := false;
    } else if rightIdx >= rightLimit {
      takeLeft := true;
    } else {
      takeLeft := LexLe(src[leftIdx], src[rightIdx]);
    }
    if takeLeft {
      dst[outIdx] := src[leftIdx];
      nextLeftIdx, nextRightIdx := leftIdx + 1, rightIdx;
    } else {
      dst[outIdx] := src[rightIdx];
      nextLeftIdx, nextRightIdx := leftIdx, rightIdx + 1;
    }
  }

  /** What the block FSM writes for the block starting at `bs`: the left half
      ends at `min(bs+w, n)`, the right half starts at `bs+w` and ends at
      `min(bs+2w, n)`. */
  function BlockMerge(src: seq<Range>, bs: nat, w: nat, n: nat): (m: seq<Range>)
    requires n <= |src|
    ensures bs <= n ==> |m| == Min(bs + 2 * w, n) - bs
  {
    MergeRange(src, bs, Min(bs + w, n), bs + w, Min(bs + 2 * w, n))
  }

  /** The block FSM's output is the merge of the block's two runs. */
  lemma BlockMergeIsMergeSeq(src: seq<Range>, bs: nat, w: nat, n: nat)
    requires bs <= n <= |src|
    ensures BlockMerge(src, bs, w, n) == MergeSeq(src[bs..Min(bs + w, n)], src[Min(bs + w, n)..Min(bs + 2 * w, n)])
  {
    var ll, rl := Min(bs + w, n), Min(bs + 2 * w, n);
    if bs + w <= n {
      MergeRangeIsMergeSeq(src, bs, ll, bs + w, rl);
    } else {
      MergeRangeCopiesLeft(src, bs, ll, bs + w, rl);
      assert src[ll..rl] == [];
    }
  }

  /** Merges `src[bs..min(bs+w, n))` with `src[bs+w..min(bs+2w, n))` into
      `dst[bs..min(bs+2w, n))`; the block ends only when both halves are
      exhausted.  A block with no right half is copied element by element. */
  method MergeBlock(src: seq<Range>, dst: array<Range>, blockStart: nat, mergeWidth: nat, numRanges: nat)
    requires blockStart <= numRanges <= |src| && numRanges <= dst.Length
    modifies dst
    ensures dst[..] == Overlay(old(dst[..]), blockStart, BlockMerge(src, blockStart, mergeWidth, numRanges))
  {
    var leftIdx: nat, rightIdx: nat, outIdx: nat := blockStart, blockStart + mergeWidth, blockStart;
    var leftLimit := if blockStart + mergeWidth < numRanges then blockStart + mergeWidth else numRanges;
    var rightLimit := if blockStart + 2 * mergeWidth < numRanges then blockStart + 2 * mergeWidth else numRanges;
    ghost var whole := MergeRange(src, leftIdx, leftLimit, rightIdx, rightLimit);
    ghost var emitted: seq<Range> := [];
    ghost var initial := dst[..];
    assert whole == BlockMerge(src, blockStart, mergeWidth, numRanges);
    assert Overlay(initial, blockStart, emitted) == initial;
    while !(leftIdx >= leftLimit && rightIdx >= rightLimit)
      invariant outIdx == blockStart + |emitted|
      invariant emitted + MergeRange(src, leftIdx, leftLimit, rightIdx, rightLimit) == whole
      invariant outIdx + |MergeRange(src, leftIdx, leftLimit, rightIdx, rightLimit)| == rightLimit
      invariant dst[..] == Overlay(initial, blockStart, emitted)
      decreases |MergeRange(src, leftIdx, leftLimit, rightIdx, rightLimit)|
    {
      var takeLeft, nextLeftIdx, nextRightIdx := MergeStep(src, dst, leftIdx, rightIdx, outIdx, leftLimit, rightLimit);
      ghost var x := if takeLeft then src[leftIdx] else src[rightIdx];
      MergeAdvance(src, leftIdx, leftLimit, rightIdx, rightLimit, takeLeft, emitted, whole);
      OverlayExtend(initial, blockStart, emitted, x);
      leftIdx, rightIdx, outIdx, emitted := nextLeftIdx, nextRightIdx, outIdx + 1, emitted + [x];
    }
    assert MergeRange(src, leftIdx, leftLimit, rightIdx, rightLimit) == [];
    assert emitted + [] == emitted;
  }

  /** A pass starts with the merge of the first block pair. */
  lemma MergePassFront(u: seq<Range>, w: nat, m1: nat, m2: nat)
    requires w >= 1 && m1 == Min(w, |u|) && m2 == Min(2 * w, |u|)
    ensures MergePass(u, w) == MergeSeq(u[..m1], u[m1..m2]) + MergePass(u[m2..], w)
  {
    if |u| <= w {
      assert m1 == |u| && m2 == |u|;
      ShortPassFront(u, w);
    } else if |u| <= 2 * w {
      assert m1 == w && m2 == |u|;
      LastPairFront(u, w);
    } else {
      assert m1 == w && m2 == 2 * w;
      assert MergePass(u, w) == MergeSeq(u[..w], u[w..2 * w]) + MergePass(u[2 * w..], w);
    }
  }

  /** A single run is left as it is. */
  lemma ShortPassFront(u: seq<Range>, w: nat)
    requires 1 <= w && |u| <= w
    ensures MergePass(u, w) == MergeSeq(u[..|u|], u[|u|..|u|]) + MergePass(u[|u|..], w)
  {
    var e: seq<Range> := [];
    assert u[..|u|] == u && u[|u|..|u|] == e && u[|u|..] == e;
    assert MergeSeq(u, e) == u;
    assert MergePass(e, w) == e;
    assert u + e == u;
  }

  /** The last pair of runs is merged and nothing follows. */
  lemma LastPairFront(u: seq<Range>, w: nat)
    requires 1 <= w < |u| <= 2 * w
    ensures MergePass(u, w) == MergeSeq(u[..w], u[w..|u|]) + MergePass(u[|u|..], w)
  {
    var e: seq<Range> := [];
    assert u[w..|u|] == u[w..] && u[|u|..] == e;
    assert MergePass(e, w) == e;
    assert MergeSeq(u[..w], u[w..]) + e == MergeSeq(u[..w], u[w..]);
  }

  lemma SlicesOfPrefix(s: seq<Range>, n: nat, a: nat, b: nat, c: nat)
    requires a <= b <= c <= n <= |s|
    ensures s[..n][a..b] == s[a..b] && s[..n][b..c] == s[b..c]
  {
  }

  lemma SuffixSlices(t: seq<Range>, bs: nat, ll: nat, rl: nat)
    requires bs <= ll <= rl <= |t|
    ensures t[bs..][..ll - bs] == t[bs..ll] && t[bs..][ll - bs..rl - bs] == t[ll..rl] && t[bs..][rl - bs..] == t[rl..]
  {
  }

  /** After the block at `bs`, the finished prefix extends to `min(bs+2w, n)`. */
  lemma PassAdvances(t: seq<Range>, w: nat, bs: nat)
    requires w >= 1 && bs <= |t|
    ensures var ll, rl := Min(bs + w, |t|), Min(bs + 2 * w, |t|);
            MergePass(t[bs..], w) == MergeSeq(t[bs..ll], t[ll..rl]) + MergePass(t[rl..], w)
  {
    var u := t[bs..];
    var ll, rl := Min(bs + w, |t|), Min(bs + 2 * w, |t|);
    assert ll - bs == Min(w, |u|) && rl - bs == Min(2 * w, |u|);
    SuffixSlices(t, bs, ll, rl);
    MergePassFront(u, w, ll - bs, rl - bs);
    assert u[..ll - bs] == t[bs..ll] && u[ll - bs..rl - bs] == t[ll..rl] && u[rl - bs..] == t[rl..];
  }

  lemma OverlayPrefix(s: seq<Range>, e: seq<Range>)
    requires |e| <= |s|
    ensures Overlay(s, 0, e)[..|e|] == e && Overlay(s, 0, e)[|e|..] == s[|e|..]
  {
  }

  lemma OverlayTwice(s: seq<Range>, d: seq<Range>, e: seq<Range>)
    requires |d| + |e| <= |s|
    ensures Overlay(Overlay(s, 0, d), |d|, e) == Overlay(s, 0, d + e)
  {
  }

  /** One block of a pass: the block's merge extends the finished part, and
      the rest of the pass is the pass over what follows the block. */
  lemma PassStep(src: seq<Range>, n: nat, w: nat, bs: nat, finished: seq<Range>)
    requires w >= 1 && bs <= n <= |src| && |finished| == bs
    requires finished + MergePass(src[..n][bs..], w) == MergePass(src[..n], w)
    ensures var next := finished + BlockMerge(src, bs, w, n);
            next + MergePass(src[..n][Min(bs + 2 * w, n)..], w) == MergePass(src[..n], w)
  {
    var t := src[..n];
    var ll, rl := Min(bs + w, n), Min(bs + 2 * w, n);
    PassAdvances(t, w, bs);
    BlockMergeIsMergeSeq(src, bs, w, n);
    SlicesOfPrefix(src, n, bs, ll, rl);
    var block := BlockMerge(src, bs, w, n);
    var rest := MergePass(t[rl..], w);
    assert finished + block + rest == finished + (block + rest);
  }

  /** BLOCK_SETUP through BLOCK_NEXT for one block: the block's merge is
      written right after the `finished` part of the pass, which grows to
      `min(bs+2w, n)` elements. */
  method PassBlock(src: seq<Range>, dst: array<Range>, mergeWidth: nat, numRanges: nat, blockStart: nat,
                   ghost initial: seq<Range>, ghost finished: seq<Range>)
    returns (ghost finishedNext: seq<Range>)
    requires mergeWidth >= 1 && blockStart <= numRanges <= |src| && numRanges <= dst.Length == |initial|
    requires |finished| == blockStart
    requires finished + MergePass(src[..numRanges][blockStart..], mergeWidth) == MergePass(src[..numRanges], mergeWidth)
    requires dst[..] == Overlay(initial, 0, finished)
    modifies dst
    ensures |finishedNext| == Min(blockStart + 2 * mergeWidth, numRanges)
    ensures finishedNext + MergePass(src[..numRanges][|finishedNext|..], mergeWidth) == MergePass(src[..numRanges], mergeWidth)
    ensures dst[..] == Overlay(initial, 0, finishedNext)
  {
    PassStep(src, numRanges, mergeWidth, blockStart, finished);
    MergeBlock(src, dst, blockStart, mergeWidth, numRanges);
    OverlayTwice(initial, finished, BlockMerge(src, blockStart, mergeWidth, numRanges));
    finishedNext := finished + BlockMerge(src, blockStart, mergeWidth, numRanges);
  }

  lemma PassComplete(t: seq<Range>, w: nat, finished: seq<Range>)
    requires w >= 1 && |finished| == |t|
    requires finished + MergePass(t[|finished|..], w) == MergePass(t, w)
    ensures finished == MergePass(t, w)
  {
    assert t[|finished|..] == [];
    assert MergePass([], w) == [];
  }

  /** The pass over blocks `bs = 0, 2w, 4w, ...` (PASS_START, BLOCK_SETUP,
      BLOCK_NEXT): every pass merges at least one block, and it ends once
      `bs + 2w >= n`.  The source bank is only read during a pass. */
  method MergePassBanks(src: seq<Range>, dst: array<Range>, mergeWidth: nat, numRanges: nat)
    requires mergeWidth >= 1
    requires numRanges <= |src| && numRanges <= dst.Length
    modifies dst
    ensures dst[..] == Overlay(old(dst[..]), 0, MergePass(src[..numRanges], mergeWidth))
  {
    var blockStart := 0;
    ghost var initial := dst[..];
    ghost var finished: seq<Range> := [];
    assert Overlay(initial, 0, finished) == initial;
    assert src[..numRanges][0..] == src[..numRanges];
    while true
      invariant blockStart <= numRanges && |finished| == blockStart
      invariant finished + MergePass(src[..numRanges][blockStart..], mergeWidth) == MergePass(src[..numRanges], mergeWidth)
      invariant dst[..] == Overlay(initial, 0, finished)
      decreases numRanges - blockStart
    {
      finished := PassBlock(src, dst, mergeWidth, numRanges, blockStart, initial, finished);
      if blockStart + 2 * mergeWidth >= numRanges {
        assert |finished| == numRanges;
        PassComplete(src[..numRanges], mergeWidth, finished);
        return;
      }
      blockStart := blockStart + 2 * mergeWidth;
    }
  }

  // ---------------------------------------------------------------------------

  class MergeSortBram {
    const maxRanges: nat
    const bankA: array<Range>
    const bankB: array<Range>
    var numRanges: nat
    var inputIdx: nat
    var mergeWidth: nat
    var useAAsSource: bool
    var busy: bool
    var done: bool

    predicate Valid()
      reads this
    {
      bankA.Length == maxRanges && bankB.Length == maxRanges && bankA != bankB && mergeWidth >= 1
    }

    /** The width of `input_idx`, `num_ranges` and the `count_in` port, all
        declared `range(max_ranges + 1)`. */
    function IndexWidth(): nat
      reads this
    {
      RangeWidth(maxRanges + 1)
    }

    constructor (maxRanges: nat)
      ensures Valid() && fresh(bankA) && fresh(bankB)
      ensures this.maxRanges == maxRanges && inputIdx == 0 && !busy && !done
    {
      this.maxRanges := maxRanges;
      bankA := new Range[maxRanges](_ => Range(0, 0));
      bankB := new Range[maxRanges](_ => Range(0, 0));
      numRanges, inputIdx, mergeWidth := 0, 0, 1;
      useAAsSource, busy, done := true, false, false;
    }

    /** One IDLE cycle.  With `validIn` the range goes through bank A's
        write port at `input_idx` and the index counts up, wrapping at its
        width; without it the index returns to 0.  The port's address is
        `input_idx` cut to the bank's address width, so past `max_ranges`
        a power-of-two bank is overwritten from slot 0 and any other bank
        drops the write.  `start` latches `countIn` (at the port's width),
        sets the width to 1 with bank A as source, and leaves IDLE. */
    method IdleCycle(validIn: bool, r: Range, start: bool, countIn: nat)
      requires Valid() && !busy
      modifies this, bankA
      ensures Valid()
      ensures bankA[..] == if validIn then PortWrite(old(bankA[..]), old(inputIdx), r) else old(bankA[..])
      ensures inputIdx == if validIn then Increment(old(inputIdx), IndexWidth()) else 0
      ensures !done && busy == start
      ensures start ==> numRanges == countIn % Pow2(IndexWidth()) && mergeWidth == 1 && useAAsSource
      ensures !start ==> numRanges == old(numRanges) && mergeWidth == old(mergeWidth) && useAAsSource == old(useAAsSource)
    {
      done := false;
      if validIn {
        var p := Pow2(RangeWidth(bankA.Length));
        ModRange(inputIdx, p);
        if inputIdx % p < bankA.Length {
          bankA[inputIdx % p] := r;
        }
        inputIdx := Increment(inputIdx, IndexWidth());
      } else {
        inputIdx := 0;
      }
      if start {
        numRanges, mergeWidth, useAAsSource := countIn % Pow2(IndexWidth()), 1, true;
      }
      busy := start;
    }

    /** Loading below the capacity: the range lands at the index, which
        moves to the next slot. */
    lemma LoadBelowCapacity(bank: seq<Range>, idx: nat, r: Range)
      requires |bank| == maxRanges && idx < maxRanges
      ensures PortWrite(bank, idx, r) == bank[idx := r]
      ensures Increment(idx, IndexWidth()) == idx + 1
    {
    }

    /** The bank a pass reads. */
    function Source(): array<Range>
      reads this
    {
      if useAAsSource then bankA else bankB
    }

    /** The bank a pass writes, and the one the result is streamed from. */
    function Dest(): array<Range>
      reads this
    {
      if useAAsSource then bankB else bankA
    }

    /** PASS_START through BLOCK_NEXT: one pass writes the first `numRanges`
        entries of the destination bank with the pass at the current width
        over the source bank; nothing else changes. */
    method Pass()
      requires Valid() && numRanges <= maxRanges
      modifies Dest()
      ensures Dest()[..numRanges] == MergePass(old(Source()[..numRanges]), mergeWidth)
      ensures Dest()[numRanges..] == old(Dest()[numRanges..])
    {
      ghost var before := Dest()[..];
      MergePassBanks(Source()[..], Dest(), mergeWidth, numRanges);
      assert Source()[..][..numRanges] == Source()[..numRanges];
      OverlayPrefix(before, MergePass(Source()[..numRanges], mergeWidth));
    }

    /** The passes: from width 1 with bank A as source, a pass is made, and
        PASS_END doubles the width and swaps the banks unless `2w >= n`.  The
        bank the last pass wrote holds the bottom-up sort of bank A's prefix. */
    method RunPasses()
      requires Valid() && numRanges <= maxRanges && mergeWidth == 1 && useAAsSource
      modifies this`mergeWidth, this`useAAsSource, bankA, bankB
      ensures Valid()
      ensures Dest()[..numRanges] == PassesFrom(old(bankA[..numRanges]), 1)
      ensures bankA[numRanges..] == old(bankA[numRanges..]) && bankB[numRanges..] == old(bankB[numRanges..])
      ensures 2 * mergeWidth >= numRanges
    {
      ghost var t := bankA[..numRanges];
      while true
        invariant Valid() && numRanges <= maxRanges
        invariant PassesFrom(Source()[..numRanges], mergeWidth) == PassesFrom(t, 1)
        invariant bankA[numRanges..] == old(bankA[numRanges..]) && bankB[numRanges..] == old(bankB[numRanges..])
        decreases numRanges - mergeWidth
      {
        ghost var from, w := Source()[..numRanges], mergeWidth;
        Pass();
        ghost var written := Dest()[..numRanges];
        if 2 * mergeWidth >= numRanges {
          return;
        }
        mergeWidth, useAAsSource := 2 * mergeWidth, !useAAsSource;
        assert Source()[..numRanges] == written == MergePass(from, w);
      }
    }

    /** OUTPUT_START, OUTPUT_READ, OUTPUT_EMIT: the first `numRanges` entries
        of the bank the last pass wrote, in index order, then `done`. */
    method Stream() returns (out: seq<Range>)
      requires Valid() && numRanges <= maxRanges
      modifies this`done, this`busy
      ensures out == Dest()[..numRanges]
      ensures done && !busy
    {
      var dst := Dest();
      out := [];
      var outputIdx := 0;
      while outputIdx < numRanges
        invariant outputIdx <= numRanges && out == dst[..outputIdx]
      {
        out := out + [dst[outputIdx]];
        if outputIdx >= numRanges - 1 {
          break;
        }
        outputIdx := outputIdx + 1;
      }
      assert out == dst[..numRanges];
      done, busy := true, false;
    }

    /** Everything from PASS_START to the `done` pulse.  The stream is the
        `(start, end)` sort of the first `numRanges` entries of bank A. */
    method SortAndStream() returns (out: seq<Range>)
      requires Valid() && numRanges <= maxRanges && busy && mergeWidth == 1 && useAAsSource
      modifies this, bankA, bankB
      ensures Valid() && numRanges == old(numRanges)
      ensures out == SortRanges(old(bankA[..numRanges]))
      ensures LexSorted(out) && multiset(out) == multiset(old(bankA[..numRanges]))
      ensures Dest()[..numRanges] == out
      ensures bankA[numRanges..] == old(bankA[numRanges..]) && bankB[numRanges..] == old(bankB[numRanges..])
      ensures inputIdx == old(inputIdx)
      ensures done && !busy && 2 * mergeWidth >= numRanges
    {
      ghost var t := bankA[..numRanges];
      RunPasses();
      out := Stream();
      PassesFromOneIsSort(t);
      PassesFromPermutation(t, 1);
      SortRangesSorted(t);
    }
  }
}
