/**
 * hpx::inplace_merge: the two sorted halves `[first, middle)` and
 * `[middle, last)` of an array are merged in place. Small ranges go to the
 * sequential in-place merge; larger ones are split around a pivot taken from
 * the longer half, the blocks between the pivot and its bound in the other half
 * are rotated, and the two sides of the pivot are merged recursively (in the
 * source, the left side on another task and the right side on the calling one).
 */
module InplaceMerge {
  import opened Wrappers
  import opened MergeSpec
  import opened Writes
  import opened MergeAlgorithms

  /** Ranges of at most this many elements are merged sequentially. */
  const Threshold: nat := 65536

  /**
   * detail::sequential_rotate(first, middle, last): `[middle, last)` moves to
   * the front of `[first, last)` and `[first, middle)` follows it.
   */
  method SequentialRotate<T>(a: array<T>, first: nat, middle: nat, last: nat)
    requires first <= middle <= last <= a.Length
    modifies a
    ensures Overwritten(a[..], old(a[..]), first, last, old(a[middle..last]) + old(a[first..middle]))
  {
    var rotated := a[middle..last] + a[first..middle];
    assert rotated[0..|rotated|] == rotated;
    var _ := CopyRange(rotated, 0, |rotated|, a, first);
  }

  /** A rotation only reorders the elements of the range. */
  lemma RotatePermutation<T>(s: seq<T>, first: nat, middle: nat, last: nat)
    requires first <= middle <= last <= |s|
    ensures multiset(s[middle..last] + s[first..middle]) == multiset(s[first..last])
  {
    assert s[first..last] == s[first..middle] + s[middle..last];
  }

  /**
   * sequential_inplace_merge: the stable merge of `[first, middle)` and
   * `[middle, last)` replaces the range; `last` is returned. std::inplace_merge
   * is modelled by a sequential merge from copies of the two halves.
   */
  method SequentialInplaceMerge<T>(a: array<T>, first: nat, middle: nat, last: nat, key: T -> int)
    returns (r: nat)
    requires first <= middle <= last <= a.Length
    modifies a
    ensures r == last
    ensures Overwritten(a[..], old(a[..]), first, last, Merge(old(a[first..middle]), old(a[middle..last]), key))
  {
    var left := a[first..middle];
    var right := a[middle..last];
    assert left[0..|left|] == left && right[0..|right|] == right;
    var _, _, _ := SequentialMerge(left, 0, |left|, right, 0, |right|, a, first, key, false, None);
    r := last;
  }

  /** A slice of a sorted range is sorted. */
  lemma SortedSlice<T>(s: seq<T>, i: nat, j: nat, key: T -> int)
    requires i <= j <= |s| && Sorted(s, key)
    ensures Sorted(s[i..j], key)
  {
    forall x, y | 0 <= x < y < j - i ensures key(s[i..j][x]) <= key(s[i..j][y]) {
      assert s[i..j][x] == s[i + x] && s[i..j][y] == s[i + y];
    }
  }

  /**
   * A pivot `v` from the first range, with everything of the second range before
   * its lower bound (`r1`) below it and everything from the bound on (`r2`) not:
   * the merge is the merge of the parts before the pivot and the bound, the
   * pivot, and the merge of the parts after them.
   */
  lemma PivotFirstMerge<T>(l1: seq<T>, v: T, l2: seq<T>, r1: seq<T>, r2: seq<T>, key: T -> int)
    requires AllAtMost(l1, r2, key) && AllBelow(r1, [v] + l2, key)
    requires r2 != [] ==> key(v) <= key(r2[0])
    ensures Merge(l1 + ([v] + l2), r1 + r2, key) == Merge(l1, r1, key) + ([v] + Merge(l2, r2, key))
  {
    MergeSplit(l1, [v] + l2, r1, r2, key);
    MergeConsFirst(v, l2, r2, key);
  }

  /**
   * A pivot `v` from the second range, with everything of the first range before
   * its upper bound (`l1`) at most it and everything from the bound on (`l2`)
   * above it: the merge is the merge of the parts before the bound and the pivot,
   * the pivot, and the merge of the parts after them.
   */
  lemma PivotLastMerge<T>(l1: seq<T>, l2: seq<T>, r1: seq<T>, v: T, r2: seq<T>, key: T -> int)
    requires AllAtMost(l1, r2, key) && AllBelow(r1 + [v], l2, key) && AllAtMost(l1, [v], key)
    ensures Merge(l1 + l2, (r1 + [v]) + r2, key) == Merge(l1, r1, key) + ([v] + Merge(l2, r2, key))
  {
    MergeSplit(l1, l2, r1 + [v], r2, key);
    MergeSplit(l1, [], r1, [v], key);
    assert l1 + [] == l1;
    assert Merge([], [v], key) == [v];
    AppendAssoc(Merge(l1, r1, key), [v], Merge(l2, r2, key));
  }

  /**
   * The order facts around a pivot `s[p]` from the left half `s[lo..mid]` and
   * its lower bound `r` in the right half `q`: the four parts are sorted, the
   * part before the pivot is at most the part of `q` from the bound, and the part
   * of `q` before the bound is below the pivot and what follows it.
   */
  lemma PivotLeftOrder<T>(s: seq<T>, lo: nat, p: nat, mid: nat, hi: nat, key: T -> int, q: seq<T>, r: nat)
    requires lo <= p < mid <= hi <= |s| && q == s[mid..hi] && r <= |q|
    requires Sorted(s[lo..mid], key) && Sorted(q, key)
    requires forall i :: 0 <= i < r ==> Before(q[i], key, key(s[p]), false)
    requires forall i :: r <= i < |q| ==> !Before(q[i], key, key(s[p]), false)
    ensures Sorted(s[lo..p], key) && Sorted(q[..r], key) && Sorted(s[p + 1..mid], key) && Sorted(q[r..], key)
    ensures AllAtMost(s[lo..p], q[r..], key) && AllBelow(q[..r], [s[p]] + s[p + 1..mid], key)
    ensures q[r..] != [] ==> key(s[p]) <= key(q[r..][0])
  {
    var left := s[lo..mid];
    var v := s[p];
    var l1, l2, r1, r2 := s[lo..p], s[p + 1..mid], q[..r], q[r..];
    assert l1 == left[..p - lo] && l2 == left[p + 1 - lo..];
    SortedSlice(left, 0, p - lo, key);
    SortedSlice(left, p + 1 - lo, mid - lo, key);
    SortedSlice(q, 0, r, key);
    SortedSlice(q, r, |q|, key);
    forall i, j | 0 <= i < |l1| && 0 <= j < |r2| ensures key(l1[i]) <= key(r2[j]) {
      assert l1[i] == left[i] && v == left[p - lo];
      assert r2[j] == q[r + j];
    }
    forall i, j | 0 <= i < |r1| && 0 <= j < |[v] + l2| ensures key(r1[i]) < key(([v] + l2)[j]) {
      assert r1[i] == q[i];
      assert ([v] + l2)[j] == left[p - lo + j];
    }
    if r2 != [] {
      assert r2[0] == q[r];
    }
  }

  /**
   * The order facts around a pivot `s[p]` from the right half `s[mid..hi]` and
   * its upper bound `r` in the left half `q`: the four parts are sorted, the part
   * of `q` before the bound is at most the pivot and the part after it, and the
   * part before the pivot, with the pivot, is below the part of `q` from the
   * bound.
   */
  lemma PivotRightOrder<T>(s: seq<T>, lo: nat, mid: nat, p: nat, hi: nat, key: T -> int, q: seq<T>, r: nat)
    requires lo <= mid <= p < hi <= |s| && q == s[lo..mid] && r <= |q|
    requires Sorted(q, key) && Sorted(s[mid..hi], key)
    requires forall i :: 0 <= i < r ==> Before(q[i], key, key(s[p]), true)
    requires forall i :: r <= i < |q| ==> !Before(q[i], key, key(s[p]), true)
    ensures Sorted(q[..r], key) && Sorted(s[mid..p], key) && Sorted(q[r..], key) && Sorted(s[p + 1..hi], key)
    ensures AllAtMost(q[..r], s[p + 1..hi], key) && AllBelow(s[mid..p] + [s[p]], q[r..], key)
    ensures AllAtMost(q[..r], [s[p]], key)
  {
    var right := s[mid..hi];
    var v := s[p];
    var l1, l2, r1, r2 := q[..r], q[r..], s[mid..p], s[p + 1..hi];
    assert r1 == right[..p - mid] && r2 == right[p + 1 - mid..];
    SortedSlice(q, 0, r, key);
    SortedSlice(q, r, |q|, key);
    SortedSlice(right, 0, p - mid, key);
    SortedSlice(right, p + 1 - mid, hi - mid, key);
    forall i, j | 0 <= i < |l1| && 0 <= j < |r2| ensures key(l1[i]) <= key(r2[j]) {
      assert l1[i] == q[i] && v == right[p - mid];
      assert r2[j] == right[p + 1 - mid + j];
    }
    forall i, j | 0 <= i < |r1 + [v]| && 0 <= j < |l2| ensures key((r1 + [v])[i]) < key(l2[j]) {
      assert (r1 + [v])[i] == right[i];
      assert l2[j] == q[r + j];
    }
    forall i, j | 0 <= i < |l1| && 0 <= j < |[v]| ensures key(l1[i]) <= key([v][j]) {
      assert l1[i] == q[i];
    }
  }

  /** A range around position `p`: the part before it, the element, the part after it. */
  lemma PiecesAroundPivot<T>(s: seq<T>, lo: nat, p: nat, hi: nat)
    requires lo <= p < hi <= |s|
    ensures s[lo..hi] == s[lo..p] + ([s[p]] + s[p + 1..hi])
  {
  }

  /** The range `q = s[lo..hi]` cut at offset `r`, read back on `s`. */
  lemma PiecesAtBound<T>(s: seq<T>, lo: nat, hi: nat, q: seq<T>, r: nat, b: nat)
    requires lo <= hi <= |s| && q == s[lo..hi] && r <= |q| && b == lo + r
    ensures q[..r] == s[lo..b] && q[r..] == s[b..hi] && q == s[lo..b] + s[b..hi]
  {
  }

  /**
   * The split around a pivot from the left half, on the original contents: the
   * merge of the halves is the merge of the parts before the pivot and its
   * bound, the pivot, and the merge of the parts after them.
   */
  lemma PivotLeftSplit<T>(s: seq<T>, lo: nat, p: nat, mid: nat, b: nat, hi: nat, key: T -> int, q: seq<T>, r: nat)
    requires lo <= p < mid <= hi <= |s| && q == s[mid..hi] && r <= |q| && b == mid + r
    requires Sorted(s[lo..mid], key) && Sorted(q, key)
    requires forall i :: 0 <= i < r ==> Before(q[i], key, key(s[p]), false)
    requires forall i :: r <= i < |q| ==> !Before(q[i], key, key(s[p]), false)
    ensures Sorted(s[lo..p], key) && Sorted(s[mid..b], key)
    ensures Sorted(s[p + 1..mid], key) && Sorted(s[b..hi], key)
    ensures Merge(s[lo..mid], q, key)
            == Merge(s[lo..p], s[mid..b], key) + ([s[p]] + Merge(s[p + 1..mid], s[b..hi], key))
  {
    PivotLeftOrder(s, lo, p, mid, hi, key, q, r);
    PiecesAroundPivot(s, lo, p, mid);
    PiecesAtBound(s, mid, hi, q, r, b);
    PivotFirstMerge(s[lo..p], s[p], s[p + 1..mid], s[mid..b], s[b..hi], key);
  }

  /**
   * The split around a pivot from the right half, on the original contents: the
   * merge of the halves is the merge of the parts before the bound and the
   * pivot, the pivot, and the merge of the parts after them.
   */
  lemma PivotRightSplit<T>(s: seq<T>, lo: nat, b: nat, mid: nat, p: nat, n: nat, hi: nat, key: T -> int, q: seq<T>, r: nat)
    requires lo <= mid <= p < hi <= |s| && q == s[lo..mid] && r <= |q| && b == lo + r && n == p + 1
    requires Sorted(q, key) && Sorted(s[mid..hi], key)
    requires forall i :: 0 <= i < r ==> Before(q[i], key, key(s[p]), true)
    requires forall i :: r <= i < |q| ==> !Before(q[i], key, key(s[p]), true)
    ensures Sorted(s[lo..b], key) && Sorted(s[mid..p], key)
    ensures Sorted(s[b..mid], key) && Sorted(s[n..hi], key)
    ensures Merge(q, s[mid..hi], key)
            == Merge(s[lo..b], s[mid..p], key) + ([s[p]] + Merge(s[b..mid], s[n..hi], key))
  {
    PivotRightOrder(s, lo, mid, p, hi, key, q, r);
    PiecesAtBound(s, lo, mid, q, r, b);
    PiecesAroundPivot(s, mid, p, hi);
    AppendAssoc(s[mid..p], [s[p]], s[p + 1..hi]);
    PivotLastMerge(s[lo..b], s[b..mid], s[mid..p], s[p], s[p + 1..hi], key);
  }

  /**
   * After rotating `[f, l)` at `m` with `f < m`: the part before `f` and the part
   * from `l` on are unchanged, `pre[m..l]` comes first and the old `pre[f]` sits
   * right after it at `t`, followed by `pre[f + 1..m]`.
   */
  lemma RotatedPivotFirst<T>(pre: seq<T>, cur: seq<T>, lo: nat, f: nat, m: nat, l: nat, t: nat, hi: nat)
    requires lo <= f < m <= l <= hi <= |pre| && t == f + (l - m)
    requires Overwritten(cur, pre, f, l, pre[m..l] + pre[f..m])
    ensures cur[lo..f] == pre[lo..f] && cur[f..t] == pre[m..l]
    ensures cur[t] == pre[f] && cur[t + 1..l] == pre[f + 1..m]
    ensures cur[l..hi] == pre[l..hi]
  {
    var c := pre[m..l] + pre[f..m];
    assert cur[f..l] == c;
    assert c[..l - m] == pre[m..l] && c[l - m] == pre[f] && c[l - m + 1..] == pre[f + 1..m];
    assert cur[f..t] == cur[f..l][..l - m];
    assert cur[t + 1..l] == cur[f..l][l - m + 1..];
  }

  /**
   * After rotating `[f, p + 1)` at `m` with `m <= p`: the part before `f` and the
   * part from `p + 1` on are unchanged, `pre[m..p]` comes first, the old
   * `pre[p]` right after it at `t`, then `pre[f..m]`.
   */
  lemma RotatedPivotLast<T>(pre: seq<T>, cur: seq<T>, lo: nat, f: nat, m: nat, p: nat, n: nat, t: nat, hi: nat)
    requires lo <= f <= m <= p < hi <= |pre| && n == p + 1 && t == f + (p - m)
    requires Overwritten(cur, pre, f, n, pre[m..n] + pre[f..m])
    ensures cur[lo..f] == pre[lo..f] && cur[f..t] == pre[m..p]
    ensures cur[t] == pre[p] && cur[t + 1..n] == pre[f..m]
    ensures cur[n..hi] == pre[n..hi]
  {
    var c := pre[m..n] + pre[f..m];
    assert cur[f..n] == c;
    assert pre[m..n] == pre[m..p] + [pre[p]];
    assert c[..p - m] == pre[m..p] && c[p - m] == pre[p] && c[p - m + 1..] == pre[f..m];
    assert cur[f..t] == cur[f..n][..p - m];
    assert cur[t + 1..n] == cur[f..n][p - m + 1..];
  }

  /**
   * parallel_inplace_merge_helper: the two sorted halves of `[first, last)` are
   * replaced by their stable merge: sequentially up to the threshold, otherwise
   * around a pivot from the longer half (the left one on a tie).
   */
  method ParallelInplaceMergeHelper<T>(a: array<T>, first: nat, middle: nat, last: nat, key: T -> int)
    requires first <= middle <= last <= a.Length
    requires Sorted(a[first..middle], key) && Sorted(a[middle..last], key)
    modifies a
    ensures Overwritten(a[..], old(a[..]), first, last, Merge(old(a[first..middle]), old(a[middle..last]), key))
    decreases last - first, 2
  {
    var leftSize, rightSize := middle - first, last - middle;
    if leftSize + rightSize <= Threshold {
      var _ := SequentialInplaceMerge(a, first, middle, last, key);
    } else if leftSize >= rightSize {
      assert leftSize >= 3;
      MergeAroundLeftPivot(a, first, middle, last, key);
    } else {
      assert rightSize >= 3;
      MergeAroundRightPivot(a, first, middle, last, key);
    }
  }

  /**
   * The branch of parallel_inplace_merge_helper for a left half at least as
   * long as the right one: the pivot is the middle of the left half, the
   * boundary its lower bound in the right half; rotating `[pivot, boundary)` at
   * `middle` puts the pivot at `target`, after everything below it.
   */
  method MergeAroundLeftPivot<T>(a: array<T>, first: nat, middle: nat, last: nat, key: T -> int)
    requires first < middle <= last <= a.Length
    requires Sorted(a[first..middle], key) && Sorted(a[middle..last], key)
    modifies a
    ensures Overwritten(a[..], old(a[..]), first, last, Merge(old(a[first..middle]), old(a[middle..last]), key))
    decreases last - first, 1
  {
    ghost var s := a[..];
    var pivot := first + (middle - first) / 2;
    var q := a[middle..last];
    var r := FindBound(q, 0, |q|, key(a[pivot]), key, false);
    var boundary := middle + r;
    var target := pivot + (boundary - middle);
    PivotLeftSplit(s, first, pivot, middle, boundary, last, key, q, r);
    SequentialRotate(a, pivot, middle, boundary);
    ghost var s1 := a[..];
    RotatedPivotFirst(s, s1, first, pivot, middle, boundary, target, last);
    MergeSides(a, first, pivot, target, boundary, last, key);
    PivotDone(s, s1, a[..], first, pivot, target, boundary, last, pivot, boundary, s[middle..boundary] + s[pivot..middle],
              s[first..pivot], s[middle..boundary], s[pivot], s[pivot + 1..middle], s[boundary..last],
              Merge(s[first..middle], q, key), key);
  }

  /**
   * The branch of parallel_inplace_merge_helper for a right half longer than
   * the left one: the pivot is the middle of the right half, the boundary its
   * upper bound in the left half; rotating `[boundary, pivot + 1)` at `middle`
   * puts the pivot at `target`, after everything at most it.
   */
  method MergeAroundRightPivot<T>(a: array<T>, first: nat, middle: nat, last: nat, key: T -> int)
    requires first <= middle < last <= a.Length
    requires Sorted(a[first..middle], key) && Sorted(a[middle..last], key)
    modifies a
    ensures Overwritten(a[..], old(a[..]), first, last, Merge(old(a[first..middle]), old(a[middle..last]), key))
    decreases last - first, 1
  {
    ghost var s := a[..];
    var pivot := middle + (last - middle) / 2;
    var q := a[first..middle];
    var r := FindBound(q, 0, |q|, key(a[pivot]), key, true);
    var boundary := first + r;
    var target := boundary + (pivot - middle);
    var next := pivot + 1;
    PivotRightSplit(s, first, boundary, middle, pivot, next, last, key, q, r);
    SequentialRotate(a, boundary, middle, next);
    ghost var s1 := a[..];
    RotatedPivotLast(s, s1, first, boundary, middle, pivot, next, target, last);
    MergeSides(a, first, boundary, target, next, last, key);
    PivotDone(s, s1, a[..], first, boundary, target, next, last, boundary, next, s[middle..next] + s[boundary..middle],
              s[first..boundary], s[middle..pivot], s[pivot], s[boundary..middle], s[next..last],
              Merge(q, s[middle..last], key), key);
  }

  /**
   * Either branch from its steps: a rearrangement of `[lo1, hi1)` inside
   * `[first, last)` left the parts `l1`, `r1`, the pivot `v`, `l2`, `r2` at
   * `first`, `m1`, `t`, `t + 1`, `m2`; merging both sides of `t` then leaves
   * `whole`, the merge of the original halves split around the pivot.
   */
  lemma PivotDone<T>(s: seq<T>, s1: seq<T>, s3: seq<T>, first: nat, m1: nat, t: nat, m2: nat, last: nat,
                     lo1: nat, hi1: nat, c: seq<T>, l1: seq<T>, r1: seq<T>, v: T, l2: seq<T>, r2: seq<T>,
                     whole: seq<T>, key: T -> int)
    requires first <= m1 <= t < m2 <= last <= |s1| && first <= lo1 && hi1 <= last
    requires Overwritten(s1, s, lo1, hi1, c)
    requires s1[first..m1] == l1 && s1[m1..t] == r1 && s1[t] == v && s1[t + 1..m2] == l2 && s1[m2..last] == r2
    requires whole == Merge(l1, r1, key) + ([v] + Merge(l2, r2, key)) && |whole| == last - first
    requires Overwritten(s3, s1, first, last,
                         Merge(s1[first..m1], s1[m1..t], key) + ([s1[t]] + Merge(s1[t + 1..m2], s1[m2..last], key)))
    ensures Overwritten(s3, s, first, last, whole)
  {
    OverwrittenOver(s, s1, s3, lo1, hi1, c, first, last, whole);
  }

  /**
   * The two recursive calls of parallel_inplace_merge_helper after the
   * rotation: `[first, target)` holds two sorted runs split at `m1`, and so does
   * `[target + 1, last)` at `m2`; both sides are merged and the pivot at
   * `target` stays. The left side runs on another task in the source.
   */
  method MergeSides<T>(a: array<T>, first: nat, m1: nat, target: nat, m2: nat, last: nat, key: T -> int)
    requires first <= m1 <= target < m2 <= last <= a.Length
    requires Sorted(a[first..m1], key) && Sorted(a[m1..target], key)
    requires Sorted(a[target + 1..m2], key) && Sorted(a[m2..last], key)
    modifies a
    ensures Overwritten(a[..], old(a[..]), first, last,
                        Merge(old(a[first..m1]), old(a[m1..target]), key)
                        + ([old(a[target])] + Merge(old(a[target + 1..m2]), old(a[m2..last]), key)))
    decreases last - first, 0
  {
    ghost var s := a[..];
    ParallelInplaceMergeHelper(a, first, m1, target, key);
    ghost var s1 := a[..];
    OverwrittenOutside(s1, s, first, target, Merge(s[first..m1], s[m1..target], key), target + 1, m2);
    OverwrittenOutside(s1, s, first, target, Merge(s[first..m1], s[m1..target], key), m2, last);
    ParallelInplaceMergeHelper(a, target + 1, m2, last, key);
    OverwrittenAround(s, s1, a[..], first, target, last,
                      Merge(s[first..m1], s[m1..target], key), Merge(s[target + 1..m2], s[m2..last], key));
  }

  /**
   * parallel_inplace_merge: the helper on the whole range, returning `last`.
   */
  method ParallelInplaceMerge<T>(a: array<T>, first: nat, middle: nat, last: nat, key: T -> int)
    returns (r: nat)
    requires first <= middle <= last <= a.Length
    requires Sorted(a[first..middle], key) && Sorted(a[middle..last], key)
    modifies a
    ensures r == last
    ensures Overwritten(a[..], old(a[..]), first, last, Merge(old(a[first..middle]), old(a[middle..last]), key))
  {
    ParallelInplaceMergeHelper(a, first, middle, last, key);
    r := last;
  }
}
