/**
 * The merge algorithms of hpx::merge: the sequential merge helpers that walk both
 * input ranges writing to a destination, the sequential merge that copies the
 * tails, the binary searches that split the work, and the chunked parallel merge.
 *
 * Input ranges are read-only and given as sequences with an index range
 * `[first, last)` standing for the iterator pair; the destination is an array and
 * an output position in it. The comparison is `key(x) < key(y)`, as in MergeSpec.
 */
module MergeAlgorithms {
  import opened Wrappers
  import opened MergeSpec
  import opened Writes

  /** Splitting off the head of a suffix of `goal`. */
  lemma Uncons<T>(goal: seq<T>, i: nat, e: T, rest: seq<T>)
    requires i <= |goal| && goal[i..] == [e] + rest
    ensures i < |goal| && goal[i] == e && goal[i + 1..] == rest
  {
    assert goal[i..][0] == e;
    assert goal[i + 1..] == goal[i..][1..];
  }

  /** When the first range's element does not compare greater, the merge goes on with it. */
  lemma TakeFromFirst<T>(goal: seq<T>, o: nat, x: seq<T>, i: nat, mx: nat, y: seq<T>, j: nat, n: nat, key: T -> int)
    requires i < mx <= |x| && j < n <= |y| && !(key(y[j]) < key(x[i]))
    requires o <= |goal| && MergeFrom(x, i, mx, y, j, n, key) == goal[o..]
    ensures o < |goal| && goal[o] == x[i] && MergeFrom(x, i + 1, mx, y, j, n, key) == goal[o + 1..]
  {
    Uncons(goal, o, x[i], MergeFrom(x, i + 1, mx, y, j, n, key));
  }

  /** When the second range's element compares less, the merge goes on with it. */
  lemma TakeFromSecond<T>(goal: seq<T>, o: nat, x: seq<T>, i: nat, mx: nat, y: seq<T>, j: nat, n: nat, key: T -> int)
    requires i < mx <= |x| && j < n <= |y| && key(y[j]) < key(x[i])
    requires o <= |goal| && MergeFrom(x, i, mx, y, j, n, key) == goal[o..]
    ensures o < |goal| && goal[o] == y[j] && MergeFrom(x, i, mx, y, j + 1, n, key) == goal[o + 1..]
  {
    Uncons(goal, o, y[j], MergeFrom(x, i, mx, y, j + 1, n, key));
  }

  /**
   * The seed for the second projected value before the first element is read:
   * the default value of its type when the type has one (`dflt`), otherwise the
   * value it is seeded from.
   */
  function InitValue<V>(v: V, dflt: Option<V>): V
  {
    match dflt
    case Some(zero) => zero
    case None => v
  }

  /**
   * The helper for ranges of one value type without projection: each step
   * writes one element, the one of the second range only when it compares less,
   * and stops as soon as either range is exhausted.
   */
  method SequentialMergeHelper<T>(a1: seq<T>, first1: nat, last1: nat, a2: seq<T>, first2: nat, last2: nat,
                                  dest: array<T>, d: nat, key: T -> int)
    returns (in1: nat, in2: nat, out: nat)
    requires first1 <= last1 <= |a1| && first2 <= last2 <= |a2|
    requires d + (last1 - first1) + (last2 - first2) <= dest.Length
    modifies dest
    ensures first1 <= in1 <= last1 && first2 <= in2 <= last2
    ensures in1 == last1 || in2 == last2
    ensures out == d + (in1 - first1) + (in2 - first2)
    ensures Overwritten(dest[..], old(dest[..]), d, out, MergeFrom(a1, first1, last1, a2, first2, last2, key))
    ensures MergeFrom(a1, in1, last1, a2, in2, last2, key)
            == MergeFrom(a1, first1, last1, a2, first2, last2, key)[out - d..]
  {
    ghost var goal := MergeFrom(a1, first1, last1, a2, first2, last2, key);
    in1, in2, out := first1, first2, d;
    while in1 < last1 && in2 < last2
      invariant first1 <= in1 <= last1 && first2 <= in2 <= last2
      invariant out == d + (in1 - first1) + (in2 - first2)
      invariant Overwritten(dest[..], old(dest[..]), d, out, goal)
      invariant MergeFrom(a1, in1, last1, a2, in2, last2, key) == goal[out - d..]
      decreases (last1 - in1) + (last2 - in2)
    {
      var next1, next2 := in1 + 1, in2 + 1;
      var val1 := a1[in1];
      var val2 := a2[in2];
      if key(val2) < key(val1) {
        val1 := val2;
        in2 := next2;
      } else {
        in1 := next1;
      }
      Uncons(goal, out - d, val1, MergeFrom(a1, in1, last1, a2, in2, last2, key));
      dest[out] := val1;
      out := out + 1;
    }
  }

  /**
   * The helper with projections, and the one for ranges of two value types: it
   * keeps the last projected value of each range, first takes a run from the
   * second range while it compares less than the current element of the first,
   * then a run from the first range while the current element of the second does
   * not compare less, until either range is exhausted. `dflt` is what the
   * second projected value is seeded with, as InitValue describes; it is always
   * overwritten before it is read.
   */
  method SequentialMergeHelperProjected<T>(a1: seq<T>, first1: nat, last1: nat, a2: seq<T>, first2: nat, last2: nat,
                                           dest: array<T>, d: nat, key: T -> int, dflt: Option<int>)
    returns (in1: nat, in2: nat, out: nat)
    requires first1 <= last1 <= |a1| && first2 <= last2 <= |a2|
    requires d + (last1 - first1) + (last2 - first2) <= dest.Length
    modifies dest
    ensures first1 <= in1 <= last1 && first2 <= in2 <= last2
    ensures in1 == last1 || in2 == last2
    ensures out == d + (in1 - first1) + (in2 - first2)
    ensures Overwritten(dest[..], old(dest[..]), d, out, MergeFrom(a1, first1, last1, a2, first2, last2, key))
    ensures MergeFrom(a1, in1, last1, a2, in2, last2, key)
            == MergeFrom(a1, first1, last1, a2, first2, last2, key)[out - d..]
  {
    ghost var goal := MergeFrom(a1, first1, last1, a2, first2, last2, key);
    in1, in2, out := first1, first2, d;
    if in1 < last1 && in2 < last2 {
      var val1 := key(a1[in1]);
      var val2 := InitValue(key(a2[in2]), dflt);
      while true
        invariant first1 <= in1 < last1 && first2 <= in2 <= last2
        invariant val1 == key(a1[in1])
        invariant out == d + (in1 - first1) + (in2 - first2)
        invariant Overwritten(dest[..], old(dest[..]), d, out, goal)
        invariant MergeFrom(a1, in1, last1, a2, in2, last2, key) == goal[out - d..]
        decreases (last1 - in1) + (last2 - in2)
      {
        in2, out, val2 := RunFromSecond(a1, in1, last1, a2, in2, last2, dest, d, out, key, val1, val2, goal, old(dest[..]));
        if in2 == last2 {
          break;
        }
        in1, out, val1 := RunFromFirst(a1, in1, last1, a2, in2, last2, dest, d, out, key, val1, val2, goal, old(dest[..]));
        if in1 == last1 {
          break;
        }
      }
    }
  }

  /**
   * The first inner loop of the projected helper: elements of the second range
   * are written while their projection compares less than `val1`, the
   * projection of the current element of the first range.
   */
  method RunFromSecond<T>(a1: seq<T>, in1: nat, last1: nat, a2: seq<T>, in2: nat, last2: nat,
                          dest: array<T>, d: nat, out: nat, key: T -> int, val1: int, val2: int,
                          ghost goal: seq<T>, ghost pre: seq<T>)
    returns (next2: nat, nextOut: nat, last2Val: int)
    requires in1 < last1 <= |a1| && in2 <= last2 <= |a2| && val1 == key(a1[in1])
    requires d <= out && d + |goal| <= dest.Length && out - d <= |goal|
    requires Overwritten(dest[..], pre, d, out, goal)
    requires MergeFrom(a1, in1, last1, a2, in2, last2, key) == goal[out - d..]
    modifies dest
    ensures in2 <= next2 <= last2 && nextOut == out + (next2 - in2)
    ensures Overwritten(dest[..], pre, d, nextOut, goal)
    ensures MergeFrom(a1, in1, last1, a2, next2, last2, key) == goal[nextOut - d..]
    ensures next2 < last2 ==> last2Val == key(a2[next2]) && !(last2Val < val1)
  {
    next2, nextOut, last2Val := in2, out, val2;
    while next2 < last2
      invariant in2 <= next2 <= last2 && nextOut == out + (next2 - in2)
      invariant Overwritten(dest[..], pre, d, nextOut, goal)
      invariant MergeFrom(a1, in1, last1, a2, next2, last2, key) == goal[nextOut - d..]
    {
      var elem2 := a2[next2];
      last2Val := key(elem2);
      if last2Val < val1 {
        TakeFromSecond(goal, nextOut - d, a1, in1, last1, a2, next2, last2, key);
        ghost var before := dest[..];
        OverwrittenStep(before, pre, d, nextOut, goal, elem2);
        dest[nextOut] := elem2;
        assert dest[..] == before[nextOut := elem2];
        nextOut := nextOut + 1;
        next2 := next2 + 1;
      } else {
        break;
      }
    }
  }

  /**
   * The second inner loop of the projected helper: elements of the first range
   * are written while `val2`, the projection of the current element of the
   * second range, does not compare less than theirs. The first of them always
   * qualifies, so at least one element is written.
   */
  method RunFromFirst<T>(a1: seq<T>, in1: nat, last1: nat, a2: seq<T>, in2: nat, last2: nat,
                         dest: array<T>, d: nat, out: nat, key: T -> int, val1: int, val2: int,
                         ghost goal: seq<T>, ghost pre: seq<T>)
    returns (next1: nat, nextOut: nat, last1Val: int)
    requires in1 < last1 <= |a1| && in2 < last2 <= |a2|
    requires val2 == key(a2[in2]) && !(val2 < key(a1[in1]))
    requires d <= out && d + |goal| <= dest.Length && out - d <= |goal|
    requires Overwritten(dest[..], pre, d, out, goal)
    requires MergeFrom(a1, in1, last1, a2, in2, last2, key) == goal[out - d..]
    modifies dest
    ensures in1 < next1 <= last1 && nextOut == out + (next1 - in1)
    ensures Overwritten(dest[..], pre, d, nextOut, goal)
    ensures MergeFrom(a1, next1, last1, a2, in2, last2, key) == goal[nextOut - d..]
    ensures next1 < last1 ==> last1Val == key(a1[next1]) && val2 < last1Val
  {
    next1, nextOut, last1Val := in1, out, val1;
    while next1 < last1
      invariant in1 <= next1 <= last1 && nextOut == out + (next1 - in1)
      invariant next1 == in1 ==> !(val2 < key(a1[next1]))
      invariant Overwritten(dest[..], pre, d, nextOut, goal)
      invariant MergeFrom(a1, next1, last1, a2, in2, last2, key) == goal[nextOut - d..]
    {
      var elem1 := a1[next1];
      last1Val := key(elem1);
      if !(val2 < last1Val) {
        TakeFromFirst(goal, nextOut - d, a1, next1, last1, a2, in2, last2, key);
        ghost var before := dest[..];
        OverwrittenStep(before, pre, d, nextOut, goal, elem1);
        dest[nextOut] := elem1;
        assert dest[..] == before[nextOut := elem1];
        nextOut := nextOut + 1;
        next1 := next1 + 1;
      } else {
        break;
      }
    }
  }

  /** util::copy: the elements of `a[lo..hi]` are written from `at` on. */
  method CopyRange<T>(a: seq<T>, lo: nat, hi: nat, dest: array<T>, at: nat) returns (out: nat)
    requires lo <= hi <= |a| && at + (hi - lo) <= dest.Length
    modifies dest
    ensures out == at + (hi - lo)
    ensures Overwritten(dest[..], old(dest[..]), at, out, a[lo..hi])
  {
    var i := lo;
    out := at;
    while i < hi
      invariant lo <= i <= hi && out == at + (i - lo)
      invariant Overwritten(dest[..], old(dest[..]), at, out, a[lo..hi])
    {
      dest[out] := a[i];
      i := i + 1;
      out := out + 1;
    }
  }

  /**
   * sequential_merge: the helper (with or without projection, as `projected`
   * says), then the rest of the first range, then the rest of the second. The
   * output holds the stable merge of the two ranges and the positions returned
   * are the ends of both inputs and of the output.
   */
  method SequentialMerge<T>(a1: seq<T>, first1: nat, last1: nat, a2: seq<T>, first2: nat, last2: nat,
                            dest: array<T>, d: nat, key: T -> int, projected: bool, dflt: Option<int>)
    returns (end1: nat, end2: nat, out: nat)
    requires first1 <= last1 <= |a1| && first2 <= last2 <= |a2|
    requires d + (last1 - first1) + (last2 - first2) <= dest.Length
    modifies dest
    ensures end1 == last1 && end2 == last2
    ensures out == d + (last1 - first1) + (last2 - first2)
    ensures Overwritten(dest[..], old(dest[..]), d, out, Merge(a1[first1..last1], a2[first2..last2], key))
  {
    ghost var goal := MergeFrom(a1, first1, last1, a2, first2, last2, key);
    ghost var pre := dest[..];
    var in1, in2, o;
    if projected {
      in1, in2, o := SequentialMergeHelperProjected(a1, first1, last1, a2, first2, last2, dest, d, key, dflt);
    } else {
      in1, in2, o := SequentialMergeHelper(a1, first1, last1, a2, first2, last2, dest, d, key);
    }
    ghost var s1 := dest[..];
    MergeFromDone(a1, in1, last1, a2, in2, last2, key);
    var o1 := CopyRange(a1, in1, last1, dest, o);
    ghost var s2 := dest[..];
    var o2 := CopyRange(a2, in2, last2, dest, o1);
    MergeTail(pre, s1, s2, dest[..], d, o, o1, o2, goal, a1[in1..last1], a2[in2..last2]);
    MergeFromSlices(a1, first1, last1, a2, first2, last2, key);
    end1, end2, out := last1, last2, o2;
  }

  /**
   * detail::lower_bound (`upper` false) and detail::upper_bound (`upper` true) on
   * `q[lo..hi]`: a binary search for the first position whose element fails
   * `Before`, on a range sorted by key.
   */
  method FindBound<T>(q: seq<T>, lo: nat, hi: nat, v: int, key: T -> int, upper: bool) returns (r: nat)
    requires lo <= hi <= |q| && Sorted(q, key)
    ensures lo <= r <= hi
    ensures forall i :: lo <= i < r ==> Before(q[i], key, v, upper)
    ensures forall i :: r <= i < hi ==> !Before(q[i], key, v, upper)
  {
    var l, h := lo, hi;
    while l < h
      invariant lo <= l <= h <= hi
      invariant forall i :: lo <= i < l ==> Before(q[i], key, v, upper)
      invariant forall i :: h <= i < hi ==> !Before(q[i], key, v, upper)
    {
      var mid := l + (h - l) / 2;
      if Before(q[mid], key, v, upper) {
        l := mid + 1;
      } else {
        h := mid;
      }
    }
    r := l;
  }

  /** The total of the chunk sizes. */
  function Sum(s: seq<nat>): nat
  {
    if s == [] then 0 else Sum(s[..|s| - 1]) + s[|s| - 1]
  }

  lemma SumStep(s: seq<nat>, k: nat)
    requires k < |s|
    ensures Sum(s[..k + 1]) == Sum(s[..k]) + s[k]
  {
    assert s[..k + 1][..k] == s[..k];
  }

  /** A prefix of the chunks covers no more than all of them. */
  lemma {:induction false} SumPrefixAtMost(s: seq<nat>, k: nat)
    requires k <= |s|
    ensures Sum(s[..k]) <= Sum(s)
    decreases |s| - k
  {
    if k < |s| {
      SumPrefixAtMost(s, k + 1);
      SumStep(s, k);
    } else {
      assert s[..k] == s;
    }
  }

  /**
   * Where the sliced range `q` is cut when the partitioned range `p` is cut
   * before position `b`: at the start and end of `q` for the first and last cut,
   * otherwise at the bound of `p[b]` in `q`.
   */
  ghost function Cut<T>(p: seq<T>, q: seq<T>, key: T -> int, b: nat, upper: bool): (c: nat)
    requires b <= |p|
    ensures c <= |q|
  {
    if b == 0 then 0
    else if b == |p| then |q|
    else Bound(q, key, key(p[b]), upper)
  }

  /**
   * What the chunks of `p` merged with their slices of `q` produce: `p` first with
   * lower_bound cuts, the slice of `q` first with upper_bound cuts.
   */
  ghost function ChunkOrder<T>(x: seq<T>, y: seq<T>, key: T -> int, upper: bool): (r: seq<T>)
    ensures |r| == |x| + |y|
  {
    if upper then Merge(y, x, key) else Merge(x, y, key)
  }

  /** Later cuts of `p` cut `q` no earlier. */
  lemma CutMonotone<T>(p: seq<T>, q: seq<T>, key: T -> int, b: nat, b2: nat, upper: bool)
    requires Sorted(p, key) && b <= b2 <= |p|
    ensures Cut(p, q, key, b, upper) <= Cut(p, q, key, b2, upper)
  {
    if 0 < b && b2 < |p| {
      BoundMonotone(q, key, key(p[b]), key(p[b2]), upper);
    }
  }

  /**
   * The elements of `p` before a cut and of `q` before the matching cut can be
   * merged apart from the rest: with lower_bound cuts nothing of `q` before the
   * cut ties with `p` after it, with upper_bound cuts nothing of `p` before the
   * cut ties with `q` after it.
   */
  lemma ChunkSplit<T>(p: seq<T>, q: seq<T>, key: T -> int, b: nat, b2: nat, upper: bool, c: nat, c2: nat)
    requires Sorted(p, key) && Sorted(q, key) && b < b2 <= |p|
    requires c == Cut(p, q, key, b, upper) && c2 == Cut(p, q, key, b2, upper)
    ensures c <= c2 <= |q|
    ensures ChunkOrder(p[..b2], q[..c2], key, upper)
            == ChunkOrder(p[..b], q[..c], key, upper) + ChunkOrder(p[b..b2], q[c..c2], key, upper)
  {
    CutMonotone(p, q, key, b, b2, upper);
    var x1, x2, y1, y2 := p[..b], p[b..b2], q[..c], q[c..c2];
    assert p[..b2] == x1 + x2;
    assert q[..c2] == y1 + y2;
    if b > 0 {
      BoundSplitsSorted(q, key, key(p[b]), upper);
    }
    if upper {
      ChunkSplitUpper(p, q, key, b, b2, c, c2);
      MergeSplit(y1, y2, x1, x2, key);
    } else {
      ChunkSplitLower(p, q, key, b, b2, c, c2);
      MergeSplit(x1, x2, y1, y2, key);
    }
  }

  /** The ordering facts MergeSplit needs at a lower_bound cut. */
  lemma ChunkSplitLower<T>(p: seq<T>, q: seq<T>, key: T -> int, b: nat, b2: nat, c: nat, c2: nat)
    requires Sorted(p, key) && b < b2 <= |p| && c <= c2 <= |q|
    requires b == 0 ==> c == 0
    requires b > 0 ==> forall i :: 0 <= i < c ==> key(q[i]) < key(p[b])
    requires b > 0 ==> forall i :: c <= i < |q| ==> key(p[b]) <= key(q[i])
    ensures AllAtMost(p[..b], q[c..c2], key) && AllBelow(q[..c], p[b..b2], key)
  {
    forall i, j | 0 <= i < b && 0 <= j < c2 - c ensures key(p[..b][i]) <= key(q[c..c2][j]) {
      assert q[c..c2][j] == q[c + j];
    }
    forall i, j | 0 <= i < c && 0 <= j < b2 - b ensures key(q[..c][i]) < key(p[b..b2][j]) {
      assert p[b..b2][j] == p[b + j];
    }
  }

  /** The ordering facts MergeSplit needs at an upper_bound cut. */
  lemma ChunkSplitUpper<T>(p: seq<T>, q: seq<T>, key: T -> int, b: nat, b2: nat, c: nat, c2: nat)
    requires Sorted(p, key) && b < b2 <= |p| && c <= c2 <= |q|
    requires b == 0 ==> c == 0
    requires b > 0 ==> forall i :: 0 <= i < c ==> key(q[i]) <= key(p[b])
    requires b > 0 ==> forall i :: c <= i < |q| ==> key(p[b]) < key(q[i])
    ensures AllAtMost(q[..c], p[b..b2], key) && AllBelow(p[..b], q[c..c2], key)
  {
    forall i, j | 0 <= i < c && 0 <= j < b2 - b ensures key(q[..c][i]) <= key(p[b..b2][j]) {
      assert p[b..b2][j] == p[b + j];
    }
    forall i, j | 0 <= i < b && 0 <= j < c2 - c ensures key(p[..b][i]) < key(q[c..c2][j]) {
      assert q[c..c2][j] == q[c + j];
    }
  }

  /**
   * The start of a chunk's slice: the bound searched over the whole of `q` is
   * the cut.
   */
  lemma SearchedStart<T>(p: seq<T>, q: seq<T>, key: T -> int, b: nat, upper: bool, r: nat)
    requires 0 < b < |p| && r <= |q|
    requires forall i :: 0 <= i < r ==> Before(q[i], key, key(p[b]), upper)
    requires forall i :: r <= i < |q| ==> !Before(q[i], key, key(p[b]), upper)
    ensures r == Cut(p, q, key, b, upper)
  {
    BoundUnique(q, key, key(p[b]), upper, r);
  }

  /**
   * The end of a chunk's slice: the bound searched only from the slice's start
   * on is still the cut, because everything before the start passes the test
   * for the smaller key of the chunk's first element.
   */
  lemma SearchedEnd<T>(p: seq<T>, q: seq<T>, key: T -> int, b: nat, b2: nat, upper: bool, r: nat)
    requires Sorted(p, key) && b < b2 < |p|
    requires Cut(p, q, key, b, upper) <= r <= |q|
    requires forall i :: Cut(p, q, key, b, upper) <= i < r ==> Before(q[i], key, key(p[b2]), upper)
    requires forall i :: r <= i < |q| ==> !Before(q[i], key, key(p[b2]), upper)
    ensures r == Cut(p, q, key, b2, upper)
  {
    forall i | 0 <= i < Cut(p, q, key, b, upper) ensures Before(q[i], key, key(p[b2]), upper) {
      assert Before(q[i], key, key(p[b]), upper);
    }
    BoundUnique(q, key, key(p[b2]), upper, r);
  }

  /**
   * The output of the chunks before `base` followed by the merge of the chunk
   * `[base, base + size)` with its slice of `q` is the output of the chunks up to
   * the chunk's end.
   */
  lemma ChunkWritten<T>(p: seq<T>, q: seq<T>, key: T -> int, upper: bool, base: nat, next: nat,
                        start: nat, end: nat, pre: seq<T>, before: seq<T>, cur: seq<T>, d: nat, out: nat, merged: seq<T>)
    requires Sorted(p, key) && Sorted(q, key) && base < next <= |p|
    requires start == Cut(p, q, key, base, upper) && end == Cut(p, q, key, next, upper)
    requires start <= end && out == d + base + start + (next - base) + (end - start)
    requires merged == ChunkOrder(p[base..next], q[start..end], key, upper)
    requires Overwritten(before, pre, d, d + base + start, ChunkOrder(p[..base], q[..start], key, upper))
    requires Overwritten(cur, before, d + base + start, out, merged)
    ensures Overwritten(cur, pre, d, d + next + end, ChunkOrder(p[..next], q[..end], key, upper))
  {
    ChunkSplit(p, q, key, base, next, upper, start, end);
    OverwrittenJoin(pre, before, cur, d, d + base + start, out,
                    ChunkOrder(p[..base], q[..start], key, upper), merged, ChunkOrder(p[..next], q[..end], key, upper));
  }

  /**
   * The partition lambda of parallel_merge for one chunk `[base, base + size)` of
   * the partitioned range `p`: the chunk is merged with the slice of `q` between
   * the bounds of the chunk's first element and of the element after the chunk
   * (the start and end of `q` at the first and last chunk). With lower_bound the
   * chunk is the first range of the sequential merge; with upper_bound the
   * slice goes first. The output of the chunks before it extends
   * to the output of the chunks up to its end, `next`, and `end` is where the
   * chunk's slice of `q` ends.
   */
  method MergeChunk<T>(p: seq<T>, q: seq<T>, dest: array<T>, d: nat, key: T -> int, base: nat, size: nat,
                       upper: bool, projected: bool, dflt: Option<int>, ghost pre: seq<T>, ghost c: nat)
    returns (next: nat, end: nat)
    requires Sorted(p, key) && Sorted(q, key) && 0 < size && base + size <= |p|
    requires d + |p| + |q| <= dest.Length && c == Cut(p, q, key, base, upper)
    requires Overwritten(dest[..], pre, d, d + base + c, ChunkOrder(p[..base], q[..c], key, upper))
    modifies dest
    ensures next == base + size && end == Cut(p, q, key, next, upper)
    ensures Overwritten(dest[..], pre, d, d + next + end, ChunkOrder(p[..next], q[..end], key, upper))
  {
    next := base + size;
    var start := 0;
    if base != 0 {
      start := FindBound(q, 0, |q|, key(p[base]), key, upper);
      SearchedStart(p, q, key, base, upper, start);
    }
    end := |q|;
    if next != |p| {
      end := FindBound(q, start, |q|, key(p[next]), key, upper);
      SearchedEnd(p, q, key, base, next, upper, end);
    }
    CutMonotone(p, q, key, base, next, upper);
    ghost var before := dest[..];
    var out := MergeSlices(p, base, next, q, start, end, dest, d + base + start, key, upper, projected, dflt);
    ChunkWritten(p, q, key, upper, base, next, start, end, pre, before, dest[..], d, out,
                 ChunkOrder(p[base..next], q[start..end], key, upper));
  }

  /**
   * The sequential merge of one chunk: `p[base..next]` as the first range and
   * its slice `q[start..end]` as the second, or the other way round with
   * upper_bound.
   */
  method MergeSlices<T>(p: seq<T>, base: nat, next: nat, q: seq<T>, start: nat, end: nat, dest: array<T>, at: nat,
                        key: T -> int, upper: bool, projected: bool, dflt: Option<int>)
    returns (out: nat)
    requires base <= next <= |p| && start <= end <= |q| && at + (next - base) + (end - start) <= dest.Length
    modifies dest
    ensures out == at + (next - base) + (end - start)
    ensures Overwritten(dest[..], old(dest[..]), at, out, ChunkOrder(p[base..next], q[start..end], key, upper))
  {
    var e1, e2;
    if upper {
      e1, e2, out := SequentialMerge(q, start, end, p, base, next, dest, at, key, projected, dflt);
    } else {
      e1, e2, out := SequentialMerge(p, base, next, q, start, end, dest, at, key, projected, dflt);
    }
  }

  /**
   * parallel_merge's partitioner, sequentialised: the partition lambda runs on
   * each chunk of `p` in turn; the chunk sizes are positive and cover `p`.
   */
  method MergeChunks<T>(p: seq<T>, q: seq<T>, dest: array<T>, d: nat, key: T -> int, chunks: seq<nat>,
                        upper: bool, projected: bool, dflt: Option<int>)
    requires Sorted(p, key) && Sorted(q, key) && |q| <= |p|
    requires forall i :: 0 <= i < |chunks| ==> chunks[i] > 0
    requires Sum(chunks) == |p|
    requires d + |p| + |q| <= dest.Length
    modifies dest
    ensures Overwritten(dest[..], old(dest[..]), d, d + |p| + |q|, ChunkOrder(p, q, key, upper))
  {
    var base: nat := 0;
    var k := 0;
    ghost var c: nat := 0;
    while k < |chunks|
      invariant k <= |chunks| && base == Sum(chunks[..k]) && base <= |p|
      invariant c == Cut(p, q, key, base, upper)
      invariant Overwritten(dest[..], old(dest[..]), d, d + base + c, ChunkOrder(p[..base], q[..c], key, upper))
    {
      SumStep(chunks, k);
      SumPrefixAtMost(chunks, k + 1);
      base, c := MergeChunk(p, q, dest, d, key, base, chunks[k], upper, projected, dflt, old(dest[..]), c);
      k := k + 1;
    }
    assert chunks[..k] == chunks;
    assert p[..base] == p && q[..c] == q;
  }

  /**
   * parallel_merge as written: the longer range is partitioned, the shorter one
   * sliced with lower_bound, and the chunk is passed to sequential_merge as its
   * first range in both branches. When the second range is not the shorter one,
   * the output is the merge with the second range first.
   */
  method ParallelMergeAsWritten<T>(a1: seq<T>, a2: seq<T>, dest: array<T>, d: nat, key: T -> int, chunks: seq<nat>,
                                   projected: bool, dflt: Option<int>)
    returns (end1: nat, end2: nat, out: nat)
    requires Sorted(a1, key) && Sorted(a2, key)
    requires forall i :: 0 <= i < |chunks| ==> chunks[i] > 0
    requires Sum(chunks) == if |a1| > |a2| then |a1| else |a2|
    requires d + |a1| + |a2| <= dest.Length
    modifies dest
    ensures end1 == |a1| && end2 == |a2| && out == d + |a1| + |a2|
    ensures Overwritten(dest[..], old(dest[..]), d, out,
                        if |a1| > |a2| then Merge(a1, a2, key) else Merge(a2, a1, key))
  {
    if |a1| > |a2| {
      MergeChunks(a1, a2, dest, d, key, chunks, false, projected, dflt);
    } else {
      MergeChunks(a2, a1, dest, d, key, chunks, false, projected, dflt);
    }
    end1, end2, out := |a1|, |a2|, d + |a1| + |a2|;
  }

  /**
   * parallel_merge with the branch that partitions the second range corrected:
   * the first range is sliced with upper_bound and its slice goes first, so the
   * output is the stable merge in both branches.
   */
  method ParallelMerge<T>(a1: seq<T>, a2: seq<T>, dest: array<T>, d: nat, key: T -> int, chunks: seq<nat>,
                          projected: bool, dflt: Option<int>)
    returns (end1: nat, end2: nat, out: nat)
    requires Sorted(a1, key) && Sorted(a2, key)
    requires forall i :: 0 <= i < |chunks| ==> chunks[i] > 0
    requires Sum(chunks) == if |a1| > |a2| then |a1| else |a2|
    requires d + |a1| + |a2| <= dest.Length
    modifies dest
    ensures end1 == |a1| && end2 == |a2| && out == d + |a1| + |a2|
    ensures Overwritten(dest[..], old(dest[..]), d, out, Merge(a1, a2, key))
  {
    if |a1| > |a2| {
      MergeChunks(a1, a2, dest, d, key, chunks, false, projected, dflt);
    } else {
      MergeChunks(a2, a1, dest, d, key, chunks, true, projected, dflt);
    }
    end1, end2, out := |a1|, |a2|, d + |a1| + |a2|;
  }

  /** The rank of a keyed element: its first component. */
  function Rank(x: (int, char)): int
  {
    x.0
  }

  const TieFirst: seq<(int, char)> := [(5, 'a')]
  const TieSecond: seq<(int, char)> := [(5, 'b'), (5, 'c')]

  /**
   * With one element of key 5 in the first range and two in the second, the
   * second range is the longer one and parallel_merge as written puts its
   * elements before the first range's: the merge is not stable.
   */
  lemma ParallelMergeTieOrder(out: seq<(int, char)>)
    requires out == if |TieFirst| > |TieSecond| then Merge(TieFirst, TieSecond, Rank)
                    else Merge(TieSecond, TieFirst, Rank)
    ensures out == [(5, 'b'), (5, 'c'), (5, 'a')]
    ensures Merge(TieFirst, TieSecond, Rank) == [(5, 'a'), (5, 'b'), (5, 'c')]
    ensures WithKey(out, Rank, 5) != WithKey(TieFirst, Rank, 5) + WithKey(TieSecond, Rank, 5)
  {
    assert TieSecond[1..] == [(5, 'c')];
    assert Merge([(5, 'c')], TieFirst, Rank) == [(5, 'c'), (5, 'a')];
    assert Merge(TieSecond, TieFirst, Rank) == [(5, 'b')] + [(5, 'c'), (5, 'a')];
    assert Merge(TieFirst, TieSecond, Rank) == [(5, 'a')] + TieSecond;
    assert WithKey(out, Rank, 5) == [(5, 'b')] + WithKey(out[1..], Rank, 5);
    assert WithKey(TieFirst, Rank, 5) == [(5, 'a')] + WithKey(TieFirst[1..], Rank, 5);
    assert (WithKey(TieFirst, Rank, 5) + WithKey(TieSecond, Rank, 5))[0] == (5, 'a');
  }

  /**
   * parallel_merge as written run on the tie input, with range 2 in one chunk:
   * the buffer receives range 2's elements before range 1's, not the stable
   * order.
   */
  method ParallelMergeTieRun() returns (written: seq<(int, char)>)
    ensures written == [(5, 'b'), (5, 'c'), (5, 'a')]
    ensures written != Merge(TieFirst, TieSecond, Rank)
  {
    var dest := new (int, char)[3]((_) => (0, ' '));
    assert Sum([2]) == 2;
    var end1, end2, out := ParallelMergeAsWritten(TieFirst, TieSecond, dest, 0, Rank, [2], false, None);
    written := dest[..3];
    ghost var expected := if |TieFirst| > |TieSecond| then Merge(TieFirst, TieSecond, Rank)
                          else Merge(TieSecond, TieFirst, Rank);
    assert forall k :: 0 <= k < 3 ==> written[k] == expected[k];
    ParallelMergeTieOrder(expected);
    assert written == expected;
  }
}
