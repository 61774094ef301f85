/**
 * Writes into a destination buffer, stated on its contents before and after: a
 * write of a content to a range leaves everything outside the range as it was.
 */
module Writes {

  /**
   * `cur` is `pre` with `[lo, hi)` overwritten by the first `hi - lo` elements of
   * `content`.
   */
  ghost predicate Overwritten<T>(cur: seq<T>, pre: seq<T>, lo: int, hi: int, content: seq<T>)
  {
    |cur| == |pre| && 0 <= lo <= hi <= |cur| && hi - lo <= |content| &&
    forall k :: 0 <= k < |cur| ==> cur[k] == (if lo <= k < hi then content[k - lo] else pre[k])
  }

  /**
   * Writing the rest of the first range and then the rest of the second after a
   * partial merge completes the merge when those rests are what is left of it.
   */
  lemma MergeTail<T>(pre: seq<T>, s1: seq<T>, s2: seq<T>, s3: seq<T>, d: int, o: int, o1: int, o2: int,
                     goal: seq<T>, r1: seq<T>, r2: seq<T>)
    requires Overwritten(s1, pre, d, o, goal) && goal[o - d..] == r1 + r2
    requires Overwritten(s2, s1, o, o1, r1) && o1 - o == |r1|
    requires Overwritten(s3, s2, o1, o2, r2) && o2 - o1 == |r2|
    ensures o2 - d == |goal| && Overwritten(s3, pre, d, o2, goal)
  {
    forall k | 0 <= k < |s3|
      ensures s3[k] == (if d <= k < o2 then goal[k - d] else pre[k])
    {
      if o <= k < o1 {
        assert goal[k - d] == goal[o - d..][k - o] == r1[k - o];
      } else if o1 <= k < o2 {
        assert goal[k - d] == goal[o - d..][k - o] == r2[k - o1];
      }
    }
  }

  /** Writing the next element of `content` extends the written range by one. */
  lemma OverwrittenStep<T>(cur: seq<T>, pre: seq<T>, lo: int, hi: int, content: seq<T>, e: T)
    requires Overwritten(cur, pre, lo, hi, content) && hi < |cur| && hi - lo < |content| && content[hi - lo] == e
    ensures Overwritten(cur[hi := e], pre, lo, hi + 1, content)
  {
  }

  /** Two adjacent writes, one after the other, are one write of both contents. */
  lemma OverwrittenThen<T>(pre: seq<T>, mid: seq<T>, cur: seq<T>, lo: int, m: int, hi: int, c1: seq<T>, c2: seq<T>)
    requires Overwritten(mid, pre, lo, m, c1) && |c1| == m - lo
    requires Overwritten(cur, mid, m, hi, c2) && |c2| == hi - m
    ensures Overwritten(cur, pre, lo, hi, c1 + c2)
  {
    forall k | 0 <= k < |cur|
      ensures cur[k] == (if lo <= k < hi then (c1 + c2)[k - lo] else pre[k])
    {
      if m <= k < hi {
        assert (c1 + c2)[k - lo] == c2[k - m];
      }
    }
  }

  /** Two adjacent writes are one write of a content made of both. */
  lemma OverwrittenJoin<T>(pre: seq<T>, mid: seq<T>, cur: seq<T>, lo: int, m: int, hi: int,
                           c1: seq<T>, c2: seq<T>, whole: seq<T>)
    requires Overwritten(mid, pre, lo, m, c1) && |c1| == m - lo
    requires Overwritten(cur, mid, m, hi, c2) && |c2| == hi - m
    requires whole == c1 + c2
    ensures Overwritten(cur, pre, lo, hi, whole)
  {
    OverwrittenThen(pre, mid, cur, lo, m, hi, c1, c2);
  }

  /** A complete write, read back as slices: the written range and the untouched rest. */
  lemma OverwrittenSlices<T>(cur: seq<T>, pre: seq<T>, lo: int, hi: int, content: seq<T>)
    requires Overwritten(cur, pre, lo, hi, content) && |content| == hi - lo
    ensures cur[lo..hi] == content && cur[..lo] == pre[..lo] && cur[hi..] == pre[hi..]
  {
  }

  /** A write leaves every slice outside the written range as it was. */
  lemma OverwrittenOutside<T>(cur: seq<T>, pre: seq<T>, lo: int, hi: int, content: seq<T>, x: int, y: int)
    requires Overwritten(cur, pre, lo, hi, content)
    requires 0 <= x <= y <= |cur| && (y <= lo || hi <= x)
    ensures cur[x..y] == pre[x..y]
  {
  }

  /**
   * Two writes on either side of position `t`, one after the other: the element
   * at `t` stays between the two contents.
   */
  lemma OverwrittenAround<T>(pre: seq<T>, mid: seq<T>, cur: seq<T>, lo: int, t: int, hi: int, m1: seq<T>, m2: seq<T>)
    requires lo <= t < hi <= |pre|
    requires Overwritten(mid, pre, lo, t, m1) && |m1| == t - lo
    requires Overwritten(cur, mid, t + 1, hi, m2) && |m2| == hi - (t + 1)
    ensures Overwritten(cur, pre, lo, hi, m1 + ([pre[t]] + m2))
  {
    var whole := m1 + ([pre[t]] + m2);
    forall k | 0 <= k < |cur|
      ensures cur[k] == (if lo <= k < hi then whole[k - lo] else pre[k])
    {
      if k < lo || hi <= k {
      } else if k < t {
        assert whole[k - lo] == m1[k - lo];
      } else if k == t {
        assert whole[k - lo] == pre[t];
      } else {
        assert whole[k - lo] == m2[k - (t + 1)];
      }
    }
  }

  /** A write that covers an earlier one hides it. */
  lemma OverwrittenOver<T>(pre: seq<T>, mid: seq<T>, cur: seq<T>, lo1: int, hi1: int, c1: seq<T>,
                           lo: int, hi: int, c: seq<T>)
    requires Overwritten(mid, pre, lo1, hi1, c1) && lo <= lo1 && hi1 <= hi
    requires Overwritten(cur, mid, lo, hi, c) && |c| == hi - lo
    ensures Overwritten(cur, pre, lo, hi, c)
  {
  }
}
