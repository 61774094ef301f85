/**
 * The specification side of hpx::merge and hpx::inplace_merge.
 *
 * The comparison `comp` of the library is modelled by an integer rank: `comp(x, y)`
 * holds exactly when `key(x) < key(y)`. Every strict weak ordering on the finitely
 * many values of one call can be given such a rank, and elements with equal keys
 * can still differ, which is what makes stability observable.
 */
module MergeSpec {

  /** Non-decreasing by key: no later element compares less than an earlier one. */
  ghost predicate Sorted<T>(s: seq<T>, key: T -> int)
  {
    forall i, j :: 0 <= i < j < |s| ==> key(s[i]) <= key(s[j])
  }

  /**
   * The stable merge of two ranges: the smaller head goes first, and on ties
   * the head of the first range goes first.
   */
  ghost function Merge<T>(a: seq<T>, b: seq<T>, key: T -> int): (r: seq<T>)
    ensures |r| == |a| + |b|
    decreases |a| + |b|
  {
    if a == [] then b
    else if b == [] then a
    else if key(b[0]) < key(a[0]) then [b[0]] + Merge(a, b[1..], key)
    else [a[0]] + Merge(a[1..], b, key)
  }

  /** The merge is a permutation of the two ranges together. */
  lemma {:induction false} MergePermutation<T>(a: seq<T>, b: seq<T>, key: T -> int)
    ensures multiset(Merge(a, b, key)) == multiset(a) + multiset(b)
    decreases |a| + |b|
  {
    if a != [] && b != [] {
      if key(b[0]) < key(a[0]) {
        var rest := Merge(a, b[1..], key);
        MergePermutation(a, b[1..], key);
        assert Merge(a, b, key) == [b[0]] + rest;
        assert multiset([b[0]] + rest) == multiset([b[0]]) + multiset(rest);
        assert b == [b[0]] + b[1..];
        assert multiset(b) == multiset([b[0]]) + multiset(b[1..]);
      } else {
        var rest := Merge(a[1..], b, key);
        MergePermutation(a[1..], b, key);
        assert Merge(a, b, key) == [a[0]] + rest;
        assert multiset([a[0]] + rest) == multiset([a[0]]) + multiset(rest);
        assert a == [a[0]] + a[1..];
        assert multiset(a) == multiset([a[0]]) + multiset(a[1..]);
      }
    }
  }

  /**
   * The stable merge of `x[i..m]` and `y[j..n]`, walking indices instead of
   * slicing: the form the merge loops keep track of.
   */
  ghost function MergeFrom<T>(x: seq<T>, i: nat, m: nat, y: seq<T>, j: nat, n: nat, key: T -> int): (r: seq<T>)
    requires i <= m <= |x| && j <= n <= |y|
    ensures |r| == (m - i) + (n - j)
    decreases (m - i) + (n - j)
  {
    if i == m then y[j..n]
    else if j == n then x[i..m]
    else if key(y[j]) < key(x[i]) then [y[j]] + MergeFrom(x, i, m, y, j + 1, n, key)
    else [x[i]] + MergeFrom(x, i + 1, m, y, j, n, key)
  }

  /** Once one range is used up, the rest of the merge is the rest of the other. */
  lemma MergeFromDone<T>(x: seq<T>, i: nat, m: nat, y: seq<T>, j: nat, n: nat, key: T -> int)
    requires i <= m <= |x| && j <= n <= |y|
    requires i == m || j == n
    ensures MergeFrom(x, i, m, y, j, n, key) == x[i..m] + y[j..n]
  {
    if i == m {
      assert x[i..m] + y[j..n] == y[j..n];
    } else {
      assert x[i..m] + y[j..n] == x[i..m];
    }
  }

  /** Walking indices and merging slices give the same sequence. */
  lemma {:induction false} MergeFromSlices<T>(x: seq<T>, i: nat, m: nat, y: seq<T>, j: nat, n: nat, key: T -> int)
    requires i <= m <= |x| && j <= n <= |y|
    ensures MergeFrom(x, i, m, y, j, n, key) == Merge(x[i..m], y[j..n], key)
    decreases (m - i) + (n - j)
  {
    var s, t := x[i..m], y[j..n];
    if i < m && j < n {
      assert s[0] == x[i] && t[0] == y[j];
      if key(y[j]) < key(x[i]) {
        MergeFromSlices(x, i, m, y, j + 1, n, key);
        assert t[1..] == y[j + 1..n];
      } else {
        MergeFromSlices(x, i + 1, m, y, j, n, key);
        assert s[1..] == x[i + 1..m];
      }
    }
  }

  /** The elements of `s` whose key is `k`, in their order in `s`. */
  ghost function WithKey<T>(s: seq<T>, key: T -> int, k: int): (r: seq<T>)
    ensures |r| <= |s|
    ensures forall i :: 0 <= i < |r| ==> key(r[i]) == k
  {
    if s == [] then []
    else (if key(s[0]) == k then [s[0]] else []) + WithKey(s[1..], key, k)
  }

  /** Every element of `xs` is at most every element of `ys`. */
  ghost predicate AllAtMost<T>(xs: seq<T>, ys: seq<T>, key: T -> int)
  {
    forall i, j :: 0 <= i < |xs| && 0 <= j < |ys| ==> key(xs[i]) <= key(ys[j])
  }

  /** Every element of `xs` is strictly less than every element of `ys`. */
  ghost predicate AllBelow<T>(xs: seq<T>, ys: seq<T>, key: T -> int)
  {
    forall i, j :: 0 <= i < |xs| && 0 <= j < |ys| ==> key(xs[i]) < key(ys[j])
  }

  /** Every element of `s` has a key of at least `v`. */
  ghost predicate AtLeast<T>(s: seq<T>, key: T -> int, v: int)
  {
    forall i :: 0 <= i < |s| ==> v <= key(s[i])
  }

  /** A lower bound of both ranges bounds their merge. */
  lemma {:induction false} MergeAtLeast<T>(a: seq<T>, b: seq<T>, key: T -> int, v: int)
    requires AtLeast(a, key, v) && AtLeast(b, key, v)
    ensures AtLeast(Merge(a, b, key), key, v)
    decreases |a| + |b|
  {
    if a != [] && b != [] {
      if key(b[0]) < key(a[0]) {
        MergeAtLeast(a, b[1..], key, v);
      } else {
        MergeAtLeast(a[1..], b, key, v);
      }
    }
  }

  /** For sorted inputs the merge is sorted. */
  lemma {:induction false} MergeSorted<T>(a: seq<T>, b: seq<T>, key: T -> int)
    requires Sorted(a, key) && Sorted(b, key)
    ensures Sorted(Merge(a, b, key), key)
    decreases |a| + |b|
  {
    if a == [] || b == [] {
      return;
    }
    var x, rest;
    if key(b[0]) < key(a[0]) {
      MergeSorted(a, b[1..], key);
      MergeAtLeast(a, b[1..], key, key(b[0]));
      x, rest := b[0], Merge(a, b[1..], key);
    } else {
      MergeSorted(a[1..], b, key);
      MergeAtLeast(a[1..], b, key, key(a[0]));
      x, rest := a[0], Merge(a[1..], b, key);
    }
    assert Merge(a, b, key) == [x] + rest;
    SortedCons(x, rest, key);
  }

  /** A sorted range headed by an element at most all of it is sorted. */
  lemma SortedCons<T>(x: T, s: seq<T>, key: T -> int)
    requires Sorted(s, key) && AtLeast(s, key, key(x))
    ensures Sorted([x] + s, key)
  {
    var t := [x] + s;
    forall i, j | 0 <= i < j < |t| ensures key(t[i]) <= key(t[j]) {
      assert t[j] == s[j - 1];
      if i > 0 {
        assert t[i] == s[i - 1];
      }
    }
  }

  /** Keys of an element absent from a sorted range whose head is above it are absent altogether. */
  lemma {:induction false} WithKeyNone<T>(s: seq<T>, key: T -> int, k: int)
    requires Sorted(s, key)
    requires s != [] ==> k < key(s[0])
    ensures WithKey(s, key, k) == []
  {
    if s != [] {
      assert Sorted(s[1..], key);
      WithKeyNone(s[1..], key, k);
    }
  }

  /**
   * Stability: among the elements with one key, the merge lists those of the
   * first range, in their order, and then those of the second range, in their
   * order.
   */
  lemma {:induction false} MergeStable<T>(a: seq<T>, b: seq<T>, key: T -> int, k: int)
    requires Sorted(a, key)
    ensures WithKey(Merge(a, b, key), key, k) == WithKey(a, key, k) + WithKey(b, key, k)
    decreases |a| + |b|
  {
    if a == [] {
      assert WithKey(a, key, k) == [];
    } else if b == [] {
      assert WithKey(b, key, k) == [];
    } else if key(b[0]) < key(a[0]) {
      MergeStable(a, b[1..], key, k);
      var m := Merge(a, b, key);
      assert m[0] == b[0] && m[1..] == Merge(a, b[1..], key);
      if key(b[0]) == k {
        WithKeyNone(a, key, k);
      }
    } else {
      assert Sorted(a[1..], key);
      MergeStable(a[1..], b, key, k);
      var m := Merge(a, b, key);
      assert m[0] == a[0] && m[1..] == Merge(a[1..], b, key);
    }
  }

  /**
   * Splitting both ranges where nothing of the first parts must follow anything
   * of the second parts merges each pair of parts on its own. The strict bound
   * between the second range's first part and the first range's second part is
   * what keeps ties in first-range-first order across the cut.
   */
  lemma {:induction false} MergeSplit<T>(a1: seq<T>, a2: seq<T>, b1: seq<T>, b2: seq<T>, key: T -> int)
    requires AllAtMost(a1, b2, key)
    requires AllBelow(b1, a2, key)
    ensures Merge(a1 + a2, b1 + b2, key) == Merge(a1, b1, key) + Merge(a2, b2, key)
    decreases |a1| + |b1|
  {
    if a1 == [] && b1 == [] {
      assert a1 + a2 == a2 && b1 + b2 == b2;
      assert Merge(a1, b1, key) == [];
    } else if b1 != [] && (a1 == [] || key(b1[0]) < key(a1[0])) {
      AllBelowTail(b1, a2, key);
      MergeSplit(a1, a2, b1[1..], b2, key);
      MergeSplitSecond(a1, a2, b1, b2, key);
    } else {
      AllAtMostTail(a1, b2, key);
      MergeSplit(a1[1..], a2, b1, b2, key);
      MergeSplitFirst(a1, a2, b1, b2, key);
    }
  }

  /** MergeSplit when the head of `b1` is emitted first, given the split of the rest. */
  lemma MergeSplitSecond<T>(a1: seq<T>, a2: seq<T>, b1: seq<T>, b2: seq<T>, key: T -> int)
    requires b1 != [] && (a1 == [] || key(b1[0]) < key(a1[0]))
    requires a2 != [] ==> key(b1[0]) < key(a2[0])
    requires Merge(a1 + a2, b1[1..] + b2, key) == Merge(a1, b1[1..], key) + Merge(a2, b2, key)
    ensures Merge(a1 + a2, b1 + b2, key) == Merge(a1, b1, key) + Merge(a2, b2, key)
  {
    AppendHead(a1, a2);
    AppendCons(b1, b2);
    MergeSplitTakeSecond(a1, a2, b1[0], b1[1..], b2, key);
  }

  /** MergeSplit when the head of `a1` is emitted first, given the split of the rest. */
  lemma MergeSplitFirst<T>(a1: seq<T>, a2: seq<T>, b1: seq<T>, b2: seq<T>, key: T -> int)
    requires a1 != [] && (b1 == [] || key(a1[0]) <= key(b1[0]))
    requires b2 != [] ==> key(a1[0]) <= key(b2[0])
    requires Merge(a1[1..] + a2, b1 + b2, key) == Merge(a1[1..], b1, key) + Merge(a2, b2, key)
    ensures Merge(a1 + a2, b1 + b2, key) == Merge(a1, b1, key) + Merge(a2, b2, key)
  {
    AppendHead(b1, b2);
    AppendCons(a1, a2);
    MergeSplitTakeFirst(a1[0], a1[1..], a2, b1, b2, key);
  }

  /** The step of MergeSplit where `v`, the head of the second range's first part, is emitted. */
  lemma MergeSplitTakeSecond<T>(a1: seq<T>, a2: seq<T>, v: T, t: seq<T>, b2: seq<T>, key: T -> int)
    requires a1 + a2 != [] ==> key(v) < key((a1 + a2)[0])
    requires a1 != [] ==> key(v) < key(a1[0])
    requires Merge(a1 + a2, t + b2, key) == Merge(a1, t, key) + Merge(a2, b2, key)
    ensures Merge(a1 + a2, [v] + (t + b2), key) == Merge(a1, [v] + t, key) + Merge(a2, b2, key)
  {
    MergeConsSecond(v, a1 + a2, t + b2, key);
    MergeConsSecond(v, a1, t, key);
    AppendAssoc([v], Merge(a1, t, key), Merge(a2, b2, key));
  }

  /** The step of MergeSplit where `v`, the head of the first range's first part, is emitted. */
  lemma MergeSplitTakeFirst<T>(v: T, t: seq<T>, a2: seq<T>, b1: seq<T>, b2: seq<T>, key: T -> int)
    requires b1 + b2 != [] ==> key(v) <= key((b1 + b2)[0])
    requires b1 != [] ==> key(v) <= key(b1[0])
    requires Merge(t + a2, b1 + b2, key) == Merge(t, b1, key) + Merge(a2, b2, key)
    ensures Merge([v] + (t + a2), b1 + b2, key) == Merge([v] + t, b1, key) + Merge(a2, b2, key)
  {
    MergeConsFirst(v, t + a2, b1 + b2, key);
    MergeConsFirst(v, t, b1, key);
    AppendAssoc([v], Merge(t, b1, key), Merge(a2, b2, key));
  }

  lemma AppendHead<T>(x: seq<T>, y: seq<T>)
    ensures x == [] ==> x + y == y
    ensures x != [] ==> (x + y)[0] == x[0]
  {
  }

  lemma AppendCons<T>(x: seq<T>, y: seq<T>)
    requires x != []
    ensures x == [x[0]] + x[1..]
    ensures x + y == [x[0]] + (x[1..] + y)
  {
  }

  lemma AppendAssoc<T>(x: seq<T>, y: seq<T>, z: seq<T>)
    ensures x + (y + z) == (x + y) + z
  {
  }

  lemma AllBelowTail<T>(xs: seq<T>, ys: seq<T>, key: T -> int)
    requires xs != [] && AllBelow(xs, ys, key)
    ensures AllBelow(xs[1..], ys, key)
    ensures ys != [] ==> key(xs[0]) < key(ys[0])
  {
  }

  lemma AllAtMostTail<T>(xs: seq<T>, ys: seq<T>, key: T -> int)
    requires xs != [] && AllAtMost(xs, ys, key)
    ensures AllAtMost(xs[1..], ys, key)
    ensures ys != [] ==> key(xs[0]) <= key(ys[0])
  {
  }

  /** Merging with an element that goes before everything of the other range emits it first. */
  lemma MergeConsFirst<T>(v: T, a: seq<T>, b: seq<T>, key: T -> int)
    requires b != [] ==> key(v) <= key(b[0])
    ensures Merge([v] + a, b, key) == [v] + Merge(a, b, key)
  {
    assert ([v] + a)[0] == v && ([v] + a)[1..] == a;
    if b == [] {
      assert Merge(a, b, key) == a;
    }
  }

  /** An element of the second range strictly below the first range's head is emitted first. */
  lemma MergeConsSecond<T>(v: T, a: seq<T>, b: seq<T>, key: T -> int)
    requires a != [] ==> key(v) < key(a[0])
    ensures Merge(a, [v] + b, key) == [v] + Merge(a, b, key)
  {
    assert ([v] + b)[0] == v && ([v] + b)[1..] == b;
    if a == [] {
      assert Merge(a, b, key) == b;
    }
  }

  /** The test a partition point is taken on: lower_bound uses `<`, upper_bound `<=`. */
  predicate Before<T>(x: T, key: T -> int, v: int, upper: bool)
  {
    if upper then key(x) <= v else key(x) < v
  }

  /**
   * The length of the longest prefix of `s` whose elements all pass `Before`:
   * lower_bound of `v` when `upper` is false, upper_bound when it is true.
   */
  ghost function Bound<T>(s: seq<T>, key: T -> int, v: int, upper: bool): (r: nat)
    ensures r <= |s|
    ensures forall i :: 0 <= i < r ==> Before(s[i], key, v, upper)
    ensures r < |s| ==> !Before(s[r], key, v, upper)
  {
    if s == [] || !Before(s[0], key, v, upper) then 0
    else 1 + Bound(s[1..], key, v, upper)
  }

  /** On a sorted range every element from the bound on fails the test. */
  lemma BoundSplitsSorted<T>(s: seq<T>, key: T -> int, v: int, upper: bool)
    requires Sorted(s, key)
    ensures forall i :: Bound(s, key, v, upper) <= i < |s| ==> !Before(s[i], key, v, upper)
  {
  }

  /** A partition point of a range is its bound. */
  lemma {:induction false} BoundUnique<T>(s: seq<T>, key: T -> int, v: int, upper: bool, p: nat)
    requires p <= |s|
    requires forall i :: 0 <= i < p ==> Before(s[i], key, v, upper)
    requires forall i :: p <= i < |s| ==> !Before(s[i], key, v, upper)
    ensures p == Bound(s, key, v, upper)
  {
    if p > 0 {
      assert Before(s[0], key, v, upper);
      forall i | p - 1 <= i < |s[1..]| ensures !Before(s[1..][i], key, v, upper) {
        assert s[1..][i] == s[i + 1];
      }
      BoundUnique(s[1..], key, v, upper, p - 1);
    }
  }

  /** The bound only moves right as the searched value grows. */
  lemma {:induction false} BoundMonotone<T>(s: seq<T>, key: T -> int, v: int, w: int, upper: bool)
    requires v <= w
    ensures Bound(s, key, v, upper) <= Bound(s, key, w, upper)
  {
    if s != [] && Before(s[0], key, v, upper) {
      BoundMonotone(s[1..], key, v, w, upper);
    }
  }

  /** Merging with an empty range leaves the other range as it is. */
  lemma MergeEmpty<T>(a: seq<T>, b: seq<T>, key: T -> int)
    requires a == [] || b == []
    ensures Merge(a, b, key) == a + b
  {
    if a == [] {
      assert a + b == b;
    } else {
      assert a + b == a;
    }
  }
}
