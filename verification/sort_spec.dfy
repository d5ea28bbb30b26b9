/**
 * What the sorting routines of `sort` promise, stated on sequences: ascending
 * order, element counts, and the n-th smallest element of a sequence.
 */
module SortSpec {

  /** Ascending order: no element is greater than one after it. */
  ghost predicate Sorted(s: seq<int>)
  {
    forall i, j | 0 <= i < j < |s| :: s[i] <= s[j]
  }

  /** The number of elements of `s` satisfying `p`. */
  function Count(s: seq<int>, p: int -> bool): (c: nat)
    ensures c <= |s|
  {
    if s == [] then 0 else (if p(s[0]) then 1 else 0) + Count(s[1..], p)
  }

  /** Counting over a concatenation adds the counts of the parts. */
  lemma {:induction false} CountAppend(s: seq<int>, t: seq<int>, p: int -> bool)
    ensures Count(s + t, p) == Count(s, p) + Count(t, p)
  {
    if s == [] {
      assert s + t == t;
    } else {
      assert (s + t)[1..] == s[1..] + t;
      CountAppend(s[1..], t, p);
    }
  }

  /** Taking out the element at index `k` leaves one fewer of it. */
  lemma RemoveAtMultiset(t: seq<int>, k: int)
    requires 0 <= k < |t|
    ensures multiset(t[..k] + t[k + 1..]) == multiset(t) - multiset{t[k]}
  {
    SplitAt(t, k);
  }

  /** Taking out the element at index `k` counts one fewer when it satisfies `p`. */
  lemma RemoveAtCount(t: seq<int>, k: int, p: int -> bool)
    requires 0 <= k < |t|
    ensures Count(t, p) == Count(t[..k] + t[k + 1..], p) + (if p(t[k]) then 1 else 0)
  {
    SplitAt(t, k);
    CountSplit(t[..k], t[k], t[k + 1..], p);
  }

  /** A sequence is the part before index `k`, its element at `k`, and the rest. */
  lemma SplitAt(t: seq<int>, k: int)
    requires 0 <= k < |t|
    ensures t == t[..k] + ([t[k]] + t[k + 1..])
  {
    assert t[k..] == [t[k]] + t[k + 1..];
  }

  /** An element between two parts adds one to their count when it satisfies `p`. */
  lemma CountSplit(front: seq<int>, x: int, back: seq<int>, p: int -> bool)
    ensures Count(front + ([x] + back), p) == Count(front + back, p) + (if p(x) then 1 else 0)
  {
    CountAppend(front, [x] + back, p);
    assert ([x] + back)[1..] == back;
    CountAppend(front, back, p);
  }

  /** A count does not depend on the order of the elements. */
  lemma {:induction false} CountPermutation(s: seq<int>, t: seq<int>, p: int -> bool)
    requires multiset(s) == multiset(t)
    ensures Count(s, p) == Count(t, p)
    decreases |s|
  {
    if s == [] {
      assert |t| == |multiset(t)| == 0;
    } else {
      var x := s[0];
      assert x in multiset(t);
      var k :| 0 <= k < |t| && t[k] == x;
      RemoveAtMultiset(t, k);
      RemoveAtCount(t, k, p);
      HeadTail(s);
      CountPermutation(s[1..], t[..k] + t[k + 1..], p);
    }
  }

  /** When every element satisfies `p`, all of them are counted. */
  lemma {:induction false} CountAll(s: seq<int>, p: int -> bool)
    requires forall k | 0 <= k < |s| :: p(s[k])
    ensures Count(s, p) == |s|
  {
    if s != [] {
      CountAll(s[1..], p);
    }
  }

  /** When no element satisfies `p`, the count is zero. */
  lemma {:induction false} CountNone(s: seq<int>, p: int -> bool)
    requires forall k | 0 <= k < |s| :: !p(s[k])
    ensures Count(s, p) == 0
  {
    if s != [] {
      CountNone(s[1..], p);
    }
  }

  /** The number of elements smaller than `v`. */
  function Below(s: seq<int>, v: int): (c: nat)
    ensures c <= |s|
  {
    Count(s, x => x < v)
  }

  /** The number of elements not greater than `v`. */
  function AtMost(s: seq<int>, v: int): (c: nat)
    ensures c <= |s|
  {
    Count(s, x => x <= v)
  }

  /**
   * `v` is the n-th smallest element of `s` (counting from 1): fewer than n
   * elements lie below it and at least n are at most it. For a sorted `s`
   * this is `s[n - 1]` (`SortedNthSmallest`), and it singles out one value
   * (`NthSmallestUnique`).
   */
  ghost predicate NthSmallest(s: seq<int>, n: int, v: int)
  {
    Below(s, v) < n <= AtMost(s, v)
  }

  /** In a sorted sequence the n-th smallest element sits at index n - 1. */
  lemma SortedNthSmallest(u: seq<int>, n: int)
    requires Sorted(u) && 1 <= n <= |u|
    ensures NthSmallest(u, n, u[n - 1])
  {
    var v := u[n - 1];
    assert u == u[..n - 1] + u[n - 1..];
    CountAppend(u[..n - 1], u[n - 1..], x => x < v);
    CountNone(u[n - 1..], x => x < v);
    assert u == u[..n] + u[n..];
    CountAppend(u[..n], u[n..], x => x <= v);
    CountAll(u[..n], x => x <= v);
  }

  /** Raising the bound can only count more elements: everything at most `v` is below `w > v`. */
  lemma {:induction false} AtMostBelow(s: seq<int>, v: int, w: int)
    requires v < w
    ensures AtMost(s, v) <= Below(s, w)
  {
    if s != [] {
      AtMostBelow(s[1..], v, w);
    }
  }

  /** At most one value is the n-th smallest element. */
  lemma NthSmallestUnique(s: seq<int>, n: int, v: int, w: int)
    requires NthSmallest(s, n, v) && NthSmallest(s, n, w)
    ensures v == w
  {
    if v < w {
      AtMostBelow(s, v, w);
    } else if w < v {
      AtMostBelow(s, w, v);
    }
  }

  /** Order statistics only depend on the multiset of elements. */
  lemma NthSmallestPermutation(s: seq<int>, t: seq<int>, n: int, v: int)
    requires multiset(s) == multiset(t) && NthSmallest(s, n, v)
    ensures NthSmallest(t, n, v)
  {
    CountPermutation(s, t, x => x < v);
    CountPermutation(s, t, x => x <= v);
  }

  /** The n-th smallest element of `s` is what sorting `s` puts at index n - 1. */
  lemma NthSmallestIsSortedAt(s: seq<int>, u: seq<int>, n: int, v: int)
    requires Sorted(u) && multiset(u) == multiset(s) && 1 <= n <= |u|
    requires NthSmallest(s, n, v)
    ensures v == u[n - 1]
  {
    NthSmallestPermutation(s, u, n, v);
    SortedNthSmallest(u, n);
    NthSmallestUnique(u, n, v, u[n - 1]);
  }

  /** Dropping the head leaves one fewer of it. */
  lemma HeadTail(s: seq<int>)
    requires s != []
    ensures multiset(s[1..]) == multiset(s) - multiset{s[0]}
  {
    assert s == [s[0]] + s[1..];
  }

  /** The head of a sorted sequence is at most any of its elements. */
  lemma SortedHeadIsLeast(s: seq<int>, x: int)
    requires Sorted(s) && x in multiset(s)
    ensures s != [] && s[0] <= x
  {
    var k :| 0 <= k < |s| && s[k] == x;
  }

  /** Permutations with the same head have permuted tails. */
  lemma TailsPermuted(s: seq<int>, t: seq<int>)
    requires s != [] && t != [] && s[0] == t[0] && multiset(s) == multiset(t)
    ensures multiset(s[1..]) == multiset(t[1..])
  {
    HeadTail(s);
    HeadTail(t);
  }

  /** The tail of a sorted sequence is sorted. */
  lemma SortedTail(s: seq<int>)
    requires Sorted(s) && s != []
    ensures Sorted(s[1..])
  {
  }

  /** A sorted sequence is determined by its multiset: sorting has one outcome. */
  lemma {:induction false} SortedPermutationUnique(s: seq<int>, t: seq<int>)
    requires Sorted(s) && Sorted(t) && multiset(s) == multiset(t)
    ensures s == t
    decreases |s|
  {
    if s != [] {
      SortedHeadIsLeast(t, s[0]);
      SortedHeadIsLeast(s, t[0]);
      TailsPermuted(s, t);
      SortedTail(s);
      SortedTail(t);
      SortedPermutationUnique(s[1..], t[1..]);
      assert s == [s[0]] + s[1..] && t == [t[0]] + t[1..];
    }
  }

  /**
   * `s` is partitioned around index `r`: everything before `s[r]` is smaller
   * than it and everything after it is at least as large.
   */
  ghost predicate PartitionedAt(s: seq<int>, r: int)
  {
    && 0 <= r < |s|
    && (forall k | 0 <= k < r :: s[k] < s[r])
    && (forall k | r < k < |s| :: s[k] >= s[r])
  }

  /** The pivot of a partitioned sequence is its (r+1)-th smallest element. */
  lemma PivotNthSmallest(s: seq<int>, r: int)
    requires PartitionedAt(s, r)
    ensures NthSmallest(s, r + 1, s[r])
  {
    var v := s[r];
    assert s == s[..r] + s[r..];
    CountAppend(s[..r], s[r..], x => x < v);
    CountAll(s[..r], x => x < v);
    CountNone(s[r..], x => x < v);
    assert s == s[..r + 1] + s[r + 1..];
    CountAppend(s[..r + 1], s[r + 1..], x => x <= v);
    CountAll(s[..r + 1], x => x <= v);
  }

  /** An order statistic of the part after the pivot, shifted by the r + 1 elements up to the pivot. */
  lemma RightNthSmallest(s: seq<int>, r: int, m: int, v: int)
    requires PartitionedAt(s, r) && 1 <= m
    requires NthSmallest(s[r + 1..], m, v)
    ensures NthSmallest(s, r + 1 + m, v)
  {
    var left, right := s[..r + 1], s[r + 1..];
    assert s == left + right;
    if v < s[r] {
      CountNone(right, x => x <= v);
      assert false;
    }
    CountAppend(left, right, x => x < v);
    CountAppend(left, right, x => x <= v);
    CountAll(left, x => x <= v);
  }

  /** An order statistic of the part before the pivot is one of the whole sequence. */
  lemma LeftNthSmallest(s: seq<int>, r: int, n: int, v: int)
    requires PartitionedAt(s, r) && 1 <= n <= r
    requires NthSmallest(s[..r], n, v)
    ensures NthSmallest(s, n, v)
  {
    var left, right := s[..r], s[r..];
    assert s == left + right;
    if v >= s[r] {
      CountAll(left, x => x < v);
      assert false;
    }
    CountAppend(left, right, x => x < v);
    CountAppend(left, right, x => x <= v);
    CountNone(right, x => x < v);
  }
}
