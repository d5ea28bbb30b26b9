/**
 * The in-place sorts and the selection routine of `sort`, on arrays of
 * integers. A Rust sub-slice `&mut a[lo..hi]` is the index range [lo, hi) of
 * one array; indices are absolute, so a position the source reports relative
 * to its sub-slice is `lo` plus that position here.
 */
module Sorting {
  import opened Options
  import opened SortSpec

  /** `slice::swap`: exchanges two elements (possibly the same one); the multiset stays the same. */
  method Swap(a: array<int>, i: int, j: int)
    requires 0 <= i < a.Length && 0 <= j < a.Length
    modifies a
    ensures a[i] == old(a[j]) && a[j] == old(a[i])
    ensures forall k | 0 <= k < a.Length && k != i && k != j :: a[k] == old(a[k])
    ensures multiset(a[..]) == multiset(old(a[..]))
  {
    ghost var whole := a[..];
    a[i], a[j] := a[j], a[i];
    assert a[..] == whole[i := whole[j]][j := whole[i]];
    SwapPreservesMultiset(whole, i, j);
  }

  /** Exchanging two entries of a sequence keeps its multiset. */
  lemma SwapPreservesMultiset(s: seq<int>, i: int, j: int)
    requires 0 <= i < |s| && 0 <= j < |s|
    ensures multiset(s[i := s[j]][j := s[i]]) == multiset(s)
  {
  }

  /**
   * `bubble_sort`: pass i bubbles the largest element of a[0..n-i) up to
   * index n-i-1, so the last i+1 positions hold the largest elements in
   * order; a pass without a swap ends the sort early, the array being sorted.
   */
  method BubbleSort(a: array<int>)
    modifies a
    ensures Sorted(a[..]) && multiset(a[..]) == multiset(old(a[..]))
  {
    var n := a.Length;
    if n <= 1 {
      return;
    }
    var i := 0;
    while i < n
      invariant 0 <= i <= n
      invariant multiset(a[..]) == multiset(old(a[..]))
      invariant forall k, l | n - i <= k < l < n :: a[k] <= a[l]
      invariant forall k, l | 0 <= k < n - i <= l < n :: a[k] <= a[l]
    {
      var swapped := BubblePass(a, n - i);
      if !swapped {
        return;
      }
      i := i + 1;
    }
  }

  /**
   * One pass of `bubble_sort` over a[0..m): adjacent out-of-order pairs are
   * swapped, which carries the largest element of a[0..m) to index m-1. The
   * last n-m positions, already in final order, are left alone. A pass that
   * swaps nothing has found a[0..m), and so the whole array, sorted.
   */
  method BubblePass(a: array<int>, m: int) returns (swapped: bool)
    requires 1 <= m <= a.Length
    requires forall k, l | m <= k < l < a.Length :: a[k] <= a[l]
    requires forall k, l | 0 <= k < m <= l < a.Length :: a[k] <= a[l]
    modifies a
    ensures multiset(a[..]) == multiset(old(a[..]))
    ensures forall k, l | m - 1 <= k < l < a.Length :: a[k] <= a[l]
    ensures forall k, l | 0 <= k < m - 1 <= l < a.Length :: a[k] <= a[l]
    ensures !swapped ==> a[..] == old(a[..]) && Sorted(a[..])
  {
    var j := 0;
    swapped := false;
    while j < m - 1
      invariant 0 <= j <= m - 1
      invariant multiset(a[..]) == multiset(old(a[..]))
      invariant forall k | m <= k < a.Length :: a[k] == old(a[k])
      invariant forall k, l | 0 <= k < m <= l < a.Length :: a[k] <= a[l]
      invariant forall k | 0 <= k < j :: a[k] <= a[j]
      invariant !swapped ==> a[..] == old(a[..])
      invariant !swapped ==> forall k, l | 0 <= k < l <= j :: a[k] <= a[l]
    {
      if a[j] > a[j + 1] {
        Swap(a, j, j + 1);
        swapped := true;
      }
      j := j + 1;
    }
  }

  /**
   * The shift loop of `insertion_sort` leaves `before` outside [p, i] in
   * place and moves `before[p..i)` one place right; with `before[i]` written
   * into the gap at `p`, the array is the prefix, the inserted element, the
   * shifted stretch and the rest.
   */
  lemma FillGap(before: seq<int>, after: seq<int>, p: int, i: int)
    requires 0 <= p <= i < |before| == |after|
    requires forall k | 0 <= k < |after| && !(p <= k <= i) :: after[k] == before[k]
    requires after[p] == before[i]
    requires forall k | p <= k < i :: after[k + 1] == before[k]
    ensures after == before[..p] + [before[i]] + before[p..i] + before[i + 1..]
  {
  }

  /** Moving `s[i]` in front of `s[p..i]` keeps the multiset. */
  lemma RotationKeepsMultiset(s: seq<int>, p: int, i: int)
    requires 0 <= p <= i < |s|
    ensures multiset(s[..p] + [s[i]] + s[p..i] + s[i + 1..]) == multiset(s)
  {
    assert s == s[..p] + s[p..i] + [s[i]] + s[i + 1..];
  }

  /** Writing the saved element into the gap left by the shift keeps the multiset. */
  lemma InsertionKeepsMultiset(before: seq<int>, after: seq<int>, p: int, i: int)
    requires 0 <= p <= i < |before| == |after|
    requires forall k | 0 <= k < |after| && !(p <= k <= i) :: after[k] == before[k]
    requires after[p] == before[i]
    requires forall k | p <= k < i :: after[k + 1] == before[k]
    ensures multiset(after) == multiset(before)
  {
    FillGap(before, after, p, i);
    RotationKeepsMultiset(before, p, i);
  }

  /**
   * When the elements shifted right are exactly those of the sorted prefix
   * greater than the inserted one, the sorted prefix grows by one.
   */
  lemma InsertionExtendsSorted(before: seq<int>, after: seq<int>, p: int, i: int)
    requires 0 <= p <= i < |before| == |after|
    requires forall k | 0 <= k < p :: after[k] == before[k]
    requires after[p] == before[i]
    requires forall k | p <= k < i :: after[k + 1] == before[k] && before[k] > before[i]
    requires p > 0 ==> before[p - 1] <= before[i]
    requires Sorted(before[..i])
    ensures Sorted(after[..i + 1])
  {
    forall k, l | 0 <= k < l <= i
      ensures after[k] <= after[l]
    {
      if l < p {
        assert before[..i][k] <= before[..i][l];
      } else if l == p {
        assert before[..i][k] <= before[..i][p - 1];
      } else if k < p {
        assert after[l] == before[l - 1];
        assert before[..i][k] <= before[..i][l - 1];
      } else if k == p {
        assert after[l] == before[l - 1];
      } else {
        assert after[k] == before[k - 1] && after[l] == before[l - 1];
        assert before[..i][k - 1] <= before[..i][l - 1];
      }
    }
  }

  /**
   * The inner `while` loop of `insertion_sort`: moving down from `i - 1`,
   * every element greater than `x` moves one place right, stopping at the
   * first that is not greater (or past index 0). Returns where it stopped:
   * a[0..j] and a[i+1..) are untouched, a[j+1..i) moved to a[j+2..i], and
   * all the moved elements are greater than `x`.
   */
  method ShiftGreater(a: array<int>, i: int, x: int) returns (j: int)
    requires 0 < i < a.Length
    modifies a
    ensures -1 <= j < i
    ensures j >= 0 ==> a[j] <= x
    ensures forall k | 0 <= k < a.Length && !(j < k <= i) :: a[k] == old(a[k])
    ensures forall k | j < k < i :: a[k + 1] == old(a[k]) && old(a[k]) > x
  {
    j := i - 1;
    while j >= 0 && a[j] > x
      invariant -1 <= j <= i - 1
      invariant forall k | 0 <= k < a.Length && !(j < k <= i) :: a[k] == old(a[k])
      invariant forall k | j < k < i :: a[k + 1] == old(a[k]) && old(a[k]) > x
    {
      a[j + 1] := a[j];
      j := j - 1;
    }
  }

  /**
   * One step of `insertion_sort`'s outer loop: `x = a[i]` is lifted out,
   * the elements of the sorted prefix a[0..i) greater than `x` shift one
   * place right, and `x` drops into the gap they leave.
   */
  method Insert(a: array<int>, i: int)
    requires 0 < i < a.Length && Sorted(a[..i])
    modifies a
    ensures Sorted(a[..i + 1]) && multiset(a[..]) == multiset(old(a[..]))
  {
    var x := a[i];
    var j := ShiftGreater(a, i, x);
    a[j + 1] := x;
    InsertionKeepsMultiset(old(a[..]), a[..], j + 1, i);
    InsertionExtendsSorted(old(a[..]), a[..], j + 1, i);
  }

  /** `insertion_sort`: before step i the prefix a[0..i) is sorted; step i inserts `a[i]` into it. */
  method InsertionSort(a: array<int>)
    modifies a
    ensures Sorted(a[..]) && multiset(a[..]) == multiset(old(a[..]))
  {
    var n := a.Length;
    if n <= 1 {
      return;
    }
    var i := 1;
    while i < n
      invariant 1 <= i <= n
      invariant multiset(a[..]) == multiset(old(a[..]))
      invariant Sorted(a[..i])
    {
      Insert(a, i);
      i := i + 1;
    }
    assert a[..] == a[..n];
  }

  /**
   * `selection_sort`: step i finds the smallest element of a[i..n) and swaps
   * it to index i, so a[0..i+1) holds the i+1 smallest elements in order.
   */
  method SelectionSort(a: array<int>)
    modifies a
    ensures Sorted(a[..]) && multiset(a[..]) == multiset(old(a[..]))
  {
    var n := a.Length;
    if n <= 1 {
      return;
    }
    var i := 0;
    while i < n
      invariant 0 <= i <= n
      invariant multiset(a[..]) == multiset(old(a[..]))
      invariant forall k, l | 0 <= k < l < i :: a[k] <= a[l]
      invariant forall k, l | 0 <= k < i <= l < n :: a[k] <= a[l]
    {
      var min := i;
      var j := i;
      while j < n
        invariant i <= j <= n && i <= min < n
        invariant forall k | i <= k < j :: a[min] <= a[k]
      {
        if a[j] < a[min] {
          min := j;
        }
        j := j + 1;
      }
      if min != i {
        Swap(a, min, i);
      }
      i := i + 1;
    }
  }

  /** A sequence that agrees with another on [lo, hi) has the same slice there. */
  lemma SameSlice(before: seq<int>, after: seq<int>, lo: int, hi: int)
    requires 0 <= lo <= hi <= |before| == |after|
    requires forall k | lo <= k < hi :: after[k] == before[k]
    ensures after[lo..hi] == before[lo..hi]
  {
  }

  /**
   * A permutation of a whole sequence that leaves everything outside
   * [lo, hi) in place permutes the slice [lo, hi).
   */
  lemma SliceMultiset(before: seq<int>, after: seq<int>, lo: int, hi: int)
    requires 0 <= lo <= hi <= |before| == |after|
    requires multiset(after) == multiset(before)
    requires forall k | 0 <= k < |after| && !(lo <= k < hi) :: after[k] == before[k]
    ensures multiset(after[lo..hi]) == multiset(before[lo..hi])
  {
    assert after[..lo] == before[..lo];
    assert after[hi..] == before[hi..];
    MiddleMultiset(before, after, lo, hi);
  }

  /** Equal multisets with equal ends have equal middles. */
  lemma MiddleMultiset(before: seq<int>, after: seq<int>, lo: int, hi: int)
    requires 0 <= lo <= hi <= |before| == |after|
    requires multiset(after) == multiset(before)
    requires after[..lo] == before[..lo] && after[hi..] == before[hi..]
    ensures multiset(after[lo..hi]) == multiset(before[lo..hi])
  {
    var ends := multiset(before[..lo]) + multiset(before[hi..]);
    assert before == before[..lo] + before[lo..hi] + before[hi..];
    assert multiset(before) == multiset(before[lo..hi]) + ends;
    assert after == after[..lo] + after[lo..hi] + after[hi..];
    assert multiset(after) == multiset(after[lo..hi]) + ends;
    assert multiset(after[lo..hi]) == multiset(after) - ends;
  }

  /** Permuting [lo, mid) and [mid, hi) separately permutes [lo, hi). */
  lemma JoinPermuted(before: seq<int>, after: seq<int>, lo: int, mid: int, hi: int)
    requires 0 <= lo <= mid <= hi <= |before| == |after|
    requires multiset(after[lo..mid]) == multiset(before[lo..mid])
    requires multiset(after[mid..hi]) == multiset(before[mid..hi])
    ensures multiset(after[lo..hi]) == multiset(before[lo..hi])
  {
    assert before[lo..hi] == before[lo..mid] + before[mid..hi];
    assert after[lo..hi] == after[lo..mid] + after[mid..hi];
  }

  /** A property every element of a sequence has, every element of a permutation of it has. */
  lemma AllOfPermutation(s: seq<int>, t: seq<int>, p: int -> bool)
    requires multiset(s) == multiset(t)
    requires forall k | 0 <= k < |s| :: p(s[k])
    ensures forall k | 0 <= k < |t| :: p(t[k])
  {
    forall k | 0 <= k < |t|
      ensures p(t[k])
    {
      assert t[k] in multiset(s);
      var m :| 0 <= m < |s| && s[m] == t[k];
    }
  }

  /**
   * `partition`: with the last element of a[lo..hi) as pivot, the elements
   * smaller than it are swapped to the front in one pass, and the pivot is
   * then swapped to the first position after them, which is returned.
   */
  method Partition(a: array<int>, lo: int, hi: int) returns (p: int)
    requires 0 <= lo < hi <= a.Length
    modifies a
    ensures lo <= p < hi && a[p] == old(a[hi - 1])
    ensures PartitionedAt(a[lo..hi], p - lo)
    ensures multiset(a[lo..hi]) == multiset(old(a[lo..hi]))
    ensures forall k | 0 <= k < a.Length && !(lo <= k < hi) :: a[k] == old(a[k])
  {
    var pivot := a[hi - 1];
    var i := lo;
    var j := lo;
    while j < hi - 1
      invariant lo <= i <= j <= hi - 1
      invariant a[hi - 1] == pivot
      invariant forall k | lo <= k < i :: a[k] < pivot
      invariant forall k | i <= k < j :: a[k] >= pivot
      invariant multiset(a[..]) == multiset(old(a[..]))
      invariant forall k | 0 <= k < a.Length && !(lo <= k < hi) :: a[k] == old(a[k])
    {
      if a[j] < pivot {
        Swap(a, i, j);
        i := i + 1;
      }
      j := j + 1;
    }
    Swap(a, i, hi - 1);
    p := i;
    SliceMultiset(old(a[..]), a[..], lo, hi);
    assert a[..][lo..hi] == a[lo..hi] && old(a[..])[lo..hi] == old(a[lo..hi]);
  }

  /** The slice [lo, hi) of `s` is partitioned at `p`, in absolute indices. */
  lemma PartitionedBounds(s: seq<int>, lo: int, p: int, hi: int)
    requires 0 <= lo <= p < hi <= |s| && PartitionedAt(s[lo..hi], p - lo)
    ensures forall k | lo <= k < p :: s[k] < s[p]
    ensures forall k | p < k < hi :: s[k] >= s[p]
  {
    forall k | lo <= k < hi
      ensures s[k] == s[lo..hi][k - lo]
    {
    }
  }

  /**
   * Sorting [lo, p) keeps every element there below the pivot at `p`, and
   * sorting [p+1, hi) keeps every element there at least the pivot.
   */
  lemma SortedPartsKeepBounds(s1: seq<int>, s3: seq<int>, lo: int, p: int, hi: int)
    requires 0 <= lo <= p < hi <= |s1| == |s3| && s3[p] == s1[p]
    requires forall k | lo <= k < p :: s1[k] < s1[p]
    requires forall k | p < k < hi :: s1[k] >= s1[p]
    requires multiset(s3[lo..p]) == multiset(s1[lo..p])
    requires multiset(s3[p + 1..hi]) == multiset(s1[p + 1..hi])
    ensures forall k | lo <= k < p :: s3[k] < s3[p]
    ensures forall k | p < k < hi :: s3[k] >= s3[p]
  {
    var pivot := s1[p];
    AllOfPermutation(s1[lo..p], s3[lo..p], x => x < pivot);
    forall k | lo <= k < p
      ensures s3[k] < pivot
    {
      assert s3[k] == s3[lo..p][k - lo];
    }
    AllOfPermutation(s1[p + 1..hi], s3[p + 1..hi], x => x >= pivot);
    forall k | p < k < hi
      ensures s3[k] >= pivot
    {
      assert s3[k] == s3[p + 1..hi][k - p - 1];
    }
  }

  /** Sorted on both sides of a pivot that separates them: sorted across. */
  lemma SortedAroundPivot(s: seq<int>, lo: int, p: int, hi: int)
    requires 0 <= lo <= p < hi <= |s|
    requires Sorted(s[lo..p]) && Sorted(s[p + 1..hi])
    requires forall k | lo <= k < p :: s[k] < s[p]
    requires forall k | p < k < hi :: s[k] >= s[p]
    ensures Sorted(s[lo..hi])
  {
    forall k, l | lo <= k < l < hi
      ensures s[k] <= s[l]
    {
      if l < p {
        assert s[lo..p][k - lo] <= s[lo..p][l - lo];
      } else if k > p {
        assert s[p + 1..hi][k - p - 1] <= s[p + 1..hi][l - p - 1];
      }
    }
    assert forall k, l | 0 <= k < l < hi - lo :: s[lo..hi][k] == s[lo + k] && s[lo..hi][l] == s[lo + l];
  }

  /**
   * The recursion step of `quick_sort_part`: `s1` is partitioned at `p`,
   * `s2` sorts [lo, p) of it and `s3` sorts [p+1, hi) of `s2`; then `s3` is
   * sorted on [lo, hi), and a permutation of `s1` there.
   */
  lemma QuickSortStep(s1: seq<int>, s2: seq<int>, s3: seq<int>, lo: int, p: int, hi: int)
    requires 0 <= lo <= p < hi <= |s1| == |s2| == |s3|
    requires PartitionedAt(s1[lo..hi], p - lo)
    requires Sorted(s2[lo..p]) && multiset(s2[lo..p]) == multiset(s1[lo..p])
    requires forall k | 0 <= k < |s1| && !(lo <= k < p) :: s2[k] == s1[k]
    requires Sorted(s3[p + 1..hi]) && multiset(s3[p + 1..hi]) == multiset(s2[p + 1..hi])
    requires forall k | 0 <= k < |s1| && !(p + 1 <= k < hi) :: s3[k] == s2[k]
    ensures Sorted(s3[lo..hi]) && multiset(s3[lo..hi]) == multiset(s1[lo..hi])
  {
    PartitionedBounds(s1, lo, p, hi);
    SameSlice(s2, s3, lo, p);
    SameSlice(s1, s2, p + 1, hi);
    SameSlice(s1, s3, p, p + 1);
    SortedPartsKeepBounds(s1, s3, lo, p, hi);
    SortedAroundPivot(s3, lo, p, hi);
    JoinPermuted(s1, s3, lo, p, p + 1);
    JoinPermuted(s1, s3, lo, p + 1, hi);
  }

  /**
   * `quick_sort_part` on a[lo..hi): partition, then sort the part before the
   * pivot and the part after it; the slice ends sorted and permuted, the
   * rest of the array untouched.
   */
  method QuickSortPart(a: array<int>, lo: int, hi: int)
    requires 0 <= lo <= hi <= a.Length
    modifies a
    ensures Sorted(a[lo..hi]) && multiset(a[lo..hi]) == multiset(old(a[lo..hi]))
    ensures forall k | 0 <= k < a.Length && !(lo <= k < hi) :: a[k] == old(a[k])
    decreases hi - lo
  {
    if hi - lo <= 1 {
      return;
    }
    var p := Partition(a, lo, hi);
    ghost var s1 := a[..];
    QuickSortPart(a, lo, p);
    ghost var s2 := a[..];
    QuickSortPart(a, p + 1, hi);
    QuickSortStep(s1, s2, a[..], lo, p, hi);
  }

  /** `quick_sort`: sorts the whole array in place. */
  method QuickSort(a: array<int>)
    modifies a
    ensures Sorted(a[..]) && multiset(a[..]) == multiset(old(a[..]))
  {
    QuickSortPart(a, 0, a.Length);
    assert a[..] == a[0..a.Length];
    assert old(a[..]) == old(a[0..a.Length]);
  }

  /**
   * The step of `smallest_n` that recurses right of the pivot: the m-th
   * smallest of the part after the pivot is the (p-lo+1+m)-th smallest of the
   * partitioned slice, and permuting that part permutes the slice.
   */
  lemma SelectRightStep(s1: seq<int>, s2: seq<int>, lo: int, p: int, hi: int, m: int, v: int)
    requires 0 <= lo <= p < hi <= |s1| == |s2| && 1 <= m
    requires PartitionedAt(s1[lo..hi], p - lo)
    requires NthSmallest(s1[p + 1..hi], m, v)
    requires multiset(s2[p + 1..hi]) == multiset(s1[p + 1..hi])
    requires forall k | 0 <= k < |s1| && !(p + 1 <= k < hi) :: s2[k] == s1[k]
    ensures NthSmallest(s1[lo..hi], p - lo + 1 + m, v)
    ensures multiset(s2[lo..hi]) == multiset(s1[lo..hi])
  {
    assert s1[lo..hi][p - lo + 1..] == s1[p + 1..hi];
    RightNthSmallest(s1[lo..hi], p - lo, m, v);
    SameSlice(s1, s2, lo, p + 1);
    JoinPermuted(s1, s2, lo, p + 1, hi);
  }

  /**
   * The step of `smallest_n` that recurses left of the pivot: the n-th
   * smallest of the part before the pivot, for n at most its length, is the
   * n-th smallest of the partitioned slice.
   */
  lemma SelectLeftStep(s1: seq<int>, s2: seq<int>, lo: int, p: int, hi: int, n: int, v: int)
    requires 0 <= lo <= p < hi <= |s1| == |s2| && 1 <= n <= p - lo
    requires PartitionedAt(s1[lo..hi], p - lo)
    requires NthSmallest(s1[lo..p], n, v)
    requires multiset(s2[lo..p]) == multiset(s1[lo..p])
    requires forall k | 0 <= k < |s1| && !(lo <= k < p) :: s2[k] == s1[k]
    ensures NthSmallest(s1[lo..hi], n, v)
    ensures multiset(s2[lo..hi]) == multiset(s1[lo..hi])
  {
    assert s1[lo..hi][..p - lo] == s1[lo..p];
    LeftNthSmallest(s1[lo..hi], p - lo, n, v);
    SameSlice(s1, s2, p, hi);
    JoinPermuted(s1, s2, lo, p, hi);
  }

  /**
   * `smallest_n` on a[lo..hi): `None` exactly when n is 0 or exceeds the
   * slice's length, otherwise the n-th smallest element of the slice as it
   * was on entry. Like the source it partitions the slice as it goes, so the
   * slice ends permuted and the rest of the array untouched.
   */
  method SmallestNPart(a: array<int>, lo: int, hi: int, n: nat) returns (r: Option<int>)
    requires 0 <= lo <= hi <= a.Length
    modifies a
    ensures r.None? <==> (n == 0 || hi - lo < n)
    ensures r.Some? ==> NthSmallest(old(a[lo..hi]), n, r.value)
    ensures multiset(a[lo..hi]) == multiset(old(a[lo..hi]))
    ensures forall k | 0 <= k < a.Length && !(lo <= k < hi) :: a[k] == old(a[k])
    decreases hi - lo
  {
    if hi - lo < n || n == 0 {
      return None;
    }
    var p := Partition(a, lo, hi);
    ghost var s1 := a[..];
    assert s1[lo..hi] == a[lo..hi];
    if p - lo == n - 1 {
      r := Some(a[p]);
      PivotNthSmallest(s1[lo..hi], p - lo);
    } else if p - lo < n - 1 {
      r := SmallestNPart(a, p + 1, hi, n - (p - lo) - 1);
      SelectRightStep(s1, a[..], lo, p, hi, n - (p - lo) - 1, r.value);
    } else {
      r := SmallestNPart(a, lo, p, n);
      SelectLeftStep(s1, a[..], lo, p, hi, n, r.value);
    }
    NthSmallestPermutation(s1[lo..hi], old(a[lo..hi]), n, r.value);
  }

  /** `smallest_n`: the n-th smallest element of the array, counting from 1. */
  method SmallestN(a: array<int>, n: nat) returns (r: Option<int>)
    modifies a
    ensures r.None? <==> (n == 0 || a.Length < n)
    ensures r.Some? ==> NthSmallest(old(a[..]), n, r.value)
    ensures multiset(a[..]) == multiset(old(a[..]))
  {
    r := SmallestNPart(a, 0, a.Length, n);
    assert a[..] == a[0..a.Length];
    assert old(a[..]) == old(a[0..a.Length]);
  }
}
