/**
 * The binary searches of `binary_search`, over a read-only slice of
 * integers. Each variant keeps a closed window [low, high] that starts as
 * the whole slice (`high` = length - 1, so an empty slice is never entered),
 * halves it around `mid = low + (high - low) / 2`, and keeps outside the
 * window only indices that cannot be the answer.
 */
module BinarySearch {
  import opened Options
  import opened SortSpec

  /** Sorted with no value repeated, which the doc comments of `binary_search` and the cycled variant ask for. */
  ghost predicate StrictlyIncreasing(a: seq<int>)
  {
    forall i, j | 0 <= i < j < |a| :: a[i] < a[j]
  }

  /**
   * `a` is a strictly increasing sequence rotated left by `d`: a[d..] comes
   * first in value order, then a[..d], and every element of a[d..] is
   * smaller than every element of a[..d].
   */
  ghost predicate RotatedAt(a: seq<int>, d: int)
  {
    && 0 <= d <= |a|
    && (forall i, j | 0 <= i < j < d :: a[i] < a[j])
    && (forall i, j | d <= i < j < |a| :: a[i] < a[j])
    && (forall i, j | 0 <= i < d <= j < |a| :: a[j] < a[i])
  }

  /** A rotation of a strictly increasing sequence (the "sorted cycled slice" of the source). */
  ghost predicate Cycled(a: seq<int>)
  {
    exists d :: RotatedAt(a, d)
  }

  /**
   * Moving the first k elements of a strictly increasing sequence to its end
   * gives a cycled sequence, rotated at the old end's new position.
   */
  lemma RotationIsCycled(u: seq<int>, k: int)
    requires StrictlyIncreasing(u) && 0 <= k <= |u|
    ensures RotatedAt(u[k..] + u[..k], |u| - k) && Cycled(u[k..] + u[..k])
  {
    var a := u[k..] + u[..k];
    assert forall i | 0 <= i < |u| - k :: a[i] == u[k + i];
    assert forall i | |u| - k <= i < |u| :: a[i] == u[i - (|u| - k)];
    assert RotatedAt(a, |u| - k);
  }

  /** `binary_search`: an index holding `v`, or `None` exactly when `v` does not occur. */
  method Search(a: seq<int>, v: int) returns (r: Option<nat>)
    requires Sorted(a)
    ensures r.Some? ==> r.value < |a| && a[r.value] == v
    ensures r.None? <==> v !in a
  {
    var low, high := 0, |a| - 1;
    while low <= high
      invariant 0 <= low && high < |a|
      invariant forall k | 0 <= k < |a| && !(low <= k <= high) :: a[k] != v
      decreases high - low
    {
      var mid := low + (high - low) / 2;
      if a[mid] == v {
        return Some(mid);
      } else if a[mid] < v {
        low := mid + 1;
      } else {
        high := mid - 1;
      }
    }
    return None;
  }

  /** `binary_search_first`: the smallest index holding `v`, or `None` exactly when `v` does not occur. */
  method SearchFirst(a: seq<int>, v: int) returns (r: Option<nat>)
    requires Sorted(a)
    ensures r.Some? ==> r.value < |a| && a[r.value] == v
    ensures r.Some? ==> forall k | 0 <= k < r.value :: a[k] != v
    ensures r.None? <==> v !in a
  {
    var low, high := 0, |a| - 1;
    while low <= high
      invariant 0 <= low <= high + 1 <= |a|
      invariant forall k | 0 <= k < low :: a[k] < v
      invariant forall k | high < k < |a| :: a[k] > v || (0 <= high && a[high] == v)
      decreases high - low
    {
      var mid := low + (high - low) / 2;
      if a[mid] == v {
        if mid == 0 || a[mid - 1] != v {
          return Some(mid);
        } else {
          high := mid - 1;
        }
      } else if a[mid] < v {
        low := mid + 1;
      } else {
        high := mid - 1;
      }
    }
    return None;
  }

  /** `binary_search_last`: the largest index holding `v`, or `None` exactly when `v` does not occur. */
  method SearchLast(a: seq<int>, v: int) returns (r: Option<nat>)
    requires Sorted(a)
    ensures r.Some? ==> r.value < |a| && a[r.value] == v
    ensures r.Some? ==> forall k | r.value < k < |a| :: a[k] != v
    ensures r.None? <==> v !in a
  {
    var low, high := 0, |a| - 1;
    while low <= high
      invariant 0 <= low <= high + 1 <= |a|
      invariant forall k | high < k < |a| :: a[k] > v
      invariant forall k | 0 <= k < low :: a[k] < v || (low < |a| && a[low] == v)
      decreases high - low
    {
      var mid := low + (high - low) / 2;
      if a[mid] == v {
        if mid == |a| - 1 || a[mid + 1] != v {
          return Some(mid);
        } else {
          low := mid + 1;
        }
      } else if a[mid] < v {
        low := mid + 1;
      } else {
        high := mid - 1;
      }
    }
    return None;
  }

  /**
   * `binary_search_first_gte`: the smallest index holding a value at least
   * `v`, or `None` exactly when every element is smaller than `v`.
   */
  method SearchFirstAtLeast(a: seq<int>, v: int) returns (r: Option<nat>)
    requires Sorted(a)
    ensures r.Some? ==> r.value < |a| && a[r.value] >= v
    ensures r.Some? ==> forall k | 0 <= k < r.value :: a[k] < v
    ensures r.None? <==> forall k | 0 <= k < |a| :: a[k] < v
  {
    var low, high := 0, |a| - 1;
    while low <= high
      invariant 0 <= low <= high + 1 <= |a|
      invariant forall k | 0 <= k < low :: a[k] < v
      invariant high < |a| - 1 ==> 0 <= high && a[high] >= v
      decreases high - low
    {
      var mid := low + (high - low) / 2;
      if a[mid] >= v {
        if mid == 0 || a[mid - 1] < v {
          return Some(mid);
        } else {
          high := mid - 1;
        }
      } else {
        low := mid + 1;
      }
    }
    return None;
  }

  /**
   * `binary_search_last_lte`: the largest index holding a value at most
   * `v`, or `None` exactly when every element is greater than `v`.
   */
  method SearchLastAtMost(a: seq<int>, v: int) returns (r: Option<nat>)
    requires Sorted(a)
    ensures r.Some? ==> r.value < |a| && a[r.value] <= v
    ensures r.Some? ==> forall k | r.value < k < |a| :: a[k] > v
    ensures r.None? <==> forall k | 0 <= k < |a| :: a[k] > v
  {
    var low, high := 0, |a| - 1;
    while low <= high
      invariant 0 <= low <= high + 1 <= |a|
      invariant forall k | high < k < |a| :: a[k] > v
      invariant low > 0 ==> low < |a| && a[low] <= v
      decreases high - low
    {
      var mid := low + (high - low) / 2;
      if a[mid] <= v {
        if mid == |a| - 1 || a[mid + 1] > v {
          return Some(mid);
        } else {
          low := mid + 1;
        }
      } else {
        high := mid - 1;
      }
    }
    return None;
  }

  /**
   * `binary_search_cycled`: on a rotation of a strictly increasing sequence,
   * an index holding `v`, or `None` exactly when `v` does not occur. The
   * half of the window on the side of `mid` that does not contain the
   * rotation point is increasing, so whether `v` can lie there is decided
   * by its two ends.
   */
  method SearchCycled(a: seq<int>, v: int) returns (r: Option<nat>)
    requires Cycled(a)
    ensures r.Some? ==> r.value < |a| && a[r.value] == v
    ensures r.None? <==> v !in a
  {
    ghost var d :| RotatedAt(a, d);
    var low, high := 0, |a| - 1;
    while low <= high
      invariant 0 <= low && high < |a|
      invariant forall k | 0 <= k < |a| && !(low <= k <= high) :: a[k] != v
      decreases high - low
    {
      var mid := low + (high - low) / 2;
      if a[mid] == v {
        return Some(mid);
      } else if a[low] <= a[mid] {
        if a[mid] > v && a[low] <= v {
          high := mid - 1;
        } else {
          low := mid + 1;
        }
      } else {
        if a[mid] < v && a[high] >= v {
          low := mid + 1;
        } else {
          high := mid - 1;
        }
      }
    }
    return None;
  }
}
