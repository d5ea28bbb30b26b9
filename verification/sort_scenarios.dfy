/**
 * The unit tests of `sort`, as methods whose postconditions are the
 * expected outcomes: each sort turns [4, 3, 5, 1, 2] and [5, 4, 3, 2, 1]
 * into [1, 2, 3, 4, 5], and `smallest_n` on [4, 3, 5, 1, 2] answers `None`
 * for 0 and 6 and n for every n in 1..5.
 */
module SortScenarios {
  import opened Options
  import opened SortSpec
  import opened Sorting

  /** The multiset of 1..5, written out. */
  lemma OneToFiveMultiset()
    ensures multiset([1, 2, 3, 4, 5]) == multiset{1, 2, 3, 4, 5}
  {
  }

  /** The first test input is a permutation of 1..5. */
  lemma ShuffledPermutesOneToFive()
    ensures multiset([4, 3, 5, 1, 2]) == multiset([1, 2, 3, 4, 5])
  {
    OneToFiveMultiset();
    assert multiset([4, 3, 5, 1, 2]) == multiset{4, 3, 5, 1, 2};
  }

  /** The second test input is a permutation of 1..5. */
  lemma ReversedPermutesOneToFive()
    ensures multiset([5, 4, 3, 2, 1]) == multiset([1, 2, 3, 4, 5])
  {
    OneToFiveMultiset();
    assert multiset([5, 4, 3, 2, 1]) == multiset{5, 4, 3, 2, 1};
  }

  lemma OneToFiveSorted()
    ensures Sorted([1, 2, 3, 4, 5])
  {
  }

  /** Any sorted permutation of one of the test inputs is [1, 2, 3, 4, 5]. */
  lemma SortedIsOneToFive(s: seq<int>, input: seq<int>)
    requires input == [4, 3, 5, 1, 2] || input == [5, 4, 3, 2, 1]
    requires Sorted(s) && multiset(s) == multiset(input)
    ensures s == [1, 2, 3, 4, 5]
  {
    ShuffledPermutesOneToFive();
    ReversedPermutesOneToFive();
    OneToFiveSorted();
    SortedPermutationUnique(s, [1, 2, 3, 4, 5]);
  }

  method BubbleSortOneToFive(a: array<int>)
    requires a[..] == [4, 3, 5, 1, 2] || a[..] == [5, 4, 3, 2, 1]
    modifies a
    ensures a[..] == [1, 2, 3, 4, 5]
  {
    ghost var input := a[..];
    BubbleSort(a);
    SortedIsOneToFive(a[..], input);
  }

  method BubbleSortScenario() returns (first: seq<int>, second: seq<int>)
    ensures first == [1, 2, 3, 4, 5] && second == [1, 2, 3, 4, 5]
  {
    var a := new int[] [4, 3, 5, 1, 2];
    BubbleSortOneToFive(a);
    var b := new int[] [5, 4, 3, 2, 1];
    BubbleSortOneToFive(b);
    first, second := a[..], b[..];
  }

  method InsertionSortOneToFive(a: array<int>)
    requires a[..] == [4, 3, 5, 1, 2] || a[..] == [5, 4, 3, 2, 1]
    modifies a
    ensures a[..] == [1, 2, 3, 4, 5]
  {
    ghost var input := a[..];
    InsertionSort(a);
    SortedIsOneToFive(a[..], input);
  }

  method InsertionSortScenario() returns (first: seq<int>, second: seq<int>)
    ensures first == [1, 2, 3, 4, 5] && second == [1, 2, 3, 4, 5]
  {
    var a := new int[] [4, 3, 5, 1, 2];
    InsertionSortOneToFive(a);
    var b := new int[] [5, 4, 3, 2, 1];
    InsertionSortOneToFive(b);
    first, second := a[..], b[..];
  }

  method SelectionSortOneToFive(a: array<int>)
    requires a[..] == [4, 3, 5, 1, 2] || a[..] == [5, 4, 3, 2, 1]
    modifies a
    ensures a[..] == [1, 2, 3, 4, 5]
  {
    ghost var input := a[..];
    SelectionSort(a);
    SortedIsOneToFive(a[..], input);
  }

  method SelectionSortScenario() returns (first: seq<int>, second: seq<int>)
    ensures first == [1, 2, 3, 4, 5] && second == [1, 2, 3, 4, 5]
  {
    var a := new int[] [4, 3, 5, 1, 2];
    SelectionSortOneToFive(a);
    var b := new int[] [5, 4, 3, 2, 1];
    SelectionSortOneToFive(b);
    first, second := a[..], b[..];
  }

  method QuickSortOneToFive(a: array<int>)
    requires a[..] == [4, 3, 5, 1, 2] || a[..] == [5, 4, 3, 2, 1]
    modifies a
    ensures a[..] == [1, 2, 3, 4, 5]
  {
    ghost var input := a[..];
    QuickSort(a);
    SortedIsOneToFive(a[..], input);
  }

  method QuickSortScenario() returns (first: seq<int>, second: seq<int>)
    ensures first == [1, 2, 3, 4, 5] && second == [1, 2, 3, 4, 5]
  {
    var a := new int[] [4, 3, 5, 1, 2];
    QuickSortOneToFive(a);
    var b := new int[] [5, 4, 3, 2, 1];
    QuickSortOneToFive(b);
    first, second := a[..], b[..];
  }

  /** One `smallest_n` query on an array holding a permutation of 1..5. */
  method QueryOneToFive(a: array<int>, n: nat) returns (r: Option<int>)
    requires multiset(a[..]) == multiset([1, 2, 3, 4, 5])
    modifies a
    ensures multiset(a[..]) == multiset([1, 2, 3, 4, 5])
    ensures r == if 1 <= n <= 5 then Some(n) else None
  {
    ghost var before := a[..];
    r := SmallestN(a, n);
    if r.Some? {
      var u := [1, 2, 3, 4, 5];
      NthSmallestIsSortedAt(before, u, n, r.value);
    }
  }

  method SmallestNScenario() returns (answers: seq<Option<int>>)
    ensures answers == [None, Some(1), Some(2), Some(3), Some(4), Some(5), None]
  {
    var a := new int[] [4, 3, 5, 1, 2];
    assert a[..] == [4, 3, 5, 1, 2];
    ShuffledPermutesOneToFive();
    var r0 := QueryOneToFive(a, 0);
    var r1 := QueryOneToFive(a, 1);
    var r2 := QueryOneToFive(a, 2);
    var r3 := QueryOneToFive(a, 3);
    var r4 := QueryOneToFive(a, 4);
    var r5 := QueryOneToFive(a, 5);
    var r6 := QueryOneToFive(a, 6);
    answers := [r0, r1, r2, r3, r4, r5, r6];
  }
}
