/**
 * The unit tests of `binary_search`, as methods whose postconditions are the
 * expected answers: each test slice is queried with every value from 0 to 10.
 */
module BinarySearchScenarios {
  import opened Options
  import opened SortSpec
  import opened BinarySearch

  /** `binary_search` on 1..9 finds v at index v - 1, and nothing outside 1..9. */
  method SearchOneToNine(v: int) returns (r: Option<nat>)
    ensures r == if 1 <= v <= 9 then Some(v - 1) else None
  {
    var a := [1, 2, 3, 4, 5, 6, 7, 8, 9];
    assert forall k | 0 <= k < |a| :: a[k] == k + 1;
    r := Search(a, v);
    if 1 <= v <= 9 {
      assert a[v - 1] == v;
    }
  }

  method SearchScenario() returns (answers: seq<Option<nat>>)
    ensures answers == [None, Some(0), Some(1), Some(2), Some(3), Some(4), Some(5), Some(6), Some(7), Some(8), None]
  {
    var r0 := SearchOneToNine(0);
    var r1 := SearchOneToNine(1);
    var r2 := SearchOneToNine(2);
    var r3 := SearchOneToNine(3);
    var r4 := SearchOneToNine(4);
    var r5 := SearchOneToNine(5);
    var r6 := SearchOneToNine(6);
    var r7 := SearchOneToNine(7);
    var r8 := SearchOneToNine(8);
    var r9 := SearchOneToNine(9);
    var r10 := SearchOneToNine(10);
    answers := [r0, r1, r2, r3, r4, r5, r6, r7, r8, r9, r10];
  }

  /** `binary_search_first` on a slice with repeated values. */
  method FirstInRepeated(v: int) returns (r: Option<nat>)
    requires 0 <= v <= 10
    ensures r == [None, Some(0), Some(1), Some(3), Some(4), Some(6), Some(7), Some(9), Some(10), Some(12), None][v]
  {
    var a := [1, 2, 2, 3, 4, 4, 5, 6, 6, 7, 8, 8, 9];
    var expected := [None, Some(0), Some(1), Some(3), Some(4), Some(6), Some(7), Some(9), Some(10), Some(12), None];
    if expected[v].Some? {
      assert a[expected[v].value] == v && forall k | 0 <= k < expected[v].value :: a[k] < v;
    } else {
      assert v !in a;
    }
    r := SearchFirst(a, v);
  }

  method SearchFirstScenario() returns (answers: seq<Option<nat>>)
    ensures answers == [None, Some(0), Some(1), Some(3), Some(4), Some(6), Some(7), Some(9), Some(10), Some(12), None]
  {
    var r0 := FirstInRepeated(0);
    var r1 := FirstInRepeated(1);
    var r2 := FirstInRepeated(2);
    var r3 := FirstInRepeated(3);
    var r4 := FirstInRepeated(4);
    var r5 := FirstInRepeated(5);
    var r6 := FirstInRepeated(6);
    var r7 := FirstInRepeated(7);
    var r8 := FirstInRepeated(8);
    var r9 := FirstInRepeated(9);
    var r10 := FirstInRepeated(10);
    answers := [r0, r1, r2, r3, r4, r5, r6, r7, r8, r9, r10];
  }

  /** `binary_search_last` on a slice with repeated values. */
  method LastInRepeated(v: int) returns (r: Option<nat>)
    requires 0 <= v <= 10
    ensures r == [None, Some(0), Some(2), Some(3), Some(5), Some(6), Some(8), Some(9), Some(11), Some(12), None][v]
  {
    var a := [1, 2, 2, 3, 4, 4, 5, 6, 6, 7, 8, 8, 9];
    var expected := [None, Some(0), Some(2), Some(3), Some(5), Some(6), Some(8), Some(9), Some(11), Some(12), None];
    if expected[v].Some? {
      assert a[expected[v].value] == v && forall k | expected[v].value < k < |a| :: a[k] > v;
    } else {
      assert v !in a;
    }
    r := SearchLast(a, v);
  }

  method SearchLastScenario() returns (answers: seq<Option<nat>>)
    ensures answers == [None, Some(0), Some(2), Some(3), Some(5), Some(6), Some(8), Some(9), Some(11), Some(12), None]
  {
    var r0 := LastInRepeated(0);
    var r1 := LastInRepeated(1);
    var r2 := LastInRepeated(2);
    var r3 := LastInRepeated(3);
    var r4 := LastInRepeated(4);
    var r5 := LastInRepeated(5);
    var r6 := LastInRepeated(6);
    var r7 := LastInRepeated(7);
    var r8 := LastInRepeated(8);
    var r9 := LastInRepeated(9);
    var r10 := LastInRepeated(10);
    answers := [r0, r1, r2, r3, r4, r5, r6, r7, r8, r9, r10];
  }

  /** `binary_search_first_gte` on a slice with repeated and missing values. */
  method FirstAtLeastWithGaps(v: int) returns (r: Option<nat>)
    requires 0 <= v <= 10
    ensures r == [Some(0), Some(0), Some(1), Some(3), Some(4), Some(4), Some(5), Some(7), Some(8), Some(8), None][v]
  {
    var a := [1, 2, 2, 3, 5, 6, 6, 7, 9];
    var expected := [Some(0), Some(0), Some(1), Some(3), Some(4), Some(4), Some(5), Some(7), Some(8), Some(8), None];
    if expected[v].Some? {
      assert a[expected[v].value] >= v && forall k | 0 <= k < expected[v].value :: a[k] < v;
    } else {
      assert forall k | 0 <= k < |a| :: a[k] < v;
    }
    r := SearchFirstAtLeast(a, v);
  }

  method SearchFirstAtLeastScenario() returns (answers: seq<Option<nat>>)
    ensures answers == [Some(0), Some(0), Some(1), Some(3), Some(4), Some(4), Some(5), Some(7), Some(8), Some(8), None]
  {
    var r0 := FirstAtLeastWithGaps(0);
    var r1 := FirstAtLeastWithGaps(1);
    var r2 := FirstAtLeastWithGaps(2);
    var r3 := FirstAtLeastWithGaps(3);
    var r4 := FirstAtLeastWithGaps(4);
    var r5 := FirstAtLeastWithGaps(5);
    var r6 := FirstAtLeastWithGaps(6);
    var r7 := FirstAtLeastWithGaps(7);
    var r8 := FirstAtLeastWithGaps(8);
    var r9 := FirstAtLeastWithGaps(9);
    var r10 := FirstAtLeastWithGaps(10);
    answers := [r0, r1, r2, r3, r4, r5, r6, r7, r8, r9, r10];
  }

  /** `binary_search_last_lte` on a slice with repeated and missing values. */
  method LastAtMostWithGaps(v: int) returns (r: Option<nat>)
    requires 0 <= v <= 10
    ensures r == [None, Some(0), Some(2), Some(3), Some(3), Some(4), Some(6), Some(7), Some(7), Some(8), Some(8)][v]
  {
    var a := [1, 2, 2, 3, 5, 6, 6, 7, 9];
    var expected := [None, Some(0), Some(2), Some(3), Some(3), Some(4), Some(6), Some(7), Some(7), Some(8), Some(8)];
    if expected[v].Some? {
      assert a[expected[v].value] <= v && forall k | expected[v].value < k < |a| :: a[k] > v;
    } else {
      assert forall k | 0 <= k < |a| :: a[k] > v;
    }
    r := SearchLastAtMost(a, v);
  }

  method SearchLastAtMostScenario() returns (answers: seq<Option<nat>>)
    ensures answers == [None, Some(0), Some(2), Some(3), Some(3), Some(4), Some(6), Some(7), Some(7), Some(8), Some(8)]
  {
    var r0 := LastAtMostWithGaps(0);
    var r1 := LastAtMostWithGaps(1);
    var r2 := LastAtMostWithGaps(2);
    var r3 := LastAtMostWithGaps(3);
    var r4 := LastAtMostWithGaps(4);
    var r5 := LastAtMostWithGaps(5);
    var r6 := LastAtMostWithGaps(6);
    var r7 := LastAtMostWithGaps(7);
    var r8 := LastAtMostWithGaps(8);
    var r9 := LastAtMostWithGaps(9);
    var r10 := LastAtMostWithGaps(10);
    answers := [r0, r1, r2, r3, r4, r5, r6, r7, r8, r9, r10];
  }

  /** Each cycled test slice is 1..9 with its first k elements moved to the end. */
  lemma OneToNineRotated(a: seq<int>, k: int)
    requires 0 <= k < 9 && a == [1, 2, 3, 4, 5, 6, 7, 8, 9][k..] + [1, 2, 3, 4, 5, 6, 7, 8, 9][..k]
    ensures Cycled(a)
  {
    var u := [1, 2, 3, 4, 5, 6, 7, 8, 9];
    assert forall i | 0 <= i < |u| :: u[i] == i + 1;
    RotationIsCycled(u, k);
  }

  /** `binary_search_cycled` on [1, 2, 3, 4, 5, 6, 7, 8, 9], which is 1..9 rotated left by 0. */
  method CycledUnrotated(v: int) returns (r: Option<nat>)
    requires 0 <= v <= 10
    ensures r == [None, Some(0), Some(1), Some(2), Some(3), Some(4), Some(5), Some(6), Some(7), Some(8), None][v]
  {
    var a := [1, 2, 3, 4, 5, 6, 7, 8, 9];
    OneToNineRotated(a, 0);
    var expected := [None, Some(0), Some(1), Some(2), Some(3), Some(4), Some(5), Some(6), Some(7), Some(8), None];
    if expected[v].Some? {
      assert a[expected[v].value] == v;
    }
    r := SearchCycled(a, v);
  }

  method SearchCycledScenario1() returns (answers: seq<Option<nat>>)
    ensures answers == [None, Some(0), Some(1), Some(2), Some(3), Some(4), Some(5), Some(6), Some(7), Some(8), None]
  {
    var r0 := CycledUnrotated(0);
    var r1 := CycledUnrotated(1);
    var r2 := CycledUnrotated(2);
    var r3 := CycledUnrotated(3);
    var r4 := CycledUnrotated(4);
    var r5 := CycledUnrotated(5);
    var r6 := CycledUnrotated(6);
    var r7 := CycledUnrotated(7);
    var r8 := CycledUnrotated(8);
    var r9 := CycledUnrotated(9);
    var r10 := CycledUnrotated(10);
    answers := [r0, r1, r2, r3, r4, r5, r6, r7, r8, r9, r10];
  }


  /** `binary_search_cycled` on [5, 6, 7, 8, 9, 1, 2, 3, 4], which is 1..9 rotated left by 4. */
  method CycledAtFive(v: int) returns (r: Option<nat>)
    requires 0 <= v <= 10
    ensures r == [None, Some(5), Some(6), Some(7), Some(8), Some(0), Some(1), Some(2), Some(3), Some(4), None][v]
  {
    var a := [5, 6, 7, 8, 9, 1, 2, 3, 4];
    OneToNineRotated(a, 4);
    var expected := [None, Some(5), Some(6), Some(7), Some(8), Some(0), Some(1), Some(2), Some(3), Some(4), None];
    if expected[v].Some? {
      assert a[expected[v].value] == v;
    }
    r := SearchCycled(a, v);
  }

  method SearchCycledScenario2() returns (answers: seq<Option<nat>>)
    ensures answers == [None, Some(5), Some(6), Some(7), Some(8), Some(0), Some(1), Some(2), Some(3), Some(4), None]
  {
    var r0 := CycledAtFive(0);
    var r1 := CycledAtFive(1);
    var r2 := CycledAtFive(2);
    var r3 := CycledAtFive(3);
    var r4 := CycledAtFive(4);
    var r5 := CycledAtFive(5);
    var r6 := CycledAtFive(6);
    var r7 := CycledAtFive(7);
    var r8 := CycledAtFive(8);
    var r9 := CycledAtFive(9);
    var r10 := CycledAtFive(10);
    answers := [r0, r1, r2, r3, r4, r5, r6, r7, r8, r9, r10];
  }


  /** `binary_search_cycled` on [9, 1, 2, 3, 4, 5, 6, 7, 8], which is 1..9 rotated left by 8. */
  method CycledAtOne(v: int) returns (r: Option<nat>)
    requires 0 <= v <= 10
    ensures r == [None, Some(1), Some(2), Some(3), Some(4), Some(5), Some(6), Some(7), Some(8), Some(0), None][v]
  {
    var a := [9, 1, 2, 3, 4, 5, 6, 7, 8];
    OneToNineRotated(a, 8);
    var expected := [None, Some(1), Some(2), Some(3), Some(4), Some(5), Some(6), Some(7), Some(8), Some(0), None];
    if expected[v].Some? {
      assert a[expected[v].value] == v;
    }
    r := SearchCycled(a, v);
  }

  method SearchCycledScenario3() returns (answers: seq<Option<nat>>)
    ensures answers == [None, Some(1), Some(2), Some(3), Some(4), Some(5), Some(6), Some(7), Some(8), Some(0), None]
  {
    var r0 := CycledAtOne(0);
    var r1 := CycledAtOne(1);
    var r2 := CycledAtOne(2);
    var r3 := CycledAtOne(3);
    var r4 := CycledAtOne(4);
    var r5 := CycledAtOne(5);
    var r6 := CycledAtOne(6);
    var r7 := CycledAtOne(7);
    var r8 := CycledAtOne(8);
    var r9 := CycledAtOne(9);
    var r10 := CycledAtOne(10);
    answers := [r0, r1, r2, r3, r4, r5, r6, r7, r8, r9, r10];
  }


  /** `binary_search_cycled` on [2, 3, 4, 5, 6, 7, 8, 9, 1], which is 1..9 rotated left by 1. */
  method CycledAtEight(v: int) returns (r: Option<nat>)
    requires 0 <= v <= 10
    ensures r == [None, Some(8), Some(0), Some(1), Some(2), Some(3), Some(4), Some(5), Some(6), Some(7), None][v]
  {
    var a := [2, 3, 4, 5, 6, 7, 8, 9, 1];
    OneToNineRotated(a, 1);
    var expected := [None, Some(8), Some(0), Some(1), Some(2), Some(3), Some(4), Some(5), Some(6), Some(7), None];
    if expected[v].Some? {
      assert a[expected[v].value] == v;
    }
    r := SearchCycled(a, v);
  }

  method SearchCycledScenario4() returns (answers: seq<Option<nat>>)
    ensures answers == [None, Some(8), Some(0), Some(1), Some(2), Some(3), Some(4), Some(5), Some(6), Some(7), None]
  {
    var r0 := CycledAtEight(0);
    var r1 := CycledAtEight(1);
    var r2 := CycledAtEight(2);
    var r3 := CycledAtEight(3);
    var r4 := CycledAtEight(4);
    var r5 := CycledAtEight(5);
    var r6 := CycledAtEight(6);
    var r7 := CycledAtEight(7);
    var r8 := CycledAtEight(8);
    var r9 := CycledAtEight(9);
    var r10 := CycledAtEight(10);
    answers := [r0, r1, r2, r3, r4, r5, r6, r7, r8, r9, r10];
  }

  /** Every variant answers `None` on an empty slice. */
  method EmptySliceScenario(v: int) returns (answers: seq<Option<nat>>)
    ensures answers == [None, None, None, None, None, None]
  {
    var a: seq<int> := [];
    assert RotatedAt(a, 0);
    var r0 := Search(a, v);
    var r1 := SearchFirst(a, v);
    var r2 := SearchLast(a, v);
    var r3 := SearchFirstAtLeast(a, v);
    var r4 := SearchLastAtMost(a, v);
    var r5 := SearchCycled(a, v);
    answers := [r0, r1, r2, r3, r4, r5];
  }
}
