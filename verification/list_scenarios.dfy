/**
 * The unit tests of `list::linked_list`, replayed on the model, and the
 * sequence of calls that exposes the stale back-pointer left by `pop_front`.
 */
module LinkedListScenarios {
  import opened Options
  import opened LinkedLists

  /**
   * The first half of `test_basic`: pops on an empty list give None; pushing
   * 10 at the back, 20 at the front, 30 at the back, 40 at the front and 50
   * at the back gives 40 20 10 30 50, the size growing by one each time; the
   * list is empty (and not non-empty) before the pushes and the reverse after.
   */
  method BasicBuild() returns (list: LinkedList<int>, pops: seq<Option<int>>, sizes: seq<nat>,
                               empties: seq<bool>, nonEmpties: seq<bool>)
    ensures list.Valid() && fresh(list.Repr)
    ensures list.Contents == [40, 20, 10, 30, 50]
    ensures pops == [None, None]
    ensures sizes == [0, 1, 2, 3, 4, 5]
    ensures empties == [true, false] && nonEmpties == [false, true]
  {
    list := new LinkedList<int>();
    var size0, e0, ne0;
    pops, size0, e0, ne0 := ProbeEmpty(list);
    var grown := MixedPushes(list);
    sizes := [size0] + grown;
    empties, nonEmpties := [e0, list.IsEmpty()], [ne0, list.NonEmpty()];
  }

  /** On an empty list: size 0, empty, not non-empty, and both pops give None. */
  method ProbeEmpty(list: LinkedList<int>) returns (pops: seq<Option<int>>, size: nat, empty: bool, nonEmpty: bool)
    requires list.Valid() && list.Contents == []
    modifies list.Repr
    ensures list.Valid() && list.Repr <= old(list.Repr) && list.Contents == []
    ensures pops == [None, None] && size == 0 && empty && !nonEmpty
  {
    size := list.Size();
    empty, nonEmpty := list.IsEmpty(), list.NonEmpty();
    var x := list.PopFront();
    var y := list.PopBack();
    pops := [x, y];
  }

  /** The pushes of `test_basic` on an empty list: 40 20 10 30 50, sizes 1 to 5. */
  method MixedPushes(list: LinkedList<int>) returns (sizes: seq<nat>)
    requires list.Valid() && list.Contents == []
    modifies list.Repr
    ensures list.Valid() && fresh(list.Repr - old(list.Repr))
    ensures list.Contents == [40, 20, 10, 30, 50]
    ensures sizes == [1, 2, 3, 4, 5]
  {
    list.PushBack(10);
    sizes := [list.Size()];
    list.PushFront(20);
    sizes := sizes + [list.Size()];
    list.PushBack(30);
    sizes := sizes + [list.Size()];
    list.PushFront(40);
    sizes := sizes + [list.Size()];
    list.PushBack(50);
    sizes := sizes + [list.Size()];
  }

  /**
   * The second half of `test_basic`: alternating front and back pops take
   * 40 20 10 30 50 apart as 40, 50, 20, 30, 10; the emptied list is empty,
   * not non-empty, and pops None.
   */
  method BasicScenario() returns (pops: seq<Option<int>>, sizes: seq<nat>, empty: bool, nonEmpty: bool)
    ensures pops == [Some(40), Some(50), Some(20), Some(30), Some(10), None, None]
    ensures sizes == [4, 3, 2, 1, 0]
    ensures empty && !nonEmpty
  {
    var list, _, _, _, _ := BasicBuild();
    var x := list.PopFront();
    sizes := [list.Size()];
    var y := list.PopBack();
    sizes := sizes + [list.Size()];
    pops := [x, y];
    x := list.PopFront();
    sizes := sizes + [list.Size()];
    y := list.PopBack();
    sizes := sizes + [list.Size()];
    pops := pops + [x, y];
    x := list.PopFront();
    sizes := sizes + [list.Size()];
    pops := pops + [x];
    empty, nonEmpty := list.IsEmpty(), list.NonEmpty();
    x := list.PopFront();
    y := list.PopBack();
    pops := pops + [x, y];
  }

  /** A list holding 10, 20, 30, 40, 50, built with `push_back`. */
  method TensList() returns (list: LinkedList<int>)
    ensures list.Valid() && fresh(list.Repr)
    ensures list.Contents == [10, 20, 30, 40, 50]
  {
    list := new LinkedList<int>();
    list.PushBack(10);
    list.PushBack(20);
    list.PushBack(30);
    list.PushBack(40);
    list.PushBack(50);
  }

  /** `test_iter`: iteration yields 10, 20, 30, 40, 50 in order; five items in all. */
  method IterScenario() returns (items: seq<int>, count: nat)
    ensures items == [10, 20, 30, 40, 50]
    ensures count == 5
  {
    var list := TensList();
    items := list.Elements();
    var it := list.Iter();
    var again := Collect(it);
    count := |again|;
  }

  /** `test_iter_mut`: adding 5 through the mutable iterator gives 15, 25, 35, 45, 55. */
  method IterMutScenario() returns (before: seq<int>, after: seq<int>)
    ensures before == [10, 20, 30, 40, 50]
    ensures after == [15, 25, 35, 45, 55]
  {
    var list := TensList();
    before := list.Elements();
    list.ForEachMut(v => v + 5);
    after := list.Elements();
  }

  /**
   * push_back(1), push_back(2), then `pop_front` as written: the node left
   * is both head and tail, yet its `prev` still points at the popped node,
   * which the source has already freed. A following `pop_back` takes its
   * "has a predecessor" branch and reads and writes that freed node, which is
   * undefined behaviour; only if the freed memory is untouched does it return
   * None, with `size` 0 and `head` still set. This method exhibits the stale
   * `prev` and the broken representation invariant, not that later outcome.
   */
  method StalePrevScenario() returns (list: LinkedList<int>, first: Option<int>)
    ensures first == Some(1)
    ensures list.Chain() && list.Contents == [2] && list.size == 1
    ensures list.head != null && list.head == list.tail
    ensures list.tail.prev != null && list.tail.prev !in list.Repr
    ensures list.tail.prev.next == null
    ensures !list.Valid()
  {
    list := new LinkedList<int>();
    list.PushBack(1);
    list.PushBack(2);
    first := list.PopFrontAsWritten();
  }

  /** The same calls with the repaired `pop_front`: `pop_back` then returns 2 and empties the list. */
  method RepairedPopFrontScenario() returns (first: Option<int>, last: Option<int>, size: nat)
    ensures first == Some(1) && last == Some(2) && size == 0
  {
    var list := new LinkedList<int>();
    list.PushBack(1);
    list.PushBack(2);
    first := list.PopFront();
    last := list.PopBack();
    size := list.Size();
  }
}
