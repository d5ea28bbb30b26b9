/**
 * `queue::LinkedQueue`: a first-in first-out queue kept in a linked list;
 * items join at the back and leave from the front. `Items()` lists the
 * queued items, oldest first.
 */
module Queues {
  import opened Options
  import opened LinkedLists

  class LinkedQueue<T> {
    const list: LinkedList<T>
    ghost var Repr: set<object>

    ghost predicate Valid()
      reads this, Repr
    {
      && this in Repr && list in Repr && list.Repr <= Repr && this !in list.Repr
      && list.Valid()
    }

    /** The items in the queue, the next to leave first. */
    ghost function Items(): seq<T>
      reads this, list
    {
      list.Contents
    }

    /** `LinkedQueue::new`: an empty queue. */
    constructor ()
      ensures Valid() && fresh(Repr) && Items() == []
    {
      list := new LinkedList<T>();
      new;
      Repr := {this} + list.Repr;
    }

    /** `Queue::size`: the number of queued items. */
    function Size(): (n: nat)
      reads this, Repr
      requires Valid()
      ensures n == |Items()|
    {
      list.Size()
    }

    /** `Queue::is_empty`, the trait default `size() == 0`. */
    function IsEmpty(): (b: bool)
      reads this, Repr
      requires Valid()
      ensures b <==> Items() == []
    {
      Size() == 0
    }

    /** `enqueue`: the item joins at the back. */
    method Enqueue(item: T)
      requires Valid()
      modifies Repr
      ensures Valid() && fresh(Repr - old(Repr))
      ensures Items() == old(Items()) + [item]
    {
      list.PushBack(item);
      Repr := Repr + list.Repr;
    }

    /** `dequeue`: takes the oldest item from the front; None on an empty queue. */
    method Dequeue() returns (x: Option<T>)
      requires Valid()
      modifies Repr
      ensures Valid() && fresh(Repr - old(Repr))
      ensures old(Items()) == [] ==> x == None && Items() == []
      ensures old(Items()) != [] ==> x == Some(old(Items())[0]) && Items() == old(Items())[1..]
    {
      x := list.PopFront();
    }

    /** `LinkedQueue::iter`: yields the items oldest first. */
    method Iter() returns (it: Iter<T>)
      requires Valid()
      ensures fresh(it) && it.Valid() && it.Remaining == Items()
    {
      it := list.Iter();
    }
  }

  /** Enqueues `item` and reports the size and emptiness that follow. */
  method EnqueueAndProbe(queue: LinkedQueue<int>, item: int) returns (size: nat, empty: bool)
    requires queue.Valid()
    modifies queue.Repr
    ensures queue.Valid() && fresh(queue.Repr - old(queue.Repr))
    ensures queue.Items() == old(queue.Items()) + [item]
    ensures size == |old(queue.Items())| + 1 && !empty
  {
    queue.Enqueue(item);
    size, empty := queue.Size(), queue.IsEmpty();
  }

  /**
   * The enqueues of `test_linked_queue`: 10, 20, 30, 40 and 50 join an empty
   * queue, whose size grows from 0 to 5 and which is empty only before the first.
   */
  method FiveQueue() returns (queue: LinkedQueue<int>, sizes: seq<nat>, empties: seq<bool>)
    ensures queue.Valid() && fresh(queue.Repr)
    ensures queue.Items() == [10, 20, 30, 40, 50]
    ensures sizes == [0, 1, 2, 3, 4, 5] && empties == [true, false, false, false, false, false]
  {
    queue := new LinkedQueue<int>();
    var n0, e0 := queue.Size(), queue.IsEmpty();
    var n1, e1 := EnqueueAndProbe(queue, 10);
    var n2, e2 := EnqueueAndProbe(queue, 20);
    var n3, e3 := EnqueueAndProbe(queue, 30);
    var n4, e4 := EnqueueAndProbe(queue, 40);
    var n5, e5 := EnqueueAndProbe(queue, 50);
    sizes := [n0, n1, n2, n3, n4, n5];
    empties := [e0, e1, e2, e3, e4, e5];
  }

  /** The dequeues of `test_linked_queue`: 10 up to 50 in arrival order, then None. */
  method QueueScenario() returns (dequeued: seq<Option<int>>, sizes: seq<nat>, empties: seq<bool>)
    ensures dequeued == [Some(10), Some(20), Some(30), Some(40), Some(50), None]
    ensures sizes == [4, 3, 2, 1, 0, 0]
    ensures empties == [false, false, false, false, true, true]
  {
    var queue, _, _ := FiveQueue();
    var x1 := queue.Dequeue();
    var n1, e1 := queue.Size(), queue.IsEmpty();
    var x2 := queue.Dequeue();
    var n2, e2 := queue.Size(), queue.IsEmpty();
    var x3 := queue.Dequeue();
    var n3, e3 := queue.Size(), queue.IsEmpty();
    var x4 := queue.Dequeue();
    var n4, e4 := queue.Size(), queue.IsEmpty();
    var x5 := queue.Dequeue();
    var n5, e5 := queue.Size(), queue.IsEmpty();
    var x6 := queue.Dequeue();
    var n6, e6 := queue.Size(), queue.IsEmpty();
    dequeued := [x1, x2, x3, x4, x5, x6];
    sizes := [n1, n2, n3, n4, n5, n6];
    empties := [e1, e2, e3, e4, e5, e6];
  }

  /** `test_linked_queue_iter`: five items, yielded 10 up to 50. */
  method QueueIterScenario() returns (items: seq<int>)
    ensures items == [10, 20, 30, 40, 50]
  {
    var queue, _, _ := FiveQueue();
    var it := queue.Iter();
    items := Collect(it);
  }
}
