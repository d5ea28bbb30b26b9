/**
 * `stack::LinkedStack`: a last-in first-out stack kept in a linked list whose
 * front is the top. `Items()` lists the stacked items, top first.
 */
module Stacks {
  import opened Options
  import opened LinkedLists

  class LinkedStack<T> {
    const list: LinkedList<T>
    ghost var Repr: set<object>

    ghost predicate Valid()
      reads this, Repr
    {
      && this in Repr && list in Repr && list.Repr <= Repr && this !in list.Repr
      && list.Valid()
    }

    /** The items on the stack, top first. */
    ghost function Items(): seq<T>
      reads this, list
    {
      list.Contents
    }

    /** `LinkedStack::new`: an empty stack. */
    constructor ()
      ensures Valid() && fresh(Repr) && Items() == []
    {
      list := new LinkedList<T>();
      new;
      Repr := {this} + list.Repr;
    }

    /** `Stack::size`: the number of stacked items. */
    function Size(): (n: nat)
      reads this, Repr
      requires Valid()
      ensures n == |Items()|
    {
      list.Size()
    }

    /** `Stack::is_empty`, the trait default `size() == 0`. */
    function IsEmpty(): (b: bool)
      reads this, Repr
      requires Valid()
      ensures b <==> Items() == []
    {
      Size() == 0
    }

    /** `push`: the item goes on top (the front of the list). */
    method Push(item: T)
      requires Valid()
      modifies Repr
      ensures Valid() && fresh(Repr - old(Repr))
      ensures Items() == [item] + old(Items())
    {
      list.PushFront(item);
      Repr := Repr + list.Repr;
    }

    /** `pop`: takes the top item, the one pushed last; None on an empty stack. */
    method Pop() returns (x: Option<T>)
      requires Valid()
      modifies Repr
      ensures Valid() && fresh(Repr - old(Repr))
      ensures old(Items()) == [] ==> x == None && Items() == []
      ensures old(Items()) != [] ==> x == Some(old(Items())[0]) && Items() == old(Items())[1..]
    {
      x := list.PopFront();
    }

    /** `LinkedStack::iter`: yields the items from the top down. */
    method Iter() returns (it: Iter<T>)
      requires Valid()
      ensures fresh(it) && it.Valid() && it.Remaining == Items()
    {
      it := list.Iter();
    }
  }

  /** Pushes `item` and reports the size and emptiness that follow. */
  method PushAndProbe(stack: LinkedStack<int>, item: int) returns (size: nat, empty: bool)
    requires stack.Valid()
    modifies stack.Repr
    ensures stack.Valid() && fresh(stack.Repr - old(stack.Repr))
    ensures stack.Items() == [item] + old(stack.Items())
    ensures size == |old(stack.Items())| + 1 && !empty
  {
    stack.Push(item);
    size, empty := stack.Size(), stack.IsEmpty();
  }

  /**
   * The pushes of `test_linked_stack`: 10, 20, 30, 40 and 50 onto an empty
   * stack, whose size grows from 0 to 5 and which is empty only before the first.
   */
  method FiveStack() returns (stack: LinkedStack<int>, sizes: seq<nat>, empties: seq<bool>)
    ensures stack.Valid() && fresh(stack.Repr)
    ensures stack.Items() == [50, 40, 30, 20, 10]
    ensures sizes == [0, 1, 2, 3, 4, 5] && empties == [true, false, false, false, false, false]
  {
    stack := new LinkedStack<int>();
    var n0, e0 := stack.Size(), stack.IsEmpty();
    var n1, e1 := PushAndProbe(stack, 10);
    var n2, e2 := PushAndProbe(stack, 20);
    var n3, e3 := PushAndProbe(stack, 30);
    var n4, e4 := PushAndProbe(stack, 40);
    var n5, e5 := PushAndProbe(stack, 50);
    sizes := [n0, n1, n2, n3, n4, n5];
    empties := [e0, e1, e2, e3, e4, e5];
  }

  /** The pops of `test_linked_stack`: 50 down to 10 in turn, then None on the emptied stack. */
  method StackScenario() returns (pops: seq<Option<int>>, sizes: seq<nat>, empties: seq<bool>)
    ensures pops == [Some(50), Some(40), Some(30), Some(20), Some(10), None]
    ensures sizes == [4, 3, 2, 1, 0, 0]
    ensures empties == [false, false, false, false, true, true]
  {
    var stack, _, _ := FiveStack();
    var x1 := stack.Pop();
    var n1, e1 := stack.Size(), stack.IsEmpty();
    var x2 := stack.Pop();
    var n2, e2 := stack.Size(), stack.IsEmpty();
    var x3 := stack.Pop();
    var n3, e3 := stack.Size(), stack.IsEmpty();
    var x4 := stack.Pop();
    var n4, e4 := stack.Size(), stack.IsEmpty();
    var x5 := stack.Pop();
    var n5, e5 := stack.Size(), stack.IsEmpty();
    var x6 := stack.Pop();
    var n6, e6 := stack.Size(), stack.IsEmpty();
    pops := [x1, x2, x3, x4, x5, x6];
    sizes := [n1, n2, n3, n4, n5, n6];
    empties := [e1, e2, e3, e4, e5, e6];
  }

  /** `test_linked_stack_iter`: an empty stack yields nothing; after pushing 10 to 50 it yields 50 down to 10. */
  method StackIterScenario() returns (emptyCount: nat, items: seq<int>)
    ensures emptyCount == 0
    ensures items == [50, 40, 30, 20, 10]
  {
    var empty := new LinkedStack<int>();
    var it := empty.Iter();
    var none := Collect(it);
    emptyCount := |none|;
    var stack, _, _ := FiveStack();
    it := stack.Iter();
    items := Collect(it);
  }
}
