/**
 * `bag::LinkedBag`: a collection that only grows, kept in a linked list with
 * each item added at the back. `Items()` lists the items in the order added;
 * equal items are kept side by side.
 */
module Bags {
  import opened LinkedLists

  class LinkedBag<T> {
    const list: LinkedList<T>
    ghost var Repr: set<object>

    ghost predicate Valid()
      reads this, Repr
    {
      && this in Repr && list in Repr && list.Repr <= Repr && this !in list.Repr
      && list.Valid()
    }

    /** The items in the bag, in the order they were added. */
    ghost function Items(): seq<T>
      reads this, list
    {
      list.Contents
    }

    /** `LinkedBag::new`: an empty bag. */
    constructor ()
      ensures Valid() && fresh(Repr) && Items() == []
    {
      list := new LinkedList<T>();
      new;
      Repr := {this} + list.Repr;
    }

    /** `Bag::size`: the number of items added so far. */
    function Size(): (n: nat)
      reads this, Repr
      requires Valid()
      ensures n == |Items()|
    {
      list.Size()
    }

    /** `Bag::is_empty`, the trait default `size() == 0`. */
    function IsEmpty(): (b: bool)
      reads this, Repr
      requires Valid()
      ensures b <==> Items() == []
    {
      Size() == 0
    }

    /** `add`: the item is appended, whether or not an equal one is already there. */
    method Add(item: T)
      requires Valid()
      modifies Repr
      ensures Valid() && fresh(Repr - old(Repr))
      ensures Items() == old(Items()) + [item]
    {
      list.PushBack(item);
      Repr := Repr + list.Repr;
    }

    /** `LinkedBag::iter`: yields the items in the order added. */
    method Iter() returns (it: Iter<T>)
      requires Valid()
      ensures fresh(it) && it.Valid() && it.Remaining == Items()
    {
      it := list.Iter();
    }
  }

  /** `test_linked_bag`: an empty bag, then sizes 1 and 2 after adding 10 and 20. */
  method BagScenario() returns (sizes: seq<nat>, empties: seq<bool>)
    ensures sizes == [0, 1, 2]
    ensures empties == [true, false, false]
  {
    var bag := new LinkedBag<int>();
    var n0, e0 := bag.Size(), bag.IsEmpty();
    bag.Add(10);
    var n1, e1 := bag.Size(), bag.IsEmpty();
    bag.Add(20);
    var n2, e2 := bag.Size(), bag.IsEmpty();
    sizes, empties := [n0, n1, n2], [e0, e1, e2];
  }

  /** `test_linked_bag_iter`: after adding 10 to 50 the size is 5 and iteration yields them in order. */
  method BagIterScenario() returns (size: nat, items: seq<int>)
    ensures size == 5
    ensures items == [10, 20, 30, 40, 50]
  {
    var bag := new LinkedBag<int>();
    bag.Add(10);
    bag.Add(20);
    bag.Add(30);
    bag.Add(40);
    bag.Add(50);
    size := bag.Size();
    var it := bag.Iter();
    items := Collect(it);
  }

  /** Adding an item twice keeps both copies: the bag holds it twice. */
  method DuplicateScenario() returns (size: nat, items: seq<int>)
    ensures size == 2 && items == [7, 7]
  {
    var bag := new LinkedBag<int>();
    bag.Add(7);
    bag.Add(7);
    size := bag.Size();
    var it := bag.Iter();
    items := Collect(it);
  }
}
