/**
 * The doubly linked list of `list::linked_list`: a chain of heap nodes owned
 * front-to-back through `next`, with a non-owning `tail` pointer and a
 * non-owning `prev` back-pointer in every node.
 *
 * The ghost field `Nodes` lists the nodes of the chain in order; `Valid()`
 * ties `size`, `head`, `tail` and every `next`/`prev` link to it, and
 * `Contents` is the sequence of elements the list holds, front first.
 */
module LinkedLists {
  import opened Options

  class Node<T> {
    var prev: Node?<T>
    var next: Node?<T>
    var elem: T

    /** `Node::new`: an unlinked node holding `elem`. */
    constructor (elem: T)
      ensures this.elem == elem && prev == null && next == null
    {
      this.prev := null;
      this.next := null;
      this.elem := elem;
    }

    /** `Node::link`: makes `next` follow this node, with its back-pointer to this node. */
    method Link(next: Node<T>)
      requires next != this
      modifies this, next
      ensures this.next == next && next.prev == this
      ensures this.prev == old(this.prev) && this.elem == old(this.elem)
      ensures next.next == old(next.next) && next.elem == old(next.elem)
    {
      next.prev := this;
      this.next := next;
    }
  }

  class LinkedList<T> {
    var size: nat
    var head: Node?<T>
    var tail: Node?<T>

    ghost var Contents: seq<T>
    ghost var Nodes: seq<Node<T>>
    ghost var Repr: set<object>

    /**
     * The chain structure, without the rule that the head has no predecessor:
     * `size` counts the nodes, head and tail are the first and last node (both
     * absent exactly when the list is empty), `next` is the following node
     * (absent at the tail), and `prev` of every node after the head is the
     * node before it.
     */
    ghost predicate Chain()
      reads this, Repr
    {
      && this in Repr
      && (forall i | 0 <= i < |Nodes| :: Nodes[i] in Repr)
      && size == |Nodes| == |Contents|
      && (forall i, j | 0 <= i < j < |Nodes| :: Nodes[i] != Nodes[j])
      && (if Nodes == [] then head == null && tail == null
          else head == Nodes[0] && tail == Nodes[|Nodes| - 1])
      && (forall i | 0 <= i < |Nodes| :: Nodes[i].elem == Contents[i])
      && (forall i | 0 <= i < |Nodes| - 1 :: Nodes[i].next == Nodes[i + 1])
      && (tail != null ==> tail.next == null)
      && (forall i | 0 < i < |Nodes| :: Nodes[i].prev == Nodes[i - 1])
    }

    /** The representation invariant: the chain, and the head has no predecessor. */
    ghost predicate Valid()
      reads this, Repr
      ensures Valid() ==> this in Repr
    {
      Chain() && (head != null ==> head.prev == null)
    }

    /** `LinkedList::new`: an empty list with no head, no tail and size 0. */
    constructor ()
      ensures Valid() && fresh(Repr)
      ensures Contents == [] && size == 0 && head == null && tail == null
    {
      size := 0;
      head := null;
      tail := null;
      Contents := [];
      Nodes := [];
      Repr := {this};
    }

    /** `size`: the number of elements. */
    function Size(): (n: nat)
      reads this, Repr
      requires Valid()
      ensures n == |Contents|
    {
      size
    }

    /** `List::is_empty`, the trait default `size() == 0`. */
    function IsEmpty(): (b: bool)
      reads this, Repr
      requires Valid()
      ensures b <==> Contents == []
    {
      Size() == 0
    }

    /** `List::non_empty`, the trait default `size() != 0`. */
    function NonEmpty(): (b: bool)
      reads this, Repr
      requires Valid()
      ensures b <==> Contents != []
      ensures b == !IsEmpty()
    {
      Size() != 0
    }

    /** `push_back`: the new node becomes the tail, linked after the old tail. */
    method PushBack(elem: T)
      requires Valid()
      modifies Repr
      ensures Valid() && fresh(Repr - old(Repr))
      ensures Contents == old(Contents) + [elem]
      ensures tail != null && tail.prev == old(tail) && fresh(tail)
      ensures old(head) == null ==> head == tail
      ensures old(head) != null ==> head == old(head)
    {
      var node := new Node(elem);
      var oldTail := tail;
      tail := node;
      if oldTail == null {
        head := node;
      } else {
        oldTail.Link(node);
      }
      size := size + 1;
      Contents := Contents + [elem];
      Nodes := Nodes + [node];
      Repr := Repr + {node};
    }

    /** `push_front`: the new node becomes the head, linked before the old head. */
    method PushFront(elem: T)
      requires Valid()
      modifies Repr
      ensures Valid() && fresh(Repr - old(Repr))
      ensures Contents == [elem] + old(Contents)
      ensures head != null && fresh(head)
      ensures old(tail) == null ==> tail == head
      ensures old(tail) != null ==> tail == old(tail)
    {
      var node := new Node(elem);
      var oldHead := head;
      head := null;
      if oldHead == null {
        tail := node;
      } else {
        node.Link(oldHead);
      }
      head := node;
      size := size + 1;
      Contents := [elem] + Contents;
      Nodes := [node] + Nodes;
      Repr := Repr + {node};
      assert forall i | 0 < i < |Nodes| :: Nodes[i] == old(Nodes)[i - 1] && Contents[i] == old(Contents)[i - 1];
    }

    /**
     * `pop_back`: on an empty list returns None and changes nothing; otherwise
     * detaches the tail, whose predecessor becomes the new tail (or the head is
     * cleared when it was the only node), and returns its element.
     */
    method PopBack() returns (x: Option<T>)
      requires Valid()
      modifies Repr
      ensures Valid() && Repr <= old(Repr)
      ensures old(Contents) == [] ==> x == None && Contents == []
      ensures old(Contents) != [] ==>
                x == Some(old(Contents)[|old(Contents)| - 1]) &&
                Contents == old(Contents)[..|old(Contents)| - 1]
      ensures old(Contents) != [] ==> tail == old(tail.prev)
    {
      var node := tail;
      tail := null;
      if node == null {
        x := None;
        return;
      }
      size := size - 1;
      ghost var n := |Nodes|;
      assert node == Nodes[n - 1];
      assert n == 1 ==> node == head && node.prev == null;
      assert n > 1 ==> node.prev == Nodes[n - 2] && Nodes[n - 2].next == node;
      var prev := node.prev;
      if prev == null {
        var h := head;
        head := null;
        x := Some(h.elem);
      } else {
        tail := prev;
        var last := prev.next;
        prev.next := null;
        x := Some(last.elem);
      }
      Contents := Contents[..|Contents| - 1];
      Nodes := Nodes[..|Nodes| - 1];
      Repr := Repr - {node};
    }

    /**
     * `pop_front`: on an empty list returns None and changes nothing; otherwise
     * detaches the head, promotes its successor to head (or clears the tail
     * when it was the only node) and returns its element. Unlike the source,
     * the promoted node's back-pointer is reset (see `PopFrontAsWritten`).
     */
    method PopFront() returns (x: Option<T>)
      requires Valid()
      modifies Repr
      ensures Valid() && Repr <= old(Repr)
      ensures old(Contents) == [] ==> x == None && Contents == []
      ensures old(Contents) != [] ==>
                x == Some(old(Contents)[0]) && Contents == old(Contents)[1..]
      ensures old(Contents) != [] ==> head == old(head.next)
    {
      var h := head;
      head := null;
      if h == null {
        x := None;
        return;
      }
      size := size - 1;
      assert h == Nodes[0];
      assert |Nodes| > 1 ==> h.next == Nodes[1];
      var next := h.next;
      h.next := null;
      if next == null {
        tail := null;
      } else {
        next.prev := null;
        head := next;
      }
      x := Some(h.elem);
      Contents := Contents[1..];
      Nodes := Nodes[1..];
      Repr := Repr - {h};
    }

    /**
     * `pop_front` exactly as the source writes it: the promoted node keeps its
     * `prev` pointer to the node just removed. The chain and the contents are
     * right, but when a successor is promoted the head has a predecessor link
     * to a node that is no longer in the list.
     */
    method PopFrontAsWritten() returns (x: Option<T>)
      requires Valid()
      modifies Repr
      ensures Chain() && Repr <= old(Repr)
      ensures old(Contents) == [] ==> x == None && Contents == []
      ensures old(Contents) != [] ==>
                x == Some(old(Contents)[0]) && Contents == old(Contents)[1..]
      ensures old(Contents) != [] ==> old(head).next == null && old(head) !in Repr
      ensures |old(Contents)| >= 2 ==> head != null && head.prev == old(head)
    {
      var h := head;
      head := null;
      if h == null {
        x := None;
        return;
      }
      size := size - 1;
      assert h == Nodes[0];
      assert |Nodes| > 1 ==> h.next == Nodes[1];
      var next := h.next;
      h.next := null;
      if next == null {
        tail := null;
      } else {
        head := next;
      }
      x := Some(h.elem);
      Contents := Contents[1..];
      Nodes := Nodes[1..];
      Repr := Repr - {h};
    }

    /** `clear`: pops from the front while the list is non-empty. */
    method Clear()
      requires Valid()
      modifies Repr
      ensures Valid() && Repr <= old(Repr)
      ensures Contents == [] && size == 0 && head == null && tail == null
    {
      while NonEmpty()
        invariant Valid() && Repr <= old(Repr)
        decreases size
      {
        var _ := PopFront();
      }
    }

    /** `LinkedList::iter`: a fresh cursor at the head. */
    method Iter() returns (it: Iter<T>)
      requires Valid()
      ensures fresh(it) && it.Valid() && it.Remaining == Contents
    {
      it := new Iter(this);
    }

    /**
     * `iter_mut` as it is used: every element the mutable iterator yields is
     * replaced by `f` of itself. Element values change; the nodes, their
     * number and their order do not.
     */
    method ForEachMut(f: T -> T)
      requires Valid()
      modifies Repr
      ensures Valid() && Repr == old(Repr) && Nodes == old(Nodes)
      ensures size == old(size) && head == old(head) && tail == old(tail)
      ensures |Contents| == |old(Contents)|
      ensures forall i | 0 <= i < |Contents| :: Contents[i] == f(old(Contents)[i])
    {
      var cursor := head;
      ghost var k := 0;
      while cursor != null
        invariant Valid() && Repr == old(Repr) && Nodes == old(Nodes)
        invariant size == old(size) && head == old(head) && tail == old(tail)
        invariant 0 <= k <= |Nodes|
        invariant cursor == if k < |Nodes| then Nodes[k] else null
        invariant |Contents| == |old(Contents)|
        invariant forall i | 0 <= i < k :: Contents[i] == f(old(Contents)[i])
        invariant forall i | k <= i < |Contents| :: Contents[i] == old(Contents)[i]
        decreases |Nodes| - k
      {
        SetElem(cursor, k, f(cursor.elem));
        cursor := cursor.next;
        k := k + 1;
      }
    }

    /** Writes one element in place through its node; the chain is untouched. */
    method SetElem(node: Node<T>, ghost k: int, v: T)
      requires Valid() && 0 <= k < |Nodes| && node == Nodes[k]
      modifies this, node
      ensures Valid() && Repr == old(Repr) && Nodes == old(Nodes)
      ensures size == old(size) && head == old(head) && tail == old(tail)
      ensures Contents == old(Contents)[k := v]
    {
      node.elem := v;
      Contents := Contents[k := v];
    }

    /** Front-to-back traversal with `iter()`: yields exactly the contents, `size` items. */
    method Elements() returns (s: seq<T>)
      requires Valid()
      ensures s == Contents && |s| == size
    {
      var it := Iter();
      s := Collect(it);
    }
  }

  /**
   * `linked_list::Iter`: a cursor over the nodes, front to back. `Rest` is the
   * chain of nodes from the cursor to the tail, and `Remaining` their elements,
   * the items still to be yielded.
   */
  class Iter<T> {
    var next: Node?<T>
    ghost var Rest: seq<Node<T>>
    ghost var Remaining: seq<T>

    ghost predicate Valid()
      reads this, Rest
    {
      && |Rest| == |Remaining|
      && next == (if Rest == [] then null else Rest[0])
      && (forall i | 0 <= i < |Rest| :: Rest[i].elem == Remaining[i])
      && (forall i | 0 <= i < |Rest| - 1 :: Rest[i].next == Rest[i + 1])
      && (Rest != [] ==> Rest[|Rest| - 1].next == null)
    }

    constructor (list: LinkedList<T>)
      requires list.Valid()
      ensures Valid() && Remaining == list.Contents && Rest == list.Nodes
    {
      this.next := list.head;
      this.Rest := list.Nodes;
      this.Remaining := list.Contents;
    }

    /** `Iter::next`: yields the element under the cursor and advances it. */
    method Next() returns (x: Option<T>)
      requires Valid()
      modifies this
      ensures Valid()
      ensures old(Remaining) == [] ==> x == None && Remaining == []
      ensures old(Remaining) != [] ==>
                x == Some(old(Remaining)[0]) && Remaining == old(Remaining)[1..]
    {
      var node := next;
      next := null;
      if node == null {
        x := None;
      } else {
        next := node.next;
        x := Some(node.elem);
        Rest := Rest[1..];
        Remaining := Remaining[1..];
      }
    }
  }

  /** Drains an iterator (what `collect()` and `count()` do): the items it yields, in order. */
  method Collect<T>(it: Iter<T>) returns (s: seq<T>)
    requires it.Valid()
    modifies it
    ensures s == old(it.Remaining)
  {
    s := [];
    while it.next != null
      invariant it.Valid()
      invariant |s| <= |old(it.Remaining)|
      invariant s == old(it.Remaining)[..|s|] && it.Remaining == old(it.Remaining)[|s|..]
      decreases |it.Remaining|
    {
      var x := it.Next();
      s := s + [x.value];
    }
  }
}
