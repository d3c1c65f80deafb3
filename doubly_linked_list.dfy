/**
 * The doubly linked list `doubly_linked_list<T>` of list/doubly_linked_list: nodes owned
 * along the `next` chain from `head`, with `prev` links back, a `tail` and a count `size`.
 */
module DoublyLinkedLists {
  import opened Sequences

  /** A list node: one element, the link to the node before it and the node after it. */
  class Node<T> {
    var info: T
    var prev: Node?<T>
    var next: Node?<T>

    constructor (value: T)
      ensures info == value && prev == null && next == null
    {
      info := value;
      prev, next := null, null;
    }
  }

  class DoublyLinkedList<T(==)> {
    var head: Node?<T>
    var tail: Node?<T>
    var size: nat

    /** The elements in list order. */
    ghost var Contents: seq<T>
    /** The nodes of the chain from `head`, in order. */
    ghost var Nodes: seq<Node<T>>
    /** The objects this list owns. */
    ghost var Repr: set<object>

    /**
     * `head` starts a chain of distinct nodes holding `Contents`, counting `size` nodes,
     * in which every node's `prev` is the node whose `next` it is; the first node has no
     * `prev`, the last no `next`, and `tail` is the last node (null on an empty list).
     */
    ghost predicate Valid()
      reads this, Repr
      ensures Valid() ==> this in Repr
    {
      this in Repr &&
      (forall i :: 0 <= i < |Nodes| ==> Nodes[i] in Repr) &&
      size == |Nodes| == |Contents| &&
      (forall i :: 0 <= i < |Nodes| ==> Nodes[i].info == Contents[i]) &&
      (forall i :: 0 <= i < |Nodes| - 1 ==> Nodes[i].next == Nodes[i + 1]) &&
      (forall i :: 0 < i < |Nodes| ==> Nodes[i].prev == Nodes[i - 1]) &&
      (forall i, j :: 0 <= i < j < |Nodes| ==> Nodes[i] != Nodes[j]) &&
      if Nodes == [] then head == null && tail == null
      else head == Nodes[0] && head.prev == null &&
           tail == Nodes[|Nodes| - 1] && tail.next == null
    }

    /** doubly_linked_list(): the empty list. */
    constructor ()
      ensures Valid() && fresh(Repr)
      ensures Contents == [] && head == null && tail == null && size == 0
    {
      head, tail, size := null, null, 0;
      Contents, Nodes, Repr := [], [], {this};
    }

    /**
     * doubly_linked_list(init, n): `n` nodes, each holding `init`; every step of the loop links
     * a new node at the tail exactly as push_back does, and counts it.
     */
    constructor Fill(init: T, initSize: nat)
      ensures Valid() && fresh(Repr)
      ensures Contents == Repeat(init, initSize) && size == initSize
    {
      head, tail, size := null, null, 0;
      Contents, Nodes, Repr := [], [], {this};
      new;
      while size < initSize
        invariant Valid() && fresh(Repr)
        invariant size <= initSize && Contents == Repeat(init, size)
        decreases initSize - size
      {
        PushBack(init);
      }
    }

    /** doubly_linked_list(doubly_linked_list&&): takes over `dll`'s chain and leaves `dll` empty. */
    constructor Move(dll: DoublyLinkedList<T>)
      requires dll.Valid()
      modifies dll
      ensures Valid() && dll.Valid()
      ensures Contents == old(dll.Contents) && size == old(dll.size)
      ensures head == old(dll.head) && tail == old(dll.tail)
      ensures dll.head == null && dll.tail == null && dll.size == 0 && dll.Contents == []
      ensures Repr == old(dll.Repr) - {dll} + {this} && dll.Repr == {dll}
    {
      head, tail, size := dll.head, dll.tail, dll.size;
      Contents, Nodes, Repr := dll.Contents, dll.Nodes, dll.Repr - {dll} + {this};
      new;
      dll.Reset();
    }

    /** doubly_linked_list(const doubly_linked_list&): appends `dll`'s elements one by one. */
    constructor Copy(dll: DoublyLinkedList<T>)
      requires dll.Valid()
      ensures Valid() && fresh(Repr)
      ensures Contents == dll.Contents && size == dll.size
    {
      head, tail, size := null, null, 0;
      Contents, Nodes, Repr := [], [], {this};
      new;
      var it := dll.head;
      ghost var k := 0;
      while it != null
        invariant Valid() && fresh(Repr)
        invariant 0 <= k <= |dll.Nodes|
        invariant it == if k < |dll.Nodes| then dll.Nodes[k] else null
        invariant Contents == dll.Contents[..k]
        decreases |dll.Nodes| - k
      {
        PushBack(it.info);
        it := it.next;
        k := k + 1;
      }
    }

    /** operator=(const doubly_linked_list&): unless `dll` is this list, empties it and appends `dll`'s elements. */
    method CopyAssign(dll: DoublyLinkedList<T>)
      requires Valid() && dll.Valid()
      requires dll == this || Repr !! dll.Repr
      modifies Repr
      ensures Valid() && fresh(Repr - old(Repr))
      ensures dll == this ==> unchanged(this)
      ensures Contents == old(dll.Contents) && size == old(dll.size)
      ensures dll.Valid() && dll.Contents == old(dll.Contents)
    {
      if this != dll {
        Reset();
        var it := dll.head;
        ghost var k := 0;
        while it != null
          invariant Valid() && fresh(Repr - old(Repr)) && Repr !! dll.Repr
          invariant dll.Valid() && dll.Contents == old(dll.Contents)
          invariant 0 <= k <= |dll.Nodes|
          invariant it == if k < |dll.Nodes| then dll.Nodes[k] else null
          invariant Contents == dll.Contents[..k]
          decreases |dll.Nodes| - k
        {
          PushBack(it.info);
          it := it.next;
          k := k + 1;
        }
      }
    }

    /**
     * operator=(doubly_linked_list&&): unless `dll` is this list, drops its chain, takes over
     * `dll`'s chain and leaves `dll` empty.
     */
    method MoveAssign(dll: DoublyLinkedList<T>)
      requires Valid() && dll.Valid()
      requires dll == this || Repr !! dll.Repr
      modifies this, dll
      ensures Valid() && dll.Valid()
      ensures dll == this ==> unchanged(this)
      ensures Contents == old(dll.Contents) && size == old(dll.size)
      ensures dll != this ==> head == old(dll.head) && tail == old(dll.tail)
      ensures dll != this ==> dll.head == null && dll.tail == null && dll.size == 0 && dll.Contents == []
      ensures dll != this ==> Repr == old(dll.Repr) - {dll} + {this} && dll.Repr == {dll}
    {
      if this != dll {
        Reset();
        head, tail, size := dll.head, dll.tail, dll.size;
        Contents, Nodes, Repr := dll.Contents, dll.Nodes, dll.Repr - {dll} + {this};
        dll.Reset();
      }
    }

    /**
     * `head.reset(); tail = nullptr; size = 0;`: the list lets go of its chain and is left
     * empty; the nodes themselves are not touched.
     */
    method Reset()
      modifies this
      ensures Valid() && Repr == {this}
      ensures head == null && tail == null && size == 0 && Contents == []
    {
      head, tail, size := null, null, 0;
      Contents, Nodes, Repr := [], [], {this};
    }

    /**
     * operator==: the sizes agree and the chains, walked together from the heads, hold equal
     * elements at every step.
     */
    method Equals(dll: DoublyLinkedList<T>) returns (b: bool)
      requires Valid() && dll.Valid()
      ensures b <==> Contents == dll.Contents
    {
      if size != dll.size {
        return false;
      }
      var it := head;
      var itDll := dll.head;
      ghost var k := 0;
      while it != null
        invariant 0 <= k <= |Nodes|
        invariant it == if k < |Nodes| then Nodes[k] else null
        invariant itDll == if k < |dll.Nodes| then dll.Nodes[k] else null
        invariant Contents[..k] == dll.Contents[..k]
        decreases |Nodes| - k
      {
        if it.info != itDll.info {
          assert Contents[k] != dll.Contents[k];
          return false;
        }
        assert Contents[..k + 1] == Contents[..k] + [Contents[k]];
        assert dll.Contents[..k + 1] == dll.Contents[..k] + [dll.Contents[k]];
        it := it.next;
        itDll := itDll.next;
        k := k + 1;
      }
      assert Contents[..k] == Contents && dll.Contents[..k] == dll.Contents;
      return true;
    }

    /** operator!=: the negation of operator==. */
    method NotEquals(dll: DoublyLinkedList<T>) returns (b: bool)
      requires Valid() && dll.Valid()
      ensures b <==> Contents != dll.Contents
    {
      var eq := Equals(dll);
      b := !eq;
    }

    /** push_back: a new node, whose `prev` is the old tail, becomes the tail. */
    method PushBack(el: T)
      requires Valid()
      modifies Repr
      ensures Valid() && fresh(Repr - old(Repr))
      ensures Contents == old(Contents) + [el] && size == old(size) + 1
      ensures tail != null && fresh(tail) && tail.info == el && tail.prev == old(tail)
    {
      var toAdd := new Node(el);
      toAdd.prev := tail;
      if head == null {
        head := toAdd;
        tail := head;
      } else {
        tail.next := toAdd;
        tail := tail.next;
      }
      size := size + 1;
      Contents, Nodes, Repr := Contents + [el], Nodes + [toAdd], Repr + {toAdd};
    }

    /**
     * push_front, relinked as intended and counting the new node: a new node becomes the
     * head, the old head's `prev` points back to it, and on an empty list it is also the tail.
     */
    method PushFront(el: T)
      requires Valid()
      modifies Repr
      ensures Valid() && fresh(Repr - old(Repr))
      ensures Contents == [el] + old(Contents) && size == old(size) + 1
      ensures head != null && fresh(head) && head.info == el
      ensures old(head) == null ==> tail == head
      ensures old(head) != null ==> tail == old(tail)
      ensures old(head) != null ==> head.next == old(head) && old(head).prev == head
    {
      var toAdd := new Node(el);
      if head == null {
        head := toAdd;
        tail := head;
      } else {
        toAdd.next := head;
        head := toAdd;
        head.next.prev := head;
      }
      size := size + 1;
      Contents, Nodes, Repr := [el] + Contents, [toAdd] + Nodes, Repr + {toAdd};
    }

    /**
     * push_front as written, on the one branch that runs to completion (an empty list; on a
     * non-empty list the code dereferences the pointer it has just moved from): the node is
     * linked in but `size` is not incremented, so the list no longer counts its nodes.
     */
    method PushFrontAsWritten(el: T)
      requires Valid() && head == null
      modifies Repr
      ensures head != null && head == tail && head.info == el
      ensures Contents == [el] && size == old(size) == 0
      ensures !Valid()
    {
      var toAdd := new Node(el);
      head := toAdd;
      tail := head;
      Contents, Nodes, Repr := [el] + Contents, [toAdd] + Nodes, Repr + {toAdd};
    }

    /** get_size: the number of nodes. */
    method GetSize() returns (n: nat)
      requires Valid()
      ensures n == |Contents| && n == |Nodes|
    {
      n := size;
    }

    /**
     * The order in which reverse_iterator visits the elements: from `tail` (rbegin) along
     * `prev` until null (rend). It is the list order reversed.
     */
    method ReverseTraversal() returns (visited: seq<T>)
      requires Valid()
      ensures visited == Reversed(Contents)
    {
      visited := [];
      var it := tail;
      ghost var k := |Nodes|;
      while it != null
        invariant 0 <= k <= |Nodes|
        invariant it == if k == 0 then null else Nodes[k - 1]
        invariant |visited| == |Nodes| - k
        invariant forall j :: 0 <= j < |visited| ==> visited[j] == Contents[|Contents| - 1 - j]
        decreases k
      {
        visited := visited + [it.info];
        it := it.prev;
        k := k - 1;
      }
      ReversedByIndex(Contents, visited);
    }
  }

  /**
   * Copying yields an equal list, and walking it backwards gives the source's elements
   * reversed, so reversing that walk gives them back in list order.
   */
  method CopyIsEqual<T(==)>(dll: DoublyLinkedList<T>) returns (c: DoublyLinkedList<T>, same: bool, back: seq<T>)
    requires dll.Valid()
    ensures c.Valid() && same
    ensures back == Reversed(dll.Contents)
    ensures Reversed(back) == dll.Contents
  {
    c := new DoublyLinkedList.Copy(dll);
    same := c.Equals(dll);
    back := c.ReverseTraversal();
    ReversedInvolution(dll.Contents);
  }
}
