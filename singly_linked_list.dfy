/**
 * The singly linked list `singly_linked_list<T>` of list/singly_linked_list: a chain of
 * nodes linked by `next`, with `head`, `tail` and an element count `size`.
 */
module SinglyLinkedLists {
  import opened Results
  import opened Sequences

  /** A list node: one element and the link to the node after it. */
  class Node<T> {
    var info: T
    var next: Node?<T>

    constructor (value: T)
      ensures info == value && next == null
    {
      info := value;
      next := null;
    }
  }

  class SinglyLinkedList<T(==)> {
    var head: Node?<T>
    var tail: Node?<T>
    var size: nat

    /** The elements in list order. */
    ghost var Contents: seq<T>
    /** The nodes of the chain from `head`, in order. */
    ghost var Nodes: seq<Node<T>>
    /** The objects this list owns. */
    ghost var Repr: set<object>

    /**
     * `head` starts a chain of distinct nodes holding `Contents` whose last node has no
     * successor and counts `size` nodes; on a non-empty list `tail` is that last node.
     * On an empty list `tail` is unconstrained: `clear` leaves it dangling and every
     * operation tests `head` first.
     */
    ghost predicate Valid()
      reads this, Repr
      ensures Valid() ==> this in Repr
    {
      this in Repr &&
      (forall i :: 0 <= i < |Nodes| ==> Nodes[i] in Repr) &&
      size == |Nodes| == |Contents| &&
      (forall i :: 0 <= i < |Nodes| ==> Nodes[i].info == Contents[i]) &&
      (forall i :: 0 <= i < |Nodes| - 1 ==> Nodes[i].next == Nodes[i + 1]) &&
      (forall i, j :: 0 <= i < j < |Nodes| ==> Nodes[i] != Nodes[j]) &&
      if Nodes == [] then head == null
      else head == Nodes[0] && tail == Nodes[|Nodes| - 1] && tail.next == null
    }

    /** singly_linked_list(): the empty list. */
    constructor ()
      ensures Valid() && fresh(Repr)
      ensures Contents == [] && head == null && tail == null && size == 0
    {
      head, tail, size := null, null, 0;
      Contents, Nodes, Repr := [], [], {this};
    }

    /** singly_linked_list(const singly_linked_list&): appends `l`'s elements one by one. */
    constructor Copy(l: SinglyLinkedList<T>)
      requires l.Valid()
      ensures Valid() && fresh(Repr)
      ensures Contents == l.Contents
    {
      head, tail, size := null, null, 0;
      Contents, Nodes, Repr := [], [], {this};
      new;
      var it := l.head;
      ghost var k := 0;
      while it != null
        invariant Valid() && fresh(Repr)
        invariant 0 <= k <= |l.Nodes|
        invariant it == if k < |l.Nodes| then l.Nodes[k] else null
        invariant Contents == l.Contents[..k]
        decreases |l.Nodes| - k
      {
        PushBack(it.info);
        it := it.next;
        k := k + 1;
      }
    }

    /** singly_linked_list(singly_linked_list&&): takes over `l`'s chain and leaves `l` empty. */
    constructor Move(l: SinglyLinkedList<T>)
      requires l.Valid()
      modifies l
      ensures Valid() && l.Valid()
      ensures Contents == old(l.Contents) && size == old(l.size)
      ensures head == old(l.head) && tail == old(l.tail)
      ensures l.head == null && l.tail == null && l.size == 0 && l.Contents == []
      ensures Repr == old(l.Repr) - {l} + {this} && l.Repr == {l}
    {
      head, tail, size := l.head, l.tail, l.size;
      Contents, Nodes, Repr := l.Contents, l.Nodes, l.Repr - {l} + {this};
      new;
      l.Reset();
    }

    /** operator=(const singly_linked_list&): unless `l` is this list, clears it and appends `l`'s elements. */
    method CopyAssign(l: SinglyLinkedList<T>)
      requires Valid() && l.Valid()
      requires l == this || Repr !! l.Repr
      modifies Repr
      ensures Valid() && fresh(Repr - old(Repr))
      ensures l == this ==> unchanged(this)
      ensures Contents == old(l.Contents)
      ensures l.Valid() && l.Contents == old(l.Contents)
    {
      if this != l {
        Clear();
        var toAdd := l.head;
        ghost var k := 0;
        while toAdd != null
          invariant Valid() && fresh(Repr - old(Repr)) && Repr !! l.Repr
          invariant l.Valid() && l.Contents == old(l.Contents)
          invariant 0 <= k <= |l.Nodes|
          invariant toAdd == if k < |l.Nodes| then l.Nodes[k] else null
          invariant Contents == l.Contents[..k]
          decreases |l.Nodes| - k
        {
          PushBack(toAdd.info);
          toAdd := toAdd.next;
          k := k + 1;
        }
      }
    }

    /**
     * operator=(singly_linked_list&&) with the source's `size` reset as well: unless `l` is
     * this list, clears it, takes over `l`'s chain and leaves `l` empty.
     */
    method MoveAssign(l: SinglyLinkedList<T>)
      requires Valid() && l.Valid()
      requires l == this || Repr !! l.Repr
      modifies Repr, l
      ensures Valid() && l.Valid()
      ensures l == this ==> unchanged(this)
      ensures Contents == old(l.Contents) && size == old(l.size)
      ensures l != this ==> head == old(l.head) && tail == old(l.tail)
      ensures l != this ==> l.head == null && l.tail == null && l.size == 0 && l.Contents == []
      ensures l != this ==> Repr == old(l.Repr) - {l} + {this} && l.Repr == {l}
    {
      if this != l {
        Clear();
        head, tail, size := l.head, l.tail, l.size;
        Contents, Nodes, Repr := l.Contents, l.Nodes, l.Repr - {l} + {this};
        l.Reset();
      }
    }

    /**
     * `head = tail = nullptr; size = 0;`, what the move constructor does to its source: the
     * list lets go of its chain and is left empty; the nodes themselves are not touched.
     */
    method Reset()
      modifies this
      ensures Valid() && Repr == {this}
      ensures head == null && tail == null && size == 0 && Contents == []
    {
      head, tail := null, null;
      size := 0;
      Contents, Nodes, Repr := [], [], {this};
    }

    /**
     * operator=(singly_linked_list&&) as written: the source's chain is detached but its
     * `size` is kept, so a non-empty source is left claiming elements it no longer has.
     * Only the branch for two distinct lists is modelled here; the self-move branch, which
     * changes nothing, is the one of MoveAssign.
     */
    method MoveAssignAsWritten(l: SinglyLinkedList<T>)
      requires Valid() && l.Valid()
      requires l != this && Repr !! l.Repr
      modifies Repr, l
      ensures Valid()
      ensures Contents == old(l.Contents) && size == old(l.size)
      ensures l.head == null && l.tail == null && l.Contents == [] && l.size == old(l.size)
      ensures old(l.size) > 0 ==> !l.Valid()
      ensures Repr == old(l.Repr) - {l} + {this} && l.Repr == {l}
    {
      Clear();
      head, tail, size := l.head, l.tail, l.size;
      Contents, Nodes, Repr := l.Contents, l.Nodes, l.Repr - {l} + {this};
      l.head, l.tail := null, null;
      l.Contents, l.Nodes, l.Repr := [], [], {l};
    }

    /** push_back: a new node holding `value` becomes the tail. */
    method PushBack(value: T)
      requires Valid()
      modifies Repr
      ensures Valid() && fresh(Repr - old(Repr))
      ensures Contents == old(Contents) + [value] && size == old(size) + 1
      ensures tail != null && fresh(tail) && tail.info == value
    {
      var toAdd := new Node(value);
      if head == null {
        head, tail := toAdd, toAdd;
      } else {
        tail.next := toAdd;
        tail := tail.next;
      }
      size := size + 1;
      Contents, Nodes, Repr := Contents + [value], Nodes + [toAdd], Repr + {toAdd};
    }

    /** pop_back: nothing on an empty list; otherwise the tail's predecessor becomes the tail. */
    method PopBack()
      requires Valid()
      modifies Repr
      ensures Valid() && Repr == old(Repr)
      ensures old(Contents) == [] ==> Contents == [] && size == 0
      ensures old(Contents) != [] ==>
                Contents == old(Contents)[..|old(Contents)| - 1] && size == old(size) - 1
    {
      if head == null {
        return;
      }
      if head == tail {
        head, tail := null, null;
      } else {
        var it := head;
        ghost var k := 0;
        while it.next != tail
          invariant 0 <= k < |Nodes| - 1 && it == Nodes[k]
          decreases |Nodes| - k
        {
          it := it.next;
          k := k + 1;
        }
        assert Nodes[k + 1] == Nodes[|Nodes| - 1];
        tail := it;
        tail.next := null;
      }
      size := size - 1;
      Contents, Nodes := Contents[..|Contents| - 1], Nodes[..|Nodes| - 1];
    }

    /** push_front: a new node holding `value` becomes the head. */
    method PushFront(value: T)
      requires Valid()
      modifies Repr
      ensures Valid() && fresh(Repr - old(Repr))
      ensures Contents == [value] + old(Contents) && size == old(size) + 1
    {
      var toAdd := new Node(value);
      if head == null {
        head, tail := toAdd, toAdd;
      } else {
        toAdd.next := head;
        head := toAdd;
      }
      size := size + 1;
      Contents, Nodes, Repr := [value] + Contents, [toAdd] + Nodes, Repr + {toAdd};
    }

    /** pop_front: nothing on an empty list; otherwise the head's successor becomes the head. */
    method PopFront()
      requires Valid()
      modifies Repr
      ensures Valid() && Repr == old(Repr)
      ensures old(Contents) == [] ==> Contents == [] && size == 0
      ensures old(Contents) != [] ==> Contents == old(Contents)[1..] && size == old(size) - 1
    {
      if head == null {
        return;
      }
      if head == tail {
        head, tail := null, null;
      } else {
        head := head.next;
      }
      size := size - 1;
      Contents, Nodes := Contents[1..], Nodes[1..];
    }

    /**
     * search: the first node, in list order, whose element equals `value` (the source returns
     * a reference to that node's element), or runtime_error when no element equals it.
     */
    method Search(value: T) returns (r: Result<Node<T>>)
      requires Valid()
      ensures r.Err? <==> value !in Contents
      ensures r.Err? ==> r.error == RuntimeError
      ensures r.Ok? ==> r.value == Nodes[IndexOf(Contents, value)] && r.value.info == value
    {
      var it := head;
      ghost var k := 0;
      while it != null
        invariant 0 <= k <= |Nodes|
        invariant it == if k < |Nodes| then Nodes[k] else null
        invariant value !in Contents[..k]
        decreases |Nodes| - k
      {
        if it.info == value {
          assert IndexOf(Contents, value) == k by {
            assert Contents[k] == value;
          }
          return Ok(it);
        }
        assert Contents[..k + 1] == Contents[..k] + [Contents[k]];
        it := it.next;
        k := k + 1;
      }
      assert Contents[..k] == Contents;
      return Err(RuntimeError);
    }

    /** get_size. */
    method GetSize() returns (n: nat)
      requires Valid()
      ensures n == |Contents|
    {
      n := size;
    }

    /** clear: unlinks every node from `head` on; `tail` is left as it was. */
    method Clear()
      requires Valid()
      modifies this
      ensures Valid() && Repr == old(Repr)
      ensures Contents == [] && head == null && size == 0 && tail == old(tail)
    {
      ghost var k := 0;
      while head != null
        invariant 0 <= k <= |Nodes| && Nodes == old(Nodes) && Repr == old(Repr)
        invariant tail == old(tail)
        invariant head == if k < |Nodes| then Nodes[k] else null
        decreases |Nodes| - k
      {
        head := head.next;
        k := k + 1;
      }
      size := 0;
      Contents, Nodes := [], [];
    }
  }

  /** A copy owns its nodes: appending to the copy leaves the original as it was. */
  method AppendToCopy<T(==)>(l: SinglyLinkedList<T>, x: T) returns (c: SinglyLinkedList<T>)
    requires l.Valid()
    ensures c.Valid() && l.Valid()
    ensures c.Contents == l.Contents + [x]
    ensures fresh(c.Repr)
  {
    c := new SinglyLinkedList.Copy(l);
    c.PushBack(x);
  }
}
