# Verified model of three hand-written containers

This project models the three single-owner containers of the AlgoRhytms library in
Dafny and proves what each operation does to the container's abstract state.

- `vector<T>` (`vector/vector.cpp`) becomes the class `Vectors.Vector`. Its fields are
  `data: array?<T>`, `size` and `capacity`. `Valid()` says `size <= capacity` and that
  `capacity` is the length of `data`, or 0 when there is no buffer. The ghost function
  `Elements()` is the live prefix `data[..size]`.
- `singly_linked_list<T>` (`list/singly_linked_list/singly_linked_list.cpp`) becomes
  `SinglyLinkedLists.SinglyLinkedList`. It has `head`, `tail`, `size` and `Node`
  objects linked by `next`. The ghost fields are `Contents` (the elements in order),
  `Nodes` (the chain from `head`) and `Repr` (the objects the list owns). `Valid()`
  states that the chain holds `Contents` and has no repeated node, that `size` counts
  it, that `head` is null exactly when the list is empty, and that `tail` is the last
  node when the list is not empty.
- `doubly_linked_list<T>` (`list/doubly_linked_list/doubly_linked_list.cpp`) becomes
  `DoublyLinkedLists.DoublyLinkedList`. It is the same, plus `prev` links. `Valid()`
  also says that each node's `prev` is its predecessor on the `next` chain, and that
  `tail` is null on an empty list. `ReverseTraversal` walks from `tail` along `prev`,
  as `reverse_iterator` does, and is proved to yield `Reversed(Contents)`.

Operations that throw return a `Results.Result`: `Err(OutOfRange)` for
`std::out_of_range` and `Err(RuntimeError)` for `std::runtime_error`. Methods that change
a container state its whole new state in terms of the old one. The list methods other
than `MoveAssignAsWritten` and `PushFrontAsWritten` keep `Valid()`. The constructors and
methods that allocate nodes say that the new objects in `Repr` are fresh; the move
constructors and move assignments state that the target takes over the source's `Repr`
and that the source is left owning only itself. Self-assignment
is proved to leave the target unchanged.

Three behaviours of the vector code that the model keeps:
- `push_back` doubles a full buffer's capacity (vector/vector.cpp:41). For capacity 0 the
  code computes 0, which `GrowthAsWritten` keeps and `PushBack` replaces by 1 (see Findings).
- `vector(init, 0)` allocates `new T[0]`, so it has capacity 0 (vector/vector.cpp:13-14).
- Copy assignment releases the old buffer before it allocates the new one
  (vector/vector.cpp:58-60). The model does the same, and allocation cannot fail in it.

## Model

| member | source | states |
|---|---|---|
| `Vectors.Vector.constructor` | vector/vector.cpp:10 | an empty vector with `size == 0`, `capacity == 10` and a fresh buffer of 10 slots |
| `Vectors.Vector.Fill` | vector/vector.cpp:13-15 | `size == n`, `capacity == 2 * n`, a fresh buffer, and every element equal to `init` (`Elements() == Repeat(init, n)`) |
| `Vectors.Vector.Copy` | vector/vector.cpp:18-20 | the same `size`, `capacity` and elements as the source, in a fresh buffer |
| `Vectors.Vector.Move` | vector/vector.cpp:23-26 | takes over the source's `data`, `size` and `capacity`; the source is left with null `data` and `size == capacity == 0` |
| `Vectors.Vector.GetSize` | vector/vector.cpp:34-36 | the result is the number of live elements |
| `Vectors.Vector.PushBack` | vector/vector.cpp:39-53 | `size` grows by exactly 1; the elements become the old elements followed by `el`, so earlier indices keep their values; `size <= capacity` is kept; a full buffer is replaced by a fresh one of `Growth(capacity)` slots, otherwise `capacity` and the buffer stay the same |
| `Vectors.GrowthAsWritten` | vector/vector.cpp:41 | the capacity the code computes for a full buffer: 0 for capacity 0, double otherwise |
| `Vectors.GrowthAsWrittenMakesRoomIffNonEmpty` | vector/vector.cpp:40-51 | the computed capacity has room for one more element if and only if the old capacity was positive; capacity 0 is "grown" to 0 |
| `Vectors.Growth` | vector/vector.cpp:41 | the growth rule the model uses: always larger than the old capacity, and equal to the code's doubling whenever the old capacity is positive |
| `Vectors.Vector.CopyAssign` | vector/vector.cpp:56-66 | unless it is self-assignment, the target gets the source's `size`, `capacity` and elements in a fresh buffer; self-assignment changes nothing; the source's elements are unchanged |
| `Vectors.Vector.MoveAssign` | vector/vector.cpp:69-81 | unless it is self-assignment, the target takes over the source's buffer, `size` and `capacity`, and the source is left with null `data` and `size == capacity == 0`; self-assignment changes nothing |
| `Vectors.Vector.At` | vector/vector.cpp:84-87 | `Err(OutOfRange)` exactly when `index >= size`, and otherwise `Ok` of element `index` |
| `Vectors.Vector.Empty` | vector/vector.cpp:90-92 | true exactly when there are no elements |
| `Vectors.Vector.Back` | vector/vector.cpp:95-98 | `Err(OutOfRange)` exactly when the vector is empty, and otherwise the last element |
| `Vectors.Vector.Front` | vector/vector.cpp:101-104 | `Err(OutOfRange)` exactly when the vector is empty, and otherwise element 0 |
| `Vectors.Vector.Equals` | vector/vector.cpp:107-115 | true exactly when the two element sequences are equal, that is, same size and equal elements index by index; a vector always equals itself |
| `Vectors.Vector.NotEquals` | vector/vector.cpp:118-120 | true exactly when the element sequences differ, the negation of `Equals` |
| `Vectors.Vector.Clear` | vector/vector.cpp:123-129 | no elements, `size == 0`, `capacity == 10`, and a fresh buffer of 10 slots |
| `Vectors.Vector.CleanUp` | vector/vector.cpp:132-136 | null `data`, `size == capacity == 0` |
| `Vectors.Vector.CopyFrom` | vector/vector.cpp:139-141 | the first `v.size` slots hold `v`'s elements in order and the other slots are unchanged |
| `Vectors.AppendToCopy` | vector/vector.cpp:18-20 | appending to a copy gives the original's elements plus the new one, and the original keeps its elements; the copy's buffer is fresh, so it is separate storage |
| `Vectors.AppendAfterCopy` | vector/vector.cpp:18-20 | appending to the original after copying it leaves the copy with the original's old elements |
| `SinglyLinkedLists.Node.constructor` | list/singly_linked_list/singly_linked_list.cpp:10 | a node holding `value` with no successor |
| `SinglyLinkedLists.SinglyLinkedList.constructor` | list/singly_linked_list/singly_linked_list.cpp:17 | the empty list: null `head` and `tail`, `size == 0` |
| `SinglyLinkedLists.SinglyLinkedList.Copy` | list/singly_linked_list/singly_linked_list.cpp:26-33 | a valid list with fresh nodes and the source's elements in the source's order |
| `SinglyLinkedLists.SinglyLinkedList.Move` | list/singly_linked_list/singly_linked_list.cpp:42-45 | takes over the source's `head`, `tail`, `size` and elements; the source is left with null `head` and `tail`, `size == 0` and no elements; the target owns the source's nodes (its `Repr` is the source's old `Repr` with the source replaced by the target) and the source owns only itself, so both can be used again |
| `SinglyLinkedLists.SinglyLinkedList.CopyAssign` | list/singly_linked_list/singly_linked_list.cpp:64-76 | the target ends up with the source's elements in order; the source is unchanged; self-assignment changes nothing |
| `SinglyLinkedLists.SinglyLinkedList.Reset` | list/singly_linked_list/singly_linked_list.cpp:43-44 | `head = tail = nullptr; size = 0;`, as the move constructor leaves its source: an empty valid list with null `head` and `tail`, `size == 0`, owning only itself |
| `SinglyLinkedLists.SinglyLinkedList.MoveAssign` | list/singly_linked_list/singly_linked_list.cpp:85-96 | corrected move assignment: the target takes over the source's `head`, `tail`, elements and `size`; the source is left with null `head`/`tail`, `size == 0` and no elements; the target owns the source's nodes (its `Repr` is the source's old `Repr` with the source replaced by the target) and the source owns only itself, so both can be used again; self-assignment changes nothing |
| `SinglyLinkedLists.SinglyLinkedList.MoveAssignAsWritten` | list/singly_linked_list/singly_linked_list.cpp:85-96 | move assignment as written: the target gets the source's elements, but the source keeps its old `size` with no nodes, so a non-empty source no longer satisfies `Valid()`; the target owns the source's nodes and the source owns only itself |
| `SinglyLinkedLists.SinglyLinkedList.PushBack` | list/singly_linked_list/singly_linked_list.cpp:111-124 | the elements become the old elements followed by `value`; `size` grows by 1; a fresh tail node holds `value` |
| `SinglyLinkedLists.SinglyLinkedList.PopBack` | list/singly_linked_list/singly_linked_list.cpp:139-157 | an empty list is left empty; otherwise the last element is dropped, the others stay in order, and `size` drops by 1 |
| `SinglyLinkedLists.SinglyLinkedList.PushFront` | list/singly_linked_list/singly_linked_list.cpp:165-178 | the elements become `value` followed by the old elements; `size` grows by 1 |
| `SinglyLinkedLists.SinglyLinkedList.PopFront` | list/singly_linked_list/singly_linked_list.cpp:185-201 | an empty list is left empty; otherwise the first element is dropped, the others stay in order, and `size` drops by 1 |
| `SinglyLinkedLists.SinglyLinkedList.Search` | list/singly_linked_list/singly_linked_list.cpp:211-222 | `Err(RuntimeError)` exactly when no element equals `value`; otherwise the node returned is the first node in list order whose element equals `value` |
| `SinglyLinkedLists.SinglyLinkedList.GetSize` | list/singly_linked_list/singly_linked_list.cpp:230-232 | the result is the number of elements |
| `SinglyLinkedLists.SinglyLinkedList.Clear` | list/singly_linked_list/singly_linked_list.cpp:355-366 | no elements, null `head`, `size == 0`; `tail` is left as it was |
| `SinglyLinkedLists.AppendToCopy` | list/singly_linked_list/singly_linked_list.cpp:26-33 | appending to a copy gives the original's elements plus the new one, and the original stays valid and unchanged; every object the copy owns is fresh, so it shares no nodes |
| `Sequences.IndexOf` | list/singly_linked_list/singly_linked_list.cpp:216-221 | the first position holding `v`, or the length when `v` does not occur: below the length exactly when `v` occurs, and no earlier position holds `v` |
| `DoublyLinkedLists.Node.constructor` | list/doubly_linked_list/doubly_linked_list.cpp:104-107 | a node holding the value with no `prev` and no `next` |
| `DoublyLinkedLists.DoublyLinkedList.constructor` | list/doubly_linked_list/doubly_linked_list.cpp:4 | the empty list: null `head` and `tail`, `size == 0` |
| `DoublyLinkedLists.DoublyLinkedList.Fill` | list/doubly_linked_list/doubly_linked_list.cpp:7-23 | a valid list of exactly `n` fresh nodes, each holding `init`, with `size == n`; each loop step links a node at the tail as `PushBack` does, since the loop body is push_back's body |
| `DoublyLinkedLists.DoublyLinkedList.Move` | list/doubly_linked_list/doubly_linked_list.cpp:26-33 | takes over the source's chain, `tail`, `size` and elements; the source is left with null `head` and `tail`, `size == 0` and no elements; the target owns the source's nodes (its `Repr` is the source's old `Repr` with the source replaced by the target) and the source owns only itself, so both can be used again |
| `DoublyLinkedLists.DoublyLinkedList.Copy` | list/doubly_linked_list/doubly_linked_list.cpp:36-43 | a valid list with fresh nodes, the source's elements in order and the source's `size` |
| `DoublyLinkedLists.DoublyLinkedList.CopyAssign` | list/doubly_linked_list/doubly_linked_list.cpp:46-59 | the target gets the source's elements and `size`; the source is unchanged; self-assignment changes nothing |
| `DoublyLinkedLists.DoublyLinkedList.Reset` | list/doubly_linked_list/doubly_linked_list.cpp:48-50 | `head.reset(); tail = nullptr; size = 0;`: an empty valid list with null `head` and `tail`, `size == 0`, owning only itself |
| `DoublyLinkedLists.DoublyLinkedList.MoveAssign` | list/doubly_linked_list/doubly_linked_list.cpp:62-77 | the target takes over the source's `head`, `tail`, elements and `size`; the source is left with null `head` and `tail`, `size == 0` and no elements; the target owns the source's nodes (its `Repr` is the source's old `Repr` with the source replaced by the target) and the source owns only itself, so both can be used again; self-assignment changes nothing |
| `DoublyLinkedLists.DoublyLinkedList.Equals` | list/doubly_linked_list/doubly_linked_list.cpp:80-93 | true exactly when the two element sequences are equal, that is, same size and equal elements in list order |
| `DoublyLinkedLists.DoublyLinkedList.NotEquals` | list/doubly_linked_list/doubly_linked_list.cpp:96-98 | true exactly when the element sequences differ, the negation of `Equals` |
| `DoublyLinkedLists.DoublyLinkedList.PushBack` | list/doubly_linked_list/doubly_linked_list.cpp:101-120 | the elements become the old elements followed by `el`; the new fresh node is the `tail` and its `prev` is the old `tail`; `size` grows by 1 |
| `DoublyLinkedLists.DoublyLinkedList.PushFront` | list/doubly_linked_list/doubly_linked_list.cpp:123-142 | corrected push_front: `el` goes first, the new node's `next` is the old head and the old head's `prev` is the new node, on an empty list the new node is both `head` and `tail`, and `size` grows by 1 |
| `DoublyLinkedLists.DoublyLinkedList.PushFrontAsWritten` | list/doubly_linked_list/doubly_linked_list.cpp:123-142 | push_front as written on an empty list: the node becomes both `head` and `tail`, but `size` stays 0, so the list no longer satisfies `Valid()` |
| `DoublyLinkedLists.DoublyLinkedList.GetSize` | list/doubly_linked_list/doubly_linked_list.cpp:145-147 | the result is the number of elements and the number of nodes |
| `DoublyLinkedLists.DoublyLinkedList.ReverseTraversal` | list/doubly_linked_list/doubly_linked_list.cpp:217-247 | walking `prev` from `tail` (`rbegin`) until null (`rend`) visits exactly the elements in reverse list order |
| `Sequences.ReversedAt` | list/doubly_linked_list/doubly_linked_list.cpp:226-229 | position `k` of the reverse order holds the element `k` places from the end |
| `Sequences.ReversedInvolution` | list/doubly_linked_list/doubly_linked_list.cpp:217-247 | reversing the order in which `rbegin` to `rend` visits the elements gives the list order back: `Reversed(Reversed(s)) == s` |
| `DoublyLinkedLists.CopyIsEqual` | list/doubly_linked_list/doubly_linked_list.cpp:36-43 | a copy compares equal to its source under `operator==`, and walking the copy backwards gives the source's elements reversed, so reversing that walk gives the list order back |

## Findings

| source | as written | input that shows it | evidently intended | confidence | as-written member | corrected member |
|---|---|---|---|---|---|---|
| vector/vector.cpp:41 | a full buffer of capacity 0 is regrown to capacity 0, and then `data[size] = el` (:51) writes slot 0 of an empty allocation | `push_back` on a moved-from vector, or on `vector(x, 0)` (both have `size == capacity == 0`) | grow an empty buffer to at least one slot | not executed | `Vectors.GrowthAsWrittenMakesRoomIffNonEmpty` | `Vectors.Growth` |
| list/singly_linked_list/singly_linked_list.cpp:93 | move assignment sets the source's `head` and `tail` to null but not its `size` | move-assign from a one-element list: the source has null `head` and `size == 1` | reset `l.size = 0`, as the move constructor does (:44) | not executed | `SinglyLinkedLists.SinglyLinkedList.MoveAssignAsWritten` | `SinglyLinkedLists.SinglyLinkedList.MoveAssign` |
| list/doubly_linked_list/doubly_linked_list.cpp:123-142 | `push_front` never increments `size`; on a non-empty list it reads `to_add->next` after `to_add` was moved into `head` (:138) | `push_front(x)` on an empty list leaves one node with `get_size() == 0`; on a non-empty list it dereferences null | `++size`, and set the old head's `prev` through `head->next` | not executed | `DoublyLinkedLists.DoublyLinkedList.PushFrontAsWritten` | `DoublyLinkedLists.DoublyLinkedList.PushFront` |

## Left out

- Mutexes, `lock_guard` and `std::atomic<size_t>`: they exist only for concurrency. `size` is a plain field.
- `allocators/allocator.hpp` is not part of this model. It passes calls straight to `::operator new`/`delete` and has no logic.
- Allocation failure and exception safety: allocation cannot fail in Dafny.
- Destructors, `delete`/`delete[]`, `unique_ptr::reset` and memory reclamation. The model does not free storage. `CleanUp` only resets the fields. `PopBack`, `PopFront`, `Clear` and the singly list's `CopyAssign` keep the nodes they drop in `Repr`; `Reset`, the move operations and the doubly list's `CopyAssign` replace `Repr`.
- Iterator classes, `begin`/`end`/`rbegin`/`rend` and `operator<<` (printing). Forward iteration is the order of `Contents`. Reverse iteration is `ReverseTraversal`.
- Integer width: `size` and `capacity` are unbounded naturals, so the wrap-around of `size_t` in `capacity * 2` (vector/vector.cpp:41) and in `init_size * 2` (vector/vector.cpp:13) is not modelled.
- Return values used for chaining: the list `push_back`/`push_front` return the list (the singly list by value, vs `void` in its header). The model's methods return nothing.
- Vectors.Vector.At, Front and Back return the element's value; the source returns a `T&` that callers can write through.
- Vectors.Vector.PushBack grows an empty buffer to one slot (`Growth`), where the code grows it to 0 slots and writes out of bounds (see Findings). Element moves during growth are modelled as copies, and the old buffer is left as it was.
- Vectors.Vector.constructor and Vectors.Vector.Copy allocate `capacity` slots. The source's initialiser lists evaluate `new T[capacity]` before `capacity` is set, because members are initialised in declaration order (vector/vector.hpp:17-18). The model does not reproduce that indeterminate allocation.
- Vectors.Vector.CopyFrom requires a destination buffer separate from the source's. Its only caller passes a freshly allocated buffer.
- SinglyLinkedLists.SinglyLinkedList.Copy starts from an empty list. The source's copy constructor leaves `head`, `tail` and `size` uninitialised before it calls `push_back`.
- SinglyLinkedLists.SinglyLinkedList.Clear leaves `tail` dangling, as the source does. `Valid()` constrains `tail` only on a non-empty list.
- SinglyLinkedLists.SinglyLinkedList.CopyAssign and MoveAssign (and the doubly list's) require two distinct lists to share no nodes. Single ownership of nodes guarantees this in the source.
- SinglyLinkedLists.SinglyLinkedList.Search returns the matching node; the source returns a `const T&` to that node's element.
- DoublyLinkedLists.DoublyLinkedList.constructor, Fill and Copy start with a null `tail` and a `size` of 0. In the source the default, fill and copy constructors never initialise `tail`, and the first node's `prev` is copied from it. A reverse traversal past the head of such a list is undefined there. The `= default` constructor (:4) and the copy constructor (:36) also leave the `std::atomic<size_t>` `size` default-initialised, which before C++20 is indeterminate, so a copy's `get_size()` is not determined there.
- DoublyLinkedLists.DoublyLinkedList.PushBack is modelled as the member the header declares. The source defines it as a free function without the `doubly_linked_list<T>::` qualifier (doubly_linked_list.cpp:101). That definition does not compile: it names `node`, `dll_mutex`, `head`, `tail` and `this` outside any member, and these non-dependent names are looked up where the template is defined.
- DoublyLinkedLists.DoublyLinkedList.PushFrontAsWritten models only the empty-list branch. The other branch dereferences a null pointer in the source.
