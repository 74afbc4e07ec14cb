/**
 * SinglyLinkedList2: a List kept as a chain of nodes with a pointer to the first
 * node and one to the last, so that append links the new node without walking.
 * Like SinglyLinkedList1 it keeps the number of items, `size`, and the
 * modification counter `state`.
 *
 * Allocation is total here: `addr` is the address the allocator returns for the
 * one node an operation creates, and it is not the address of any live node.
 */
module SinglyLinkedList2 {
  import opened ListInterface
  import opened Chains

  datatype List<T> = List(heap: Heap<T>, head: Ptr, tail: Ptr, size: int, state: int)
  {
    /**
     * The heap is exactly the chain from `head`, `size` counts its nodes, `tail`
     * points to the last node (NULL when there is none), and the modification
     * counter is not negative.
     */
    ghost predicate Valid() {
      && Chain(heap, head)
      && size == |Spine(heap, head)|
      && tail == (if size == 0 then Null else Addr(Spine(heap, head)[size - 1]))
      && 0 <= state
    }

    /** The items of the list, in order. */
    ghost function Contents(): (s: seq<T>)
      requires Valid()
    {
      Items(heap, head)
    }
  }

  /** A new list: no nodes, both pointers NULL, size zero and the counter at zero. */
  function New<T>(): (l: List<T>)
    ensures l.Valid() && l.Contents() == [] && l.state == 0
  {
    List(map[], Null, Null, 0, 0)
  }

  /**
   * Adds `x` after the last item: on an empty list the new node becomes both first
   * and last node, otherwise the last node links to it and it becomes the last.
   */
  method Append<T>(l: List<T>, x: T, addr: nat) returns (l': List<T>)
    requires l.Valid()
    requires addr !in l.heap
    ensures l'.Valid()
    ensures l'.Contents() == l.Contents() + [x]
    ensures l'.size == l.size + 1 && l'.state == l.state + 1
    ensures l'.heap.Keys == l.heap.Keys + {addr}
    ensures Spine(l'.heap, l'.head) == Spine(l.heap, l.head) + [addr]
    ensures l'.tail == Addr(addr)
  {
    if l.head == Null {
      var h := l.heap[addr := Node(x, Null)];
      l' := List(h, Addr(addr), Addr(addr), l.size + 1, l.state + 1);
      PushFront(l.heap, l.head, addr, x);
    } else {
      var last := l.tail.addr;
      var h := l.heap[addr := Node(x, Null)][last := l.heap[last].(next := Addr(addr))];
      l' := List(h, l.head, Addr(addr), l.size + 1, l.state + 1);
      LinkLast(l.heap, l.head, last, addr, x);
    }
  }

  /** Frees every node and resets both pointers, the size and the counter. */
  method Clear<T>(l: List<T>) returns (l': List<T>)
    requires l.Valid()
    ensures l'.Valid() && l'.Contents() == []
    ensures l'.heap == map[] && l'.head == Null && l'.tail == Null && l'.state == 0
    ensures l.size == 0 && l.state == 0 ==> l' == l
  {
    var h := FreeAll(l.heap, l.head);
    l' := List(h, Null, Null, 0, 0);
  }

  /** The item at `index`, found by walking `index` steps from the head. */
  method Get<T>(l: List<T>, index: int) returns (r: Result<T>)
    requires l.Valid()
    ensures r.Success? <==> InRange(index, |l.Contents()|)
    ensures r.Failure? ==> r.error == IndexOutOfRange
    ensures r.Success? ==> r.value == l.Contents()[index]
  {
    if index < 0 || index > l.size - 1 {
      return Failure(IndexOutOfRange);
    }
    var n := Advance(l.heap, l.head, index);
    NodeAt(l.heap, l.head, index);
    r := Success(l.heap[n].data);
  }

  /**
   * Places `x` in front of the item at `index`: index 0 is a prepend, any other
   * index links a new node after node `index - 1`. The index rule keeps insert
   * away from the end, so the last node stays the last.
   */
  method Insert<T>(l: List<T>, index: int, x: T, addr: nat) returns (l': List<T>, out: Outcome)
    requires l.Valid()
    requires addr !in l.heap
    ensures l'.Valid()
    ensures out == Ok <==> InRange(index, l.size)
    ensures out != Ok ==> out == Fail(IndexOutOfRange) && l' == l
    ensures out == Ok ==> l'.Contents() == InsertAt(l.Contents(), index, x)
    ensures out == Ok ==> l'.size == l.size + 1 && l'.state == l.state + 1
    ensures out == Ok ==> l'.heap.Keys == l.heap.Keys + {addr}
    ensures out == Ok ==> Spine(l'.heap, l'.head) == InsertAt(Spine(l.heap, l.head), index, addr)
    ensures out == Ok ==> l'.tail == l.tail
  {
    if index < 0 || index > l.size - 1 {
      return l, Fail(IndexOutOfRange);
    }
    if index == 0 {
      l' := Prepend(l, x, addr);
      assert InsertAt(l.Contents(), 0, x) == [x] + l.Contents();
      return l', Ok;
    }
    l' := InsertAfter(l, index - 1, x, addr);
    out := Ok;
  }

  /**
   * The general branch of insert: walk to node `k`, which is not the last node,
   * and link a new node holding `x` between it and its successor.
   */
  method InsertAfter<T>(l: List<T>, k: int, x: T, addr: nat) returns (l': List<T>)
    requires l.Valid() && 0 <= k && k + 1 < l.size
    requires addr !in l.heap
    ensures l'.Valid() && l'.head == l.head && l'.tail == l.tail
    ensures l'.Contents() == InsertAt(l.Contents(), k + 1, x)
    ensures l'.size == l.size + 1 && l'.state == l.state + 1
    ensures l'.heap.Keys == l.heap.Keys + {addr}
    ensures Spine(l'.heap, l'.head) == InsertAt(Spine(l.heap, l.head), k + 1, addr)
  {
    var n := Advance(l.heap, l.head, k);
    var h := l.heap[addr := Node(x, l.heap[n].next)][n := l.heap[n].(next := Addr(addr))];
    l' := List(h, l.head, l.tail, l.size + 1, l.state + 1);
    LinkAfter(l.heap, l.head, k, addr, x);
    LinkAfterItems(l.heap, l.head, k, addr, x);
    InsertAtIndex(Spine(l.heap, l.head), k + 1, addr, l.size);
  }

  /**
   * Adds `x` in front of the first item; the new node becomes the head, and also
   * the tail when the list was empty.
   */
  method Prepend<T>(l: List<T>, x: T, addr: nat) returns (l': List<T>)
    requires l.Valid()
    requires addr !in l.heap
    ensures l'.Valid()
    ensures l'.Contents() == [x] + l.Contents()
    ensures l'.size == l.size + 1 && l'.state == l.state + 1
    ensures l'.heap.Keys == l.heap.Keys + {addr}
    ensures Spine(l'.heap, l'.head) == [addr] + Spine(l.heap, l.head)
    ensures l.size > 0 ==> l'.tail == l.tail
  {
    var h := l.heap[addr := Node(x, l.head)];
    var tail := if l.head == Null then Addr(addr) else l.tail;
    l' := List(h, Addr(addr), tail, l.size + 1, l.state + 1);
    PushFront(l.heap, l.head, addr, x);
  }

  /**
   * Removes and returns the item at `index`. Index 0 advances the head (and clears
   * the tail when the list becomes empty); the last index takes the item from the
   * tail, walks to the node before it and makes that node the new tail; any other
   * index unlinks the node between its neighbours.
   */
  method Remove<T>(l: List<T>, index: int) returns (l': List<T>, r: Result<T>)
    requires l.Valid()
    ensures l'.Valid()
    ensures r.Success? <==> InRange(index, l.size)
    ensures r.Failure? ==> r.error == IndexOutOfRange && l' == l
    ensures r.Success? ==> r.value == l.Contents()[index]
    ensures r.Success? ==> l'.Contents() == RemoveAt(l.Contents(), index)
    ensures r.Success? ==> l'.size == l.size - 1 && l'.state == l.state + 1
    ensures r.Success? ==> l'.heap.Keys == l.heap.Keys - {Spine(l.heap, l.head)[index]}
    ensures r.Success? ==> Spine(l'.heap, l'.head) == RemoveAt(Spine(l.heap, l.head), index)
  {
    if index < 0 || index > l.size - 1 {
      return l, Failure(IndexOutOfRange);
    }
    if index == 0 {
      var n := l.head.addr;
      var item := l.heap[n].data;
      var tail := if l.size - 1 == 0 then Null else l.tail;
      l' := List(l.heap - {n}, l.heap[n].next, tail, l.size - 1, l.state + 1);
      assert RemoveAt(l.Contents(), 0) == l.Contents()[1..];
      return l', Success(item);
    }
    var item;
    if index == l.size - 1 {
      l', item := RemoveLast(l);
    } else {
      l', item := RemoveAfter(l, index - 1);
    }
    r := Success(item);
  }

  /**
   * The last-index branch of remove for a list of two or more nodes: take the item
   * from the tail, walk to the node before it, free the tail node, and make that
   * node the new tail, ending the chain there.
   */
  method RemoveLast<T>(l: List<T>) returns (l': List<T>, item: T)
    requires l.Valid() && 2 <= l.size
    ensures l'.Valid() && l'.head == l.head
    ensures item == l.Contents()[l.size - 1]
    ensures l'.Contents() == RemoveAt(l.Contents(), l.size - 1)
    ensures l'.size == l.size - 1 && l'.state == l.state + 1
    ensures l'.heap.Keys == l.heap.Keys - {Spine(l.heap, l.head)[l.size - 1]}
    ensures Spine(l'.heap, l'.head) == RemoveAt(Spine(l.heap, l.head), l.size - 1)
  {
    NodeAt(l.heap, l.head, l.size - 1);
    item := l.heap[l.tail.addr].data;
    var n := Advance(l.heap, l.head, l.size - 2);
    NodeAt(l.heap, l.head, l.size - 2);
    SpineDistinct(l.heap, l.head, l.size - 2, l.size - 1);
    var gone := l.heap[n].next.addr;
    var h := (l.heap - {gone})[n := l.heap[n].(next := Null)];
    l' := List(h, l.head, Addr(n), l.size - 1, l.state + 1);
    UnlinkAfter(l.heap, l.head, l.size - 2);
    UnlinkAfterItems(l.heap, l.head, l.size - 2);
  }

  /**
   * The general branch of remove: walk to node `k`, unlink node `k + 1`, which is
   * not the last node, by letting node `k` take over its successor, and free it.
   */
  method RemoveAfter<T>(l: List<T>, k: int) returns (l': List<T>, item: T)
    requires l.Valid() && 0 <= k && k + 2 < l.size
    ensures l'.Valid() && l'.head == l.head && l'.tail == l.tail
    ensures item == l.Contents()[k + 1]
    ensures l'.Contents() == RemoveAt(l.Contents(), k + 1)
    ensures l'.size == l.size - 1 && l'.state == l.state + 1
    ensures l'.heap.Keys == l.heap.Keys - {Spine(l.heap, l.head)[k + 1]}
    ensures Spine(l'.heap, l'.head) == RemoveAt(Spine(l.heap, l.head), k + 1)
  {
    var n := Advance(l.heap, l.head, k);
    NodeAt(l.heap, l.head, k);
    NodeAt(l.heap, l.head, k + 1);
    SpineDistinct(l.heap, l.head, k, k + 1);
    var gone := l.heap[n].next.addr;
    item := l.heap[gone].data;
    var h := (l.heap - {gone})[n := l.heap[n].(next := l.heap[gone].next)];
    l' := List(h, l.head, l.tail, l.size - 1, l.state + 1);
    UnlinkAfter(l.heap, l.head, k);
    UnlinkAfterItems(l.heap, l.head, k);
    RemoveAtIndex(Spine(l.heap, l.head), k + 1, l.size - 2);
  }

  /** Replaces the item at `index` by `x`; the chain and both pointers are untouched. */
  method Set<T>(l: List<T>, index: int, x: T) returns (l': List<T>, out: Outcome)
    requires l.Valid()
    ensures l'.Valid()
    ensures out == Ok <==> InRange(index, l.size)
    ensures out != Ok ==> out == Fail(IndexOutOfRange) && l' == l
    ensures out == Ok ==> l'.Contents() == l.Contents()[index := x]
    ensures out == Ok ==> l'.size == l.size && l'.state == l.state + 1
    ensures out == Ok ==> Spine(l'.heap, l'.head) == Spine(l.heap, l.head)
    ensures out == Ok ==> l'.heap.Keys == l.heap.Keys && l'.head == l.head && l'.tail == l.tail
  {
    if index < 0 || index > l.size - 1 {
      return l, Fail(IndexOutOfRange);
    }
    var n := Advance(l.heap, l.head, index);
    var h := l.heap[n := l.heap[n].(data := x)];
    l' := List(h, l.head, l.tail, l.size, l.state + 1);
    SetData(l.heap, l.head, index, x);
    SetDataItems(l.heap, l.head, index, x);
    out := Ok;
  }

  /** The size counter, which is the number of nodes in the chain. */
  function Size<T>(l: List<T>): (n: int)
    requires l.Valid()
    ensures n == |l.Contents()| == |Spine(l.heap, l.head)|
    ensures n == 0 <==> l.tail == Null
  {
    l.size
  }

  /** In a valid list the head and the tail are the same pointer exactly when the list has at most one item. */
  lemma HeadIsTail<T>(l: List<T>)
    requires l.Valid()
    ensures l.head == l.tail <==> l.size <= 1
  {
    if l.size >= 2 {
      SpineDistinct(l.heap, l.head, 0, l.size - 1);
    }
  }

  /** The tail of a non-empty valid list is a live node whose `next` is NULL. */
  lemma TailIsLast<T>(l: List<T>)
    requires l.Valid() && l.size > 0
    ensures l.tail.Addr? && l.tail.addr in l.heap && l.heap[l.tail.addr].next == Null
    ensures l.heap[l.tail.addr].data == l.Contents()[l.size - 1]
  {
    NodeAt(l.heap, l.head, l.size - 1);
  }

  // The source as written, where it differs from the behaviour modelled above.

  /**
   * prepend as written: the new node becomes the tail whenever head and tail are
   * equal, which holds not only for the empty list but also for a list of one item.
   */
  function PrependAsWritten<T>(l: List<T>, x: T, addr: nat): (l': List<T>)
    requires l.Valid() && addr !in l.heap
    ensures l'.size == l.size + 1 && l'.state == l.state + 1
    ensures l.size != 1 ==> l'.Valid() && l'.Contents() == [x] + l.Contents()
    ensures l.size == 1 ==> !l'.Valid() && l'.tail == l'.head
  {
    HeadIsTail(l);
    PushFront(l.heap, l.head, addr, x);
    var tail := if l.head == l.tail then Addr(addr) else l.tail;
    List(l.heap[addr := Node(x, l.head)], Addr(addr), tail, l.size + 1, l.state + 1)
  }

  /**
   * Prepending 5 as written to the list [10]: the tail then points to the node of
   * 5, so a following append would link after 5 and lose 10.
   */
  lemma PrependAsWrittenExample()
    ensures var l := List(map[0 := Node(10, Null)], Addr(0), Addr(0), 1, 1);
      var l' := PrependAsWritten(l, 5, 1);
      && l.Valid() && l.Contents() == [10]
      && l'.tail == Addr(1) && l'.heap[1] == Node(5, Addr(0)) && !l'.Valid()
  {
    var h := map[0 := Node(10, Null)];
    assert h - {0} == map[];
  }
}
