/**
 * SinglyLinkedList1: a List kept as a chain of nodes reached from `head` only.
 * Besides the chain it keeps the number of items, `size`, and a modification
 * counter, `state`, that every successful structural change moves by one and that
 * clear resets to zero.
 *
 * Allocation is total here: `addr` is the address the allocator returns for the
 * one node an operation creates, and it is not the address of any live node.
 */
module SinglyLinkedList1 {
  import opened ListInterface
  import opened Chains

  datatype List<T> = List(heap: Heap<T>, head: Ptr, size: int, state: int)
  {
    /**
     * The heap is exactly the chain from `head`, `size` counts its nodes, and the
     * modification counter is not negative.
     */
    ghost predicate Valid() {
      Chain(heap, head) && size == |Spine(heap, head)| && 0 <= state
    }

    /** The items of the list, in order. */
    ghost function Contents(): (s: seq<T>)
      requires Valid()
    {
      Items(heap, head)
    }
  }

  /** A new list: no nodes, size zero and the counter at zero. */
  function New<T>(): (l: List<T>)
    ensures l.Valid() && l.Contents() == [] && l.state == 0
  {
    List(map[], Null, 0, 0)
  }

  /**
   * Adds `x` after the last item: on an empty list the new node becomes the head,
   * otherwise the chain is walked to its last node and the new node is linked there.
   */
  method Append<T>(l: List<T>, x: T, addr: nat) returns (l': List<T>)
    requires l.Valid()
    requires addr !in l.heap
    ensures l'.Valid()
    ensures l'.Contents() == l.Contents() + [x]
    ensures l'.size == l.size + 1 && l'.state == l.state + 1
    ensures l'.heap.Keys == l.heap.Keys + {addr}
    ensures Spine(l'.heap, l'.head) == Spine(l.heap, l.head) + [addr]
  {
    if l.head == Null {
      var h := l.heap[addr := Node(x, Null)];
      l' := List(h, Addr(addr), l.size + 1, l.state + 1);
      PushFront(l.heap, l.head, addr, x);
    } else {
      var last := Last(l.heap, l.head);
      var h := l.heap[addr := Node(x, Null)][last := l.heap[last].(next := Addr(addr))];
      l' := List(h, l.head, l.size + 1, l.state + 1);
      LinkLast(l.heap, l.head, last, addr, x);
    }
  }

  /** Frees every node and resets head, size and the counter. */
  method Clear<T>(l: List<T>) returns (l': List<T>)
    requires l.Valid()
    ensures l'.Valid() && l'.Contents() == []
    ensures l'.heap == map[] && l'.head == Null && l'.state == 0
    ensures l.size == 0 && l.state == 0 ==> l' == l
  {
    var h := FreeAll(l.heap, l.head);
    l' := List(h, Null, 0, 0);
  }

  /** The item at `index`, found by walking `index` steps from the head. */
  method Get<T>(l: List<T>, index: int) returns (r: Result<T>)
    requires l.Valid()
    ensures r.Success? <==> InRange(index, |l.Contents()|)
    ensures r.Failure? ==> r.error == IndexOutOfRange
    ensures r.Success? ==> r.value == l.Contents()[index]
  {
    if index < 0 || index > l.size - 1 {
      return Failure(IndexOutOfRange);
    }
    var n := Advance(l.heap, l.head, index);
    NodeAt(l.heap, l.head, index);
    r := Success(l.heap[n].data);
  }

  /**
   * Places `x` in front of the item at `index`: index 0 is a prepend, any other
   * index links a new node after node `index - 1`.
   */
  method Insert<T>(l: List<T>, index: int, x: T, addr: nat) returns (l': List<T>, out: Outcome)
    requires l.Valid()
    requires addr !in l.heap
    ensures l'.Valid()
    ensures out == Ok <==> InRange(index, l.size)
    ensures out != Ok ==> out == Fail(IndexOutOfRange) && l' == l
    ensures out == Ok ==> l'.Contents() == InsertAt(l.Contents(), index, x)
    ensures out == Ok ==> l'.size == l.size + 1 && l'.state == l.state + 1
    ensures out == Ok ==> l'.heap.Keys == l.heap.Keys + {addr}
    ensures out == Ok ==> Spine(l'.heap, l'.head) == InsertAt(Spine(l.heap, l.head), index, addr)
  {
    if index < 0 || index > l.size - 1 {
      return l, Fail(IndexOutOfRange);
    }
    if index == 0 {
      l' := Prepend(l, x, addr);
      assert InsertAt(l.Contents(), 0, x) == [x] + l.Contents();
      return l', Ok;
    }
    l' := InsertAfter(l, index - 1, x, addr);
    out := Ok;
  }

  /**
   * The general branch of insert: walk to node `k` and link a new node holding `x`
   * between it and its successor.
   */
  method InsertAfter<T>(l: List<T>, k: int, x: T, addr: nat) returns (l': List<T>)
    requires l.Valid() && 0 <= k < l.size
    requires addr !in l.heap
    ensures l'.Valid() && l'.head == l.head
    ensures l'.Contents() == InsertAt(l.Contents(), k + 1, x)
    ensures l'.size == l.size + 1 && l'.state == l.state + 1
    ensures l'.heap.Keys == l.heap.Keys + {addr}
    ensures Spine(l'.heap, l'.head) == InsertAt(Spine(l.heap, l.head), k + 1, addr)
  {
    var n := Advance(l.heap, l.head, k);
    var h := l.heap[addr := Node(x, l.heap[n].next)][n := l.heap[n].(next := Addr(addr))];
    l' := List(h, l.head, l.size + 1, l.state + 1);
    LinkAfter(l.heap, l.head, k, addr, x);
    LinkAfterItems(l.heap, l.head, k, addr, x);
  }

  /** Adds `x` in front of the first item; the new node becomes the head. */
  method Prepend<T>(l: List<T>, x: T, addr: nat) returns (l': List<T>)
    requires l.Valid()
    requires addr !in l.heap
    ensures l'.Valid()
    ensures l'.Contents() == [x] + l.Contents()
    ensures l'.size == l.size + 1 && l'.state == l.state + 1
    ensures l'.heap.Keys == l.heap.Keys + {addr}
    ensures Spine(l'.heap, l'.head) == [addr] + Spine(l.heap, l.head)
  {
    var h := l.heap[addr := Node(x, l.head)];
    l' := List(h, Addr(addr), l.size + 1, l.state + 1);
    PushFront(l.heap, l.head, addr, x);
  }

  /**
   * Removes and returns the item at `index`. Index 0 advances the head; the last
   * index walks to the node before it, frees the last node and ends the chain
   * there; any other index unlinks the node between its neighbours.
   */
  method Remove<T>(l: List<T>, index: int) returns (l': List<T>, r: Result<T>)
    requires l.Valid()
    ensures l'.Valid()
    ensures r.Success? <==> InRange(index, l.size)
    ensures r.Failure? ==> r.error == IndexOutOfRange && l' == l
    ensures r.Success? ==> r.value == l.Contents()[index]
    ensures r.Success? ==> l'.Contents() == RemoveAt(l.Contents(), index)
    ensures r.Success? ==> l'.size == l.size - 1 && l'.state == l.state + 1
    ensures r.Success? ==> l'.heap.Keys == l.heap.Keys - {Spine(l.heap, l.head)[index]}
    ensures r.Success? ==> Spine(l'.heap, l'.head) == RemoveAt(Spine(l.heap, l.head), index)
  {
    if index < 0 || index > l.size - 1 {
      return l, Failure(IndexOutOfRange);
    }
    if index == 0 {
      var n := l.head.addr;
      var item := l.heap[n].data;
      l' := List(l.heap - {n}, l.heap[n].next, l.size - 1, l.state + 1);
      assert RemoveAt(l.Contents(), 0) == l.Contents()[1..];
      return l', Success(item);
    }
    var item;
    if index == l.size - 1 {
      l', item := RemoveLast(l);
    } else {
      l', item := RemoveAfter(l, index - 1);
    }
    r := Success(item);
  }

  /**
   * The last-index branch of remove for a list of two or more nodes: walk to the
   * node before the last, free the last node, and end the chain there.
   */
  method RemoveLast<T>(l: List<T>) returns (l': List<T>, item: T)
    requires l.Valid() && 2 <= l.size
    ensures l'.Valid() && l'.head == l.head
    ensures item == l.Contents()[l.size - 1]
    ensures l'.Contents() == RemoveAt(l.Contents(), l.size - 1)
    ensures l'.size == l.size - 1 && l'.state == l.state + 1
    ensures l'.heap.Keys == l.heap.Keys - {Spine(l.heap, l.head)[l.size - 1]}
    ensures Spine(l'.heap, l'.head) == RemoveAt(Spine(l.heap, l.head), l.size - 1)
  {
    var n := Advance(l.heap, l.head, l.size - 2);
    NodeAt(l.heap, l.head, l.size - 2);
    NodeAt(l.heap, l.head, l.size - 1);
    SpineDistinct(l.heap, l.head, l.size - 2, l.size - 1);
    var gone := l.heap[n].next.addr;
    item := l.heap[gone].data;
    var h := (l.heap - {gone})[n := l.heap[n].(next := Null)];
    l' := List(h, l.head, l.size - 1, l.state + 1);
    UnlinkAfter(l.heap, l.head, l.size - 2);
    UnlinkAfterItems(l.heap, l.head, l.size - 2);
  }

  /**
   * The general branch of remove: walk to node `k`, unlink node `k + 1` by letting
   * node `k` take over its successor, and free it.
   */
  method RemoveAfter<T>(l: List<T>, k: int) returns (l': List<T>, item: T)
    requires l.Valid() && 0 <= k && k + 1 < l.size
    ensures l'.Valid() && l'.head == l.head
    ensures item == l.Contents()[k + 1]
    ensures l'.Contents() == RemoveAt(l.Contents(), k + 1)
    ensures l'.size == l.size - 1 && l'.state == l.state + 1
    ensures l'.heap.Keys == l.heap.Keys - {Spine(l.heap, l.head)[k + 1]}
    ensures Spine(l'.heap, l'.head) == RemoveAt(Spine(l.heap, l.head), k + 1)
  {
    var n := Advance(l.heap, l.head, k);
    NodeAt(l.heap, l.head, k);
    NodeAt(l.heap, l.head, k + 1);
    SpineDistinct(l.heap, l.head, k, k + 1);
    var gone := l.heap[n].next.addr;
    item := l.heap[gone].data;
    var h := (l.heap - {gone})[n := l.heap[n].(next := l.heap[gone].next)];
    l' := List(h, l.head, l.size - 1, l.state + 1);
    UnlinkAfter(l.heap, l.head, k);
    UnlinkAfterItems(l.heap, l.head, k);
  }

  /** Replaces the item at `index` by `x`; the chain itself is untouched. */
  method Set<T>(l: List<T>, index: int, x: T) returns (l': List<T>, out: Outcome)
    requires l.Valid()
    ensures l'.Valid()
    ensures out == Ok <==> InRange(index, l.size)
    ensures out != Ok ==> out == Fail(IndexOutOfRange) && l' == l
    ensures out == Ok ==> l'.Contents() == l.Contents()[index := x]
    ensures out == Ok ==> l'.size == l.size && l'.state == l.state + 1
    ensures out == Ok ==> Spine(l'.heap, l'.head) == Spine(l.heap, l.head)
    ensures out == Ok ==> l'.heap.Keys == l.heap.Keys && l'.head == l.head
  {
    if index < 0 || index > l.size - 1 {
      return l, Fail(IndexOutOfRange);
    }
    var n := Advance(l.heap, l.head, index);
    var h := l.heap[n := l.heap[n].(data := x)];
    l' := List(h, l.head, l.size, l.state + 1);
    SetData(l.heap, l.head, index, x);
    SetDataItems(l.heap, l.head, index, x);
    out := Ok;
  }

  /** The size counter, which is the number of nodes in the chain. */
  function Size<T>(l: List<T>): (n: int)
    requires l.Valid()
    ensures n == |l.Contents()| == |Spine(l.heap, l.head)|
  {
    l.size
  }

  // The source as written, where it differs from the behaviour modelled above.

  /**
   * append as written: on a non-empty list the new node is allocated and counted
   * but never linked, because the walk to the last node is missing.
   */
  function AppendAsWritten<T>(l: List<T>, x: T, addr: nat): (l': List<T>)
    requires l.Valid() && addr !in l.heap
    ensures l'.size == l.size + 1 && l'.state == l.state + 1
    ensures l.head == Null ==> l'.Valid() && l'.Contents() == [x]
    ensures l.head != Null ==> !l'.Valid()
  {
    var h := l.heap[addr := Node(x, Null)];
    if l.head == Null then
      PushFront(l.heap, l.head, addr, x);
      List(h, Addr(addr), l.size + 1, l.state + 1)
    else
      ChainExtraNode(l.heap, l.head, addr, Node(x, Null));
      List(h, l.head, l.size + 1, l.state + 1)
  }

  /** Two appends as written to a new list: the size says two, the chain holds one node. */
  lemma AppendAsWrittenExample()
    ensures var l := AppendAsWritten(AppendAsWritten(New(), 10, 0), 20, 1);
      && l.size == 2 && !l.Valid()
      && l.head == Addr(0) && l.heap[0] == Node(10, Null)
  {
    var l1 := AppendAsWritten(New(), 10, 0);
    assert l1.heap == map[0 := Node(10, Null)];
  }

  /**
   * The last-index branch of remove as written: it returns the first item instead
   * of the last, and frees the last node while the node before it still links to it.
   */
  method RemoveLastAsWritten<T>(l: List<T>) returns (l': List<T>, item: T)
    requires l.Valid() && 2 <= l.size
    ensures item == l.Contents()[0]
    ensures l'.size == l.size - 1 && l'.state == l.state + 1
    ensures !l'.Valid()
  {
    item := l.heap[l.head.addr].data;
    var n := Advance(l.heap, l.head, l.size - 2);
    NodeAt(l.heap, l.head, 0);
    NodeAt(l.heap, l.head, l.size - 2);
    var gone := l.heap[n].next.addr;
    l' := List(l.heap - {gone}, l.head, l.size - 1, l.state + 1);
    ChainMissingLast(l.heap, l.head);
  }

  /**
   * remove(1) as written on the list [10, 20] (nodes at addresses 0 and 1): it
   * returns 10, not the last item 20, and leaves a list that is no longer valid.
   */
  method RemoveLastAsWrittenExample() returns (l: List<int>, l': List<int>, item: int)
    ensures l.Valid() && l.Contents() == [10, 20]
    ensures item == 10 && !l'.Valid()
  {
    var h := map[0 := Node(10, Addr(1)), 1 := Node(20, Null)];
    assert h - {0} == map[1 := Node(20, Null)];
    assert (h - {0}) - {1} == map[];
    l := List(h, Addr(0), 2, 2);
    l', item := RemoveLastAsWritten(l);
  }
}
