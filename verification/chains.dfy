/**
 * Chains of SinglyLinkedListNode records, shared by SinglyLinkedList1 and
 * SinglyLinkedList2.
 *
 * Memory is modelled explicitly: a heap maps the address of each live node to its
 * record, a pointer is an address or NULL, `PyMem_Malloc` hands out an address not
 * in the heap, and `PyMem_Free` removes an address from the heap. The heap of a
 * list holds that list's nodes and nothing else.
 */
module Chains {
  import opened ListInterface

  datatype Ptr = Null | Addr(addr: nat)

  /** SinglyLinkedListNode: one item and the link to the following node. */
  datatype Node<T> = Node(data: T, next: Ptr)

  type Heap<T> = map<nat, Node<T>>

  /**
   * Following `next` from `p` visits every node of `h` exactly once and then
   * reaches NULL: the chain is acyclic, ends in NULL, and no node of `h` is
   * unreachable (nothing leaked).
   */
  ghost predicate Chain<T>(h: Heap<T>, p: Ptr)
    decreases h.Keys
  {
    match p
    case Null => h == map[]
    case Addr(a) => a in h && Chain(h - {a}, h[a].next)
  }

  /** The node addresses of the chain from `p`, in list order. */
  ghost function Spine<T>(h: Heap<T>, p: Ptr): (s: seq<nat>)
    requires Chain(h, p)
    ensures forall i :: 0 <= i < |s| ==> s[i] in h
    ensures |s| == 0 <==> p == Null
    ensures |s| > 0 ==> p == Addr(s[0])
    decreases h.Keys
  {
    match p
    case Null => []
    case Addr(a) => [a] + Spine(h - {a}, h[a].next)
  }

  /** The items stored along the chain from `p`, in list order. */
  ghost function Items<T>(h: Heap<T>, p: Ptr): (xs: seq<T>)
    requires Chain(h, p)
    ensures |xs| == |Spine(h, p)|
    decreases h.Keys
  {
    match p
    case Null => []
    case Addr(a) => [h[a].data] + Items(h - {a}, h[a].next)
  }

  /**
   * Node `k` of a chain holds item `k` and links to node `k + 1`; the last node
   * links to NULL.
   */
  lemma {:induction false} NodeAt<T>(h: Heap<T>, p: Ptr, k: int)
    requires Chain(h, p) && 0 <= k < |Spine(h, p)|
    ensures h[Spine(h, p)[k]].data == Items(h, p)[k]
    ensures h[Spine(h, p)[k]].next
            == if k + 1 < |Spine(h, p)| then Addr(Spine(h, p)[k + 1]) else Null
    decreases k
  {
    var a := p.addr;
    var r, q := h - {a}, h[a].next;
    if k > 0 {
      NodeAt(r, q, k - 1);
    }
  }

  /** No node occurs twice along a chain. */
  lemma {:induction false} SpineDistinct<T>(h: Heap<T>, p: Ptr, i: int, j: int)
    requires Chain(h, p) && 0 <= i < j < |Spine(h, p)|
    ensures Spine(h, p)[i] != Spine(h, p)[j]
    decreases i
  {
    var a := p.addr;
    var r, q := h - {a}, h[a].next;
    if i == 0 {
      assert Spine(h, p)[j] == Spine(r, q)[j - 1];
    } else {
      SpineDistinct(r, q, i - 1, j - 1);
    }
  }

  /**
   * The traversal `n = head; for (i = 0; i < k; ++i) n = n->next;` with which the
   * source reaches node `k`.
   */
  method Advance<T>(h: Heap<T>, head: Ptr, k: int) returns (a: nat)
    requires Chain(h, head) && 0 <= k < |Spine(h, head)|
    ensures a == Spine(h, head)[k]
  {
    var n := head;
    var i := 0;
    while i < k
      invariant 0 <= i <= k
      invariant n == Addr(Spine(h, head)[i])
    {
      NodeAt(h, head, i);
      n := h[n.addr].next;
      i := i + 1;
    }
    a := n.addr;
  }

  /** Follows `next` from the head until the node whose `next` is NULL: the last node. */
  method Last<T>(h: Heap<T>, head: Ptr) returns (a: nat)
    requires Chain(h, head) && head != Null
    ensures |Spine(h, head)| > 0 && a == Spine(h, head)[|Spine(h, head)| - 1]
  {
    var n := head;
    ghost var i := 0;
    NodeAt(h, head, 0);
    while h[n.addr].next != Null
      invariant 0 <= i < |Spine(h, head)|
      invariant n == Addr(Spine(h, head)[i])
      invariant h[n.addr].next == if i + 1 < |Spine(h, head)| then Addr(Spine(h, head)[i + 1]) else Null
      decreases |Spine(h, head)| - i
    {
      n := h[n.addr].next;
      i := i + 1;
      NodeAt(h, head, i);
    }
    a := n.addr;
  }

  /**
   * The loop with which clear (and dealloc) frees a chain: follow `next` from the
   * head and free every node on the way. The heap it leaves is empty.
   */
  method FreeAll<T>(h: Heap<T>, head: Ptr) returns (g: Heap<T>)
    requires Chain(h, head)
    ensures g == map[]
  {
    g := h;
    var n := head;
    while n != Null
      invariant Chain(g, n)
      decreases g.Keys
    {
      var a := n.addr;
      n := g[a].next;
      g := g - {a};
    }
  }

  /** A new node at address `a` that links to the old head becomes the first node. */
  lemma PushFront<T>(h: Heap<T>, p: Ptr, a: nat, x: T)
    requires Chain(h, p) && a !in h
    ensures Chain(h[a := Node(x, p)], Addr(a))
    ensures Spine(h[a := Node(x, p)], Addr(a)) == [a] + Spine(h, p)
    ensures Items(h[a := Node(x, p)], Addr(a)) == [x] + Items(h, p)
  {
    assert h[a := Node(x, p)] - {a} == h;
  }

  /** Linking a new node at address `a` after the first node. */
  lemma LinkAfterFirst<T>(h: Heap<T>, p: Ptr, a: nat, x: T)
    requires Chain(h, p) && p != Null && a !in h
    ensures var b := p.addr;
      var h' := h[a := Node(x, h[b].next)][b := h[b].(next := Addr(a))];
      && Chain(h', p)
      && Spine(h', p) == InsertAt(Spine(h, p), 1, a)
      && Items(h', p) == InsertAt(Items(h, p), 1, x)
  {
    var b := p.addr;
    var r, q := h - {b}, h[b].next;
    var h' := h[a := Node(x, q)][b := h[b].(next := Addr(a))];
    PushFront(r, q, a, x);
    assert h' - {b} == r[a := Node(x, q)];
    assert InsertAt(Spine(h, p), 1, a) == [b] + ([a] + Spine(r, q));
    assert InsertAt(Items(h, p), 1, x) == [h[b].data] + ([x] + Items(r, q));
  }

  /**
   * Linking a new node at address `a` after node `k`: the new node takes over node
   * `k`'s successor and node `k` links to it. The result is a chain with the new
   * node at position `k + 1`.
   */
  lemma {:induction false} LinkAfter<T>(h: Heap<T>, p: Ptr, k: int, a: nat, x: T)
    requires Chain(h, p) && 0 <= k < |Spine(h, p)| && a !in h
    ensures var n := Spine(h, p)[k];
      var h' := h[a := Node(x, h[n].next)][n := h[n].(next := Addr(a))];
      && Chain(h', p)
      && Spine(h', p) == InsertAt(Spine(h, p), k + 1, a)
    decreases k
  {
    if k == 0 {
      LinkAfterFirst(h, p, a, x);
    } else {
      var b := p.addr;
      var r, q := h - {b}, h[b].next;
      var n := Spine(h, p)[k];
      var h' := h[a := Node(x, h[n].next)][n := h[n].(next := Addr(a))];
      assert n == Spine(r, q)[k - 1] && n in r;
      LinkAfter(r, q, k - 1, a, x);
      var r' := r[a := Node(x, r[n].next)][n := r[n].(next := Addr(a))];
      assert h' - {b} == r' && h'[b] == h[b];
      InsertAtCons(b, Spine(r, q), k, a);
    }
  }

  /** After LinkAfter the items are the old items with `x` at position `k + 1`. */
  lemma {:induction false} LinkAfterItems<T>(h: Heap<T>, p: Ptr, k: int, a: nat, x: T)
    requires Chain(h, p) && 0 <= k < |Spine(h, p)| && a !in h
    requires var n := Spine(h, p)[k];
      Chain(h[a := Node(x, h[n].next)][n := h[n].(next := Addr(a))], p)
    ensures var n := Spine(h, p)[k];
      var h' := h[a := Node(x, h[n].next)][n := h[n].(next := Addr(a))];
      Items(h', p) == InsertAt(Items(h, p), k + 1, x)
    decreases k
  {
    if k == 0 {
      LinkAfterFirst(h, p, a, x);
    } else {
      var b := p.addr;
      var r, q := h - {b}, h[b].next;
      var n := Spine(h, p)[k];
      var h' := h[a := Node(x, h[n].next)][n := h[n].(next := Addr(a))];
      assert n == Spine(r, q)[k - 1] && n in r;
      var r' := r[a := Node(x, r[n].next)][n := r[n].(next := Addr(a))];
      assert h' - {b} == r' && h'[b] == h[b];
      LinkAfterItems(r, q, k - 1, a, x);
      InsertAtCons(h[b].data, Items(r, q), k, x);
    }
  }

  /**
   * Linking a new last node at address `a` after the current last node `n`: the
   * chain grows by `a` at its end and the items by `x`.
   */
  lemma LinkLast<T>(h: Heap<T>, p: Ptr, n: nat, a: nat, x: T)
    requires Chain(h, p) && 0 < |Spine(h, p)| && a !in h
    requires n == Spine(h, p)[|Spine(h, p)| - 1]
    ensures var h' := h[a := Node(x, Null)][n := h[n].(next := Addr(a))];
      && Chain(h', p)
      && Spine(h', p) == Spine(h, p) + [a]
      && Items(h', p) == Items(h, p) + [x]
  {
    var k := |Spine(h, p)| - 1;
    NodeAt(h, p, k);
    LinkAfter(h, p, k, a, x);
    LinkAfterItems(h, p, k, a, x);
    assert InsertAt(Spine(h, p), k + 1, a) == Spine(h, p) + [a];
    assert InsertAt(Items(h, p), k + 1, x) == Items(h, p) + [x];
  }

  /** Unlinking and freeing the second node: the first node takes over its successor. */
  lemma UnlinkAfterFirst<T>(h: Heap<T>, p: Ptr)
    requires Chain(h, p) && 1 < |Spine(h, p)|
    ensures var b, m := p.addr, Spine(h, p)[1];
      var h' := (h - {m})[b := h[b].(next := h[m].next)];
      && Chain(h', p)
      && Spine(h', p) == RemoveAt(Spine(h, p), 1)
      && Items(h', p) == RemoveAt(Items(h, p), 1)
  {
    var b, m := p.addr, Spine(h, p)[1];
    var r, q := h - {b}, h[b].next;
    var h' := (h - {m})[b := h[b].(next := h[m].next)];
    assert m == q.addr && m in r;
    assert h' - {b} == r - {m};
    RemoveAtCons(b, Spine(r, q), 0);
    RemoveAtCons(h[b].data, Items(r, q), 0);
  }

  /** Unlinking and freeing node `k + 1`: node `k` takes over its successor. */
  lemma {:induction false} UnlinkAfter<T>(h: Heap<T>, p: Ptr, k: int)
    requires Chain(h, p) && 0 <= k && k + 1 < |Spine(h, p)|
    ensures var n, m := Spine(h, p)[k], Spine(h, p)[k + 1];
      var h' := (h - {m})[n := h[n].(next := h[m].next)];
      && Chain(h', p)
      && Spine(h', p) == RemoveAt(Spine(h, p), k + 1)
    decreases k
  {
    if k == 0 {
      UnlinkAfterFirst(h, p);
    } else {
      var b := p.addr;
      var r, q := h - {b}, h[b].next;
      var n, m := Spine(h, p)[k], Spine(h, p)[k + 1];
      var h' := (h - {m})[n := h[n].(next := h[m].next)];
      assert n == Spine(r, q)[k - 1] && m == Spine(r, q)[k] && n in r && m in r;
      UnlinkAfter(r, q, k - 1);
      assert h' - {b} == (r - {m})[n := r[n].(next := r[m].next)] && h'[b] == h[b];
      RemoveAtCons(b, Spine(r, q), k);
    }
  }

  /** After UnlinkAfter the items are the old items without the one at position `k + 1`. */
  lemma {:induction false} UnlinkAfterItems<T>(h: Heap<T>, p: Ptr, k: int)
    requires Chain(h, p) && 0 <= k && k + 1 < |Spine(h, p)|
    requires var n, m := Spine(h, p)[k], Spine(h, p)[k + 1];
      Chain((h - {m})[n := h[n].(next := h[m].next)], p)
    ensures var n, m := Spine(h, p)[k], Spine(h, p)[k + 1];
      var h' := (h - {m})[n := h[n].(next := h[m].next)];
      Items(h', p) == RemoveAt(Items(h, p), k + 1)
    decreases k
  {
    if k == 0 {
      UnlinkAfterFirst(h, p);
    } else {
      var b := p.addr;
      var r, q := h - {b}, h[b].next;
      var n, m := Spine(h, p)[k], Spine(h, p)[k + 1];
      var h' := (h - {m})[n := h[n].(next := h[m].next)];
      assert n == Spine(r, q)[k - 1] && m == Spine(r, q)[k] && n in r && m in r;
      assert h' - {b} == (r - {m})[n := r[n].(next := r[m].next)] && h'[b] == h[b];
      UnlinkAfterItems(r, q, k - 1);
      RemoveAtCons(h[b].data, Items(r, q), k);
    }
  }

  /** Overwriting the item of node `k` keeps the chain and the order of its nodes. */
  lemma {:induction false} SetData<T>(h: Heap<T>, p: Ptr, k: int, x: T)
    requires Chain(h, p) && 0 <= k < |Spine(h, p)|
    ensures var n := Spine(h, p)[k];
      var h' := h[n := h[n].(data := x)];
      Chain(h', p) && Spine(h', p) == Spine(h, p)
    decreases k
  {
    var b := p.addr;
    var r, q := h - {b}, h[b].next;
    var n := Spine(h, p)[k];
    var h' := h[n := h[n].(data := x)];
    if k == 0 {
      assert h' - {b} == r;
    } else {
      assert n == Spine(r, q)[k - 1] && n in r;
      SetData(r, q, k - 1, x);
      assert h' - {b} == r[n := r[n].(data := x)] && h'[b] == h[b];
    }
  }

  /** After SetData item `k` is `x` and every other item is as it was. */
  lemma {:induction false} SetDataItems<T>(h: Heap<T>, p: Ptr, k: int, x: T)
    requires Chain(h, p) && 0 <= k < |Spine(h, p)|
    requires var n := Spine(h, p)[k]; Chain(h[n := h[n].(data := x)], p)
    ensures var n := Spine(h, p)[k];
      Items(h[n := h[n].(data := x)], p) == Items(h, p)[k := x]
    decreases k
  {
    var b := p.addr;
    var r, q := h - {b}, h[b].next;
    var n := Spine(h, p)[k];
    var h' := h[n := h[n].(data := x)];
    if k == 0 {
      assert h' - {b} == r;
      assert Items(h, p)[0 := x] == [x] + Items(r, q);
    } else {
      assert n == Spine(r, q)[k - 1] && n in r;
      assert h' - {b} == r[n := r[n].(data := x)] && h'[b] == h[b];
      SetDataItems(r, q, k - 1, x);
      UpdateCons(h[b].data, Items(r, q), k - 1, x);
    }
  }

  /** A heap with one node more than a chain is no chain from the same head: that node leaks. */
  lemma {:induction false} ChainExtraNode<T>(h: Heap<T>, p: Ptr, a: nat, v: Node<T>)
    requires Chain(h, p) && a !in h
    ensures !Chain(h[a := v], p)
    decreases h.Keys
  {
    match p
    case Null =>
      assert a in h[a := v];
    case Addr(b) =>
      assert h[a := v] - {b} == (h - {b})[a := v];
      ChainExtraNode(h - {b}, h[b].next, a, v);
  }

  /**
   * Freeing the last node of a chain of two or more nodes without touching the
   * node before it leaves that node linking to freed memory: no chain any more.
   */
  lemma {:induction false} ChainMissingLast<T>(h: Heap<T>, p: Ptr)
    requires Chain(h, p) && 2 <= |Spine(h, p)|
    ensures !Chain(h - {Spine(h, p)[|Spine(h, p)| - 1]}, p)
    decreases h.Keys
  {
    var b := p.addr;
    var r, q := h - {b}, h[b].next;
    var last := Spine(h, p)[|Spine(h, p)| - 1];
    assert last == Spine(r, q)[|Spine(r, q)| - 1] && last in r;
    assert (h - {last}) - {b} == r - {last} && (h - {last})[b] == h[b];
    if |Spine(r, q)| == 1 {
      assert q == Addr(last);
    } else {
      ChainMissingLast(r, q);
    }
  }
}
