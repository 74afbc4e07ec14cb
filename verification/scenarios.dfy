/**
 * Sequences of List operations whose combined effect is known: the same script
 * run on all three implementations, the prepend loop of the demonstration
 * script, and the operations that undo one another.
 */
module Scenarios {
  import opened ListInterface
  import AL = ArrayList
  import L1 = SinglyLinkedList1
  import L2 = SinglyLinkedList2
  import Chains

  /**
   * new, append(10), append(20), prepend(5), insert(1, 7), remove(0) gives the
   * items [7, 10, 20] and size 3 on every implementation; the ArrayList is created
   * with capacity 5. Nodes are allocated at addresses 0, 1, 2 and 3 in turn.
   */
  method SameScript() returns (a: AL.List<int>, l1: L1.List<int>, l2: L2.List<int>)
    ensures a.Valid() && l1.Valid() && l2.Valid()
    ensures a.Contents() == l1.Contents() == l2.Contents() == [7, 10, 20]
    ensures AL.Size(a) == L1.Size(l1) == L2.Size(l2) == 3
  {
    a := ArrayListScript();
    l1 := List1Script();
    l2 := List2Script();
  }

  /** The common script on an ArrayList of capacity 5. */
  method ArrayListScript() returns (a: AL.List<int>)
    ensures a.Valid() && a.Contents() == [7, 10, 20]
  {
    var init := AL.Init<int>(5);
    a := init.value;
    var out, r;
    a, out := AL.Append(a, 10);
    a, out := AL.Append(a, 20);
    a, out := AL.Prepend(a, 5);
    assert a.Contents() == [5, 10, 20];
    a, out := AL.Insert(a, 1, 7);
    assert a.Contents() == [5, 7, 10, 20];
    a, r := AL.Remove(a, 0);
    assert a.Contents() == [7, 10, 20];
  }

  /** The first three steps of the common script, using addresses 0, 1 and 2. */
  method List1Start() returns (l: L1.List<int>)
    ensures l.Valid() && l.Contents() == [5, 10, 20] && l.heap.Keys == {0, 1, 2}
  {
    l := L1.New();
    l := L1.Append(l, 10, 0);
    l := L1.Append(l, 20, 1);
    l := L1.Prepend(l, 5, 2);
  }

  /** The common script on a SinglyLinkedList1. */
  method List1Script() returns (l: L1.List<int>)
    ensures l.Valid() && l.Contents() == [7, 10, 20]
  {
    var out, r;
    l := List1Start();
    l, out := L1.Insert(l, 1, 7, 3);
    assert l.Contents() == [5, 7, 10, 20];
    l, r := L1.Remove(l, 0);
    assert l.Contents() == [7, 10, 20];
  }

  /** The first three steps of the common script, using addresses 0, 1 and 2. */
  method List2Start() returns (l: L2.List<int>)
    ensures l.Valid() && l.Contents() == [5, 10, 20] && l.heap.Keys == {0, 1, 2}
  {
    l := L2.New();
    l := L2.Append(l, 10, 0);
    l := L2.Append(l, 20, 1);
    l := L2.Prepend(l, 5, 2);
  }

  /** The common script on a SinglyLinkedList2. */
  method List2Script() returns (l: L2.List<int>)
    ensures l.Valid() && l.Contents() == [7, 10, 20]
  {
    var out, r;
    l := List2Start();
    l, out := L2.Insert(l, 1, 7, 3);
    assert l.Contents() == [5, 7, 10, 20];
    l, r := L2.Remove(l, 0);
    assert l.Contents() == [7, 10, 20];
  }

  /** `xs` in reverse order. */
  function Reverse<T>(xs: seq<T>): (r: seq<T>)
    decreases |xs|
  {
    if |xs| == 0 then [] else Reverse(xs[1..]) + [xs[0]]
  }

  /** Position `i` of the reverse holds the item `i` places from the end. */
  lemma {:induction false} ReverseIndex<T>(xs: seq<T>)
    ensures |Reverse(xs)| == |xs|
    ensures forall i :: 0 <= i < |xs| ==> Reverse(xs)[i] == xs[|xs| - 1 - i]
    decreases |xs|
  {
    if |xs| > 0 {
      ReverseIndex(xs[1..]);
    }
  }

  /** The last item of `xs + [x]` comes first in its reverse. */
  lemma {:induction false} ReverseSnoc<T>(xs: seq<T>, x: T)
    ensures Reverse(xs + [x]) == [x] + Reverse(xs)
    decreases |xs|
  {
    if |xs| > 0 {
      assert (xs + [x])[1..] == xs[1..] + [x];
      ReverseSnoc(xs[1..], x);
    }
  }

  /**
   * Prepending the items of `xs` one after another, as the demonstration script
   * does with 0..9, leaves them in front of the old items in reverse order.
   */
  method PrependEach<T>(a: AL.List<T>, xs: seq<T>) returns (a': AL.List<T>)
    requires a.Valid() && a.size + |xs| <= a.capacity
    ensures a'.Valid() && a'.capacity == a.capacity
    ensures a'.Contents() == Reverse(xs) + a.Contents()
  {
    a' := a;
    var i := 0;
    while i < |xs|
      invariant 0 <= i <= |xs|
      invariant a'.Valid() && a'.capacity == a.capacity && a'.size == a.size + i
      invariant a'.Contents() == Reverse(xs[..i]) + a.Contents()
    {
      var out;
      a', out := AL.Prepend(a', xs[i]);
      assert xs[..i + 1] == xs[..i] + [xs[i]];
      ReverseSnoc(xs[..i], xs[i]);
      i := i + 1;
    }
    assert xs[..i] == xs;
  }

  /** The demonstration script's loop: prepending 0, 1, ..., 9 to an ArrayList of capacity 10. */
  method PrependDigits() returns (a: AL.List<int>)
    ensures a.Valid() && a.Contents() == [9, 8, 7, 6, 5, 4, 3, 2, 1, 0]
  {
    var init := AL.Init<int>(10);
    var digits := [0, 1, 2, 3, 4, 5, 6, 7, 8, 9];
    a := PrependEach(init.value, digits);
    ReverseDigits(digits);
  }

  /** The digits 0 to 9 in reverse order. */
  lemma ReverseDigits(digits: seq<int>)
    requires digits == [0, 1, 2, 3, 4, 5, 6, 7, 8, 9]
    ensures Reverse(digits) == [9, 8, 7, 6, 5, 4, 3, 2, 1, 0]
  {
    ReverseIndex(digits);
  }

  /** Prepending 1, 2 and 3 to a new ArrayList of capacity 3 leaves [3, 2, 1]. */
  method ArrayListPrependOrder() returns (a: AL.List<int>)
    ensures a.Valid() && a.Contents() == [3, 2, 1]
  {
    var init := AL.Init<int>(3);
    a := init.value;
    var out;
    a, out := AL.Prepend(a, 1);
    a, out := AL.Prepend(a, 2);
    a, out := AL.Prepend(a, 3);
  }

  /** Prepending 1, 2 and 3 to a new SinglyLinkedList1 leaves [3, 2, 1]. */
  method List1PrependOrder() returns (l: L1.List<int>)
    ensures l.Valid() && l.Contents() == [3, 2, 1] && L1.Size(l) == 3
  {
    l := L1.New();
    l := L1.Prepend(l, 1, 0);
    l := L1.Prepend(l, 2, 1);
    l := L1.Prepend(l, 3, 2);
  }

  /** Prepending 1, 2 and 3 to a new SinglyLinkedList2 leaves [3, 2, 1], with the tail on the node of 1. */
  method List2PrependOrder() returns (l: L2.List<int>)
    ensures l.Valid() && l.Contents() == [3, 2, 1] && L2.Size(l) == 3
    ensures l.tail == Chains.Addr(0)
  {
    l := L2.New();
    l := L2.Prepend(l, 1, 0);
    l := L2.Prepend(l, 2, 1);
    l := L2.Prepend(l, 3, 2);
  }

  /** On an ArrayList, removing the item just inserted gives it back and restores the list. */
  method ArrayListInsertRemove<T>(a: AL.List<T>, index: int, x: T) returns (a2: AL.List<T>, r: Result<T>)
    requires a.Valid() && a.size < a.capacity && InRange(index, a.size)
    ensures r == Success(x) && a2.Valid() && a2.Contents() == a.Contents()
  {
    var a1, out := AL.Insert(a, index, x);
    a2, r := AL.Remove(a1, index);
    InsertThenRemove(a.Contents(), index, x);
  }

  /** On an ArrayList, appending an item and removing the last index gives it back. */
  method ArrayListAppendRemoveLast<T>(a: AL.List<T>, x: T) returns (a2: AL.List<T>, r: Result<T>)
    requires a.Valid() && a.size < a.capacity
    ensures r == Success(x) && a2.Valid() && a2.Contents() == a.Contents()
  {
    var a1, out := AL.Append(a, x);
    a2, r := AL.Remove(a1, a.size);
    AppendThenRemoveLast(a.Contents(), x);
  }

  /** On an ArrayList, get after set returns the item just set. */
  method ArrayListSetGet<T>(a: AL.List<T>, index: int, x: T) returns (a1: AL.List<T>, r: Result<T>)
    requires a.Valid() && InRange(index, a.size)
    ensures r == Success(x) && a1.Valid() && |a1.Contents()| == |a.Contents()|
  {
    var out;
    a1, out := AL.Set(a, index, x);
    r := AL.Get(a1, index);
  }

  /**
   * On an ArrayList, re-inserting a removed item at its old index restores the
   * list. The index rule of insert excludes the end, so the removed item must not
   * have been the last one.
   */
  method ArrayListRemoveInsert<T>(a: AL.List<T>, index: int) returns (a2: AL.List<T>, out: Outcome)
    requires a.Valid() && 0 <= index < a.size - 1
    ensures out == Ok && a2.Valid() && a2.Contents() == a.Contents()
  {
    var a1, r := AL.Remove(a, index);
    a2, out := AL.Insert(a1, index, r.value);
    RemoveThenInsert(a.Contents(), index);
  }

  /** On a SinglyLinkedList1, get after set returns the item just set. */
  method List1SetGet<T>(l: L1.List<T>, index: int, x: T) returns (l1: L1.List<T>, r: Result<T>)
    requires l.Valid() && InRange(index, l.size)
    ensures r == Success(x) && l1.Valid() && l1.size == l.size
  {
    var out;
    l1, out := L1.Set(l, index, x);
    r := L1.Get(l1, index);
  }

  /** On a SinglyLinkedList2, get after set returns the item just set. */
  method List2SetGet<T>(l: L2.List<T>, index: int, x: T) returns (l1: L2.List<T>, r: Result<T>)
    requires l.Valid() && InRange(index, l.size)
    ensures r == Success(x) && l1.Valid() && l1.size == l.size
  {
    var out;
    l1, out := L2.Set(l, index, x);
    r := L2.Get(l1, index);
  }

  /** On an ArrayList, a second clear leaves the list exactly as the first one did. */
  method ArrayListClearTwice<T>(a: AL.List<T>) returns (a1: AL.List<T>, a2: AL.List<T>)
    requires a.Valid()
    ensures a1.Valid() && a1.Contents() == [] && a1.capacity == a.capacity
    ensures a2 == a1
  {
    a1 := AL.Clear(a);
    a2 := AL.Clear(a1);
  }

  /** On a SinglyLinkedList1, a second clear leaves the list exactly as the first one did. */
  method List1ClearTwice<T>(l: L1.List<T>) returns (l1: L1.List<T>, l2: L1.List<T>)
    requires l.Valid()
    ensures l1.Valid() && l1.Contents() == [] && l1.state == 0
    ensures l2 == l1
  {
    l1 := L1.Clear(l);
    l2 := L1.Clear(l1);
  }

  /** On a SinglyLinkedList2, a second clear leaves the list exactly as the first one did. */
  method List2ClearTwice<T>(l: L2.List<T>) returns (l1: L2.List<T>, l2: L2.List<T>)
    requires l.Valid()
    ensures l1.Valid() && l1.Contents() == [] && l1.state == 0
    ensures l2 == l1
  {
    l1 := L2.Clear(l);
    l2 := L2.Clear(l1);
  }

  /** On a SinglyLinkedList1, removing the item just inserted gives it back and restores the items. */
  method List1InsertRemove<T>(l: L1.List<T>, index: int, x: T, addr: nat) returns (l2: L1.List<T>, r: Result<T>)
    requires l.Valid() && addr !in l.heap && InRange(index, l.size)
    ensures r == Success(x) && l2.Valid() && l2.Contents() == l.Contents()
    ensures l2.state == l.state + 2
  {
    var l1, out := L1.Insert(l, index, x, addr);
    l2, r := L1.Remove(l1, index);
    InsertThenRemove(l.Contents(), index, x);
  }

  /** On a SinglyLinkedList1, appending an item and removing the last index gives it back. */
  method List1AppendRemoveLast<T>(l: L1.List<T>, x: T, addr: nat) returns (l2: L1.List<T>, r: Result<T>)
    requires l.Valid() && addr !in l.heap
    ensures r == Success(x) && l2.Valid() && l2.Contents() == l.Contents()
  {
    var l1 := L1.Append(l, x, addr);
    l2, r := L1.Remove(l1, l.size);
    AppendThenRemoveLast(l.Contents(), x);
  }

  /** On a SinglyLinkedList2, removing the item just inserted gives it back and restores the items. */
  method List2InsertRemove<T>(l: L2.List<T>, index: int, x: T, addr: nat) returns (l2: L2.List<T>, r: Result<T>)
    requires l.Valid() && addr !in l.heap && InRange(index, l.size)
    ensures r == Success(x) && l2.Valid() && l2.Contents() == l.Contents()
    ensures l2.state == l.state + 2
  {
    var l1, out := L2.Insert(l, index, x, addr);
    l2, r := L2.Remove(l1, index);
    InsertThenRemove(l.Contents(), index, x);
  }

  /**
   * On a SinglyLinkedList2, appending an item and removing the last index gives it
   * back, restores the items and leaves the tail at the last node.
   */
  method List2AppendRemoveLast<T>(l: L2.List<T>, x: T, addr: nat) returns (l2: L2.List<T>, r: Result<T>)
    requires l.Valid() && addr !in l.heap
    ensures r == Success(x) && l2.Valid() && l2.Contents() == l.Contents()
    ensures l2.tail == l.tail
  {
    var l1 := L2.Append(l, x, addr);
    l2, r := L2.Remove(l1, l.size);
    AppendThenRemoveLast(l.Contents(), x);
  }
}
