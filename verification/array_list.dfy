/**
 * ArrayList: a List kept in one buffer of `capacity` slots that is allocated when
 * the list is initialised and never resized. The first `size` slots hold the items
 * in order; every other slot holds the sentinel (the source uses Py_None).
 *
 * The buffer is a value (`seq<Slot<T>>`): each write `data[i] = v` of the source is
 * the update `data := data[i := v]`, and every mutator returns the list it leaves.
 */
module ArrayList {
  import opened ListInterface

  /** A buffer slot: the sentinel of an unused slot, or a live item. */
  datatype Slot<T> = Sentinel | Item(item: T)

  datatype List<T> = List(capacity: int, size: int, data: seq<Slot<T>>)
  {
    /** The representation invariant every operation keeps. */
    ghost predicate Valid() {
      && 1 <= capacity
      && 0 <= size <= capacity
      && |data| == capacity
      && (forall i :: 0 <= i < size ==> data[i].Item?)
      && (forall i :: size <= i < capacity ==> data[i] == Sentinel)
    }

    /** The items of the list, in order: the live prefix of the buffer. */
    ghost function Contents(): (s: seq<T>)
      requires Valid()
    {
      seq(size, i requires 0 <= i < size => data[i].item)
    }
  }

  /**
   * Initialises a list of the given capacity: refuses a capacity below one, and
   * otherwise fills every slot of a fresh buffer with the sentinel.
   */
  method Init<T>(capacity: int) returns (r: Result<List<T>>)
    ensures r.Failure? <==> capacity < 1
    ensures r.Failure? ==> r.error == InvalidCapacity
    ensures r.Success? ==> r.value.Valid() && r.value.capacity == capacity
    ensures r.Success? ==> r.value.Contents() == []
    ensures r.Success? ==> forall i :: 0 <= i < |r.value.data| ==> r.value.data[i] == Sentinel
  {
    if capacity < 1 {
      return Failure(InvalidCapacity);
    }
    var data: seq<Slot<T>> := [];
    var i := 0;
    while i < capacity
      invariant 0 <= i <= capacity
      invariant |data| == i
      invariant forall j :: 0 <= j < i ==> data[j] == Sentinel
    {
      data := data + [Sentinel];
      i := i + 1;
    }
    r := Success(List(capacity, 0, data));
  }

  /** Adds `x` after the last item; a full list refuses and is left unchanged. */
  method Append<T>(a: List<T>, x: T) returns (a': List<T>, out: Outcome)
    requires a.Valid()
    ensures a'.Valid() && a'.capacity == a.capacity
    ensures out == Ok <==> a.size < a.capacity
    ensures out != Ok ==> out == Fail(CapacityExceeded) && a' == a
    ensures out == Ok ==> a'.Contents() == a.Contents() + [x]
    ensures out == Ok ==> a'.size == a.size + 1
  {
    if a.size == a.capacity {
      return a, Fail(CapacityExceeded);
    }
    a' := List(a.capacity, a.size + 1, a.data[a.size := Item(x)]);
    out := Ok;
  }

  /** The fixed capacity: at least one, and the number of buffer slots. */
  function Capacity<T>(a: List<T>): (c: int)
    requires a.Valid()
    ensures 1 <= c && c == |a.data|
    ensures |a.Contents()| <= c
  {
    a.capacity
  }

  /** Puts the sentinel back into every live slot and empties the list. */
  method Clear<T>(a: List<T>) returns (a': List<T>)
    requires a.Valid()
    ensures a'.Valid() && a'.capacity == a.capacity
    ensures a'.Contents() == []
    ensures forall i :: 0 <= i < |a'.data| ==> a'.data[i] == Sentinel
    ensures a.size == 0 ==> a' == a
  {
    var data := a.data;
    var i := 0;
    while i < a.size
      invariant 0 <= i <= a.size
      invariant |data| == |a.data|
      invariant forall j :: 0 <= j < i ==> data[j] == Sentinel
      invariant forall j :: i <= j < |data| ==> data[j] == a.data[j]
    {
      data := data[i := Sentinel];
      i := i + 1;
    }
    a' := List(a.capacity, 0, data);
  }

  /** True when `index` fails the range test the ArrayList applies before indexing. */
  predicate OutOfRange<T>(a: List<T>, index: int): (out: bool)
    ensures a.Valid() ==> (out <==> !InRange(index, a.size))
  {
    index < 0 || index >= a.capacity || index > a.size - 1
  }

  /** The item at `index`, without changing the list. */
  function Get<T>(a: List<T>, index: int): (r: Result<T>)
    requires a.Valid()
    ensures r.Success? <==> InRange(index, |a.Contents()|)
    ensures r.Failure? ==> r.error == IndexOutOfRange
    ensures r.Success? ==> r.value == a.Contents()[index]
  {
    if OutOfRange(a, index) then Failure(IndexOutOfRange) else Success(a.data[index].item)
  }

  /**
   * Places `x` in front of the item at `index`, shifting that item and all later
   * ones one slot to the right. Fullness is tested before the index, so a full
   * list reports CapacityExceeded whatever the index.
   */
  method Insert<T>(a: List<T>, index: int, x: T) returns (a': List<T>, out: Outcome)
    requires a.Valid()
    ensures a'.Valid() && a'.capacity == a.capacity
    ensures out == Ok <==> a.size < a.capacity && InRange(index, a.size)
    ensures a.size == a.capacity ==> out == Fail(CapacityExceeded)
    ensures a.size < a.capacity && !InRange(index, a.size) ==> out == Fail(IndexOutOfRange)
    ensures out != Ok ==> a' == a
    ensures out == Ok ==> a'.Contents() == InsertAt(a.Contents(), index, x)
    ensures out == Ok ==> a'.size == a.size + 1
  {
    if a.size == a.capacity {
      return a, Fail(CapacityExceeded);
    }
    if OutOfRange(a, index) {
      return a, Fail(IndexOutOfRange);
    }
    var data := ShiftRight(a.data, index, a.size);
    a' := List(a.capacity, a.size + 1, data[index := Item(x)]);
    InsertedContents(a, a', index, x);
    out := Ok;
  }

  /** Adds `x` in front of the first item (also on an empty list); a full list refuses. */
  method Prepend<T>(a: List<T>, x: T) returns (a': List<T>, out: Outcome)
    requires a.Valid()
    ensures a'.Valid() && a'.capacity == a.capacity
    ensures out == Ok <==> a.size < a.capacity
    ensures out != Ok ==> out == Fail(CapacityExceeded) && a' == a
    ensures out == Ok ==> a'.Contents() == [x] + a.Contents()
    ensures out == Ok ==> a'.size == a.size + 1
  {
    if a.size == a.capacity {
      return a, Fail(CapacityExceeded);
    }
    var data := ShiftRight(a.data, 0, a.size);
    a' := List(a.capacity, a.size + 1, data[0 := Item(x)]);
    InsertedContents(a, a', 0, x);
    assert InsertAt(a.Contents(), 0, x) == [x] + a.Contents();
    out := Ok;
  }

  /**
   * The right shift of insert and prepend: for i from `size` down to `from + 1`,
   * `data[i] = data[i-1]`. Slot `from` keeps its old value until the caller writes it.
   */
  method ShiftRight<T>(data: seq<Slot<T>>, from: int, size: int) returns (d: seq<Slot<T>>)
    requires 0 <= from <= size < |data|
    ensures |d| == |data|
    ensures forall j :: 0 <= j <= from ==> d[j] == data[j]
    ensures forall j :: from < j <= size ==> d[j] == data[j - 1]
    ensures forall j :: size < j < |d| ==> d[j] == data[j]
  {
    d := data;
    var i := size;
    while i > from
      invariant from <= i <= size
      invariant |d| == |data|
      invariant forall j :: 0 <= j <= i ==> d[j] == data[j]
      invariant forall j :: i < j <= size ==> d[j] == data[j - 1]
      invariant forall j :: size < j < |d| ==> d[j] == data[j]
    {
      d := d[i := d[i - 1]];
      i := i - 1;
    }
  }

  /** The list built by insert or prepend holds `x` at `index` and the old items around it. */
  lemma InsertedContents<T>(a: List<T>, a': List<T>, index: int, x: T)
    requires a.Valid() && a.size < a.capacity && 0 <= index <= a.size
    requires a'.capacity == a.capacity && a'.size == a.size + 1 && |a'.data| == |a.data|
    requires a'.data[index] == Item(x)
    requires forall j :: 0 <= j < index ==> a'.data[j] == a.data[j]
    requires forall j :: index < j <= a.size ==> a'.data[j] == a.data[j - 1]
    requires forall j :: a.size < j < |a'.data| ==> a'.data[j] == a.data[j]
    ensures a'.Valid()
    ensures a'.Contents() == InsertAt(a.Contents(), index, x)
  {
    var s, t := a.Contents(), a'.Contents();
    assert |t| == |InsertAt(s, index, x)|;
    forall j | 0 <= j < |t|
      ensures t[j] == InsertAt(s, index, x)[j]
    {
      if j < index {
        assert t[j] == s[j];
      } else if j > index {
        assert t[j] == s[j - 1];
      }
    }
  }

  /**
   * Removes and returns the item at `index`: later items shift one slot to the left
   * and the slot that falls out of use gets the sentinel back.
   */
  method Remove<T>(a: List<T>, index: int) returns (a': List<T>, r: Result<T>)
    requires a.Valid()
    ensures a'.Valid() && a'.capacity == a.capacity
    ensures r.Success? <==> InRange(index, a.size)
    ensures r.Failure? ==> r.error == IndexOutOfRange && a' == a
    ensures r.Success? ==> r.value == a.Contents()[index]
    ensures r.Success? ==> a'.Contents() == RemoveAt(a.Contents(), index)
    ensures r.Success? ==> a'.size == a.size - 1
    ensures r.Success? ==> a'.data[a.size - 1] == Sentinel
  {
    if OutOfRange(a, index) {
      return a, Failure(IndexOutOfRange);
    }
    var removed := a.data[index].item;
    var data := ShiftLeft(a.data, index, a.size);
    data := data[a.size - 1 := Sentinel];
    a' := List(a.capacity, a.size - 1, data);
    var s, t := a.Contents(), a'.Contents();
    forall k | 0 <= k < |t|
      ensures t[k] == RemoveAt(s, index)[k]
    {
      if k >= index {
        assert t[k] == s[k + 1];
      }
    }
    r := Success(removed);
  }

  /**
   * The left shift of remove: for i from `index` up to `size - 2`,
   * `data[i] = data[i+1]`. Slot `size - 1` keeps its old value until the caller
   * writes the sentinel there.
   */
  method ShiftLeft<T>(data: seq<Slot<T>>, index: int, size: int) returns (d: seq<Slot<T>>)
    requires 0 <= index < size <= |data|
    ensures |d| == |data|
    ensures forall j :: 0 <= j < index ==> d[j] == data[j]
    ensures forall j :: index <= j < size - 1 ==> d[j] == data[j + 1]
    ensures forall j :: size - 1 <= j < |d| ==> d[j] == data[j]
  {
    d := data;
    var i := index;
    while i < size - 1
      invariant index <= i <= size - 1
      invariant |d| == |data|
      invariant forall j :: 0 <= j < index ==> d[j] == data[j]
      invariant forall j :: index <= j < i ==> d[j] == data[j + 1]
      invariant forall j :: i <= j < |d| ==> d[j] == data[j]
    {
      d := d[i := d[i + 1]];
      i := i + 1;
    }
  }

  /** Replaces the item at `index` by `x`; every other slot and the size stay as they were. */
  method Set<T>(a: List<T>, index: int, x: T) returns (a': List<T>, out: Outcome)
    requires a.Valid()
    ensures a'.Valid() && a'.capacity == a.capacity && a'.size == a.size
    ensures out == Ok <==> InRange(index, a.size)
    ensures out != Ok ==> out == Fail(IndexOutOfRange) && a' == a
    ensures out == Ok ==> a'.Contents() == a.Contents()[index := x]
  {
    if OutOfRange(a, index) {
      return a, Fail(IndexOutOfRange);
    }
    a' := List(a.capacity, a.size, a.data[index := Item(x)]);
    out := Ok;
  }

  /** The size counter, which is the number of items the list holds. */
  function Size<T>(a: List<T>): (n: int)
    requires a.Valid()
    ensures n == |a.Contents()|
    ensures 0 <= n <= a.capacity
  {
    a.size
  }
}
