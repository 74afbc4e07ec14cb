/**
 * The List interface that ArrayList, SinglyLinkedList1 and SinglyLinkedList2 share:
 * the errors they report, the index rule every indexed operation applies, and the
 * meaning of insert and remove on the sequence of items a list holds.
 */
module ListInterface {

  /** Why an operation refused to run. The list it was applied to is left as it was. */
  datatype Error =
    | IndexOutOfRange   // IndexError: the index is not the position of an existing item
    | CapacityExceeded  // RuntimeError: an ArrayList already holds `capacity` items
    | InvalidCapacity   // ValueError: an ArrayList was configured with capacity < 1

  /** What a mutator reports: it either ran, or it failed and changed nothing. */
  datatype Outcome = Ok | Fail(error: Error)

  /** What get and remove report: the item, or why there is none. */
  datatype Result<T> = Success(value: T) | Failure(error: Error)

  /**
   * The index rule shared by get, set, insert and remove in all three lists:
   * `0 <= index <= size - 1`. For insert this rejects `index == size`, so insert
   * can only place an item in front of an existing one.
   */
  predicate InRange(index: int, size: int) {
    0 <= index && index <= size - 1
  }

  /** `s` with `x` placed in front of the item at position `i`. */
  function InsertAt<T>(s: seq<T>, i: int, x: T): (r: seq<T>)
    requires 0 <= i <= |s|
  {
    s[..i] + [x] + s[i..]
  }

  /** `s` without the item at position `i`. */
  function RemoveAt<T>(s: seq<T>, i: int): (r: seq<T>)
    requires 0 <= i < |s|
  {
    s[..i] + s[i + 1..]
  }

  /** Where each item of `InsertAt(s, i, x)` comes from. */
  lemma InsertAtIndex<T>(s: seq<T>, i: int, x: T, j: int)
    requires 0 <= i <= |s| && 0 <= j <= |s|
    ensures InsertAt(s, i, x)[j] == if j < i then s[j] else if j == i then x else s[j - 1]
  {
  }

  /** Where each item of `RemoveAt(s, i)` comes from. */
  lemma RemoveAtIndex<T>(s: seq<T>, i: int, j: int)
    requires 0 <= i < |s| && 0 <= j < |s| - 1
    ensures RemoveAt(s, i)[j] == if j < i then s[j] else s[j + 1]
  {
  }

  /** Inserting behind a first item leaves that item in front. */
  lemma InsertAtCons<T>(d: T, s: seq<T>, i: int, x: T)
    requires 0 <= i <= |s|
    ensures InsertAt([d] + s, i + 1, x) == [d] + InsertAt(s, i, x)
  {
    assert ([d] + s)[..i + 1] == [d] + s[..i];
    assert ([d] + s)[i + 1..] == s[i..];
  }

  /** Removing behind a first item leaves that item in front. */
  lemma RemoveAtCons<T>(d: T, s: seq<T>, i: int)
    requires 0 <= i < |s|
    ensures RemoveAt([d] + s, i + 1) == [d] + RemoveAt(s, i)
  {
    assert ([d] + s)[..i + 1] == [d] + s[..i];
    assert ([d] + s)[i + 2..] == s[i + 1..];
  }

  /** Replacing an item behind a first item leaves that item in front. */
  lemma UpdateCons<T>(d: T, s: seq<T>, i: int, x: T)
    requires 0 <= i < |s|
    ensures ([d] + s)[i + 1 := x] == [d] + s[i := x]
  {
  }

  /** Removing the item just inserted gives back the original list and the inserted item. */
  lemma InsertThenRemove<T>(s: seq<T>, i: int, x: T)
    requires 0 <= i <= |s|
    ensures |InsertAt(s, i, x)| == |s| + 1
    ensures InsertAt(s, i, x)[i] == x
    ensures RemoveAt(InsertAt(s, i, x), i) == s
  {
    var t := InsertAt(s, i, x);
    assert t[..i] == s[..i];
    assert t[i + 1..] == s[i..];
  }

  /** Re-inserting a removed item where it was restores the list. */
  lemma RemoveThenInsert<T>(s: seq<T>, i: int)
    requires 0 <= i < |s|
    ensures InsertAt(RemoveAt(s, i), i, s[i]) == s
  {
    var r := RemoveAt(s, i);
    assert r[..i] == s[..i];
    assert r[i..] == s[i + 1..];
    assert s == s[..i] + [s[i]] + s[i + 1..];
  }

  /** Appending an item and then removing the last position returns that item and the original list. */
  lemma AppendThenRemoveLast<T>(s: seq<T>, x: T)
    ensures (s + [x])[|s|] == x
    ensures RemoveAt(s + [x], |s|) == s
  {
    assert (s + [x])[..|s|] == s;
  }
}
