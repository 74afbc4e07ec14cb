# educollections lists in Dafny

A model of the three List implementations of the `_educollections` extension
module: `ArrayList` (a fixed-capacity buffer), `SinglyLinkedList1` (a chain of
nodes reached from `head`) and `SinglyLinkedList2` (the same chain with a `tail`
pointer for constant-time append). All three offer append, prepend, insert, get,
set, remove, clear and size. They share one index rule, `0 <= index <= size - 1`,
and that rule applies to insert too, so insert can only place an item in front of
an existing one.

Modules:

- `ListInterface` (`list_interface.dfy`) holds what the three lists share:
  - the error kinds (IndexError, RuntimeError for a full ArrayList, ValueError for
    a bad capacity);
  - the index rule `InRange`;
  - the meaning of insert and remove on the item sequence (`InsertAt`, `RemoveAt`);
  - the round-trip lemmas that relate them.
- `ArrayList` (`array_list.dfy`):
  - The buffer is a `seq<Slot<T>>`, where `Sentinel` stands for the `Py_None`
    the source puts in unused slots.
  - Each C assignment `data[i] = v` is a sequence update.
  - The shift loops of insert, prepend and remove are Dafny loops with invariants.
- `Chains` (`chains.dfy`) models node memory explicitly. The same module is used by
  both linked lists.
  - A heap maps live node addresses to `Node(data, next)` records.
  - `PyMem_Malloc` is an address the caller supplies, which is not yet in the heap.
  - `PyMem_Free` removes an address from the heap.
  - `Chain(h, p)` says that following `next` from `p` visits every node of `h`
    exactly once and ends in NULL. So there is no cycle, no dangling link and no
    leak.
  - `Spine` is the sequence of node addresses in the chain, and `Items` is the
    sequence of their items.
  - The pointer surgery of the source is written as lemmas about `Chain`, `Spine`
    and `Items`. Examples are linking a node after node `k` and unlinking node
    `k + 1`.
  - The walks are methods with loop invariants: to node `k`, to the last node, and
    the freeing walk of clear.
- `SinglyLinkedList1` (`singly_linked_list1.dfy`) and `SinglyLinkedList2`
  (`singly_linked_list2.dfy`):
  - Each list is a value `List(heap, head, [tail,] size, state)`.
  - `state` is the modification counter. Every successful append, prepend, insert,
    remove and set adds one to it, and clear resets it to zero.
  - `Valid()` ties `size` to the chain length and, for `SinglyLinkedList2`, `tail`
    to the last node.
  - `Contents()` is the item sequence.
- `Scenarios` (`scenarios.dfy`) holds:
  - the same six-step script run on all three lists;
  - the prepend loop of `test_educollections.py`, and prepend order on all three lists;
  - round trips: insert then remove, remove then insert, append then remove the
    last item, and set then get;
  - clear applied twice.

Every mutator returns the list it leaves and what it reports. A refused operation
returns the list unchanged. Where the source handles an input, the model does too:
out-of-range indices, full lists, empty lists and capacities below one are all
modelled as error results, not excluded by preconditions.

Three facts about the code that shape the model:

- The checks in ArrayList append, get and set (`_educollectionslists.c:124-133`,
  `180-185` and `310-320`) only exist when `NDEBUG` is defined. They are modelled
  as always present. Without them these operations index past the live items or
  the buffer.
- The `remove from an empty LinkedList` branches (`_educollectionslists.c:673-676`,
  `686-689`, `1101-1104` and `1117-1120`) are dead. When `size == 0`, the range
  test before them already rejects every index. The model has no separate branch
  for them.
- Append and prepend of both linked lists increment `state` before calling
  `PyMem_Malloc` (`_educollectionslists.c:519`, `639`, `945` and `1065`). A failed
  allocation therefore still changes the counter. Allocation failure is not
  modelled (see below).

## Model

| member | source | states |
|---|---|---|
| ArrayList.Init | _educollectionslists.c:71-109 | a capacity below one is refused with InvalidCapacity; otherwise the list is valid, empty, has exactly that capacity, and every buffer slot holds the sentinel |
| ArrayList.Append | _educollectionslists.c:122-139 | succeeds exactly when size < capacity; then the items are the old items followed by x and the size grows by one; a full list is refused with CapacityExceeded and left unchanged |
| ArrayList.Capacity | _educollectionslists.c:146-149 | the capacity is at least one, equals the number of buffer slots, and bounds the number of items |
| ArrayList.Clear | _educollectionslists.c:153-166 | the list keeps its capacity, holds no items, and every slot holds the sentinel again; an empty list is left as it was |
| ArrayList.Get | _educollectionslists.c:170-189 | succeeds exactly for 0 <= index <= size - 1 and then returns the item at that position; otherwise IndexOutOfRange |
| ArrayList.OutOfRange | _educollectionslists.c:214 | the range test (index below zero, at or past the capacity, or past the last item) that get, insert, remove and set apply; on a valid list it holds exactly when the index is not in 0 .. size - 1, because size <= capacity makes the capacity test redundant |
| ArrayList.Insert | _educollectionslists.c:193-231 | succeeds exactly when the list is not full and the index is in range; a full list reports CapacityExceeded before the index is looked at; on success the items are the old items with x placed at index and size grows by one; a refused call leaves the list unchanged |
| ArrayList.ShiftRight | _educollectionslists.c:224-226 | after the right shift, slots up to `from` are unchanged, slots from + 1 to size hold their left neighbour's old value, and later slots are unchanged |
| ArrayList.InsertedContents | _educollectionslists.c:224-229 | a buffer shifted right from index, with x written at index and one more item, is valid and holds the old items with x inserted at index |
| ArrayList.Prepend | _educollectionslists.c:235-257 | succeeds exactly when size < capacity; then x comes first, followed by the old items, and size grows by one; a full list is refused with CapacityExceeded and left unchanged |
| ArrayList.Remove | _educollectionslists.c:261-288 | succeeds exactly for an index in range; returns the item at index, leaves the old items without it, shrinks size by one and puts the sentinel into the slot that falls out of use; otherwise IndexOutOfRange and the list is unchanged |
| ArrayList.ShiftLeft | _educollectionslists.c:280-282 | after the left shift, slots before index are unchanged, slots index to size - 2 hold their right neighbour's old value, and slots from size - 1 on are unchanged |
| ArrayList.Set | _educollectionslists.c:292-326 | succeeds exactly for an index in range and then replaces only the item at index, keeping size and capacity; otherwise IndexOutOfRange and the list is unchanged |
| ArrayList.Size | _educollectionslists.c:330-333 | the size is the number of items and lies between 0 and the capacity |
| Chains.Spine | _educollectionslists.c:455-458 | every address on the chain is a live node; the chain is empty exactly when the start pointer is NULL, and otherwise starts at that node |
| Chains.Items | _educollectionslists.c:455-458 | there is one item per node of the chain |
| Chains.NodeAt | _educollectionslists.c:578-582 | node k of a chain holds item k, and its next pointer is node k + 1, or NULL at the last node |
| Chains.SpineDistinct | _educollectionslists.c:455-458 | two different positions of a chain are different nodes |
| Chains.Advance | _educollectionslists.c:578-580 | walking k steps from the head reaches node k of the chain |
| Chains.Last | _educollectionslists.c:533-535 | walking from the head until next is NULL reaches the last node of the chain |
| Chains.FreeAll | _educollectionslists.c:546-552 | freeing every node while following next from the head leaves the heap empty |
| Chains.PushFront | _educollectionslists.c:645-649 | a new node linked in front of the head gives a chain whose nodes and items are the new ones followed by the old ones |
| Chains.LinkAfter | _educollectionslists.c:625-629 | linking a new node between node k and its successor gives a chain whose node sequence has the new node at position k + 1 |
| Chains.LinkAfterItems | _educollectionslists.c:625-629 | after that linking, the items are the old items with x at position k + 1 |
| Chains.LinkLast | _educollectionslists.c:959-960 | linking a new node after the last node gives a chain with the new node and its item added at the end |
| Chains.UnlinkAfter | _educollectionslists.c:714-717 | letting node k take over the successor of node k + 1 and freeing node k + 1 gives a chain whose node sequence lacks position k + 1 |
| Chains.UnlinkAfterItems | _educollectionslists.c:714-717 | after that unlinking, the items are the old items without position k + 1 |
| Chains.SetData | _educollectionslists.c:749-757 | overwriting the item of node k keeps a chain with the same node sequence |
| Chains.SetDataItems | _educollectionslists.c:749-757 | after that overwrite the items are the old items with position k replaced |
| Chains.ChainExtraNode | _educollectionslists.c:525-536 | adding a node that nothing links to breaks the chain property (the node is leaked) |
| Chains.ChainMissingLast | _educollectionslists.c:697-705 | freeing the last node of a chain of two or more without clearing its predecessor's link breaks the chain property (the link dangles) |
| SinglyLinkedList1.New | _educollectionslists.c:475-488 | a new list is valid and empty with the counter at zero |
| SinglyLinkedList1.Append | _educollectionslists.c:515-538 | the items are the old items followed by x, the new node is added at the end of the chain, size and state grow by one, and the heap gains exactly the new node |
| SinglyLinkedList1.Clear | _educollectionslists.c:542-557 | all nodes are freed, the list is valid and empty, and the counter is reset to zero |
| SinglyLinkedList1.Get | _educollectionslists.c:561-584 | succeeds exactly for an index in range and returns the item at that position; otherwise IndexOutOfRange |
| SinglyLinkedList1.Insert | _educollectionslists.c:590-631 | succeeds exactly for an index in range; then the items are the old items with x at index, the new node sits at position index of the chain, the heap gains exactly that node, and size and state grow by one; otherwise IndexOutOfRange and the list is unchanged |
| SinglyLinkedList1.InsertAfter | _educollectionslists.c:616-630 | linking after node k keeps the head, places x at position k + 1, adds exactly the new node, and adds one to size and state |
| SinglyLinkedList1.Prepend | _educollectionslists.c:635-651 | x comes first, followed by the old items, the new node heads the chain, the heap gains exactly that node, and size and state grow by one |
| SinglyLinkedList1.Remove | _educollectionslists.c:655-721 | succeeds exactly for an index in range; returns the item at index, leaves the old items without it, frees exactly that node, keeps the other nodes in order, and moves size down and state up by one; otherwise IndexOutOfRange and the list is unchanged (the last index uses the corrected remove-last) |
| SinglyLinkedList1.RemoveLast | _educollectionslists.c:685-707 | for two or more items, returns the last item, frees exactly the last node and ends the chain at the node before it |
| SinglyLinkedList1.RemoveAfter | _educollectionslists.c:710-720 | returns the item at k + 1 and frees exactly node k + 1, keeping the head and the order of the other nodes |
| SinglyLinkedList1.Set | _educollectionslists.c:725-759 | succeeds exactly for an index in range; then only the item at index changes, the nodes and head stay, and state grows by one; otherwise IndexOutOfRange and the list is unchanged |
| SinglyLinkedList1.Size | _educollectionslists.c:763-766 | the size counter equals the number of items and the number of nodes |
| SinglyLinkedList1.AppendAsWritten | _educollectionslists.c:515-538 | append as written counts the new item on every list but leaves a valid list only when the list was empty |
| SinglyLinkedList1.AppendAsWrittenExample | _educollectionslists.c:531-536 | two appends as written to a new list report size 2 while the chain holds only the first node |
| SinglyLinkedList1.RemoveLastAsWritten | _educollectionslists.c:685-707 | the last-index branch as written returns the first item and leaves a list that is not valid |
| SinglyLinkedList1.RemoveLastAsWrittenExample | _educollectionslists.c:690-691 | on the valid list [10, 20], remove(1) as written returns 10 and leaves an invalid list |
| SinglyLinkedList2.New | _educollectionslists.c:900-914 | a new list is valid and empty, both pointers are NULL, and the counter is zero |
| SinglyLinkedList2.Append | _educollectionslists.c:941-963 | the items are the old items followed by x, the new node is added at the end of the chain and becomes the tail, the heap gains exactly that node, and size and state grow by one |
| SinglyLinkedList2.Clear | _educollectionslists.c:967-983 | all nodes are freed, head and tail are NULL, the list is empty, and the counter is reset to zero |
| SinglyLinkedList2.Get | _educollectionslists.c:987-1010 | succeeds exactly for an index in range and returns the item at that position; otherwise IndexOutOfRange |
| SinglyLinkedList2.Insert | _educollectionslists.c:1016-1057 | as for SinglyLinkedList1, and the tail is unchanged: index 0 goes through the corrected prepend, which keeps the tail of a non-empty list, and any other index links the new node in front of an existing node, never after the last one |
| SinglyLinkedList2.InsertAfter | _educollectionslists.c:1042-1056 | linking after a node that is not the last keeps head and tail, places x at position k + 1, and adds exactly the new node |
| SinglyLinkedList2.Prepend | _educollectionslists.c:1061-1079 | x comes first, followed by the old items, the new node heads the chain, and the tail stays on a non-empty list and becomes the new node on an empty one |
| SinglyLinkedList2.Remove | _educollectionslists.c:1083-1149 | succeeds exactly for an index in range; returns the item at index, leaves the old items without it, frees exactly that node, keeps the tail at the last node (NULL once empty), and moves size down and state up by one; otherwise IndexOutOfRange and the list is unchanged |
| SinglyLinkedList2.RemoveLast | _educollectionslists.c:1116-1136 | for two or more items, returns the tail's item, frees the tail node, and makes the node before it the tail, ending the chain there |
| SinglyLinkedList2.RemoveAfter | _educollectionslists.c:1138-1148 | removing a node that is not the last keeps head and tail, returns its item, and frees exactly that node |
| SinglyLinkedList2.Set | _educollectionslists.c:1153-1186 | succeeds exactly for an index in range; then only the item at index changes, nodes, head and tail stay, and state grows by one; otherwise IndexOutOfRange and the list is unchanged |
| SinglyLinkedList2.Size | _educollectionslists.c:1190-1193 | the size counter equals the number of items and the number of nodes, and is zero exactly when the tail is NULL |
| SinglyLinkedList2.HeadIsTail | _educollectionslists.c:886-892 | in a valid list head and tail are equal exactly when the list holds at most one item |
| SinglyLinkedList2.TailIsLast | _educollectionslists.c:957-960 | the tail of a non-empty list is a live node whose next is NULL and whose item is the last item |
| SinglyLinkedList2.PrependAsWritten | _educollectionslists.c:1061-1079 | prepend as written is correct except on a list of one item, where it leaves head and tail on the new node and the list invalid |
| SinglyLinkedList2.PrependAsWrittenExample | _educollectionslists.c:1075-1076 | prepending 5 as written to [10] makes the tail point to the node of 5, so the list is invalid |
| Scenarios.SameScript | _educollectionslists.c:43-1193 | new, append(10), append(20), prepend(5), insert(1, 7), remove(0) leaves [7, 10, 20] and size 3 on all three lists, with the corrected SinglyLinkedList1 append |
| Scenarios.ArrayListScript | _educollectionslists.c:122-288 | the common script on an ArrayList of capacity 5 leaves the items [7, 10, 20] |
| Scenarios.List1Start | _educollectionslists.c:515-651 | new, append(10), append(20), prepend(5) on a SinglyLinkedList1 with the corrected append leaves [5, 10, 20] in three nodes |
| Scenarios.List1Script | _educollectionslists.c:590-721 | the common script on a SinglyLinkedList1 with the corrected append leaves the items [7, 10, 20] |
| Scenarios.List2Start | _educollectionslists.c:941-1079 | new, append(10), append(20), prepend(5) on a SinglyLinkedList2 leaves [5, 10, 20] in three nodes |
| Scenarios.List2Script | _educollectionslists.c:1016-1149 | the common script on a SinglyLinkedList2 leaves the items [7, 10, 20] |
| Scenarios.PrependEach | test_educollections.py:15-18 | prepending the items of xs one by one to an ArrayList with room for them puts them in front of the old items in reverse order |
| Scenarios.PrependDigits | test_educollections.py:10-18 | prepending 0, 1, ..., 9 to an ArrayList of capacity 10 leaves the items 9, 8, ..., 0 |
| Scenarios.ArrayListPrependOrder | _educollectionslists.c:235-257 | prepending 1, 2 and 3 to a new ArrayList of capacity 3 leaves [3, 2, 1] |
| Scenarios.List1PrependOrder | _educollectionslists.c:635-651 | prepending 1, 2 and 3 to a new SinglyLinkedList1 leaves [3, 2, 1] and size 3 |
| Scenarios.List2PrependOrder | _educollectionslists.c:1061-1079 | prepending 1, 2 and 3 to a new SinglyLinkedList2 leaves [3, 2, 1] and size 3, with the tail on the first node allocated, under the corrected prepend |
| Scenarios.ArrayListInsertRemove | _educollectionslists.c:193-288 | on an ArrayList, removing at the index just inserted at returns the inserted item and restores the items |
| Scenarios.ArrayListAppendRemoveLast | _educollectionslists.c:122-288 | on an ArrayList, appending and then removing the last index returns the appended item and restores the items |
| Scenarios.ArrayListSetGet | _educollectionslists.c:170-326 | on an ArrayList, get after set at the same index returns the item just set |
| Scenarios.ArrayListRemoveInsert | _educollectionslists.c:193-288 | on an ArrayList, re-inserting a removed item (not the last one) at its index restores the items |
| Scenarios.ArrayListClearTwice | _educollectionslists.c:153-166 | on an ArrayList, clear empties the list and keeps its capacity, and a second clear changes nothing |
| Scenarios.List1ClearTwice | _educollectionslists.c:542-557 | on a SinglyLinkedList1, clear empties the list with the counter at zero, and a second clear changes nothing |
| Scenarios.List2ClearTwice | _educollectionslists.c:967-983 | on a SinglyLinkedList2, clear empties the list with the counter at zero, and a second clear changes nothing |
| Scenarios.List1SetGet | _educollectionslists.c:561-759 | on a SinglyLinkedList1, get after set returns the item just set |
| Scenarios.List1InsertRemove | _educollectionslists.c:590-721 | on a SinglyLinkedList1, removing at the index just inserted at returns the item, restores the items, and adds two to the counter |
| Scenarios.List1AppendRemoveLast | _educollectionslists.c:515-721 | on a SinglyLinkedList1 with the corrected append and remove-last, appending and then removing the last index returns the appended item and restores the items |
| Scenarios.List2SetGet | _educollectionslists.c:987-1186 | on a SinglyLinkedList2, get after set returns the item just set |
| Scenarios.List2InsertRemove | _educollectionslists.c:1016-1149 | on a SinglyLinkedList2 with the corrected prepend, removing at the index just inserted at returns the item, restores the items, and adds two to the counter |
| Scenarios.List2AppendRemoveLast | _educollectionslists.c:941-1149 | on a SinglyLinkedList2, appending and then removing the last index returns the item, restores the items, and puts the tail back on the old last node |

## Left out

- Reference counting (`Py_INCREF`/`Py_DECREF`) is not modelled: items are plain values.
- Argument parsing is not modelled: the model takes integers and items directly.
  This covers `PyArg_ParseTuple`, `PyLong_AsSsize_t`, and the "WTF" errors they
  lead to.
- The `item == NULL` checks are not modelled, because an item is never NULL in the
  model.
- Allocation failure of `PyMem_New` and `PyMem_Malloc` is not modelled. A new
  address is a parameter of each operation that creates a node, and the
  precondition `addr !in heap` says the allocator returned a fresh node. When the
  source's malloc fails, it has already incremented `state` in append and prepend.
  The model does not show this.
- `repr` and `str`, the type objects, the method tables, `tp_new` of ArrayList and
  `tp_dealloc` of all three lists are not modelled. Python-level construction is
  modelled as `Init` and `New`. The node-freeing walk of dealloc is the same walk
  as clear (`Chains.FreeAll`).
- Machine integers are not modelled. `Py_ssize_t` sizes, the `long state` counter
  and the `int i` loop counters are unbounded integers here, so the overflow of
  `state` and the `int` counters are outside the model.
- Cost and timing are not modelled. This includes O(1) versus O(n) append and the
  performance-shape expectations.
- SinglyLinkedList1.Append models the evidently intended behaviour: walk to the last
  node and link there. The as-written behaviour is modelled separately under Findings.
- SinglyLinkedList1.RemoveLast models the evidently intended behaviour: return the
  last item and end the chain at the node before it. The as-written behaviour is
  modelled separately under Findings.
- SinglyLinkedList2.Prepend models the evidently intended behaviour: move the tail
  only when the list was empty. The as-written behaviour is modelled separately
  under Findings.
- SinglyLinkedList2.Insert inherits the corrected prepend. `insert(0, x)` delegates to
  prepend (`_educollectionslists.c:1040-1041`), so as written it also moves the tail
  on a list of one item. The model's promise that insert keeps the tail relies on
  the corrected prepend.
- SinglyLinkedList1.Remove uses the corrected last-index branch
  (`SinglyLinkedList1.RemoveLast`). As written, on a list of two or more items,
  `remove(size - 1)` returns the first item and leaves the node before the last one
  linked to freed memory.
- Scenarios.SameScript runs on the corrected SinglyLinkedList1 append. As written, the
  script ends on that list with the items [7, 10], `size` 3, and the node of 20 leaked.
- Scenarios.List1Start runs on the corrected SinglyLinkedList1 append. As written, the
  chain after new, append(10), append(20), prepend(5) holds [5, 10] while `size` is 3.
- Scenarios.List1Script runs on the corrected SinglyLinkedList1 append. As written, it
  ends with the items [7, 10] and `size` 3.
- Scenarios.List1AppendRemoveLast runs on the corrected SinglyLinkedList1 append and
  remove-last. As written, on the list [10], `append(20)` then `remove(1)` returns 10,
  and the node of 20 is leaked.
- Scenarios.List2PrependOrder runs on the corrected SinglyLinkedList2 prepend. As
  written, prepending 1, 2 and 3 to a new list leaves the tail on the node of 3, which
  is also the head.
- Scenarios.List2InsertRemove runs its index-0 case on the corrected SinglyLinkedList2
  prepend. As written, on the list [10], `insert(0, 5)` moves the tail to the node of 5,
  and the following `remove(0)` frees that node, so the tail points to freed memory.

## Findings

| source | as written | input that shows it | evidently intended | confidence | as-written member | corrected member |
|---|---|---|---|---|---|---|
| _educollectionslists.c:531-536 | SinglyLinkedList1 append on a non-empty list allocates the node and counts it in `size`, but never links it; the walk to the last node is a TODO | `new()`, `append(10)`, `append(20)`: `size` is 2, the chain holds only 10, and the node of 20 is leaked; followed by `prepend(5)`, `insert(1, 7)`, `remove(0)` it ends with the items [7, 10] and `size` 3; on the list [10], `append(20)` then `remove(1)` returns 10 | walk to the last node and link the new node after it | not executed | SinglyLinkedList1.AppendAsWritten | SinglyLinkedList1.Append |
| _educollectionslists.c:690-705 | SinglyLinkedList1 remove at the last index returns `head->data` and frees the last node without clearing the `next` of the node before it | the list [10, 20] with `remove(1)`: returns 10, and node 10 still links to the freed node; likewise `append(x)` on a list of one or more items followed by removing the last index returns the first item, not `x` | return the last item and end the chain at the node before it | not executed | SinglyLinkedList1.RemoveLastAsWritten | SinglyLinkedList1.RemoveLast |
| _educollectionslists.c:1075-1076 | SinglyLinkedList2 prepend moves `tail` to the new node whenever `head == tail`, which also holds for a list of one item | the list [10] with `prepend(5)`, or with `insert(0, 5)`, which delegates to prepend at 1040-1041: the tail points to the node of 5, whose `next` is the node of 10; prepending 1, 2 and 3 to a new list leaves the tail on the node of 3, which is also the head; on [10], `insert(0, 5)` then `remove(0)` frees the node of 5 while the tail still points to it | move the tail only when the list was empty | not executed | SinglyLinkedList2.PrependAsWritten | SinglyLinkedList2.Prepend |
