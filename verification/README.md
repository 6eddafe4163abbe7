# Indexed singly linked list, modelled in Dafny

The repository implements a singly linked list with constant-time access by
position (`FastSLL`, also `SLL`). Every node sits in two structures at once:

- a physical chain linked by `next` from `head`;
- `nodes_array`, a Python list of references to the same nodes in logical
  order.

Each node also stores its own slot in `index_in_array`.

- **Insertion** always pushes the new node onto the physical head. It then
  appends the node to the array and swaps it into slot `i`; the node that held
  slot `i` moves to the end.
- **Removal** swaps *values* between the target node and the physical head.
  It then unlinks the head and fills the hole in the array with the last slot
  (swap-and-pop).

Next to it sits the ordinary positional list `NormalSLL`, where position `i`
is the `i`-th node of the chain.

Each list exists in two versions:

- **Guarded**, in `Question_1.py` and `Test_SLL.py`. It raises `IndexError`
  on a bad index, and the plain list keeps a `size` counter.
- **Unguarded**, in `Time_Test_SLL.py`. There are no bounds checks, and the
  plain list has no counter.

The model mirrors that split:

- Each `...Core` member is the unguarded algorithm. Its index bounds are
  preconditions.
- `Get`, `InsertAt` and `RemoveAt` add the range check. They return
  `Failure(IndexError)` before anything is allocated or changed.
- `SLL` in Test_SLL.py:11-59 is a copy of `FastSLL` in Question_1.py:9-67,
  line for line, and the same `IndexedList` members model both.

Files:

- `outcomes.dfy`: `Option`, `Result` and the `IndexError` outcome.
- `seq_ops.dfy`: duplicate-freedom, element sets, and the two relocating
  sequence updates the indexed list performs on its array: displacing insert
  and swap-and-pop.
- `chain.dfy`: singly linked chains over an arena of handles. It covers
  uniqueness, acyclicity, and the four link surgeries (push, pop, splice,
  unlink).
- `indexed_list.dfy`: `FastSLL`/`SLL`, their invariant `Valid`, the array view
  `View` and the chain view `ChainView`.
- `plain_list.dfy`: `NormalSLL` in both versions and its positional view
  `Values`.
- `workloads.dfy`: the head-insertion build of Time_Test_SLL.py and the
  append/read/remove pattern of the Test_SLL.py benchmark.

Object identity is modelled by handles into an arena, `map<Handle, Node>`.
`nextId` is the handle the next allocation returns. A node that becomes
unreachable is removed from the arena.

The physical chain is a ghost sequence of handles, `c`, tied to the state by
`Chain.IsChain`. `IndexedList.Valid(l, c)` is the invariant the code relies on:

- every array slot `k` refers to a live node whose `index_in_array` is `k`;
- the chain from `head` is None-terminated;
- the chain nodes, the array nodes and the live nodes are one and the same
  set;
- `head` is None exactly when the array is empty.

## Model

| member | source | states |
|---|---|---|
| SeqOps.DisplacingInsert | Question_1.py:35-42 | after inserting `v` at slot `i`, slot `i` holds `v`, the old occupant of slot `i` sits in the new last slot, every other slot is unchanged, and the length grows by one (at `i == len` a plain append) |
| SeqOps.SwapPop | Question_1.py:62-67 | removing slot `i` puts the last element into slot `i` unless `i` was last, drops the last slot, and leaves every other slot unchanged |
| SeqOps.InsertMultiset | Question_1.py:35-42 | displacing insert adds exactly the inserted value to the multiset of values, for every `0 <= i <= len`, the append at `i == len` included |
| SeqOps.SwapPopMultiset | Question_1.py:61-67 | swap-and-pop removes exactly the value at slot `i` from the multiset of values |
| Chain.ChainAcyclic | Question_1.py:58-59 | a chain that ends in None never visits a node twice, so unlinking the head cannot cut off part of the chain |
| Chain.ChainUnique | Question_1.py:58-59 | the chain reached by following `next` from a given reference is unique |
| Chain.ChainPush | Question_1.py:27-29 | pointing a fresh node at the old head and making it the head yields the old chain with the fresh node in front |
| Chain.ChainPop | Question_1.py:58-59 | `head = head.next` leaves exactly the old chain minus its first node |
| Chain.ChainSplice | Test_SLL.py:88-93 | `new.next = prev.next; prev.next = new` with `prev` at position `i - 1` puts the fresh node at position `i` of the chain and leaves the rest of the chain in place |
| Chain.ChainUnlink | Test_SLL.py:101-105 | `prev.next = prev.next.next` with `prev` at position `i - 1` removes exactly position `i` from the chain |
| IndexedList.Empty | Question_1.py:10-12 | a new list has no head and an empty array, and satisfies the invariant with the empty chain |
| IndexedList.GetCore | Time_Test_SLL.py:89-90 | `get(i)` returns the value in array slot `i` |
| IndexedList.Get | Question_1.py:15-18 | `get(i)` succeeds exactly when `0 <= i < len(nodes_array)`, fails otherwise with IndexError, and returns the `i`-th value of the array view |
| IndexedList.InsertCore | Time_Test_SLL.py:55-69 | the new node is the physical head and its `next` is the old head; no other `next` changes; the array grows by one; the new node holds `v`; no other value changes; back-pointers stay correct |
| IndexedList.InsertAt | Question_1.py:21-42 | `insert_at(i, v)` succeeds exactly when `0 <= i <= len` and raises IndexError otherwise; on success the array view becomes the displacing insert of `v` at `i`: `v` in slot `i`, the old `view[i]` in the new last slot, every other slot unchanged |
| IndexedList.InsertAtPreservesValid | Question_1.py:21-42 | whenever `insert_at(i, v)` succeeds, the list it returns satisfies the invariant, with the new node in front of the chain |
| IndexedList.SwapWithHead | Question_1.py:49-56 | when the target is not the head, the target and the head exchange values; no other value changes; the target takes over the head's slot; the head node is left in no slot other than `i`; no link changes |
| IndexedList.FillAndPop | Question_1.py:61-67 | the array undergoes swap-and-pop at `i`, the back-pointers of all remaining slots are correct again, and no value or link changes |
| IndexedList.RemoveCore | Time_Test_SLL.py:71-87 | the physical head is unlinked and released, the new head is its old `next`, no other link changes, and the array shrinks by one with back-pointers correct |
| IndexedList.RemoveAt | Question_1.py:45-67 | `remove_at(i)` succeeds exactly when `0 <= i < len` and raises IndexError otherwise; on success the array view undergoes swap-and-pop at `i`: the last value fills slot `i`, every other slot is unchanged, and the length drops by one |
| IndexedList.RemoveAtPreservesValid | Question_1.py:45-67 | whenever `remove_at(i)` succeeds, the list it returns satisfies the invariant, and the chain loses exactly its first node |
| IndexedList.IndexedDistinct | Question_1.py:32-42 | correct back-pointers imply that no node occupies two array slots |
| IndexedList.ValidShape | Question_1.py:25-67 | under the invariant, the chain and the array each hold every live node exactly once, have equal length, and `head` is None iff the array is empty |
| IndexedList.InsertView | Question_1.py:35-42 | on values, insertion is a displacing insert at `i` |
| IndexedList.RemoveView | Question_1.py:49-67 | on values, removal is swap-and-pop at `i`, even though the node that leaves is the physical head |
| IndexedList.InsertCoreSlots | Question_1.py:31-42 | insertion adds the new node to the array and adds or drops nothing else |
| IndexedList.RemoveCoreSlots | Question_1.py:53-67 | removal takes the old head node out of the array and takes out nothing else |
| IndexedList.InsertPreservesValid | Question_1.py:25-42 | insertion preserves the invariant, with the new node in front of the chain |
| IndexedList.RemovePreservesValid | Question_1.py:49-67 | removal preserves the invariant, and the chain loses exactly its first node |
| IndexedList.InsertChainView | Question_1.py:27-29 | in chain order, insertion shows the new value in front of the old chain's values |
| IndexedList.InsertRemoveRoundTrip | Question_1.py:35-67 | `insert_at(i, v)` followed by `remove_at(i)` restores the array view exactly, for every `0 <= i <= len` |
| PlainList.Empty | Test_SLL.py:68-71 | a new plain list has no head and `size == 0`, which is the length of its empty chain |
| PlainList.Walk | Test_SLL.py:76-78 | following `next` `k` times from the head reaches the `k`-th node of the chain |
| PlainList.GetCore | Time_Test_SLL.py:37-41 | `get(i)` returns the value of the `i`-th chain node |
| PlainList.Get | Test_SLL.py:73-79 | `get(i)` succeeds exactly when `0 <= i < size`, raises IndexError otherwise, and returns the `i`-th value |
| PlainList.InsertCore | Time_Test_SLL.py:16-26 | insertion puts the new node at chain position `i`, so the values become `view[..i] + [v] + view[i..]`; the live nodes are exactly the new chain's nodes |
| PlainList.InsertAt | Test_SLL.py:81-94 | `insert_at(i, v)` succeeds exactly when `0 <= i <= size`, raises IndexError otherwise, inserts `v` at position `i`, and keeps `size` equal to the chain length |
| PlainList.RemoveCore | Time_Test_SLL.py:28-35 | removal takes out chain position `i`, so the values become `view[..i] + view[i+1..]`; the removed node is released |
| PlainList.RemoveFirst | Time_Test_SLL.py:29-30 | `head = head.next` leaves the chain without its first node, releases that node, and drops the first value |
| PlainList.Bypass | Time_Test_SLL.py:35 | `curr.next = curr.next.next` changes only `curr`'s link, releases the skipped node, and changes no value |
| PlainList.RemoveAfter | Time_Test_SLL.py:31-35 | at position `i > 0` the node at `i - 1` is made to skip its successor, and the values lose element `i` |
| PlainList.RemoveAt | Test_SLL.py:96-106 | `remove_at(i)` succeeds exactly when `0 <= i < size`, raises IndexError otherwise, removes position `i`, and keeps `size` equal to the chain length |
| Workloads.RotatedStep | Time_Test_SLL.py:55-69 | inserting `n` at index 0 into the array view `[n-1, 0, ..., n-2]` yields `[n, 0, ..., n-1]` |
| Workloads.RotatedIsNotReversed | Time_Test_SLL.py:108-110 | from three values on, the indexed list's array view after the build differs from reverse insertion order: slot 1 holds 0, not `n - 2` |
| Workloads.FastBuildStep | Time_Test_SLL.py:110 | one `fast.insert_at(0, k)` keeps the invariant, extends the chain view `[k-1, ..., 0]` to `[k, ..., 0]`, and turns the array view for `k` values into the one for `k + 1` |
| Workloads.NormalBuildStep | Time_Test_SLL.py:109 | one `normal.insert_at(0, k)` makes the new node the head in front of the old chain and turns the values `[k-1, ..., 0]` into `[k, ..., 0]` |
| Workloads.BuildByHeadInsert | Time_Test_SLL.py:103-110 | after `insert_at(0, k)` for `k = 0 .. n-1`: the plain list shows `[n-1, ..., 0]`; the indexed list's chain shows `[n-1, ..., 0]` and its array `[n-1, 0, 1, ..., n-2]`; both have length `n`; `get(0) == n - 1` |
| Workloads.FastAppendStep | Test_SLL.py:117 | appending at `len(nodes_array)` succeeds, keeps the invariant, and extends the array view by the appended value |
| Workloads.FastAppendOne | Test_SLL.py:117 | one append through the guarded `insert_at` turns the view `vals[..k]` into `vals[..k+1]` and keeps the invariant |
| Workloads.FastAppendAll | Test_SLL.py:116-117 | appending `vals` one by one to a new indexed list leaves a valid list whose array view is `vals` |
| Workloads.NormalAppendAll | Test_SLL.py:121-122 | inserting `vals[k]` at position `k` in turn leaves a valid plain list whose values are `vals` and whose `size` is their number |
| Workloads.FastReadAll | Test_SLL.py:127-128 | `get(i)` for `i = 0 .. n-1` reads exactly the array view |
| Workloads.NormalReadAll | Test_SLL.py:132-133 | `get(i)` for `i = 0 .. n-1` reads exactly the chain's values |
| Workloads.FastRemoveLast | Test_SLL.py:139 | one `remove_at(i)` at the last index succeeds, keeps the invariant, and turns the view `s[..i+1]` into `s[..i]` |
| Workloads.FastRemoveFromBack | Test_SLL.py:138-139 | `remove_at(i)` for `i = n-1` down to `0` succeeds every time; after the `k`-th removal the array view is the old view without its last `k` values; the list ends with an empty array, no head and no live node |
| Workloads.NormalRemoveLast | Test_SLL.py:144 | one `remove_at(i)` at the last index succeeds, keeps the invariant, and turns the values `s[..i+1]` into `s[..i]` |
| Workloads.NormalRemoveFromBack | Test_SLL.py:143-144 | `remove_at(i)` for `i = n-1` down to `0` succeeds every time; after the `k`-th removal the values are the old values without their last `k`; the list ends with `size == 0`, no head and no live node |
| Workloads.Benchmark | Test_SLL.py:110-144 | under the benchmark's sequence, both lists read back exactly the appended values; after the `k`-th removal both show `vals` without its last `k` values, the same at every step; both end empty |

## Notes on behaviour

- **Head-insert reads.** Inserting `n` values at position 0 and then reading
  `get(0) .. get(n-1)` gives them in reverse insertion order for `NormalSLL`,
  but not for the indexed list. Each insert at 0 sends the value that held
  slot 0 to the end of the array, so the array view is `[n-1, 0, 1, ..., n-2]`
  (`Workloads.BuildByHeadInsert`). From three values on this differs from
  reverse order (`Workloads.RotatedIsNotReversed`). Only the physical chain
  is in reverse order.
- **Insert-then-remove round trip.** `insert_at(i, v)` moves the old occupant
  of slot `i` to the end, and the swap-and-pop of `remove_at(i)` moves it
  back. The value sequence is therefore restored exactly for every valid `i`,
  not only the last one (`IndexedList.InsertRemoveRoundTrip`).

## Left out

- The interactive menu and the printing helpers (Question_1.py:70-139): console
  I/O. The two views they print are `IndexedList.View` (array order) and
  `IndexedList.ChainView` (chain order).
- The benchmark's and the experiment's timing, plotting and result
  dictionaries (Test_SLL.py:115-166, Time_Test_SLL.py:97-202): clocks and
  matplotlib. The benchmark's values `f"val{i}"` become an arbitrary sequence
  `vals`, and `n` is its length.
- The randomized trials of the experiment (Time_Test_SLL.py:112-154): they draw
  indices from `random`. Their individual calls are the operations above.
- `smooth` (Time_Test_SLL.py:93-94): numpy floating-point convolution.
- The O(1) and O(n) running-time claims (Question_1.py:8, 14): these are
  performance claims, not functional behaviour.
- Python's negative indexing in the unguarded copies (Time_Test_SLL.py:64-65,
  72, 83-85, 90): the unguarded members require `0 <= i`, so wraparound on a
  negative index is not modelled. The guarded versions reject negative indices
  anyway.
- Crashes of the unguarded copies on an out-of-range index (`AttributeError`
  on `None.next`, or Python's own `IndexError` from the list): these are
  excluded by the preconditions of the `...Core` members.
- The `index_in_array = -1` placeholder of a fresh node (Question_1.py:6):
  `IndexedList.InsertCore` writes `Unplaced` and then overwrites it, as the
  code does. No operation returns a list holding it, so no contract mentions
  it.
- IndexedList.InsertAt and IndexedList.RemoveAt: their own contracts state the
  effect on the array view and the back-pointers, not the full invariant.
  The full invariant mentions the ghost chain, which these functions do not
  take. `IndexedList.InsertAtPreservesValid` and
  `IndexedList.RemoveAtPreservesValid` state it for them.
- Garbage collection: released nodes are deleted from the arena when they
  become unreachable, rather than at some later time.
