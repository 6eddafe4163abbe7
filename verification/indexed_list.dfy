/**
 The indexed singly linked list (`FastSLL`): a chain of nodes linked by `next`,
 plus `nodes_array`, an array of references to the same nodes ordered by logical
 index, plus a back-pointer `index_in_array` in every node.

 Object identity is modelled by handles into an arena (`heap`); `nextId` is the
 handle the next allocation returns. A node that becomes unreachable is removed
 from the arena. The physical chain is a ghost witness `c` related to the state
 by `Valid(l, c)`.
 */
module IndexedList {
  import opened Outcomes
  import opened SeqOps
  import opened Chain

  /** A node: its value, its successor in the chain, and the array slot it records. */
  datatype Node<T> = Node(value: T, next: Option<Handle>, index: int)

  /** The list: live nodes by handle, the physical head, `nodes_array`, the allocator. */
  datatype FastSLL<T> = FastSLL(heap: map<Handle, Node<T>>, head: Option<Handle>, slots: seq<Handle>, nextId: Handle)

  /** Index a fresh node carries until it is placed in the array. */
  const Unplaced := -1

  /** The `next` field of every live node. */
  function Links<T>(heap: map<Handle, Node<T>>): LinkMap
  {
    map x | x in heap :: heap[x].next
  }

  /** Every array slot refers to a live node that records that slot. */
  predicate Indexed<T>(l: FastSLL<T>)
  {
    forall k :: 0 <= k < |l.slots| ==> l.slots[k] in l.heap && l.heap[l.slots[k]].index == k
  }

  /** Every live handle was handed out by the allocator. */
  predicate Allocated<T>(l: FastSLL<T>)
  {
    forall x :: x in l.heap ==> x < l.nextId
  }

  /** `head` is None exactly when the array is empty, and otherwise sits in the slot it records. */
  predicate HeadPlaced<T>(l: FastSLL<T>)
  {
    && (l.head.None? <==> |l.slots| == 0)
    && (l.head.Some? ==>
          && l.head.value in l.heap
          && 0 <= l.heap[l.head.value].index < |l.slots|
          && l.slots[l.heap[l.head.value].index] == l.head.value)
  }

  /** The part of the invariant the operations need to be well defined. */
  predicate WellFormed<T>(l: FastSLL<T>)
  {
    Indexed(l) && Allocated(l) && HeadPlaced(l)
  }

  /**
   The full invariant, with `c` the physical chain from `head`: the chain is
   None-terminated, and the chain, the array and the live nodes are the same
   set of nodes.
   */
  ghost predicate Valid<T>(l: FastSLL<T>, c: seq<Handle>)
  {
    && WellFormed(l)
    && IsChain(Links(l.heap), l.head, c)
    && Elems(c) == Elems(l.slots)
    && l.heap.Keys == Elems(l.slots)
  }

  /** The logical view: values in array order (what `print_array` shows). */
  function View<T>(l: FastSLL<T>): seq<T>
    requires Indexed(l)
  {
    seq(|l.slots|, k requires 0 <= k < |l.slots| => l.heap[l.slots[k]].value)
  }

  /** The physical view: values in chain order (what `print_linked_list` shows). */
  ghost function ChainView<T>(l: FastSLL<T>, c: seq<Handle>): seq<T>
    requires forall k :: 0 <= k < |c| ==> c[k] in l.heap
  {
    seq(|c|, k requires 0 <= k < |c| => l.heap[c[k]].value)
  }

  /** Assign a node's `value` field; no `next` field changes. */
  function SetValue<T>(heap: map<Handle, Node<T>>, x: Handle, v: T): (r: map<Handle, Node<T>>)
    requires x in heap
    ensures r.Keys == heap.Keys && Links(r) == Links(heap)
    ensures r[x].value == v && r[x].index == heap[x].index
  {
    heap[x := heap[x].(value := v)]
  }

  /** Assign a node's `index_in_array` field; no `next` field changes. */
  function SetIndex<T>(heap: map<Handle, Node<T>>, x: Handle, k: int): (r: map<Handle, Node<T>>)
    requires x in heap
    ensures r.Keys == heap.Keys && Links(r) == Links(heap)
    ensures r[x].index == k && r[x].value == heap[x].value
  {
    heap[x := heap[x].(index := k)]
  }

  /** The empty list `FastSLL()`. */
  function Empty<T>(): (l: FastSLL<T>)
    ensures Valid(l, [])
    ensures View(l) == []
  {
    FastSLL(map[], None, [], 0)
  }

  /** `get` without the range check (Time_Test_SLL.py). */
  function GetCore<T>(l: FastSLL<T>, i: int): (v: T)
    requires Indexed(l)
    requires 0 <= i < |l.slots|
    ensures v == View(l)[i]
  {
    l.heap[l.slots[i]].value
  }

  /** `get`: the value at logical index `i`; an index outside the array raises IndexError. */
  function Get<T>(l: FastSLL<T>, i: int): (r: Result<T>)
    requires Indexed(l)
    ensures r.Success? <==> 0 <= i < |l.slots|
    ensures r.Failure? ==> r.error == IndexError
    ensures r.Success? ==> r.value == View(l)[i]
  {
    if i < 0 || i >= |l.slots| then Failure(IndexError) else Success(GetCore(l, i))
  }

  /** `insert_at` without the range check: push a fresh node on the head, append it, swap it into slot `i`. */
  function InsertCore<T>(l: FastSLL<T>, i: int, v: T): (r: FastSLL<T>)
    requires WellFormed(l)
    requires 0 <= i <= |l.slots|
    ensures WellFormed(r)
    ensures |r.slots| == |l.slots| + 1
    ensures l.nextId !in l.heap && r.head == Some(l.nextId)
    ensures Links(r.heap) == Links(l.heap)[l.nextId := l.head]
    ensures r.heap.Keys == l.heap.Keys + {l.nextId}
    ensures r.heap[l.nextId].value == v
    ensures forall x :: x in l.heap ==> r.heap[x].value == l.heap[x].value
  {
    var n := l.nextId;
    // the new node becomes the physical head
    var heap := l.heap[n := Node(v, l.head, Unplaced)];
    assert Links(heap) == Links(l.heap)[n := l.head];
    // it is appended to the array
    var len := |l.slots|;
    var heap := SetIndex(heap, n, len);
    var slots := l.slots + [n];
    var last := |slots| - 1;
    if i != last then
      // swap it with the node at the target slot
      var t := slots[i];
      var slots := slots[i := n][last := t];
      var heap := SetIndex(heap, n, i);
      var heap := SetIndex(heap, t, last);
      FastSLL(heap, Some(n), slots, n + 1)
    else
      FastSLL(heap, Some(n), slots, n + 1)
  }

  /** `insert_at`: the range check `0 <= i <= len` comes before any allocation or mutation. */
  function InsertAt<T>(l: FastSLL<T>, i: int, v: T): (r: Result<FastSLL<T>>)
    requires WellFormed(l)
    ensures r.Success? <==> 0 <= i <= |l.slots|
    ensures r.Failure? ==> r.error == IndexError
    ensures r.Success? ==> WellFormed(r.value) && |r.value.slots| == |l.slots| + 1
    ensures r.Success? ==> GetCore(r.value, i) == v
    ensures r.Success? ==> View(r.value) == DisplacingInsert(View(l), i, v)
  {
    if i < 0 || i > |l.slots| then Failure(IndexError)
    else
      InsertView(l, i, v);
      Success(InsertCore(l, i, v))
  }

  /** Every array slot other than `i` refers to a live node that records that slot; slot `i` refers to a live node. */
  predicate IndexedExcept<T>(l: FastSLL<T>, i: int)
  {
    && (0 <= i < |l.slots| ==> l.slots[i] in l.heap)
    && forall k :: 0 <= k < |l.slots| && k != i ==> l.slots[k] in l.heap && l.heap[l.slots[k]].index == k
  }

  /**
   `remove_at` without the range check: swap values between the target node and
   the physical head, unlink the head, then swap-and-pop the array at `i`.
   */
  function RemoveCore<T>(l: FastSLL<T>, i: int): (r: FastSLL<T>)
    requires WellFormed(l)
    requires 0 <= i < |l.slots|
    ensures Indexed(r) && Allocated(r)
    ensures |r.slots| == |l.slots| - 1
    ensures r.head == l.heap[l.head.value].next
    ensures Links(r.heap) == Links(l.heap) - {l.head.value}
    ensures r.heap.Keys == l.heap.Keys - {l.head.value}
  {
    var h := l.head.value;
    // exchange values so that the head node carries the doomed value
    var l1 := SwapWithHead(l, i);
    // unlink the physical head
    var head := l1.heap[h].next;
    // swap-and-pop the hole at slot i
    var l2 := FillAndPop(l1, i);
    FastSLL(l2.heap - {h}, head, l2.slots, l.nextId)
  }

  /**
   First step of `remove_at`: if the target node at slot `i` is not the head,
   exchange their values, and let the target take over the head's slot. The
   head node then appears in no slot but possibly `i`.
   */
  function SwapWithHead<T>(l: FastSLL<T>, i: int): (r: FastSLL<T>)
    requires WellFormed(l)
    requires 0 <= i < |l.slots|
    ensures IndexedExcept(r, i) && |r.slots| == |l.slots|
    ensures forall k :: 0 <= k < |r.slots| && k != i ==> r.slots[k] != l.head.value
    ensures r.heap.Keys == l.heap.Keys && Links(r.heap) == Links(l.heap)
    ensures r.slots == l.slots[l.heap[l.head.value].index := l.slots[i]]
    ensures l.slots[i] != l.head.value ==>
              && r.heap[l.slots[i]].value == l.heap[l.head.value].value
              && r.heap[l.head.value].value == l.heap[l.slots[i]].value
    ensures forall x :: x in l.heap && x != l.slots[i] && x != l.head.value ==> r.heap[x].value == l.heap[x].value
  {
    var target := l.slots[i];
    var h := l.head.value;
    if target == h then l
    else
      var p := l.heap[h].index;
      var tv := l.heap[target].value;
      var hv := l.heap[h].value;
      var heap := SetValue(l.heap, target, hv);
      var heap := SetValue(heap, h, tv);
      var slots := l.slots[p := target];
      var heap := SetIndex(heap, target, p);
      l.(heap := heap, slots := slots)
  }

  /** Last step of `remove_at`: the node in the last slot moves into slot `i`, and the last slot is dropped. */
  function FillAndPop<T>(l: FastSLL<T>, i: int): (r: FastSLL<T>)
    requires IndexedExcept(l, i)
    requires 0 <= i < |l.slots|
    ensures Indexed(r) && |r.slots| == |l.slots| - 1
    ensures r.heap.Keys == l.heap.Keys && Links(r.heap) == Links(l.heap)
    ensures r.slots == SwapPop(l.slots, i)
    ensures forall x :: x in l.heap ==> r.heap[x].value == l.heap[x].value
  {
    var last := |l.slots| - 1;
    if i != last then
      var moved := l.slots[last];
      l.(heap := SetIndex(l.heap, moved, i), slots := SwapPop(l.slots, i))
    else
      l.(slots := SwapPop(l.slots, i))
  }

  /** `remove_at`: the range check `0 <= i < len` comes before any mutation. */
  function RemoveAt<T>(l: FastSLL<T>, i: int): (r: Result<FastSLL<T>>)
    requires WellFormed(l)
    ensures r.Success? <==> 0 <= i < |l.slots|
    ensures r.Failure? ==> r.error == IndexError
    ensures r.Success? ==> Indexed(r.value) && |r.value.slots| == |l.slots| - 1
    ensures r.Success? ==> View(r.value) == SwapPop(View(l), i)
  {
    if i < 0 || i >= |l.slots| then Failure(IndexError)
    else
      RemoveView(l, i);
      Success(RemoveCore(l, i))
  }

  // ---------------------------------------------------------------------------
  // Properties

  /** The back-pointers make the array free of duplicates. */
  lemma IndexedDistinct<T>(l: FastSLL<T>)
    requires Indexed(l)
    ensures Distinct(l.slots)
  {
  }

  /** Shape of a valid list: chain and array each hold every live node exactly once, and `head` is None iff the array is empty. */
  lemma ValidShape<T>(l: FastSLL<T>, c: seq<Handle>)
    requires Valid(l, c)
    ensures Distinct(c) && Distinct(l.slots)
    ensures |c| == |l.slots|
    ensures l.head.None? <==> |l.slots| == 0
  {
    ChainAcyclic(Links(l.heap), l.head, c);
    IndexedDistinct(l);
    SameElementsSameLength(c, l.slots);
  }

  /** `insert_at` on values: `v` lands at slot `i` and the displaced value moves to the end. */
  lemma InsertView<T>(l: FastSLL<T>, i: int, v: T)
    requires WellFormed(l)
    requires 0 <= i <= |l.slots|
    ensures View(InsertCore(l, i, v)) == DisplacingInsert(View(l), i, v)
  {
  }

  /** `remove_at` on values: the last value fills slot `i` and the array shrinks by one. */
  lemma RemoveView<T>(l: FastSLL<T>, i: int)
    requires WellFormed(l)
    requires 0 <= i < |l.slots|
    ensures View(RemoveCore(l, i)) == SwapPop(View(l), i)
  {
    IndexedDistinct(l);
  }

  /** Insertion puts the new node in the array, and nothing else enters or leaves it. */
  lemma InsertCoreSlots<T>(l: FastSLL<T>, i: int, v: T)
    requires WellFormed(l)
    requires 0 <= i <= |l.slots|
    ensures Elems(InsertCore(l, i, v).slots) == Elems(l.slots) + {l.nextId}
  {
    if i < |l.slots| {
      ElemsAppendSwap(l.slots, i, l.nextId);
    }
  }

  /** Removal takes the head node out of the array, and nothing else leaves it. */
  lemma RemoveCoreSlots<T>(l: FastSLL<T>, i: int)
    requires WellFormed(l)
    requires 0 <= i < |l.slots|
    ensures Elems(RemoveCore(l, i).slots) == Elems(l.slots) - {l.head.value}
  {
    IndexedDistinct(l);
    var h := l.head.value;
    var p := l.heap[h].index;
    assert RemoveCore(l, i).slots == SwapPop(l.slots[p := l.slots[i]], i);
    ElemsOverwriteSwapPop(l.slots, i, p);
  }

  /** Insertion keeps the invariant; the physical chain gains the new node at its front. */
  lemma InsertPreservesValid<T>(l: FastSLL<T>, c: seq<Handle>, i: int, v: T)
    requires Valid(l, c)
    requires 0 <= i <= |l.slots|
    ensures Valid(InsertCore(l, i, v), [l.nextId] + c)
  {
    var r := InsertCore(l, i, v);
    InsertCoreSlots(l, i, v);
    ChainPush(Links(l.heap), l.head, c, l.nextId);
    assert Elems([l.nextId] + c) == Elems(c) + {l.nextId};
  }

  /** Removal keeps the invariant; the physical chain loses exactly its head node. */
  lemma RemovePreservesValid<T>(l: FastSLL<T>, c: seq<Handle>, i: int)
    requires Valid(l, c)
    requires 0 <= i < |l.slots|
    ensures c != [] && l.head == Some(c[0])
    ensures Valid(RemoveCore(l, i), c[1..])
  {
    assert l.slots[0] in Elems(c);
    RemoveCoreSlots(l, i);
    PoppedValid(l, c, RemoveCore(l, i));
  }

  /** The guarded `insert_at` keeps the invariant whenever it succeeds; the new node joins the chain at its front. */
  lemma InsertAtPreservesValid<T>(l: FastSLL<T>, c: seq<Handle>, i: int, v: T)
    requires Valid(l, c)
    ensures InsertAt(l, i, v).Success? ==> Valid(InsertAt(l, i, v).value, [l.nextId] + c)
  {
    if 0 <= i <= |l.slots| {
      InsertPreservesValid(l, c, i, v);
    }
  }

  /** The guarded `remove_at` keeps the invariant whenever it succeeds; the chain loses its first node. */
  lemma RemoveAtPreservesValid<T>(l: FastSLL<T>, c: seq<Handle>, i: int)
    requires Valid(l, c)
    ensures RemoveAt(l, i).Success? ==> c != [] && Valid(RemoveAt(l, i).value, c[1..])
  {
    if 0 <= i < |l.slots| {
      RemovePreservesValid(l, c, i);
    }
  }

  /**
   A state whose links, live nodes and array are those of `l` less the head
   node `c[0]` is valid along the rest of the chain.
   */
  lemma PoppedValid<T>(l: FastSLL<T>, c: seq<Handle>, r: FastSLL<T>)
    requires Valid(l, c) && c != []
    requires Indexed(r) && Allocated(r)
    requires r.head == l.heap[c[0]].next
    requires Links(r.heap) == Links(l.heap) - {c[0]}
    requires r.heap.Keys == l.heap.Keys - {c[0]}
    requires Elems(r.slots) == Elems(l.slots) - {c[0]}
    ensures Valid(r, c[1..])
  {
    ChainAcyclic(Links(l.heap), l.head, c);
    ChainPop(Links(l.heap), l.head, c);
    ElemsTail(c);
    HeadPlacedFromChain(r, c[1..]);
  }

  /** If the chain from `head` runs over exactly the array's nodes and the back-pointers are correct, the head sits in the slot it records. */
  lemma HeadPlacedFromChain<T>(r: FastSLL<T>, c: seq<Handle>)
    requires Indexed(r)
    requires IsChain(Links(r.heap), r.head, c)
    requires Elems(c) == Elems(r.slots)
    ensures HeadPlaced(r)
  {
    if r.slots != [] {
      assert r.slots[0] in Elems(r.slots);
    }
    if c != [] {
      assert c[0] in Elems(c);
      var k :| 0 <= k < |r.slots| && r.slots[k] == c[0];
    }
  }

  /** Insertion pushes the new value on the front of the physical chain and leaves the rest of it alone. */
  lemma InsertChainView<T>(l: FastSLL<T>, c: seq<Handle>, i: int, v: T)
    requires Valid(l, c)
    requires 0 <= i <= |l.slots|
    ensures var r := InsertCore(l, i, v);
            && (forall k :: 0 <= k <= |c| ==> ([l.nextId] + c)[k] in r.heap)
            && ChainView(r, [l.nextId] + c) == [v] + ChainView(l, c)
  {
    assert forall k :: 0 <= k < |c| ==> c[k] in Links(l.heap);
    PushedChainView(l, InsertCore(l, i, v), c, l.nextId, v);
  }

  /** If `r` keeps every value of `l` and adds node `n` holding `v`, the chain `[n] + c` shows `v` before the old chain. */
  lemma PushedChainView<T>(l: FastSLL<T>, r: FastSLL<T>, c: seq<Handle>, n: Handle, v: T)
    requires forall k :: 0 <= k < |c| ==> c[k] in l.heap
    requires r.heap.Keys == l.heap.Keys + {n}
    requires r.heap[n].value == v
    requires forall x :: x in l.heap ==> r.heap[x].value == l.heap[x].value
    ensures forall k :: 0 <= k <= |c| ==> ([n] + c)[k] in r.heap
    ensures ChainView(r, [n] + c) == [v] + ChainView(l, c)
  {
    assert forall k :: 0 <= k <= |c| ==> ([n] + c)[k] in r.heap by {
      forall k | 0 <= k <= |c|
        ensures ([n] + c)[k] in r.heap
      {
        if k > 0 {
          assert ([n] + c)[k] == c[k - 1];
        }
      }
    }
  }

  /** Inserting at `i` and then removing at `i` restores the value sequence exactly. */
  lemma InsertRemoveRoundTrip<T>(l: FastSLL<T>, i: int, v: T)
    requires WellFormed(l)
    requires 0 <= i <= |l.slots|
    ensures View(RemoveCore(InsertCore(l, i, v), i)) == View(l)
  {
    InsertView(l, i, v);
    RemoveView(InsertCore(l, i, v), i);
    DisplaceThenSwapPop(View(l), i, v);
  }
}
