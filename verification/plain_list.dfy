/**
 The plain positional singly linked list (`NormalSLL`): a chain of nodes from
 `head`, where logical index `i` is the `i`-th node of the chain and every
 operation walks there from the head.

 Time_Test_SLL.py's version keeps no counter and checks no bounds (`BareSLL`
 and the `...Core` methods, whose bounds are preconditions); Test_SLL.py's
 version adds a `size` counter and raises IndexError on a bad index
 (`NormalSLL` and the guarded methods). Object identity is modelled by handles
 into an arena, as for the indexed list.
 */
module PlainList {
  import opened Outcomes
  import opened SeqOps
  import opened Chain

  /** A node: its value and its successor. */
  datatype LLNode<T> = LLNode(value: T, next: Option<Handle>)

  /** The uncounted list: live nodes by handle, the head, the allocator. */
  datatype BareSLL<T> = BareSLL(heap: map<Handle, LLNode<T>>, head: Option<Handle>, nextId: Handle)

  /** The counted list of Test_SLL.py: a bare list plus its `size` field. */
  datatype NormalSLL<T> = NormalSLL(list: BareSLL<T>, size: int)

  /** The `next` field of every live node. */
  function Links<T>(heap: map<Handle, LLNode<T>>): LinkMap
  {
    map x | x in heap :: heap[x].next
  }

  /** `c` is the None-terminated chain from `head`, the live nodes are exactly its nodes, and the allocator is ahead of them. */
  ghost predicate Linked<T>(l: BareSLL<T>, c: seq<Handle>)
  {
    && IsChain(Links(l.heap), l.head, c)
    && l.heap.Keys == Elems(c)
    && forall x :: x in l.heap ==> x < l.nextId
  }

  /** The counted list's invariant: additionally `size` is the length of the chain. */
  ghost predicate Valid<T>(l: NormalSLL<T>, c: seq<Handle>)
  {
    Linked(l.list, c) && l.size == |c|
  }

  /** The values along the chain `c`: the list's positional view. */
  ghost function Values<T>(l: BareSLL<T>, c: seq<Handle>): seq<T>
    requires forall k :: 0 <= k < |c| ==> c[k] in l.heap
  {
    seq(|c|, k requires 0 <= k < |c| => l.heap[c[k]].value)
  }

  /** The empty list `NormalSLL()`. */
  function Empty<T>(): (l: NormalSLL<T>)
    ensures Valid(l, []) && Values(l.list, []) == []
  {
    NormalSLL(BareSLL(map[], None, 0), 0)
  }

  /** Follow `next` from the head `k` times: the `k`-th node of the chain. */
  method Walk<T>(l: BareSLL<T>, ghost c: seq<Handle>, k: int) returns (x: Handle)
    requires Linked(l, c)
    requires 0 <= k < |c|
    ensures x == c[k]
  {
    x := l.head.value;
    var j := 0;
    while j < k
      invariant 0 <= j <= k
      invariant x == c[j]
    {
      assert Links(l.heap)[c[j]] == Succ(c, j);
      x := l.heap[x].next.value;
      j := j + 1;
    }
  }

  /** `get` without the range check: the value of the `i`-th chain node. */
  method GetCore<T>(l: BareSLL<T>, ghost c: seq<Handle>, i: int) returns (v: T)
    requires Linked(l, c)
    requires 0 <= i < |c|
    ensures v == Values(l, c)[i]
  {
    var curr := Walk(l, c, i);
    v := l.heap[curr].value;
  }

  /** `insert_at` without the range check: link a new node in at chain position `i`. */
  method InsertCore<T>(l: BareSLL<T>, ghost c: seq<Handle>, i: int, v: T) returns (r: BareSLL<T>)
    requires Linked(l, c)
    requires 0 <= i <= |c|
    ensures Linked(r, c[..i] + [l.nextId] + c[i..])
    ensures Values(r, c[..i] + [l.nextId] + c[i..]) == Values(l, c)[..i] + [v] + Values(l, c)[i..]
  {
    var n := l.nextId;
    if i == 0 {
      r := BareSLL(l.heap[n := LLNode(v, l.head)], Some(n), n + 1);
      LinksUpdate(l.heap, n, LLNode(v, l.head));
      ChainPush(Links(l.heap), l.head, c, n);
      assert c[..0] == [] && c[0..] == c;
    } else {
      var prev := Walk(l, c, i - 1);
      var node := l.heap[prev];
      var heap := l.heap[n := LLNode(v, node.next)];
      LinksUpdate(l.heap, n, LLNode(v, node.next));
      LinksUpdate(heap, prev, node.(next := Some(n)));
      r := BareSLL(heap[prev := node.(next := Some(n))], l.head, n + 1);
      ChainSplice(Links(l.heap), l.head, c, i, n);
    }
    LinkedAfterInsert(l, r, c, i, v);
  }

  /** A state whose links are the old chain with node `nextId` spliced in at `i` is linked along the spliced chain and shows `v` there. */
  lemma LinkedAfterInsert<T>(l: BareSLL<T>, r: BareSLL<T>, c: seq<Handle>, i: int, v: T)
    requires Linked(l, c)
    requires 0 <= i <= |c|
    requires IsChain(Links(r.heap), r.head, c[..i] + [l.nextId] + c[i..])
    requires r.heap.Keys == l.heap.Keys + {l.nextId}
    requires r.nextId == l.nextId + 1
    requires r.heap[l.nextId].value == v
    requires forall x :: x in l.heap ==> r.heap[x].value == l.heap[x].value
    ensures Linked(r, c[..i] + [l.nextId] + c[i..])
    ensures Values(r, c[..i] + [l.nextId] + c[i..]) == Values(l, c)[..i] + [v] + Values(l, c)[i..]
  {
    SplicedKeys(l, r, c, i);
    SplicedValues(l, r, c, i, l.nextId, v);
  }

  /** If `r` has the live nodes of `l` plus node `nextId`, they are the nodes of the spliced chain, all allocated. */
  lemma SplicedKeys<T>(l: BareSLL<T>, r: BareSLL<T>, c: seq<Handle>, i: int)
    requires l.heap.Keys == Elems(c) && forall x :: x in l.heap ==> x < l.nextId
    requires 0 <= i <= |c|
    requires r.heap.Keys == l.heap.Keys + {l.nextId}
    requires r.nextId == l.nextId + 1
    ensures r.heap.Keys == Elems(c[..i] + [l.nextId] + c[i..])
    ensures forall x :: x in r.heap ==> x < r.nextId
  {
    ElemsInsert(c, i, l.nextId);
  }

  /** If `r` keeps every value of `l` and adds node `n` holding `v`, the spliced chain shows `v` at position `i`. */
  lemma SplicedValues<T>(l: BareSLL<T>, r: BareSLL<T>, c: seq<Handle>, i: int, n: Handle, v: T)
    requires forall k :: 0 <= k < |c| ==> c[k] in l.heap
    requires 0 <= i <= |c|
    requires r.heap.Keys == l.heap.Keys + {n}
    requires r.heap[n].value == v
    requires forall x :: x in l.heap ==> r.heap[x].value == l.heap[x].value
    ensures forall k :: 0 <= k <= |c| ==> (c[..i] + [n] + c[i..])[k] in r.heap
    ensures Values(r, c[..i] + [n] + c[i..]) == Values(l, c)[..i] + [v] + Values(l, c)[i..]
  {
    var c' := c[..i] + [n] + c[i..];
    assert forall k :: 0 <= k <= |c| ==> c'[k] in r.heap by {
      forall k | 0 <= k <= |c|
        ensures c'[k] in r.heap
      {
        if k < i {
          assert c'[k] == c[k];
        } else if k > i {
          assert c'[k] == c[k - 1];
        }
      }
    }
  }

  /** `remove_at` without the range check: unlink chain position `i`; the unlinked node is released. */
  method RemoveCore<T>(l: BareSLL<T>, ghost c: seq<Handle>, i: int) returns (r: BareSLL<T>)
    requires Linked(l, c)
    requires 0 <= i < |c|
    ensures Linked(r, c[..i] + c[i + 1..])
    ensures Values(r, c[..i] + c[i + 1..]) == Values(l, c)[..i] + Values(l, c)[i + 1..]
  {
    if i == 0 {
      r := RemoveFirst(l, c);
      PopIsDelete(l, r, c);
    } else {
      r := RemoveAfter(l, c, i);
    }
  }

  /** Removing position 0: the head moves to its successor and the old head is released. */
  method RemoveFirst<T>(l: BareSLL<T>, ghost c: seq<Handle>) returns (r: BareSLL<T>)
    requires Linked(l, c)
    requires c != []
    ensures Linked(r, c[1..])
    ensures Values(r, c[1..]) == Values(l, c)[1..]
  {
    ChainAcyclic(Links(l.heap), l.head, c);
    var h := l.head.value;
    r := BareSLL(l.heap - {h}, l.heap[h].next, l.nextId);
    LinksRemove(l.heap, h);
    ChainPop(Links(l.heap), l.head, c);
    LinkedAfterPop(l, r, c);
  }

  /** A state whose links are the old chain without its first node is linked along the rest of the chain and shows the other values. */
  lemma LinkedAfterPop<T>(l: BareSLL<T>, r: BareSLL<T>, c: seq<Handle>)
    requires Linked(l, c) && Distinct(c) && c != []
    requires IsChain(Links(r.heap), r.head, c[1..])
    requires r.heap.Keys == l.heap.Keys - {c[0]}
    requires r.nextId == l.nextId
    requires forall x :: x in r.heap ==> r.heap[x].value == l.heap[x].value
    ensures Linked(r, c[1..])
    ensures Values(r, c[1..]) == Values(l, c)[1..]
  {
    ElemsTail(c);
    PoppedValues(l, r, c);
  }

  /** If `r` keeps the value of every node of `l` but `c[0]`, the chain without its first node shows the values without the first. */
  lemma PoppedValues<T>(l: BareSLL<T>, r: BareSLL<T>, c: seq<Handle>)
    requires forall k :: 0 <= k < |c| ==> c[k] in l.heap
    requires Distinct(c) && c != []
    requires r.heap.Keys == l.heap.Keys - {c[0]}
    requires forall x :: x in r.heap ==> r.heap[x].value == l.heap[x].value
    ensures forall k :: 0 <= k < |c[1..]| ==> c[1..][k] in r.heap
    ensures Values(r, c[1..]) == Values(l, c)[1..]
  {
    forall k | 0 <= k < |c[1..]|
      ensures c[1..][k] in r.heap
    {
      assert c[1..][k] == c[k + 1] != c[0];
    }
  }

  /** On a list, removing position 0 is deleting position 0 of the chain and of the values. */
  lemma PopIsDelete<T>(l: BareSLL<T>, r: BareSLL<T>, c: seq<Handle>)
    requires Linked(l, c) && c != []
    requires Linked(r, c[1..])
    requires Values(r, c[1..]) == Values(l, c)[1..]
    ensures Linked(r, c[..0] + c[1..])
    ensures Values(r, c[..0] + c[1..]) == Values(l, c)[..0] + Values(l, c)[1..]
  {
    assert c[..0] + c[1..] == c[1..];
    assert Values(l, c)[..0] + Values(l, c)[1..] == Values(l, c)[1..];
  }

  /** Removing position `i > 0`: walk to position `i - 1`, point it past its successor, and release that successor. */
  method RemoveAfter<T>(l: BareSLL<T>, ghost c: seq<Handle>, i: int) returns (r: BareSLL<T>)
    requires Linked(l, c)
    requires 0 < i < |c|
    ensures Linked(r, c[..i] + c[i + 1..])
    ensures Values(r, c[..i] + c[i + 1..]) == Values(l, c)[..i] + Values(l, c)[i + 1..]
  {
    ChainAcyclic(Links(l.heap), l.head, c);
    var prev := Walk(l, c, i - 1);
    assert Links(l.heap)[c[i - 1]] == Succ(c, i - 1);
    r := Bypass(l, prev);
    BypassLinked(l, c, i);
  }

  /** `prev.next = prev.next.next`: node `prev` skips its successor, which is released; no other link changes. */
  function Bypass<T>(l: BareSLL<T>, prev: Handle): (r: BareSLL<T>)
    requires prev in l.heap && l.heap[prev].next.Some? && l.heap[prev].next.value in l.heap
    ensures var victim := l.heap[prev].next.value;
            && Links(r.heap) == Links(l.heap)[prev := l.heap[victim].next] - {victim}
            && r.heap.Keys == l.heap.Keys - {victim}
            && (forall x :: x in r.heap ==> r.heap[x].value == l.heap[x].value)
            && r.head == l.head && r.nextId == l.nextId
  {
    var node := l.heap[prev];
    var victim := node.next.value;
    var heap := l.heap[prev := node.(next := l.heap[victim].next)];
    LinksUpdate(l.heap, prev, node.(next := l.heap[victim].next));
    LinksRemove(heap, victim);
    BareSLL(heap - {victim}, l.head, l.nextId)
  }

  /** Bypassing the successor of chain position `i - 1` removes exactly position `i` from the chain and from the values. */
  lemma BypassLinked<T>(l: BareSLL<T>, c: seq<Handle>, i: int)
    requires Linked(l, c) && Distinct(c)
    requires 0 < i < |c|
    ensures Links(l.heap)[c[i - 1]] == Some(c[i])
    ensures var r := Bypass(l, c[i - 1]);
            && Linked(r, c[..i] + c[i + 1..])
            && Values(r, c[..i] + c[i + 1..]) == Values(l, c)[..i] + Values(l, c)[i + 1..]
  {
    assert Links(l.heap)[c[i - 1]] == Succ(c, i - 1);
    ChainUnlink(Links(l.heap), l.head, c, i);
    LinkedAfterRemove(l, Bypass(l, c[i - 1]), c, i);
  }

  /** A state whose links are the old chain with position `i` bypassed is linked along the shortened chain and shows the other values. */
  lemma LinkedAfterRemove<T>(l: BareSLL<T>, r: BareSLL<T>, c: seq<Handle>, i: int)
    requires Linked(l, c) && Distinct(c)
    requires 0 <= i < |c|
    requires IsChain(Links(r.heap), r.head, c[..i] + c[i + 1..])
    requires r.heap.Keys == l.heap.Keys - {c[i]}
    requires r.nextId == l.nextId
    requires forall x :: x in r.heap ==> r.heap[x].value == l.heap[x].value
    ensures Linked(r, c[..i] + c[i + 1..])
    ensures Values(r, c[..i] + c[i + 1..]) == Values(l, c)[..i] + Values(l, c)[i + 1..]
  {
    ElemsDelete(c, i);
    DeletedValues(l, r, c, i);
  }

  /** If `r` keeps the value of every node of `l` but `c[i]`, the chain without position `i` shows the values without position `i`. */
  lemma DeletedValues<T>(l: BareSLL<T>, r: BareSLL<T>, c: seq<Handle>, i: int)
    requires forall k :: 0 <= k < |c| ==> c[k] in l.heap
    requires 0 <= i < |c| && Distinct(c)
    requires r.heap.Keys == l.heap.Keys - {c[i]}
    requires forall x :: x in r.heap ==> r.heap[x].value == l.heap[x].value
    ensures var c' := c[..i] + c[i + 1..]; forall k :: 0 <= k < |c'| ==> c'[k] in r.heap
    ensures Values(r, c[..i] + c[i + 1..]) == Values(l, c)[..i] + Values(l, c)[i + 1..]
  {
    var c' := c[..i] + c[i + 1..];
    assert forall k :: 0 <= k < |c'| ==> c'[k] in r.heap by {
      forall k | 0 <= k < |c'|
        ensures c'[k] in r.heap
      {
        if k < i {
          assert c'[k] == c[k] != c[i];
        } else {
          assert c'[k] == c[k + 1] != c[i];
        }
      }
    }
  }

  /** Storing a node changes only that node's link. */
  lemma LinksUpdate<T>(heap: map<Handle, LLNode<T>>, x: Handle, node: LLNode<T>)
    ensures Links(heap[x := node]) == Links(heap)[x := node.next]
  {
  }

  /** Releasing a node drops only that node's link. */
  lemma LinksRemove<T>(heap: map<Handle, LLNode<T>>, x: Handle)
    ensures Links(heap - {x}) == Links(heap) - {x}
  {
  }

  /** `get`: an index outside `[0, size)` raises IndexError; otherwise the value of the `i`-th chain node. */
  method Get<T>(l: NormalSLL<T>, ghost c: seq<Handle>, i: int) returns (r: Result<T>)
    requires Valid(l, c)
    ensures r.Success? <==> 0 <= i < l.size
    ensures r.Failure? ==> r.error == IndexError
    ensures r.Success? ==> r.value == Values(l.list, c)[i]
  {
    if i < 0 || i >= l.size {
      return Failure(IndexError);
    }
    var v := GetCore(l.list, c, i);
    r := Success(v);
  }

  /** `insert_at`: an index outside `[0, size]` raises IndexError; otherwise `v` is linked in at position `i` and `size` grows by one. */
  method InsertAt<T>(l: NormalSLL<T>, ghost c: seq<Handle>, i: int, v: T) returns (r: Result<NormalSLL<T>>)
    requires Valid(l, c)
    ensures r.Success? <==> 0 <= i <= l.size
    ensures r.Failure? ==> r.error == IndexError
    ensures r.Success? ==>
              && Valid(r.value, c[..i] + [l.list.nextId] + c[i..])
              && Values(r.value.list, c[..i] + [l.list.nextId] + c[i..]) == Values(l.list, c)[..i] + [v] + Values(l.list, c)[i..]
              && r.value.size == l.size + 1
  {
    if i < 0 || i > l.size {
      return Failure(IndexError);
    }
    var list := InsertCore(l.list, c, i, v);
    r := Success(NormalSLL(list, l.size + 1));
  }

  /** `remove_at`: an index outside `[0, size)` raises IndexError; otherwise position `i` is unlinked and `size` shrinks by one. */
  method RemoveAt<T>(l: NormalSLL<T>, ghost c: seq<Handle>, i: int) returns (r: Result<NormalSLL<T>>)
    requires Valid(l, c)
    ensures r.Success? <==> 0 <= i < l.size
    ensures r.Failure? ==> r.error == IndexError
    ensures r.Success? ==>
              && Valid(r.value, c[..i] + c[i + 1..])
              && Values(r.value.list, c[..i] + c[i + 1..]) == Values(l.list, c)[..i] + Values(l.list, c)[i + 1..]
              && r.value.size == l.size - 1
  {
    if i < 0 || i >= l.size {
      return Failure(IndexError);
    }
    var list := RemoveCore(l.list, c, i);
    r := Success(NormalSLL(list, l.size - 1));
  }
}
