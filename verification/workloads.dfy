/**
 The two fixed operation sequences the repository runs against both lists:
 the head-insertion build of Time_Test_SLL.py (`insert_at(0, k)` for
 `k = 0 .. n-1`) and the append / read / remove-from-the-back pattern of the
 Test_SLL.py benchmark. Timing is not modelled; what is stated is the state
 each sequence leaves behind and the values it reads.
 */
module Workloads {
  import opened Outcomes
  import opened SeqOps
  import opened Chain
  import I = IndexedList
  import P = PlainList

  /** `[0, 1, ..., n - 1]`. */
  function Upto(n: nat): (r: seq<int>)
    ensures |r| == n
    ensures forall k :: 0 <= k < n ==> r[k] == k
  {
    if n == 0 then [] else Upto(n - 1) + [n - 1]
  }

  /** `[n - 1, ..., 1, 0]`. */
  function Downto(n: nat): (r: seq<int>)
    ensures |r| == n
    ensures forall k :: 0 <= k < n ==> r[k] == n - 1 - k
  {
    if n == 0 then [] else [n - 1] + Downto(n - 1)
  }

  /** The array view the head-insertion build leaves in the indexed list: `[n - 1, 0, 1, ..., n - 2]`. */
  function Rotated(n: nat): (r: seq<int>)
    ensures |r| == n
    ensures n > 0 ==> r[0] == n - 1
    ensures forall k :: 0 < k < n ==> r[k] == k - 1
  {
    if n == 0 then [] else [n - 1] + Upto(n - 1)
  }

  /** One head insertion of `n` turns the build's array view for `n` values into the one for `n + 1`. */
  lemma RotatedStep(n: nat)
    ensures DisplacingInsert(Rotated(n), 0, n) == Rotated(n + 1)
  {
    if n > 0 {
      assert DisplacingInsert(Rotated(n), 0, n) == [n] + Upto(n - 1) + [n - 1];
    }
  }

  /** From three values on, the indexed list's array view after the build is not the reverse insertion order the plain list shows. */
  lemma RotatedIsNotReversed(n: nat)
    requires n >= 3
    ensures Rotated(n) != Downto(n)
    ensures Rotated(n)[1] == 0 && Downto(n)[1] == n - 2
  {
  }

  /** The state the build leaves in the indexed list after `k` head insertions. */
  ghost predicate FastBuilt(l: I.FastSLL<int>, c: seq<Handle>, k: nat)
  {
    && I.Valid(l, c) && |l.slots| == k
    && I.ChainView(l, c) == Downto(k)
    && I.View(l) == Rotated(k)
  }

  /** The state the build leaves in the plain list after `k` head insertions. */
  ghost predicate NormalBuilt(l: P.BareSLL<int>, c: seq<Handle>, k: nat)
  {
    P.Linked(l, c) && P.Values(l, c) == Downto(k)
  }

  /** `fast.insert_at(0, k)` takes the indexed list from `k` built values to `k + 1`. */
  lemma FastBuildStep(l: I.FastSLL<int>, c: seq<Handle>, k: nat)
    requires FastBuilt(l, c, k)
    ensures FastBuilt(I.InsertCore(l, 0, k), [l.nextId] + c, k + 1)
  {
    I.InsertPreservesValid(l, c, 0, k);
    I.InsertChainView(l, c, 0, k);
    I.InsertView(l, 0, k);
    RotatedStep(k);
  }

  /** `normal.insert_at(0, k)` takes the plain list from `k` built values to `k + 1`. */
  method NormalBuildStep(l: P.BareSLL<int>, ghost c: seq<Handle>, k: nat) returns (r: P.BareSLL<int>, ghost c': seq<Handle>)
    requires NormalBuilt(l, c, k)
    ensures NormalBuilt(r, c', k + 1)
    ensures c' == [l.nextId] + c && r.head == Some(l.nextId)
  {
    r := P.InsertCore(l, c, 0, k);
    c' := [l.nextId] + c;
    PushedAtFront(l, r, c, l.nextId, k);
  }

  /** Splicing in at position 0 is prepending. */
  lemma SpliceAtFront<X>(s: seq<X>, x: X)
    ensures s[..0] + [x] + s[0..] == [x] + s
  {
    assert s[..0] == [] && s[0..] == s;
  }

  /** Splicing a node in at position 0 of the plain list is pushing it onto the chain. */
  lemma PushedAtFront<T>(l: P.BareSLL<T>, r: P.BareSLL<T>, c: seq<Handle>, n: Handle, v: T)
    requires P.Linked(l, c)
    requires P.Linked(r, c[..0] + [n] + c[0..])
    requires P.Values(r, c[..0] + [n] + c[0..]) == P.Values(l, c)[..0] + [v] + P.Values(l, c)[0..]
    ensures P.Linked(r, [n] + c)
    ensures P.Values(r, [n] + c) == [v] + P.Values(l, c)
  {
    SpliceAtFront(c, n);
    SpliceAtFront(P.Values(l, c), v);
  }

  /**
   The build loop `for k in range(n): normal.insert_at(0, k); fast.insert_at(0, k)`
   on fresh lists, using the unguarded insertions.
   */
  method BuildByHeadInsert(n: nat) returns (fast: I.FastSLL<int>, ghost fc: seq<Handle>, normal: P.BareSLL<int>, ghost nc: seq<Handle>)
    ensures I.Valid(fast, fc) && P.Linked(normal, nc)
    ensures |fast.slots| == n && |nc| == n
    ensures I.ChainView(fast, fc) == Downto(n)
    ensures I.View(fast) == Rotated(n)
    ensures P.Values(normal, nc) == Downto(n)
    ensures n > 0 ==> I.GetCore(fast, 0) == n - 1
  {
    fast, fc := I.Empty(), [];
    normal, nc := P.Empty<int>().list, [];
    var k := 0;
    while k < n
      invariant 0 <= k <= n
      invariant FastBuilt(fast, fc, k) && NormalBuilt(normal, nc, k)
    {
      FastBuildStep(fast, fc, k);
      fc := [fast.nextId] + fc;
      fast := I.InsertCore(fast, 0, k);
      normal, nc := NormalBuildStep(normal, nc, k);
      k := k + 1;
    }
  }

  // ---------------------------------------------------------------------------
  // The Test_SLL.py benchmark: append n values, read them back, remove from the back

  /** Splicing in at the end is appending. */
  lemma SpliceAtEnd<X>(s: seq<X>, x: X)
    ensures s[..|s|] + [x] + s[|s|..] == s + [x]
  {
    assert s[..|s|] == s && s[|s|..] == [];
  }

  /** One more element of `vals` extends the prefix by it. */
  lemma PrefixGrows<X>(vals: seq<X>, k: int)
    requires 0 <= k < |vals|
    ensures vals[..k] + [vals[k]] == vals[..k + 1]
    ensures vals[..k + 1][..k] == vals[..k]
  {
  }

  /** Appending `vals[k]` to an indexed list showing `vals[..k]` succeeds, keeps it valid and shows `vals[..k + 1]`. */
  lemma FastAppendStep<T>(l: I.FastSLL<T>, c: seq<Handle>, vals: seq<T>, k: int)
    requires 0 <= k < |vals|
    requires I.Valid(l, c) && I.View(l) == vals[..k]
    ensures I.InsertAt(l, |l.slots|, vals[k]) == Success(I.InsertCore(l, |l.slots|, vals[k]))
    ensures I.Valid(I.InsertCore(l, |l.slots|, vals[k]), [l.nextId] + c)
    ensures I.View(I.InsertCore(l, |l.slots|, vals[k])) == vals[..k + 1]
  {
    I.InsertPreservesValid(l, c, |l.slots|, vals[k]);
    I.InsertView(l, |l.slots|, vals[k]);
    PrefixGrows(vals, k);
  }

  /** One append of the benchmark, through the guarded `insert_at`. */
  method FastAppendOne<T>(l: I.FastSLL<T>, ghost c: seq<Handle>, vals: seq<T>, k: int) returns (r: I.FastSLL<T>, ghost c': seq<Handle>)
    requires 0 <= k < |vals|
    requires I.Valid(l, c) && I.View(l) == vals[..k]
    ensures I.Valid(r, c') && I.View(r) == vals[..k + 1]
  {
    var out := I.InsertAt(l, |l.slots|, vals[k]);
    FastAppendStep(l, c, vals, k);
    r, c' := out.value, [l.nextId] + c;
  }

  /** `sll.insert_at(len(sll.nodes_array), vals[k])` for every `k` in order, on a fresh list. */
  method FastAppendAll<T>(vals: seq<T>) returns (l: I.FastSLL<T>, ghost c: seq<Handle>)
    ensures I.Valid(l, c)
    ensures I.View(l) == vals
  {
    l, c := I.Empty(), [];
    var k := 0;
    while k < |vals|
      invariant 0 <= k <= |vals|
      invariant I.Valid(l, c)
      invariant I.View(l) == vals[..k]
    {
      l, c := FastAppendOne(l, c, vals, k);
      k := k + 1;
    }
  }

  /** `sll.get(i)` for every index in order. */
  method FastReadAll<T>(l: I.FastSLL<T>) returns (got: seq<T>)
    requires I.Indexed(l)
    ensures got == I.View(l)
  {
    got := [];
    var i := 0;
    while i < |l.slots|
      invariant 0 <= i <= |l.slots|
      invariant got == I.View(l)[..i]
    {
      var g := I.Get(l, i);
      PrefixGrows(I.View(l), i);
      got := got + [g.value];
      i := i + 1;
    }
  }

  /** Removing the last index of a list showing `s[..i + 1]` leaves it showing `s[..i]`. */
  lemma DropLast<X>(s: seq<X>, t: seq<X>, i: int)
    requires 0 <= i < |s| && t == s[..i + 1]
    ensures SwapPop(t, i) == s[..i]
    ensures t[..i] + t[i + 1..] == s[..i]
  {
    assert t[i + 1..] == [];
  }

  /** `trace[k]` is `s` without its last `k + 1` elements, for every `k`: what a list showing `s` shows after each removal from the back. */
  ghost predicate Shrinking<X>(trace: seq<seq<X>>, s: seq<X>)
  {
    |trace| <= |s| && forall k :: 0 <= k < |trace| ==> trace[k] == s[..|s| - 1 - k]
  }

  /** After `|s| - 1 - i` removals the next removal leaves `s[..i]`. */
  lemma ShrinkingStep<X>(trace: seq<seq<X>>, s: seq<X>, i: int)
    requires Shrinking(trace, s) && 0 <= i < |s| && |trace| == |s| - 1 - i
    ensures Shrinking(trace + [s[..i]], s)
  {
  }

  /**
   One `sll.remove_at(i)` at the last index: the list showing `s[..i + 1]`
   shows `s[..i]` afterwards and stays valid; `trace` records what it shows.
   */
  method FastRemoveLast<T>(l: I.FastSLL<T>, ghost c: seq<Handle>, ghost s: seq<T>, i: int, trace: seq<seq<T>>)
    returns (r: I.FastSLL<T>, ghost c': seq<Handle>, trace': seq<seq<T>>)
    requires I.Valid(l, c)
    requires 0 <= i < |s| && |l.slots| == i + 1 && I.View(l) == s[..i + 1]
    requires |trace| == |s| - 1 - i && Shrinking(trace, s)
    ensures I.Valid(r, c') && |r.slots| == i
    ensures I.View(r) == s[..i]
    ensures trace' == trace + [I.View(r)]
    ensures |trace'| == |s| - i && Shrinking(trace', s)
  {
    var out := I.RemoveAt(l, i);
    I.RemoveAtPreservesValid(l, c, i);
    DropLast(s, I.View(l), i);
    r, c' := out.value, c[1..];
    ShrinkingStep(trace, s, i);
    trace' := trace + [I.View(r)];
  }

  /**
   `sll.remove_at(i)` for `i = n - 1` down to `0`: always the last index.
   `trace[k]` is what the list shows after the `k + 1`-th removal.
   */
  method FastRemoveFromBack<T>(l: I.FastSLL<T>, ghost c: seq<Handle>) returns (r: I.FastSLL<T>, ghost c': seq<Handle>, trace: seq<seq<T>>)
    requires I.Valid(l, c)
    ensures I.Valid(r, c')
    ensures r.slots == [] && r.head.None? && r.heap == map[]
    ensures |trace| == |l.slots| && Shrinking(trace, I.View(l))
  {
    r, c', trace := l, c, [];
    var i := |l.slots| - 1;
    while i >= 0
      invariant -1 <= i < |l.slots|
      invariant I.Valid(r, c') && |r.slots| == i + 1
      invariant I.View(r) == I.View(l)[..i + 1]
      invariant |trace| == |l.slots| - 1 - i && Shrinking(trace, I.View(l))
    {
      r, c', trace := FastRemoveLast(r, c', I.View(l), i, trace);
      i := i - 1;
    }
    FastEmptied(r, c');
  }

  /** A valid indexed list with an empty array has no head and no live node. */
  lemma FastEmptied<T>(l: I.FastSLL<T>, c: seq<Handle>)
    requires I.Valid(l, c) && l.slots == []
    ensures l.head.None? && l.heap == map[]
  {
    assert l.heap.Keys == {};
  }

  /** `normal.insert_at(k, vals[k])` for every `k` in order, on a fresh list: always at the current end. */
  method NormalAppendAll<T>(vals: seq<T>) returns (l: P.NormalSLL<T>, ghost c: seq<Handle>)
    ensures P.Valid(l, c) && l.size == |vals|
    ensures P.Values(l.list, c) == vals
  {
    l, c := P.Empty(), [];
    var k := 0;
    while k < |vals|
      invariant 0 <= k <= |vals|
      invariant P.Valid(l, c)
      invariant P.Values(l.list, c) == vals[..k]
    {
      var r := P.InsertAt(l, c, k, vals[k]);
      ghost var before := P.Values(l.list, c);
      SpliceAtEnd(before, vals[k]);
      PrefixGrows(vals, k);
      c := c[..k] + [l.list.nextId] + c[k..];
      l := r.value;
      k := k + 1;
    }
  }

  /** `normal.get(i)` for every index in order. */
  method NormalReadAll<T>(l: P.NormalSLL<T>, ghost c: seq<Handle>) returns (got: seq<T>)
    requires P.Valid(l, c)
    ensures got == P.Values(l.list, c)
  {
    got := [];
    var i := 0;
    while i < l.size
      invariant 0 <= i <= l.size
      invariant got == P.Values(l.list, c)[..i]
    {
      var g := P.Get(l, c, i);
      PrefixGrows(P.Values(l.list, c), i);
      got := got + [g.value];
      i := i + 1;
    }
  }

  /**
   One `normal.remove_at(i)` at the last index: the list showing `s[..i + 1]`
   shows `s[..i]` afterwards and stays valid; `trace` records what it shows.
   */
  method NormalRemoveLast<T>(l: P.NormalSLL<T>, ghost c: seq<Handle>, ghost s: seq<T>, i: int, ghost trace: seq<seq<T>>)
    returns (r: P.NormalSLL<T>, ghost c': seq<Handle>, ghost trace': seq<seq<T>>)
    requires P.Valid(l, c)
    requires 0 <= i < |s| && l.size == i + 1 && P.Values(l.list, c) == s[..i + 1]
    requires |trace| == |s| - 1 - i && Shrinking(trace, s)
    ensures P.Valid(r, c') && r.size == i
    ensures P.Values(r.list, c') == s[..i]
    ensures trace' == trace + [P.Values(r.list, c')]
    ensures |trace'| == |s| - i && Shrinking(trace', s)
  {
    var out := P.RemoveAt(l, c, i);
    DropLast(s, P.Values(l.list, c), i);
    r, c' := out.value, c[..i] + c[i + 1..];
    ShrinkingStep(trace, s, i);
    trace' := trace + [P.Values(r.list, c')];
  }

  /**
   `normal.remove_at(i)` for `i = n - 1` down to `0`: always the last index.
   `trace[k]` is what the list shows after the `k + 1`-th removal.
   */
  method NormalRemoveFromBack<T>(l: P.NormalSLL<T>, ghost c: seq<Handle>) returns (r: P.NormalSLL<T>, ghost c': seq<Handle>, ghost trace: seq<seq<T>>)
    requires P.Valid(l, c)
    ensures P.Valid(r, c')
    ensures r.size == 0 && r.list.head.None? && r.list.heap == map[]
    ensures |trace| == l.size && Shrinking(trace, P.Values(l.list, c))
  {
    ghost var s := P.Values(l.list, c);
    r, c', trace := l, c, [];
    var i := l.size - 1;
    while i >= 0
      invariant -1 <= i < |s|
      invariant P.Valid(r, c') && r.size == i + 1
      invariant P.Values(r.list, c') == s[..i + 1]
      invariant |trace| == |s| - 1 - i && Shrinking(trace, s)
    {
      r, c', trace := NormalRemoveLast(r, c', s, i, trace);
      i := i - 1;
    }
  }

  /**
   The benchmark's operation sequence on an indexed and a plain list: append
   every value, read every index, then remove from the back. Both lists read
   back exactly the appended values, show the same prefix of them after each
   removal, and both end empty.
   */
  method Benchmark<T>(vals: seq<T>) returns (fastReads: seq<T>, normalReads: seq<T>, fastTrace: seq<seq<T>>, ghost normalTrace: seq<seq<T>>, fast: I.FastSLL<T>, normal: P.NormalSLL<T>)
    ensures fastReads == vals && normalReads == vals
    ensures |fastTrace| == |vals| && fastTrace == normalTrace
    ensures forall k :: 0 <= k < |vals| ==> fastTrace[k] == vals[..|vals| - 1 - k]
    ensures fast.slots == [] && fast.head.None? && fast.heap == map[]
    ensures normal.size == 0 && normal.list.head.None? && normal.list.heap == map[]
  {
    ghost var fc, nc;
    fast, fc := FastAppendAll(vals);
    normal, nc := NormalAppendAll(vals);
    fastReads := FastReadAll(fast);
    normalReads := NormalReadAll(normal, nc);
    fast, fc, fastTrace := FastRemoveFromBack(fast, fc);
    normal, nc, normalTrace := NormalRemoveFromBack(normal, nc);
  }
}
