/**
 Sequence vocabulary shared by the list models: duplicate-freedom, element
 sets, and the two relocating updates the indexed list performs on its array
 (displacing insert and swap-and-pop).
 */
module SeqOps {

  /** No element occurs twice in `s`. */
  predicate Distinct<X(==)>(s: seq<X>)
  {
    forall a, b :: 0 <= a < b < |s| ==> s[a] != s[b]
  }

  /** The elements of `s`. */
  function Elems<X>(s: seq<X>): set<X>
  {
    set x | x in s
  }

  /** `v` takes slot `i` and the element it displaces moves to a new last slot; at `i == |s|` a plain append. */
  function DisplacingInsert<T>(s: seq<T>, i: int, v: T): (r: seq<T>)
    requires 0 <= i <= |s|
    ensures |r| == |s| + 1 && r[i] == v
    ensures i < |s| ==> r[|s|] == s[i]
    ensures forall k :: 0 <= k < |s| && k != i ==> r[k] == s[k]
  {
    if i == |s| then s + [v] else s[i := v] + [s[i]]
  }

  /** Slot `i` is refilled from the last slot, which is then dropped; at the last slot a plain pop. */
  function SwapPop<T>(s: seq<T>, i: int): (r: seq<T>)
    requires 0 <= i < |s|
    ensures |r| == |s| - 1
    ensures i < |s| - 1 ==> r[i] == s[|s| - 1]
    ensures forall k :: 0 <= k < |s| - 1 && k != i ==> r[k] == s[k]
  {
    var last := |s| - 1;
    if i == last then s[..last] else s[i := s[last]][..last]
  }

  /** Displacing insert adds exactly the inserted value to the multiset of elements, at every slot including the end. */
  lemma InsertMultiset<T>(s: seq<T>, i: int, v: T)
    requires 0 <= i <= |s|
    ensures multiset(DisplacingInsert(s, i, v)) == multiset(s) + multiset{v}
  {
  }

  /** Swap-and-pop removes exactly the element at slot `i` from the multiset of elements. */
  lemma SwapPopMultiset<T>(s: seq<T>, i: int)
    requires 0 <= i < |s|
    ensures multiset(SwapPop(s, i)) == multiset(s) - multiset{s[i]}
  {
    var last := |s| - 1;
    assert s == s[..last] + [s[last]];
    if i != last {
      var t := s[i := s[last]];
      assert t == t[..last] + [s[last]];
    }
  }

  /** Displacing insert followed by swap-and-pop at the same slot is the identity. */
  lemma DisplaceThenSwapPop<T>(s: seq<T>, i: int, v: T)
    requires 0 <= i <= |s|
    ensures SwapPop(DisplacingInsert(s, i, v), i) == s
  {
  }

  /** Two duplicate-free sequences over the same elements have the same length. */
  lemma SameElementsSameLength<X>(a: seq<X>, b: seq<X>)
    requires Distinct(a) && Distinct(b)
    requires Elems(a) == Elems(b)
    ensures |a| == |b|
  {
    assert forall x :: x in a <==> x in Elems(a);
    assert forall x :: x in b <==> x in Elems(b);
    NoLongerThanCover(a, b);
    NoLongerThanCover(b, a);
  }

  /** A duplicate-free sequence is no longer than any sequence that contains all of its elements. */
  lemma {:induction false} NoLongerThanCover<X>(a: seq<X>, b: seq<X>)
    requires Distinct(b)
    requires forall x :: x in b ==> x in a
    ensures |b| <= |a|
    decreases |b|
  {
    if b != [] {
      var x := b[0];
      assert x in a;
      var j :| 0 <= j < |a| && a[j] == x;
      var a' := a[..j] + a[j + 1..];
      var b' := b[1..];
      forall y | y in b'
        ensures y in a'
      {
        var kb :| 0 <= kb < |b'| && b'[kb] == y;
        assert b[kb + 1] == y && y != x;
        assert y in a;
        var ka :| 0 <= ka < |a| && a[ka] == y;
        if ka < j {
          assert a'[ka] == y;
        } else {
          assert a'[ka - 1] == y;
        }
      }
      NoLongerThanCover(a', b');
    }
  }

  /** Dropping the first element of a duplicate-free sequence removes exactly that element. */
  lemma ElemsTail<X>(s: seq<X>)
    requires Distinct(s) && s != []
    ensures Elems(s[1..]) == Elems(s) - {s[0]}
  {
    forall x | x in Elems(s) && x != s[0]
      ensures x in Elems(s[1..])
    {
      var k :| 0 <= k < |s| && s[k] == x;
      assert s[1..][k - 1] == x;
    }
  }

  /** Appending `n` and swapping it into slot `i` adds exactly `n` to the elements. */
  lemma ElemsAppendSwap<X>(s: seq<X>, i: int, n: X)
    requires 0 <= i < |s|
    ensures Elems((s + [n])[i := n][|s| := s[i]]) == Elems(s) + {n}
  {
    var t := (s + [n])[i := n][|s| := s[i]];
    forall x | x in Elems(s)
      ensures x in Elems(t)
    {
      var k :| 0 <= k < |s| && s[k] == x;
      assert t[if k == i then |s| else k] == x;
    }
    assert t[i] == n;
  }

  /**
   Overwriting slot `p` with the element at slot `i` and then swap-and-popping
   slot `i` removes exactly the element that was at `p`.
   */
  lemma ElemsOverwriteSwapPop<X>(s: seq<X>, i: int, p: int)
    requires Distinct(s)
    requires 0 <= i < |s| && 0 <= p < |s|
    ensures Elems(SwapPop(s[p := s[i]], i)) == Elems(s) - {s[p]}
  {
    var last := |s| - 1;
    var t := SwapPop(s[p := s[i]], i);
    forall x | x in Elems(t)
      ensures x in Elems(s) && x != s[p]
    {
      var k :| 0 <= k < |t| && t[k] == x;
      assert x == s[k] || x == s[i] || x == s[last];
    }
    forall x | x in Elems(s) && x != s[p]
      ensures x in Elems(t)
    {
      var k :| 0 <= k < |s| && s[k] == x;
      if k == i {
        assert t[if p == last then i else p] == x;
      } else if k == last {
        assert t[i] == x;
      } else {
        assert t[k] == x;
      }
    }
  }

  /** Inserting `n` at position `i` adds exactly `n` to the elements. */
  lemma ElemsInsert<X>(s: seq<X>, i: int, n: X)
    requires 0 <= i <= |s|
    ensures Elems(s[..i] + [n] + s[i..]) == Elems(s) + {n}
  {
    var t := s[..i] + [n] + s[i..];
    forall x | x in Elems(s)
      ensures x in Elems(t)
    {
      var k :| 0 <= k < |s| && s[k] == x;
      assert t[if k < i then k else k + 1] == x;
    }
    assert t[i] == n;
  }

  /** Deleting position `i` of a duplicate-free sequence removes exactly the element there. */
  lemma ElemsDelete<X>(s: seq<X>, i: int)
    requires Distinct(s)
    requires 0 <= i < |s|
    ensures Elems(s[..i] + s[i + 1..]) == Elems(s) - {s[i]}
  {
    var t := s[..i] + s[i + 1..];
    forall x | x in Elems(s) && x != s[i]
      ensures x in Elems(t)
    {
      var k :| 0 <= k < |s| && s[k] == x;
      assert t[if k < i then k else k - 1] == x;
    }
  }
}
