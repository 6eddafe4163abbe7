/**
 Singly linked chains over an arena of nodes. A node is named by a `Handle`
 (its object identity); a `LinkMap` maps every live handle to its `next` field.
 A chain from `p` is the finite sequence of handles met by following `next`
 from `p` until `None`.
 */
module Chain {
  import opened Outcomes
  import opened SeqOps

  type Handle = nat

  /** The `next` field of every live node. */
  type LinkMap = map<Handle, Option<Handle>>

  /** The reference that starts the chain `c`. */
  function First(c: seq<Handle>): Option<Handle>
  {
    if c == [] then None else Some(c[0])
  }

  /** The `next` reference that node `c[k]` must hold for `c` to be a chain. */
  function Succ(c: seq<Handle>, k: int): Option<Handle>
    requires 0 <= k < |c|
  {
    if k + 1 < |c| then Some(c[k + 1]) else None
  }

  /** Following `next` from `p` visits exactly `c`, in order, and then reaches `None`. */
  ghost predicate IsChain(links: LinkMap, p: Option<Handle>, c: seq<Handle>)
  {
    && p == First(c)
    && forall k :: 0 <= k < |c| ==> c[k] in links && links[c[k]] == Succ(c, k)
  }

  /** Two chains from the same reference agree on their first `k + 1` nodes. */
  lemma {:induction false} ChainsAgree(links: LinkMap, p: Option<Handle>, c1: seq<Handle>, c2: seq<Handle>, k: nat)
    requires IsChain(links, p, c1) && IsChain(links, p, c2)
    requires k < |c1| && k < |c2|
    ensures c1[k] == c2[k]
  {
    if k > 0 {
      ChainsAgree(links, p, c1, c2, k - 1);
      assert Succ(c1, k - 1) == links[c1[k - 1]] == Succ(c2, k - 1);
    }
  }

  /** The chain from a reference is unique: the walk from `p` determines it. */
  lemma {:induction false} ChainUnique(links: LinkMap, p: Option<Handle>, c1: seq<Handle>, c2: seq<Handle>)
    requires IsChain(links, p, c1) && IsChain(links, p, c2)
    ensures c1 == c2
  {
    if |c1| != |c2| {
      // the shorter chain ends (reaches None) where the longer one goes on
      var short, long := if |c1| < |c2| then c1 else c2, if |c1| < |c2| then c2 else c1;
      if short != [] {
        ChainsAgree(links, p, short, long, |short| - 1);
      }
      assert false;
    }
    forall k | 0 <= k < |c1|
      ensures c1[k] == c2[k]
    {
      ChainsAgree(links, p, c1, c2, k);
    }
  }

  /** Every suffix of a chain is the chain from its first node. */
  lemma ChainSuffix(links: LinkMap, p: Option<Handle>, c: seq<Handle>, j: nat)
    requires IsChain(links, p, c)
    requires j <= |c|
    ensures IsChain(links, First(c[j..]), c[j..])
  {
    forall k | 0 <= k < |c[j..]|
      ensures c[j..][k] in links && links[c[j..][k]] == Succ(c[j..], k)
    {
      assert c[j..][k] == c[j + k];
    }
  }

  /** A chain that reaches `None` is acyclic: it never revisits a node. */
  lemma {:induction false} ChainAcyclic(links: LinkMap, p: Option<Handle>, c: seq<Handle>)
    requires IsChain(links, p, c)
    ensures Distinct(c)
  {
    forall a, b | 0 <= a < b < |c|
      ensures c[a] != c[b]
    {
      if c[a] == c[b] {
        ChainSuffix(links, p, c, a);
        ChainSuffix(links, p, c, b);
        ChainUnique(links, Some(c[a]), c[a..], c[b..]);
        assert false;
      }
    }
  }

  /** Linking a node that is not yet live in front of a chain yields the chain one longer. */
  lemma ChainPush(links: LinkMap, p: Option<Handle>, c: seq<Handle>, n: Handle)
    requires IsChain(links, p, c)
    requires n !in links
    ensures IsChain(links[n := p], Some(n), [n] + c)
  {
    var c' := [n] + c;
    forall k | 0 <= k < |c'|
      ensures c'[k] in links[n := p] && links[n := p][c'[k]] == Succ(c', k)
    {
      if k > 0 {
        assert c'[k] == c[k - 1] != n;
      }
    }
  }

  /** Unlinking the first node of an acyclic chain leaves the chain from its successor. */
  lemma ChainPop(links: LinkMap, p: Option<Handle>, c: seq<Handle>)
    requires IsChain(links, p, c)
    requires c != [] && Distinct(c)
    ensures IsChain(links - {c[0]}, links[c[0]], c[1..])
  {
    var c' := c[1..];
    forall k | 0 <= k < |c'|
      ensures c'[k] in links - {c[0]} && (links - {c[0]})[c'[k]] == Succ(c', k)
    {
      assert c'[k] == c[k + 1] != c[0];
    }
  }

  /** Linking a node that is not yet live in after the `i`-th node of a chain splices it in at position `i`. */
  lemma ChainSplice(links: LinkMap, p: Option<Handle>, c: seq<Handle>, i: int, n: Handle)
    requires IsChain(links, p, c)
    requires 0 < i <= |c| && n !in links
    ensures IsChain(links[n := links[c[i - 1]]][c[i - 1] := Some(n)], p, c[..i] + [n] + c[i..])
  {
    ChainAcyclic(links, p, c);
    var c' := c[..i] + [n] + c[i..];
    forall k | 0 <= k < |c'|
      ensures c'[k] in links[n := links[c[i - 1]]][c[i - 1] := Some(n)]
      ensures links[n := links[c[i - 1]]][c[i - 1] := Some(n)][c'[k]] == Succ(c', k)
    {
      SplicedLink(links, p, c, i, n, k);
    }
  }

  /** The `k`-th node of the spliced chain holds the link the spliced chain needs there. */
  lemma SplicedLink(links: LinkMap, p: Option<Handle>, c: seq<Handle>, i: int, n: Handle, k: int)
    requires IsChain(links, p, c) && Distinct(c)
    requires 0 < i <= |c| && n !in links
    requires 0 <= k <= |c|
    ensures var c' := c[..i] + [n] + c[i..];
            var links' := links[n := links[c[i - 1]]][c[i - 1] := Some(n)];
            c'[k] in links' && links'[c'[k]] == Succ(c', k)
  {
    if k < i - 1 {
      SplicedBefore(links, p, c, i, n, k);
    } else if k == i - 1 {
      SplicedPrev(links, p, c, i, n);
    } else if k == i {
      SplicedNew(links, p, c, i, n);
    } else {
      SplicedAfter(links, p, c, i, n, k);
    }
  }

  /** A node before position `i - 1` keeps its link, and its successor is unchanged. */
  lemma SplicedBefore(links: LinkMap, p: Option<Handle>, c: seq<Handle>, i: int, n: Handle, k: int)
    requires IsChain(links, p, c) && Distinct(c)
    requires 0 < i <= |c| && n !in links
    requires 0 <= k < i - 1
    ensures var c' := c[..i] + [n] + c[i..];
            var links' := links[n := links[c[i - 1]]][c[i - 1] := Some(n)];
            c'[k] in links' && links'[c'[k]] == Succ(c', k)
  {
    var links' := links[n := links[c[i - 1]]][c[i - 1] := Some(n)];
    var c' := c[..i] + [n] + c[i..];
    assert c'[k] == c[k] && c[k] != n && c[k] != c[i - 1];
    assert c'[k + 1] == c[k + 1];
    assert links'[c'[k]] == links[c[k]] == Succ(c, k);
  }

  /** The node at position `i - 1` now points to the new node. */
  lemma SplicedPrev(links: LinkMap, p: Option<Handle>, c: seq<Handle>, i: int, n: Handle)
    requires IsChain(links, p, c) && Distinct(c)
    requires 0 < i <= |c| && n !in links
    ensures var c' := c[..i] + [n] + c[i..];
            var links' := links[n := links[c[i - 1]]][c[i - 1] := Some(n)];
            c'[i - 1] in links' && links'[c'[i - 1]] == Succ(c', i - 1)
  {
    var links' := links[n := links[c[i - 1]]][c[i - 1] := Some(n)];
    var c' := c[..i] + [n] + c[i..];
    assert c[i - 1] in links && c[i - 1] != n;
    assert c'[i - 1] == c[i - 1] && c'[i] == n;
  }

  /** The new node points where node `i - 1` used to point. */
  lemma SplicedNew(links: LinkMap, p: Option<Handle>, c: seq<Handle>, i: int, n: Handle)
    requires IsChain(links, p, c) && Distinct(c)
    requires 0 < i <= |c| && n !in links
    ensures var c' := c[..i] + [n] + c[i..];
            var links' := links[n := links[c[i - 1]]][c[i - 1] := Some(n)];
            c'[i] in links' && links'[c'[i]] == Succ(c', i)
  {
    var links' := links[n := links[c[i - 1]]][c[i - 1] := Some(n)];
    var c' := c[..i] + [n] + c[i..];
    assert c[i - 1] in links && c[i - 1] != n;
    assert c'[i] == n;
    assert links'[n] == links[c[i - 1]] == Succ(c, i - 1);
    assert i < |c| ==> c'[i + 1] == c[i];
  }

  /** A node after the new one keeps its link, shifted one position on. */
  lemma SplicedAfter(links: LinkMap, p: Option<Handle>, c: seq<Handle>, i: int, n: Handle, k: int)
    requires IsChain(links, p, c) && Distinct(c)
    requires 0 < i <= |c| && n !in links
    requires i < k <= |c|
    ensures var c' := c[..i] + [n] + c[i..];
            var links' := links[n := links[c[i - 1]]][c[i - 1] := Some(n)];
            c'[k] in links' && links'[c'[k]] == Succ(c', k)
  {
    var links' := links[n := links[c[i - 1]]][c[i - 1] := Some(n)];
    var c' := c[..i] + [n] + c[i..];
    assert c'[k] == c[k - 1] && c[k - 1] != n && c[k - 1] != c[i - 1];
    assert k + 1 < |c'| ==> c'[k + 1] == c[k];
    assert links'[c'[k]] == links[c[k - 1]] == Succ(c, k - 1);
  }


  /** Bypassing the `i`-th node of an acyclic chain (its predecessor takes over its `next`) drops it from the chain. */
  lemma ChainUnlink(links: LinkMap, p: Option<Handle>, c: seq<Handle>, i: int)
    requires IsChain(links, p, c)
    requires 0 < i < |c| && Distinct(c)
    ensures IsChain(links[c[i - 1] := links[c[i]]] - {c[i]}, p, c[..i] + c[i + 1..])
  {
    var links' := links[c[i - 1] := links[c[i]]] - {c[i]};
    var c' := c[..i] + c[i + 1..];
    forall k | 0 <= k < |c'|
      ensures c'[k] in links' && links'[c'[k]] == Succ(c', k)
    {
      if k < i {
        assert c'[k] == c[k] != c[i];
      } else {
        assert c'[k] == c[k + 1] != c[i];
      }
    }
  }
}
