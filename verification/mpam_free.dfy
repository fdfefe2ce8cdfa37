/** Giving the lists back, and what the linking conserves. */
module MpamFree {
  import opened Mpidr
  import opened MpamLists

  /** All cells of the first p chains, in the order they are freed. */
  ghost function Concat(chains: seq<seq<Cell>>, p: nat): (cells: seq<Cell>)
    requires p <= |chains|
  {
    if p == 0 then [] else Concat(chains, p - 1) + chains[p - 1]
  }

  /** What is freed is every cell, each once. */
  lemma {:induction false} ConcatCovers(chains: seq<seq<Cell>>, p: nat)
    requires p <= |chains| && DistinctCells(chains)
    ensures Elements(Concat(chains, p)) == CellsOf(chains[..p])
    ensures DistinctCells(chains[..p])
    ensures p < |chains| ==> NoRepeat(chains[p]) && Elements(chains[p]) !! CellsOf(chains[..p])
  {
    if p < |chains| {
      PrefixDistinct(chains, p + 1);
      assert chains[..p + 1][..p] == chains[..p];
    } else {
      assert chains[..p] == chains;
    }
    if p > 0 {
      ConcatCovers(chains, p - 1);
      assert chains[..p][..p - 1] == chains[..p - 1];
    }
  }

  lemma {:induction false} PrefixDistinct(chains: seq<seq<Cell>>, p: nat)
    requires p <= |chains| && DistinctCells(chains)
    ensures DistinctCells(chains[..p])
  {
    if p < |chains| {
      var n := |chains| - 1;
      PrefixDistinct(chains[..n], p);
      assert chains[..n][..p] == chains[..p];
    } else {
      assert chains[..p] == chains;
    }
  }

  /** The inner loop: every cell is read before it is freed, and freed once. */
  method FreeChain(pool: Pool, start: Cell?, ghost chain: seq<Cell>, ghost list: seq<nat>)
    requires Links(start, chain, list) && NoRepeat(chain)
    requires forall c :: c in chain ==> c in pool.handed && c !in pool.freed
    modifies pool`freed
    ensures pool.freed == old(pool.freed) + chain
  {
    LinksLength(start, chain, list);
    var inner := start;
    ghost var k := 0;
    while inner != null
      invariant 0 <= k <= |chain| == |list|
      invariant Links(inner, chain[k..], list[k..]) && NoRepeat(chain[k..])
      invariant forall c :: c in chain[k..] ==> c in pool.handed && c !in pool.freed
      invariant pool.freed == old(pool.freed) + chain[..k]
      decreases |chain| - k
    {
      var temp := inner;
      assert temp == chain[k..][0] && temp !in chain[k..][1..];
      inner := inner.next;
      pool.Free(temp);
      assert chain[k..][1..] == chain[k + 1..] && list[k..][1..] == list[k + 1..];
      assert chain[..k + 1] == chain[..k] + [chain[k]];
      k := k + 1;
    }
    assert chain[..k] == chain;
  }

  /** The cells of the next chain are still there to be freed. */
  lemma {:induction false} ChainReady(chains: seq<seq<Cell>>, p: nat, handed: set<object>, freed: seq<object>)
    requires DistinctCells(chains) && p < |chains|
    requires CellsOf(chains) <= handed && forall c :: c in CellsOf(chains) ==> c !in freed
    ensures NoRepeat(chains[p])
    ensures forall c :: c in chains[p] ==> c in handed && c !in freed + Concat(chains, p)
  {
    ConcatCovers(chains, p);
    forall c | c in chains[p]
      ensures c in handed && c !in freed + Concat(chains, p)
    {
      assert c in Elements(chains[p]) && c in CellsOf(chains);
      assert c !in Elements(Concat(chains, p));
    }
  }

  lemma {:induction false} ConcatNext(chains: seq<seq<Cell>>, p: nat, freed: seq<object>)
    requires p < |chains|
    ensures freed + Concat(chains, p + 1) == freed + Concat(chains, p) + chains[p]
  {
  }

  /** The body of the outer loop, for PE p. */
  method FreeList(pool: Pool, heads: Heads, p: nat, ghost chains: seq<seq<Cell>>, ghost lists: seq<seq<nat>>,
                  ghost freed: seq<object>)
    requires Holds(heads, chains, lists) && p < |lists| && lists[p] != []
    requires CellsOf(chains) <= pool.handed && forall c :: c in CellsOf(chains) ==> c !in freed
    requires pool.freed == freed + Concat(chains, p)
    modifies pool`freed
    ensures pool.freed == freed + Concat(chains, p + 1)
  {
    ChainReady(chains, p, pool.handed, freed);
    assert HoldsList(heads, p, chains[p], ListOrder(lists[p]));
    var start := heads.next[p];
    ghost var chain, list := chains[p], ListOrder(lists[p])[1..];
    assert Links(start, chain, list);
    assert forall c :: c in chain ==> c in pool.handed && c !in pool.freed;
    FreeChain(pool, start, chain, list);
    ConcatNext(chains, p, freed);
  }

  /** The block of heads is no list cell. */
  lemma {:induction false} HeadsNotFreed(heads: Heads, chains: seq<seq<Cell>>, before: seq<object>)
    requires heads !in before
    ensures heads !in before + Concat(chains, |chains|)
  {
    assert forall c :: c in Concat(chains, |chains|) ==> c as object != heads;
  }

  /** FreePrivateCaches: each PE's cells, then the block of heads. */
  method FreePrivateCaches(pool: Pool, heads: Heads, ghost chains: seq<seq<Cell>>, ghost lists: seq<seq<nat>>)
    requires Holds(heads, chains, lists)
    requires forall p :: 0 <= p < |lists| ==> lists[p] != []
    requires CellsOf(chains) + {heads} <= pool.handed
    requires forall c :: c in CellsOf(chains) ==> c !in pool.freed
    requires heads !in pool.freed
    modifies pool`freed
    ensures pool.freed == old(pool.freed) + Concat(chains, |chains|) + [heads]
  {
    ghost var before := pool.freed;
    for p := 0 to heads.cache.Length
      invariant pool.freed == before + Concat(chains, p)
    {
      FreeList(pool, heads, p, chains, lists, before);
    }
    HeadsNotFreed(heads, chains, before);
    pool.Free(heads);
  }

  function CountPrivate(nodes: seq<CfgNode>, k: nat): nat
    requires k <= |nodes|
  {
    if k == 0 then 0 else CountPrivate(nodes, k - 1) + if nodes[k - 1].nodeScope == SCOPE_PRIVATE then 1 else 0
  }

  function TotalLength(lists: seq<seq<nat>>): nat {
    if |lists| == 0 then 0 else TotalLength(lists[..|lists| - 1]) + |lists[|lists| - 1]|
  }

  lemma {:induction false} TotalAfterAppend(lists: seq<seq<nat>>, p: nat, x: nat)
    requires p < |lists|
    ensures TotalLength(lists[p := lists[p] + [x]]) == TotalLength(lists) + 1
  {
    var n := |lists| - 1;
    var after := lists[p := lists[p] + [x]];
    if p == n {
      assert after[..n] == lists[..n];
    } else {
      assert after[..n] == lists[..n][p := lists[..n][p] + [x]];
      TotalAfterAppend(lists[..n], p, x);
    }
  }

  lemma {:induction false} EmptiesTotal(n: nat)
    ensures TotalLength(Empties(n)) == 0
  {
    if n > 0 {
      EmptiesTotal(n - 1);
      assert Empties(n)[..n - 1] == Empties(n - 1);
    }
  }

  lemma {:induction false} CountAfterAppend(s: seq<nat>, x: nat, i: nat)
    ensures multiset(s + [x])[i] == multiset(s)[i] + if i == x then 1 else 0
  {
  }

  lemma {:induction false} OwnNodesOnce(nodes: seq<CfgNode>, table: seq<PeEntry>, k: nat, i: nat, p: nat)
    requires Numbered(table) && |table| > 0 && k <= |nodes| && i < |nodes| && p < |table|
    ensures multiset(PrivateNodes(nodes, table, p, k))[i] == if i < k && IsPrivateOf(nodes, table, i, p) then 1 else 0
  {
    if k > 0 {
      OwnNodesOnce(nodes, table, k - 1, i, p);
      CountAfterAppend(PrivateNodes(nodes, table, p, k - 1), k - 1, i);
    }
  }

  /** Every private node is in its own PE's list, once, and in no other; no other node is in any. */
  lemma {:induction false} LandsExactlyOnce(nodes: seq<CfgNode>, table: seq<PeEntry>, i: nat, p: nat)
    requires Numbered(table) && |table| > 0 && i < |nodes| && p < |table|
    ensures multiset(PrivateLists(nodes, table, |nodes|)[p])[i] == if IsPrivateOf(nodes, table, i, p) then 1 else 0
  {
    DealtExactly(nodes, table, |nodes|);
    OwnNodesOnce(nodes, table, |nodes|, i, p);
  }

  /** The lists together are as long as there are private nodes. */
  lemma {:induction false} LengthsConserve(nodes: seq<CfgNode>, table: seq<PeEntry>, k: nat)
    requires Numbered(table) && |table| > 0 && k <= |nodes|
    ensures TotalLength(PrivateLists(nodes, table, k)) == CountPrivate(nodes, k)
  {
    if k == 0 {
      EmptiesTotal(|table|);
    } else {
      LengthsConserve(nodes, table, k - 1);
      if nodes[k - 1].nodeScope == SCOPE_PRIVATE {
        TotalAfterAppend(PrivateLists(nodes, table, k - 1), PeOf(table, nodes[k - 1]), k - 1);
      }
    }
  }
}
