/** Linking up the private-cache lists from the platform description. */
module MpamBuild {
  import opened Mpidr
  import opened Options
  import opened MpamLists

  lemma {:induction false} ListOrderInsert(s: seq<nat>, x: nat)
    requires |s| > 0
    ensures ListOrder(s + [x]) == [s[0], x] + ListOrder(s)[1..]
  {
    var t := s + [x];
    assert t[1..][..|t[1..]| - 1] == s[1..];
    assert t[1..][|t[1..]| - 1] == x;
  }

  /** A new cell at the front of one chain, found in none before, keeps all cells distinct. */
  lemma {:induction false} DistinctInsert(chains: seq<seq<Cell>>, p: nat, cell: Cell)
    requires DistinctCells(chains) && p < |chains| && cell !in CellsOf(chains)
    ensures DistinctCells(chains[p := [cell] + chains[p]])
    ensures CellsOf(chains[p := [cell] + chains[p]]) == CellsOf(chains) + {cell}
  {
    var longer := [cell] + chains[p];
    var after := chains[p := longer];
    var n := |chains| - 1;
    if p == n {
      assert after[..n] == chains[..n];
      assert longer[1..] == chains[p];
      assert Elements(longer) == Elements(chains[p]) + {cell};
    } else {
      assert chains[..n][p] == chains[p];
      assert after[..n] == chains[..n][p := longer];
      DistinctInsert(chains[..n], p, cell);
    }
  }

  /** One private node goes to its PE: the head when that is free, else right behind the head. */
  method InsertAtHead(pool: Pool, heads: Heads, p: nat, node: nat, ghost chain: seq<Cell>, ghost list: seq<nat>)
    returns (ghost longer: seq<Cell>)
    requires p < heads.cache.Length == heads.next.Length && heads.cache as object != heads.next
    requires HoldsList(heads, p, chain, ListOrder(list))
    modifies pool, heads.cache, heads.next
    ensures forall q :: 0 <= q < heads.cache.Length && q != p ==>
                          heads.cache[q] == old(heads.cache[q]) && heads.next[q] == old(heads.next[q])
    ensures HoldsList(heads, p, longer, ListOrder(list + [node]))
    ensures if |list| == 0 then longer == chain && pool.handed == old(pool.handed)
            else |longer| > 0 && longer[0] !in old(pool.handed) && longer == [longer[0]] + chain &&
                 pool.handed == old(pool.handed) + {longer[0]}
    ensures pool.freed == old(pool.freed)
  {
    if heads.cache[p] == None {
      heads.cache[p] := Some(node);
      heads.next[p] := null;
      longer := chain;
      assert list + [node] == [node];
    } else {
      var next := heads.next[p];
      var cell := pool.AllocateCell(node, next);
      heads.next[p] := cell;
      longer := [cell] + chain;
      ListOrderInsert(list, node);
      assert longer[1..] == chain;
      assert Links(cell, longer, ListOrder(list + [node])[1..]);
    }
  }

  /** The same, seen from all the lists: the other PEs' lists do not notice. */
  method InsertAmong(pool: Pool, heads: Heads, p: nat, node: nat, ghost chains: seq<seq<Cell>>,
                     ghost lists: seq<seq<nat>>)
    returns (ghost longer: seq<Cell>)
    requires Lists(heads, chains, lists) && p < |lists|
    modifies pool, heads.cache, heads.next
    ensures Lists(heads, chains[p := longer], lists[p := lists[p] + [node]])
    ensures if |lists[p]| == 0 then longer == chains[p] && pool.handed == old(pool.handed)
            else |longer| > 0 && longer[0] !in old(pool.handed) && longer == [longer[0]] + chains[p] &&
                 pool.handed == old(pool.handed) + {longer[0]}
    ensures pool.freed == old(pool.freed)
  {
    ghost var chain, list := chains[p], lists[p];
    assert HoldsList(heads, p, chain, ListOrder(list));
    longer := InsertAtHead(pool, heads, p, node, chain, list);
    forall q | 0 <= q < |lists| && q != p
      ensures HoldsList(heads, q, chains[q], ListOrder(lists[q]))
    {
      var list := ListOrder(lists[q]);
      assert old(HoldsList(heads, q, chains[q], list));
      assert |list| > 0 ==> old(Links(heads.next[q], chains[q], list[1..]));
      assert |list| > 0 ==> Links(heads.next[q], chains[q], list[1..]);
    }
  }

  /** Beyond what was handed out before, base, exactly the cells of the chains have been. */
  ghost predicate HandedOut(base: set<object>, handed: set<object>, cells: set<Cell>) {
    handed == base + cells && cells !! base
  }

  lemma {:induction false} HandOutOne(base: set<object>, handed: set<object>, chains: seq<seq<Cell>>, p: nat,
                                      longer: seq<Cell>)
    requires HandedOut(base, handed, CellsOf(chains)) && DistinctCells(chains) && p < |chains|
    requires |longer| > 0 && longer == [longer[0]] + chains[p] && longer[0] !in handed
    ensures HandedOut(base, handed + {longer[0]}, CellsOf(chains[p := longer]))
    ensures DistinctCells(chains[p := longer])
  {
    DistinctInsert(chains, p, longer[0]);
  }

  method InsertPrivate(pool: Pool, heads: Heads, p: nat, node: nat, ghost chains: seq<seq<Cell>>,
                       ghost lists: seq<seq<nat>>, ghost base: set<object>)
    returns (ghost after: seq<seq<Cell>>)
    requires p < |lists| && Holds(heads, chains, lists) && HandedOut(base, pool.handed, CellsOf(chains))
    modifies pool, heads.cache, heads.next
    ensures Holds(heads, after, lists[p := lists[p] + [node]])
    ensures HandedOut(base, pool.handed, CellsOf(after)) && pool.freed == old(pool.freed)
  {
    ghost var longer := InsertAmong(pool, heads, p, node, chains, lists);
    after := chains[p := longer];
    if |lists[p]| > 0 {
      HandOutOne(base, old(pool.handed), chains, p, longer);
    } else {
      assert after == chains;
    }
  }

  ghost function NoCells(n: nat): (chains: seq<seq<Cell>>)
    ensures |chains| == n && DistinctCells(chains) && CellsOf(chains) == {}
    ensures forall p :: 0 <= p < n ==> chains[p] == []
  {
    if n == 0 then [] else
    var chains := NoCells(n - 1);
    assert (chains + [[]])[..n - 1] == chains;
    chains + [[]]
  }

  method CountClusters(nodes: seq<CfgNode>) returns (count: nat)
    ensures count == |ClusterNodes(nodes, |nodes|)|
  {
    count := 0;
    for k := 0 to |nodes|
      invariant count == |ClusterNodes(nodes, k)|
    {
      if nodes[k].nodeScope == SCOPE_CLUSTER {
        count := count + 1;
      }
    }
  }

  /** A longer prefix has no fewer cluster nodes, so the sized array never overflows. */
  lemma {:induction false} ClustersGrow(nodes: seq<CfgNode>, j: nat, k: nat)
    requires j <= k <= |nodes|
    ensures ClusterNodes(nodes, j) <= ClusterNodes(nodes, k)
  {
    if j < k {
      ClustersGrow(nodes, j, k - 1);
    }
  }

  method SetPeInfoNull(heads: Heads)
    modifies heads.cache
    ensures forall q :: 0 <= q < heads.cache.Length ==> heads.cache[q] == None
  {
    for p := 0 to heads.cache.Length
      modifies heads.cache
      invariant forall q :: 0 <= q < p ==> heads.cache[q] == None
    {
      heads.cache[p] := None;
    }
  }

  /** The branch of the loop below that handles a private node. */
  method LinkPrivate(nodes: seq<CfgNode>, table: seq<PeEntry>, k: nat, pool: Pool, heads: Heads,
                     ghost chains: seq<seq<Cell>>, ghost base: set<object>)
    returns (ghost after: seq<seq<Cell>>)
    requires Numbered(table) && |table| > 0
    requires k < |nodes| && nodes[k].nodeScope == SCOPE_PRIVATE
    requires Holds(heads, chains, PrivateLists(nodes, table, k))
    requires HandedOut(base, pool.handed, CellsOf(chains))
    modifies pool, heads.cache, heads.next
    ensures Holds(heads, after, PrivateLists(nodes, table, k + 1))
    ensures HandedOut(base, pool.handed, CellsOf(after)) && pool.freed == old(pool.freed)
    ensures ClusterNodes(nodes, k + 1) == ClusterNodes(nodes, k) && SystemNode(nodes, k + 1) == SystemNode(nodes, k)
  {
    var p := GetIndexOfMpid(table, nodes[k].mpidr, 0);
    after := InsertPrivate(pool, heads, p, k, chains, PrivateLists(nodes, table, k), base);
  }

  /** The cluster pointers filled so far and the system pointer, after k nodes. */
  ghost predicate Shared(nodes: seq<CfgNode>, k: nat, clusters: array<nat>, clusterIndex: nat, system: Option<nat>)
    requires k <= |nodes|
    reads clusters
  {
    clusterIndex <= clusters.Length == |ClusterNodes(nodes, |nodes|)| &&
    clusters[..clusterIndex] == ClusterNodes(nodes, k) && system == SystemNode(nodes, k)
  }

  /** The branches of the loop below that handle the other nodes. */
  method PlaceShared(nodes: seq<CfgNode>, ghost table: seq<PeEntry>, k: nat, clusters: array<nat>,
                     clusterIndex: nat, system: Option<nat>)
    returns (newIndex: nat, newSystem: Option<nat>)
    requires Numbered(table) && |table| > 0
    requires k < |nodes| && nodes[k].nodeScope != SCOPE_PRIVATE
    requires Shared(nodes, k, clusters, clusterIndex, system)
    modifies clusters
    ensures Shared(nodes, k + 1, clusters, newIndex, newSystem)
    ensures PrivateLists(nodes, table, k + 1) == PrivateLists(nodes, table, k)
  {
    newIndex, newSystem := clusterIndex, system;
    ClustersGrow(nodes, k + 1, |nodes|);
    if nodes[k].nodeScope == SCOPE_CLUSTER {
      clusters[newIndex] := k;
      newIndex := newIndex + 1;
    } else {
      newSystem := Some(k);
    }
  }

  /** The allocations before the loop: NULL heads, and one cluster pointer per cluster node. */
  method Prepare(nodes: seq<CfgNode>, table: seq<PeEntry>, pool: Pool)
    returns (heads: Heads, clusters: array<nat>, ghost chains: seq<seq<Cell>>)
    requires Numbered(table) && |table| > 0
    modifies pool
    ensures fresh(heads) && fresh(heads.cache) && fresh(heads.next) && fresh(clusters)
    ensures Holds(heads, chains, PrivateLists(nodes, table, 0)) && CellsOf(chains) == {}
    ensures clusters.Length == |ClusterNodes(nodes, |nodes|)|
    ensures pool.handed == old(pool.handed) + {heads, clusters} && pool.freed == old(pool.freed)
  {
    var clusterCount := CountClusters(nodes);
    heads := pool.AllocateHeads(|table|);
    clusters := pool.AllocateNodes(clusterCount);
    SetPeInfoNull(heads);
    chains := NoCells(|table|);
  }

  /** The body of the loop. */
  method PlaceNode(nodes: seq<CfgNode>, table: seq<PeEntry>, k: nat, pool: Pool, heads: Heads, clusters: array<nat>,
                   clusterIndex: nat, system: Option<nat>, ghost chains: seq<seq<Cell>>, ghost base: set<object>)
    returns (newIndex: nat, newSystem: Option<nat>, ghost after: seq<seq<Cell>>)
    requires Numbered(table) && |table| > 0 && k < |nodes|
    requires Holds(heads, chains, PrivateLists(nodes, table, k))
    requires HandedOut(base, pool.handed, CellsOf(chains))
    requires Shared(nodes, k, clusters, clusterIndex, system)
    modifies pool, heads.cache, heads.next, clusters
    ensures Holds(heads, after, PrivateLists(nodes, table, k + 1))
    ensures Shared(nodes, k + 1, clusters, newIndex, newSystem)
    ensures HandedOut(base, pool.handed, CellsOf(after)) && pool.freed == old(pool.freed)
  {
    newIndex, newSystem, after := clusterIndex, system, chains;
    if nodes[k].nodeScope == SCOPE_PRIVATE {
      after := LinkPrivate(nodes, table, k, pool, heads, chains, base);
    } else {
      newIndex, newSystem := PlaceShared(nodes, table, k, clusters, clusterIndex, system);
    }
  }

  lemma {:induction false} SharedStart(nodes: seq<CfgNode>, clusters: array<nat>)
    requires clusters.Length == |ClusterNodes(nodes, |nodes|)|
    ensures Shared(nodes, 0, clusters, 0, None)
  {
  }

  lemma {:induction false} SharedDone(nodes: seq<CfgNode>, clusters: array<nat>, clusterIndex: nat, system: Option<nat>)
    requires Shared(nodes, |nodes|, clusters, clusterIndex, system)
    ensures clusters[..] == ClusterNodes(nodes, |nodes|) && system == SystemNode(nodes, |nodes|)
  {
  }

  /** The first loop of FillMpamInfoTable. */
  method DealNodes(nodes: seq<CfgNode>, table: seq<PeEntry>, pool: Pool, heads: Heads, clusters: array<nat>,
                   ghost noCells: seq<seq<Cell>>, ghost base: set<object>)
    returns (system: Option<nat>, clusterIndex: nat, ghost chains: seq<seq<Cell>>)
    requires Numbered(table) && |table| > 0
    requires Holds(heads, noCells, PrivateLists(nodes, table, 0)) && Shared(nodes, 0, clusters, 0, None)
    requires HandedOut(base, pool.handed, CellsOf(noCells))
    modifies pool, heads.cache, heads.next, clusters
    ensures Holds(heads, chains, PrivateLists(nodes, table, |nodes|))
    ensures Shared(nodes, |nodes|, clusters, clusterIndex, system)
    ensures HandedOut(base, pool.handed, CellsOf(chains)) && pool.freed == old(pool.freed)
  {
    chains, system := noCells, None;
    clusterIndex := 0;
    for k := 0 to |nodes|
      invariant Holds(heads, chains, PrivateLists(nodes, table, k))
      invariant Shared(nodes, k, clusters, clusterIndex, system)
      invariant HandedOut(base, pool.handed, CellsOf(chains)) && pool.freed == old(pool.freed)
    {
      clusterIndex, system, chains :=
        PlaceNode(nodes, table, k, pool, heads, clusters, clusterIndex, system, chains, base);
    }
  }

  /** Allocation and linking together. */
  method BuildLists(nodes: seq<CfgNode>, table: seq<PeEntry>, pool: Pool)
    returns (heads: Heads, clusters: array<nat>, system: Option<nat>, ghost chains: seq<seq<Cell>>)
    requires Numbered(table) && |table| > 0
    modifies pool
    ensures fresh(heads) && fresh(heads.cache) && fresh(heads.next) && fresh(clusters)
    ensures Holds(heads, chains, PrivateLists(nodes, table, |nodes|))
    ensures clusters[..] == ClusterNodes(nodes, |nodes|) && system == SystemNode(nodes, |nodes|)
    ensures HandedOut(old(pool.handed) + {heads, clusters}, pool.handed, CellsOf(chains))
    ensures pool.freed == old(pool.freed)
  {
    ghost var noCells;
    heads, clusters, noCells := Prepare(nodes, table, pool);
    SharedStart(nodes, clusters);
    var clusterIndex;
    system, clusterIndex, chains := DealNodes(nodes, table, pool, heads, clusters, noCells, pool.handed);
    SharedDone(nodes, clusters, clusterIndex, system);
  }
}
