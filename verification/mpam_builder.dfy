/** FillMpamInfoTable as a whole: link the lists, fill the table, free the lists. */
module MpamBuilder {
  import opened Mpidr
  import opened Options
  import opened MpamLists
  import opened MpamBuild
  import opened MpamTable
  import opened MpamFree

  /** Every PE is described, and none needs more room than the first, whose count sizes all arrays. */
  ghost predicate Fits(nodes: seq<CfgNode>, lists: seq<seq<nat>>, clusters: seq<nat>, system: Option<nat>, current: nat)
  {
    forall p :: 0 <= p < |lists| ==>
                  Described(nodes, lists[p], clusters, system, current) &&
                  NodeCount(nodes, lists[p], current) <= NodeCount(nodes, lists[0], current)
  }

  lemma {:induction false} FitsAt(nodes: seq<CfgNode>, lists: seq<seq<nat>>, clusters: seq<nat>, system: Option<nat>,
                                  current: nat)
    requires Fits(nodes, lists, clusters, system, current)
    ensures forall p :: 0 <= p < |lists| ==> lists[p] != []
  {
  }

  /** The row of PE p. */
  function RowAt(nodes: seq<CfgNode>, lists: seq<seq<nat>>, p: nat, clusters: seq<nat>, system: Option<nat>,
                 current: nat): seq<CacheEntry>
    requires p < |lists| && Fits(nodes, lists, clusters, system, current)
  {
    RowOf(nodes, lists[p], clusters, system, current)
  }

  function AllRows(nodes: seq<CfgNode>, lists: seq<seq<nat>>, clusters: seq<nat>, system: Option<nat>, current: nat):
    (rows: seq<seq<CacheEntry>>)
    requires Fits(nodes, lists, clusters, system, current)
    ensures |rows| == |lists|
  {
    seq(|lists|, p requires 0 <= p < |lists| => RowAt(nodes, lists, p, clusters, system, current))
  }

  /** The table so far holds the first of these rows. */
  ghost predicate HoldRows(infos: seq<MpamInfo>, rows: seq<seq<CacheEntry>>)
    reads set i | 0 <= i < |infos| :: infos[i].cacheNode
  {
    |infos| <= |rows| && forall p :: 0 <= p < |infos| ==> HoldsRow(infos[p], rows[p])
  }

  lemma {:induction false} HoldOneMore(infos: seq<MpamInfo>, rows: seq<seq<CacheEntry>>, info: MpamInfo)
    requires HoldRows(infos, rows) && |infos| < |rows| && HoldsRow(info, rows[|infos|])
    ensures HoldRows(infos + [info], rows)
  {
    var more := infos + [info];
    forall p | 0 <= p < |more|
      ensures HoldsRow(more[p], rows[p])
    {
      if p < |infos| {
        assert more[p] == infos[p];
      } else {
        assert more[p] == info;
      }
    }
  }

  /** The body of the loop below. */
  method FillNext(nodes: seq<CfgNode>, heads: Heads, p: nat, clusters: array<nat>, system: Option<nat>, current: nat,
                  infos: seq<MpamInfo>, ghost chains: seq<seq<Cell>>, ghost lists: seq<seq<nat>>, ghost cs: seq<nat>,
                  ghost rows: seq<seq<CacheEntry>>)
    returns (more: seq<MpamInfo>)
    requires cs == clusters[..]
    requires Lists(heads, chains, lists) && Fits(nodes, lists, cs, system, current)
    requires p == |infos| < |lists| == |rows| && rows[p] == RowAt(nodes, lists, p, cs, system, current)
    requires HoldRows(infos, rows)
    requires p > 0 ==> infos[0].numCacheNodes == NodeCount(nodes, lists[0], current)
    ensures |more| == p + 1 && HoldRows(more, rows)
    ensures more[0].numCacheNodes == NodeCount(nodes, lists[0], current)
  {
    ghost var chain, list := chains[p], lists[p];
    assert HoldsList(heads, p, chain, ListOrder(list));
    var size := if p == 0 then None else Some(infos[0].numCacheNodes);
    var info := FillPe(nodes, heads, p, clusters, system, current, size, chain, list);
    HoldOneMore(infos, rows, info);
    more := infos + [info];
  }

  /** The second loop of FillMpamInfoTable. */
  method FillRows(nodes: seq<CfgNode>, heads: Heads, clusters: array<nat>, system: Option<nat>, current: nat,
                  ghost chains: seq<seq<Cell>>, ghost lists: seq<seq<nat>>, ghost cs: seq<nat>)
    returns (infos: seq<MpamInfo>)
    requires cs == clusters[..]
    requires Lists(heads, chains, lists) && Fits(nodes, lists, cs, system, current)
    ensures |infos| == |lists| && HoldRows(infos, AllRows(nodes, lists, cs, system, current))
  {
    infos := [];
    ghost var rows := AllRows(nodes, lists, cs, system, current);
    for p := 0 to heads.cache.Length
      invariant |infos| == p && HoldRows(infos, rows)
      invariant p > 0 ==> infos[0].numCacheNodes == NodeCount(nodes, lists[0], current)
    {
      infos := FillNext(nodes, heads, p, clusters, system, current, infos, chains, lists, cs, rows);
    }
  }

  lemma {:induction false} NotACell(chains: seq<seq<Cell>>, block: array<nat>)
    ensures block as object !in Concat(chains, |chains|)
  {
  }

  /** The end of FillMpamInfoTable: the lists and the cluster pointers go back to the pool. */
  method FreeScratch(pool: Pool, heads: Heads, clusters: array<nat>, ghost chains: seq<seq<Cell>>,
                     ghost lists: seq<seq<nat>>, ghost base: set<object>)
    requires Holds(heads, chains, lists)
    requires forall p :: 0 <= p < |lists| ==> lists[p] != []
    requires HandedOut(base + {heads, clusters}, pool.handed, CellsOf(chains))
    requires forall b :: b in pool.freed ==> b in base
    requires heads !in base && clusters !in base
    modifies pool`freed
    ensures pool.freed == old(pool.freed) + Concat(chains, |chains|) + [heads] + [clusters]
  {
    FreePrivateCaches(pool, heads, chains, lists);
    NotACell(chains, clusters);
    pool.Free(clusters);
  }

  ghost predicate WellDescribed(nodes: seq<CfgNode>, table: seq<PeEntry>, current: nat)
    requires Numbered(table) && |table| > 0
  {
    Fits(nodes, PrivateLists(nodes, table, |nodes|), ClusterNodes(nodes, |nodes|), SystemNode(nodes, |nodes|), current)
  }

  /** The rows the builder fills in. */
  function TableRows(nodes: seq<CfgNode>, table: seq<PeEntry>, current: nat): (rows: seq<seq<CacheEntry>>)
    requires Numbered(table) && |table| > 0 && WellDescribed(nodes, table, current)
    ensures |rows| == |table|
  {
    AllRows(nodes, PrivateLists(nodes, table, |nodes|), ClusterNodes(nodes, |nodes|), SystemNode(nodes, |nodes|),
            current)
  }

  // ---------------------------------------------------------------- what the rows hold, from the description

  predicate IsFirstOf(nodes: seq<CfgNode>, table: seq<PeEntry>, p: nat, n: nat)
    requires Numbered(table) && |table| > 0 && n < |nodes|
  {
    IsPrivateOf(nodes, table, n, p) && OwnBefore(nodes, table, p, n) == 0
  }

  /** PE p's first private node carries the current MPIDR. */
  ghost predicate IsPrimaryPe(nodes: seq<CfgNode>, table: seq<PeEntry>, current: nat, p: nat)
    requires Numbered(table) && |table| > 0
  {
    exists n :: 0 <= n < |nodes| && IsFirstOf(nodes, table, p, n) && nodes[n].mpidr == current
  }

  /** A cluster node with the Aff1 to Aff3 of PE p's first private node. */
  ghost predicate IsClusterOf(nodes: seq<CfgNode>, table: seq<PeEntry>, p: nat, n: nat)
    requires Numbered(table) && |table| > 0 && n < |nodes|
  {
    nodes[n].nodeScope == SCOPE_CLUSTER &&
    exists f :: 0 <= f < |nodes| && IsFirstOf(nodes, table, p, f) && SameCluster(nodes[n].mpidr, nodes[f].mpidr)
  }

  /**
    Entry i of PE p's array is for node n: the private nodes, the first one in front and the others
    from the last to the second, then the first node of the cluster, then the last system node.
   */
  ghost predicate EntryNode(nodes: seq<CfgNode>, table: seq<PeEntry>, p: nat, i: nat, n: nat)
    requires Numbered(table) && |table| > 0 && n < |nodes|
  {
    var own := OwnBefore(nodes, table, p, |nodes|);
    if i < own then
      IsPrivateOf(nodes, table, n, p) && OwnBefore(nodes, table, p, n) == if i == 0 then 0 else own - i
    else if i == own then
      IsClusterOf(nodes, table, p, n) && forall m :: 0 <= m < n ==> !IsClusterOf(nodes, table, p, m)
    else
      IsSystem(nodes[n]) && forall m :: n < m < |nodes| ==> !IsSystem(nodes[m])
  }

  /** The entry carries all data of its node. */
  ghost predicate EntryFor(nodes: seq<CfgNode>, table: seq<PeEntry>, p: nat, i: nat, entry: CacheEntry)
    requires Numbered(table) && |table| > 0
  {
    exists n :: 0 <= n < |nodes| && EntryNode(nodes, table, p, i, n) && Carries(entry, nodes[n])
  }

  /** The private nodes, the cluster's and on the primary PE the system's: one entry for each. */
  ghost predicate RowFor(nodes: seq<CfgNode>, table: seq<PeEntry>, current: nat, p: nat, row: seq<CacheEntry>)
    requires Numbered(table) && |table| > 0
  {
    |row| == OwnBefore(nodes, table, p, |nodes|) + (if IsPrimaryPe(nodes, table, current, p) then 2 else 1) &&
    forall i :: 0 <= i < |row| ==> EntryFor(nodes, table, p, i, row[i])
  }

  /** The list is PE p's private nodes, in the order of the description. */
  ghost predicate AreOwn(nodes: seq<CfgNode>, table: seq<PeEntry>, p: nat, list: seq<nat>)
    requires Numbered(table) && |table| > 0
  {
    |list| == OwnBefore(nodes, table, p, |nodes|) &&
    (forall m :: 0 <= m < |list| ==> list[m] < |nodes| && IsPrivateOf(nodes, table, list[m], p) &&
                                     OwnBefore(nodes, table, p, list[m]) == m) &&
    forall n :: 0 <= n < |nodes| && IsFirstOf(nodes, table, p, n) ==> |list| > 0 && n == list[0]
  }

  lemma {:induction false} OwnNodes(nodes: seq<CfgNode>, table: seq<PeEntry>, p: nat)
    requires Numbered(table) && p < |table|
    ensures AreOwn(nodes, table, p, PrivateLists(nodes, table, |nodes|)[p])
  {
    DealtExactly(nodes, table, |nodes|);
    var list := PrivateNodes(nodes, table, p, |nodes|);
    forall m | 0 <= m < |list|
      ensures OwnBefore(nodes, table, p, list[m]) == m
    {
      PrivateNodesAt(nodes, table, p, |nodes|, m);
    }
    PrivateNodesAt(nodes, table, p, |nodes|, 0);
    forall n | 0 <= n < |nodes| && IsFirstOf(nodes, table, p, n)
      ensures |list| > 0 && n == list[0]
    {
      FirstIsUnique(nodes, table, p, |nodes|, n);
    }
  }

  lemma {:induction false} FirstIsUnique(nodes: seq<CfgNode>, table: seq<PeEntry>, p: nat, k: nat, n: nat)
    requires Numbered(table) && |table| > 0 && n < k <= |nodes| && IsFirstOf(nodes, table, p, n)
    ensures |PrivateNodes(nodes, table, p, k)| > 0 && PrivateNodes(nodes, table, p, k)[0] == n
  {
    if n < k - 1 {
      FirstIsUnique(nodes, table, p, k - 1, n);
    } else {
      PrivateNodesAt(nodes, table, p, n, 0);
    }
  }

  lemma {:induction false} ClusterEntry(nodes: seq<CfgNode>, table: seq<PeEntry>, p: nat, first: nat, c: nat)
    requires Numbered(table) && |table| > 0 && first < |nodes| && IsFirstOf(nodes, table, p, first)
    requires forall n :: 0 <= n < |nodes| && IsFirstOf(nodes, table, p, n) ==> n == first
    requires ClusterOf(nodes, ClusterNodes(nodes, |nodes|), nodes[first].mpidr) == Some(c)
    ensures c < |nodes| && IsClusterOf(nodes, table, p, c)
    ensures forall m :: 0 <= m < c ==> !IsClusterOf(nodes, table, p, m)
  {
    var clusters := ClusterNodes(nodes, |nodes|);
    ClusterNodesExact(nodes, |nodes|);
    ClusterOfIsFirst(nodes, clusters, nodes[first].mpidr);
    ClusterIdIff(nodes[c].mpidr, nodes[first].mpidr);
    forall m | 0 <= m < c
      ensures !IsClusterOf(nodes, table, p, m)
    {
      ClusterIdIff(nodes[m].mpidr, nodes[first].mpidr);
      if nodes[m].nodeScope == SCOPE_CLUSTER {
        assert m in clusters;
      }
    }
  }

  lemma {:induction false} EntryRight(nodes: seq<CfgNode>, table: seq<PeEntry>, p: nat, list: seq<nat>, cluster: nat,
                                      system: Option<nat>, i: nat)
    requires Numbered(table) && |table| > 0 && AreOwn(nodes, table, p, list) && |list| > 0
    requires ClusterOf(nodes, ClusterNodes(nodes, |nodes|), nodes[list[0]].mpidr) == Some(cluster)
    requires system.Some? ==> system == SystemNode(nodes, |nodes|)
    requires i < |list| + 1 + if system.Some? then 1 else 0
    ensures SourceOf(list, cluster, system, i) < |nodes|
    ensures EntryNode(nodes, table, p, i, SourceOf(list, cluster, system, i))
  {
    if i == |list| {
      ClusterEntry(nodes, table, p, list[0], cluster);
    }
  }

  lemma {:induction false} RowRight(nodes: seq<CfgNode>, table: seq<PeEntry>, p: nat, list: seq<nat>, cluster: nat,
                                    system: Option<nat>, row: seq<CacheEntry>)
    requires Numbered(table) && |table| > 0 && AreOwn(nodes, table, p, list) && |list| > 0
    requires ClusterOf(nodes, ClusterNodes(nodes, |nodes|), nodes[list[0]].mpidr) == Some(cluster)
    requires system.Some? ==> system == SystemNode(nodes, |nodes|)
    requires Indices(nodes, ListOrder(list)) && cluster < |nodes| && row == Row(nodes, ListOrder(list), cluster, system)
    ensures forall i :: 0 <= i < |row| ==> EntryFor(nodes, table, p, i, row[i])
  {
    forall i | 0 <= i < |row|
      ensures EntryFor(nodes, table, p, i, row[i])
    {
      RowMeaning(nodes, list, cluster, system, i);
      EntryRight(nodes, table, p, list, cluster, system, i);
    }
  }

  lemma {:induction false} RowOfRight(nodes: seq<CfgNode>, table: seq<PeEntry>, current: nat, p: nat, list: seq<nat>,
                                      clusters: seq<nat>, system: Option<nat>)
    requires Numbered(table) && |table| > 0 && AreOwn(nodes, table, p, list)
    requires clusters == ClusterNodes(nodes, |nodes|) && system == SystemNode(nodes, |nodes|)
    requires Described(nodes, list, clusters, system, current)
    ensures RowFor(nodes, table, current, p, RowOf(nodes, list, clusters, system, current))
  {
    OrderIndices(nodes, list);
    var cluster := ClusterOf(nodes, clusters, nodes[list[0]].mpidr).value;
    var last := if IsPrimary(nodes, list, current) then system else None;
    assert IsFirstOf(nodes, table, p, list[0]);
    RowRight(nodes, table, p, list, cluster, last, RowOf(nodes, list, clusters, system, current));
  }

  /** The table holds what follows from the description. */
  ghost predicate TableFor(nodes: seq<CfgNode>, table: seq<PeEntry>, current: nat, infos: seq<MpamInfo>)
    requires Numbered(table) && |table| > 0
    reads set i | 0 <= i < |infos| :: infos[i].cacheNode
  {
    |infos| == |table| &&
    forall p :: 0 <= p < |table| ==>
                  infos[p].numCacheNodes <= infos[p].cacheNode.Length &&
                  RowFor(nodes, table, current, p, infos[p].cacheNode[..infos[p].numCacheNodes])
  }

  /** The rows the builder fills in are the ones that follow from the description. */
  lemma {:induction false} RowsMakeTable(nodes: seq<CfgNode>, table: seq<PeEntry>, current: nat, infos: seq<MpamInfo>)
    requires Numbered(table) && |table| == |infos| > 0 && WellDescribed(nodes, table, current)
    requires HoldRows(infos, TableRows(nodes, table, current))
    ensures TableFor(nodes, table, current, infos)
  {
    var lists, clusters := PrivateLists(nodes, table, |nodes|), ClusterNodes(nodes, |nodes|);
    var system := SystemNode(nodes, |nodes|);
    forall p | 0 <= p < |table|
      ensures infos[p].numCacheNodes <= infos[p].cacheNode.Length
      ensures RowFor(nodes, table, current, p, infos[p].cacheNode[..infos[p].numCacheNodes])
    {
      OwnNodes(nodes, table, p);
      RowOfRight(nodes, table, current, p, lists[p], clusters, system);
      assert HoldsRow(infos[p], TableRows(nodes, table, current)[p]);
    }
  }

  /** Everything but the freeing. */
  method BuildAndFill(nodes: seq<CfgNode>, table: seq<PeEntry>, current: nat, pool: Pool)
    returns (infos: seq<MpamInfo>, heads: Heads, clusters: array<nat>, ghost chains: seq<seq<Cell>>)
    requires Numbered(table) && |table| > 0 && WellDescribed(nodes, table, current)
    modifies pool
    ensures fresh(heads) && fresh(clusters)
    ensures |infos| == |table| && HoldRows(infos, TableRows(nodes, table, current))
    ensures Holds(heads, chains, PrivateLists(nodes, table, |nodes|))
    ensures HandedOut(old(pool.handed) + {heads, clusters}, pool.handed, CellsOf(chains))
    ensures pool.freed == old(pool.freed)
  {
    var system;
    heads, clusters, system, chains := BuildLists(nodes, table, pool);
    infos := FillRows(nodes, heads, clusters, system, current, chains, PrivateLists(nodes, table, |nodes|),
                      ClusterNodes(nodes, |nodes|));
  }

  /**
    The whole builder. What it hands out besides the table is the block of heads, the cluster
    pointers and the list cells, and exactly these it frees, in this order: cells, heads, clusters.
   */
  method FillMpamInfoTable(nodes: seq<CfgNode>, table: seq<PeEntry>, current: nat, pool: Pool)
    returns (infos: seq<MpamInfo>, ghost heads: Heads, ghost clusters: array<nat>, ghost chains: seq<seq<Cell>>)
    requires Numbered(table) && |table| > 0 && WellDescribed(nodes, table, current)
    requires forall b :: b in pool.freed ==> b in pool.handed
    modifies pool
    ensures TableFor(nodes, table, current, infos)
    ensures HandedOut(old(pool.handed) + {heads, clusters}, pool.handed, CellsOf(chains)) && DistinctCells(chains)
    ensures pool.freed == old(pool.freed) + Concat(chains, |chains|) + [heads] + [clusters]
  {
    var h, c;
    infos, h, c, chains := BuildAndFill(nodes, table, current, pool);
    heads, clusters := h, c;
    RowsMakeTable(nodes, table, current, infos);
    ghost var lists := PrivateLists(nodes, table, |nodes|);
    FitsAt(nodes, lists, ClusterNodes(nodes, |nodes|), SystemNode(nodes, |nodes|), current);
    FreeScratch(pool, h, c, chains, lists, old(pool.handed));
  }

  /**
    With the same number of private nodes everywhere and one primary PE, the arrays are large
    enough exactly when the primary is PE 0.
   */
  lemma {:induction false} SymmetricFitsIff(nodes: seq<CfgNode>, lists: seq<seq<nat>>, current: nat, n: nat,
                                            primary: nat)
    requires primary < |lists| && forall p :: 0 <= p < |lists| ==> |lists[p]| == n
    requires forall p :: 0 <= p < |lists| ==> (IsPrimary(nodes, lists[p], current) <==> p == primary)
    ensures (forall p :: 0 <= p < |lists| ==>
                           NodeCount(nodes, lists[p], current) <= NodeCount(nodes, lists[0], current))
       <==> primary == 0
  {
    if primary != 0 {
      assert NodeCount(nodes, lists[primary], current) == n + 2;
      assert NodeCount(nodes, lists[0], current) == n + 1;
    }
  }

  /** When every private node names a PE of the table, the primary is the PE with the current MPIDR. */
  lemma {:induction false} PrimaryIsCurrent(nodes: seq<CfgNode>, table: seq<PeEntry>, current: nat, p: nat)
    requires Numbered(table) && p < |table|
    requires forall i :: 0 <= i < |nodes| && nodes[i].nodeScope == SCOPE_PRIVATE ==>
                           FirstWithMpid(table, nodes[i].mpidr) < |table|
    ensures var list := PrivateLists(nodes, table, |nodes|)[p];
            IsPrimary(nodes, list, current) <==> list != [] && table[p].mpidr == current
  {
    DealtExactly(nodes, table, |nodes|);
    var list := PrivateNodes(nodes, table, p, |nodes|);
    if |list| > 0 {
      assert IsPrivateOf(nodes, table, list[0], p);
      assert nodes[list[0]].mpidr == table[p].mpidr;
    }
  }
}
