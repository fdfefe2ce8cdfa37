/**
  From the lists to the MPAM info table: each PE gets an array with its private caches, its cluster
  cache and, on the primary PE, the system cache.
 */
module MpamTable {
  import opened Mpidr
  import opened Options
  import opened MpamLists

  /** One cache node of the table; the bit-field widths are those of the table's structures. */
  datatype CacheEntry = CacheEntry(
    nodeScope: nat, scopeIndex: nat, lineSize: nat, size: nat, neighbours: seq<nat>,
    allocType: nat, cacheType: nat, writePolicy: nat, reserved: nat,
    hwregBase: nat, notReadyMaxUs: nat, intr: IntrInfo)

  function CopyCacheNode(node: CfgNode): CacheEntry {
    CacheEntry(node.nodeScope % 0x100, node.scopeIndex % 0x100_0000, node.lineSize % 0x1_0000, node.size,
               node.neighbours, node.allocType % 4, node.cacheType % 4, node.writePolicy % 2, node.reserved % 8,
               node.hwregBase, node.notReadyMaxUs, node.intr)
  }

  /** A bit field of the table: what fits is kept, of anything else the low bits. */
  predicate InField(value: nat, field: nat, size: nat) {
    field < size && (value < size ==> field == value)
  }

  /** The table entry carries the node's own data. */
  ghost predicate Carries(entry: CacheEntry, node: CfgNode) {
    entry.hwregBase == node.hwregBase && entry.size == node.size && entry.neighbours == node.neighbours &&
    entry.notReadyMaxUs == node.notReadyMaxUs && entry.intr == node.intr &&
    InField(node.nodeScope, entry.nodeScope, 0x100) && InField(node.scopeIndex, entry.scopeIndex, 0x100_0000) &&
    InField(node.lineSize, entry.lineSize, 0x1_0000) && InField(node.allocType, entry.allocType, 4) &&
    InField(node.cacheType, entry.cacheType, 4) && InField(node.writePolicy, entry.writePolicy, 2) &&
    InField(node.reserved, entry.reserved, 8)
  }

  predicate Indices(nodes: seq<CfgNode>, s: seq<nat>) {
    forall i :: 0 <= i < |s| ==> s[i] < |nodes|
  }

  function Copies(nodes: seq<CfgNode>, s: seq<nat>): (r: seq<CacheEntry>)
    requires Indices(nodes, s)
    ensures |r| == |s|
  {
    if |s| == 0 then [] else Copies(nodes, s[..|s| - 1]) + [CopyCacheNode(nodes[s[|s| - 1]])]
  }

  lemma {:induction false} CopiesAt(nodes: seq<CfgNode>, s: seq<nat>, i: nat)
    requires Indices(nodes, s) && i < |s|
    ensures Copies(nodes, s)[i] == CopyCacheNode(nodes[s[i]])
  {
    if i < |s| - 1 {
      CopiesAt(nodes, s[..|s| - 1], i);
    }
  }

  /** Aff1 to Aff3 of a table-form MPIDR, which name the cluster. */
  function ClusterId(mpidr: nat): nat {
    mpidr / 0x100 % 0x100_0000
  }

  /** Aff1, Aff2 and Aff3 are the same. */
  predicate SameCluster(m: nat, n: nat) {
    forall level: nat :: 1 <= level < 4 ==> AffinityLevel(m, level) == AffinityLevel(n, level)
  }

  /** The cluster part of an MPIDR is made of three bytes. */
  lemma {:induction false} ClusterBytes(m: nat)
    ensures ClusterId(m) == AffinityLevel(m, 1) + 0x100 * AffinityLevel(m, 2) + 0x1_0000 * AffinityLevel(m, 3)
  {
    LowBytes(m / 0x100);
    assert m / 0x1_0000 == m / 0x100 / 0x100 && m / 0x100_0000 == m / 0x100 / 0x1_0000;
    ThreeBytes(ClusterId(m));
  }

  lemma {:induction false} ThreeBytes(c: nat)
    requires c < 0x100_0000
    ensures c == c % 0x100 + 0x100 * (c / 0x100 % 0x100) + 0x1_0000 * (c / 0x1_0000 % 0x100)
  {}

  lemma {:induction false} ClusterIdIff(m: nat, n: nat)
    ensures ClusterId(m) == ClusterId(n) <==> SameCluster(m, n)
  {
    ClusterBytes(m);
    ClusterBytes(n);
    var a1, a2, a3 := AffinityLevel(m, 1), AffinityLevel(m, 2), AffinityLevel(m, 3);
    var b1, b2, b3 := AffinityLevel(n, 1), AffinityLevel(n, 2), AffinityLevel(n, 3);
    assert a1 < 0x100 && a2 < 0x100 && a3 < 0x100 && b1 < 0x100 && b2 < 0x100 && b3 < 0x100;
  }

  /** The first cluster node with the given cluster affinity. */
  function ClusterOf(nodes: seq<CfgNode>, clusters: seq<nat>, mpidr: nat): (c: Option<nat>)
    requires Indices(nodes, clusters)
    ensures c.Some? ==> c.value in clusters && ClusterId(nodes[c.value].mpidr) == ClusterId(mpidr)
    ensures c.None? ==> forall i :: 0 <= i < |clusters| ==> ClusterId(nodes[clusters[i]].mpidr) != ClusterId(mpidr)
  {
    if |clusters| == 0 then None
    else if ClusterId(nodes[clusters[0]].mpidr) == ClusterId(mpidr) then Some(clusters[0])
    else ClusterOf(nodes, clusters[1..], mpidr)
  }

  lemma {:induction false} ClusterOfIsFirst(nodes: seq<CfgNode>, clusters: seq<nat>, mpidr: nat)
    requires Indices(nodes, clusters) && ClusterOf(nodes, clusters, mpidr).Some?
    requires forall m, n :: 0 <= m < n < |clusters| ==> clusters[m] < clusters[n]
    ensures var c := ClusterOf(nodes, clusters, mpidr).value;
            forall m :: 0 <= m < |clusters| && clusters[m] < c ==>
                          ClusterId(nodes[clusters[m]].mpidr) != ClusterId(mpidr)
  {
    if ClusterId(nodes[clusters[0]].mpidr) != ClusterId(mpidr) {
      ClusterOfIsFirst(nodes, clusters[1..], mpidr);
      var c := ClusterOf(nodes, clusters, mpidr).value;
      forall m | 0 <= m < |clusters| && clusters[m] < c
        ensures ClusterId(nodes[clusters[m]].mpidr) != ClusterId(mpidr)
      {
        assert m > 0 ==> clusters[m] == clusters[1..][m - 1];
      }
    }
  }

  method GetClusterNode(nodes: seq<CfgNode>, clusters: array<nat>, mpidr: nat) returns (c: Option<nat>)
    requires Indices(nodes, clusters[..])
    ensures c == ClusterOf(nodes, clusters[..], mpidr)
  {
    var index := 0;
    while index < clusters.Length
      invariant 0 <= index <= clusters.Length
      invariant ClusterOf(nodes, clusters[..], mpidr) == ClusterOf(nodes, clusters[..][index..], mpidr)
    {
      if ClusterId(nodes[clusters[index]].mpidr) == ClusterId(mpidr) {
        return Some(clusters[index]);
      }
      assert clusters[..][index..][1..] == clusters[..][index + 1..];
      index := index + 1;
    }
    return None;
  }

  /** Length of PE p's list, by walking it. */
  method GetCacheCount(heads: Heads, p: nat, ghost chain: seq<Cell>, ghost list: seq<nat>) returns (count: nat)
    requires p < heads.cache.Length == heads.next.Length
    requires |list| > 0 && HoldsList(heads, p, chain, list)
    ensures count == |list|
  {
    var start := heads.next[p];
    ghost var rest := list[1..];
    assert Links(start, chain, rest);
    LinksLength(start, chain, rest);
    count := 1;
    var cell := start;
    while cell != null
      invariant 1 <= count <= |list|
      invariant Links(cell, chain[count - 1..], rest[count - 1..])
      decreases |list| - count
    {
      assert chain[count - 1..][1..] == chain[count..] && rest[count - 1..][1..] == rest[count..];
      cell := cell.next;
      count := count + 1;
    }
  }

  /** What PE p's array is to hold. */
  function Row(nodes: seq<CfgNode>, list: seq<nat>, cluster: nat, system: Option<nat>): (row: seq<CacheEntry>)
    requires Indices(nodes, list) && cluster < |nodes| && (system.Some? ==> system.value < |nodes|)
    ensures |row| == |list| + 1 + if system.Some? then 1 else 0
  {
    Copies(nodes, list) + [CopyCacheNode(nodes[cluster])] +
    if system.Some? then [CopyCacheNode(nodes[system.value])] else []
  }

  /** CopyPrivateCacheNodes: the list, head first, into the front of the array. */
  method CopyPrivateCacheNodes(nodes: seq<CfgNode>, heads: Heads, p: nat, count: nat, dest: array<CacheEntry>,
                               ghost chain: seq<Cell>, ghost list: seq<nat>)
    requires p < heads.cache.Length == heads.next.Length
    requires count == |list| > 0 && HoldsList(heads, p, chain, list) && Indices(nodes, list)
    requires count <= dest.Length
    modifies dest
    ensures dest[..count] == Copies(nodes, list)
  {
    var start := heads.next[p];
    ghost var rest := list[1..];
    assert Links(start, chain, rest);
    LinksLength(start, chain, rest);
    dest[0] := CopyCacheNode(nodes[heads.cache[p].value]);
    var cell := start;
    var i: nat := 1;
    while i < count
      invariant 1 <= i <= count
      invariant Links(cell, chain[i - 1..], rest[i - 1..])
      invariant dest[..i] == Copies(nodes, list[..i])
    {
      assert cell == chain[i - 1] && cell.cache == rest[i - 1] == list[i];
      dest[i] := CopyCacheNode(nodes[cell.cache]);
      assert chain[i - 1..][1..] == chain[i..] && rest[i - 1..][1..] == rest[i..];
      assert list[..i + 1][..i] == list[..i];
      cell := cell.next;
      i := i + 1;
    }
    assert list[..i] == list;
  }

  /** The node that entry i is a copy of: the first private one, the others backwards, cluster, system. */
  function SourceOf(list: seq<nat>, cluster: nat, system: Option<nat>, i: nat): nat
    requires |list| > 0 && i < |list| + 1 + if system.Some? then 1 else 0
  {
    if i == 0 then list[0]
    else if i < |list| then list[|list| - i]
    else if i == |list| then cluster
    else system.value
  }

  lemma {:induction false} RowCopies(nodes: seq<CfgNode>, list: seq<nat>, cluster: nat, system: Option<nat>, i: nat)
    requires Indices(nodes, list) && |list| > 0 && cluster < |nodes| && (system.Some? ==> system.value < |nodes|)
    requires i < |list| + 1 + if system.Some? then 1 else 0
    ensures Indices(nodes, ListOrder(list)) && SourceOf(list, cluster, system, i) < |nodes|
    ensures Row(nodes, ListOrder(list), cluster, system)[i] ==
            CopyCacheNode(nodes[SourceOf(list, cluster, system, i)])
  {
    OrderIndices(nodes, list);
    if i < |list| {
      CopiesAt(nodes, ListOrder(list), i);
      ListOrderAt(list, i);
    }
  }

  lemma {:induction false} CopyCarries(node: CfgNode)
    ensures Carries(CopyCacheNode(node), node)
  {}

  /** Entry by entry: every field is the source node's own. */
  lemma {:induction false} RowMeaning(nodes: seq<CfgNode>, list: seq<nat>, cluster: nat, system: Option<nat>, i: nat)
    requires Indices(nodes, list) && |list| > 0 && cluster < |nodes| && (system.Some? ==> system.value < |nodes|)
    requires i < |list| + 1 + if system.Some? then 1 else 0
    ensures Indices(nodes, ListOrder(list)) && SourceOf(list, cluster, system, i) < |nodes|
    ensures Carries(Row(nodes, ListOrder(list), cluster, system)[i], nodes[SourceOf(list, cluster, system, i)])
  {
    RowCopies(nodes, list, cluster, system, i);
    CopyCarries(nodes[SourceOf(list, cluster, system, i)]);
  }

  /** A PE is taken for the primary when its first private node carries the current MPIDR. */
  predicate IsPrimary(nodes: seq<CfgNode>, list: seq<nat>, current: nat) {
    |list| > 0 && list[0] < |nodes| && nodes[list[0]].mpidr == current
  }

  function NodeCount(nodes: seq<CfgNode>, list: seq<nat>, current: nat): nat {
    |list| + if IsPrimary(nodes, list, current) then 2 else 1
  }

  /** What the code takes for granted of the platform description about one PE's private nodes. */
  predicate Described(nodes: seq<CfgNode>, list: seq<nat>, clusters: seq<nat>, system: Option<nat>, current: nat) {
    |list| > 0 && Indices(nodes, list) && Indices(nodes, clusters) &&
    ClusterOf(nodes, clusters, nodes[list[0]].mpidr).Some? &&
    (system.Some? ==> system.value < |nodes|) && (IsPrimary(nodes, list, current) ==> system.Some?)
  }

  /** What the array of the PE with these private nodes is to hold. */
  function RowOf(nodes: seq<CfgNode>, list: seq<nat>, clusters: seq<nat>, system: Option<nat>, current: nat):
    (row: seq<CacheEntry>)
    requires Described(nodes, list, clusters, system, current)
    ensures |row| == NodeCount(nodes, list, current)
  {
    OrderIndices(nodes, list);
    Row(nodes, ListOrder(list), ClusterOf(nodes, clusters, nodes[list[0]].mpidr).value,
        if IsPrimary(nodes, list, current) then system else None)
  }

  lemma {:induction false} OrderIndices(nodes: seq<CfgNode>, list: seq<nat>)
    requires Indices(nodes, list)
    ensures Indices(nodes, ListOrder(list))
    ensures |list| > 0 ==> ListOrder(list)[0] == list[0]
  {
    forall i | 0 <= i < |list|
      ensures ListOrder(list)[i] < |nodes|
    {
      ListOrderAt(list, i);
    }
  }

  /** CopyClusterCacheNodes and CopySystemCacheNode, behind the private nodes. */
  method CopySharedNodes(nodes: seq<CfgNode>, dest: array<CacheEntry>, num: nat, cluster: nat, system: Option<nat>,
                         ghost list: seq<nat>)
    requires Indices(nodes, list) && cluster < |nodes| && (system.Some? ==> system.value < |nodes|)
    requires num == |list| + (if system.Some? then 2 else 1) <= dest.Length
    requires dest[..|list|] == Copies(nodes, list)
    modifies dest
    ensures dest[..num] == Row(nodes, list, cluster, system)
  {
    ghost var n := |list|;
    ghost var front := dest[..n];
    dest[if system.Some? then num - 2 else num - 1] := CopyCacheNode(nodes[cluster]);
    assert dest[..n + 1] == front + [CopyCacheNode(nodes[cluster])];
    if system.Some? {
      dest[num - 1] := CopyCacheNode(nodes[system.value]);
      assert dest[..n + 1] == front + [CopyCacheNode(nodes[cluster])];
      assert dest[..num] == dest[..n + 1] + [CopyCacheNode(nodes[system.value])];
    }
  }

  /** One element of the MPAM table. */
  datatype MpamInfo = MpamInfo(numCacheNodes: nat, cacheNode: array<CacheEntry>)

  /** The table element holds exactly this row, and may have room to spare. */
  ghost predicate HoldsRow(info: MpamInfo, row: seq<CacheEntry>)
    reads info.cacheNode
  {
    info.numCacheNodes == |row| <= info.cacheNode.Length && info.cacheNode[..|row|] == row
  }

  /** One round of the second loop; size is what the first PE's count says, once that is known. */
  method FillPe(nodes: seq<CfgNode>, heads: Heads, p: nat, clusters: array<nat>, system: Option<nat>, current: nat,
                size: Option<nat>, ghost chain: seq<Cell>, ghost list: seq<nat>)
    returns (info: MpamInfo)
    requires p < heads.cache.Length == heads.next.Length && HoldsList(heads, p, chain, ListOrder(list))
    requires Described(nodes, list, clusters[..], system, current)
    requires size.Some? ==> NodeCount(nodes, list, current) <= size.value
    ensures fresh(info.cacheNode)
    ensures HoldsRow(info, RowOf(nodes, list, clusters[..], system, current))
    ensures info.cacheNode.Length == if size.Some? then size.value else info.numCacheNodes
  {
    OrderIndices(nodes, list);
    ghost var order := ListOrder(list);
    var head := heads.cache[p].value;
    var isPrimary := nodes[head].mpidr == current;
    var privates := GetCacheCount(heads, p, chain, order);
    var num := privates + if isPrimary then 2 else 1;
    var dest := new CacheEntry[if size.Some? then size.value else num];
    CopyPrivateCacheNodes(nodes, heads, p, privates, dest, chain, order);
    var cluster := GetClusterNode(nodes, clusters, nodes[head].mpidr);
    CopySharedNodes(nodes, dest, num, cluster.value, if isPrimary then system else None, order);
    info := MpamInfo(num, dest);
  }
}
