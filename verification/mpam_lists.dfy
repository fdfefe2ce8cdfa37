/**
  The per-PE lists of private caches that the MPAM table builder links up from the flat platform
  description, and later frees.
 */
module MpamLists {
  import opened Mpidr
  import opened Options

  const SCOPE_PRIVATE: nat := 0
  const SCOPE_CLUSTER: nat := 1

  datatype IntrInfo = IntrInfo(errorNum: nat, overflowNum: nat, errorType: nat, overflowType: nat)

  /** One cache node of the platform description. */
  datatype CfgNode = CfgNode(
    mpidr: uint64, nodeScope: nat, scopeIndex: nat, lineSize: nat, size: nat, neighbours: seq<nat>,
    allocType: nat, cacheType: nat, writePolicy: nat, reserved: nat,
    hwregBase: nat, notReadyMaxUs: nat, intr: IntrInfo)

  /** The index pe_get_index_mpid gives a node: PE 0 when no PE has its MPIDR. */
  function PeOf(table: seq<PeEntry>, node: CfgNode): (p: nat)
    requires Numbered(table) && |table| > 0
    ensures p < |table|
  {
    IndexOfMpid(table, node.mpidr, 0)
  }

  predicate IsPrivateOf(nodes: seq<CfgNode>, table: seq<PeEntry>, i: nat, p: nat)
    requires Numbered(table) && |table| > 0 && i < |nodes|
  {
    nodes[i].nodeScope == SCOPE_PRIVATE && PeOf(table, nodes[i]) == p
  }

  /** The private nodes of PE p among the first k nodes, in the order of the description. */
  function PrivateNodes(nodes: seq<CfgNode>, table: seq<PeEntry>, p: nat, k: nat): (s: seq<nat>)
    requires Numbered(table) && |table| > 0 && k <= |nodes|
    ensures forall m :: 0 <= m < |s| ==> s[m] < k && IsPrivateOf(nodes, table, s[m], p)
  {
    if k == 0 then [] else
    var s := PrivateNodes(nodes, table, p, k - 1);
    if IsPrivateOf(nodes, table, k - 1, p) then s + [k - 1] else s
  }

  /** How many private nodes of PE p come before node n. */
  function OwnBefore(nodes: seq<CfgNode>, table: seq<PeEntry>, p: nat, n: nat): nat
    requires Numbered(table) && |table| > 0 && n <= |nodes|
  {
    if n == 0 then 0 else OwnBefore(nodes, table, p, n - 1) + if IsPrivateOf(nodes, table, n - 1, p) then 1 else 0
  }

  lemma {:induction false} PrivateNodesAt(nodes: seq<CfgNode>, table: seq<PeEntry>, p: nat, k: nat, m: nat)
    requires Numbered(table) && |table| > 0 && k <= |nodes|
    ensures |PrivateNodes(nodes, table, p, k)| == OwnBefore(nodes, table, p, k)
    ensures var s := PrivateNodes(nodes, table, p, k); m < |s| ==> OwnBefore(nodes, table, p, s[m]) == m
  {
    if k > 0 {
      PrivateNodesAt(nodes, table, p, k - 1, m);
    }
  }

  function Empties(n: nat): (lists: seq<seq<nat>>)
    ensures |lists| == n && forall p :: 0 <= p < n ==> lists[p] == []
  {
    if n == 0 then [] else Empties(n - 1) + [[]]
  }

  /** The first k nodes dealt out: each private node goes to the end of its PE's list. */
  function PrivateLists(nodes: seq<CfgNode>, table: seq<PeEntry>, k: nat): (lists: seq<seq<nat>>)
    requires Numbered(table) && |table| > 0 && k <= |nodes|
    ensures |lists| == |table|
  {
    if k == 0 then Empties(|table|) else
    var lists := PrivateLists(nodes, table, k - 1);
    var p := PeOf(table, nodes[k - 1]);
    if nodes[k - 1].nodeScope == SCOPE_PRIVATE then lists[p := lists[p] + [k - 1]] else lists
  }

  /** Dealing out gives each PE exactly its own private nodes, in the order of the description. */
  lemma {:induction false} DealtExactly(nodes: seq<CfgNode>, table: seq<PeEntry>, k: nat)
    requires Numbered(table) && |table| > 0 && k <= |nodes|
    ensures forall p :: 0 <= p < |table| ==> PrivateLists(nodes, table, k)[p] == PrivateNodes(nodes, table, p, k)
  {
    if k > 0 {
      DealtExactly(nodes, table, k - 1);
    }
  }

  /** The cluster nodes among the first k nodes, in order. */
  function ClusterNodes(nodes: seq<CfgNode>, k: nat): (s: seq<nat>)
    requires k <= |nodes|
    ensures forall m :: 0 <= m < |s| ==> s[m] < k && nodes[s[m]].nodeScope == SCOPE_CLUSTER
  {
    if k == 0 then [] else
    var s := ClusterNodes(nodes, k - 1);
    if nodes[k - 1].nodeScope == SCOPE_CLUSTER then s + [k - 1] else s
  }

  predicate IsSystem(node: CfgNode) {
    node.nodeScope != SCOPE_PRIVATE && node.nodeScope != SCOPE_CLUSTER
  }

  lemma {:induction false} ClusterNodesExact(nodes: seq<CfgNode>, k: nat)
    requires k <= |nodes|
    ensures forall n :: 0 <= n < k && nodes[n].nodeScope == SCOPE_CLUSTER ==> n in ClusterNodes(nodes, k)
    ensures forall m, n :: 0 <= m < n < |ClusterNodes(nodes, k)| ==>
                             ClusterNodes(nodes, k)[m] < ClusterNodes(nodes, k)[n]
  {
    if k > 0 {
      ClusterNodesExact(nodes, k - 1);
    }
  }

  /** The last node among the first k that is neither private nor of a cluster. */
  function SystemNode(nodes: seq<CfgNode>, k: nat): (s: Option<nat>)
    requires k <= |nodes|
    ensures s.Some? ==> s.value < k && IsSystem(nodes[s.value])
    ensures forall n :: (if s.Some? then s.value + 1 else 0) <= n < k ==> !IsSystem(nodes[n])
  {
    if k == 0 then None
    else if IsSystem(nodes[k - 1]) then Some(k - 1)
    else SystemNode(nodes, k - 1)
  }

  function Reverse(s: seq<nat>): (r: seq<nat>)
    ensures |r| == |s|
  {
    if |s| == 0 then [] else [s[|s| - 1]] + Reverse(s[..|s| - 1])
  }

  /** The order the linking gives: the first node stays in front, later ones go in right after it. */
  function ListOrder(s: seq<nat>): (r: seq<nat>)
    ensures |r| == |s|
  {
    if |s| == 0 then [] else [s[0]] + Reverse(s[1..])
  }

  lemma {:induction false} ReverseAt(s: seq<nat>, i: nat)
    requires i < |s|
    ensures Reverse(s)[i] == s[|s| - 1 - i]
  {
    if i > 0 {
      ReverseAt(s[..|s| - 1], i - 1);
    }
  }

  /** First, last, last but one, and so on down to the second. */
  lemma {:induction false} ListOrderAt(s: seq<nat>, i: nat)
    requires i < |s|
    ensures ListOrder(s)[i] == if i == 0 then s[0] else s[|s| - i]
  {
    if i > 0 {
      ReverseAt(s[1..], i - 1);
    }
  }

  /** A list cell beyond the heads, which are one array. */
  class Cell {
    var cache: nat      // index of the node in the description
    var next: Cell?

    constructor (cache: nat, next: Cell?)
      ensures this.cache == cache && this.next == next
    {
      this.cache, this.next := cache, next;
    }
  }

  /** The UEFI pool allocator: the blocks it handed out, and those given back, in order. */
  class Pool {
    ghost var handed: set<object>
    ghost var freed: seq<object>

    constructor ()
      ensures handed == {} && freed == []
    {
      handed, freed := {}, [];
    }

    method AllocateCell(cache: nat, next: Cell?) returns (cell: Cell)
      modifies this
      ensures fresh(cell) && cell.cache == cache && cell.next == next
      ensures handed == old(handed) + {cell} && freed == old(freed)
    {
      cell := new Cell(cache, next);
      handed := handed + {cell};
    }

    method AllocateHeads(n: nat) returns (heads: Heads)
      modifies this
      ensures fresh(heads) && fresh(heads.cache) && fresh(heads.next)
      ensures heads.cache.Length == heads.next.Length == n
      ensures heads.cache as object != heads.next
      ensures handed == old(handed) + {heads} && freed == old(freed)
    {
      heads := new Heads(n);
      handed := handed + {heads};
    }

    method AllocateNodes(n: nat) returns (block: array<nat>)
      modifies this
      ensures fresh(block) && block.Length == n
      ensures handed == old(handed) + {block} && freed == old(freed)
    {
      block := new nat[n];
      handed := handed + {block};
    }

    /** Only what was handed out can be freed, and only once. */
    method Free(ghost block: object)
      requires block in handed && block !in freed
      modifies this`freed
      ensures freed == old(freed) + [block]
    {
      freed := freed + [block];
    }
  }

  /** The PrivateCaches block: per PE the head's cache pointer (None is NULL) and next pointer. */
  class Heads {
    const cache: array<Option<nat>>
    const next: array<Cell?>

    constructor (n: nat)
      ensures fresh(cache) && fresh(next) && cache.Length == next.Length == n
      ensures cache as object != next
    {
      cache := new Option<nat>[n];
      next := new Cell?[n];
    }
  }

  ghost function Elements(cells: seq<Cell>): set<Cell> {
    set c | c in cells
  }

  ghost function CellsOf(chains: seq<seq<Cell>>): (cells: set<Cell>)
    ensures forall p, k :: 0 <= p < |chains| && 0 <= k < |chains[p]| ==> chains[p][k] in cells
  {
    if |chains| == 0 then {}
    else CellsOf(chains[..|chains| - 1]) + Elements(chains[|chains| - 1])
  }

  ghost predicate NoRepeat(cells: seq<Cell>) {
    |cells| == 0 || (cells[0] !in cells[1..] && NoRepeat(cells[1..]))
  }

  /** No cell occurs twice in the chains. */
  ghost predicate DistinctCells(chains: seq<seq<Cell>>) {
    if |chains| == 0 then true else
    var n := |chains| - 1;
    DistinctCells(chains[..n]) && NoRepeat(chains[n]) && CellsOf(chains[..n]) !! Elements(chains[n])
  }

  /** From the given pointer the cells of the chain follow in order, holding the list, then NULL. */
  ghost predicate Links(start: Cell?, chain: seq<Cell>, list: seq<nat>)
    reads chain
  {
    if |chain| == 0 then start == null && |list| == 0
    else start == chain[0] && |list| > 0 && chain[0].cache == list[0] && Links(chain[0].next, chain[1..], list[1..])
  }

  lemma {:induction false} LinksLength(start: Cell?, chain: seq<Cell>, list: seq<nat>)
    requires Links(start, chain, list)
    ensures |chain| == |list|
  {
    if |chain| > 0 {
      LinksLength(chain[0].next, chain[1..], list[1..]);
    }
  }

  /** PE p's list is the head followed by its chain, and holds the given nodes; [] is a NULL head. */
  ghost predicate HoldsList(heads: Heads, p: nat, chain: seq<Cell>, list: seq<nat>)
    reads heads, heads.cache, heads.next, chain
    requires p < heads.cache.Length == heads.next.Length
  {
    if |list| == 0 then heads.cache[p] == None && |chain| == 0
    else heads.cache[p] == Some(list[0]) && Links(heads.next[p], chain, list[1..])
  }

  /** Every PE's list holds its nodes in list order. */
  ghost predicate Lists(heads: Heads, chains: seq<seq<Cell>>, lists: seq<seq<nat>>)
    reads heads, heads.cache, heads.next, CellsOf(chains)
  {
    heads.cache.Length == heads.next.Length == |lists| == |chains| && heads.cache as object != heads.next &&
    forall p :: 0 <= p < |lists| ==> HoldsList(heads, p, chains[p], ListOrder(lists[p]))
  }

  /** And no cell is shared. */
  ghost predicate Holds(heads: Heads, chains: seq<seq<Cell>>, lists: seq<seq<nat>>)
    reads heads, heads.cache, heads.next, CellsOf(chains)
  {
    Lists(heads, chains, lists) && DistinctCells(chains)
  }
}
