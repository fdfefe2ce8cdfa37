/** Which pages the shared copy buffers get, and when all of them lie inside the memory node. */
module PagesInside {
  import opened Options
  import opened Pages

  /** The k-th buffer-sized multiple of the node can be allocated. */
  predicate Takes(free: set<nat>, memBase: nat, bufSize: nat, k: nat) {
    Accepts(free, memBase + Offset(bufSize, k), bufSize)
  }

  /** How many of the first m multiples can be allocated. */
  function AcceptedCount(free: set<nat>, memBase: nat, bufSize: nat, m: nat): (n: nat)
    ensures n <= m
  {
    if m == 0 then 0 else
    AcceptedCount(free, memBase, bufSize, m - 1) + if Takes(free, memBase, bufSize, m - 1) then 1 else 0
  }

  predicate Ascending(ks: seq<nat>) {
    forall i, j :: 0 <= i < j < |ks| ==> ks[i] < ks[j]
  }

  /** ks are the first |ks| multiples that can be allocated, in ascending order. */
  ghost predicate FirstTaken(free: set<nat>, memBase: nat, bufSize: nat, ks: seq<nat>) {
    Ascending(ks) && (forall j :: 0 <= j < |ks| ==> Takes(free, memBase, bufSize, ks[j])) &&
    forall k :: |ks| > 0 && 0 <= k <= ks[|ks| - 1] && Takes(free, memBase, bufSize, k) ==> k in ks
  }

  /** The buffers are those multiples of the node. */
  ghost predicate AreMultiples(buffers: seq<nat>, memBase: nat, bufSize: nat, ks: seq<nat>) {
    |buffers| == |ks| && forall j :: 0 <= j < |ks| ==> buffers[j] == memBase + Offset(bufSize, ks[j])
  }

  lemma {:induction false} PageGap(a: nat, b: nat, bufSize: nat)
    requires a % PAGE == 0 && b % PAGE == 0 && a + bufSize <= b
    ensures a / PAGE + SizeToPages(bufSize) <= b / PAGE
  {}

  /** Different multiples that are page aligned have no page in common. */
  lemma {:induction false} MultiplesDisjoint(memBase: nat, bufSize: nat, k: nat, m: nat)
    requires k != m && (memBase + Offset(bufSize, k)) % PAGE == 0 && (memBase + Offset(bufSize, m)) % PAGE == 0
    ensures PagesOf(memBase + Offset(bufSize, k), bufSize) !! PagesOf(memBase + Offset(bufSize, m), bufSize)
  {
    var low, high := if k < m then k else m, if k < m then m else k;
    OffsetMonotone(bufSize, low + 1, high);
    PageGap(memBase + Offset(bufSize, low), memBase + Offset(bufSize, high), bufSize);
  }

  /** Taking some multiples leaves the others as they were. */
  lemma {:induction false} OthersStay(free: set<nat>, memBase: nat, bufSize: nat, ks: seq<nat>, buffers: seq<nat>,
                                      k: nat)
    requires AreMultiples(buffers, memBase, bufSize, ks) && Takes(free, memBase, bufSize, k) && k !in ks
    requires forall j :: 0 <= j < |ks| ==> Takes(free, memBase, bufSize, ks[j])
    ensures PagesOf(memBase + Offset(bufSize, k), bufSize) !! Held(buffers, bufSize)
  {
    if |ks| > 0 {
      var n := |ks| - 1;
      assert forall j :: 0 <= j < n ==> ks[..n][j] == ks[j];
      OthersStay(free, memBase, bufSize, ks[..n], buffers[..n], k);
      assert Takes(free, memBase, bufSize, ks[n]) && ks[n] in ks;
      MultiplesDisjoint(memBase, bufSize, k, ks[n]);
    }
  }

  lemma {:induction false} StillTakes(free: set<nat>, memBase: nat, bufSize: nat, ks: seq<nat>, buffers: seq<nat>,
                                      k: nat)
    requires AreMultiples(buffers, memBase, bufSize, ks) && Takes(free, memBase, bufSize, k) && k !in ks
    requires forall j :: 0 <= j < |ks| ==> Takes(free, memBase, bufSize, ks[j])
    ensures Takes(free - Held(buffers, bufSize), memBase, bufSize, k)
  {
    OthersStay(free, memBase, bufSize, ks, buffers, k);
  }

  /** And those taken can not be taken again. */
  lemma {:induction false} TakenIsGone(free: set<nat>, memBase: nat, bufSize: nat, buffers: seq<nat>, ks: seq<nat>,
                                       k: nat)
    requires bufSize > 0 && AreMultiples(buffers, memBase, bufSize, ks) && k in ks
    ensures !Takes(free - Held(buffers, bufSize), memBase, bufSize, k)
  {
    var j :| 0 <= j < |ks| && ks[j] == k;
    HeldEach(buffers, bufSize);
    assert (memBase + Offset(bufSize, k)) / PAGE in PagesOf(buffers[j], bufSize);
  }

  lemma {:induction false} AscendingBound(ks: seq<nat>)
    requires Ascending(ks) && |ks| > 0
    ensures ks[|ks| - 1] >= |ks| - 1
  {
    if |ks| > 1 {
      AscendingBound(ks[..|ks| - 1]);
    }
  }

  lemma {:induction false} OffsetSum(bufSize: nat, i: nat, k: nat)
    ensures Offset(bufSize, i + k) == Offset(bufSize, i) + Offset(bufSize, k)
  {
    if k > 0 {
      OffsetSum(bufSize, i, k - 1);
      assert Offset(bufSize, i + k) == Offset(bufSize, i + (k - 1)) + bufSize;
    }
  }

  /** The least multiple from |ks| on that is left is the next one of the node. */
  lemma {:induction false} NextTaken(free: set<nat>, memBase: nat, bufSize: nat, ks: seq<nat>, buffers: seq<nat>,
                                     x: nat)
    requires bufSize > 0 && FirstTaken(free, memBase, bufSize, ks) && AreMultiples(buffers, memBase, bufSize, ks)
    requires |ks| <= x && Takes(free - Held(buffers, bufSize), memBase, bufSize, x)
    requires forall k :: |ks| <= k < x ==> !Takes(free - Held(buffers, bufSize), memBase, bufSize, k)
    ensures FirstTaken(free, memBase, bufSize, ks + [x])
  {
    var left := free - Held(buffers, bufSize);
    if x in ks {
      TakenIsGone(free, memBase, bufSize, buffers, ks, x);
    }
    forall k | |ks| <= k < x && Takes(free, memBase, bufSize, k)
      ensures k in ks
    {
      if k !in ks {
        StillTakes(free, memBase, bufSize, ks, buffers, k);
      }
    }
    FirstAndNext(free, memBase, bufSize, ks, x);
  }

  lemma {:induction false} FirstAndNext(free: set<nat>, memBase: nat, bufSize: nat, ks: seq<nat>, x: nat)
    requires FirstTaken(free, memBase, bufSize, ks) && Takes(free, memBase, bufSize, x) && x !in ks && |ks| <= x
    requires forall k :: |ks| <= k < x && Takes(free, memBase, bufSize, k) ==> k in ks
    ensures FirstTaken(free, memBase, bufSize, ks + [x])
  {
    if |ks| > 0 {
      AscendingBound(ks);
      assert x > ks[|ks| - 1];
    }
  }

  /** As long as no search fails, the PEs get the first multiples that can be allocated, in order. */
  lemma {:induction false} BuffersAreFirst(free: set<nat>, memBase: nat, memSize: nat, bufSize: nat, n: nat)
    returns (ks: seq<nat>)
    requires 0 < bufSize <= memSize && memBase + Offset(bufSize, n) + memSize <= WORD
    requires memBase < WORD && !Share(free, memBase, memSize, bufSize, n).failed
    ensures |ks| == n && FirstTaken(free, memBase, bufSize, ks)
    ensures AreMultiples(Share(free, memBase, memSize, bufSize, n).buffers, memBase, bufSize, ks)
  {
    if n == 0 {
      ks := [];
    } else {
      var i := n - 1;
      var p := Share(free, memBase, memSize, bufSize, i);
      ks := BuffersAreFirst(free, memBase, memSize, bufSize, i);
      ShareConserves(free, memBase, memSize, bufSize, i);
      var left := free - Held(p.buffers, bufSize);
      assert p.free == left;
      var x := NextSearch(left, memBase, memSize, bufSize, i);
      NextTaken(free, memBase, bufSize, ks, p.buffers, x);
      ks := ks + [x];
    }
  }

  /** What a successful search of PE i finds, as a multiple of the node. */
  lemma {:induction false} NextSearch(left: set<nat>, memBase: nat, memSize: nat, bufSize: nat, i: nat)
    returns (x: nat)
    requires 0 < bufSize <= memSize && memBase + Offset(bufSize, i) + memSize <= WORD && memBase < WORD
    requires Search(left, Slot(memBase, bufSize, i), memSize, bufSize).1 != 0
    ensures x >= i && Takes(left, memBase, bufSize, x)
    ensures forall k :: i <= k < x ==> !Takes(left, memBase, bufSize, k)
    ensures Search(left, Slot(memBase, bufSize, i), memSize, bufSize).1 == memBase + Offset(bufSize, x)
  {
    SlotIsMultiple(memBase, bufSize, i);
    var base := Slot(memBase, bufSize, i);
    var k := SearchMeaning(left, base, memSize, bufSize);
    x := i + k;
    FromMultiple(left, memBase, base, bufSize, i, k);
    assert LeastRound(left, base, bufSize, k);
    forall m | i <= m < x
      ensures !Takes(left, memBase, bufSize, m)
    {
      FromMultiple(left, memBase, base, bufSize, i, m - i);
    }
  }

  /** Round k of a search that starts at multiple i tries multiple i + k. */
  lemma {:induction false} FromMultiple(left: set<nat>, memBase: nat, base: nat, bufSize: nat, i: nat, k: nat)
    requires base == memBase + Offset(bufSize, i)
    ensures base + Offset(bufSize, k) == memBase + Offset(bufSize, i + k)
    ensures Accepts(left, base + Offset(bufSize, k), bufSize) <==> Takes(left, memBase, bufSize, i + k)
  {
    OffsetSum(bufSize, i, k);
  }

  lemma {:induction false} CountGrows(free: set<nat>, memBase: nat, bufSize: nat, a: nat, b: nat)
    requires a <= b
    ensures AcceptedCount(free, memBase, bufSize, a) <= AcceptedCount(free, memBase, bufSize, b)
  {
    if a < b {
      CountGrows(free, memBase, bufSize, a, b - 1);
    }
  }

  /** Over multiples that can not be allocated the count stands still. */
  lemma {:induction false} CountStays(free: set<nat>, memBase: nat, bufSize: nat, a: nat, b: nat)
    requires a <= b && forall k :: a <= k < b ==> !Takes(free, memBase, bufSize, k)
    ensures AcceptedCount(free, memBase, bufSize, a) == AcceptedCount(free, memBase, bufSize, b)
  {
    if a < b {
      CountStays(free, memBase, bufSize, a, b - 1);
    }
  }

  /** No multiple between two neighbours of them can be allocated. */
  lemma {:induction false} NoneBetween(free: set<nat>, memBase: nat, bufSize: nat, ks: seq<nat>, j: nat, k: nat)
    requires FirstTaken(free, memBase, bufSize, ks) && j < |ks| && k < ks[j]
    requires j > 0 ==> ks[j - 1] < k
    ensures !Takes(free, memBase, bufSize, k)
  {
    assert ks[j] <= ks[|ks| - 1];
    forall i | 0 <= i < |ks|
      ensures ks[i] != k
    {
      assert i < j - 1 ==> ks[i] < ks[j - 1];
      assert i > j ==> ks[j] < ks[i];
    }
  }

  /** Before the j-th of them exactly j multiples can be allocated, and it is one more. */
  lemma {:induction false} CountOfFirst(free: set<nat>, memBase: nat, bufSize: nat, ks: seq<nat>, j: nat)
    requires FirstTaken(free, memBase, bufSize, ks) && j < |ks|
    ensures AcceptedCount(free, memBase, bufSize, ks[j]) == j
    ensures AcceptedCount(free, memBase, bufSize, ks[j] + 1) == j + 1
  {
    var from := if j == 0 then 0 else ks[j - 1] + 1;
    if j > 0 {
      CountOfFirst(free, memBase, bufSize, ks, j - 1);
    }
    forall k | from <= k < ks[j]
      ensures !Takes(free, memBase, bufSize, k)
    {
      NoneBetween(free, memBase, bufSize, ks, j, k);
    }
    CountStays(free, memBase, bufSize, from, ks[j]);
  }

  /** A buffer lies in the node. */
  predicate Inside(buffer: nat, memBase: nat, memSize: nat, bufSize: nat) {
    memBase <= buffer && buffer + bufSize <= memBase + memSize
  }

  /** The last of them is below a bound if and only if so many are. */
  lemma {:induction false} LastBelowIff(free: set<nat>, memBase: nat, bufSize: nat, ks: seq<nat>, bound: nat)
    requires FirstTaken(free, memBase, bufSize, ks) && |ks| > 0
    ensures ks[|ks| - 1] < bound <==> AcceptedCount(free, memBase, bufSize, bound) >= |ks|
  {
    var last := ks[|ks| - 1];
    CountOfFirst(free, memBase, bufSize, ks, |ks| - 1);
    if last < bound {
      CountGrows(free, memBase, bufSize, last + 1, bound);
    } else {
      CountGrows(free, memBase, bufSize, bound, last);
    }
  }

  ghost predicate AllInside(buffers: seq<nat>, memBase: nat, memSize: nat, bufSize: nat) {
    forall j :: 0 <= j < |buffers| ==> Inside(buffers[j], memBase, memSize, bufSize)
  }

  /** With ascending multiples it is enough to look at the last. */
  lemma {:induction false} AllInsideLast(buffers: seq<nat>, memBase: nat, memSize: nat, bufSize: nat, ks: seq<nat>)
    requires bufSize > 0 && Ascending(ks) && AreMultiples(buffers, memBase, bufSize, ks) && |ks| > 0
    ensures AllInside(buffers, memBase, memSize, bufSize) <==> ks[|ks| - 1] < Fits(memSize, bufSize)
  {
    forall j | 0 <= j < |ks|
      ensures Inside(buffers[j], memBase, memSize, bufSize) <==> ks[j] < Fits(memSize, bufSize)
    {
      InsideIff(memBase, memSize, bufSize, ks[j]);
    }
    assert forall j :: 0 <= j < |ks| ==> ks[j] <= ks[|ks| - 1];
  }

  /**
    All buffers of a successful call lie in the node if and only if the node had, at the start, at
    least as many allocatable multiples as there are PEs.  A caller that knows the free pages can
    tell beforehand; with fewer, later PEs get memory beyond the node's end.
   */
  lemma {:induction false} AllInsideIff(free: set<nat>, memBase: nat, memSize: nat, bufSize: nat, n: nat)
    requires 0 < bufSize <= memSize && memBase + Offset(bufSize, n) + memSize <= WORD
    requires memBase < WORD && !Share(free, memBase, memSize, bufSize, n).failed
    ensures AllInside(Share(free, memBase, memSize, bufSize, n).buffers, memBase, memSize, bufSize) <==>
            AcceptedCount(free, memBase, bufSize, Fits(memSize, bufSize)) >= n
  {
    var ks := BuffersAreFirst(free, memBase, memSize, bufSize, n);
    if n > 0 {
      AllInsideLast(Share(free, memBase, memSize, bufSize, n).buffers, memBase, memSize, bufSize, ks);
      LastBelowIff(free, memBase, bufSize, ks, Fits(memSize, bufSize));
    }
  }

  lemma {:induction false} InsideIff(memBase: nat, memSize: nat, bufSize: nat, k: nat)
    requires bufSize > 0
    ensures Inside(memBase + Offset(bufSize, k), memBase, memSize, bufSize) <==> k < Fits(memSize, bufSize)
  {
    FitsIsFloor(memSize, bufSize, k);
  }

  /**
    Such a call succeeds: one of the node's two pages is taken, the page behind the node is free,
    and the second PE gets that one.
   */
  lemma {:induction false} BufferBeyondNode()
    ensures var buffers := Share({16, 18}, 0x1_0000, 0x2000, 0x1000, 2).buffers;
            !Share({16, 18}, 0x1_0000, 0x2000, 0x1000, 2).failed &&
            |buffers| == 2 && !Inside(buffers[1], 0x1_0000, 0x2000, 0x1000)
  {
    BufferBehind();
  }
}
