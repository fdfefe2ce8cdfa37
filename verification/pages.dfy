/**
  The first-fit page search, the shared copy buffers built from it, and their rollback. The
  firmware is the set of its free pages; AllocatePages with AllocateAddress succeeds exactly when
  the address is page aligned and all pages asked for are free.
 */
module Pages {
  import opened Options

  const PAGE: nat := 0x1000
  const WORD: nat := 0x1_0000_0000_0000_0000

  /** EFI_SIZE_TO_PAGES. */
  function SizeToPages(bytes: nat): (n: nat)
    ensures n * PAGE >= bytes && (bytes > 0 ==> n > 0)
  {
    bytes / PAGE + if bytes % PAGE == 0 then 0 else 1
  }

  function PageRun(first: nat, n: nat): (pages: set<nat>)
    ensures forall p :: p in pages <==> first <= p < first + n
  {
    if n == 0 then {} else PageRun(first, n - 1) + {first + n - 1}
  }

  function PagesOf(addr: nat, bytes: nat): set<nat> {
    PageRun(addr / PAGE, SizeToPages(bytes))
  }

  /** The pages of a buffer at a page address are those that hold a byte of it. */
  lemma {:induction false} PagesOfIff(addr: nat, bytes: nat, page: nat)
    requires addr % PAGE == 0
    ensures page in PagesOf(addr, bytes) <==> exists b: nat :: addr <= b < addr + bytes && b / PAGE == page
  {
    var first, n := addr / PAGE, SizeToPages(bytes);
    assert (n - 1) * PAGE < bytes <= n * PAGE || n == 0;
    if first <= page < first + n {
      var b := page * PAGE;
      assert b / PAGE == page;
    }
  }

  predicate Accepts(free: set<nat>, addr: nat, bytes: nat) {
    addr % PAGE == 0 && PagesOf(addr, bytes) <= free
  }

  /** The address the search tries in round k; 64-bit additions wrap. */
  function Slot(memBase: nat, bufSize: nat, k: nat): (addr: nat)
    requires memBase < WORD
    ensures addr < WORD
  {
    if k == 0 then memBase else (Slot(memBase, bufSize, k - 1) + bufSize) % WORD
  }

  /** How many times bufSize fits. */
  function Fits(size: nat, bufSize: nat): nat
    requires bufSize > 0
  {
    if size < bufSize then 0 else 1 + Fits(size - bufSize, bufSize)
  }

  /** k buffers take k * bufSize bytes. */
  function Offset(bufSize: nat, k: nat): nat {
    if k == 0 then 0 else Offset(bufSize, k - 1) + bufSize
  }

  lemma {:induction false} OffsetIsProduct(bufSize: nat, k: nat)
    ensures Offset(bufSize, k) == k * bufSize
  {
    if k > 0 {
      OffsetIsProduct(bufSize, k - 1);
      assert k * bufSize == (k - 1) * bufSize + bufSize;
    }
  }

  lemma {:induction false} OffsetMonotone(bufSize: nat, j: nat, k: nat)
    requires j <= k
    ensures Offset(bufSize, j) <= Offset(bufSize, k)
  {
    if j < k {
      OffsetMonotone(bufSize, j, k - 1);
    }
  }

  /** The number of rounds is the floor of the quotient. */
  lemma {:induction false} FitsIsFloor(size: nat, bufSize: nat, k: nat)
    requires bufSize > 0
    ensures k < Fits(size, bufSize) <==> Offset(bufSize, k + 1) <= size
  {
    if size >= bufSize && k > 0 {
      FitsIsFloor(size - bufSize, bufSize, k - 1);
      assert Offset(bufSize, k + 1) == Offset(bufSize, k) + bufSize;
    } else {
      OffsetMonotone(bufSize, 1, k + 1);
      assert Offset(bufSize, 1) == bufSize;
    }
  }

  /** Rounds before the remaining size drops below bufSize; a size that starts below it wraps first. */
  function Rounds(memSize: nat, bufSize: nat): nat
    requires bufSize > 0
  {
    Fits(if memSize >= bufSize then memSize else memSize + WORD, bufSize)
  }

  /** The first round from k on whose address is accepted. */
  function FirstAccepted(free: set<nat>, memBase: nat, bufSize: nat, k: nat, rounds: nat): (r: Option<nat>)
    requires memBase < WORD && k <= rounds
    ensures r.Some? ==>
              k <= r.value < rounds && Accepts(free, Slot(memBase, bufSize, r.value), bufSize) &&
              forall j :: k <= j < r.value ==> !Accepts(free, Slot(memBase, bufSize, j), bufSize)
    ensures r.None? ==> forall j :: k <= j < rounds ==> !Accepts(free, Slot(memBase, bufSize, j), bufSize)
    decreases rounds - k
  {
    if k == rounds then None
    else if Accepts(free, Slot(memBase, bufSize, k), bufSize) then Some(k)
    else FirstAccepted(free, memBase, bufSize, k + 1, rounds)
  }

  /** The search as a whole: the free pages left and the pointer returned, 0 being NULL. */
  function Search(free: set<nat>, memBase: nat, memSize: nat, bufSize: nat): (r: (set<nat>, nat))
    requires memBase < WORD && bufSize > 0
  {
    var k := FirstAccepted(free, memBase, bufSize, 0, Rounds(memSize, bufSize));
    if k.None? then (free, 0) else
    var addr := Slot(memBase, bufSize, k.value);
    (free - PagesOf(addr, bufSize), addr)
  }

  /** One buffer per PE, PE i searching from memBase + i * bufSize; failed when a search gave NULL. */
  datatype Progress = Progress(free: set<nat>, buffers: seq<nat>, failed: bool)

  function Share(free: set<nat>, memBase: nat, memSize: nat, bufSize: nat, n: nat): (r: Progress)
    requires memBase < WORD && bufSize > 0
    ensures !r.failed ==> |r.buffers| == n
  {
    if n == 0 then Progress(free, [], false) else
    var p := Share(free, memBase, memSize, bufSize, n - 1);
    if p.failed then p else
    var (rest, buffer) := Search(p.free, Slot(memBase, bufSize, n - 1), memSize, bufSize);
    if buffer == 0 then Progress(rest, p.buffers, true)
    else Progress(rest, p.buffers + [buffer], false)
  }

  /** All pages of these buffers. */
  function Held(buffers: seq<nat>, bufSize: nat): set<nat> {
    if |buffers| == 0 then {} else
    Held(buffers[..|buffers| - 1], bufSize) + PagesOf(buffers[|buffers| - 1], bufSize)
  }

  class Platform {
    var free: set<nat>
    var buffers: seq<nat>       // the array behind gSharedMemCpyBuf, as far as written

    constructor (free: set<nat>)
      ensures this.free == free && buffers == []
    {
      this.free, buffers := free, [];
    }

    /** Boot services AllocatePages with AllocateAddress. */
    method AllocatePages(addr: nat, bytes: nat) returns (ok: bool)
      modifies this`free
      ensures ok == Accepts(old(free), addr, bytes)
      ensures free == if ok then old(free) - PagesOf(addr, bytes) else old(free)
    {
      ok := Accepts(free, addr, bytes);
      if ok {
        free := free - PagesOf(addr, bytes);
      }
    }

    /** pal_mem_allocate_address. */
    method AllocateAddress(memBase: nat, memSize: nat, bufSize: nat) returns (buffer: nat)
      requires memBase < WORD && 0 < memSize < WORD && 0 < bufSize < WORD
      modifies this`free
      ensures (free, buffer) == Search(old(free), memBase, memSize, bufSize)
    {
      var base, size := memBase, memSize;
      var addr, ok := base, false;
      ghost var k := 0;
      ghost var rounds := Rounds(memSize, bufSize);
      RoundsLeft(memSize, bufSize);
      while size != 0
        invariant 0 <= size < WORD && base < WORD && !ok && free == old(free)
        invariant k < rounds && base == Slot(memBase, bufSize, k)
        invariant rounds == k + Rounds(size, bufSize) && size > 0
        invariant FirstAccepted(free, memBase, bufSize, 0, rounds) == FirstAccepted(free, memBase, bufSize, k, rounds)
        decreases rounds - k
      {
        addr := base;
        ok := AllocatePages(addr, bufSize);
        RoundsLeft(size, bufSize);
        size := (size - bufSize) % WORD;
        base := (base + bufSize) % WORD;
        if ok || size < bufSize {
          break;
        }
        k := k + 1;
      }
      buffer := if ok then addr else 0;
    }

    /** pal_mem_free_shared_memcpybuf, for the first peCnt buffers. */
    method FreeShared(peCnt: nat, bufSize: nat)
      requires peCnt <= |buffers|
      modifies this`free
      ensures free == old(free) + Held(buffers[..peCnt], bufSize)
    {
      for i := 0 to peCnt
        invariant free == old(free) + Held(buffers[..i], bufSize)
      {
        free := free + PagesOf(buffers[i], bufSize);
        assert buffers[..i + 1][..i] == buffers[..i];
      }
    }

    /** pal_mem_allocate_shared_memcpybuf; pool says whether the pointer array could be allocated. */
    method AllocateShared(memBase: nat, memSize: nat, bufSize: nat, peCnt: nat, pool: bool) returns (status: nat)
      requires memBase < WORD && 0 < memSize < WORD && 0 < bufSize < WORD
      modifies this
      ensures !pool ==> status == 0 && free == old(free)
      ensures var p := Share(old(free), memBase, memSize, bufSize, peCnt);
              pool ==>
                if p.failed then status == 0 && free == p.free + Held(p.buffers, bufSize)
                else status == 1 && free == p.free && buffers == p.buffers
    {
      buffers := [];
      if !pool {
        return 0;
      }
      for i := 0 to peCnt
        invariant Share(old(free), memBase, memSize, bufSize, i) == Progress(free, buffers, false)
      {
        ShareStays(old(free), memBase, memSize, bufSize, i + 1, peCnt);
        SlotWraps(memBase, bufSize, i);
        var buffer := AllocateAddress((memBase + i * bufSize) % WORD, memSize, bufSize);
        buffers := buffers + [buffer];
        if buffer == 0 {
          FreeShared(i, bufSize);
          assert buffers[..i] == Share(old(free), memBase, memSize, bufSize, i).buffers;
          return 0;
        }
      }
      status := 1;
    }
  }

  /** One round uses up bufSize of the remaining size, modulo 64 bits. */
  lemma {:induction false} RoundsLeft(size: nat, bufSize: nat)
    requires 0 < size < WORD && 0 < bufSize < WORD
    ensures Rounds(size, bufSize) > 0
    ensures var left := (size - bufSize) % WORD;
            Rounds(size, bufSize) == 1 + if left < bufSize then 0 else Rounds(left, bufSize)
  {
    var eff := if size >= bufSize then size else size + WORD;
    var left := (size - bufSize) % WORD;
    assert left == eff - bufSize;
    assert Fits(eff, bufSize) == 1 + Fits(left, bufSize);
  }

  /** Without wrap-around round k tries memBase + k * bufSize. */
  lemma {:induction false} SlotIsMultiple(memBase: nat, bufSize: nat, k: nat)
    requires memBase + Offset(bufSize, k) < WORD
    ensures Slot(memBase, bufSize, k) == memBase + Offset(bufSize, k)
  {
    if k > 0 {
      SlotIsMultiple(memBase, bufSize, k - 1);
    }
  }

  /** Round k's buffer is accepted and those of the rounds before are not. */
  predicate LeastRound(free: set<nat>, memBase: nat, bufSize: nat, k: nat) {
    Accepts(free, memBase + Offset(bufSize, k), bufSize) &&
    forall j :: 0 <= j < k ==> !Accepts(free, memBase + Offset(bufSize, j), bufSize)
  }

  /** Rounds of a node that does not wrap: those whose buffer lies wholly inside the node. */
  lemma {:induction false} RoundsInside(memBase: nat, memSize: nat, bufSize: nat, k: nat)
    requires 0 < bufSize <= memSize && memBase + memSize <= WORD
    ensures k < Rounds(memSize, bufSize) <==> Offset(bufSize, k) + bufSize <= memSize
    ensures k < Rounds(memSize, bufSize) ==> Slot(memBase, bufSize, k) == memBase + Offset(bufSize, k)
  {
    FitsIsFloor(memSize, bufSize, k);
    if k < Rounds(memSize, bufSize) {
      SlotIsMultiple(memBase, bufSize, k);
    }
  }

  /**
    The search on a node that holds at least one buffer and does not wrap: it returns the least
    accepted multiple, which lies wholly inside the node, or NULL when every multiple inside the
    node is refused.
   */
  lemma {:induction false} SearchMeaning(free: set<nat>, memBase: nat, memSize: nat, bufSize: nat) returns (k: nat)
    requires 0 < bufSize <= memSize && memBase + memSize <= WORD
    ensures var (rest, buffer) := Search(free, memBase, memSize, bufSize);
            if Offset(bufSize, k) + bufSize <= memSize then
              LeastRound(free, memBase, bufSize, k) && buffer == memBase + Offset(bufSize, k) &&
              rest == free - PagesOf(buffer, bufSize)
            else
              buffer == 0 && rest == free &&
              forall j :: 0 <= j < k ==> !Accepts(free, memBase + Offset(bufSize, j), bufSize)
    ensures k <= Rounds(memSize, bufSize)
    ensures Offset(bufSize, k) <= memSize
  {
    var rounds := Rounds(memSize, bufSize);
    var r := FirstAccepted(free, memBase, bufSize, 0, rounds);
    k := if r.Some? then r.value else rounds;
    RoundsInside(memBase, memSize, bufSize, k);
    forall j: nat | j < k
      ensures !Accepts(free, memBase + Offset(bufSize, j), bufSize)
    {
      RoundsInside(memBase, memSize, bufSize, j);
    }
    if k > 0 {
      RoundsInside(memBase, memSize, bufSize, k - 1);
    }
  }

  lemma {:induction false} AddModulo(a: nat, b: nat)
    ensures (a % WORD + b) % WORD == (a + b) % WORD
  {
  }

  lemma {:induction false} OffsetWraps(memBase: nat, bufSize: nat, k: nat)
    requires memBase < WORD
    ensures Slot(memBase, bufSize, k) == (memBase + Offset(bufSize, k)) % WORD
  {
    if k > 0 {
      OffsetWraps(memBase, bufSize, k - 1);
      AddModulo(memBase + Offset(bufSize, k - 1), bufSize);
    }
  }

  lemma {:induction false} SlotWraps(memBase: nat, bufSize: nat, k: nat)
    requires memBase < WORD
    ensures Slot(memBase, bufSize, k) == (memBase + k * bufSize) % WORD
  {
    OffsetIsProduct(bufSize, k);
    OffsetWraps(memBase, bufSize, k);
  }

  /** Once a search has failed nothing more happens. */
  lemma {:induction false} ShareStays(free: set<nat>, memBase: nat, memSize: nat, bufSize: nat, i: nat, n: nat)
    requires memBase < WORD && bufSize > 0 && i <= n
    ensures var p := Share(free, memBase, memSize, bufSize, i);
            p.failed ==> Share(free, memBase, memSize, bufSize, n) == p
  {
    if i < n {
      ShareStays(free, memBase, memSize, bufSize, i, n - 1);
    }
  }

  /** No two of the buffers have a page in common. */
  predicate Disjoint(buffers: seq<nat>, bufSize: nat) {
    forall i, j :: 0 <= i < j < |buffers| ==> PagesOf(buffers[i], bufSize) !! PagesOf(buffers[j], bufSize)
  }

  lemma {:induction false} HeldEach(buffers: seq<nat>, bufSize: nat)
    ensures forall i :: 0 <= i < |buffers| ==> PagesOf(buffers[i], bufSize) <= Held(buffers, bufSize)
  {
    if |buffers| > 0 {
      var front := buffers[..|buffers| - 1];
      HeldEach(front, bufSize);
      forall i | 0 <= i < |buffers|
        ensures PagesOf(buffers[i], bufSize) <= Held(buffers, bufSize)
      {
        if i < |front| {
          assert front[i] == buffers[i];
        }
      }
    }
  }

  /** Pages that a failing search took without leaving a trace: its buffer was at address 0. */
  function Lost(free: set<nat>, memBase: nat, memSize: nat, bufSize: nat, n: nat): set<nat>
    requires memBase < WORD && bufSize > 0
  {
    if n == 0 then {} else
    var p := Share(free, memBase, memSize, bufSize, n - 1);
    if p.failed then Lost(free, memBase, memSize, bufSize, n - 1) else
    var (rest, buffer) := Search(p.free, Slot(memBase, bufSize, n - 1), memSize, bufSize);
    if buffer == 0 then p.free - rest else {}
  }

  lemma {:induction false} HeldNext(buffers: seq<nat>, buffer: nat, bufSize: nat)
    ensures Held(buffers + [buffer], bufSize) == Held(buffers, bufSize) + PagesOf(buffer, bufSize)
    ensures Disjoint(buffers, bufSize) && Held(buffers, bufSize) !! PagesOf(buffer, bufSize) ==>
              Disjoint(buffers + [buffer], bufSize)
  {
    assert (buffers + [buffer])[..|buffers|] == buffers;
    HeldEach(buffers, bufSize);
  }

  lemma {:induction false} OneMoreHeld(all: set<nat>, free: set<nat>, held: set<nat>, taken: set<nat>)
    requires Conserved(all, free, held, {}) && taken <= free
    ensures Conserved(all, free - taken, held + taken, {}) && held !! taken
  {
  }

  lemma {:induction false} SearchTakes(free: set<nat>, memBase: nat, memSize: nat, bufSize: nat)
    requires memBase < WORD && bufSize > 0
    ensures var (rest, buffer) := Search(free, memBase, memSize, bufSize);
            rest <= free &&
            (buffer != 0 ==> PagesOf(buffer, bufSize) <= free && rest == free - PagesOf(buffer, bufSize))
  {
  }

  /** The free, the held and the lost pages are disjoint and make up all. */
  predicate Conserved(all: set<nat>, free: set<nat>, held: set<nat>, lost: set<nat>) {
    free + held + lost == all && free !! held && lost !! free && lost !! held
  }

  lemma {:induction false} LoseSome(all: set<nat>, free: set<nat>, held: set<nat>, rest: set<nat>)
    requires Conserved(all, free, held, {}) && rest <= free
    ensures Conserved(all, rest, held, free - rest)
  {
    assert rest + (free - rest) == free;
  }

  /** At every point the free, the held and the lost pages make up what was free at the start. */
  lemma {:induction false} ShareConserves(free: set<nat>, memBase: nat, memSize: nat, bufSize: nat, n: nat)
    requires memBase < WORD && bufSize > 0
    ensures var p := Share(free, memBase, memSize, bufSize, n);
            var lost := Lost(free, memBase, memSize, bufSize, n);
            Conserved(free, p.free, Held(p.buffers, bufSize), lost) && Disjoint(p.buffers, bufSize) &&
            (!p.failed ==> lost == {})
  {
    if n > 0 {
      var p := Share(free, memBase, memSize, bufSize, n - 1);
      ShareConserves(free, memBase, memSize, bufSize, n - 1);
      if !p.failed {
        var base := Slot(memBase, bufSize, n - 1);
        SearchTakes(p.free, base, memSize, bufSize);
        var (rest, buffer) := Search(p.free, base, memSize, bufSize);
        if buffer != 0 {
          OneMoreHeld(free, p.free, Held(p.buffers, bufSize), PagesOf(buffer, bufSize));
          HeldNext(p.buffers, buffer, bufSize);
        } else {
          LoseSome(free, p.free, Held(p.buffers, bufSize), rest);
        }
      }
    }
  }

  /** A full free after a success restores the firmware's free pages. */
  lemma {:induction false} FreeUndoesShare(free: set<nat>, memBase: nat, memSize: nat, bufSize: nat, n: nat)
    requires memBase < WORD && bufSize > 0
    requires !Share(free, memBase, memSize, bufSize, n).failed
    ensures var p := Share(free, memBase, memSize, bufSize, n);
            |p.buffers| == n && p.buffers[..n] == p.buffers &&
            Disjoint(p.buffers, bufSize) && Held(p.buffers, bufSize) <= free && p.free !! Held(p.buffers, bufSize) &&
            p.free + Held(p.buffers[..n], bufSize) == free
  {
    ShareConserves(free, memBase, memSize, bufSize, n);
    assert Share(free, memBase, memSize, bufSize, n).buffers[..n] == Share(free, memBase, memSize, bufSize, n).buffers;
  }

  /** Away from the wrap-around only the first PE's first attempt can be at address 0. */
  lemma {:induction false} NullOnlyFirst(free: set<nat>, memBase: nat, memSize: nat, bufSize: nat)
    requires 0 < bufSize <= memSize && memBase + memSize <= WORD
    requires Search(free, memBase, memSize, bufSize).1 == 0
    ensures Search(free, memBase, memSize, bufSize).0 ==
            if memBase == 0 && Accepts(free, 0, bufSize) then free - PagesOf(0, bufSize) else free
  {
    var k := SearchMeaning(free, memBase, memSize, bufSize);
    if k > 0 {
      OffsetMonotone(bufSize, 1, k);
      assert Offset(bufSize, 0) == 0 && Offset(bufSize, 1) == bufSize;
    }
  }

  /** With all windows below the wrap-around, pages are lost exactly when page 0 starts the node and is free. */
  lemma {:induction false} LostOnlyAtZero(free: set<nat>, memBase: nat, memSize: nat, bufSize: nat, n: nat)
    requires 0 < bufSize <= memSize && memBase + Offset(bufSize, n) + memSize <= WORD
    ensures Lost(free, memBase, memSize, bufSize, n) ==
            if n > 0 && memBase == 0 && Accepts(free, 0, bufSize) then PagesOf(0, bufSize) else {}
    ensures n > 0 && memBase == 0 && Accepts(free, 0, bufSize) ==>
              Share(free, memBase, memSize, bufSize, n).failed
  {
    if n == 1 {
      var (rest, buffer) := Search(free, memBase, memSize, bufSize);
      assert Share(free, memBase, memSize, bufSize, 0) == Progress(free, [], false);
      assert Slot(memBase, bufSize, 0) == memBase;
      if buffer == 0 {
        NullOnlyFirst(free, memBase, memSize, bufSize);
      }
      if memBase == 0 && Accepts(free, 0, bufSize) {
        ZeroTakenFirst(free, memSize, bufSize);
      }
    } else if n > 1 {
      LostOnlyAtZero(free, memBase, memSize, bufSize, n - 1);
      var p := Share(free, memBase, memSize, bufSize, n - 1);
      if !p.failed {
        SlotIsMultiple(memBase, bufSize, n - 1);
        OffsetMonotone(bufSize, 1, n - 1);
        assert Offset(bufSize, 1) == bufSize;
        var base := Slot(memBase, bufSize, n - 1);
        if Search(p.free, base, memSize, bufSize).1 == 0 {
          NullOnlyFirst(p.free, base, memSize, bufSize);
        }
      }
    }
  }

  lemma {:induction false} ZeroTakenFirst(free: set<nat>, memSize: nat, bufSize: nat)
    requires 0 < bufSize <= memSize && Accepts(free, 0, bufSize)
    ensures Search(free, 0, memSize, bufSize) == (free - PagesOf(0, bufSize), 0)
  {
    assert Slot(0, bufSize, 0) == 0;
    assert Rounds(memSize, bufSize) > 0;
  }

  /**
    A failed call gives back everything exactly when the node does not start at address 0 or its
    first buffer is not free: a success at address 0 reads as NULL and is never freed.
   */
  lemma {:induction false} RollbackRestoresIff(free: set<nat>, memBase: nat, memSize: nat, bufSize: nat, n: nat)
    requires 0 < bufSize <= memSize && memBase + Offset(bufSize, n) + memSize <= WORD
    requires memBase < WORD && Share(free, memBase, memSize, bufSize, n).failed
    ensures var p := Share(free, memBase, memSize, bufSize, n);
            p.free + Held(p.buffers, bufSize) == free <==> !(memBase == 0 && Accepts(free, 0, bufSize))
  {
    ShareConserves(free, memBase, memSize, bufSize, n);
    LostOnlyAtZero(free, memBase, memSize, bufSize, n);
    assert SizeToPages(bufSize) > 0;
    assert 0 in PagesOf(0, bufSize);
  }

  /** Every PE searches a window as large as the node: here the second PE's buffer lies behind it. */
  lemma {:induction false} BufferBehind()
    ensures var p := Share({16, 18}, 0x1_0000, 0x2000, 0x1000, 2);
            !p.failed && p.buffers == [0x1_0000, 0x1_2000]
  {
    var free := {16, 18};
    assert Slot(0x1_0000, 0x1000, 0) == 0x1_0000 && Slot(0x1_0000, 0x1000, 1) == 0x1_1000;
    assert Slot(0x1_1000, 0x1000, 0) == 0x1_1000 && Slot(0x1_1000, 0x1000, 1) == 0x1_2000;
    assert Fits(0, 0x1000) == 0 && Fits(0x1000, 0x1000) == 1 && Rounds(0x2000, 0x1000) == 2;
    assert forall p :: p in PagesOf(0x1_0000, 0x1000) <==> p == 16;
    assert forall p :: p in PagesOf(0x1_1000, 0x1000) <==> p == 17;
    assert forall p :: p in PagesOf(0x1_2000, 0x1000) <==> p == 18;
    assert Accepts(free, 0x1_0000, 0x1000);
    var first := Share(free, 0x1_0000, 0x2000, 0x1000, 1);
    assert first == Progress(free - PagesOf(0x1_0000, 0x1000), [0x1_0000], false);
    assert 17 in PagesOf(0x1_1000, 0x1000) && !Accepts(first.free, 0x1_1000, 0x1000);
    assert Accepts(first.free, 0x1_2000, 0x1000);
    assert FirstAccepted(first.free, 0x1_1000, 0x1000, 1, 2) == Some(1);
    assert FirstAccepted(first.free, 0x1_1000, 0x1000, 0, 2) == Some(1);
  }
}
