/**
  Platform timers: the GTDT walk that fills the timer table, and the decoder that turns an instance
  number into a block and an index by subtracting the blocks' timer counts.
 */
module Timers {
  import opened Options

  /** One GT block timer structure of the GTDT (section 5.2.24 of ACPI 6.1). */
  datatype GtTimer = GtTimer(cntBase: nat, cntEl0Base: nat, gsiv: nat, virtGsiv: nat,
                             physicalFlags: bv32, virtualFlags: bv32, commonFlags: bv32)

  /** A platform timer structure: a GT block, or anything else (a watchdog). */
  datatype GtdtEntry = GtBlock(cntCtlBase: nat, timers: seq<GtTimer>) | OtherEntry

  /** What the table keeps of a timer. */
  datatype Slot = Slot(cntBase: nat, cntEl0Base: nat, gsiv: nat, virtGsiv: nat, flags: bv32)

  const MAX_TIMERS: nat := 8

  /** A block of the table. Its arrays have eight slots; slots[8] is what a read one past them finds. */
  datatype Block = Block(cntlBase: nat, timerCount: nat, slots: seq<Slot>)

  function SlotOf(t: GtTimer): Slot {
    Slot(t.cntBase, t.cntEl0Base, t.gsiv, t.virtGsiv,
         t.physicalFlags | (t.virtualFlags << 8) | (t.commonFlags << 16))
  }

  predicate Secure(s: Slot) {
    (s.flags >> 16) & 1 == 1
  }

  /** The flag bit that the decoder reads as secure: the common flags', or a stray higher one of the others. */
  predicate SecureTimer(t: GtTimer) {
    t.commonFlags & 1 != 0 || t.virtualFlags & 0x100 != 0 || t.physicalFlags & 0x1_0000 != 0
  }

  /** What the table keeps is the timer's own: addresses, both interrupts, and whether it is secure. */
  lemma {:induction false} SlotMeaning(t: GtTimer)
    ensures SlotOf(t).cntBase == t.cntBase && SlotOf(t).cntEl0Base == t.cntEl0Base
    ensures SlotOf(t).gsiv == t.gsiv && SlotOf(t).virtGsiv == t.virtGsiv
    ensures Secure(SlotOf(t)) <==> SecureTimer(t)
    ensures t.physicalFlags < 0x100 && t.virtualFlags < 0x100 ==>
              (Secure(SlotOf(t)) <==> t.commonFlags & 1 == 1) &&
              SlotOf(t).flags & 0xFF == t.physicalFlags && (SlotOf(t).flags >> 8) & 0xFF == t.virtualFlags
  {
    FlagBits(t.physicalFlags, t.virtualFlags, t.commonFlags);
  }

  lemma {:induction false} FlagBits(physical: bv32, virt: bv32, common: bv32)
    ensures ((physical | (virt << 8) | (common << 16)) >> 16) & 1 == 1 <==>
            common & 1 != 0 || virt & 0x100 != 0 || physical & 0x1_0000 != 0
    ensures physical < 0x100 && virt < 0x100 ==>
              ((physical | (virt << 8) | (common << 16)) & 0xFF == physical) &&
              ((physical | (virt << 8) | (common << 16)) >> 8) & 0xFF == virt &&
              virt & 0x100 == 0 && physical & 0x1_0000 == 0
    ensures common & 1 != 0 <==> common & 1 == 1
  {}

  predicate WellFormed(entry: GtdtEntry) {
    entry.GtBlock? ==> |entry.timers| <= MAX_TIMERS
  }

  /** The GT blocks among the entries, in order. */
  function GtBlocks(entries: seq<GtdtEntry>): (blocks: seq<GtdtEntry>)
    ensures |blocks| <= |entries|
    ensures forall b :: 0 <= b < |blocks| ==> blocks[b].GtBlock?
  {
    if |entries| == 0 then [] else
    var before := GtBlocks(entries[..|entries| - 1]);
    var last := entries[|entries| - 1];
    if last.GtBlock? then before + [last] else before
  }

  /** How many of the first n entries are GT blocks. */
  function BlocksBefore(entries: seq<GtdtEntry>, n: nat): nat
    requires n <= |entries|
  {
    if n == 0 then 0 else BlocksBefore(entries, n - 1) + if entries[n - 1].GtBlock? then 1 else 0
  }

  lemma {:induction false} BlocksCount(entries: seq<GtdtEntry>, k: nat)
    requires k <= |entries|
    ensures |GtBlocks(entries[..k])| == BlocksBefore(entries, k)
  {
    if k > 0 {
      BlocksCount(entries, k - 1);
      assert entries[..k][..k - 1] == entries[..k - 1];
    }
  }

  /** Each GT block among the first k entries, and nothing else, is kept, in the order of the entries. */
  lemma {:induction false} GtBlocksMeaning(entries: seq<GtdtEntry>, k: nat, n: nat)
    requires n < k <= |entries| && entries[n].GtBlock?
    ensures |GtBlocks(entries[..k])| == BlocksBefore(entries, k) > BlocksBefore(entries, n)
    ensures GtBlocks(entries[..k])[BlocksBefore(entries, n)] == entries[n]
  {
    BlocksCount(entries, k);
    BlocksCount(entries, k - 1);
    assert entries[..k][..k - 1] == entries[..k - 1];
    if n < k - 1 {
      GtBlocksMeaning(entries, k - 1, n);
    }
  }

  function Counts(blocks: seq<GtdtEntry>): (counts: seq<nat>)
    requires forall b :: 0 <= b < |blocks| ==> blocks[b].GtBlock?
    ensures |counts| == |blocks| && forall b :: 0 <= b < |blocks| ==> counts[b] == |blocks[b].timers|
  {
    seq(|blocks|, b requires 0 <= b < |blocks| => |blocks[b].timers|)
  }

  /** Number of timers in the first b blocks. */
  function Prefix(counts: seq<nat>, b: nat): nat
    requires b <= |counts|
  {
    if b == 0 then 0 else Prefix(counts, b - 1) + counts[b - 1]
  }

  lemma {:induction false} PrefixMonotone(counts: seq<nat>, a: nat, b: nat)
    requires a <= b <= |counts|
    ensures Prefix(counts, a) <= Prefix(counts, b)
  {
    if a < b {
      PrefixMonotone(counts, a, b - 1);
    }
  }

  /** 0-based lookup in the concatenation of all blocks' timers: the position of instance i. */
  predicate FlatAt(counts: seq<nat>, i: nat, b: nat, k: nat) {
    b < |counts| && k < counts[b] && Prefix(counts, b) + k == i
  }

  /** Where the decoder stops: the index is at most the count, and 0 only for instance 0. */
  predicate DecodesTo(counts: seq<nat>, i: nat, b: nat, k: nat) {
    b < |counts| && k <= counts[b] && Prefix(counts, b) + k == i && (if i == 0 then b == 0 else k > 0)
  }

  /** The decoder's answer is determined by this. */
  lemma {:induction false} DecodeUnique(counts: seq<nat>, i: nat, b: nat, k: nat, b': nat, k': nat)
    requires DecodesTo(counts, i, b, k) && DecodesTo(counts, i, b', k')
    ensures b == b' && k == k'
  {
    if b < b' {
      PrefixMonotone(counts, b + 1, b');
    } else if b' < b {
      PrefixMonotone(counts, b' + 1, b);
    }
  }

  lemma {:induction false} FlatUnique(counts: seq<nat>, i: nat, b: nat, k: nat, b': nat, k': nat)
    requires FlatAt(counts, i, b, k) && FlatAt(counts, i, b', k')
    ensures b == b' && k == k'
  {
    if b < b' {
      PrefixMonotone(counts, b + 1, b');
    } else if b' < b {
      PrefixMonotone(counts, b' + 1, b);
    }
  }

  /** Instance i is the number of timers in some first blocks, at least one. */
  predicate IsBoundary(counts: seq<nat>, i: nat) {
    exists c :: 1 <= c <= |counts| && Prefix(counts, c) == i
  }

  /**
    The decoder finds the timer a 0-based flat lookup finds exactly for the in-range instances
    that are not a boundary between blocks.
   */
  lemma {:induction false} DecodeAgreesIff(counts: seq<nat>, i: nat, b: nat, k: nat)
    requires DecodesTo(counts, i, b, k) && i < Prefix(counts, |counts|)
    ensures FlatAt(counts, i, b, k) <==> !IsBoundary(counts, i)
  {
    if k == counts[b] {
      assert Prefix(counts, b + 1) == i;
    } else if c :| 1 <= c <= |counts| && Prefix(counts, c) == i {
      if c <= b {
        PrefixMonotone(counts, c, b);
      } else {
        PrefixMonotone(counts, b + 1, c);
      }
    }
  }

  /** The first timer of a later block is out of reach: no instance decodes to it. */
  lemma {:induction false} FirstTimerUnreachable(counts: seq<nat>, b: nat)
    requires 1 <= b < |counts|
    ensures forall i :: !DecodesTo(counts, i, b, 0)
  {
  }

  /** The flat instance of that timer reads one slot past an earlier block's timers instead. */
  lemma {:induction false} BoundaryReadsPastBlock(counts: seq<nat>, b: nat, i: nat, c: nat, k: nat)
    requires 1 <= b < |counts| && FlatAt(counts, i, b, 0) && 0 < i && DecodesTo(counts, i, c, k)
    ensures c < b && k == counts[c]
  {
    if b <= c {
      PrefixMonotone(counts, b, c);
    } else {
      PrefixMonotone(counts, c + 1, b);
    }
  }

  /** The block holds exactly these timers in its first slots, and the other slots are as before. */
  predicate Holds(block: Block, before: Block, entry: GtdtEntry) {
    entry.GtBlock? && |before.slots| == MAX_TIMERS + 1 == |block.slots| && |entry.timers| <= MAX_TIMERS &&
    block.cntlBase == entry.cntCtlBase && block.timerCount == |entry.timers| &&
    (forall k :: 0 <= k < |entry.timers| ==> block.slots[k] == SlotOf(entry.timers[k])) &&
    (forall k :: |entry.timers| <= k <= MAX_TIMERS ==> block.slots[k] == before.slots[k])
  }

  class TimerTable {
    var numPlatformTimer: nat
    var gtInfo: seq<Block>      // the memory behind the header, as far as it goes

    ghost predicate Roomy(entries: seq<GtdtEntry>)
      reads this
    {
      |GtBlocks(entries)| < |gtInfo| && forall b :: 0 <= b < |gtInfo| ==> |gtInfo[b].slots| == MAX_TIMERS + 1
    }

    /** What the walk leaves: the header counts all timers, and each GT block is in its place. */
    ghost predicate Filled(blocks: seq<GtdtEntry>, before: seq<Block>)
      requires forall b :: 0 <= b < |blocks| ==> blocks[b].GtBlock?
      reads this
    {
      |gtInfo| == |before| && |blocks| < |gtInfo| &&
      numPlatformTimer == Prefix(Counts(blocks), |blocks|) &&
      (forall b :: 0 <= b < |blocks| ==> Holds(gtInfo[b], before[b], blocks[b])) &&
      (forall b :: |blocks| <= b < |gtInfo| ==> gtInfo[b] == before[b])
    }

    constructor (memory: seq<Block>)
      ensures gtInfo == memory && numPlatformTimer == 0
    {
      gtInfo, numPlatformTimer := memory, 0;
    }

    /** One GT block: the count goes in first, then the timers one by one. */
    method FillBlock(b: nat, entry: GtdtEntry)
      requires b < |gtInfo| && |gtInfo[b].slots| == MAX_TIMERS + 1
      requires entry.GtBlock? && WellFormed(entry)
      modifies this
      ensures |gtInfo| == |old(gtInfo)| && Holds(gtInfo[b], old(gtInfo)[b], entry)
      ensures forall c :: 0 <= c < |gtInfo| && c != b ==> gtInfo[c] == old(gtInfo)[c]
      ensures numPlatformTimer == old(numPlatformTimer) + |entry.timers|
    {
      var block := gtInfo[b].(cntlBase := entry.cntCtlBase, timerCount := |entry.timers|);
      var i := 0;
      while i < block.timerCount
        invariant 0 <= i <= |entry.timers| == block.timerCount
        invariant block.cntlBase == entry.cntCtlBase && |block.slots| == MAX_TIMERS + 1
        invariant forall k :: 0 <= k < i ==> block.slots[k] == SlotOf(entry.timers[k])
        invariant forall k :: i <= k <= MAX_TIMERS ==> block.slots[k] == old(gtInfo)[b].slots[k]
        invariant numPlatformTimer == old(numPlatformTimer) + i && gtInfo == old(gtInfo)
      {
        block := block.(slots := block.slots[i := SlotOf(entry.timers[i])]);
        numPlatformTimer := numPlatformTimer + 1;
        i := i + 1;
      }
      gtInfo := gtInfo[b := block];
    }

    /** One GT block more. */
    method FillNext(entry: GtdtEntry, b: nat, ghost blocks: seq<GtdtEntry>, ghost before: seq<Block>)
      requires (forall c :: 0 <= c < |blocks| ==> blocks[c].GtBlock?) && Filled(blocks, before)
      requires b == |blocks| && b + 1 < |gtInfo| && |before[b].slots| == MAX_TIMERS + 1
      requires entry.GtBlock? && WellFormed(entry)
      modifies this
      ensures Filled(blocks + [entry], before)
    {
      CountsNext(blocks, entry);
      FillBlock(b, entry);
    }

    /** pal_timer_create_info_table, on the platform timer structures the table announces. */
    method CreateInfoTable(entries: seq<GtdtEntry>)
      requires Roomy(entries) && forall e :: e in entries ==> WellFormed(e)
      modifies this
      ensures Filled(GtBlocks(entries), old(gtInfo))
    {
      numPlatformTimer := 0;
      var gtEntry := 0;
      ghost var blocks := [];
      assert entries[..0] == [];
      for n := 0 to |entries|
        invariant blocks == GtBlocks(entries[..n]) && gtEntry == |blocks|
        invariant Filled(blocks, old(gtInfo))
      {
        BlocksNext(entries, n);
        if entries[n].GtBlock? {
          FillNext(entries[n], gtEntry, blocks, old(gtInfo));
          blocks := blocks + [entries[n]];
          gtEntry := gtEntry + 1;
        }
      }
      assert entries[..|entries|] == entries;
    }

    /** The slot the decoder leads an instance to. */
    ghost function SlotRead(counts: seq<nat>, i: nat): Slot
      reads this
      requires 0 < |counts| <= |gtInfo| && i <= Prefix(counts, |counts|)
      requires forall b :: 0 <= b < |counts| ==> counts[b] == gtInfo[b].timerCount <= MAX_TIMERS
      requires forall b :: 0 <= b < |gtInfo| ==> |gtInfo[b].slots| == MAX_TIMERS + 1
    {
      DecodeMeaning(counts, 0, i);
      var at := Decode(counts, 0, i);
      gtInfo[at.0].slots[at.1]
    }

    /** The counts the table holds are these, and its header has their sum. */
    ghost predicate Counted(counts: seq<nat>)
      reads this
    {
      |counts| < |gtInfo| && numPlatformTimer == Prefix(counts, |counts|) &&
      (forall b :: 0 <= b < |counts| ==> counts[b] == gtInfo[b].timerCount <= MAX_TIMERS) &&
      (forall b :: 0 <= b < |gtInfo| ==> |gtInfo[b].slots| == MAX_TIMERS + 1)
    }

    /**
      The platform and validation layers' decoder; they differ in the value for invalid only. An
      instance above the number of timers is refused, and index is then not written. In an empty
      table instance 0 passes the test and ends at block 0.
     */
    method GetEntryIndex(instance: nat, invalid: nat, ghost counts: seq<nat>)
      returns (block: nat, index: Option<nat>)
      requires Counted(counts)
      ensures instance > Prefix(counts, |counts|) ==> block == invalid && index == None
      ensures instance <= Prefix(counts, |counts|) ==>
                index.Some? &&
                if |counts| == 0 then (block, index.value) == (0, 0)
                else DecodesTo(counts, instance, block, index.value) &&
                     (block, index.value) == Decode(counts, 0, instance)
    {
      if instance > numPlatformTimer {
        return invalid, None;
      }
      block := 0;
      var rest := instance;
      while rest > gtInfo[block].timerCount
        invariant block < |counts| || (block == |counts| == 0)
        invariant Prefix(counts, block) + rest == instance && (block > 0 ==> rest > 0)
        decreases |counts| - block
      {
        rest := rest - gtInfo[block].timerCount;
        block := block + 1;
      }
      index := Some(rest);
      if |counts| > 0 {
        DecodeMeaning(counts, 0, instance);
        var at := Decode(counts, 0, instance);
        DecodeUnique(counts, instance, block, rest, at.0, at.1);
      }
    }

    /** pal_timer_get_info for the security flag and the interrupt of an instance in range. */
    method GetInfo(instance: nat, ghost counts: seq<nat>) returns (secure: bool, gsiv: nat)
      requires Counted(counts) && instance < Prefix(counts, |counts|)
      ensures |counts| > 0 && secure == Secure(SlotRead(counts, instance)) && gsiv == SlotRead(counts, instance).gsiv
    {
      var block, index := GetEntryIndex(instance, 0xFFFF_FFFF, counts);
      var slot := gtInfo[block].slots[index.value];
      secure, gsiv := Secure(slot), slot.gsiv;
    }

    /** The highest instance whose decoded slot is non-secure, with its interrupt; or there is none. */
    ghost predicate HighestNonSecure(counts: seq<nat>, found: Option<(nat, nat)>)
      requires Counted(counts)
      reads this
    {
      match found
      case None => forall i :: 0 <= i < numPlatformTimer ==> |counts| > 0 && Secure(SlotRead(counts, i))
      case Some((i, gsiv)) =>
        |counts| > 0 && i < numPlatformTimer && gsiv == SlotRead(counts, i).gsiv && !Secure(SlotRead(counts, i)) &&
        forall j :: i < j < numPlatformTimer ==> Secure(SlotRead(counts, j))
    }

    /** pal_configure_second_interrupt; None is the error. */
    method ConfigureSecondInterrupt(ghost counts: seq<nat>) returns (found: Option<(nat, nat)>)
      requires Counted(counts)
      ensures HighestNonSecure(counts, found)
    {
      var timerNum: nat := numPlatformTimer;
      found := None;
      while timerNum > 0 && found.None?
        invariant timerNum <= numPlatformTimer
        invariant found.None? ==>
                    forall j :: timerNum <= j < numPlatformTimer ==> |counts| > 0 && Secure(SlotRead(counts, j))
        invariant found.Some? ==>
                    |counts| > 0 && found.value.0 == timerNum < numPlatformTimer &&
                    found.value.1 == SlotRead(counts, timerNum).gsiv && !Secure(SlotRead(counts, timerNum)) &&
                    forall j :: timerNum < j < numPlatformTimer ==> Secure(SlotRead(counts, j))
      {
        timerNum := timerNum - 1;
        var secure, gsiv := GetInfo(timerNum, counts);
        if !secure {
          found := Some((timerNum, gsiv));
        }
      }
    }
  }

  /** Where the decoder stops when it starts at block b. */
  function Decode(counts: seq<nat>, b: nat, index: nat): (at: (nat, nat))
    requires b < |counts|
    ensures at.0 < |counts|
    decreases |counts| - b
  {
    if index > counts[b] && b + 1 < |counts| then Decode(counts, b + 1, index - counts[b]) else (b, index)
  }

  lemma {:induction false} DecodeMeaning(counts: seq<nat>, b: nat, index: nat)
    requires b < |counts| && Prefix(counts, b) + index <= Prefix(counts, |counts|) && (b > 0 ==> index > 0)
    ensures var at := Decode(counts, b, index); DecodesTo(counts, Prefix(counts, b) + index, at.0, at.1)
    decreases |counts| - b
  {
    if index > counts[b] {
      if b + 1 < |counts| {
        DecodeMeaning(counts, b + 1, index - counts[b]);
      }
    }
  }

  lemma {:induction false} BlocksGrow(entries: seq<GtdtEntry>, n: nat)
    requires n <= |entries|
    ensures |GtBlocks(entries[..n])| <= |GtBlocks(entries)|
  {
    if n < |entries| {
      var shorter := entries[..|entries| - 1];
      BlocksGrow(shorter, n);
      assert shorter[..n] == entries[..n];
    } else {
      assert entries[..n] == entries;
    }
  }

  lemma {:induction false} PrefixStable(a: seq<nat>, b: seq<nat>, n: nat)
    requires n <= |a| && n <= |b| && a[..n] == b[..n]
    ensures Prefix(a, n) == Prefix(b, n)
  {
    if n > 0 {
      assert a[..n][..n - 1] == a[..n - 1] && b[..n][..n - 1] == b[..n - 1];
      assert a[n - 1] == a[..n][n - 1] && b[n - 1] == b[..n][n - 1];
      PrefixStable(a, b, n - 1);
    }
  }

  /** What one more entry adds to the blocks. */
  lemma {:induction false} BlocksNext(entries: seq<GtdtEntry>, n: nat)
    requires n < |entries|
    ensures |GtBlocks(entries[..n + 1])| <= |GtBlocks(entries)|
    ensures GtBlocks(entries[..n + 1]) ==
            GtBlocks(entries[..n]) + if entries[n].GtBlock? then [entries[n]] else []
  {
    assert entries[..n + 1][..n] == entries[..n];
    BlocksGrow(entries, n + 1);
  }

  /** And what one more block adds to the number of timers. */
  lemma {:induction false} CountsNext(blocks: seq<GtdtEntry>, entry: GtdtEntry)
    requires forall c :: 0 <= c < |blocks| ==> blocks[c].GtBlock?
    requires entry.GtBlock?
    ensures Prefix(Counts(blocks + [entry]), |blocks| + 1) == Prefix(Counts(blocks), |blocks|) + |entry.timers|
  {
    assert Counts(blocks + [entry])[..|blocks|] == Counts(blocks)[..|blocks|];
    PrefixStable(Counts(blocks + [entry]), Counts(blocks), |blocks|);
  }

  lemma {:induction false} DecodeFlat(counts: seq<nat>, i: nat, b: nat, k: nat)
    requires FlatAt(counts, i, b, k) && !IsBoundary(counts, i)
    ensures i <= Prefix(counts, |counts|) && Decode(counts, 0, i) == (b, k)
  {
    PrefixMonotone(counts, b + 1, |counts|);
    DecodeMeaning(counts, 0, i);
    var at := Decode(counts, 0, i);
    DecodeAgreesIff(counts, i, at.0, at.1);
    FlatUnique(counts, i, b, k, at.0, at.1);
  }

  /** After the walk the decoder's assumptions hold, for the counts of the GT blocks found. */
  lemma {:induction false} WalkThenDecode(table: TimerTable, entries: seq<GtdtEntry>, before: seq<Block>)
    requires table.Filled(GtBlocks(entries), before)
    requires forall b :: 0 <= b < |before| ==> |before[b].slots| == MAX_TIMERS + 1
    ensures table.Counted(Counts(GtBlocks(entries)))
  {
    forall b | 0 <= b < |table.gtInfo|
      ensures |table.gtInfo[b].slots| == MAX_TIMERS + 1
    {
      if b < |GtBlocks(entries)| {
        assert Holds(table.gtInfo[b], before[b], GtBlocks(entries)[b]);
      }
    }
  }

  /**
    On a table the walk filled, an instance that is no boundary between blocks leads to the timer
    that a flat 0-based lookup over the GT blocks leads to.
   */
  lemma {:induction false} WalkedTimerFound(table: TimerTable, entries: seq<GtdtEntry>, before: seq<Block>,
                                            counts: seq<nat>, i: nat, b: nat, k: nat)
    requires counts == Counts(GtBlocks(entries))
    requires table.Filled(GtBlocks(entries), before)
    requires forall c :: 0 <= c < |before| ==> |before[c].slots| == MAX_TIMERS + 1
    requires FlatAt(counts, i, b, k) && !IsBoundary(counts, i)
    ensures table.Counted(counts) && i <= Prefix(counts, |counts|)
    ensures var slot, timer := table.SlotRead(counts, i), GtBlocks(entries)[b].timers[k];
            slot == SlotOf(timer) && slot.gsiv == timer.gsiv && (Secure(slot) <==> SecureTimer(timer))
  {
    WalkThenDecode(table, entries, before);
    DecodeFlat(counts, i, b, k);
    SlotMeaning(GtBlocks(entries)[b].timers[k]);
    assert Holds(table.gtInfo[b], before[b], GtBlocks(entries)[b]);
  }

  /** The table is as the walk over these entries left it. */
  ghost predicate Walked(table: TimerTable, entries: seq<GtdtEntry>, before: seq<Block>, counts: seq<nat>)
    reads table
  {
    counts == Counts(GtBlocks(entries)) && table.Filled(GtBlocks(entries), before) &&
    forall c :: 0 <= c < |before| ==> |before[c].slots| == MAX_TIMERS + 1
  }

  /** The timer with flat instance i. */
  ghost predicate TimerAt(entries: seq<GtdtEntry>, counts: seq<nat>, i: nat, timer: GtTimer)
    requires counts == Counts(GtBlocks(entries))
  {
    exists b: nat, k: nat :: FlatAt(counts, i, b, k) && timer == GtBlocks(entries)[b].timers[k]
  }

  /** What an instance in range reads on a walked table: its timer, or at a boundary what lay there before. */
  lemma {:induction false} DecodedSlot(table: TimerTable, entries: seq<GtdtEntry>, before: seq<Block>,
                                       counts: seq<nat>, i: nat)
    requires Walked(table, entries, before, counts) && |counts| > 0 && i < Prefix(counts, |counts|)
    ensures table.Counted(counts)
    ensures var (b, k) := Decode(counts, 0, i);
            if IsBoundary(counts, i) then
              k == counts[b] && b < |before| && k < |before[b].slots| && table.SlotRead(counts, i) == before[b].slots[k]
            else FlatAt(counts, i, b, k) && table.SlotRead(counts, i) == SlotOf(GtBlocks(entries)[b].timers[k])
  {
    WalkThenDecode(table, entries, before);
    DecodeMeaning(counts, 0, i);
    var (b, k) := Decode(counts, 0, i);
    DecodeAgreesIff(counts, i, b, k);
    assert Holds(table.gtInfo[b], before[b], GtBlocks(entries)[b]);
  }

  /**
    The interrupt found belongs to a timer of the GTDT if and only if the instance found is no
    boundary between blocks.  Then it is a non-secure timer's, and every timer behind it that the
    decoder can reach is secure; else it is what the slot behind a block's timers happened to hold.
   */
  lemma {:induction false} SecondInterruptMeaning(table: TimerTable, entries: seq<GtdtEntry>, before: seq<Block>,
                                                  counts: seq<nat>, i: nat, gsiv: nat)
    requires Walked(table, entries, before, counts) && table.Counted(counts)
    requires table.HighestNonSecure(counts, Some((i, gsiv)))
    ensures |counts| > 0 && i < Prefix(counts, |counts|)
    ensures Decode(counts, 0, i).1 < counts[Decode(counts, 0, i).0] <==> !IsBoundary(counts, i)
    ensures !IsBoundary(counts, i) ==>
              exists timer :: TimerAt(entries, counts, i, timer) && !SecureTimer(timer) && timer.gsiv == gsiv
    ensures forall j: nat, timer | i < j && !IsBoundary(counts, j) && TimerAt(entries, counts, j, timer) ::
              SecureTimer(timer)
  {
    DecodedSlot(table, entries, before, counts, i);
    var (b, k) := Decode(counts, 0, i);
    if !IsBoundary(counts, i) {
      SlotMeaning(GtBlocks(entries)[b].timers[k]);
      assert TimerAt(entries, counts, i, GtBlocks(entries)[b].timers[k]);
    }
    forall j: nat, timer | i < j && !IsBoundary(counts, j) && TimerAt(entries, counts, j, timer)
      ensures SecureTimer(timer)
    {
      LaterTimerSecure(table, entries, before, counts, j, timer);
    }
  }

  lemma {:induction false} LaterTimerSecure(table: TimerTable, entries: seq<GtdtEntry>, before: seq<Block>,
                                            counts: seq<nat>, j: nat, timer: GtTimer)
    requires Walked(table, entries, before, counts) && table.Counted(counts) && |counts| > 0
    requires !IsBoundary(counts, j) && TimerAt(entries, counts, j, timer)
    ensures j < Prefix(counts, |counts|) && (Secure(table.SlotRead(counts, j)) <==> SecureTimer(timer))
  {
    var b: nat, k: nat :| FlatAt(counts, j, b, k) && timer == GtBlocks(entries)[b].timers[k];
    PrefixMonotone(counts, b + 1, |counts|);
    DecodedSlot(table, entries, before, counts, j);
    var (c, m) := Decode(counts, 0, j);
    FlatUnique(counts, j, b, k, c, m);
    SlotMeaning(timer);
  }

  const BLANK: Slot := Slot(0, 0, 0, 0, 0)

  /**
    In zeroed memory, with more than one block and all timers secure, there is nothing to find, and
    still success is returned, with interrupt 0, if some boundary is in range.
   */
  lemma {:induction false} BlankSlotFound(table: TimerTable, entries: seq<GtdtEntry>, before: seq<Block>,
                                          counts: seq<nat>, found: Option<(nat, nat)>, boundary: nat)
    requires Walked(table, entries, before, counts) && table.Counted(counts) && table.HighestNonSecure(counts, found)
    requires forall b, k :: 0 <= b < |before| && 0 <= k < |before[b].slots| ==> before[b].slots[k] == BLANK
    requires boundary < Prefix(counts, |counts|) && IsBoundary(counts, boundary)
    requires forall i: nat, timer :: TimerAt(entries, counts, i, timer) ==> SecureTimer(timer)
    ensures found.Some? && found.value.1 == 0 && IsBoundary(counts, found.value.0)
  {
    assert !Secure(BLANK);
    DecodedSlot(table, entries, before, counts, boundary);
    assert found.Some?;
    var i := found.value.0;
    DecodedSlot(table, entries, before, counts, i);
    if !IsBoundary(counts, i) {
      var (b, k) := Decode(counts, 0, i);
      var timer := GtBlocks(entries)[b].timers[k];
      assert TimerAt(entries, counts, i, timer);
      SlotMeaning(timer);
      assert false;
    }
  }
}
