/**
  The pool of secondary stacks: why the slots the boot PE addresses by table index fit in the
  pool that was sized from the affinity maxima, and which slot a PE finds for itself.
 */
module Stacks {
  import opened Counting
  import opened Mpidr
  import opened Madt

  /** PeStackTop(i), the lowest address of slot i; its first two words are the mailbox. */
  function PeStackTop(base: nat, i: nat): int {
    base + (i - 1) * SIZE_STACK_SECONDARY_PE
  }

  ghost predicate SlotInPool(base: nat, bytes: nat, i: nat) {
    base <= PeStackTop(base, i) && PeStackTop(base, i) + SIZE_STACK_SECONDARY_PE <= base + bytes
  }

  /** No two PEs of the table agree on all four affinity fields. */
  ghost predicate DistinctAffinities(table: seq<PeEntry>) {
    forall i, j :: 0 <= i < j < |table| ==> Fields(table[i].mpidr) != Fields(table[j].mpidr)
  }

  ghost predicate Within(a: Affinity, max: Affinity) {
    a.aff0 <= max.aff0 && a.aff1 <= max.aff1 && a.aff2 <= max.aff2 && a.aff3 <= max.aff3
  }

  /** The multiply-add chain of ModuleEntryPoint: the position of a PE in the affinity space. */
  function CorePos(a: Affinity, max: Affinity): nat {
    var n0, n1, n2 := max.aff0 + 1, max.aff1 + 1, max.aff2 + 1;
    a.aff3 * (n0 * n1 * n2) + (a.aff2 * (n0 * n1) + (a.aff1 * n0 + a.aff0))
  }

  /** The address that start-up code hands to CEntryPoint: one slot below the own position. */
  function StartupAddress(base: nat, a: Affinity, max: Affinity): int {
    base + CorePos(a, max) * SIZE_STACK_SECONDARY_PE - SIZE_STACK_SECONDARY_PE
  }

  lemma {:induction false} MulMonotone(r: nat, x: nat, y: nat)
    requires x < y
    ensures r * x + r <= r * y
  {
    if y == x + 1 {
      assert r * y == r * x + r;
    } else {
      MulMonotone(r, x, y - 1);
      assert r * y == r * (y - 1) + r;
    }
  }

  /** One digit of a mixed-radix numeral. */
  lemma {:induction false} DigitUnique(low: nat, high: nat, low': nat, high': nat, radix: nat)
    requires low < radix && low' < radix
    requires low + radix * high == low' + radix * high'
    ensures low == low' && high == high'
  {
    if high < high' {
      MulMonotone(radix, high, high');
    } else if high > high' {
      MulMonotone(radix, high', high);
    }
  }

  lemma {:induction false} DigitBound(low: nat, high: nat, radix: nat, limit: nat)
    requires low < radix && high < limit
    ensures low + radix * high < radix * limit
  {
    MulMonotone(radix, high, limit);
  }

  /** CorePos as nested digits, Aff0 innermost. */
  function Nested(a: Affinity, n0: nat, n1: nat, n2: nat): nat {
    a.aff0 + n0 * (a.aff1 + n1 * (a.aff2 + n2 * a.aff3))
  }

  lemma {:induction false} Regroup(n0: nat, n1: nat, n2: nat, a1: nat, a2: nat, a3: nat)
    ensures n0 * (a1 + n1 * (a2 + n2 * a3)) == a3 * (n0 * n1 * n2) + (a2 * (n0 * n1) + a1 * n0)
  {
    var h2 := a2 + n2 * a3;
    calc {
      n0 * (a1 + n1 * h2);
      n0 * a1 + n0 * (n1 * h2);
      { assert n0 * (n1 * h2) == (n0 * n1) * h2; }
      n0 * a1 + (n0 * n1) * h2;
      n0 * a1 + ((n0 * n1) * a2 + (n0 * n1) * (n2 * a3));
      { assert (n0 * n1) * (n2 * a3) == a3 * (n0 * n1 * n2); }
      n0 * a1 + (n0 * n1) * a2 + a3 * (n0 * n1 * n2);
    }
  }

  lemma {:induction false} CorePosNested(a: Affinity, max: Affinity)
    ensures CorePos(a, max) == Nested(a, max.aff0 + 1, max.aff1 + 1, max.aff2 + 1)
  {
    Regroup(max.aff0 + 1, max.aff1 + 1, max.aff2 + 1, a.aff1, a.aff2, a.aff3);
  }

  lemma {:induction false} NestedUnique(a: Affinity, b: Affinity, n0: nat, n1: nat, n2: nat)
    requires a.aff0 < n0 && a.aff1 < n1 && a.aff2 < n2
    requires b.aff0 < n0 && b.aff1 < n1 && b.aff2 < n2
    requires Nested(a, n0, n1, n2) == Nested(b, n0, n1, n2)
    ensures a == b
  {
    var g2, h2 := a.aff2 + n2 * a.aff3, b.aff2 + n2 * b.aff3;
    var g1, h1 := a.aff1 + n1 * g2, b.aff1 + n1 * h2;
    assert a.aff0 == b.aff0 && g1 == h1 by {
      DigitUnique(a.aff0, g1, b.aff0, h1, n0);
    }
    assert a.aff1 == b.aff1 && g2 == h2 by {
      DigitUnique(a.aff1, g2, b.aff1, h2, n1);
    }
    assert a.aff2 == b.aff2 && a.aff3 == b.aff3 by {
      DigitUnique(a.aff2, a.aff3, b.aff2, b.aff3, n2);
    }
  }

  /** Distinct PEs inside the maxima have distinct positions. */
  lemma {:induction false} CorePosInjective(a: Affinity, b: Affinity, max: Affinity)
    requires Within(a, max) && Within(b, max) && CorePos(a, max) == CorePos(b, max)
    ensures a == b
  {
    CorePosNested(a, max);
    CorePosNested(b, max);
    NestedUnique(a, b, max.aff0 + 1, max.aff1 + 1, max.aff2 + 1);
  }

  /** One PE comes before another: by Aff3 first, then Aff2, Aff1 and Aff0. */
  predicate Before(a: Affinity, b: Affinity) {
    if a.aff3 != b.aff3 then a.aff3 < b.aff3
    else if a.aff2 != b.aff2 then a.aff2 < b.aff2
    else if a.aff1 != b.aff1 then a.aff1 < b.aff1
    else a.aff0 < b.aff0
  }

  /** Two two-digit numerals compare by the high digit first. */
  lemma {:induction false} DigitOrder(low: nat, high: nat, low': nat, high': nat, radix: nat)
    requires low < radix && low' < radix
    ensures low + radix * high < low' + radix * high' <==> high < high' || (high == high' && low < low')
  {
    if high < high' {
      MulMonotone(radix, high, high');
    } else if high > high' {
      MulMonotone(radix, high', high);
    }
  }

  lemma {:induction false} NestedOrder(a: Affinity, b: Affinity, n0: nat, n1: nat, n2: nat)
    requires a.aff0 < n0 && a.aff1 < n1 && a.aff2 < n2
    requires b.aff0 < n0 && b.aff1 < n1 && b.aff2 < n2
    ensures Nested(a, n0, n1, n2) < Nested(b, n0, n1, n2) <==> Before(a, b)
  {
    var g2, h2 := a.aff2 + n2 * a.aff3, b.aff2 + n2 * b.aff3;
    var g1, h1 := a.aff1 + n1 * g2, b.aff1 + n1 * h2;
    DigitOrder(a.aff2, a.aff3, b.aff2, b.aff3, n2);
    DigitOrder(b.aff2, b.aff3, a.aff2, a.aff3, n2);
    DigitOrder(a.aff1, g2, b.aff1, h2, n1);
    DigitOrder(b.aff1, h2, a.aff1, g2, n1);
    DigitOrder(a.aff0, g1, b.aff0, h1, n0);
  }

  /** Positions follow the affinities, Aff3 first. */
  lemma {:induction false} CorePosOrder(a: Affinity, b: Affinity, max: Affinity)
    requires Within(a, max) && Within(b, max)
    ensures CorePos(a, max) < CorePos(b, max) <==> Before(a, b)
  {
    CorePosNested(a, max);
    CorePosNested(b, max);
    NestedOrder(a, b, max.aff0 + 1, max.aff1 + 1, max.aff2 + 1);
  }

  /** Every position is below the slot count. */
  lemma {:induction false} CorePosBound(a: Affinity, max: Affinity)
    requires Within(a, max)
    ensures CorePos(a, max) < Slots(max)
  {
    var n0, n1, n2, n3 := max.aff0 + 1, max.aff1 + 1, max.aff2 + 1, max.aff3 + 1;
    CorePosNested(a, max);
    var h2 := a.aff2 + n2 * a.aff3;
    var h1 := a.aff1 + n1 * h2;
    DigitBound(a.aff2, a.aff3, n2, n3);
    DigitBound(a.aff1, h2, n1, n2 * n3);
    DigitBound(a.aff0, h1, n0, n1 * (n2 * n3));
    assert n0 * (n1 * (n2 * n3)) == n3 * n2 * n1 * n0 by {
      assert n1 * (n2 * n3) == (n3 * n2) * n1;
    }
  }

  lemma {:induction false} WithinMaxima(table: seq<PeEntry>, i: nat)
    requires i < |table|
    ensures Within(Fields(table[i].mpidr), MaxAffinity(table))
  {
    if i < |table| - 1 {
      WithinMaxima(table[..|table| - 1], i);
    }
  }

  function Positions(table: seq<PeEntry>, max: Affinity): (s: seq<nat>)
    ensures |s| == |table|
  {
    seq(|table|, i requires 0 <= i < |table| => CorePos(Fields(table[i].mpidr), max))
  }

  ghost predicate DistinctBelow(s: seq<nat>, bound: nat) {
    (forall i :: 0 <= i < |s| ==> s[i] < bound) && forall i, j :: 0 <= i < j < |s| ==> s[i] != s[j]
  }

  lemma {:induction false} DistinctCount(s: seq<nat>, bound: nat)
    requires DistinctBelow(s, bound)
    ensures |s| <= bound
  {
    Pigeonhole(s, bound);
  }

  /** Distinct PEs have distinct positions, all of them below the slot count. */
  lemma {:induction false} PositionsDistinct(table: seq<PeEntry>)
    requires DistinctAffinities(table)
    ensures DistinctBelow(Positions(table, MaxAffinity(table)), Slots(MaxAffinity(table)))
  {
    var max := MaxAffinity(table);
    var s := Positions(table, max);
    forall i | 0 <= i < |s|
      ensures s[i] < Slots(max)
    {
      WithinMaxima(table, i);
      CorePosBound(Fields(table[i].mpidr), max);
    }
    forall i, j | 0 <= i < j < |s|
      ensures s[i] != s[j]
    {
      WithinMaxima(table, i);
      WithinMaxima(table, j);
      if s[i] == s[j] {
        CorePosInjective(Fields(table[i].mpidr), Fields(table[j].mpidr), max);
      }
    }
  }

  /** However sparse the numbering, the maxima allow for at least as many PEs as there are. */
  lemma {:induction false} StackPigeonhole(table: seq<PeEntry>)
    requires DistinctAffinities(table)
    ensures |table| <= Slots(MaxAffinity(table))
  {
    PositionsDistinct(table);
    DistinctCount(Positions(table, MaxAffinity(table)), Slots(MaxAffinity(table)));
  }

  lemma {:induction false} NoWrap(n: nat)
    requires n * SIZE_STACK_SECONDARY_PE < 0x1_0000_0000
    ensures n % 0x1_0000_0000 * SIZE_STACK_SECONDARY_PE % 0x1_0000_0000 ==
            n * SIZE_STACK_SECONDARY_PE
  {}

  /**
    Every slot that the boot PE addresses by table index is inside the allocated pool if and only
    if the pool, whose byte count is taken in 32 bits, is as large as those slots together: if the
    slots of the affinity space, counted modulo 2^23, are at least as many as the secondaries.
   */
  lemma {:induction false} SlotsInPoolIff(table: seq<PeEntry>, base: nat)
    ensures PoolBytes(MaxAffinity(table)) == Slots(MaxAffinity(table)) % 0x80_0000 * SIZE_STACK_SECONDARY_PE
    ensures var bytes := PoolBytes(MaxAffinity(table));
            (forall i :: 1 <= i < |table| ==> SlotInPool(base, bytes, i)) <==>
            |table| <= 1 || (|table| - 1) * SIZE_STACK_SECONDARY_PE <= bytes
  {
    var bytes := PoolBytes(MaxAffinity(table));
    WrappedBytes(Slots(MaxAffinity(table)));
    if |table| > 1 && forall i :: 1 <= i < |table| ==> SlotInPool(base, bytes, i) {
      assert SlotInPool(base, bytes, |table| - 1);
    }
  }

  /** That is so whenever the PEs are distinct and the byte count does not wrap. */
  lemma {:induction false} StacksDisjointInPool(table: seq<PeEntry>, base: nat)
    requires DistinctAffinities(table)
    ensures Slots(MaxAffinity(table)) * SIZE_STACK_SECONDARY_PE < 0x1_0000_0000 ==>
              forall i :: 1 <= i < |table| ==> SlotInPool(base, PoolBytes(MaxAffinity(table)), i)
    ensures forall i, j :: 1 <= i < j < |table| ==>
                             PeStackTop(base, i) + SIZE_STACK_SECONDARY_PE <= PeStackTop(base, j)
  {
    StackPigeonhole(table);
    if Slots(MaxAffinity(table)) * SIZE_STACK_SECONDARY_PE < 0x1_0000_0000 {
      NoWrap(Slots(MaxAffinity(table)));
    }
    SlotsInPoolIff(table, base);
  }

  /**
    The byte count can wrap to nothing: with 2^23 slots, or any multiple, every table of two or
    more PEs has its slots outside the pool.
   */
  lemma {:induction false} WrapsToNothing(table: seq<PeEntry>, base: nat)
    requires |table| > 1 && Slots(MaxAffinity(table)) % 0x80_0000 == 0
    ensures PoolBytes(MaxAffinity(table)) == 0
    ensures !forall i :: 1 <= i < |table| ==> SlotInPool(base, PoolBytes(MaxAffinity(table)), i)
  {
    SlotsInPoolIff(table, base);
  }

  /** The two products in 32 bits are the remainder of the slots by 2^23, in slots. */
  lemma {:induction false} WrappedBytes(n: nat)
    ensures n % 0x1_0000_0000 * SIZE_STACK_SECONDARY_PE % 0x1_0000_0000 == n % 0x80_0000 * SIZE_STACK_SECONDARY_PE
  {}

  /** The wrap is real: two PEs whose affinities span 2^23 slots. */
  lemma {:induction false} PoolSizeWraps(base: nat)
    ensures var table := [PeEntry(0, 0, 0), PeEntry(0x7F_FFFF, 1, 0)];
            DistinctAffinities(table) && PoolBytes(MaxAffinity(table)) == 0 &&
            !forall i :: 1 <= i < |table| ==> SlotInPool(base, PoolBytes(MaxAffinity(table)), i)
  {
    var table := [PeEntry(0, 0, 0), PeEntry(0x7F_FFFF, 1, 0)];
    assert table[..1] == [PeEntry(0, 0, 0)];
    assert table[..1][..0] == [];
    assert Fields(0x7F_FFFF) == Affinity(255, 255, 127, 0);
    assert MaxAffinity(table[..1]) == Affinity(0, 0, 0, 0);
    assert MaxAffinity(table) == Affinity(255, 255, 127, 0);
    WrapsToNothing(table, base);
  }

  /**
    A secondary PE polls the slot the boot PE writes for its table index exactly when its
    position in the affinity space is that index; its slot is inside the pool exactly when its
    position is not zero.
   */
  lemma {:induction false} StartupSlot(table: seq<PeEntry>, base: nat, i: nat)
    requires i < |table| && Slots(MaxAffinity(table)) * SIZE_STACK_SECONDARY_PE < 0x1_0000_0000
    ensures var max := MaxAffinity(table);
            var a := Fields(table[i].mpidr);
            (StartupAddress(base, a, max) == PeStackTop(base, i) <==> CorePos(a, max) == i) &&
            (base <= StartupAddress(base, a, max) <==> CorePos(a, max) > 0) &&
            StartupAddress(base, a, max) + SIZE_STACK_SECONDARY_PE <= base + PoolBytes(max)
  {
    var max := MaxAffinity(table);
    var a := Fields(table[i].mpidr);
    WithinMaxima(table, i);
    CorePosBound(a, max);
    NoWrap(Slots(max));
    StartupArithmetic(base, CorePos(a, max), Slots(max), i);
  }

  lemma {:induction false} StartupArithmetic(base: nat, pos: nat, slots: nat, i: nat)
    requires pos < slots
    ensures base + pos * SIZE_STACK_SECONDARY_PE - SIZE_STACK_SECONDARY_PE == PeStackTop(base, i)
       <==> pos == i
    ensures base <= base + pos * SIZE_STACK_SECONDARY_PE - SIZE_STACK_SECONDARY_PE <==> pos > 0
    ensures pos * SIZE_STACK_SECONDARY_PE <= slots * SIZE_STACK_SECONDARY_PE
  {}

  /** Two PEs in cluster 0 and three in cluster 1. */
  function UnequalClusters(): seq<PeEntry> {
    [PeEntry(0, 0, 0), PeEntry(1, 1, 0), PeEntry(0x100, 2, 0), PeEntry(0x101, 3, 0), PeEntry(0x102, 4, 0)]
  }

  /** Clusters of different size leave gaps in the positions; here nobody is at position 2. */
  lemma {:induction false} GapBetweenClusters()
    ensures var table := UnequalClusters();
            DistinctAffinities(table) && Positions(table, MaxAffinity(table)) == [0, 1, 3, 4, 5]
  {
    var table := UnequalClusters();
    assert table[..4][..3] == table[..3] && table[..3][..2] == table[..2];
    assert table[..2][..1] == table[..1] && table[..1][..0] == [];
    assert MaxAffinity(table[..1]) == Affinity(0, 0, 0, 0);
    assert MaxAffinity(table[..2]) == Affinity(1, 0, 0, 0);
    assert MaxAffinity(table[..3]) == Affinity(1, 1, 0, 0);
    assert MaxAffinity(table[..4]) == Affinity(1, 1, 0, 0);
    assert MaxAffinity(table) == Affinity(2, 1, 0, 0);
  }
}
