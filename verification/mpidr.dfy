/**
  MPIDR affinity values and the PE information table.

  Registers are modelled as naturals below 2^64.  A right shift by k is division by 2^k, a mask
  with 2^k - 1 is a remainder, and an OR of fields that occupy different bits is their sum.
 */
module Mpidr {

  type uint64 = n: int | 0 <= n < 0x1_0000_0000_0000_0000
  type uint32 = n: int | 0 <= n < 0x1_0000_0000

  const INVALID_INDEX: nat := 0xFFFF_FFFF

  /** The four affinity fields of a PE, whatever register layout they came from. */
  datatype Affinity = Affinity(aff0: nat, aff1: nat, aff2: nat, aff3: nat) {
    predicate Bytes() {
      aff0 < 256 && aff1 < 256 && aff2 < 256 && aff3 < 256
    }
  }

  /** The fields of an MPIDR in the architectural layout: Aff3 sits at bits 32 to 39. */
  function Fields(m: nat): (a: Affinity)
    ensures a.Bytes()
  {
    Affinity(m % 256, m / 0x100 % 256, m / 0x1_0000 % 256, m / 0x1_0000_0000 % 256)
  }

  /** The architectural word that holds exactly the given fields. */
  function Compose(a: Affinity): nat {
    a.aff3 * 0x1_0000_0000 + a.aff2 * 0x1_0000 + a.aff1 * 0x100 + a.aff0
  }

  /** val_pe_get_mpid: the affinity bytes of MPIDR_EL1 squeezed into 32 bits. */
  function PackMpid(data: uint64): uint32 {
    (data / 0x1_0000_0000 % 256) * 0x100_0000 + data % 0x100_0000
  }

  /** One affinity level of a packed value: PE_MPIDR_AFFINITY_LEVEL with 8-bit levels. */
  function AffinityLevel(packed: nat, level: nat): nat
    requires level < 4
  {
    (match level
     case 0 => packed
     case 1 => packed / 0x100
     case 2 => packed / 0x1_0000
     case _ => packed / 0x100_0000) % 256
  }

  /** val_gic_mpidr_to_affinity. */
  function GicAffinity(packed: nat): nat {
    AffinityLevel(packed, 3) * 0x1_0000_0000 + AffinityLevel(packed, 2) * 0x1_0000 +
    AffinityLevel(packed, 1) * 0x100 + AffinityLevel(packed, 0)
  }

  lemma {:induction false} ComposeFields(a: Affinity)
    requires a.Bytes()
    ensures Fields(Compose(a)) == a
  {
    var m := Compose(a);
    var h2 := a.aff2 + 0x1_0000 * a.aff3;
    var h1 := a.aff1 + 256 * h2;
    assert m == a.aff0 + 256 * h1;
    Peel(a.aff0, h1);
    Peel(a.aff1, h2);
    PeelTwo(a.aff2, a.aff3);
    ShiftTwice(m);
  }

  lemma {:induction false} Peel(low: nat, rest: nat)
    requires low < 256
    ensures (low + 256 * rest) % 256 == low && (low + 256 * rest) / 256 == rest
  {}

  lemma {:induction false} PeelTwo(low: nat, rest: nat)
    requires low < 256
    ensures (low + 0x1_0000 * rest) % 256 == low && (low + 0x1_0000 * rest) / 0x1_0000 == rest
  {
    Peel(low, 256 * rest);
    Peel(0, rest);
    ShiftTwice(low + 0x1_0000 * rest);
  }

  lemma {:induction false} ShiftTwice(m: nat)
    ensures m / 0x1_0000 == m / 0x100 / 0x100
    ensures m / 0x1_0000_0000 == m / 0x1_0000 / 0x1_0000
  {}

  /** The three low bytes of a word are those of its low 24 bits. */
  lemma {:induction false} LowBytes(m: nat)
    ensures m % 256 == m % 0x100_0000 % 256
    ensures m / 0x100 % 256 == m % 0x100_0000 / 0x100 % 256
    ensures m / 0x1_0000 % 256 == m % 0x100_0000 / 0x1_0000 % 256
  {
    var high, low := m / 0x100_0000, m % 0x100_0000;
    AddMultiple(low, 0x1_0000 * high);
    AddMultiple(low / 256, 0x100 * high);
    AddMultiple(low / 256 / 256, high);
    ShiftTwice(m);
    ShiftTwice(low);
  }

  lemma {:induction false} AddMultiple(low: nat, rest: nat)
    ensures (low + 256 * rest) % 256 == low % 256 && (low + 256 * rest) / 256 == low / 256 + rest
  {}

  lemma {:induction false} SplitPacked(top: nat, low: nat)
    requires low < 0x100_0000
    ensures (top * 0x100_0000 + low) / 0x100_0000 == top && (top * 0x100_0000 + low) % 0x100_0000 == low
  {}

  /** Each level of the packed value is the register's field. */
  lemma {:induction false} PackedLevels(data: uint64)
    ensures var p, a := PackMpid(data), Fields(data);
            AffinityLevel(p, 0) == a.aff0 && AffinityLevel(p, 1) == a.aff1 &&
            AffinityLevel(p, 2) == a.aff2 && AffinityLevel(p, 3) == a.aff3
  {
    var top, low := data / 0x1_0000_0000 % 256, data % 0x100_0000;
    SplitPacked(top, low);
    LowBytes(top * 0x100_0000 + low);
    LowBytes(data);
  }

  /**
    Packing an MPIDR and unpacking it again for the GIC keeps the four affinity fields and
    nothing else: every other bit of the register is gone.
   */
  lemma {:induction false} PackThenUnpack(data: uint64)
    ensures GicAffinity(PackMpid(data)) == Compose(Fields(data))
    ensures Fields(GicAffinity(PackMpid(data))) == Fields(data)
  {
    PackedLevels(data);
    ComposeFields(Fields(data));
  }

  /**
    The packed value is the value that firmware tables hold (fields in place, all else zero)
    exactly when Aff3 is zero.  Own-index lookups compare the two forms.
   */
  lemma {:induction false} PackedIsTableFormIff(data: uint64)
    ensures PackMpid(data) == Compose(Fields(data)) <==> Fields(data).aff3 == 0
  {
    var low := data % 0x100_0000;
    assert low == (data / 0x1_0000 % 256) * 0x1_0000 + (data / 0x100 % 256) * 0x100 + data % 256;
  }

  /** One PE of the information table. */
  datatype PeEntry = PeEntry(mpidr: uint64, peNum: nat, pmuGsiv: nat)

  /** What the MADT walk guarantees: entries are numbered in table order. */
  ghost predicate Numbered(table: seq<PeEntry>) {
    forall i :: 0 <= i < |table| ==> table[i].peNum == i
  }

  ghost predicate DistinctMpidrs(table: seq<PeEntry>) {
    forall i, j :: 0 <= i < j < |table| ==> table[i].mpidr != table[j].mpidr
  }

  /** val_pe_get_mpid_index.  The bound check lets index == num_of_pe through to the array. */
  function MpidOfIndex(table: seq<PeEntry>, index: nat): nat
    requires index != |table|
  {
    if index > |table| then INVALID_INDEX else table[index].mpidr
  }

  /** Position of the first entry with the given MPIDR, or the table length. */
  function FirstWithMpid(table: seq<PeEntry>, mpid: nat): (k: nat)
    ensures k <= |table|
    ensures k < |table| ==> table[k].mpidr == mpid
    ensures forall j :: 0 <= j < k ==> table[j].mpidr != mpid
  {
    if |table| == 0 || table[0].mpidr == mpid then 0 else
    var k := FirstWithMpid(table[1..], mpid);
    assert forall j :: 0 < j < k + 1 ==> table[j] == table[1..][j - 1];
    k + 1
  }

  /** val_pe_get_index_mpid, as a value; notFound is the fallback the caller's layer uses. */
  function IndexOfMpid(table: seq<PeEntry>, mpid: nat, notFound: nat): nat {
    var k := FirstWithMpid(table, mpid);
    if k < |table| then table[k].peNum else notFound
  }

  /** The scanning loop that computes IndexOfMpid; SDEI passes INVALID_INDEX, MPAM passes 0. */
  method GetIndexOfMpid(table: seq<PeEntry>, mpid: nat, notFound: nat) returns (index: nat)
    ensures index == IndexOfMpid(table, mpid, notFound)
  {
    var i := |table|;
    var entry := 0;
    while i > 0
      invariant 0 <= i && 0 <= entry && entry + i == |table|
      invariant forall j :: 0 <= j < entry ==> table[j].mpidr != mpid
    {
      if table[entry].mpidr == mpid {
        return table[entry].peNum;
      }
      entry := entry + 1;
      i := i - 1;
    }
    return notFound;
  }

  /** On a numbered table the index lookup is exact in both directions. */
  lemma {:induction false} IndexThenMpid(table: seq<PeEntry>, mpid: nat)
    requires Numbered(table) && |table| < INVALID_INDEX
    ensures IndexOfMpid(table, mpid, INVALID_INDEX) != INVALID_INDEX <==>
            exists j :: 0 <= j < |table| && table[j].mpidr == mpid
    ensures var i := IndexOfMpid(table, mpid, INVALID_INDEX);
            i != INVALID_INDEX ==> i < |table| && MpidOfIndex(table, i) == mpid
  {
    var k := FirstWithMpid(table, mpid);
    assert k == |table| ==> forall j :: 0 <= j < |table| ==> table[j].mpidr != mpid;
  }

  /**
    MPIDR-of-index followed by index-of-MPIDR is the identity on every PE exactly when no two
    entries share an MPIDR.
   */
  lemma {:induction false} MpidThenIndexIff(table: seq<PeEntry>)
    requires Numbered(table)
    ensures DistinctMpidrs(table) <==>
            forall i :: 0 <= i < |table| ==>
                          IndexOfMpid(table, MpidOfIndex(table, i), INVALID_INDEX) == i
  {
    if DistinctMpidrs(table) {
      forall i | 0 <= i < |table|
        ensures IndexOfMpid(table, MpidOfIndex(table, i), INVALID_INDEX) == i
      {
        var k := FirstWithMpid(table, table[i].mpidr);
        assert k <= i;
      }
    } else {
      var i, j :| 0 <= i < j < |table| && table[i].mpidr == table[j].mpidr;
      var k := FirstWithMpid(table, table[j].mpidr);
      assert k <= i;
      assert IndexOfMpid(table, MpidOfIndex(table, j), INVALID_INDEX) == k;
    }
  }

  /**
    A PE finds itself in the table exactly when its Aff3 is zero: the register is packed before
    the comparison, the table is not.
   */
  lemma {:induction false} OwnIndexLookupIff(table: seq<PeEntry>, i: nat, data: uint64)
    requires Numbered(table) && DistinctMpidrs(table) && i < |table| < INVALID_INDEX
    requires table[i].mpidr == Compose(Fields(data))
    ensures IndexOfMpid(table, PackMpid(data), INVALID_INDEX) == i <==> Fields(data).aff3 == 0
  {
    PackedIsTableFormIff(data);
    var k := FirstWithMpid(table, PackMpid(data));
    if Fields(data).aff3 == 0 {
      assert k <= i;
    }
  }
}
