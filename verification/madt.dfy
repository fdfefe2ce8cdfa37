/**
  The walk over the ACPI 6.1 MADT that fills the PE table, the stack pool sized from it, and the
  slot each secondary PE finds for itself on start-up.
 */
module Madt {
  import opened Mpidr
  import opened Options

  const GIC_STRUCTURE: nat := 0xB   // structure type of section 5.2.12.14 of ACPI 6.1
  const MADT_HEADER_SIZE: nat := 44
  const SIZE_STACK_SECONDARY_PE: nat := 0x200

  /** One variable-length interrupt controller structure. */
  datatype Record = Record(kind: nat, length: nat, mpidr: uint64, gsiv: nat)

  /** The table as the firmware hands it over: its length field and what follows its header. */
  datatype Table = Table(length: nat, records: seq<Record>)

  function TotalLength(records: seq<Record>): nat {
    if |records| == 0 then 0
    else TotalLength(records[..|records| - 1]) + records[|records| - 1].length
  }

  /**
    The structures reach at least to the length the header announces, and each has a positive
    length: the walk moves on by it.
   */
  ghost predicate Covers(madt: Table) {
    |madt.records| > 0 && (forall r :: r in madt.records ==> r.length > 0) &&
    MADT_HEADER_SIZE + TotalLength(madt.records) >= madt.length
  }

  /** The first n structures are the ones a do-while walk over the announced length visits. */
  ghost predicate Visits(madt: Table, n: nat) {
    1 <= n <= |madt.records| &&
    MADT_HEADER_SIZE + TotalLength(madt.records[..n]) >= madt.length &&
    (n > 1 ==> MADT_HEADER_SIZE + TotalLength(madt.records[..n - 1]) < madt.length)
  }

  /** The PE entries of a run of structures: GIC structures only, numbered as they come. */
  function Entries(records: seq<Record>): (table: seq<PeEntry>)
    ensures Numbered(table)
  {
    if |records| == 0 then [] else
    var table := Entries(records[..|records| - 1]);
    var r := records[|records| - 1];
    if r.kind == GIC_STRUCTURE then table + [PeEntry(r.mpidr, |table|, r.gsiv)] else table
  }

  /** How many of the first n structures are GIC structures. */
  function GicBefore(records: seq<Record>, n: nat): nat
    requires n <= |records|
  {
    if n == 0 then 0 else GicBefore(records, n - 1) + if records[n - 1].kind == GIC_STRUCTURE then 1 else 0
  }

  lemma {:induction false} EntriesCount(records: seq<Record>, k: nat)
    requires k <= |records|
    ensures |Entries(records[..k])| == GicBefore(records, k)
  {
    if k > 0 {
      EntriesCount(records, k - 1);
      assert records[..k][..k - 1] == records[..k - 1];
    }
  }

  /**
    Each GIC structure among the first k, and nothing else, has an entry: its place is the number of
    GIC structures before it, and it holds that number, the structure's MPIDR and its interrupt.
   */
  lemma {:induction false} EntriesMeaning(records: seq<Record>, k: nat, n: nat)
    requires n < k <= |records| && records[n].kind == GIC_STRUCTURE
    ensures |Entries(records[..k])| == GicBefore(records, k) > GicBefore(records, n)
    ensures Entries(records[..k])[GicBefore(records, n)] ==
            PeEntry(records[n].mpidr, GicBefore(records, n), records[n].gsiv)
  {
    EntriesCount(records, k);
    EntriesCount(records, k - 1);
    assert records[..k][..k - 1] == records[..k - 1];
    if n < k - 1 {
      EntriesMeaning(records, k - 1, n);
    }
  }

  function Max(a: nat, b: nat): nat {
    if a > b then a else b
  }

  /** The largest value of each affinity field over a table. */
  function MaxAffinity(table: seq<PeEntry>): (a: Affinity)
    ensures a.Bytes()
  {
    if |table| == 0 then Affinity(0, 0, 0, 0) else
    var a := MaxAffinity(table[..|table| - 1]);
    var f := Fields(table[|table| - 1].mpidr);
    Affinity(Max(f.aff0, a.aff0), Max(f.aff1, a.aff1), Max(f.aff2, a.aff2), Max(f.aff3, a.aff3))
  }

  /** These are the maxima: no entry is above them, and some entry has each of them. */
  lemma {:induction false} MaximaMeaning(table: seq<PeEntry>, i: nat)
    requires i < |table|
    ensures var f, a := Fields(table[i].mpidr), MaxAffinity(table);
            f.aff0 <= a.aff0 && f.aff1 <= a.aff1 && f.aff2 <= a.aff2 && f.aff3 <= a.aff3
    ensures exists k :: 0 <= k < |table| && Fields(table[k].mpidr).aff0 == MaxAffinity(table).aff0
    ensures exists k :: 0 <= k < |table| && Fields(table[k].mpidr).aff1 == MaxAffinity(table).aff1
    ensures exists k :: 0 <= k < |table| && Fields(table[k].mpidr).aff2 == MaxAffinity(table).aff2
    ensures exists k :: 0 <= k < |table| && Fields(table[k].mpidr).aff3 == MaxAffinity(table).aff3
  {
    var n := |table| - 1;
    var front := table[..n];
    var last := Fields(table[n].mpidr);
    assert MaxAffinity(front).Bytes() && last.Bytes();
    if n > 0 {
      MaximaMeaning(front, if i < n then i else 0);
      assert forall k :: 0 <= k < n ==> front[k] == table[k];
    } else {
      assert front == [] && MaxAffinity(front) == Affinity(0, 0, 0, 0);
    }
  }

  /** An affinity field of an MPIDR, left at its place in the register. */
  function Masked(m: nat, level: nat): nat
    requires level < 4
  {
    match level
    case 0 => m % 256
    case 1 => m / 0x100 % 256 * 0x100
    case 2 => m / 0x1_0000 % 256 * 0x1_0000
    case _ => m / 0x1_0000_0000 % 256 * 0x1_0000_0000
  }

  /** UPDATE_AFF_MAX with the byte mask of the given level. */
  function UpdateAffMax(src: nat, dest: nat, level: nat): nat
    requires level < 4
  {
    if Masked(dest, level) > Masked(src, level) then Masked(dest, level) else Masked(src, level)
  }

  lemma {:induction false} MaskedInPlace(x: nat)
    requires x < 256
    ensures Masked(x, 0) == x
    ensures Masked(x * 0x100, 1) == x * 0x100
    ensures Masked(x * 0x1_0000, 2) == x * 0x1_0000
    ensures Masked(x * 0x1_0000_0000, 3) == x * 0x1_0000_0000
  {}

  /** How many PEs the recorded maxima allow for. */
  function Slots(a: Affinity): nat {
    (a.aff3 + 1) * (a.aff2 + 1) * (a.aff1 + 1) * (a.aff0 + 1)
  }

  /** The byte count asked of AllocatePool; both products are taken in 32 bits. */
  function PoolBytes(a: Affinity): uint32 {
    Slots(a) % 0x1_0000_0000 * SIZE_STACK_SECONDARY_PE % 0x1_0000_0000
  }

  function MpidrsOf(table: seq<PeEntry>): (ms: seq<nat>)
    ensures |ms| == |table| && forall i :: 0 <= i < |table| ==> ms[i] == table[i].mpidr
  {
    seq(|table|, i requires 0 <= i < |table| => table[i].mpidr as nat)
  }

  /** The globals of the SDEI platform layer that the walk fills. */
  class PlatformLayer {
    var table: seq<PeEntry>
    var mpidrMax: nat
    var secondaryStack: nat     // gSecondaryPeStack; 0 is NULL
    var poolBytes: nat          // size of the pool behind secondaryStack
    var poweredOn: seq<nat>     // CPU_ON calls made so far

    constructor ()
      ensures table == [] && mpidrMax == 0 && secondaryStack == 0 && poolBytes == 0 && poweredOn == []
    {
      table, mpidrMax, secondaryStack, poolBytes, poweredOn := [], 0, 0, 0, [];
    }

    /** PalAllocateSecondaryStack; pool is AllocatePool's answer, 0 when it fails. */
    method AllocateSecondaryStack(mpidr: nat, pool: nat)
      modifies this`secondaryStack, this`poolBytes
      ensures secondaryStack == if old(secondaryStack) == 0 then pool else old(secondaryStack)
      ensures poolBytes ==
              if old(secondaryStack) == 0 then PoolBytes(Fields(mpidr)) else old(poolBytes)
    {
      var a := Fields(mpidr);
      var numPe := (a.aff3 + 1) * (a.aff2 + 1) * (a.aff1 + 1) * (a.aff0 + 1) % 0x1_0000_0000;
      if secondaryStack == 0 {
        secondaryStack := pool;
        poolBytes := numPe * SIZE_STACK_SECONDARY_PE % 0x1_0000_0000;
      }
    }

    /** pal_pe_create_info_table; None is a MADT that could not be found. */
    method CreateInfoTable(madt: Option<Table>, pool: nat) returns (ghost visited: nat)
      requires madt.Some? ==> Covers(madt.value)
      modifies this
      ensures madt.None? ==> unchanged(this)
      ensures madt.Some? ==> Visits(madt.value, visited)
      ensures madt.Some? ==> table == Entries(madt.value.records[..visited]) && Numbered(table)
      ensures madt.Some? ==> mpidrMax == Compose(MaxAffinity(table))
      ensures madt.Some? && old(secondaryStack) == 0 ==>
                secondaryStack == pool && poolBytes == PoolBytes(MaxAffinity(table))
      ensures madt.Some? && old(secondaryStack) != 0 ==>
                secondaryStack == old(secondaryStack) && poolBytes == old(poolBytes)
      ensures madt.Some? && |table| > 0 ==>
                poweredOn == old(poweredOn) + MpidrsOf(table)[1..]
      ensures madt.Some? && |table| == 0 ==> poweredOn == old(poweredOn)
    {
      visited := 0;
      if madt.None? {
        return;
      }
      table, mpidrMax, visited := WalkMadt(madt.value);
      assert Fields(mpidrMax) == MaxAffinity(table) by {
        ComposeFields(MaxAffinity(table));
      }
      AllocateSecondaryStack(mpidrMax, pool);
      PowerOnSecondaries();
    }

    /** The PSCI loop: every table entry but the first is powered on. */
    method PowerOnSecondaries()
      modifies this`poweredOn
      ensures poweredOn ==
              if |table| == 0 then old(poweredOn) else old(poweredOn) + MpidrsOf(table)[1..]
    {
      var index := 1;
      while index < |table|
        invariant 1 <= index && (index <= |table| || |table| == 0)
        invariant poweredOn ==
                  if |table| == 0 then old(poweredOn) else old(poweredOn) + MpidrsOf(table)[1..index]
      {
        assert MpidrsOf(table)[1..index + 1] == MpidrsOf(table)[1..index] + [table[index].mpidr as nat];
        poweredOn := poweredOn + [table[index].mpidr];
        index := index + 1;
      }
    }
  }

  /** The do-while loop over the structures, with the running maximum of each affinity field. */
  method WalkMadt(madt: Table) returns (table: seq<PeEntry>, mpidrMax: nat, ghost visited: nat)
    requires Covers(madt)
    ensures Visits(madt, visited)
    ensures table == Entries(madt.records[..visited])
    ensures mpidrMax == Compose(MaxAffinity(table))
  {
    var records := madt.records;
    table := [];
    var max0, max1, max2, max3 := 0, 0, 0, 0;
    var length := MADT_HEADER_SIZE;
    var i := 0;
    var again := true;
    while again
      invariant 0 <= i <= |records| && again == (i == 0 || length < madt.length)
      invariant length == MADT_HEADER_SIZE + TotalLength(records[..i])
      invariant i > 1 ==> MADT_HEADER_SIZE + TotalLength(records[..i - 1]) < madt.length
      invariant table == Entries(records[..i])
      invariant InPlace(MaxAffinity(table), max0, max1, max2, max3)
      decreases |records| - i, again
    {
      assert records[..|records|] == records;
      var entry := records[i];
      assert records[..i + 1][..i] == records[..i];
      if entry.kind == GIC_STRUCTURE {
        UpdateMaxima(table, entry, max0, max1, max2, max3);
        table := table + [PeEntry(entry.mpidr, |table|, entry.gsiv)];
        max0 := UpdateAffMax(max0, entry.mpidr, 0);
        max1 := UpdateAffMax(max1, entry.mpidr, 1);
        max2 := UpdateAffMax(max2, entry.mpidr, 2);
        max3 := UpdateAffMax(max3, entry.mpidr, 3);
      }
      length := length + entry.length;
      i := i + 1;
      again := length < madt.length;
    }
    visited := i;
    mpidrMax := max0 + max1 + max2 + max3;
  }

  /** Four words that hold the fields of a, each at its place in the register. */
  ghost predicate InPlace(a: Affinity, max0: nat, max1: nat, max2: nat, max3: nat) {
    max0 == a.aff0 && max1 == a.aff1 * 0x100 && max2 == a.aff2 * 0x1_0000 &&
    max3 == a.aff3 * 0x1_0000_0000
  }

  lemma {:induction false} UpdateMaxima(table: seq<PeEntry>, r: Record, max0: nat, max1: nat, max2: nat, max3: nat)
    requires InPlace(MaxAffinity(table), max0, max1, max2, max3)
    ensures InPlace(MaxAffinity(table + [PeEntry(r.mpidr, |table|, r.gsiv)]),
                    UpdateAffMax(max0, r.mpidr, 0), UpdateAffMax(max1, r.mpidr, 1),
                    UpdateAffMax(max2, r.mpidr, 2), UpdateAffMax(max3, r.mpidr, 3))
  {
    var a := MaxAffinity(table);
    var longer := table + [PeEntry(r.mpidr, |table|, r.gsiv)];
    assert longer[..|table|] == table;
    MaskedInPlace(a.aff0);
    MaskedInPlace(a.aff1);
    MaskedInPlace(a.aff2);
    MaskedInPlace(a.aff3);
  }
}
