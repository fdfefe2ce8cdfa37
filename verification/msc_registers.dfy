/** The configuration calls of the memory and cache layers, as the register writes they make. */
module MscRegisters {
  import opened Partition
  import opened Fraction

  /** Memory-mapped registers: every write, in order. */
  class Mmio {
    var log: seq<Write>

    constructor ()
      ensures log == []
    {
      log := [];
    }

    method Put(addr: nat, value: nat)
      modifies this
      ensures log == old(log) + [Write(addr, value)]
    {
      log := log + [Write(addr, value)];
    }
  }

  /** val_memory_configure_mbwmin. */
  method ConfigureMbwMin(mmio: Mmio, base: nat, width: nat, partid: nat, pct: nat)
    requires width <= 16
    modifies mmio
    ensures mmio.log == old(mmio.log) +
                        [Write(base + PART_SEL, partid), Write(base + MBW_MIN, Field(width, FixedPoint(width, pct)))]
  {
    var fraction := (Pow2(width) * pct % 0x1_0000_0000 / 100 - 1) % 0x1_0000;
    mmio.Put(base + PART_SEL, partid);
    mmio.Put(base + MBW_MIN, fraction * Pow2(16 - width) % 0x1_0000);
  }

  /** val_memory_configure_mbwmax and val_cache_configure_ccap, which differ in the register. */
  method ConfigureLimit(mmio: Mmio, base: nat, reg: nat, width: nat, partid: nat, hardlim: nat, pct: nat)
    requires width <= 16
    modifies mmio
    ensures mmio.log == old(mmio.log) +
                        [Write(base + PART_SEL, partid), Write(base + reg, LimitValue(width, hardlim, pct))]
  {
    var fraction := (Pow2(width) * pct % 0x1_0000_0000 / 100 - 1) % 0x1_0000;
    mmio.Put(base + PART_SEL, partid);
    mmio.Put(base + reg, Or(hardlim % 2 * Pow2(HARDLIM_SHIFT), fraction * Pow2(16 - width) % 0x1_0000));
  }

  lemma {:induction false} WordsNext(log: seq<Write>, reg: nat, filler: nat, n: nat, index: nat)
    requires index + 32 <= n
    ensures log + [Write(reg + index, filler)] + Words(reg, filler, n, index + 32) ==
            log + Words(reg, filler, n, index)
  {
  }

  /** The loop over whole groups, then the rest. */
  method WriteBitmap(mmio: Mmio, reg: nat, filler: nat, n: nat)
    modifies mmio
    ensures mmio.log == old(mmio.log) + Words(reg, filler, n, 0)
  {
    var index: nat := 0;
    while index < n - 31
      invariant index <= n && mmio.log + Words(reg, filler, n, index) == old(mmio.log) + Words(reg, filler, n, 0)
      decreases n - index
    {
      WordsNext(mmio.log, reg, filler, n, index);
      mmio.Put(reg + index, filler);
      index := index + 32;
    }
    var bitmask := Pow2(n - index) - 1;
    MaskIsZeroIff(n - index);
    if bitmask != 0 {
      mmio.Put(reg + index, bitmask);
    }
  }

  /** val_memory_configure_mbwpbm and val_cache_configure_cpor, which differ in register and filler. */
  method ConfigurePortions(mmio: Mmio, base: nat, reg: nat, filler: nat, width: nat, partid: nat, pct: nat)
    modifies mmio
    ensures mmio.log == old(mmio.log) +
                        [Write(base + PART_SEL, partid)] + Words(base + reg, filler, Portions(width, pct), 0)
  {
    mmio.Put(base + PART_SEL, partid);
    var n := width * pct % 0x1_0000_0000 / 100 % 0x1_0000;
    WriteBitmap(mmio, base + reg, filler, n);
  }

  lemma {:induction false} MaskIsZeroIff(k: nat)
    ensures Pow2(k) - 1 == 0 <==> k == 0
  {
  }

  /** Asking for no minimum bandwidth writes the same as asking for all of it. */
  lemma {:induction false} ZeroMinimumIsFull(width: nat)
    requires width <= 16
    ensures Field(width, FixedPoint(width, 0)) == Field(width, FixedPoint(width, 100)) == FullField(width)
  {
    FullIff(width, 0);
    FullIff(width, 100);
  }
}
