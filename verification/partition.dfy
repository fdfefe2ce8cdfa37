/**
  MPAM partition settings: portion bitmaps written word by word, and percentages written as
  fixed-point fractions.
 */
module Partition {

  const PART_SEL: nat := 0x100
  const MBW_MIN: nat := 0x200

  const MBWPOR_BITMAP_DEF_VAL: nat := 0xFFFF_FFFF
  const CPOR_BITMAP_DEF_VAL: nat := 0xFFFF

  function Pow2(k: nat): (p: nat)
    ensures p > 0
  {
    if k == 0 then 1 else 2 * Pow2(k - 1)
  }

  /** Bit k of a value. */
  predicate Bit(v: nat, k: nat) {
    if k == 0 then v % 2 == 1 else Bit(v / 2, k - 1)
  }

  /** Number of one bits. */
  function Ones(v: nat): nat {
    if v == 0 then 0 else v % 2 + Ones(v / 2)
  }

  /** A value whose k lowest bits are set and no other. */
  lemma {:induction false} LowPacked(k: nat, j: nat)
    ensures Ones(Pow2(k) - 1) == k && (Bit(Pow2(k) - 1, j) <==> j < k)
  {
    if k > 0 {
      assert (Pow2(k) - 1) / 2 == Pow2(k - 1) - 1 && (Pow2(k) - 1) % 2 == 1;
      LowPacked(k - 1, if j > 0 then j - 1 else 0);
    } else {
      ZeroHasNoBits(j);
    }
  }

  lemma {:induction false} ZeroHasNoBits(j: nat)
    ensures !Bit(0, j)
  {
    if j > 0 {
      ZeroHasNoBits(j - 1);
    }
  }

  lemma {:induction false} Fillers()
    ensures MBWPOR_BITMAP_DEF_VAL == Pow2(32) - 1 && CPOR_BITMAP_DEF_VAL == Pow2(16) - 1
  {
    assert Pow2(4) == 0x10 && Pow2(8) == 0x10 * Pow2(4) && Pow2(12) == 0x10 * Pow2(8);
    assert Pow2(16) == 0x10 * Pow2(12) && Pow2(20) == 0x10 * Pow2(16);
    assert Pow2(24) == 0x10 * Pow2(20);
    assert Pow2(32) == 0x100 * Pow2(24);
  }

  /** One 32-bit register write. */
  datatype Write = Write(addr: nat, value: nat)

  /** Portions asked for: the product is taken modulo 32 bits, the quotient modulo 16. */
  function Portions(width: nat, pct: nat): nat {
    width * pct % 0x1_0000_0000 / 100 % 0x1_0000
  }

  lemma {:induction false} ProductBound(width: nat, pct: nat)
    requires pct <= 100
    ensures width * pct <= width * 100
  {
  }

  lemma {:induction false} FloorOfProduct(width: nat, product: nat)
    requires width < 0x1_0000 && product <= width * 100
    ensures product % 0x1_0000_0000 / 100 % 0x1_0000 == product / 100 <= width
  {
  }

  /** With a 16-bit width and a true percentage that is the floor of the product. */
  lemma {:induction false} PortionsIsFloor(width: nat, pct: nat)
    requires width < 0x1_0000 && pct <= 100
    ensures Portions(width, pct) == width * pct / 100 <= width
  {
    ProductBound(width, pct);
    FloorOfProduct(width, width * pct);
  }

  /** The words for n portions from bit index on: whole groups get the filler, a rest its low bits. */
  function Words(reg: nat, filler: nat, n: nat, index: nat): (words: seq<Write>)
    requires index <= n
    decreases n - index
  {
    if index + 32 <= n then [Write(reg + index, filler)] + Words(reg, filler, n, index + 32)
    else if n - index > 0 then [Write(reg + index, Pow2(n - index) - 1)]
    else []
  }

  function TotalOnes(words: seq<Write>): nat {
    if |words| == 0 then 0 else Ones(words[0].value) + TotalOnes(words[1..])
  }

  /** One word per started group of 32, at byte offsets 32 apart, each low-packed. */
  lemma {:induction false} WordsShape(reg: nat, filler: nat, n: nat, index: nat)
    requires index <= n
    ensures var words := Words(reg, filler, n, index);
            32 * |words| - 32 < n - index <= 32 * |words| &&
            forall g :: 0 <= g < |words| ==>
                          words[g].addr == reg + index + 32 * g &&
                          words[g].value == if n - index - 32 * g >= 32 then filler else Pow2(n - index - 32 * g) - 1
    decreases n - index
  {
    if index + 32 <= n {
      WordsShape(reg, filler, n, index + 32);
      var words, rest := Words(reg, filler, n, index), Words(reg, filler, n, index + 32);
      forall g | 0 <= g < |words|
        ensures words[g].addr == reg + index + 32 * g
        ensures words[g].value == if n - index - 32 * g >= 32 then filler else Pow2(n - index - 32 * g) - 1
      {
        if g > 0 {
          assert words[g] == rest[g - 1];
        }
      }
    }
  }

  /** One bits of n portions when every whole group of 32 contributes the filler's. */
  function OnesFor(n: nat, fillerOnes: nat): nat {
    if n >= 32 then fillerOnes + OnesFor(n - 32, fillerOnes) else n
  }

  lemma {:induction false} WordsOnes(reg: nat, filler: nat, fillerOnes: nat, n: nat, index: nat)
    requires index <= n && filler == Pow2(fillerOnes) - 1
    ensures TotalOnes(Words(reg, filler, n, index)) == OnesFor(n - index, fillerOnes)
    decreases n - index
  {
    if index + 32 <= n {
      WordsOnes(reg, filler, fillerOnes, n, index + 32);
      LowPacked(fillerOnes, 0);
      assert Words(reg, filler, n, index)[1..] == Words(reg, filler, n, index + 32);
    } else {
      LowPacked(n - index, 0);
      assert Words(reg, filler, n, index)[if index < n then 1 else 0..] == [];
    }
  }

  /** The memory filler gives exactly n one bits. */
  lemma {:induction false} MemoryOnes(n: nat)
    ensures OnesFor(n, 32) == n
  {
    if n >= 32 {
      MemoryOnes(n - 32);
    }
  }

  /** The cache filler, 16 bits wide, gives 16 for every whole group. */
  lemma {:induction false} CacheOnes(n: nat)
    ensures OnesFor(n, 16) == 16 * (n / 32) + n % 32
  {
    if n >= 32 {
      CacheOnes(n - 32);
    }
  }

  /** The one bits a memory node's bitmap registers get: floor(width * pct / 100). */
  lemma {:induction false} MemoryPortions(reg: nat, width: nat, pct: nat)
    requires width < 0x1_0000 && pct <= 100
    ensures TotalOnes(Words(reg, MBWPOR_BITMAP_DEF_VAL, Portions(width, pct), 0)) == width * pct / 100
  {
    Fillers();
    PortionsIsFloor(width, pct);
    WordsOnes(reg, MBWPOR_BITMAP_DEF_VAL, 32, Portions(width, pct), 0);
    MemoryOnes(Portions(width, pct));
  }

  /** And those a cache node's get. */
  lemma {:induction false} CachePortions(reg: nat, width: nat, pct: nat)
    requires width < 0x1_0000 && pct <= 100
    ensures var n := width * pct / 100;
            TotalOnes(Words(reg, CPOR_BITMAP_DEF_VAL, Portions(width, pct), 0)) == 16 * (n / 32) + n % 32
  {
    Fillers();
    PortionsIsFloor(width, pct);
    WordsOnes(reg, CPOR_BITMAP_DEF_VAL, 16, Portions(width, pct), 0);
    CacheOnes(Portions(width, pct));
  }

  /** Bit i of a bitmap whose word k is the 32-bit register at byte offset 4k is set by a write. */
  predicate PortionSet(words: seq<Write>, reg: nat, i: nat) {
    exists g :: 0 <= g < |words| && words[g].addr == reg + 4 * (i / 32) && Bit(words[g].value, i % 32)
  }

  lemma {:induction false} PortionsWithin(reg: nat, filler: nat, fillerOnes: nat, n: nat, i: nat)
    requires filler == Pow2(fillerOnes) - 1
    ensures var words := Words(reg, filler, n, 0);
            PortionSet(words, reg, i) <==>
            i / 32 % 8 == 0 && i / 256 < |words| &&
            i % 32 < if n - 32 * (i / 256) >= 32 then fillerOnes else n - 32 * (i / 256)
  {
    var words := Words(reg, filler, n, 0);
    WordsShape(reg, filler, n, 0);
    var g := i / 256;
    if i / 32 % 8 == 0 && g < |words| {
      assert words[g].addr == reg + 4 * (i / 32);
      LowPacked(if n - 32 * g >= 32 then fillerOnes else n - 32 * g, i % 32);
    }
    forall h | 0 <= h < |words| && words[h].addr == reg + 4 * (i / 32)
      ensures h == g && i / 32 % 8 == 0
    {
      assert 32 * h == 4 * (i / 32);
    }
  }

  /** The register that bit i is in has been written. */
  predicate WordWritten(words: seq<Write>, reg: nat, i: nat) {
    exists g :: 0 <= g < |words| && words[g].addr == reg + 4 * (i / 32)
  }

  /** Bit i after the writes, given the bitmap before: nothing clears a register that is not written. */
  predicate After(words: seq<Write>, reg: nat, before: nat -> bool, i: nat) {
    if WordWritten(words, reg, i) then PortionSet(words, reg, i) else before(i)
  }

  lemma {:induction false} WrittenIff(reg: nat, filler: nat, n: nat, i: nat)
    ensures var words := Words(reg, filler, n, 0);
            WordWritten(words, reg, i) <==> i / 32 % 8 == 0 && i / 256 < |words|
  {
    var words := Words(reg, filler, n, 0);
    WordsShape(reg, filler, n, 0);
    if i / 32 % 8 == 0 && i / 256 < |words| {
      assert words[i / 256].addr == reg + 4 * (i / 32);
    }
    forall g | 0 <= g < |words| && words[g].addr == reg + 4 * (i / 32)
      ensures i / 32 % 8 == 0 && i / 256 < |words|
    {
      assert 32 * g == 4 * (i / 32);
    }
  }

  /** Exactly the n lowest bits are set afterwards. */
  ghost predicate AsIntended(words: seq<Write>, reg: nat, before: nat -> bool, n: nat) {
    forall i: nat :: After(words, reg, before, i) <==> i < n
  }

  /** No bit was set outside the one word that is written for up to 32 portions, which for 0 is none. */
  ghost predicate ClearElsewhere(before: nat -> bool, n: nat) {
    forall i: nat :: i >= 32 || n == 0 ==> !before(i)
  }

  /** One word at most: what the low word gets, and that all else stays. */
  lemma {:induction false} OneWord(reg: nat, filler: nat, fillerOnes: nat, n: nat, before: nat -> bool, i: nat)
    requires filler == Pow2(fillerOnes) - 1 && n <= 32
    ensures After(Words(reg, filler, n, 0), reg, before, i) <==>
            if n > 0 && i < 32 then i < if n == 32 then fillerOnes else n else before(i)
  {
    WordsShape(reg, filler, n, 0);
    WrittenIff(reg, filler, n, i);
    PortionsWithin(reg, filler, fillerOnes, n, i);
  }

  /**
    Afterwards the bitmap has exactly its n lowest bits set, as intended, exactly when one word is
    enough, the filler, if used, is a full word, and no bit outside the word written was set
    before: group g goes to byte offset 32g, where word 8g of the bitmap lies, and for n = 0
    nothing is written at all.
   */
  lemma {:induction false} IntendedBitmapIff(reg: nat, filler: nat, fillerOnes: nat, n: nat, before: nat -> bool)
    requires filler == Pow2(fillerOnes) - 1 && fillerOnes <= 32
    ensures AsIntended(Words(reg, filler, n, 0), reg, before, n) <==>
            (n < 32 || (n == 32 && fillerOnes == 32)) && ClearElsewhere(before, n)
  {
    if n <= 32 {
      OneWordIff(reg, filler, fillerOnes, n, before);
    } else {
      LastGroupAstray(reg, filler, fillerOnes, n, before);
    }
  }

  lemma {:induction false} OneWordIff(reg: nat, filler: nat, fillerOnes: nat, n: nat, before: nat -> bool)
    requires filler == Pow2(fillerOnes) - 1 && fillerOnes <= 32 && n <= 32
    ensures AsIntended(Words(reg, filler, n, 0), reg, before, n) <==>
            (n < 32 || fillerOnes == 32) && ClearElsewhere(before, n)
  {
    var words := Words(reg, filler, n, 0);
    forall i: nat
      ensures After(words, reg, before, i) <==>
              if n > 0 && i < 32 then i < if n == 32 then fillerOnes else n else before(i)
    {
      OneWord(reg, filler, fillerOnes, n, before, i);
    }
    if AsIntended(words, reg, before, n) {
      forall i: nat | i >= 32 || n == 0
        ensures !before(i)
      {
        assert After(words, reg, before, i) <==> i < n;
      }
      assert After(words, reg, before, 31) <==> 31 < n;
    }
    if (n < 32 || fillerOnes == 32) && ClearElsewhere(before, n) {
      forall i: nat
        ensures After(words, reg, before, i) <==> i < n
      {
        assert i >= 32 || n == 0 ==> !before(i);
      }
    }
  }

  lemma {:induction false} LastGroupBit(n: nat) returns (i: nat)
    requires n > 32
    ensures i >= n && i / 256 == (n - 1) / 32 && i / 32 % 8 == 0 && i % 32 == 0
  {
    var g := (n - 1) / 32;
    i := 256 * g;
    assert i / 32 == 8 * g;
  }

  /** With more than 32 portions the last group's word sets a bit beyond the n lowest. */
  lemma {:induction false} LastGroupAstray(reg: nat, filler: nat, fillerOnes: nat, n: nat, before: nat -> bool)
    requires filler == Pow2(fillerOnes) - 1 && n > 32
    ensures !AsIntended(Words(reg, filler, n, 0), reg, before, n)
  {
    var words := Words(reg, filler, n, 0);
    var i := LastGroupBit(n);
    if fillerOnes == 0 {
      i := 0;
    }
    WordsShape(reg, filler, n, 0);
    WrittenIff(reg, filler, n, i);
    PortionsWithin(reg, filler, fillerOnes, n, i);
    assert !(After(words, reg, before, i) <==> i < n);
  }

  /**
    A node of width 3 set to 75 and then to 25 percent: the second call writes nothing, and the two
    portions of the first stay set.
   */
  lemma {:induction false} LowerSettingIgnored(reg: nat, i: nat)
    ensures Portions(3, 75) == 2 && Portions(3, 25) == 0
    ensures var first := (k: nat) => After(Words(reg, MBWPOR_BITMAP_DEF_VAL, 2, 0), reg, (j: nat) => false, k);
            After(Words(reg, MBWPOR_BITMAP_DEF_VAL, 0, 0), reg, first, i) <==> i < 2
  {
    Fillers();
    var first := (k: nat) => After(Words(reg, MBWPOR_BITMAP_DEF_VAL, 2, 0), reg, (j: nat) => false, k);
    OneWord(reg, MBWPOR_BITMAP_DEF_VAL, 32, 2, (j: nat) => false, i);
    OneWord(reg, MBWPOR_BITMAP_DEF_VAL, 32, 0, first, i);
  }
}
