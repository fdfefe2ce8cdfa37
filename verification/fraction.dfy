/** Percentages as fixed-point fractions, and the register writes of the partition settings. */
module Fraction {
  import opened Partition

  /** ((1 << width) * pct / 100) - 1 in 32-bit arithmetic, kept in 16 bits. */
  function FixedPoint(width: nat, pct: nat): (v: nat)
    ensures v < 0x1_0000
  {
    (Pow2(width) * pct % 0x1_0000_0000 / 100 - 1) % 0x1_0000
  }

  /** The fraction moved to the top of the 16-bit field. */
  function Field(width: nat, v: nat): (f: nat)
    requires width <= 16
    ensures f < 0x1_0000
  {
    v * Pow2(16 - width) % 0x1_0000
  }

  lemma {:induction false} Pow2Monotone(j: nat, k: nat)
    requires j <= k
    ensures Pow2(j) <= Pow2(k)
  {
    if j < k {
      Pow2Monotone(j, k - 1);
    }
  }

  lemma {:induction false} Pow2Sum(j: nat, k: nat)
    ensures Pow2(j + k) == Pow2(j) * Pow2(k)
  {
    if j > 0 {
      Pow2Sum(j - 1, k);
      DoubleProduct(Pow2(j - 1), Pow2(k));
    }
  }

  lemma {:induction false} DoubleProduct(a: nat, b: nat)
    ensures 2 * a * b == 2 * (a * b)
  {
  }

  lemma {:induction false} Sixteen(width: nat)
    requires width <= 16
    ensures Pow2(width) <= 0x1_0000 && Pow2(width) * Pow2(16 - width) == 0x1_0000
  {
    Fillers();
    Pow2Monotone(width, 16);
    Pow2Sum(width, 16 - width);
    assert width + (16 - width) == 16;
  }

  /** The arithmetic of the fraction, for the scaled percentage p = 2^width * pct. */
  lemma {:induction false} FractionOf(p: nat)
    requires p <= 0x64_0000
    ensures var v := (p % 0x1_0000_0000 / 100 - 1) % 0x1_0000;
            if p >= 100 then v == p / 100 - 1 && 100 * (v + 1) <= p < 100 * (v + 2) else v == 0xFFFF
  {
  }

  lemma {:induction false} ScaledBound(width: nat, pct: nat)
    requires width <= 16 && pct <= 100
    ensures Pow2(width) * pct <= 100 * Pow2(width) <= 0x64_0000
  {
    Sixteen(width);
    ProductBound(Pow2(width), pct);
  }

  /**
    The error bound. For 2^width * pct >= 100 the fraction v, read as (v + 1) / 2^width, is at
    most pct / 100 and misses it by less than 2^-width; below that the subtraction wraps.
   */
  lemma {:induction false} ErrorBoundIff(width: nat, pct: nat)
    requires width <= 16 && pct <= 100
    ensures var v, scale := FixedPoint(width, pct), Pow2(width);
            scale * pct >= 100 <==> 100 * (v + 1) <= scale * pct < 100 * (v + 1) + 100 && v < scale
    ensures Pow2(width) * pct < 100 ==> FixedPoint(width, pct) == 0xFFFF
  {
    ScaledBound(width, pct);
    FractionOf(Pow2(width) * pct);
  }

  /** A larger percentage never gives a smaller fraction, as long as neither wraps. */
  lemma {:induction false} Monotone(width: nat, low: nat, high: nat)
    requires width <= 16 && low <= high <= 100 && Pow2(width) * low >= 100
    ensures FixedPoint(width, low) <= FixedPoint(width, high)
  {
    ScaledBound(width, low);
    ScaledBound(width, high);
    ProductMonotone(Pow2(width), low, high);
    FractionOf(Pow2(width) * low);
    FractionOf(Pow2(width) * high);
  }

  lemma {:induction false} ProductMonotone(a: nat, low: nat, high: nat)
    requires low <= high
    ensures a * low <= a * high
  {
  }

  lemma {:induction false} QuotientUnique(v: nat, q: nat, d: nat, r: nat)
    requires v * q == d * q + r && r < q
    ensures d == v
  {
    if d < v {
      ProductMonotone(q, d + 1, v);
      ProductNext(d, q);
    } else if v < d {
      ProductMonotone(q, v + 1, d);
      ProductNext(v, q);
    }
  }

  lemma {:induction false} DivideBack(v: nat, q: nat)
    requires q > 0
    ensures v * q / q == v
  {
    var p := v * q;
    assert p == p / q * q + p % q;
    QuotientUnique(v, q, p / q, p % q);
  }

  lemma {:induction false} SmallModulo(x: nat)
    requires x < 0x1_0000
    ensures x % 0x1_0000 == x
  {
  }

  /** A fraction that did not wrap fits below the top of the field. */
  lemma {:induction false} ProperField(width: nat, v: nat)
    requires width <= 16 && v < Pow2(width)
    ensures Field(width, v) == v * Pow2(16 - width) && Field(width, v) + Pow2(16 - width) <= 0x1_0000
  {
    Sixteen(width);
    StrictProduct(v, Pow2(width), Pow2(16 - width));
    SmallModulo(v * Pow2(16 - width));
  }

  /** Shifting the field back down recovers a fraction that did not wrap. */
  lemma {:induction false} FieldRecovers(width: nat, pct: nat)
    requires width <= 16 && pct <= 100 && Pow2(width) * pct >= 100
    ensures Field(width, FixedPoint(width, pct)) / Pow2(16 - width) == FixedPoint(width, pct)
  {
    ErrorBoundIff(width, pct);
    ProperField(width, FixedPoint(width, pct));
    DivideBack(FixedPoint(width, pct), Pow2(16 - width));
  }

  lemma {:induction false} StrictProduct(v: nat, scale: nat, q: nat)
    requires v < scale && q > 0
    ensures v * q + q <= scale * q
  {
    ProductMonotone(q, v + 1, scale);
    ProductNext(v, q);
  }

  /** All bits of the fraction are set. */
  function FullField(width: nat): nat
    requires width <= 16
    ensures FullField(width) < 0x1_0000
  {
    Sixteen(16 - width);
    0x1_0000 - Pow2(16 - width)
  }

  lemma {:induction false} WrappedField(width: nat)
    requires width <= 16
    ensures Field(width, 0xFFFF) == FullField(width)
  {
    var q := Pow2(16 - width);
    Sixteen(16 - width);
    WrapProduct(q);
  }

  lemma {:induction false} WrapProduct(q: nat)
    requires 0 < q <= 0x1_0000
    ensures 0xFFFF * q % 0x1_0000 == 0x1_0000 - q
  {
  }

  /**
    The whole fraction is requested by 100 percent, and, because of the wrap-around, by every
    percentage too small for the width, zero included; by no other percentage.
   */
  lemma {:induction false} FullIff(width: nat, pct: nat)
    requires width <= 16 && pct <= 100
    ensures Field(width, FixedPoint(width, pct)) == FullField(width)
       <==> pct == 100 || Pow2(width) * pct < 100
  {
    ErrorBoundIff(width, pct);
    if Pow2(width) * pct < 100 {
      WrappedField(width);
    } else {
      var v := FixedPoint(width, pct);
      ProperFullIff(width, v);
      AllOnesIff(Pow2(width), pct, v);
    }
  }

  lemma {:induction false} ProperFullIff(width: nat, v: nat)
    requires width <= 16 && v < Pow2(width)
    ensures Field(width, v) == FullField(width) <==> v + 1 == Pow2(width)
  {
    var scale, q := Pow2(width), Pow2(16 - width);
    ProperField(width, v);
    Sixteen(width);
    ProductNext(v, q);
    if v + 1 < scale {
      StrictProduct(v + 1, scale, q);
    }
  }

  lemma {:induction false} AllOnesIff(scale: nat, pct: nat, v: nat)
    requires pct <= 100 && 100 * (v + 1) <= scale * pct < 100 * (v + 1) + 100 && v < scale
    ensures v + 1 == scale <==> pct == 100
  {
    if pct < 100 {
      LessThanScale(scale, pct, v);
    }
  }

  lemma {:induction false} ProductNext(v: nat, q: nat)
    ensures (v + 1) * q == v * q + q
  {
  }

  lemma {:induction false} LessThanScale(scale: nat, pct: nat, v: nat)
    requires pct < 100 && 100 * (v + 1) <= scale * pct && scale > 0
    ensures v + 1 < scale
  {
    ProductMonotone(scale, pct, 99);
  }

  /** Bitwise or. */
  function Or(a: nat, b: nat): nat {
    if a == 0 && b == 0 then 0
    else (if a % 2 == 1 || b % 2 == 1 then 1 else 0) + 2 * Or(a / 2, b / 2)
  }

  /** Or-ing a value below 2^k with a multiple of 2^k adds them. */
  lemma {:induction false} OrDisjoint(a: nat, b: nat, k: nat)
    requires b < Pow2(k)
    ensures Or(a * Pow2(k), b) == a * Pow2(k) + b
    decreases k, a
  {
    if k == 0 {
      OrZero(a);
    } else {
      var x := a * Pow2(k - 1);
      assert a * Pow2(k) == 2 * x by { DoubleProduct(Pow2(k - 1), a); }
      OrDisjoint(a, b / 2, k - 1);
    }
  }

  lemma {:induction false} OrZero(a: nat)
    ensures Or(a, 0) == a
  {
    if a > 0 {
      OrZero(a / 2);
    }
  }

  const HARDLIM_SHIFT: nat := 31

  /** The MBW_MAX and CMAX register value; a 32-bit shift by 31 keeps the lowest bit of hardlim only. */
  function LimitValue(width: nat, hardlim: nat, pct: nat): nat
    requires width <= 16
  {
    Or(hardlim % 2 * Pow2(HARDLIM_SHIFT), Field(width, FixedPoint(width, pct)))
  }

  lemma {:induction false} LimitSplit(hardlim: nat, field: nat)
    requires field < 0x1_0000
    ensures (hardlim * 0x8000_0000 + field) / 0x8000_0000 == hardlim
    ensures (hardlim * 0x8000_0000 + field) % 0x1_0000 == field
  {
  }

  lemma {:induction false} HardlimWeight()
    ensures Pow2(HARDLIM_SHIFT) == 0x8000_0000
  {
    Fillers();
    assert Pow2(32) == 2 * Pow2(31);
  }

  /** The hard-limit bit and the fraction do not disturb each other. */
  lemma {:induction false} LimitParts(width: nat, hardlim: nat, pct: nat)
    requires width <= 16
    ensures var value, field := LimitValue(width, hardlim, pct), Field(width, FixedPoint(width, pct));
            value == hardlim % 2 * 0x8000_0000 + field && value / 0x8000_0000 == hardlim % 2 &&
            value % 0x1_0000 == field
  {
    var field := Field(width, FixedPoint(width, pct));
    HardlimWeight();
    OrDisjoint(hardlim % 2, field, HARDLIM_SHIFT);
    LimitSplit(hardlim % 2, field);
  }
}
