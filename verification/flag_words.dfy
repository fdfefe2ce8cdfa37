/**
  64-bit flag words, as the sequence of their bits with the least significant bit first.  The
  bitwise operators of C act on each bit by itself.
 */
module FlagWords {

  type Bits = seq<bool>

  /** The low bits of 1ULL << i; i is past the width for a word of zeros. */
  function OneHot(i: nat, width: nat): (w: Bits)
    ensures |w| == width && forall k :: 0 <= k < width ==> w[k] == (k == i)
  {
    if width == 0 then [] else OneHot(i, width - 1) + [i == width - 1]
  }

  function Zero(width: nat): (w: Bits)
    ensures |w| == width && forall k :: 0 <= k < width ==> !w[k]
  {
    if width == 0 then [] else Zero(width - 1) + [false]
  }

  function And(a: Bits, b: Bits): (w: Bits)
    requires |a| == |b|
    ensures |w| == |a| && forall k :: 0 <= k < |a| ==> w[k] == (a[k] && b[k])
  {
    if |a| == 0 then [] else [a[0] && b[0]] + And(a[1..], b[1..])
  }

  function Or(a: Bits, b: Bits): (w: Bits)
    requires |a| == |b|
    ensures |w| == |a| && forall k :: 0 <= k < |a| ==> w[k] == (a[k] || b[k])
  {
    if |a| == 0 then [] else [a[0] || b[0]] + Or(a[1..], b[1..])
  }

  function Not(a: Bits): (w: Bits)
    ensures |w| == |a| && forall k :: 0 <= k < |a| ==> w[k] == !a[k]
  {
    if |a| == 0 then [] else [!a[0]] + Not(a[1..])
  }

  /** word & (1ULL << i), as a truth value. */
  predicate TestBit(word: Bits, i: nat)
    requires i < |word|
    ensures TestBit(word, i) <==> word[i]
  {
    var masked := And(word, OneHot(i, |word|));
    assert masked[i] == word[i];
    assert !word[i] ==> masked == Zero(|word|);
    masked != Zero(|word|)
  }

  /** word | (1ULL << i). */
  function SetBit(word: Bits, i: nat): (w: Bits)
    requires i < |word|
    ensures w == word[i := true]
  {
    Or(word, OneHot(i, |word|))
  }

  /** word & ~(1ULL << i). */
  function ClearBit(word: Bits, i: nat): (w: Bits)
    requires i < |word|
    ensures w == word[i := false]
  {
    And(word, Not(OneHot(i, |word|)))
  }
}
