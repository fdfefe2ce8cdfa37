/** Counting arguments used by several modules. */
module Counting {

  /** The pigeonhole principle: distinct numbers below a bound are at most that many. */
  lemma {:induction false} Pigeonhole(s: seq<nat>, bound: nat)
    requires forall i :: 0 <= i < |s| ==> s[i] < bound
    requires forall i, j :: 0 <= i < j < |s| ==> s[i] != s[j]
    ensures |s| <= bound
  {
    assert |s| > 0 ==> s[0] < bound;
    if |s| == 0 {
    } else if top :| 0 <= top < |s| && s[top] == bound - 1 {
      Pigeonhole(s[..top] + s[top + 1..], bound - 1);
    } else {
      Pigeonhole(s, bound - 1);
    }
  }
}
