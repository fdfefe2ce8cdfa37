/**
  The per-PE status words of the SDEI tests and the poll that turns them into one verdict.
 */
module SdeiStatus {

  type Code = bv32

  const PASS: Code := 0
  const FAIL: Code := 1
  const PENDING: Code := 2
  const ERROR: Code := 3
  const TIMEOUT: Code := 4
  const ABORT: Code := 5
  const SKIP: Code := 7

  /** The codes a test body may leave behind when it is done. */
  predicate IsFinal(c: Code) {
    c == PASS || c == FAIL || c == ERROR || c == ABORT || c == SKIP
  }

  /** The test the poll makes on what it has ORed together so far. */
  predicate HasFailBit(c: Code) {
    c & FAIL != 0
  }

  function Or(a: Code, b: Code): Code {
    a | b
  }

  lemma {:induction false} OrFacts(a: Code, b: Code)
    ensures HasFailBit(Or(a, b)) <==> HasFailBit(a) || HasFailBit(b)
    ensures Or(a, b) == PASS <==> a == PASS && b == PASS
  {}

  /**
    Status memory as the poll sees it: mem(t, i) is the word of PE i at the moment sweep t reads
    it.  Nothing relates different moments, so other PEs may write at will.
   */
  type Memory = (nat, nat) -> Code

  /** The OR of the words of the first k PEs in sweep t. */
  function OrOf(mem: Memory, t: nat, k: nat): Code {
    if k == 0 then PASS else Or(OrOf(mem, t, k - 1), mem(t, k - 1))
  }

  lemma {:induction false} OrOfFacts(mem: Memory, t: nat, k: nat)
    ensures HasFailBit(OrOf(mem, t, k)) <==> exists i :: 0 <= i < k && HasFailBit(mem(t, i))
    ensures OrOf(mem, t, k) == PASS <==> forall i :: 0 <= i < k ==> mem(t, i) == PASS
  {
    if k == 0 {
      assert !HasFailBit(PASS);
    } else {
      OrOfFacts(mem, t, k - 1);
      OrFacts(OrOf(mem, t, k - 1), mem(t, k - 1));
    }
  }

  /** Sweep t sees neither a FAIL bit nor only PASS. */
  ghost predicate Undecided(mem: Memory, t: nat, n: nat) {
    (forall i :: 0 <= i < n ==> !HasFailBit(mem(t, i))) && (exists i :: 0 <= i < n && mem(t, i) != PASS)
  }

  /** Sweep t ends the poll of n PEs with the given code. */
  ghost predicate Decides(mem: Memory, t: nat, n: nat, code: Code) {
    (code == PASS && forall i :: 0 <= i < n ==> mem(t, i) == PASS) ||
    (exists k :: 0 <= k < n && HasFailBit(mem(t, k)) &&
                 (forall i :: 0 <= i < k ==> !HasFailBit(mem(t, i))) && code == OrOf(mem, t, k + 1))
  }

  /** Sweep t finds PE k to be the first that is no longer pending. */
  ghost predicate FirstDone(mem: Memory, t: nat, n: nat, k: nat) {
    k < n && mem(t, k) != PENDING && forall i :: 0 <= i < k ==> mem(t, i) == PENDING
  }

  ghost predicate AllPending(mem: Memory, t: nat, n: nat) {
    forall i :: 0 <= i < n ==> mem(t, i) == PENDING
  }

  /** What val_test_get_status may return; total is the number of PEs in the table. */
  ghost predicate Verdict(mem: Memory, numPe: nat, total: nat, timeout: nat, code: Code) {
    if numPe == 1 then
      (exists t, k :: 0 <= t < timeout && FirstDone(mem, t, total, k) && code == mem(t, k) &&
                      forall u :: 0 <= u < t ==> AllPending(mem, u, total)) ||
      (code == TIMEOUT && forall u :: 0 <= u < timeout ==> AllPending(mem, u, total))
    else
      (exists t :: 0 <= t < timeout && Decides(mem, t, numPe, code) &&
                   forall u :: 0 <= u < t ==> Undecided(mem, u, numPe)) ||
      (code == TIMEOUT && forall u :: 0 <= u < timeout ==> Undecided(mem, u, numPe))
  }

  /** val_test_get_status. */
  method GetStatus(mem: Memory, numPe: nat, total: nat, timeout: nat) returns (status: Code)
    ensures Verdict(mem, numPe, total, timeout, status)
  {
    if numPe == 1 {
      status := PollSingle(mem, total, timeout);
    } else {
      status := PollAll(mem, numPe, timeout);
    }
  }

  /** The branch for a test that runs on one PE, which need not be the PE that polls. */
  method PollSingle(mem: Memory, total: nat, timeout: nat) returns (status: Code)
    ensures Verdict(mem, 1, total, timeout, status)
  {
    var t := 0;
    while t < timeout
      invariant 0 <= t <= timeout
      invariant forall u :: 0 <= u < t ==> AllPending(mem, u, total)
    {
      var i := 0;
      while i < total
        invariant 0 <= i <= total
        invariant forall k :: 0 <= k < i ==> mem(t, k) == PENDING
      {
        status := mem(t, i);
        if status != PENDING {
          assert FirstDone(mem, t, total, i);
          return;
        }
        i := i + 1;
      }
      t := t + 1;
    }
    return TIMEOUT;
  }

  /** The branch that ORs the words of all PEs. */
  method PollAll(mem: Memory, numPe: nat, timeout: nat) returns (status: Code)
    requires numPe != 1
    ensures Verdict(mem, numPe, 0, timeout, status)
  {
    var t := 0;
    while t < timeout
      invariant 0 <= t <= timeout
      invariant forall u :: 0 <= u < t ==> Undecided(mem, u, numPe)
    {
      var decided;
      status, decided := Sweep(mem, t, numPe);
      if decided {
        return;
      }
      t := t + 1;
    }
    return TIMEOUT;
  }

  lemma {:induction false} FailSeen(mem: Memory, t: nat, i: nat, numPe: nat)
    requires i < numPe && !HasFailBit(OrOf(mem, t, i)) && HasFailBit(OrOf(mem, t, i + 1))
    ensures Decides(mem, t, numPe, OrOf(mem, t, i + 1))
  {
    OrOfFacts(mem, t, i);
    OrFacts(OrOf(mem, t, i), mem(t, i));
  }

  /** One pass over the words of all PEs, left at the first sight of a FAIL bit. */
  method Sweep(mem: Memory, t: nat, numPe: nat) returns (status: Code, decided: bool)
    ensures decided ==> Decides(mem, t, numPe, status)
    ensures !decided ==> Undecided(mem, t, numPe)
  {
    status := PASS;
    var i := 0;
    while i < numPe
      invariant 0 <= i <= numPe
      invariant status == OrOf(mem, t, i) && !HasFailBit(status)
    {
      status := Or(status, mem(t, i));
      if HasFailBit(status) {
        FailSeen(mem, t, i, numPe);
        return status, true;
      }
      i := i + 1;
    }
    OrOfFacts(mem, t, numPe);
    decided := status == PASS;
  }

  // ---------------------------------------------------------------- status words at rest

  /** Memory that nobody writes during the poll. */
  function Still(slots: seq<Code>): Memory {
    (t: nat, i: nat) => if i < |slots| then slots[i] else PASS
  }

  /** Index of the first PE whose word is not PASS, or the number of PEs. */
  function FirstNonPass(slots: seq<Code>): (k: nat)
    ensures k <= |slots|
    ensures k < |slots| ==> slots[k] != PASS
    ensures forall i :: 0 <= i < k ==> slots[i] == PASS
  {
    if |slots| == 0 || slots[0] != PASS then 0 else
    var k := FirstNonPass(slots[1..]);
    assert forall i :: 1 <= i < k + 1 ==> slots[i] == slots[1..][i - 1];
    k + 1
  }

  /** The verdict the tests mean: the code of the first PE that did not pass, or PASS. */
  function LowestNonPassCode(slots: seq<Code>): Code {
    var k := FirstNonPass(slots);
    if k < |slots| then slots[k] else PASS
  }

  lemma {:induction false} OrWithPass(c: Code)
    ensures Or(PASS, c) == c
  {}

  /** A sweep over words at rest goes on exactly when some word is not PASS and none failed. */
  lemma {:induction false} StillUndecided(slots: seq<Code>, t: nat)
    ensures Undecided(Still(slots), t, |slots|) <==>
            FirstNonPass(slots) < |slots| && forall i :: 0 <= i < |slots| ==> !HasFailBit(slots[i])
  {
    var mem := Still(slots);
    forall i: nat | i < |slots|
      ensures mem(t, i) == slots[i]
    {}
    var first := FirstNonPass(slots);
    assert first < |slots| ==> mem(t, first) != PASS;
  }

  /** A sweep over words at rest that ends the poll. */
  lemma {:induction false} StillDecides(slots: seq<Code>, t: nat, code: Code)
    requires Decides(Still(slots), t, |slots|, code)
    ensures var k := FirstNonPass(slots);
            code == LowestNonPassCode(slots) <==> k == |slots| || HasFailBit(slots[k])
    ensures FirstNonPass(slots) < |slots| ==> exists i :: 0 <= i < |slots| && HasFailBit(slots[i])
  {
    var mem := Still(slots);
    var n := |slots|;
    var first := FirstNonPass(slots);
    forall i: nat | i < n
      ensures mem(t, i) == slots[i]
    {}
    if forall i :: 0 <= i < n ==> slots[i] == PASS {
      assert !HasFailBit(PASS);
    } else {
      var k :| 0 <= k < n && HasFailBit(mem(t, k)) &&
               (forall i :: 0 <= i < k ==> !HasFailBit(mem(t, i))) && code == OrOf(mem, t, k + 1);
      assert slots[k] != PASS by {
        assert !HasFailBit(PASS);
      }
      OrOfFacts(mem, t, k);
      if first == k {
        OrWithPass(slots[k]);
      } else {
        OrOfFacts(mem, t, k + 1);
        assert !HasFailBit(mem(t, first));
      }
    }
  }

  /**
    On words that nobody writes, the multi-PE poll returns the code of the lowest-index PE that
    did not pass exactly when that word has the FAIL bit, or everybody passed, or nobody has the
    FAIL bit and the word happens to be the TIMEOUT code that the poll then ends with.
   */
  lemma {:induction false} StillVerdictIff(slots: seq<Code>, timeout: nat, code: Code)
    requires |slots| != 1 && timeout >= 1
    requires Verdict(Still(slots), |slots|, |slots|, timeout, code)
    ensures code == LowestNonPassCode(slots) <==>
            (var k := FirstNonPass(slots);
             k == |slots| || HasFailBit(slots[k]) ||
             (slots[k] == TIMEOUT && forall i :: 0 <= i < |slots| ==> !HasFailBit(slots[i])))
  {
    var mem := Still(slots);
    if t :| 0 <= t < timeout && Decides(mem, t, |slots|, code) {
      StillDecides(slots, t, code);
    } else {
      assert Undecided(mem, 0, |slots|);
      StillUndecided(slots, 0);
    }
  }

  /** The first sweep over words at rest already decides, or no sweep ever does. */
  lemma {:induction false} StillFirstSweep(slots: seq<Code>, t: nat, code: Code)
    requires Decides(Still(slots), t, |slots|, code)
    ensures !Undecided(Still(slots), 0, |slots|)
  {
    StillDecides(slots, t, code);
    StillUndecided(slots, 0);
  }

  /** With only final codes the verdict is always the intended one. */
  lemma {:induction false} FinalVerdict(slots: seq<Code>, timeout: nat, code: Code)
    requires |slots| != 1 && timeout >= 1
    requires forall i :: 0 <= i < |slots| ==> IsFinal(slots[i])
    requires Verdict(Still(slots), |slots|, |slots|, timeout, code)
    ensures code == LowestNonPassCode(slots)
  {
    StillVerdictIff(slots, timeout, code);
    assert HasFailBit(FAIL) && HasFailBit(ERROR) && HasFailBit(ABORT) && HasFailBit(SKIP);
  }

  /** A PE that is still pending blends into the code of a later one: here ABORT reads as SKIP. */
  lemma {:induction false} PendingBlends(code: Code)
    requires Verdict(Still([PENDING, ABORT]), 2, 2, 1, code)
    ensures code == SKIP
  {
    var slots := [PENDING, ABORT];
    var mem := Still(slots);
    assert mem(0, 0) == PENDING && mem(0, 1) == ABORT;
    assert HasFailBit(ABORT) && !HasFailBit(PENDING);
    StillUndecided(slots, 0);
    assert slots[1] == ABORT;
    var t :| 0 <= t < 1 && Decides(mem, t, 2, code);
    assert OrOf(mem, 0, 2) == Or(Or(OrOf(mem, 0, 0), PENDING), ABORT);
    assert PASS | PENDING | ABORT == SKIP;
  }

  /** Two memories with the same words of the first n PEs. */
  ghost predicate Agree(mem: Memory, other: Memory, n: nat) {
    forall t: nat, i: nat :: i < n ==> mem(t, i) == other(t, i)
  }

  lemma {:induction false} OrAgrees(mem: Memory, other: Memory, n: nat, t: nat, k: nat)
    requires Agree(mem, other, n) && k <= n
    ensures OrOf(mem, t, k) == OrOf(other, t, k)
  {
    if k > 0 {
      OrAgrees(mem, other, n, t, k - 1);
    }
  }

  lemma {:induction false} DecidesAgrees(mem: Memory, other: Memory, n: nat, t: nat, code: Code)
    requires Agree(mem, other, n)
    ensures Decides(mem, t, n, code) ==> Decides(other, t, n, code)
    ensures Undecided(mem, t, n) ==> Undecided(other, t, n)
  {
    if k :| 0 <= k < n && HasFailBit(mem(t, k)) && (forall i :: 0 <= i < k ==> !HasFailBit(mem(t, i))) &&
            code == OrOf(mem, t, k + 1) {
      OrAgrees(mem, other, n, t, k + 1);
      assert HasFailBit(other(t, k));
    }
  }

  /** The poll of several PEs depends on nothing but the words of these PEs. */
  lemma {:induction false} VerdictAgrees(mem: Memory, other: Memory, n: nat, timeout: nat, code: Code)
    requires n != 1 && Agree(mem, other, n) && Verdict(mem, n, n, timeout, code)
    ensures Verdict(other, n, n, timeout, code)
  {
    forall u: nat
      ensures Undecided(mem, u, n) ==> Undecided(other, u, n)
      ensures Decides(mem, u, n, code) ==> Decides(other, u, n, code)
    {
      DecidesAgrees(mem, other, n, u, code);
    }
  }
}
