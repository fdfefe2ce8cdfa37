/**
  Waiting for the PEs of a multi-PE test and reading the verdict off their slots.
 */
module MpamVerdict {
  import opened MpamStatus
  import opened Options

  const MAX_TEST_SKIP_NUM: nat := 3

  datatype Verdict = Pass | Skip | Fail    // ACS_STATUS_PASS, ACS_STATUS_SKIP, ACS_STATUS_FAIL

  /** The slots over time: slot i at moment t.  The waiting PE reads one slot per moment. */
  type Timeline = (nat, nat) -> Status

  /** A PE writes its result once: a slot that is no longer pending stays as it is. */
  ghost predicate WriteOnce(slots: Timeline, n: nat) {
    forall t: nat, u: nat, i: nat :: t <= u && i < n && !IsPending(slots(t, i)) ==>
                                       slots(u, i) == slots(t, i)
  }

  /** The slots of n PEs at one moment. */
  function At(slots: Timeline, t: nat, n: nat): (now: seq<Status>)
    ensures |now| == n && forall i :: 0 <= i < n ==> now[i] == slots(t, i)
  {
    seq(n, i requires 0 <= i < n => slots(t, i))
  }

  ghost predicate NonePending(now: seq<Status>) {
    forall i :: 0 <= i < |now| ==> !IsPending(now[i])
  }

  /** Slot k is pending at some moment of the interval. */
  ghost predicate SeenPending(slots: Timeline, from: nat, to: nat, k: nat) {
    exists u :: from <= u < to && IsPending(slots(u, k))
  }

  /** At moment t no slot in the range is pending. */
  ghost predicate DoneBetween(slots: Timeline, t: nat, from: nat, to: nat) {
    forall i :: from <= i < to ==> !IsPending(slots(t, i))
  }

  /**
    One sweep of val_wait_for_test_completion, starting at moment t: j is one more than the
    largest index found pending, or 0.
   */
  method SweepPending(slots: Timeline, t: nat, numPe: nat) returns (j: nat)
    requires WriteOnce(slots, numPe)
    ensures j <= numPe
    ensures j > 0 ==> SeenPending(slots, t, t + numPe, j - 1)
    ensures DoneBetween(slots, t + numPe, j, numPe)
  {
    j := 0;
    var i := 0;
    while i < numPe
      invariant 0 <= j <= i <= numPe
      invariant j > 0 ==> SeenPending(slots, t, t + i, j - 1)
      invariant DoneBetween(slots, t + numPe, j, i)
    {
      if IsPending(slots(t + i, i)) {
        j := i + 1;
      }
      i := i + 1;
    }
  }

  /** PE k was seen pending before the moment end, and every later PE is done by then. */
  ghost predicate LastPending(slots: Timeline, numPe: nat, end: nat, k: nat) {
    k < numPe && SeenPending(slots, 0, end, k) && DoneBetween(slots, end, k + 1, numPe)
  }

  const TWO_32: nat := 0x1_0000_0000

  /**
    val_wait_for_test_completion.  end is the moment the wait is over; marked is the index whose
    slot is then set to FAIL because the time ran out.  The single-PE case does not wait.  The
    counter is 32 bits wide and goes down before it is tested: a time-out of 0 is the longest, and
    one of 1 marks index -1 without a look at the slots.
   */
  method WaitForTestCompletion(slots: Timeline, numPe: nat, timeout: nat)
    returns (end: nat, marked: Option<nat>)
    requires WriteOnce(slots, numPe) && timeout < TWO_32 && numPe < TWO_32
    ensures numPe == 1 ==> marked == None
    ensures numPe != 1 && marked == None ==> NonePending(At(slots, end, numPe))
    ensures marked.Some? && timeout != 1 ==> numPe != 1 && LastPending(slots, numPe, end, marked.value)
    ensures numPe != 1 && timeout == 1 ==> end == 0 && marked == Some(TWO_32 - 1)
  {
    end := 0;
    if numPe == 1 {
      return 0, None;
    }
    var j := 0;
    var left := (timeout + TWO_32 - 1) % TWO_32;
    ghost var first := left;
    while left != 0
      invariant 0 <= left <= first && j <= numPe
      invariant if left == first then j == 0 && end == 0 else j > 0 && LastPending(slots, numPe, end, j - 1)
    {
      j := SweepPending(slots, end, numPe);
      end := end + numPe;
      if j == 0 {
        return end, None;
      }
      left := left - 1;
    }
    return end, Some((j + TWO_32 - 1) % TWO_32);
  }

  /** The slots that the verdict is read from, given that nobody writes once the wait is over. */
  function FinalSlots(slots: Timeline, numPe: nat, end: nat, marked: Option<nat>, testNum: bv32): (f: seq<Status>)
    requires marked.Some? ==> marked.value < numPe
    ensures |f| == numPe
  {
    var now := At(slots, end, numPe);
    if marked.Some? then now[marked.value := ResultWord(FAIL_STATE, testNum, 0xF)] else now
  }

  /** The mark reads as FAIL with detail 0xF; every other slot is what its PE left there. */
  lemma {:induction false} FinalSlotAt(slots: Timeline, numPe: nat, end: nat, marked: Option<nat>, testNum: bv32,
                                       i: nat)
    requires (marked.Some? ==> marked.value < numPe) && i < numPe && testNum <= 0xFFF
    ensures var f := FinalSlots(slots, numPe, end, marked, testNum);
            if marked == Some(i) then IsFail(f[i]) && f[i] & 0xFFFF == 0xF else f[i] == slots(end, i)
  {
    ResultState(FAIL_STATE, testNum, 0xF);
  }

  /** Index of the first slot that failed or was skipped, or the number of slots. */
  function FirstBad(slots: seq<Status>): (k: nat)
    ensures k <= |slots|
    ensures k < |slots| ==> IsFail(slots[k]) || IsSkip(slots[k])
    ensures forall i :: 0 <= i < k ==> !IsFail(slots[i]) && !IsSkip(slots[i])
  {
    if |slots| == 0 || IsFail(slots[0]) || IsSkip(slots[0]) then 0 else
    var k := FirstBad(slots[1..]);
    assert forall i :: 1 <= i < k + 1 ==> slots[i] == slots[1..][i - 1];
    k + 1
  }

  /** The slot that decides: the first bad one, or else the last one read. */
  function DecidingSlot(slots: seq<Status>): Status
    requires |slots| > 0
  {
    var k := FirstBad(slots);
    if k < |slots| then slots[k] else slots[|slots| - 1]
  }

  function VerdictOf(status: Status): Verdict {
    if IsPass(status) then Pass else if IsSkip(status) then Skip else Fail
  }

  /** The global counters of the MPAM tests and the list of tests the user wants skipped. */
  class Totals {
    var total: nat
    var pass: nat
    var fail: nat
    const skipList: seq<nat>

    constructor (skipList: seq<nat>)
      requires |skipList| == MAX_TEST_SKIP_NUM
      ensures total == pass == fail == 0 && this.skipList == skipList
    {
      total, pass, fail, this.skipList := 0, 0, 0, skipList;
    }

    /** val_initialize_test: every slot pending, except the caller's own if the user said skip. */
    method InitializeTest(testNum: bv32, testId: nat, slots: seq<Status>, numPe: nat, myIndex: nat)
      returns (slots': seq<Status>, verdict: Verdict)
      requires numPe <= |slots| && myIndex < |slots|
      modifies this`total
      ensures total == old(total) + 1 && |slots'| == |slots|
      ensures verdict == if testId in skipList then Skip else Pass
      ensures forall i :: 0 <= i < |slots| ==>
                            slots'[i] ==
                            if i == myIndex && testId in skipList then ResultWord(SKIP_STATE, testNum, 0)
                            else if i < numPe then ResultWord(PENDING_STATE, testNum, 0) else slots[i]
    {
      total := total + 1;
      slots' := slots;
      var i := 0;
      while i < numPe
        invariant 0 <= i <= numPe && |slots'| == |slots|
        invariant forall k :: 0 <= k < |slots| ==>
                                slots'[k] == if k < i then ResultWord(PENDING_STATE, testNum, 0) else slots[k]
      {
        slots' := slots'[i := ResultWord(PENDING_STATE, testNum, 0)];
        i := i + 1;
      }
      i := 0;
      while i < |skipList|
        invariant 0 <= i <= |skipList| && testId !in skipList[..i]
      {
        if skipList[i] == testId {
          slots' := slots'[myIndex := ResultWord(SKIP_STATE, testNum, 0)];
          return slots', Skip;
        }
        i := i + 1;
      }
      verdict := Pass;
    }

    /**
      val_check_for_error.  For one PE the caller's own slot decides, which need not be slot 0; for
      none at all nothing has passed.
     */
    method CheckForError(slots: seq<Status>, numPe: nat, myIndex: nat) returns (verdict: Verdict)
      requires numPe <= |slots| && myIndex < |slots|
      modifies this`pass, this`fail
      ensures numPe == 0 ==> verdict == Fail
      ensures numPe == 1 && IsPass(slots[myIndex]) ==> verdict == Pass
      ensures numPe == 1 && IsSkip(slots[myIndex]) ==> verdict == Skip
      ensures numPe == 1 && !IsPass(slots[myIndex]) && !IsSkip(slots[myIndex]) ==> verdict == Fail
      ensures numPe > 1 && NoneBad(slots, numPe) ==> verdict == if IsPass(slots[numPe - 1]) then Pass else Fail
      ensures forall k: nat :: numPe > 1 && FirstBadIs(slots, numPe, k) ==>
                                 verdict == if IsSkip(slots[k]) then Skip else Fail
      ensures numPe > 1 ==> verdict == VerdictOf(DecidingSlot(slots[..numPe]))
      ensures pass == old(pass) + if verdict == Pass then 1 else 0
      ensures fail == old(fail) + if verdict == Fail then 1 else 0
    {
      var status := 0;
      if numPe == 1 {
        status := slots[myIndex];
      } else {
        var i := 0;
        while i < numPe
          invariant 0 <= i <= numPe && NoneBad(slots, i)
          invariant status == if i > 0 then slots[i - 1] else 0
        {
          status := slots[i];
          if IsFail(status) || IsSkip(status) {
            break;
          }
          i := i + 1;
        }
        ghost var used := slots[..numPe];
        if i < numPe {
          assert FirstBadIs(slots, numPe, i) && FirstBadIs(used, numPe, i);
          FirstBadFound(used, i);
        }
        assert numPe > 1 ==> status == DecidingSlot(used);
      }
      StatesExclude(status);
      if IsPass(status) {
        pass := pass + 1;
        return Pass;
      }
      if IsSkip(status) {
        return Skip;
      }
      fail := fail + 1;
      return Fail;
    }
  }

  /**
    The end of a multi-PE test: wait, then check.  PASS is returned exactly when the wait ended by
    itself and every PE had written PASS by then; that is so whenever all had before the wait.
   */
  method WaitAndCheck(totals: Totals, slots: Timeline, numPe: nat, timeout: nat, testNum: bv32, myIndex: nat)
    returns (verdict: Verdict, ghost end: nat, ghost marked: Option<nat>)
    requires 1 < numPe < TWO_32 && myIndex < numPe && 1 != timeout < TWO_32 && testNum <= 0xFFF
    requires WriteOnce(slots, numPe)
    requires forall t: nat, i: nat :: i < numPe ==> IsTestState(slots(t, i))
    modifies totals`pass, totals`fail
    ensures verdict == Pass <==> marked == None && AllPass(At(slots, end, numPe))
    ensures if marked == None then NonePending(At(slots, end, numPe)) else LastPending(slots, numPe, end, marked.value)
    ensures AllPass(At(slots, 0, numPe)) ==> verdict == Pass
  {
    var moment, mark := WaitForTestCompletion(slots, numPe, timeout);
    end, marked := moment, mark;
    var final := FinalSlots(slots, numPe, moment, mark, testNum);
    verdict := totals.CheckForError(final, numPe, myIndex);
    assert final[..numPe] == final;
    VerdictSound(slots, numPe, end, marked, testNum);
    if marked.Some? {
      TimeoutNeverPasses(slots, numPe, end, marked, testNum);
      var k := marked.value;
      var u :| 0 <= u < end && IsPending(slots(u, k));
      PendingWasNotPass(slots, numPe, u, k);
      assert !IsPass(At(slots, 0, numPe)[k]);
    } else if AllPass(At(slots, 0, numPe)) {
      forall i | 0 <= i < numPe
        ensures IsPass(final[i])
      {
        assert At(slots, 0, numPe)[i] == slots(0, i);
        StatesExclude(slots(0, i));
        assert slots(end, i) == slots(0, i);
      }
    }
  }

  // ---------------------------------------------------------------- soundness

  ghost predicate AllPass(slots: seq<Status>) {
    forall i :: 0 <= i < |slots| ==> IsPass(slots[i])
  }

  lemma {:induction false} StatesExclude(s: Status)
    ensures IsPass(s) ==> !IsFail(s) && !IsSkip(s) && !IsPending(s)
    ensures IsFail(s) ==> !IsSkip(s) && !IsPending(s)
  {}

  lemma {:induction false} PendingWasNotPass(slots: Timeline, n: nat, u: nat, i: nat)
    requires WriteOnce(slots, n) && i < n && IsPending(slots(u, i))
    ensures !IsPass(slots(0, i))
  {
    StatesExclude(slots(0, i));
    StatesExclude(slots(u, i));
  }

  /** Among the first n slots, slot k is the first one that failed or was skipped. */
  ghost predicate FirstBadIs(slots: seq<Status>, n: nat, k: nat)
    requires n <= |slots|
  {
    k < n && (IsFail(slots[k]) || IsSkip(slots[k])) && NoneBad(slots, k)
  }

  ghost predicate NoneBad(slots: seq<Status>, n: nat)
    requires n <= |slots|
  {
    forall j :: 0 <= j < n ==> !IsFail(slots[j]) && !IsSkip(slots[j])
  }

  lemma {:induction false} FirstBadFound(slots: seq<Status>, k: nat)
    requires FirstBadIs(slots, |slots|, k)
    ensures FirstBad(slots) == k
  {}

  /**
    The three verdicts on several PEs: SKIP when the first bad slot is a skipped one, FAIL when it
    is a failed one or when there is none and the last slot is no pass, and PASS otherwise.
   */
  lemma {:induction false} VerdictIff(slots: seq<Status>)
    requires |slots| > 0
    ensures var verdict, n := VerdictOf(DecidingSlot(slots)), |slots|;
            (verdict == Skip <==> exists k: nat :: FirstBadIs(slots, n, k) && IsSkip(slots[k])) &&
            (verdict == Fail <==> (exists k: nat :: FirstBadIs(slots, n, k) && IsFail(slots[k])) ||
                                  (NoneBad(slots, n) && !IsPass(slots[n - 1]))) &&
            (verdict == Pass <==> NoneBad(slots, n) && IsPass(slots[n - 1]))
  {
    var n, first := |slots|, FirstBad(slots);
    StatesExclude(DecidingSlot(slots));
    if first < n {
      assert FirstBadIs(slots, n, first);
      forall k: nat | FirstBadIs(slots, n, k)
        ensures k == first
      {
        FirstBadFound(slots, k);
      }
    } else {
      assert NoneBad(slots, n);
    }
  }

  /** On its own the check only looks for bad slots and at the last one. */
  lemma {:induction false} CheckAloneIff(slots: seq<Status>)
    requires |slots| > 1
    ensures VerdictOf(DecidingSlot(slots)) == Pass <==>
            FirstBad(slots) == |slots| && IsPass(slots[|slots| - 1])
  {
    var k := FirstBad(slots);
    if k < |slots| {
      StatesExclude(slots[k]);
    }
  }

  /**
    After the wait, the verdict of a multi-PE test is PASS exactly when every PE's slot is PASS:
    if some PE was still pending when the time ran out, the mark left for the last such PE turns
    the verdict.
   */
  lemma {:induction false} VerdictSound(slots: Timeline, numPe: nat, end: nat, marked: Option<nat>, testNum: bv32)
    requires numPe > 1 && testNum <= 0xFFF
    requires marked.Some? ==> marked.value < numPe
    requires marked == None ==> NonePending(At(slots, end, numPe))
    requires forall i :: 0 <= i < numPe ==> IsTestState(slots(end, i))
    ensures var final := FinalSlots(slots, numPe, end, marked, testNum);
            VerdictOf(DecidingSlot(final)) == Pass <==> AllPass(final)
  {
    var final := FinalSlots(slots, numPe, end, marked, testNum);
    CheckAloneIff(final);
    var k := FirstBad(final);
    if AllPass(final) {
      forall i | 0 <= i < numPe
        ensures !IsFail(final[i]) && !IsSkip(final[i])
      {
        StatesExclude(final[i]);
      }
    } else {
      var i :| 0 <= i < numPe && !IsPass(final[i]);
      if marked.Some? {
        ResultState(FAIL_STATE, testNum, 0xF);
        assert IsFail(final[marked.value]);
      } else {
        assert final[i] == slots(end, i);
        assert IsFail(final[i]) || IsSkip(final[i]);
      }
    }
  }

  /** A started PE that is marked although it is only slow never makes the verdict PASS. */
  lemma {:induction false} TimeoutNeverPasses(slots: Timeline, numPe: nat, end: nat, marked: Option<nat>, testNum: bv32)
    requires numPe > 1 && testNum <= 0xFFF
    requires marked.Some? && marked.value < numPe
    ensures VerdictOf(DecidingSlot(FinalSlots(slots, numPe, end, marked, testNum))) != Pass
  {
    var final := FinalSlots(slots, numPe, end, marked, testNum);
    CheckAloneIff(final);
    ResultState(FAIL_STATE, testNum, 0xF);
    assert IsFail(final[marked.value]);
  }

  // ---------------------------------------------------------------- writes after the time-out

  /**
    Slots as the check may read them after a time-out that marked PE k: a PE that had written by
    then does not write again, so its result stays, or the mark if it is k; one that had not may
    write whatever result it likes, k over its mark.
   */
  ghost predicate ReadLater(slots: Timeline, numPe: nat, end: nat, k: nat, testNum: bv32, later: seq<Status>) {
    |later| == numPe &&
    forall i :: 0 <= i < numPe ==>
                  if IsPending(slots(end, i)) then
                    IsTestState(later[i]) &&
                    (i == k && IsPending(later[i]) ==> later[i] == ResultWord(FAIL_STATE, testNum, 0xF))
                  else later[i] == if i == k then ResultWord(FAIL_STATE, testNum, 0xF) else slots(end, i)
  }

  /** The check passes although some PE has not passed. */
  ghost predicate Fooled(later: seq<Status>)
    requires |later| > 1
  {
    VerdictOf(DecidingSlot(later)) == Pass && !AllPass(later)
  }

  /** On any slots that hold test states: what it takes to pass the check with a PE not passing. */
  lemma {:induction false} FooledIff(later: seq<Status>)
    requires |later| > 1 && forall i :: 0 <= i < |later| ==> IsTestState(later[i])
    ensures Fooled(later) <==>
            IsPass(later[|later| - 1]) &&
            (forall i :: 0 <= i < |later| ==> IsPass(later[i]) || IsPending(later[i])) &&
            (exists i :: 0 <= i < |later| && IsPending(later[i]))
  {
    CheckAloneIff(later);
    forall i | 0 <= i < |later|
      ensures IsPass(later[i]) || IsPending(later[i]) <==> !IsFail(later[i]) && !IsSkip(later[i])
    {
      StatesExclude(later[i]);
    }
  }

  /** A wrong PASS means that the marked PE overwrote its mark with PASS while an earlier PE is pending. */
  lemma {:induction false} WrongPassNeedsOverwrite(slots: Timeline, numPe: nat, end: nat, k: nat, testNum: bv32,
                                                   later: seq<Status>)
    requires numPe > 1 && testNum <= 0xFFF && LastPending(slots, numPe, end, k)
    requires forall i :: 0 <= i < numPe ==> IsTestState(slots(end, i))
    requires ReadLater(slots, numPe, end, k, testNum, later) && Fooled(later)
    ensures IsPending(slots(end, k)) && IsPass(later[k])
    ensures exists i :: 0 <= i < k && IsPending(later[i]) && IsPending(slots(end, i))
  {
    ResultState(FAIL_STATE, testNum, 0xF);
    LaterStates(slots, numPe, end, k, testNum, later);
    FooledIff(later);
    var i :| 0 <= i < numPe && IsPending(later[i]);
    StatesExclude(later[k]);
    assert i < k;
  }

  lemma {:induction false} LaterStates(slots: Timeline, numPe: nat, end: nat, k: nat, testNum: bv32,
                                       later: seq<Status>)
    requires testNum <= 0xFFF && k < numPe && ReadLater(slots, numPe, end, k, testNum, later)
    requires forall i :: 0 <= i < numPe ==> IsTestState(slots(end, i))
    ensures forall i :: 0 <= i < numPe ==> IsTestState(later[i])
    ensures !IsPending(later[k])
  {
    ResultState(FAIL_STATE, testNum, 0xF);
  }

  /** Every PE that has written by then has written PASS. */
  ghost predicate FinishedPassed(slots: Timeline, numPe: nat, end: nat) {
    forall i :: 0 <= i < numPe && !IsPending(slots(end, i)) ==> IsPass(slots(end, i))
  }

  ghost predicate EarlierPending(slots: Timeline, end: nat, k: nat) {
    exists i :: 0 <= i < k && IsPending(slots(end, i))
  }

  lemma {:induction false} FooledMeans(slots: Timeline, numPe: nat, end: nat, k: nat, testNum: bv32,
                                       later: seq<Status>)
    requires numPe > 1 && testNum <= 0xFFF && LastPending(slots, numPe, end, k)
    requires forall i :: 0 <= i < numPe ==> IsTestState(slots(end, i))
    requires ReadLater(slots, numPe, end, k, testNum, later) && Fooled(later)
    ensures IsPending(slots(end, k)) && EarlierPending(slots, end, k) && FinishedPassed(slots, numPe, end)
  {
    WrongPassNeedsOverwrite(slots, numPe, end, k, testNum, later);
    LaterStates(slots, numPe, end, k, testNum, later);
    FooledIff(later);
    forall i | 0 <= i < numPe && !IsPending(slots(end, i))
      ensures IsPass(slots(end, i))
    {
      assert later[i] == slots(end, i);
    }
  }

  lemma {:induction false} OnePassFools(slots: Timeline, numPe: nat, end: nat, k: nat, testNum: bv32)
    returns (later: seq<Status>)
    requires numPe > 1 && testNum <= 0xFFF && LastPending(slots, numPe, end, k)
    requires forall i :: 0 <= i < numPe ==> IsTestState(slots(end, i))
    requires IsPending(slots(end, k)) && EarlierPending(slots, end, k) && FinishedPassed(slots, numPe, end)
    ensures ReadLater(slots, numPe, end, k, testNum, later) && Fooled(later)
  {
    later := At(slots, end, numPe)[k := ResultWord(PASS_STATE, testNum, 1)];
    ResultState(PASS_STATE, testNum, 1);
    StatesExclude(later[k]);
    FooledIff(later);
    var i :| 0 <= i < k && IsPending(slots(end, i));
    assert IsPending(later[i]);
  }

  /**
    When the time ran out on PE k, a late write can fool the check if and only if k and an earlier
    PE are still pending and every PE that has finished passed.
   */
  lemma {:induction false} LateWriteFoolsIff(slots: Timeline, numPe: nat, end: nat, k: nat, testNum: bv32)
    requires numPe > 1 && testNum <= 0xFFF && LastPending(slots, numPe, end, k)
    requires forall i :: 0 <= i < numPe ==> IsTestState(slots(end, i))
    ensures (exists later :: ReadLater(slots, numPe, end, k, testNum, later) && Fooled(later)) <==>
            IsPending(slots(end, k)) && EarlierPending(slots, end, k) && FinishedPassed(slots, numPe, end)
  {
    if later :| ReadLater(slots, numPe, end, k, testNum, later) && Fooled(later) {
      FooledMeans(slots, numPe, end, k, testNum, later);
    }
    if IsPending(slots(end, k)) && EarlierPending(slots, end, k) && FinishedPassed(slots, numPe, end) {
      var later := OnePassFools(slots, numPe, end, k, testNum);
    }
  }

  /**
    So if no PE of two or more ever finishes while the caller waits, the wait, whatever its length,
    ends with a mark, and one PASS written late is then enough.
   */
  lemma {:induction false} LateWriteFoolsCheck(slots: Timeline, numPe: nat, end: nat, marked: Option<nat>,
                                               testNum: bv32)
    requires numPe > 1 && testNum <= 0xFFF
    requires forall t: nat, i: nat :: i < numPe ==> IsPending(slots(t, i))
    requires if marked == None then NonePending(At(slots, end, numPe))
             else LastPending(slots, numPe, end, marked.value)
    ensures marked == Some(numPe - 1)
    ensures exists later :: ReadLater(slots, numPe, end, numPe - 1, testNum, later) && Fooled(later)
  {
    assert IsPending(At(slots, end, numPe)[0]);
    assert IsPending(slots(end, numPe - 1)) && IsPending(slots(end, 0));
    assert EarlierPending(slots, end, numPe - 1);
    LateWriteFoolsIff(slots, numPe, end, numPe - 1, testNum);
  }
}
