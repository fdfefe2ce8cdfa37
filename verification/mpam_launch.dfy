/**
  Starting a test payload on another PE through PSCI CPU_ON.
 */
module MpamLaunch {
  import opened MpamStatus

  const TIMEOUT_LARGE: nat := 0x100_0000
  const SUCCESS: bv64 := 0
  const ALREADY_ON: bv64 := 0xFFFF_FFFF_FFFF_FFFC    // -4 as the 64-bit register holds it

  /** (int) Arg0: the low half of the reply register. */
  function Low32(reply: bv64): bv32 {
    (reply & 0xFFFF_FFFF) as bv32
  }

  /** The word stored for a PE that could not be started: RESULT_FAIL(0, 0x120 - (int)Arg0). */
  function LaunchFailure(reply: bv64): Status {
    ResultWord(FAIL_STATE, 0, 0x120 - Low32(reply))
  }

  /** The error replies PSCI defines: -1 to -9. */
  predicate IsDefinedError(reply: bv64) {
    reply >= 0xFFFF_FFFF_FFFF_FFF7
  }

  /** A stored failure reads as FAIL exactly when the detail leaves the state bits alone. */
  lemma {:induction false} FailureStateIff(detail: bv32)
    ensures IsFail(ResultWord(FAIL_STATE, 0, detail)) <==> detail & 0x7000_0000 == 0
  {}

  lemma {:induction false} DefinedErrorDetail(reply: bv64)
    requires IsDefinedError(reply)
    ensures reply & 0xFFFF_FFFF >= 0xFFFF_FFF7
  {}

  lemma {:induction false} SmallDetail(low: bv32)
    requires low >= 0xFFFF_FFF7
    ensures (0x120 - low) & 0x7000_0000 == 0
  {}

  lemma {:induction false} ErrorNumber(reply: bv64)
    requires IsDefinedError(reply)
    ensures 0 - reply <= 9 && 0x120 - Low32(reply) == 0x120 + ((0 - reply) & 0xF) as bv32
  {
    assert (reply & 0xFFFF_FFFF) as bv32 == 0 - ((0 - reply) & 0xF) as bv32;
  }

  /** Every error that PSCI defines, -e, is recorded as a FAIL with the detail 0x120 + e. */
  lemma {:induction false} DefinedErrorsFail(reply: bv64)
    requires IsDefinedError(reply)
    ensures IsFail(LaunchFailure(reply))
    ensures 1 <= 0 - reply <= 9 && LaunchFailure(reply) & 0x0FFF_FFFF == 0x120 + ((0 - reply) & 0xF) as bv32
  {
    DefinedErrorDetail(reply);
    assert Low32(reply) >= 0xFFFF_FFF7;
    SmallDetail(Low32(reply));
    FailureStateIff(0x120 - Low32(reply));
    ErrorNumber(reply);
  }

  /** A reply outside the definition can leave a word that is in none of the test states. */
  lemma {:induction false} UndefinedReplyCorruptsState()
    ensures !IsTestState(LaunchFailure(0xC000_0120))
  {
    assert Low32(0xC000_0120) == 0xC000_0120;
  }

  /** A PE that firmware started, with what it finds in its shared words when it looks. */
  datatype Launch = Launch(index: nat, mpidr: nat, payload: bv64, input: bv64)

  /** The replies of one call, in the order of the attempts. */
  type Firmware = nat -> bv64

  /** The call makes this many attempts: it repeats while the PE is still on, up to the limit. */
  ghost predicate Attempts(firmware: Firmware, attempts: nat) {
    1 <= attempts <= TIMEOUT_LARGE + 1 &&
    (forall k :: 0 <= k < attempts - 1 ==> firmware(k) == ALREADY_ON) &&
    (firmware(attempts - 1) != ALREADY_ON || attempts == TIMEOUT_LARGE + 1)
  }

  /** The reply that ends the repetition. */
  ghost predicate IsLastReply(firmware: Firmware, reply: bv64) {
    exists n: nat :: Attempts(firmware, n) && reply == firmware(n - 1)
  }

  /** Started exactly the given PE, or started nothing and marked its slot with the last reply. */
  ghost predicate LaunchedOrFailed(before: seq<Launch>, after: seq<Launch>, status: seq<Status>,
                                   status': seq<Status>, launch: Launch, last: bv64)
    requires launch.index < |status|
  {
    if last == SUCCESS then after == before + [launch] && status' == status
    else after == before && status' == status[launch.index := LaunchFailure(last)]
  }

  /** The PE table, the shared words of each PE, and the PEs started so far. */
  class Launcher {
    const mpidrs: seq<nat>
    var data0: seq<bv64>
    var data1: seq<bv64>
    var status: seq<Status>
    var launches: seq<Launch>

    ghost predicate Valid()
      reads this
    {
      |data0| == |data1| == |status| == |mpidrs|
    }

    constructor (mpidrs: seq<nat>, status: seq<Status>)
      requires |status| == |mpidrs|
      ensures Valid() && this.mpidrs == mpidrs && this.status == status && launches == []
    {
      this.mpidrs, this.status, launches := mpidrs, status, [];
      data0 := seq(|mpidrs|, _ => 0);
      data1 := seq(|mpidrs|, _ => 0);
    }

    /** One CPU_ON call: firmware starts the PE exactly when it replies SUCCESS. */
    method CpuOn(index: nat, reply: bv64)
      requires Valid() && index < |mpidrs|
      modifies this`launches
      ensures launches == if reply == SUCCESS
                          then old(launches) + [Launch(index, mpidrs[index], data0[index], data1[index])]
                          else old(launches)
    {
      if reply == SUCCESS {
        launches := launches + [Launch(index, mpidrs[index], data0[index], data1[index])];
      }
    }

    /**
      val_execute_on_pe.  The index check only refuses what is past num_of_pe; the entry at
      num_of_pe itself is memory beyond the table and not modelled.
     */
    method ExecuteOnPe(index: nat, payload: bv64, input: bv64, firmware: Firmware)
      returns (ghost attempts: nat)
      requires Valid() && index != |mpidrs|
      modifies this
      ensures Valid()
      ensures index > |mpidrs| ==> unchanged(this)
      ensures index < |mpidrs| ==>
                Attempts(firmware, attempts) &&
                LaunchedOrFailed(old(launches), launches, old(status), status,
                                 Launch(index, mpidrs[index], payload, input), firmware(attempts - 1))
      ensures index < |mpidrs| ==>
                data0 == old(data0)[index := payload] && data1 == old(data1)[index := input]
    {
      attempts := 0;
      if index > |mpidrs| {
        return;
      }
      var timeout: int := TIMEOUT_LARGE;
      var arg0: bv64 := ALREADY_ON;
      var tries := 0;
      var again := true;
      while again
        invariant Valid() && -1 <= timeout <= TIMEOUT_LARGE
        invariant again ==> tries + timeout == TIMEOUT_LARGE && 0 <= timeout
        invariant !again ==> Attempts(firmware, tries) && arg0 == firmware(tries - 1)
        invariant forall k :: 0 <= k < tries - 1 ==> firmware(k) == ALREADY_ON
        invariant again && tries > 0 ==> firmware(tries - 1) == ALREADY_ON
        invariant status == old(status)
        invariant tries == 0 ==> data0 == old(data0) && data1 == old(data1)
        invariant tries > 0 ==>
                    data0 == old(data0)[index := payload] && data1 == old(data1)[index := input]
        invariant launches == if !again && arg0 == SUCCESS
                              then old(launches) + [Launch(index, mpidrs[index], payload, input)]
                              else old(launches)
        decreases again, timeout
      {
        data0, data1 := data0[index := payload], data1[index := input];
        arg0 := firmware(tries);
        CpuOn(index, arg0);
        tries := tries + 1;
        again := false;
        if arg0 == ALREADY_ON {
          again := timeout != 0;
          timeout := timeout - 1;
        }
      }
      attempts := tries;
      if arg0 != ALREADY_ON && arg0 == SUCCESS {
        return;
      }
      status := status[index := LaunchFailure(arg0)];
    }

    /** The body of the loop below, for PE i. */
    method LaunchNext(i: nat, myIndex: nat, payload: bv64, input: bv64, replies: nat -> Firmware,
                      ghost last: seq<bv64>, ghost launched: seq<Launch>, ghost before: seq<Status>)
      returns (ghost more: seq<bv64>)
      requires Valid() && |last| == i < |mpidrs| == |before|
      requires launches == launched + Started(mpidrs, myIndex, payload, input, last)
      requires status == Recorded(before, myIndex, last)
      modifies this
      ensures Valid() && |more| == i + 1 && more[..i] == last
      ensures i != myIndex ==> IsLastReply(replies(i), more[i])
      ensures launches == launched + Started(mpidrs, myIndex, payload, input, more)
      ensures status == Recorded(before, myIndex, more)
    {
      ghost var reply := SUCCESS;
      if i != myIndex {
        var attempts := ExecuteOnPe(i, payload, input, replies(i));
        reply := replies(i)(attempts - 1);
        assert IsLastReply(replies(i), reply);
      }
      StartedNext(mpidrs, myIndex, payload, input, last, reply);
      RecordedNext(before, myIndex, last, reply);
      more := last + [reply];
    }

    /**
      The launch loop of val_run_test_payload: every PE but the caller's own, in table order.
      replies(i) are the firmware's answers for PE i.
     */
    method LaunchOthers(myIndex: nat, payload: bv64, input: bv64, replies: nat -> Firmware)
      returns (ghost last: seq<bv64>)
      requires Valid()
      modifies this
      ensures Valid() && |last| == |mpidrs|
      ensures forall i :: 0 <= i < |mpidrs| && i != myIndex ==> IsLastReply(replies(i), last[i])
      ensures launches == old(launches) + Started(mpidrs, myIndex, payload, input, last)
      ensures status == Recorded(old(status), myIndex, last)
    {
      last := [];
      var i := 0;
      while i < |mpidrs|
        invariant 0 <= i <= |mpidrs| && Valid() && |last| == i
        invariant forall k :: 0 <= k < i && k != myIndex ==> IsLastReply(replies(k), last[k])
        invariant launches == old(launches) + Started(mpidrs, myIndex, payload, input, last)
        invariant status == Recorded(old(status), myIndex, last)
      {
        last := LaunchNext(i, myIndex, payload, input, replies, last, old(launches), old(status));
        i := i + 1;
      }
    }
  }

  /** The launches of the PEs whose last reply was SUCCESS, in table order. */
  function Started(mpidrs: seq<nat>, myIndex: nat, payload: bv64, input: bv64,
                   last: seq<bv64>): seq<Launch>
    requires |last| <= |mpidrs|
  {
    if |last| == 0 then [] else
    var i := |last| - 1;
    var earlier := Started(mpidrs, myIndex, payload, input, last[..i]);
    if i != myIndex && last[i] == SUCCESS then earlier + [Launch(i, mpidrs[i], payload, input)]
    else earlier
  }

  /** The slots after the launch loop: a failure where a PE could not be started, else as before. */
  function Recorded(status: seq<Status>, myIndex: nat, last: seq<bv64>): (status': seq<Status>)
    requires |last| <= |status|
    ensures |status'| == |status|
    ensures forall i :: 0 <= i < |status| ==>
                          status'[i] == if i < |last| && i != myIndex && last[i] != SUCCESS
                          then LaunchFailure(last[i]) else status[i]
  {
    if |last| == 0 then status else
    var i := |last| - 1;
    var earlier := Recorded(status, myIndex, last[..i]);
    if i != myIndex && last[i] != SUCCESS then earlier[i := LaunchFailure(last[i])] else earlier
  }

  lemma {:induction false} StartedNext(mpidrs: seq<nat>, myIndex: nat, payload: bv64, input: bv64, last: seq<bv64>,
                                       reply: bv64)
    requires |last| < |mpidrs|
    ensures var i := |last|;
            Started(mpidrs, myIndex, payload, input, last + [reply]) ==
            Started(mpidrs, myIndex, payload, input, last) +
            if i != myIndex && reply == SUCCESS then [Launch(i, mpidrs[i], payload, input)] else []
  {
    assert (last + [reply])[..|last|] == last;
  }

  lemma {:induction false} RecordedNext(status: seq<Status>, myIndex: nat, last: seq<bv64>, reply: bv64)
    requires |last| < |status|
    ensures var i, earlier := |last|, Recorded(status, myIndex, last);
            Recorded(status, myIndex, last + [reply]) ==
            if i != myIndex && reply != SUCCESS then earlier[i := LaunchFailure(reply)] else earlier
  {
    assert (last + [reply])[..|last|] == last;
  }
}
