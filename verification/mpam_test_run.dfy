/** An MPAM test on all PEs from launch to verdict. */
module MpamTestRun {
  import opened Options
  import opened MpamStatus
  import opened MpamLaunch
  import opened MpamVerdict

  /** How often PE i occurs among the launches. */
  function LaunchesOf(launches: seq<Launch>, i: nat): nat {
    if |launches| == 0 then 0 else
    LaunchesOf(launches[..|launches| - 1], i) + if launches[|launches| - 1].index == i then 1 else 0
  }

  /** Among the launches of the loop, each PE whose last reply was success occurs once, others never. */
  lemma {:induction false} StartedOnce(mpidrs: seq<nat>, myIndex: nat, payload: bv64, input: bv64, last: seq<bv64>,
                                       i: nat)
    requires |last| <= |mpidrs| && i < |mpidrs|
    ensures LaunchesOf(Started(mpidrs, myIndex, payload, input, last), i) ==
            if i < |last| && i != myIndex && last[i] == SUCCESS then 1 else 0
  {
    if |last| > 0 {
      var n := |last| - 1;
      StartedOnce(mpidrs, myIndex, payload, input, last[..n], i);
      var before := Started(mpidrs, myIndex, payload, input, last[..n]);
      if n != myIndex && last[n] == SUCCESS {
        assert (before + [Launch(n, mpidrs[n], payload, input)])[..|before|] == before;
      }
    }
  }

  /** Every PE but the caller's was started, each exactly once. */
  ghost predicate AllStartedOnce(launches: seq<Launch>, last: seq<bv64>, myIndex: nat) {
    forall i :: 0 <= i < |last| && i != myIndex ==> last[i] == SUCCESS && LaunchesOf(launches, i) == 1
  }

  /**
    How the PEs fill their slots while the caller waits, given the slots after the launches:
    results are written once, and a PE with a failed launch on record is not there to write.
   */
  type World = seq<Status> -> Timeline

  ghost predicate Plausible(slots: Timeline, after: seq<Status>, myIndex: nat) {
    WriteOnce(slots, |after|) &&
    (forall t: nat, i: nat :: i < |after| ==> IsTestState(slots(t, i))) &&
    forall i :: 0 <= i < |after| && i != myIndex && IsFail(after[i]) ==> slots(0, i) == after[i]
  }

  /** A PE that could not be started keeps the whole test from passing. */
  lemma {:induction false} PassMeansStarted(slots: Timeline, before: seq<Status>, mpidrs: seq<nat>, myIndex: nat,
                                            payload: bv64, input: bv64, last: seq<bv64>, t: nat)
    requires |before| == |last| == |mpidrs|
    requires Plausible(slots, MpamLaunch.Recorded(before, myIndex, last), myIndex)
    requires forall i :: 0 <= i < |last| && i != myIndex ==> last[i] == SUCCESS || IsDefinedError(last[i])
    requires AllPass(At(slots, t, |last|))
    ensures AllStartedOnce(Started(mpidrs, myIndex, payload, input, last), last, myIndex)
  {
    forall i | 0 <= i < |last| && i != myIndex
      ensures last[i] == SUCCESS && LaunchesOf(Started(mpidrs, myIndex, payload, input, last), i) == 1
    {
      assert IsPass(At(slots, t, |last|)[i]);
      if last[i] != SUCCESS {
        DefinedErrorsFail(last[i]);
        StatesExclude(slots(0, i));
      }
      StartedOnce(mpidrs, myIndex, payload, input, last, i);
    }
  }

  /**
    val_run_test_payload on several PEs, from the launch loop on, and val_check_for_error after
    it.  When the verdict is PASS every other PE was started exactly once and every PE, the
    caller's own among them, has written PASS.
   */
  method RunAndCheck(launcher: Launcher, totals: Totals, myIndex: nat, payload: bv64, input: bv64,
                     replies: nat -> Firmware, world: World, timeout: nat, testNum: bv32)
    returns (verdict: Verdict, ghost last: seq<bv64>, ghost end: nat)
    requires launcher.Valid() && launcher.launches == [] && 1 < |launcher.mpidrs| < TWO_32
    requires myIndex < |launcher.mpidrs| && 1 != timeout < TWO_32 && testNum <= 0xFFF
    requires forall i: nat, r: bv64 :: i < |launcher.mpidrs| && IsLastReply(replies(i), r) ==>
                                         r == SUCCESS || IsDefinedError(r)
    requires forall after: seq<Status> :: |after| == |launcher.mpidrs| ==> Plausible(world(after), after, myIndex)
    modifies launcher, totals`pass, totals`fail
    ensures |last| == |launcher.mpidrs|
    ensures launcher.status == MpamLaunch.Recorded(old(launcher.status), myIndex, last)
    ensures launcher.launches == Started(launcher.mpidrs, myIndex, payload, input, last)
    ensures verdict == Pass ==>
              AllPass(At(world(launcher.status), end, |last|)) && AllStartedOnce(launcher.launches, last, myIndex)
  {
    last := launcher.LaunchOthers(myIndex, payload, input, replies);
    var slots := world(launcher.status);
    ghost var before := old(launcher.status);
    assert Plausible(slots, launcher.status, myIndex);
    ghost var marked;
    verdict, end, marked := WaitAndCheck(totals, slots, |launcher.mpidrs|, timeout, testNum, myIndex);
    if verdict == Pass {
      PassMeansStarted(slots, before, launcher.mpidrs, myIndex, payload, input, last, end);
    }
  }
}
