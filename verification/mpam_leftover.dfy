/** What it takes at the beginning of a contention test for its shared buffers to be safe. */
module MpamLeftover {
  import opened MpamContention

  /** u can be reached from s. */
  ghost predicate Leads(cfg: Config, s: State, u: State) {
    exists steps :: IsRun(cfg, s, steps, u)
  }

  /** A run followed by whatever leads on. */
  lemma {:induction false} RunLeads(cfg: Config, s: State, steps: seq<Step>, t: State, u: State)
    requires IsRun(cfg, s, steps, t) && Leads(cfg, t, u)
    ensures Leads(cfg, s, u)
    decreases |steps|
  {
    if |steps| > 0 {
      RunLeads(cfg, Do(cfg, s, steps[0]), steps[1..], t, u);
      var rest :| IsRun(cfg, Do(cfg, s, steps[0]), rest, u);
      assert ([steps[0]] + rest)[1..] == rest;
      assert IsRun(cfg, s, [steps[0]] + rest, u);
    }
  }

  lemma {:induction false} LeadsThen(cfg: Config, s: State, t: State, u: State)
    requires Leads(cfg, s, t) && Leads(cfg, t, u)
    ensures Leads(cfg, s, u)
  {
    var first :| IsRun(cfg, s, first, t);
    RunLeads(cfg, s, first, t, u);
  }

  lemma {:induction false} StepLeads(cfg: Config, s: State, step: Step)
    requires Sized(cfg, s) && Enabled(cfg, s, step)
    ensures Leads(cfg, s, Do(cfg, s, step))
  {
    assert [step][1..] == [];
    assert IsRun(cfg, s, [step], Do(cfg, s, step));
  }

  /** The launch loop before PE i. */
  function LaunchAt(cfg: Config, sc: Scenario, i: nat): Primary {
    if i < cfg.n then SetPending(sc, i) else ClearFlag(sc)
  }

  /** Slots a to b - 1, the primary's excepted, are marked as failed. */
  function FailedFrom(cfg: Config, status: seq<Result>, a: nat, b: nat): (after: seq<Result>)
    requires a <= b <= |status|
    ensures |after| == |status|
    ensures forall k :: 0 <= k < |status| ==>
                          after[k] == if a <= k < b && k != cfg.primary then Failed else status[k]
  {
    if a == b then status else
    var before := FailedFrom(cfg, status, a, b - 1);
    if b - 1 == cfg.primary then before else before[b - 1 := Failed]
  }

  lemma {:induction false} TwoStepsLead(cfg: Config, s: State, one: Step, two: Step)
    requires Sized(cfg, s) && Enabled(cfg, s, one)
    requires Sized(cfg, Do(cfg, s, one)) && Enabled(cfg, Do(cfg, s, one), two)
    ensures Leads(cfg, s, Do(cfg, Do(cfg, s, one), two))
  {
    StepLeads(cfg, s, one);
    StepLeads(cfg, Do(cfg, s, one), two);
    LeadsThen(cfg, s, Do(cfg, s, one), Do(cfg, Do(cfg, s, one), two));
  }

  lemma {:induction false} RefusedLaunch(cfg: Config, s: State, sc: Scenario, i: nat)
    requires Sized(cfg, s) && i < cfg.n && s.pc == SetPending(sc, i)
    ensures Leads(cfg, s, s.(pc := LaunchAt(cfg, sc, i + 1),
                  status := if i == cfg.primary then s.status else s.status[i := Failed]))
  {
    if i == cfg.primary {
      StepLeads(cfg, s, MarksPending);
    } else {
      TwoStepsLead(cfg, s, MarksPending, CallsCpuOn(OtherError));
      assert s.status[i := Pending][i := Failed] == s.status[i := Failed];
    }
  }

  /** The firmware may refuse every launch; nothing but the slots changes then. */
  lemma {:induction false} RefusedLaunches(cfg: Config, s: State, sc: Scenario, a: nat, b: nat)
    requires Sized(cfg, s) && a <= b <= cfg.n && s.pc == LaunchAt(cfg, sc, a)
    ensures Leads(cfg, s, s.(pc := LaunchAt(cfg, sc, b), status := FailedFrom(cfg, s.status, a, b)))
  {
    if a == b {
      assert IsRun(cfg, s, [], s);
    } else {
      var t := s.(pc := LaunchAt(cfg, sc, b - 1), status := FailedFrom(cfg, s.status, a, b - 1));
      RefusedLaunches(cfg, s, sc, a, b - 1);
      RefusedLaunch(cfg, t, sc, b - 1);
      LeadsThen(cfg, s, t, s.(pc := LaunchAt(cfg, sc, b), status := FailedFrom(cfg, s.status, a, b)));
    }
  }

  predicate NonePending(cfg: Config, s: State) {
    forall k :: 0 <= k < |s.status| && k != cfg.primary ==> s.status[k] != Pending
  }

  /** A sweep over slots of which none is pending. */
  lemma {:induction false} CleanSweep(cfg: Config, s: State, sc: Scenario, i: nat)
    requires Sized(cfg, s) && s.pc == Waiting(sc, i, false) && NonePending(cfg, s)
    ensures Leads(cfg, s, s.(pc := Waiting(sc, cfg.n, false)))
    decreases cfg.n - i
  {
    if i == cfg.n {
      assert IsRun(cfg, s, [], s);
    } else {
      StepLeads(cfg, s, ReadsSlot);
      var t := Do(cfg, s, ReadsSlot);
      assert t == s.(pc := Waiting(sc, i + 1, false));
      CleanSweep(cfg, t, sc, i + 1);
      LeadsThen(cfg, s, t, s.(pc := Waiting(sc, cfg.n, false)));
    }
  }

  /** From the end of the launches to the end of the wait, when no slot is pending. */
  lemma {:induction false} WaitEnds(cfg: Config, s: State, sc: Scenario)
    requires Sized(cfg, s) && s.pc == ClearFlag(sc) && NonePending(cfg, s)
    ensures var next := if sc.number == 1 then SetFlag(Scenario(sc.node, 2)) else Free(sc.node);
            Leads(cfg, s, s.(pc := next, flag := false))
  {
    StepLeads(cfg, s, LowersFlag);
    var t := Do(cfg, s, LowersFlag);
    CleanSweep(cfg, t, sc, 0);
    var u := t.(pc := Waiting(sc, cfg.n, false));
    LeadsThen(cfg, s, t, u);
    StepLeads(cfg, u, EndsSweep(false));
    LeadsThen(cfg, s, u, Do(cfg, u, EndsSweep(false)));
  }

  /** The second scenario with every launch refused, up to the point where the buffers are gone. */
  lemma {:induction false} SecondScenario(cfg: Config, s: State, node: nat) returns (t: State)
    requires Sized(cfg, s) && s.pc == SetFlag(Scenario(node, 2))
    ensures Leads(cfg, s, t) && t.pes == s.pes && t.live == s.live - {node} && t.timedOut == s.timedOut
  {
    var sc := Scenario(node, 2);
    StepLeads(cfg, s, RaisesFlag);
    var a := Do(cfg, s, RaisesFlag);
    RefusedLaunches(cfg, a, sc, 0, cfg.n);
    var b := a.(pc := ClearFlag(sc), status := FailedFrom(cfg, a.status, 0, cfg.n));
    LeadsThen(cfg, s, a, b);
    WaitEnds(cfg, b, sc);
    var c := b.(pc := Free(node), flag := false);
    LeadsThen(cfg, s, b, c);
    StepLeads(cfg, c, Frees);
    t := Do(cfg, c, Frees);
    LeadsThen(cfg, s, c, t);
  }

  /** PE j's payload of an earlier test ends after its slot was set to PENDING. */
  lemma {:induction false} EndsOver(cfg: Config, s: State, sc: Scenario, j: nat)
    requires Sized(cfg, s) && IsPe(cfg, j) && s.pc == SetPending(sc, j) && s.pes[j].Leaving?
    ensures Leads(cfg, s, s.(pc := CpuOn(sc, j), status := s.status[j := Passed], pes := s.pes[j := Off]))
  {
    StepLeads(cfg, s, MarksPending);
    var a := Do(cfg, s, MarksPending);
    TwoStepsLead(cfg, a, StoresPass(j), TurnsOff(j));
    assert s.status[j := Pending][j := Passed] == s.status[j := Passed];
    assert s.pes[j := TurningOff][j := Off] == s.pes[j := Off];
    LeadsThen(cfg, s, a, s.(pc := CpuOn(sc, j), status := s.status[j := Passed], pes := s.pes[j := Off]));
  }

  /** A PE that is off is launched and starts to copy. */
  lemma {:induction false} LaunchedCopies(cfg: Config, s: State, sc: Scenario, j: nat)
    requires Sized(cfg, s) && IsPe(cfg, j) && s.pc == CpuOn(sc, j) && s.pes[j].Off?
    requires s.flag && sc.number != 0 && s.shared == sc.node
    ensures Leads(cfg, s, s.(pc := LaunchAt(cfg, sc, j + 1), pes := s.pes[j := Copying(sc, sc.node)]))
  {
    StepLeads(cfg, s, CallsCpuOn(Success));
    var a := Do(cfg, s, CallsCpuOn(Success));
    TwoStepsLead(cfg, a, LoadsPointer(j), ReadsFlag(j));
    var t := s.(pc := LaunchAt(cfg, sc, j + 1), pes := s.pes[j := Copying(sc, sc.node)]);
    assert Do(cfg, Do(cfg, a, LoadsPointer(j)), ReadsFlag(j)) == t;
    LeadsThen(cfg, s, a, t);
  }

  /** So PE j is launched with its slot written already. */
  lemma {:induction false} LaunchedDone(cfg: Config, s: State, sc: Scenario, j: nat) returns (t: State)
    requires Sized(cfg, s) && IsPe(cfg, j) && s.pc == SetPending(sc, j) && s.pes[j].Leaving?
    requires s.flag && sc.number != 0 && s.shared == sc.node
    ensures Leads(cfg, s, t)
    ensures t == s.(pc := LaunchAt(cfg, sc, j + 1), status := s.status[j := Passed],
                 pes := s.pes[j := Copying(sc, sc.node)])
  {
    EndsOver(cfg, s, sc, j);
    var a := s.(pc := CpuOn(sc, j), status := s.status[j := Passed], pes := s.pes[j := Off]);
    LaunchedCopies(cfg, a, sc, j);
    t := a.(pc := LaunchAt(cfg, sc, j + 1), pes := a.pes[j := Copying(sc, sc.node)]);
    LeadsThen(cfg, s, a, t);
    assert s.pes[j := Off][j := Copying(sc, sc.node)] == s.pes[j := Copying(sc, sc.node)];
  }

  /** A PE that is about to store an earlier test's result makes the whole wait end too soon. */
  lemma {:induction false} LeavingIsUnsafe(cfg: Config, s: State, j: nat) returns (t: State)
    requires Begins(cfg, s) && cfg.nodes > 0 && IsPe(cfg, j) && s.pes[j].Leaving?
    ensures Leads(cfg, s, t) && !t.timedOut && TouchesFreed(t, j)
  {
    var sc := Scenario(0, 1);
    StepLeads(cfg, s, Allocate(true));
    var a := Do(cfg, s, Allocate(true));
    StepLeads(cfg, a, RaisesFlag);
    var b := Do(cfg, a, RaisesFlag);
    LeadsThen(cfg, s, a, b);
    RefusedLaunches(cfg, b, sc, 0, j);
    var c := b.(pc := LaunchAt(cfg, sc, j), status := FailedFrom(cfg, b.status, 0, j));
    LeadsThen(cfg, s, b, c);
    var d := LaunchedDone(cfg, c, sc, j);
    LeadsThen(cfg, s, c, d);
    var e := FirstWaitEnds(cfg, d, sc, j);
    LeadsThen(cfg, s, d, e);
    t := SecondScenario(cfg, e, 0);
    LeadsThen(cfg, s, e, t);
  }

  /** The launches after PE j's are refused, and the wait finds nothing pending. */
  lemma {:induction false} FirstWaitEnds(cfg: Config, s: State, sc: Scenario, j: nat) returns (t: State)
    requires Sized(cfg, s) && sc.number == 1 && j < cfg.n && s.pc == LaunchAt(cfg, sc, j + 1)
    requires forall k :: 0 <= k <= j && k != cfg.primary ==> s.status[k] != Pending
    ensures Leads(cfg, s, t) && Sized(cfg, t) && t.pc == SetFlag(Scenario(sc.node, 2))
    ensures t.pes == s.pes && t.live == s.live && t.timedOut == s.timedOut
  {
    RefusedLaunches(cfg, s, sc, j + 1, cfg.n);
    var a := s.(pc := ClearFlag(sc), status := FailedFrom(cfg, s.status, j + 1, cfg.n));
    WaitEnds(cfg, a, sc);
    t := a.(pc := SetFlag(Scenario(sc.node, 2)), flag := false);
    LeadsThen(cfg, s, a, t);
  }

  /** As long as no wait times out, no PE touches a buffer that is not allocated. */
  ghost predicate Safe(cfg: Config, s: State) {
    forall t, j :: Leads(cfg, s, t) && !t.timedOut ==> !TouchesFreed(t, j)
  }

  /**
    Reclamation is safe if and only if no PE is in the payload of an earlier test when the test
    begins.  One that is still turning itself off does no harm.
   */
  lemma {:induction false} SafeIffNobodyBusy(cfg: Config, s: State)
    requires Begins(cfg, s) && cfg.nodes > 0
    ensures Safe(cfg, s) <==> forall j :: 0 <= j < cfg.n ==> !Busy(s.pes[j])
  {
    if forall j :: 0 <= j < cfg.n ==> !Busy(s.pes[j]) {
      forall t, j | Leads(cfg, s, t) && !t.timedOut
        ensures !TouchesFreed(t, j)
      {
        var steps :| IsRun(cfg, s, steps, t);
        NoTouchAfterFree(cfg, s, steps, t);
      }
    } else {
      var j :| 0 <= j < cfg.n && Busy(s.pes[j]);
      if s.pes[j].Starting? || s.pes[j].Copying? {
        assert IsRun(cfg, s, [], s);
        assert TouchesFreed(s, j);
      } else {
        var u := s;
        if s.pes[j].Testing? {
          StepLeads(cfg, s, ReadsFlag(j));
          u := Do(cfg, s, ReadsFlag(j));
        } else {
          assert IsRun(cfg, s, [], s);
        }
        var t := LeavingIsUnsafe(cfg, u, j);
        LeadsThen(cfg, s, u, t);
      }
    }
  }
}
