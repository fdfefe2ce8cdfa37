/**
  What the primary PE of a contention test does, in order: on every node both scenarios, in each
  of them one call for every other PE while the flag is up, and then the buffers of the node freed.
 */
module MpamScenarios {
  import opened MpamContention

  /** What the primary has done: flag up or down, a PE dealt with, or the buffers of a node freed. */
  datatype Act = Raised(sc: Scenario) | Called(sc: Scenario, pe: nat) | Lowered(sc: Scenario) | Freed(node: nat)

  /** A call that ends with success or with a mark; after "already on" the primary may try again. */
  function ActOf(s: State, step: Step): (acts: seq<Act>) {
    match step
    case RaisesFlag => if s.pc.SetFlag? then [Raised(s.pc.sc)] else []
    case CallsCpuOn(reply) =>
      if s.pc.CpuOn? && !(reply.AlreadyOn? && reply.again) then [Called(s.pc.sc, s.pc.i)] else []
    case LowersFlag => if s.pc.ClearFlag? then [Lowered(s.pc.sc)] else []
    case Frees => if s.pc.Free? then [Freed(s.pc.node)] else []
    case _ => []
  }

  ghost function Acts(cfg: Config, s: State, steps: seq<Step>): (acts: seq<Act>)
    decreases |steps|
  {
    if |steps| == 0 || !Sized(cfg, s) || !Enabled(cfg, s, steps[0]) then []
    else ActOf(s, steps[0]) + Acts(cfg, Do(cfg, s, steps[0]), steps[1..])
  }

  /** One call for each PE below i but the primary. */
  function Calls(cfg: Config, sc: Scenario, i: nat): (acts: seq<Act>) {
    if i == 0 then [] else Calls(cfg, sc, i - 1) + if i - 1 == cfg.primary then [] else [Called(sc, i - 1)]
  }

  function ScenarioActs(cfg: Config, sc: Scenario): (acts: seq<Act>) {
    [Raised(sc)] + Calls(cfg, sc, cfg.n) + [Lowered(sc)]
  }

  /** All that is to be done on the nodes below k. */
  function NodesActs(cfg: Config, k: nat): (acts: seq<Act>) {
    if k == 0 then [] else
    NodesActs(cfg, k - 1) + ScenarioActs(cfg, Scenario(k - 1, 1)) + ScenarioActs(cfg, Scenario(k - 1, 2)) +
    [Freed(k - 1)]
  }

  /** What comes before a scenario. */
  function ActsBefore(cfg: Config, sc: Scenario): (acts: seq<Act>) {
    NodesActs(cfg, sc.node) + if sc.number == 1 then [] else ScenarioActs(cfg, Scenario(sc.node, 1))
  }

  /** What is done when the primary is at pc. */
  function Due(cfg: Config, pc: Primary): (acts: seq<Act>) {
    match pc
    case NextNode(node) => NodesActs(cfg, node)
    case SetFlag(sc) => ActsBefore(cfg, sc)
    case SetPending(sc, i) => ActsBefore(cfg, sc) + [Raised(sc)] + Calls(cfg, sc, i)
    case CpuOn(sc, i) => ActsBefore(cfg, sc) + [Raised(sc)] + Calls(cfg, sc, i)
    case ClearFlag(sc) => ActsBefore(cfg, sc) + [Raised(sc)] + Calls(cfg, sc, cfg.n)
    case Waiting(sc, _, _) => ActsBefore(cfg, sc) + ScenarioActs(cfg, sc)
    case Free(node) => ActsBefore(cfg, Scenario(node, 2)) + ScenarioActs(cfg, Scenario(node, 2))
    case _ => []
  }

  /** The primary is in one of the two scenarios, and its flag is up from SetPending to ClearFlag. */
  predicate AtWork(cfg: Config, s: State) {
    match s.pc
    case SetFlag(sc) => sc.number == 1 || sc.number == 2
    case SetPending(sc, _) => (sc.number == 1 || sc.number == 2) && s.flag
    case CpuOn(sc, i) => (sc.number == 1 || sc.number == 2) && s.flag && i != cfg.primary
    case ClearFlag(sc) => (sc.number == 1 || sc.number == 2) && s.flag
    case Waiting(sc, _, _) => (sc.number == 1 || sc.number == 2) && !s.flag
    case _ => true
  }

  predicate GaveUp(pc: Primary) {
    pc.ErrorFree? || pc.Done?
  }

  lemma {:induction false} StaysGivenUp(cfg: Config, s: State, steps: seq<Step>, t: State)
    requires IsRun(cfg, s, steps, t) && GaveUp(s.pc)
    ensures GaveUp(t.pc)
    decreases |steps|
  {
    if |steps| > 0 {
      StaysGivenUp(cfg, Do(cfg, s, steps[0]), steps[1..], t);
    }
  }

  /** Steps that change neither what is due nor what is done. */
  lemma {:induction false} QuietStep(cfg: Config, s: State, step: Step, t: State)
    requires Sized(cfg, s) && Enabled(cfg, s, step) && t == Do(cfg, s, step) && AtWork(cfg, s)
    requires !GaveUp(s.pc) && !GaveUp(t.pc)
    requires BySecondary(step) || step.Allocate? || step.ReadsSlot?
    ensures AtWork(cfg, t) && Due(cfg, t.pc) == Due(cfg, s.pc) && ActOf(s, step) == []
  {}

  lemma {:induction false} SweepStep(cfg: Config, s: State, step: Step, t: State)
    requires Sized(cfg, s) && Enabled(cfg, s, step) && t == Do(cfg, s, step) && AtWork(cfg, s)
    requires !GaveUp(s.pc) && !GaveUp(t.pc) && step.EndsSweep?
    ensures AtWork(cfg, t) && Due(cfg, t.pc) == Due(cfg, s.pc) && ActOf(s, step) == []
  {
    var sc := s.pc.sc;
    assert sc == Scenario(sc.node, sc.number);
  }

  lemma {:induction false} FlagStep(cfg: Config, s: State, step: Step, t: State)
    requires Sized(cfg, s) && Enabled(cfg, s, step) && t == Do(cfg, s, step) && AtWork(cfg, s)
    requires step.RaisesFlag? || step.LowersFlag?
    ensures AtWork(cfg, t) && Due(cfg, t.pc) == Due(cfg, s.pc) + ActOf(s, step)
  {
    var sc := s.pc.sc;
    var before := ActsBefore(cfg, sc);
    if step.RaisesFlag? {
      assert before + [Raised(sc)] + [] == before + [Raised(sc)];
    } else {
      var calls := Calls(cfg, sc, cfg.n);
      assert before + ([Raised(sc)] + calls + [Lowered(sc)]) == before + [Raised(sc)] + calls + [Lowered(sc)];
    }
  }

  /** What is due between flag up and flag down grows with the calls. */
  lemma {:induction false} DueNext(cfg: Config, sc: Scenario, i: nat)
    requires i < cfg.n
    ensures var done := ActsBefore(cfg, sc) + [Raised(sc)];
            Due(cfg, AfterLaunch(cfg, sc, i)) ==
            done + Calls(cfg, sc, i) + if i == cfg.primary then [] else [Called(sc, i)]
  {
    var done, calls := ActsBefore(cfg, sc) + [Raised(sc)], Calls(cfg, sc, i);
    var last := if i == cfg.primary then [] else [Called(sc, i)];
    assert Calls(cfg, sc, i + 1) == calls + last;
    assert done + (calls + last) == done + calls + last;
  }

  lemma {:induction false} LaunchStep(cfg: Config, s: State, step: Step, t: State)
    requires Sized(cfg, s) && Enabled(cfg, s, step) && t == Do(cfg, s, step) && AtWork(cfg, s)
    requires step.MarksPending? || step.CallsCpuOn?
    ensures AtWork(cfg, t) && Due(cfg, t.pc) == Due(cfg, s.pc) + ActOf(s, step)
  {
    var sc, i := s.pc.sc, s.pc.i;
    if i < cfg.n {
      DueNext(cfg, sc, i);
    }
  }

  lemma {:induction false} FreeStep(cfg: Config, s: State, step: Step, t: State)
    requires Sized(cfg, s) && Enabled(cfg, s, step) && t == Do(cfg, s, step) && AtWork(cfg, s)
    requires s.pc.Free? && step.Frees?
    ensures AtWork(cfg, t) && Due(cfg, t.pc) == Due(cfg, s.pc) + ActOf(s, step)
  {}

  lemma {:induction false} StepDoesDue(cfg: Config, s: State, step: Step, t: State)
    requires Sized(cfg, s) && Enabled(cfg, s, step) && t == Do(cfg, s, step) && AtWork(cfg, s)
    requires !GaveUp(s.pc) && !GaveUp(t.pc)
    ensures AtWork(cfg, t) && Due(cfg, t.pc) == Due(cfg, s.pc) + ActOf(s, step)
  {
    match step
    case RaisesFlag => FlagStep(cfg, s, step, t);
    case LowersFlag => FlagStep(cfg, s, step, t);
    case MarksPending => LaunchStep(cfg, s, step, t);
    case CallsCpuOn(_) => LaunchStep(cfg, s, step, t);
    case EndsSweep(_) => SweepStep(cfg, s, step, t);
    case Frees => FreeStep(cfg, s, step, t);
    case _ => QuietStep(cfg, s, step, t);
  }

  lemma {:induction false} RunDoesDue(cfg: Config, s: State, steps: seq<Step>, t: State)
    requires IsRun(cfg, s, steps, t) && AtWork(cfg, s) && !GaveUp(s.pc) && !GaveUp(t.pc)
    ensures AtWork(cfg, t) && Due(cfg, t.pc) == Due(cfg, s.pc) + Acts(cfg, s, steps)
    decreases |steps|
  {
    if |steps| > 0 {
      var u := Do(cfg, s, steps[0]);
      if GaveUp(u.pc) {
        StaysGivenUp(cfg, u, steps[1..], t);
      }
      StepDoesDue(cfg, s, steps[0], u);
      RunDoesDue(cfg, u, steps[1..], t);
    }
  }

  /**
    As long as no allocation failed and no wait timed out: when the test has dealt with the first k
    nodes, each of them has had both scenarios in order, each with one call for every other PE
    between flag up and flag down, and then its buffers were freed; nothing else was done.
   */
  lemma {:induction false} EveryScenarioRuns(cfg: Config, s0: State, steps: seq<Step>, s: State, k: nat)
    requires Begins(cfg, s0) && IsRun(cfg, s0, steps, s) && s.pc == NextNode(k)
    ensures Acts(cfg, s0, steps) == NodesActs(cfg, k)
  {
    RunDoesDue(cfg, s0, steps, s);
  }

  /** While another PE is called, contend_flag is up; while the primary waits, it is down. */
  lemma {:induction false} FlagFollows(cfg: Config, s0: State, steps: seq<Step>, s: State)
    requires Begins(cfg, s0) && IsRun(cfg, s0, steps, s) && !GaveUp(s.pc)
    ensures s.pc.CpuOn? ==> s.flag
    ensures s.pc.Waiting? ==> !s.flag
  {
    RunDoesDue(cfg, s0, steps, s);
  }

  // ---------------------------------------------------------------- what becomes of one call

  /** The steps in which the primary stays past PE i's call in the same scenario. */
  ghost predicate StaysLaunched(cfg: Config, s: State, steps: seq<Step>, sc: Scenario, i: nat)
    decreases |steps|
  {
    Launched(s.pc, sc, i) &&
    (|steps| > 0 && Sized(cfg, s) && Enabled(cfg, s, steps[0]) ==>
       StaysLaunched(cfg, Do(cfg, s, steps[0]), steps[1..], sc, i))
  }

  /** PE i's slot: pending and then PASS when the PE was started, FAIL when it was not. */
  predicate SlotTells(s: State, i: nat, started: bool) {
    i < |s.pes| == |s.status| &&
    if started then s.status[i] == if Busy(s.pes[i]) then Pending else Passed
    else !Busy(s.pes[i]) && s.status[i] == Failed
  }

  lemma {:induction false} StepKeepsSlot(cfg: Config, s: State, step: Step, sc: Scenario, i: nat, started: bool)
    requires Sized(cfg, s) && Enabled(cfg, s, step) && i != cfg.primary
    requires Launched(s.pc, sc, i) && Launched(Do(cfg, s, step).pc, sc, i) && SlotTells(s, i, started)
    ensures SlotTells(Do(cfg, s, step), i, started)
  {}

  lemma {:induction false} RunKeepsSlot(cfg: Config, s: State, steps: seq<Step>, t: State, sc: Scenario, i: nat,
                                        started: bool)
    requires IsRun(cfg, s, steps, t) && StaysLaunched(cfg, s, steps, sc, i) && i != cfg.primary
    requires SlotTells(s, i, started)
    ensures SlotTells(t, i, started)
    decreases |steps|
  {
    if |steps| > 0 {
      var u := Do(cfg, s, steps[0]);
      StepKeepsSlot(cfg, s, steps[0], sc, i, started);
      RunKeepsSlot(cfg, u, steps[1..], t, sc, i, started);
    }
  }

  /**
    A call that ends with success leads to PASS in the slot, once the PE has left its loop; one that
    fails leaves FAIL there, until the next scenario.
   */
  lemma {:induction false} CallOutcome(cfg: Config, s0: State, before: seq<Step>, s: State, reply: Reply,
                                       between: seq<Step>, t: State)
    requires IsInit(cfg, s0) && IsRun(cfg, s0, before, s) && !s.timedOut
    requires Sized(cfg, s) && s.pc.CpuOn? && Enabled(cfg, s, CallsCpuOn(reply)) && !(reply.AlreadyOn? && reply.again)
    requires IsRun(cfg, Do(cfg, s, CallsCpuOn(reply)), between, t)
    requires StaysLaunched(cfg, Do(cfg, s, CallsCpuOn(reply)), between, s.pc.sc, s.pc.i)
    ensures SlotTells(t, s.pc.i, reply.Success?)
  {
    ReachableInv(cfg, s0, before, s);
    assert PeInv(cfg, s, s.pc.i);
    RunKeepsSlot(cfg, Do(cfg, s, CallsCpuOn(reply)), between, t, s.pc.sc, s.pc.i, reply.Success?);
  }
}
