/**
  The bandwidth-contention handshake of the MBWMIN and MBWMAX tests: while the primary PE
  measures, the other PEs copy in a loop on shared buffers until a flag is cleared; then the
  primary waits for their slots and, after two such scenarios, frees the buffers.

  The two tests differ only in the registers they write, which the handshake does not touch.
  Each step is one access to shared memory or one firmware call by one PE.
 */
module MpamContention {

  datatype Result = Passed | Pending | Failed

  /**
    One of the two scenarios on one memory node; buffers are known by the node they come from.
    Number 0 stands for a scenario of an earlier test.
   */
  datatype Scenario = Scenario(node: nat, number: nat)

  /** val_test_entry and payload_secondary on one PE; cause is the scenario it was started for. */
  datatype Secondary =
    | Off
    | Starting(cause: Scenario)                // on, about to load its buffer pointer
    | Testing(cause: Scenario, buffer: nat)    // about to read contend_flag
    | Copying(cause: Scenario, buffer: nat)    // inside the copy
    | Leaving(cause: Scenario)                 // out of the loop, about to store PASS
    | TurningOff                               // slot written, CPU_OFF not yet done

  /** payload_primary; i runs over the PE indices. */
  datatype Primary =
    | NextNode(node: nat)
    | SetFlag(sc: Scenario)
    | SetPending(sc: Scenario, i: nat)
    | CpuOn(sc: Scenario, i: nat)
    | ClearFlag(sc: Scenario)
    | Waiting(sc: Scenario, i: nat, pending: bool)
    | Free(node: nat)
    | ErrorFree(node: nat)    // the exit taken when the wait timed out
    | Done

  /** n PEs, the primary among them, and the number of nodes that support the control. */
  datatype Config = Config(n: nat, primary: nat, nodes: nat) {
    predicate Valid() {
      primary < n
    }
  }

  datatype State = State(
    pc: Primary,
    pes: seq<Secondary>,
    status: seq<Result>,
    flag: bool,
    live: set<nat>,       // nodes whose buffers are allocated
    shared: nat,          // node of the buffers that gSharedMemCpyBuf points to
    timedOut: bool
  )

  datatype Reply = Success | AlreadyOn(again: bool) | OtherError

  datatype Step =
    | Allocate(ok: bool)
    | RaisesFlag
    | MarksPending
    | CallsCpuOn(reply: Reply)
    | LowersFlag
    | ReadsSlot
    | EndsSweep(timeout: bool)
    | Frees
    | LoadsPointer(j: nat)
    | ReadsFlag(j: nat)
    | CopyEnds(j: nat)
    | StoresPass(j: nat)
    | TurnsOff(j: nat)

  predicate Sized(cfg: Config, s: State) {
    cfg.Valid() && |s.pes| == |s.status| == cfg.n &&
    (s.pc.SetPending? ==> s.pc.i <= cfg.n) && (s.pc.CpuOn? ==> s.pc.i < cfg.n) &&
    (s.pc.Waiting? ==> s.pc.i <= cfg.n)
  }

  /**
    The test begins: nothing is allocated and the primary runs.  PEs that an earlier test has
    started may still be on; the slots may hold anything.
   */
  predicate Begins(cfg: Config, s: State) {
    Sized(cfg, s) && s.pc == NextNode(0) && s.live == {} && !s.timedOut && s.pes[cfg.primary].Off? &&
    forall j :: 0 <= j < cfg.n && Busy(s.pes[j]) ==> s.pes[j].cause.number == 0
  }

  /** And no PE is in the payload of an earlier test, though some may not be off yet. */
  predicate IsInit(cfg: Config, s: State) {
    Begins(cfg, s) && forall j :: 0 <= j < cfg.n ==> !Busy(s.pes[j])
  }

  predicate IsPe(cfg: Config, j: nat) {
    j < cfg.n && j != cfg.primary
  }

  predicate Enabled(cfg: Config, s: State, step: Step)
    requires Sized(cfg, s)
  {
    match step
    case Allocate(_) => s.pc.NextNode? && s.pc.node < cfg.nodes
    case RaisesFlag => s.pc.SetFlag?
    case MarksPending => s.pc.SetPending?
    case CallsCpuOn(reply) =>
      s.pc.CpuOn? &&
      (match reply
       case Success => s.pes[s.pc.i].Off?
       case AlreadyOn(_) => !s.pes[s.pc.i].Off?
       case OtherError => true)
    case LowersFlag => s.pc.ClearFlag?
    case ReadsSlot => s.pc.Waiting? && s.pc.i < cfg.n
    case EndsSweep(timeout) => s.pc.Waiting? && s.pc.i == cfg.n
    case Frees => s.pc.Free? || s.pc.ErrorFree?
    case LoadsPointer(j) => IsPe(cfg, j) && s.pes[j].Starting?
    case ReadsFlag(j) => IsPe(cfg, j) && s.pes[j].Testing?
    case CopyEnds(j) => IsPe(cfg, j) && s.pes[j].Copying?
    case StoresPass(j) => IsPe(cfg, j) && s.pes[j].Leaving?
    case TurnsOff(j) => IsPe(cfg, j) && s.pes[j].TurningOff?
  }

  /** The launch loop after PE i has been dealt with. */
  function AfterLaunch(cfg: Config, sc: Scenario, i: nat): Primary {
    if i + 1 < cfg.n then SetPending(sc, i + 1) else ClearFlag(sc)
  }

  function Goto(s: State, j: nat, pe: Secondary): State
    requires j < |s.pes|
  {
    s.(pes := s.pes[j := pe])
  }

  /** contend_flag as a PE reads it: each test has its own, and an earlier test's is down. */
  predicate FlagUp(s: State, cause: Scenario) {
    cause.number != 0 && s.flag
  }

  function Do(cfg: Config, s: State, step: Step): State
    requires Sized(cfg, s) && Enabled(cfg, s, step)
  {
    match step
    case Allocate(ok) =>
      if ok then s.(pc := SetFlag(Scenario(s.pc.node, 1)), live := s.live + {s.pc.node},
                 shared := s.pc.node)
      else s.(pc := Done)
    case RaisesFlag => s.(pc := SetPending(s.pc.sc, 0), flag := true)
    case MarksPending =>
      if s.pc.i == cfg.n then s.(pc := ClearFlag(s.pc.sc))
      else if s.pc.i == cfg.primary then s.(pc := AfterLaunch(cfg, s.pc.sc, s.pc.i))
      else s.(pc := CpuOn(s.pc.sc, s.pc.i), status := s.status[s.pc.i := Pending])
    case CallsCpuOn(reply) =>
      var sc, i := s.pc.sc, s.pc.i;
      (match reply
       case Success => Goto(s, i, Starting(sc)).(pc := AfterLaunch(cfg, sc, i))
       case AlreadyOn(again) =>
         if again then s else s.(status := s.status[i := Failed], pc := AfterLaunch(cfg, sc, i))
       case OtherError => s.(status := s.status[i := Failed], pc := AfterLaunch(cfg, sc, i)))
    case LowersFlag => s.(pc := Waiting(s.pc.sc, 0, false), flag := false)
    case ReadsSlot =>
      var i := s.pc.i;
      s.(pc := Waiting(s.pc.sc, i + 1,
                       s.pc.pending || (i != cfg.primary && s.status[i] == Pending)))
    case EndsSweep(timeout) =>
      var sc := s.pc.sc;
      if timeout then s.(pc := ErrorFree(sc.node), timedOut := true)
      else if s.pc.pending then s.(pc := Waiting(sc, 0, false))
      else if sc.number == 1 then s.(pc := SetFlag(Scenario(sc.node, 2)))
      else s.(pc := Free(sc.node))
    case Frees =>
      s.(live := s.live - {s.pc.node}, pc := if s.pc.Free? then NextNode(s.pc.node + 1) else Done)
    case LoadsPointer(j) => Goto(s, j, Testing(s.pes[j].cause, s.shared))
    case ReadsFlag(j) =>
      var pe := s.pes[j];
      Goto(s, j, if FlagUp(s, pe.cause) then Copying(pe.cause, pe.buffer) else Leaving(pe.cause))
    case CopyEnds(j) => Goto(s, j, Testing(s.pes[j].cause, s.pes[j].buffer))
    case StoresPass(j) => Goto(s, j, TurningOff).(status := s.status[j := Passed])
    case TurnsOff(j) => Goto(s, j, Off)
  }

  /** PE j is using, or about to load, a buffer that is not allocated. */
  predicate TouchesFreed(s: State, j: nat) {
    j < |s.pes| &&
    ((s.pes[j].Starting? && s.shared !in s.live) ||
     (s.pes[j].Copying? && s.pes[j].buffer !in s.live))
  }

  // ---------------------------------------------------------------- what every step keeps

  /** The PE has been started and has not written its result. */
  predicate Busy(pe: Secondary) {
    pe.Starting? || pe.Testing? || pe.Copying? || pe.Leaving?
  }

  /** The primary is past the launch of PE j in scenario sc and not past the wait. */
  predicate Launched(pc: Primary, sc: Scenario, j: nat) {
    match pc
    case SetPending(c, i) => c == sc && j < i
    case CpuOn(c, i) => c == sc && j < i
    case ClearFlag(c) => c == sc
    case Waiting(c, _, _) => c == sc
    case _ => false
  }

  ghost predicate BuffersInv(s: State) {
    match s.pc
    case NextNode(node) => s.live == {}
    case SetFlag(sc) => s.live == {sc.node} && s.shared == sc.node
    case SetPending(sc, _) => s.live == {sc.node} && s.shared == sc.node
    case CpuOn(sc, _) => s.live == {sc.node} && s.shared == sc.node
    case ClearFlag(sc) => s.live == {sc.node} && s.shared == sc.node
    case Waiting(sc, _, _) => s.live == {sc.node} && s.shared == sc.node && !s.flag
    case Free(node) => s.live == {node} && s.shared == node
    case ErrorFree(_) => false
    case Done => s.live == {}
  }

  ghost predicate PeInv(cfg: Config, s: State, j: nat)
    requires Sized(cfg, s) && j < cfg.n
  {
    (j == cfg.primary ==> s.pes[j].Off?) &&
    (Busy(s.pes[j]) ==>
       s.status[j] == Pending && Launched(s.pc, s.pes[j].cause, j) &&
       (s.pes[j].Testing? || s.pes[j].Copying? ==> s.pes[j].buffer == s.pes[j].cause.node)) &&
    (IsPe(cfg, j) && s.pc.Waiting? && !s.pc.pending && j < s.pc.i ==> s.status[j] != Pending)
  }

  /** Holds as long as no wait has timed out. */
  ghost predicate Inv(cfg: Config, s: State) {
    Sized(cfg, s) && !s.timedOut && BuffersInv(s) &&
    (s.pc.CpuOn? ==> IsPe(cfg, s.pc.i) && s.status[s.pc.i] == Pending) &&
    forall j :: 0 <= j < cfg.n ==> PeInv(cfg, s, j)
  }

  predicate IsTimeout(step: Step) {
    step.EndsSweep? && step.timeout
  }

  predicate BySecondary(step: Step) {
    step.LoadsPointer? || step.ReadsFlag? || step.CopyEnds? || step.StoresPass? || step.TurnsOff?
  }

  lemma {:induction false} SecondaryStepKeepsInv(cfg: Config, s: State, step: Step)
    requires Inv(cfg, s) && Enabled(cfg, s, step) && BySecondary(step)
    ensures Inv(cfg, Do(cfg, s, step))
  {
    assert PeInv(cfg, s, step.j);
    forall k | 0 <= k < cfg.n
      ensures PeInv(cfg, Do(cfg, s, step), k)
    {
      assert PeInv(cfg, s, k);
    }
  }

  lemma {:induction false} PrimaryStepKeepsInv(cfg: Config, s: State, step: Step)
    requires Inv(cfg, s) && Enabled(cfg, s, step) && !BySecondary(step) && !IsTimeout(step)
    ensures Inv(cfg, Do(cfg, s, step))
  {
    forall k | 0 <= k < cfg.n
      ensures PeInv(cfg, Do(cfg, s, step), k)
    {
      assert PeInv(cfg, s, k);
    }
  }

  lemma {:induction false} StepKeepsInv(cfg: Config, s: State, step: Step)
    requires Inv(cfg, s) && Enabled(cfg, s, step) && !IsTimeout(step)
    ensures Inv(cfg, Do(cfg, s, step))
  {
    if BySecondary(step) {
      SecondaryStepKeepsInv(cfg, s, step);
    } else {
      PrimaryStepKeepsInv(cfg, s, step);
    }
  }

  // ---------------------------------------------------------------- all interleavings

  ghost predicate IsRun(cfg: Config, s: State, steps: seq<Step>, s': State)
    decreases |steps|
  {
    if |steps| == 0 then s == s' else
    Sized(cfg, s) && Enabled(cfg, s, steps[0]) && IsRun(cfg, Do(cfg, s, steps[0]), steps[1..], s')
  }

  /** What holds once a wait has timed out: the flag is down and the error exit frees the buffers. */
  ghost predicate TimedOutInv(cfg: Config, s: State) {
    Sized(cfg, s) && s.timedOut && !s.flag &&
    ((s.pc.ErrorFree? && s.live == {s.pc.node}) || (s.pc.Done? && s.live == {}))
  }

  lemma {:induction false} AnyStepKeepsInv(cfg: Config, s: State, step: Step)
    requires Inv(cfg, s) || TimedOutInv(cfg, s)
    requires Enabled(cfg, s, step)
    ensures Inv(cfg, Do(cfg, s, step)) || TimedOutInv(cfg, Do(cfg, s, step))
  {
    if Inv(cfg, s) && !IsTimeout(step) {
      StepKeepsInv(cfg, s, step);
    }
  }

  lemma {:induction false} RunKeepsInv(cfg: Config, s: State, steps: seq<Step>, s': State)
    requires (Inv(cfg, s) || TimedOutInv(cfg, s)) && IsRun(cfg, s, steps, s')
    ensures Inv(cfg, s') || TimedOutInv(cfg, s')
    decreases |steps|
  {
    if |steps| > 0 {
      AnyStepKeepsInv(cfg, s, steps[0]);
      RunKeepsInv(cfg, Do(cfg, s, steps[0]), steps[1..], s');
    }
  }

  lemma {:induction false} ReachableInv(cfg: Config, s0: State, steps: seq<Step>, s: State)
    requires IsInit(cfg, s0) && IsRun(cfg, s0, steps, s)
    ensures if s.timedOut then TimedOutInv(cfg, s) else Inv(cfg, s)
  {
    assert Inv(cfg, s0) by {
      forall j | 0 <= j < cfg.n
        ensures PeInv(cfg, s0, j)
      {}
    }
    RunKeepsInv(cfg, s0, steps, s);
  }

  /**
    Reclamation safety: as long as every wait returned 0, no PE touches a buffer that is not
    allocated, and whenever the buffers are gone no PE is still busy with them.
   */
  lemma {:induction false} NoTouchAfterFree(cfg: Config, s0: State, steps: seq<Step>, s: State)
    requires IsInit(cfg, s0) && IsRun(cfg, s0, steps, s) && !s.timedOut
    ensures forall j :: 0 <= j < cfg.n ==> !TouchesFreed(s, j)
    ensures |s.pes| == cfg.n && (s.live == {} ==> forall j :: 0 <= j < cfg.n ==> !Busy(s.pes[j]))
  {
    ReachableInv(cfg, s0, steps, s);
    forall j | 0 <= j < cfg.n
      ensures !TouchesFreed(s, j) && (s.live == {} ==> !Busy(s.pes[j]))
    {
      assert PeInv(cfg, s, j);
    }
  }

  /**
    A result is only ever stored over the PENDING of the scenario the PE was started for: when a
    PE is about to write its slot, the primary is still in that scenario, past that PE's launch
    and not past the wait, so no write of scenario one can land in scenario two.
   */
  lemma {:induction false} WritesHitOwnScenario(cfg: Config, s0: State, steps: seq<Step>, s: State, j: nat)
    requires IsInit(cfg, s0) && IsRun(cfg, s0, steps, s) && !s.timedOut
    requires Sized(cfg, s) && Enabled(cfg, s, StoresPass(j))
    ensures s.status[j] == Pending && Launched(s.pc, s.pes[j].cause, j)
  {
    ReachableInv(cfg, s0, steps, s);
    assert PeInv(cfg, s, j);
  }

  /** A sweep that found nothing pending really means that every PE has written its result. */
  lemma {:induction false} CleanSweepMeansQuiet(cfg: Config, s0: State, steps: seq<Step>, s: State)
    requires IsInit(cfg, s0) && IsRun(cfg, s0, steps, s) && !s.timedOut
    requires s.pc.Waiting? && s.pc.i == cfg.n && !s.pc.pending
    ensures |s.pes| == |s.status| == cfg.n
    ensures forall j :: 0 <= j < cfg.n && j != cfg.primary ==> s.status[j] != Pending && !Busy(s.pes[j])
  {
    ReachableInv(cfg, s0, steps, s);
    forall j | 0 <= j < cfg.n && j != cfg.primary
      ensures s.status[j] != Pending && !Busy(s.pes[j])
    {
      assert PeInv(cfg, s, j);
    }
  }

  // ---------------------------------------------------------------- the time-out exit

  /** Some continuation touches a buffer that is no longer allocated. */
  ghost predicate MayTouchFreed(cfg: Config, s: State) {
    exists steps, s', j :: IsRun(cfg, s, steps, s') && TouchesFreed(s', j)
  }

  /** Somebody is inside a copy or about to load its buffer pointer. */
  predicate SomebodyCopies(s: State) {
    exists j :: 0 <= j < |s.pes| && (s.pes[j].Starting? || s.pes[j].Copying?)
  }

  lemma {:induction false} QuietForever(cfg: Config, s: State, steps: seq<Step>, s': State, j: nat)
    requires TimedOutInv(cfg, s) && s.pc.Done? && !SomebodyCopies(s) && IsRun(cfg, s, steps, s')
    ensures !TouchesFreed(s', j)
    decreases |steps|
  {
    if |steps| > 0 {
      var t := Do(cfg, s, steps[0]);
      assert !SomebodyCopies(t);
      QuietForever(cfg, t, steps[1..], s', j);
    }
  }

  /**
    After the error exit has freed the buffers, freed memory can still be touched exactly when
    some PE was inside a copy or had not yet loaded its buffer pointer.
   */
  lemma {:induction false} ErrorExitIff(cfg: Config, s0: State, steps: seq<Step>, s: State)
    requires IsInit(cfg, s0) && IsRun(cfg, s0, steps, s) && s.timedOut && s.pc.Done?
    ensures MayTouchFreed(cfg, s) <==> SomebodyCopies(s)
  {
    ReachableInv(cfg, s0, steps, s);
    if j :| 0 <= j < |s.pes| && (s.pes[j].Starting? || s.pes[j].Copying?) {
      assert TouchesFreed(s, j);
      assert IsRun(cfg, s, [], s);
    } else if MayTouchFreed(cfg, s) {
      var rest, s', j :| IsRun(cfg, s, rest, s') && TouchesFreed(s', j);
      QuietForever(cfg, s, rest, s', j);
    }
  }

  lemma {:induction false} Extend(cfg: Config, s: State, steps: seq<Step>, s': State, step: Step)
    requires IsRun(cfg, s, steps, s') && Sized(cfg, s') && Enabled(cfg, s', step)
    ensures IsRun(cfg, s, steps + [step], Do(cfg, s', step))
    decreases |steps|
  {
    if |steps| == 0 {
      assert IsRun(cfg, Do(cfg, s', step), (steps + [step])[1..], Do(cfg, s', step));
    } else {
      Extend(cfg, Do(cfg, s, steps[0]), steps[1..], s', step);
      assert (steps + [step])[1..] == steps[1..] + [step];
    }
  }

  lemma {:induction false} ExtendTwo(cfg: Config, s: State, steps: seq<Step>, s': State, one: Step, two: Step)
    returns (steps': seq<Step>)
    requires IsRun(cfg, s, steps, s') && Sized(cfg, s') && Enabled(cfg, s', one)
    requires Sized(cfg, Do(cfg, s', one)) && Enabled(cfg, Do(cfg, s', one), two)
    ensures IsRun(cfg, s, steps', Do(cfg, Do(cfg, s', one), two))
  {
    Extend(cfg, s, steps, s', one);
    Extend(cfg, s, steps + [one], Do(cfg, s', one), two);
    steps' := steps + [one] + [two];
  }

  /** Two PEs and one node: the primary gets as far as launching the other PE. */
  lemma {:induction false} PrimaryLaunches(cfg: Config, s0: State, s: State) returns (steps: seq<Step>)
    requires cfg == Config(2, 0, 1)
    requires s0 == State(NextNode(0), [Off, Off], [Passed, Passed], false, {}, 0, false)
    requires s == State(CpuOn(Scenario(0, 1), 1), [Off, Off], [Passed, Pending], true, {0}, 0, false)
    ensures IsRun(cfg, s0, steps, s)
  {
    var s2 := s0.(pc := SetPending(Scenario(0, 1), 0), flag := true, live := {0});
    steps := ExtendTwo(cfg, s0, [], s0, Allocate(true), RaisesFlag);
    assert Do(cfg, Do(cfg, s0, Allocate(true)), RaisesFlag) == s2;
    steps := ExtendTwo(cfg, s0, steps, s2, MarksPending, MarksPending);
    assert Do(cfg, Do(cfg, s2, MarksPending), MarksPending) == s;
  }

  /** The other PE gets into its copy. */
  lemma {:induction false} OnePeCopies(cfg: Config, s0: State, s: State) returns (steps: seq<Step>)
    requires cfg == Config(2, 0, 1)
    requires s0 == State(NextNode(0), [Off, Off], [Passed, Passed], false, {}, 0, false)
    requires s == State(ClearFlag(Scenario(0, 1)), [Off, Copying(Scenario(0, 1), 0)],
                        [Passed, Pending], true, {0}, 0, false)
    ensures IsRun(cfg, s0, steps, s)
  {
    var s4 := s.(pc := CpuOn(Scenario(0, 1), 1), pes := [Off, Off]);
    steps := PrimaryLaunches(cfg, s0, s4);
    var s5 := s.(pes := [Off, Starting(Scenario(0, 1))]);
    Extend(cfg, s0, steps, s4, CallsCpuOn(Success));
    steps := steps + [CallsCpuOn(Success)];
    assert Do(cfg, s4, CallsCpuOn(Success)) == s5;
    steps := ExtendTwo(cfg, s0, steps, s5, LoadsPointer(1), ReadsFlag(1));
    assert Do(cfg, Do(cfg, s5, LoadsPointer(1)), ReadsFlag(1)) == s;
  }

  /** One PE that is slow to finish its copy is enough for the error exit to be unsafe. */
  lemma {:induction false} ErrorExitUnsafe() returns (cfg: Config, s0: State, steps: seq<Step>, s: State)
    ensures IsInit(cfg, s0) && IsRun(cfg, s0, steps, s) && s.timedOut && s.pc.Done?
    ensures exists j :: TouchesFreed(s, j)
  {
    cfg := Config(2, 0, 1);
    s0 := State(NextNode(0), [Off, Off], [Passed, Passed], false, {}, 0, false);
    var sc := Scenario(0, 1);
    var s7 := State(ClearFlag(sc), [Off, Copying(sc, 0)], [Passed, Pending], true, {0}, 0, false);
    steps := OnePeCopies(cfg, s0, s7);
    var s9 := s7.(pc := Waiting(sc, 1, false), flag := false);
    steps := ExtendTwo(cfg, s0, steps, s7, LowersFlag, ReadsSlot);
    assert Do(cfg, Do(cfg, s7, LowersFlag), ReadsSlot) == s9;
    var s11 := s9.(pc := ErrorFree(0), timedOut := true);
    steps := ExtendTwo(cfg, s0, steps, s9, ReadsSlot, EndsSweep(true));
    assert Do(cfg, Do(cfg, s9, ReadsSlot), EndsSweep(true)) == s11;
    Extend(cfg, s0, steps, s11, Frees);
    steps := steps + [Frees];
    s := Do(cfg, s11, Frees);
    assert TouchesFreed(s, 1);
  }
}
