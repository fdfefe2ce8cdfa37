/** The cross-PE call of the SDEI platform layer: when it returns. */
module MailboxProgress {
  import opened Counting
  import opened Mailbox

  /** How far the PE that polls the slot is from zeroing it. */
  function Distance(pc: Secondary): nat {
    match pc
    case Off => 0
    case PoweringOff => 0
    case Starting => 9
    case ReadArg(resAddr) => if resAddr == 0 then 8 else 6
    case ReadPayload => 7
    case Running(_, stored) => if stored then 4 else 5
    case Clearing => 3
  }

  ghost function Owner(cfg: Config, slot: nat): (j: nat)
    requires cfg.Owned(slot)
    ensures 1 <= j < |cfg.pos| && cfg.pos[j] == slot
  {
    var j :| 1 <= j < |cfg.pos| && cfg.pos[j] == slot;
    j
  }

  ghost function Rank(cfg: Config, s: State): nat
    requires Inv(cfg, s) && cfg.AllOwned()
  {
    match s.boot
    case Idle => 0
    case WriteOffArg(_) => 1
    case InPayload(_, stored) => 20 * |cfg.pos| + (if stored then 1 else 2)
    case WriteArg(_, i) => 20 * (|cfg.pos| - i) + 12
    case WritePayload(_, i) => 20 * (|cfg.pos| - i) + 11
    case Spin(_, i, _) =>
      20 * (|cfg.pos| - i) +
      (if s.mem[i].payload == 0 then 1 else Distance(s.secondaries[Owner(cfg, i)]))
  }

  /** The PE that everybody is waiting for. */
  ghost function HelpfulPe(cfg: Config, s: State): nat
    requires Inv(cfg, s) && cfg.AllOwned()
  {
    if s.boot.Spin? && s.mem[s.boot.i].payload != 0 then Owner(cfg, s.boot.i) else 0
  }

  /** The post in progress, if any, meets a PE that will answer it. */
  predicate Answered(s: State) {
    s.boot.Spin? ==> s.boot.fate != WillHang
  }

  /** No secondary is off or on its way there. */
  ghost predicate Live(cfg: Config, s: State)
    requires cfg.Valid() && Sized(cfg, s)
  {
    Answered(s) &&
    forall j :: 1 <= j < |cfg.pos| ==>
                  !s.secondaries[j].Off? && !GoingOff(s.secondaries[j]) &&
                  (Polls(s.secondaries[j]) ==> s.mem[cfg.pos[j]].payload != POWER_OFF)
  }

  lemma {:induction false} SecondaryKeepsLive(cfg: Config, s: State, step: Step)
    requires Inv(cfg, s) && Live(cfg, s) && Enabled(cfg, s, step) && BySecondary(step)
    ensures var t := Do(cfg, s, step); Sized(cfg, t) && Live(cfg, t)
  {}

  lemma {:induction false} BootKeepsLive(cfg: Config, s: State, step: Step)
    requires Inv(cfg, s) && cfg.AllOwned() && Live(cfg, s) && Enabled(cfg, s, step) && !BySecondary(step) && Calm(step)
    ensures var t := Do(cfg, s, step); Sized(cfg, t) && Live(cfg, t)
  {
    if step == BootWritesPayload {
      OwnerAnswers(cfg, s, s.boot.i);
    }
  }

  lemma {:induction false} OwnerAnswers(cfg: Config, s: State, slot: nat)
    requires Inv(cfg, s) && Live(cfg, s) && cfg.Owned(slot) && s.boot.WritePayload? && s.boot.i == slot
    ensures FateOf(cfg, s, slot) != WillHang
  {
    var j :| 1 <= j < |cfg.pos| && cfg.pos[j] == slot;
    assert s.secondaries[j].Starting? || Polls(s.secondaries[j]);
  }

  lemma {:induction false} StepKeepsLive(cfg: Config, s: State, step: Step)
    requires Inv(cfg, s) && cfg.AllOwned() && Live(cfg, s) && Enabled(cfg, s, step) && Calm(step)
    ensures Inv(cfg, Do(cfg, s, step)) && Live(cfg, Do(cfg, s, step))
  {
    StepKeepsInv(cfg, s, step);
    if BySecondary(step) {
      SecondaryKeepsLive(cfg, s, step);
    } else {
      BootKeepsLive(cfg, s, step);
    }
  }

  /** Its next step. */
  ghost function Helpful(cfg: Config, s: State): Step
    requires Inv(cfg, s) && cfg.AllOwned() && !s.boot.Idle? && Answered(s)
  {
    match s.boot
    case WriteOffArg(_) => BootWritesOffArg
    case InPayload(_, stored) => if stored then BootPayloadReturns else BootStore(0)
    case WriteArg(_, _) => BootWritesArg
    case WritePayload(_, _) => BootWritesPayload
    case Spin(_, i, _) =>
      if s.mem[i].payload == 0 then BootPolls else
      var j := Owner(cfg, i);
      match s.secondaries[j]
      case Starting => Starts(j)
      case ReadPayload => ReadsPayload(j)
      case ReadArg(_) => ReadsArg(j)
      case Running(_, stored) => if stored then PayloadReturns(j) else Stores(j, 0)
      case Clearing => Clears(j)
      case _ => TurnsOff(j)
  }

  /** The PE that takes a step. */
  function Actor(step: Step): nat {
    match step
    case ReadsPayload(j) => j
    case ReadsArg(j) => j
    case Stores(j, _) => j
    case PayloadReturns(j) => j
    case Clears(j) => j
    case Starts(j) => j
    case TurnsOff(j) => j
    case _ => 0
  }

  lemma {:induction false} BootAdvances(cfg: Config, s: State, step: Step)
    requires Inv(cfg, s) && cfg.AllOwned() && !s.boot.Idle? && Answered(s) && Enabled(cfg, s, step)
    requires !BySecondary(step) && HelpfulPe(cfg, s) == 0 && Inv(cfg, Do(cfg, s, step))
    ensures Rank(cfg, Do(cfg, s, step)) < Rank(cfg, s)
  {}

  lemma {:induction false} OwnerAdvances(cfg: Config, s: State, step: Step)
    requires Inv(cfg, s) && cfg.AllOwned() && !s.boot.Idle? && Answered(s) && Enabled(cfg, s, step)
    requires BySecondary(step) && Actor(step) == HelpfulPe(cfg, s) && Inv(cfg, Do(cfg, s, step))
    ensures Rank(cfg, Do(cfg, s, step)) < Rank(cfg, s)
  {}

  /** Any step of the helpful PE brings the call nearer to its end. */
  lemma {:induction false} HelpfulPeAdvances(cfg: Config, s: State, step: Step)
    requires Inv(cfg, s) && cfg.AllOwned() && !s.boot.Idle? && Answered(s) && Enabled(cfg, s, step)
    requires Actor(step) == HelpfulPe(cfg, s)
    ensures Inv(cfg, Do(cfg, s, step)) && Rank(cfg, Do(cfg, s, step)) < Rank(cfg, s)
  {
    StepKeepsInv(cfg, s, step);
    if BySecondary(step) {
      OwnerAdvances(cfg, s, step);
    } else {
      BootAdvances(cfg, s, step);
    }
  }

  lemma {:induction false} BootOnlyLooks(cfg: Config, s: State, step: Step)
    requires Inv(cfg, s) && cfg.AllOwned() && !s.boot.Idle? && Answered(s) && Enabled(cfg, s, step)
    requires !BySecondary(step) && HelpfulPe(cfg, s) != 0
    ensures Do(cfg, s, step) == s
  {}

  lemma {:induction false} SecondaryDoesNotDelay(cfg: Config, s: State, step: Step)
    requires Inv(cfg, s) && cfg.AllOwned() && !s.boot.Idle? && Answered(s) && Enabled(cfg, s, step)
    requires BySecondary(step) && Actor(step) != HelpfulPe(cfg, s) && Inv(cfg, Do(cfg, s, step))
    ensures var t := Do(cfg, s, step); Rank(cfg, t) == Rank(cfg, s) && HelpfulPe(cfg, t) == HelpfulPe(cfg, s)
  {}

  /** And a step of any other PE neither delays it nor changes whom everybody is waiting for. */
  lemma {:induction false} OthersDoNotDelay(cfg: Config, s: State, step: Step)
    requires Inv(cfg, s) && cfg.AllOwned() && !s.boot.Idle? && Answered(s) && Enabled(cfg, s, step)
    requires Actor(step) != HelpfulPe(cfg, s)
    ensures var t := Do(cfg, s, step);
            Inv(cfg, t) && t.boot == s.boot && Rank(cfg, t) == Rank(cfg, s) && HelpfulPe(cfg, t) == HelpfulPe(cfg, s)
  {
    StepKeepsInv(cfg, s, step);
    if BySecondary(step) {
      SecondaryDoesNotDelay(cfg, s, step);
    } else {
      BootOnlyLooks(cfg, s, step);
    }
  }

  /** The helpful PE always has a step to take. */
  lemma {:induction false} HelpfulStep(cfg: Config, s: State)
    requires Inv(cfg, s) && cfg.AllOwned() && !s.boot.Idle? && Answered(s)
    ensures Enabled(cfg, s, Helpful(cfg, s)) && Calm(Helpful(cfg, s)) && Actor(Helpful(cfg, s)) == HelpfulPe(cfg, s)
  {
  }

  /** The boot PE is in a call. */
  predicate InCall(s: State) {
    !s.boot.Idle? && !s.boot.WriteOffArg?
  }

  lemma {:induction false} CalmThen(step: Step, steps: seq<Step>)
    requires Calm(step) && AllCalm(steps)
    ensures AllCalm([step] + steps) && ([step] + steps)[1..] == steps
  {}

  /**
    No deadlock and no lost wake-up: when every slot has a PE polling it and none is off or going
    off, the call in progress can run to its end.
   */
  lemma {:induction false} CanReturn(cfg: Config, s: State) returns (steps: seq<Step>, s': State)
    requires Inv(cfg, s) && cfg.AllOwned() && Live(cfg, s) && InCall(s)
    ensures IsRun(cfg, s, steps, s') && AllCalm(steps) && s'.boot.Idle? && Inv(cfg, s')
    ensures |s'.rounds| > |s.rounds|
    decreases Rank(cfg, s)
  {
    HelpfulStep(cfg, s);
    var step := Helpful(cfg, s);
    HelpfulPeAdvances(cfg, s, step);
    StepKeepsLive(cfg, s, step);
    var t := Do(cfg, s, step);
    IdleMeansReturned(cfg, s, step);
    if t.boot.Idle? {
      steps, s' := [step], t;
      assert IsRun(cfg, t, steps[1..], t);
    } else {
      var rest;
      rest, s' := CanReturn(cfg, t);
      steps := [step] + rest;
      CalmThen(step, rest);
    }
  }

  lemma {:induction false} IdleMeansReturned(cfg: Config, s: State, step: Step)
    requires Inv(cfg, s) && InCall(s) && Enabled(cfg, s, step)
    ensures var t := Do(cfg, s, step);
            !t.boot.WriteOffArg? && |t.rounds| == if t.boot.Idle? then |s.rounds| + 1 else |s.rounds|
  {}

  /** Some interleaving returns from a call. */
  ghost predicate SomeCallReturns(cfg: Config, s0: State) {
    exists steps, s :: IsRun(cfg, s0, steps, s) && |s.rounds| > 0
  }

  /**
    A call can return exactly when every slot that the boot PE writes is polled by some PE; if
    one slot is nobody's, the boot PE spins on it in every interleaving.
   */
  lemma {:induction false} ReturnsIffEverySlotPolled(cfg: Config, s0: State)
    requires cfg.Valid() && IsInit(cfg, s0)
    ensures SomeCallReturns(cfg, s0) <==> cfg.AllOwned()
  {
    InitInv(cfg, s0);
    if SomeCallReturns(cfg, s0) {
      var steps, s :| IsRun(cfg, s0, steps, s) && |s.rounds| > 0;
      RunKeepsInv(cfg, s0, steps, s);
      var round := s.rounds[0];
      assert Closed(cfg, round);
      forall slot | 1 <= slot < |cfg.pos|
        ensures cfg.Owned(slot)
      {
        assert round.events[slot].Ran? ==> cfg.pos[round.events[slot].pe] == slot;
      }
    }
    if cfg.AllOwned() {
      var call := Call(2, 0);
      var t := Do(cfg, s0, Invoke(call));
      StepKeepsLive(cfg, s0, Invoke(call));
      var rest, s := CanReturn(cfg, t);
      var steps := [Invoke(call)] + rest;
      assert steps[1..] == rest;
      assert IsRun(cfg, s0, steps, s);
    }
  }

  // ---------------------------------------------------------------- every fair schedule

  /** An unending run: at each moment a state and the step taken there. */
  ghost predicate StepAt(cfg: Config, states: nat -> State, sched: nat -> Step, n: nat) {
    cfg.Valid() && Sized(cfg, states(n)) && Enabled(cfg, states(n), sched(n)) &&
    states(n + 1) == Do(cfg, states(n), sched(n))
  }

  ghost predicate Unending(cfg: Config, states: nat -> State, sched: nat -> Step) {
    forall n: nat :: StepAt(cfg, states, sched, n)
  }

  /** PE p takes the step at moment m, or it has nothing to do then or is off. */
  predicate Acts(states: nat -> State, sched: nat -> Step, p: nat, m: nat) {
    Actor(sched(m)) == p || (p == 0 && states(m).boot.Idle?) ||
    (1 <= p < |states(m).secondaries| && states(m).secondaries[p].Off?)
  }

  ghost predicate ActsLater(states: nat -> State, sched: nat -> Step, p: nat, n: nat) {
    exists m: nat :: n <= m && Acts(states, sched, p, m)
  }

  /** No PE is stopped for ever. */
  ghost predicate Fair(cfg: Config, states: nat -> State, sched: nat -> Step) {
    forall p: nat, n: nat :: p < |cfg.pos| ==> ActsLater(states, sched, p, n)
  }

  /** Nobody asks for a power-off or power-on from moment n on. */
  ghost predicate CalmFrom(sched: nat -> Step, n: nat) {
    forall m: nat :: n <= m ==> Calm(sched(m))
  }

  /** Up to the helpful PE's next step the call returns or comes nearer to its end. */
  lemma {:induction false} HelpArrives(cfg: Config, states: nat -> State, sched: nat -> Step, n: nat, m: nat)
    returns (k: nat)
    requires Unending(cfg, states, sched) && CalmFrom(sched, n) && cfg.AllOwned() && n <= m
    requires Inv(cfg, states(n)) && Live(cfg, states(n)) && !states(n).boot.Idle?
    requires Acts(states, sched, HelpfulPe(cfg, states(n)), m)
    ensures n < k <= m + 1 && Inv(cfg, states(k)) && Live(cfg, states(k))
    ensures states(k).boot.Idle? || Rank(cfg, states(k)) < Rank(cfg, states(n))
    decreases m - n
  {
    assert StepAt(cfg, states, sched, n);
    StepKeepsLive(cfg, states(n), sched(n));
    if Actor(sched(n)) == HelpfulPe(cfg, states(n)) {
      HelpfulPeAdvances(cfg, states(n), sched(n));
      k := n + 1;
    } else {
      OthersDoNotDelay(cfg, states(n), sched(n));
      k := HelpArrives(cfg, states, sched, n + 1, m);
    }
  }

  /**
    When every slot has a PE polling it, none is off or going off, and only calls are made, every
    call returns under every fair schedule.
   */
  lemma {:induction false} FairCallReturns(cfg: Config, states: nat -> State, sched: nat -> Step, n: nat)
    returns (k: nat)
    requires Unending(cfg, states, sched) && Fair(cfg, states, sched) && CalmFrom(sched, n) && cfg.AllOwned()
    requires Inv(cfg, states(n)) && Live(cfg, states(n)) && !states(n).boot.Idle?
    ensures k > n && states(k).boot.Idle?
    decreases Rank(cfg, states(n))
  {
    var p := HelpfulPe(cfg, states(n));
    assert ActsLater(states, sched, p, n);
    var m: nat :| n <= m && Acts(states, sched, p, m);
    k := HelpArrives(cfg, states, sched, n, m);
    if !states(k).boot.Idle? {
      k := FairCallReturns(cfg, states, sched, k);
    }
  }

  lemma {:induction false} StaysLive(cfg: Config, states: nat -> State, sched: nat -> Step, n: nat)
    requires Unending(cfg, states, sched) && CalmFrom(sched, 0) && cfg.AllOwned()
    requires Inv(cfg, states(0)) && Live(cfg, states(0))
    ensures Inv(cfg, states(n)) && Live(cfg, states(n))
  {
    if n > 0 {
      StaysLive(cfg, states, sched, n - 1);
      assert StepAt(cfg, states, sched, n - 1);
      StepKeepsLive(cfg, states(n - 1), sched(n - 1));
    }
  }

  /** From any state of that kind: whenever a call is in progress, it returns later. */
  lemma {:induction false} EveryFairCallReturns(cfg: Config, states: nat -> State, sched: nat -> Step, n: nat)
    requires cfg.AllOwned() && Inv(cfg, states(0)) && Live(cfg, states(0))
    requires Unending(cfg, states, sched) && Fair(cfg, states, sched) && CalmFrom(sched, 0)
    ensures exists k: nat :: k >= n && states(k).boot.Idle?
  {
    if !states(n).boot.Idle? {
      StaysLive(cfg, states, sched, n);
      var k := FairCallReturns(cfg, states, sched, n);
    }
  }

  /** All initial states are of that kind. */
  lemma {:induction false} InitIsLive(cfg: Config, s: State)
    requires cfg.Valid() && IsInit(cfg, s)
    ensures Inv(cfg, s) && Live(cfg, s)
  {
    InitInv(cfg, s);
  }
}
