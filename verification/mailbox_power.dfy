/**
  Power-off and power-on of secondaries between cross-PE calls: which states of the secondaries
  make the calls that follow complete and let them return, and what a power cycle can do to them.
 */
module MailboxPower {
  import opened Counting
  import opened Mailbox
  import opened MailboxProgress

  /** When every slot is polled, every secondary polls one that the boot PE writes. */
  lemma {:induction false} PolledSlotsAreWritten(cfg: Config, j: nat)
    requires cfg.Valid() && cfg.AllOwned() && 1 <= j < |cfg.pos|
    ensures 1 <= cfg.pos[j] < |cfg.pos|
  {
    if !(1 <= cfg.pos[j] < |cfg.pos|) {
      var n := |cfg.pos| - 1;
      var owners := seq(n, k requires 0 <= k < n => Owner(cfg, k + 1)) + [j];
      forall a, b | 0 <= a < b < |owners|
        ensures owners[a] - 1 != owners[b] - 1
      {
        assert cfg.pos[owners[a]] == a + 1;
        assert b < n ==> cfg.pos[owners[b]] == b + 1;
      }
      var shifted := seq(n + 1, k requires 0 <= k < n + 1 => (owners[k] - 1) as nat);
      Pigeonhole(shifted, n);
      assert false;
    }
  }

  // ---------------------------------------------------------------- runs

  lemma {:induction false} RunThen(cfg: Config, s: State, first: seq<Step>, t: State, rest: seq<Step>, u: State)
    requires IsRun(cfg, s, first, t) && IsRun(cfg, t, rest, u)
    ensures IsRun(cfg, s, first + rest, u)
    decreases |first|
  {
    if |first| == 0 {
      assert first + rest == rest;
    } else {
      assert (first + rest)[1..] == first[1..] + rest;
      RunThen(cfg, Do(cfg, s, first[0]), first[1..], t, rest, u);
    }
  }

  lemma {:induction false} OneStep(cfg: Config, s: State, step: Step)
    requires Inv(cfg, s) && Enabled(cfg, s, step)
    ensures IsRun(cfg, s, [step], Do(cfg, s, step)) && Inv(cfg, Do(cfg, s, step))
  {
    StepKeepsInv(cfg, s, step);
    assert [step][1..] == [];
  }

  /** What the boot PE was asked for: calls, power-offs and power-ons. */
  function Asked(steps: seq<Step>): (asked: seq<Step>) {
    if |steps| == 0 then [] else
    (if steps[0].Invoke? || !Calm(steps[0]) then [steps[0]] else []) + Asked(steps[1..])
  }

  lemma {:induction false} AskedThen(a: seq<Step>, b: seq<Step>)
    ensures Asked(a + b) == Asked(a) + Asked(b)
  {
    if |a| == 0 {
      assert a + b == b;
    } else {
      assert (a + b)[1..] == a[1..] + b;
      AskedThen(a[1..], b);
    }
  }

  lemma {:induction false} ThreeSteps(cfg: Config, s: State, x: Step, a: State, y: Step, b: State, z: Step, t: State)
    returns (steps: seq<Step>)
    requires IsRun(cfg, s, [x], a) && IsRun(cfg, a, [y], b) && IsRun(cfg, b, [z], t)
    ensures IsRun(cfg, s, steps, t) && steps == [x] + ([y] + [z])
    ensures Asked(steps) == Asked([x]) + (Asked([y]) + Asked([z]))
  {
    RunThen(cfg, a, [y], b, [z], t);
    RunThen(cfg, s, [x], a, [y] + [z], t);
    AskedThen([y], [z]);
    AskedThen([x], [y] + [z]);
    steps := [x] + ([y] + [z]);
  }

  // ---------------------------------------------------------------- up to a given slot

  /** In a call, and the slot has still to be posted. */
  predicate Before(s: State, p: nat) {
    s.boot.InPayload? ||
    ((s.boot.WriteArg? || s.boot.WritePayload?) && s.boot.i <= p) ||
    (s.boot.Spin? && s.boot.i < p && s.boot.fate == WillRun)
  }

  /** The PEs that poll the slots before p poll with nothing but the call in hand or mailbox. */
  ghost predicate ReadyBelow(cfg: Config, s: State, p: nat)
    requires cfg.Valid() && Sized(cfg, s)
  {
    forall k :: 1 <= k < |cfg.pos| && cfg.pos[k] < p ==>
                  Active(s.secondaries[k]) ||
                  (Polls(s.secondaries[k]) && s.mem[cfg.pos[k]].payload != POWER_OFF)
  }

  /** A step of the PE that the boot PE spins for, at an earlier slot. */
  lemma {:induction false} SecondaryKeepsBelow(cfg: Config, s: State, step: Step, j: nat)
    requires Inv(cfg, s) && 1 <= j < |cfg.pos| && s.boot.Spin?
    requires Before(s, cfg.pos[j]) && ReadyBelow(cfg, s, cfg.pos[j])
    requires Enabled(cfg, s, step) && BySecondary(step) && cfg.pos[Actor(step)] == s.boot.i
    ensures var t := Do(cfg, s, step);
            Sized(cfg, t) && Before(t, cfg.pos[j]) && ReadyBelow(cfg, t, cfg.pos[j]) && t.rounds == s.rounds &&
            t.secondaries[j] == s.secondaries[j]
  {}

  lemma {:induction false} BootKeepsBelow(cfg: Config, s: State, step: Step, j: nat)
    requires Inv(cfg, s) && cfg.AllOwned() && 1 <= j < |cfg.pos| && 1 <= cfg.pos[j] < |cfg.pos|
    requires Before(s, cfg.pos[j]) && ReadyBelow(cfg, s, cfg.pos[j]) && !s.boot.Idle? && Answered(s)
    requires step == Helpful(cfg, s) && Enabled(cfg, s, step) && !BySecondary(step)
    requires !(s.boot.WritePayload? && s.boot.i == cfg.pos[j])
    ensures var t := Do(cfg, s, step);
            Sized(cfg, t) && Before(t, cfg.pos[j]) && ReadyBelow(cfg, t, cfg.pos[j]) && t.rounds == s.rounds &&
            t.secondaries[j] == s.secondaries[j]
  {
    if step == BootWritesPayload {
      var k := Owner(cfg, s.boot.i);
      assert !OwnerStarting(cfg, s, s.boot.i);
      assert Polls(s.secondaries[k]);
      assert OwnerPolls(cfg, s, s.boot.i);
    }
  }

  lemma {:induction false} HelpfulKeepsBelow(cfg: Config, s: State, j: nat)
    requires Inv(cfg, s) && cfg.AllOwned() && 1 <= j < |cfg.pos| && 1 <= cfg.pos[j] < |cfg.pos|
    requires Before(s, cfg.pos[j]) && ReadyBelow(cfg, s, cfg.pos[j])
    requires !(s.boot.WritePayload? && s.boot.i == cfg.pos[j])
    ensures Enabled(cfg, s, Helpful(cfg, s))
    ensures var t := Do(cfg, s, Helpful(cfg, s));
            Sized(cfg, t) && Before(t, cfg.pos[j]) && ReadyBelow(cfg, t, cfg.pos[j]) && t.rounds == s.rounds &&
            t.secondaries[j] == s.secondaries[j]
  {
    HelpfulStep(cfg, s);
    var step := Helpful(cfg, s);
    if BySecondary(step) {
      SecondaryKeepsBelow(cfg, s, step, j);
    } else {
      BootKeepsBelow(cfg, s, step, j);
    }
  }

  /** The boot PE gets to the point where it writes the payload for PE j, which has not moved. */
  lemma {:induction false} ReachPost(cfg: Config, s: State, j: nat) returns (steps: seq<Step>, t: State)
    requires Inv(cfg, s) && cfg.AllOwned() && 1 <= j < |cfg.pos|
    requires Before(s, cfg.pos[j]) && ReadyBelow(cfg, s, cfg.pos[j])
    ensures IsRun(cfg, s, steps, t) && AllCalm(steps) && Asked(steps) == [] && Inv(cfg, t) && t.rounds == s.rounds
    ensures t.boot.WritePayload? && t.boot.i == cfg.pos[j] && t.secondaries[j] == s.secondaries[j]
    decreases Rank(cfg, s)
  {
    PolledSlotsAreWritten(cfg, j);
    if s.boot.WritePayload? && s.boot.i == cfg.pos[j] {
      steps, t := [], s;
    } else {
      HelpfulStep(cfg, s);
      var step := Helpful(cfg, s);
      HelpfulPeAdvances(cfg, s, step);
      HelpfulKeepsBelow(cfg, s, j);
      var rest;
      rest, t := ReachPost(cfg, Do(cfg, s, step), j);
      steps := [step] + rest;
      CalmThen(step, rest);
    }
  }

  /** The one PE that polls a slot decides what a post there comes to. */
  lemma {:induction false} FateByOwner(cfg: Config, s: State, j: nat)
    requires Inv(cfg, s) && 1 <= j < |cfg.pos|
    ensures s.secondaries[j].Starting? ==> FateOf(cfg, s, cfg.pos[j]) == WillMiss
    ensures s.secondaries[j].Off? || GoingOff(s.secondaries[j]) ==> FateOf(cfg, s, cfg.pos[j]) == WillHang
  {}

  // ---------------------------------------------------------------- lost calls and hung calls

  /** Nothing that was asked for since has been missed, nor is on record as missed so far. */
  ghost predicate NoneMissed(cfg: Config, before: seq<Round>, t: State) {
    CompleteSince(cfg, before, t.rounds) && forall m :: 0 <= m < |t.events| ==> t.events[m].Ran?
  }

  /** All secondaries that poll slots before p are ready. */
  ghost predicate ReadyBefore(cfg: Config, s: State, p: nat)
    requires cfg.Valid() && Sized(cfg, s)
  {
    forall k :: 1 <= k < |cfg.pos| && cfg.pos[k] < p ==> Ready(cfg, s, k)
  }

  const SOME_CALL: Call := Call(2, 0)

  /** A call that is about to be posted to PE j, which is as it was between the calls. */
  lemma {:induction false} CallReachesPost(cfg: Config, s: State, j: nat) returns (steps: seq<Step>, t: State)
    requires Inv(cfg, s) && cfg.AllOwned() && s.boot.Idle? && 1 <= j < |cfg.pos|
    requires ReadyBefore(cfg, s, cfg.pos[j])
    ensures IsRun(cfg, s, steps, t) && AllCalm(steps) && Asked(steps) == [Invoke(SOME_CALL)]
    ensures Inv(cfg, t) && t.rounds == s.rounds
    ensures t.boot.WritePayload? && t.boot.i == cfg.pos[j] && t.secondaries[j] == s.secondaries[j]
  {
    var invoke := Invoke(SOME_CALL);
    StepKeepsInv(cfg, s, invoke);
    var u := Do(cfg, s, invoke);
    assert ReadyBelow(cfg, u, cfg.pos[j]) by {
      forall k | 1 <= k < |cfg.pos| && cfg.pos[k] < cfg.pos[j]
        ensures Polls(u.secondaries[k]) && u.mem[cfg.pos[k]].payload != POWER_OFF
      {
        assert Ready(cfg, s, k);
      }
    }
    var rest;
    rest, t := ReachPost(cfg, u, j);
    steps := [invoke] + rest;
    CalmThen(invoke, rest);
  }

  /** The miss of slot p is on record: in the call in progress, or in the one that has just returned. */
  ghost predicate OnRecord(cfg: Config, before: seq<Round>, t: State, p: nat) {
    if t.boot.Idle? then |t.rounds| == |before| + 1 && !Complete(cfg, t.rounds[|before|])
    else InCall(t) && t.rounds == before && p < |t.events| && t.events[p] == Missed
  }

  /** When the boot PE goes on from an erased post, the miss is on record. */
  lemma {:induction false} MissRecorded(cfg: Config, s: State)
    requires Inv(cfg, s) && s.boot.Spin? && s.boot.fate == WillMiss && s.mem[s.boot.i].payload == 0
    ensures OnRecord(cfg, s.rounds, Do(cfg, s, BootPolls), s.boot.i)
  {
    var t := Do(cfg, s, BootPolls);
    var i := s.boot.i;
    assert |s.events| == i && Recorded(s, i)[i] == Missed;
    if t.boot.Idle? {
      assert t.rounds[|s.rounds|].events == Recorded(s, i);
    } else {
      assert t.events == Recorded(s, i);
    }
  }

  /** The steps after the post: the start-up store erases it, and the boot PE goes on. */
  lemma {:induction false} ErasedPost(cfg: Config, s: State, j: nat) returns (steps: seq<Step>, t: State)
    requires Inv(cfg, s) && cfg.AllOwned() && 1 <= j < |cfg.pos|
    requires s.boot.WritePayload? && s.boot.i == cfg.pos[j] && s.secondaries[j].Starting?
    ensures IsRun(cfg, s, steps, t) && AllCalm(steps) && Asked(steps) == []
    ensures Inv(cfg, t) && OnRecord(cfg, s.rounds, t, cfg.pos[j])
  {
    FateByOwner(cfg, s, j);
    OneStep(cfg, s, BootWritesPayload);
    var a := Do(cfg, s, BootWritesPayload);
    OneStep(cfg, a, Starts(j));
    var b := Do(cfg, a, Starts(j));
    OneStep(cfg, b, BootPolls);
    t := Do(cfg, b, BootPolls);
    MissRecorded(cfg, b);
    steps := ThreeSteps(cfg, s, BootWritesPayload, a, Starts(j), b, BootPolls, t);
  }

  /** As long as a PE has to start, a call can be lost on it. */
  lemma {:induction false} StartingLosesCall(cfg: Config, s: State, j: nat) returns (steps: seq<Step>, t: State)
    requires Inv(cfg, s) && cfg.AllOwned() && s.boot.Idle? && 1 <= j < |cfg.pos|
    requires ReadyBefore(cfg, s, cfg.pos[j]) && s.secondaries[j].Starting?
    ensures IsRun(cfg, s, steps, t) && AllCalm(steps) && Asked(steps) == [Invoke(SOME_CALL)]
    ensures Inv(cfg, t) && OnRecord(cfg, s.rounds, t, cfg.pos[j]) && !NoneMissed(cfg, s.rounds, t)
  {
    var first, u := CallReachesPost(cfg, s, j);
    var rest;
    rest, t := ErasedPost(cfg, u, j);
    steps := first + rest;
    RunThen(cfg, s, first, u, rest, t);
    AskedThen(first, rest);
  }

  /** A call that meets a PE that is off, or has found PowerOffPe, hangs. */
  lemma {:induction false} OffHangsCall(cfg: Config, s: State, j: nat) returns (steps: seq<Step>, t: State)
    requires Inv(cfg, s) && cfg.AllOwned() && s.boot.Idle? && 1 <= j < |cfg.pos|
    requires ReadyBefore(cfg, s, cfg.pos[j]) && (s.secondaries[j].Off? || GoingOff(s.secondaries[j]))
    ensures IsRun(cfg, s, steps, t) && AllCalm(steps) && Inv(cfg, t) && t.boot.Spin? && t.boot.fate == WillHang
    ensures Asked(steps) == [Invoke(SOME_CALL)]
  {
    var first, u := CallReachesPost(cfg, s, j);
    FateByOwner(cfg, u, j);
    OneStep(cfg, u, BootWritesPayload);
    t := Do(cfg, u, BootWritesPayload);
    steps := first + [BootWritesPayload];
    RunThen(cfg, s, first, u, [BootWritesPayload], t);
    AskedThen(first, [BootWritesPayload]);
  }

  /** A PE with PowerOffPe in its mailbox can find it before the next call is made. */
  lemma {:induction false} FindsPowerOff(cfg: Config, s: State, j: nat) returns (steps: seq<Step>, t: State)
    requires Inv(cfg, s) && s.boot.Idle? && 1 <= j < |cfg.pos|
    requires Polls(s.secondaries[j]) && s.mem[cfg.pos[j]].payload == POWER_OFF
    ensures IsRun(cfg, s, steps, t) && AllCalm(steps) && Inv(cfg, t)
    ensures t == s.(secondaries := s.secondaries[j := ReadArg(POWER_OFF)])
    ensures Asked(steps) == []
    decreases if s.secondaries[j].ReadPayload? then 0 else 1
  {
    if s.secondaries[j].ReadPayload? {
      OneStep(cfg, s, ReadsPayload(j));
      steps, t := [ReadsPayload(j)], Do(cfg, s, ReadsPayload(j));
    } else {
      OneStep(cfg, s, ReadsArg(j));
      var u := Do(cfg, s, ReadsArg(j));
      var rest;
      rest, t := FindsPowerOff(cfg, u, j);
      steps := [ReadsArg(j)] + rest;
      CalmThen(ReadsArg(j), rest);
    }
  }

  lemma {:induction false} FirstUnready(cfg: Config, s: State, k: nat) returns (j: nat)
    requires cfg.Valid() && Sized(cfg, s) && 1 <= k < |cfg.pos| && !Ready(cfg, s, k)
    ensures 1 <= j < |cfg.pos| && !Ready(cfg, s, j) && ReadyBefore(cfg, s, cfg.pos[j])
    decreases cfg.pos[k]
  {
    j := k;
    if i :| 1 <= i < |cfg.pos| && cfg.pos[i] < cfg.pos[k] && !Ready(cfg, s, i) {
      j := FirstUnready(cfg, s, i);
    }
  }

  // ---------------------------------------------------------------- an unending schedule

  /** What the boot PE does next; between calls it makes another call. */
  function BootStep(s: State): Step {
    match s.boot
    case Idle => Invoke(SOME_CALL)
    case WriteOffArg(_) => BootWritesOffArg
    case InPayload(_, stored) => if stored then BootPayloadReturns else BootStore(0)
    case WriteArg(_, _) => BootWritesArg
    case WritePayload(_, _) => BootWritesPayload
    case Spin(_, _, _) => BootPolls
  }

  /** What PE p does next; the boot PE stands in for one that is off. */
  function NextStep(s: State, p: nat): Step
    requires p < |s.secondaries|
  {
    if p == 0 then BootStep(s) else
    match s.secondaries[p]
    case Off => BootStep(s)
    case Starting => Starts(p)
    case ReadPayload => ReadsPayload(p)
    case ReadArg(_) => ReadsArg(p)
    case Running(_, stored) => if stored then PayloadReturns(p) else Stores(p, 0)
    case Clearing => Clears(p)
    case PoweringOff => TurnsOff(p)
  }

  lemma {:induction false} NextIsEnabled(cfg: Config, s: State, p: nat)
    requires Inv(cfg, s) && p < |cfg.pos|
    ensures Enabled(cfg, s, NextStep(s, p)) && Calm(NextStep(s, p))
    ensures Actor(NextStep(s, p)) == p || (p > 0 && s.secondaries[p].Off?)
  {}

  /** Whose turn it is at moment n when n PEs take turns. */
  function Turn(pes: nat, n: nat): (p: nat)
    requires pes > 0
    ensures p < pes
  {
    if n == 0 then 0 else
    var p := Turn(pes, n - 1);
    if p + 1 == pes then 0 else p + 1
  }

  lemma {:induction false} TurnComes(pes: nat, p: nat, n: nat) returns (m: nat)
    requires p < pes
    ensures n <= m && Turn(pes, m) == p
    decreases if Turn(pes, n) <= p then p - Turn(pes, n) else pes + p - Turn(pes, n)
  {
    if Turn(pes, n) == p {
      m := n;
    } else {
      m := TurnComes(pes, p, n + 1);
    }
  }

  /** The state at moment n when all take turns. */
  ghost function InTurn(cfg: Config, s: State, n: nat): (t: State)
    requires Inv(cfg, s)
    ensures Inv(cfg, t)
  {
    if n == 0 then s else
    var before := InTurn(cfg, s, n - 1);
    var step := NextStep(before, Turn(|cfg.pos|, n - 1));
    NextIsEnabled(cfg, before, Turn(|cfg.pos|, n - 1));
    StepKeepsInv(cfg, before, step);
    Do(cfg, before, step)
  }

  /** From every state there is a fair schedule of calls only. */
  lemma {:induction false} FairScheduleExists(cfg: Config, s: State) returns (states: nat -> State, sched: nat -> Step)
    requires Inv(cfg, s)
    ensures states(0) == s && Unending(cfg, states, sched) && Fair(cfg, states, sched) && CalmFrom(sched, 0)
  {
    states := (n: nat) => InTurn(cfg, s, n);
    sched := (n: nat) => NextStep(InTurn(cfg, s, n), Turn(|cfg.pos|, n));
    forall n: nat
      ensures StepAt(cfg, states, sched, n) && Calm(sched(n))
    {
      NextIsEnabled(cfg, InTurn(cfg, s, n), Turn(|cfg.pos|, n));
      assert states(n + 1) == InTurn(cfg, s, n + 1);
    }
    forall p: nat, n: nat | p < |cfg.pos|
      ensures ActsLater(states, sched, p, n)
    {
      var m := TurnComes(|cfg.pos|, p, n);
      NextIsEnabled(cfg, InTurn(cfg, s, m), p);
      assert Acts(states, sched, p, m);
    }
  }

  lemma {:induction false} NeverIdle(cfg: Config, states: nat -> State, sched: nat -> Step, n: nat)
    requires Unending(cfg, states, sched)
    requires Inv(cfg, states(0)) && states(0).boot.Spin? && states(0).boot.fate == WillHang
    ensures Inv(cfg, states(n)) && states(n).boot == states(0).boot
  {
    if n > 0 {
      NeverIdle(cfg, states, sched, n - 1);
      assert StepAt(cfg, states, sched, n - 1);
      StepKeepsInv(cfg, states(n - 1), sched(n - 1));
    }
  }

  // ---------------------------------------------------------------- the exact condition

  /** No interleaving of calls from here on misses a PE. */
  ghost predicate CallsServed(cfg: Config, s: State) {
    forall steps, t :: IsRun(cfg, s, steps, t) && AllCalm(steps) ==> NoneMissed(cfg, s.rounds, t)
  }

  ghost predicate SomeMomentIdle(states: nat -> State) {
    exists k: nat :: states(k).boot.Idle?
  }

  /** A fair schedule from t on in which only calls are made. */
  ghost predicate FairCallsFrom(cfg: Config, t: State, states: nat -> State, sched: nat -> Step) {
    states(0) == t && Unending(cfg, states, sched) && Fair(cfg, states, sched) && CalmFrom(sched, 0)
  }

  /** Wherever calls lead from here, every fair schedule returns from the call in progress. */
  ghost predicate CallsReturn(cfg: Config, s: State) {
    forall steps, t, states: nat -> State, sched: nat -> Step ::
      IsRun(cfg, s, steps, t) && AllCalm(steps) && FairCallsFrom(cfg, t, states, sched) ==> SomeMomentIdle(states)
  }

  lemma {:induction false} SoundIsLive(cfg: Config, s: State)
    requires Inv(cfg, s) && cfg.AllOwned() && Sound(cfg, s)
    ensures Live(cfg, s)
  {
    if s.boot.Spin? {
      var j := Owner(cfg, s.boot.i);
      assert FitsFate(s.secondaries[j], s.boot.fate, s.mem[s.boot.i].payload != 0);
    }
  }

  lemma {:induction false} ReadyMeansGood(cfg: Config, s: State)
    requires Inv(cfg, s) && cfg.AllOwned() && s.boot.Idle? && AllReady(cfg, s)
    ensures CallsServed(cfg, s) && CallsReturn(cfg, s)
  {
    ReadyIsSound(cfg, s);
    forall steps, t | IsRun(cfg, s, steps, t) && AllCalm(steps)
      ensures NoneMissed(cfg, s.rounds, t)
    {
      SoundCallsComplete(cfg, s, steps, t);
    }
    forall steps, t, states: nat -> State, sched: nat -> Step |
      IsRun(cfg, s, steps, t) && AllCalm(steps) && FairCallsFrom(cfg, t, states, sched)
      ensures SomeMomentIdle(states)
    {
      SoundCallsComplete(cfg, s, steps, t);
      SoundIsLive(cfg, t);
      EveryFairCallReturns(cfg, states, sched, 0);
    }
  }

  /** A hung call hangs under a fair schedule. */
  lemma {:induction false} HungDoesNotReturn(cfg: Config, s: State, steps: seq<Step>, t: State)
    requires IsRun(cfg, s, steps, t) && AllCalm(steps)
    requires Inv(cfg, t) && t.boot.Spin? && t.boot.fate == WillHang
    ensures !CallsReturn(cfg, s)
  {
    var states, sched := FairScheduleExists(cfg, t);
    forall k: nat
      ensures !states(k).boot.Idle?
    {
      NeverIdle(cfg, states, sched, k);
    }
    assert FairCallsFrom(cfg, t, states, sched) && !SomeMomentIdle(states);
  }

  lemma {:induction false} UnreadyMeansBad(cfg: Config, s: State)
    requires Inv(cfg, s) && cfg.AllOwned() && s.boot.Idle? && !AllReady(cfg, s)
    ensures !(CallsServed(cfg, s) && CallsReturn(cfg, s))
  {
    var k :| 1 <= k < |cfg.pos| && !Ready(cfg, s, k);
    var j := FirstUnready(cfg, s, k);
    if s.secondaries[j].Starting? {
      var steps, t := StartingLosesCall(cfg, s, j);
    } else if s.secondaries[j].Off? || GoingOff(s.secondaries[j]) {
      var steps, t := OffHangsCall(cfg, s, j);
      HungDoesNotReturn(cfg, s, steps, t);
    } else {
      assert Polls(s.secondaries[j]);
      var steps, t := OutstandingHangsCall(cfg, s, j);
      HungDoesNotReturn(cfg, s, steps, t);
    }
  }

  /**
    Between calls: the calls that follow are complete in every interleaving, and return under every
    fair schedule, if and only if every secondary polls and none has a power-off outstanding; that
    is, none is off, starting, in PowerOffPe, or about to find it.
   */
  lemma {:induction false} CallsGoodIffReady(cfg: Config, s0: State, before: seq<Step>, s: State)
    requires cfg.Valid() && cfg.AllOwned() && IsInit(cfg, s0) && IsRun(cfg, s0, before, s)
    requires Sized(cfg, s) && s.boot.Idle?
    ensures CallsServed(cfg, s) && CallsReturn(cfg, s) <==> AllReady(cfg, s)
  {
    InitInv(cfg, s0);
    RunKeepsInv(cfg, s0, before, s);
    if AllReady(cfg, s) {
      ReadyMeansGood(cfg, s);
    } else {
      UnreadyMeansBad(cfg, s);
    }
  }

  // ---------------------------------------------------------------- a power cycle and then a call

  lemma {:induction false} MissStays(cfg: Config, s: State, step: Step, p: nat)
    requires Inv(cfg, s) && InCall(s) && Enabled(cfg, s, step) && p < |s.events| && s.events[p] == Missed
    ensures var t := Do(cfg, s, step);
            if t.boot.Idle? then |t.rounds| == |s.rounds| + 1 && !Complete(cfg, t.rounds[|s.rounds|])
            else InCall(t) && t.rounds == s.rounds && p < |t.events| && t.events[p] == Missed
  {}

  /** A call that has missed somebody returns all the same. */
  lemma {:induction false} MissedCallReturns(cfg: Config, s: State, p: nat) returns (steps: seq<Step>, t: State)
    requires Inv(cfg, s) && cfg.AllOwned() && Live(cfg, s) && InCall(s) && p < |s.events| && s.events[p] == Missed
    ensures IsRun(cfg, s, steps, t) && AllCalm(steps) && Asked(steps) == [] && t.boot.Idle?
    ensures |t.rounds| == |s.rounds| + 1 && !Complete(cfg, t.rounds[|s.rounds|])
    decreases Rank(cfg, s)
  {
    HelpfulStep(cfg, s);
    var step := Helpful(cfg, s);
    HelpfulPeAdvances(cfg, s, step);
    StepKeepsLive(cfg, s, step);
    MissStays(cfg, s, step, p);
    var u := Do(cfg, s, step);
    if u.boot.Idle? {
      steps, t := [step], u;
      assert IsRun(cfg, u, steps[1..], u);
    } else {
      var rest;
      rest, t := MissedCallReturns(cfg, u, p);
      steps := [step] + rest;
      CalmThen(step, rest);
    }
  }

  lemma {:induction false} RunKeepsLive(cfg: Config, s: State, steps: seq<Step>, t: State)
    requires Inv(cfg, s) && cfg.AllOwned() && Live(cfg, s) && IsRun(cfg, s, steps, t) && AllCalm(steps)
    ensures Inv(cfg, t) && Live(cfg, t)
    decreases |steps|
  {
    if |steps| > 0 {
      StepKeepsLive(cfg, s, steps[0]);
      assert forall k :: 0 <= k < |steps[1..]| ==> steps[1..][k] == steps[k + 1];
      RunKeepsLive(cfg, Do(cfg, s, steps[0]), steps[1..], t);
    }
  }

  /** pal_pe_poweroff for PE j's slot: nothing waits for the PE. */
  lemma {:induction false} PostPowerOff(cfg: Config, s: State, j: nat) returns (steps: seq<Step>, t: State)
    requires Inv(cfg, s) && cfg.AllOwned() && s.boot.Idle? && AllReady(cfg, s) && 1 <= j < |cfg.pos|
    ensures IsRun(cfg, s, steps, t) && Asked(steps) == [PostsOff(cfg.pos[j])] && Inv(cfg, t) && t.boot.Idle?
    ensures t.secondaries == s.secondaries && t.rounds == s.rounds && t.mem[cfg.pos[j]].payload == POWER_OFF
    ensures forall k :: 1 <= k < |cfg.pos| && k != j ==> Ready(cfg, t, k)
  {
    PolledSlotsAreWritten(cfg, j);
    var p := cfg.pos[j];
    OneStep(cfg, s, PostsOff(p));
    var a := Do(cfg, s, PostsOff(p));
    OneStep(cfg, a, BootWritesOffArg);
    t := Do(cfg, a, BootWritesOffArg);
    RunThen(cfg, s, [PostsOff(p)], a, [BootWritesOffArg], t);
    AskedThen([PostsOff(p)], [BootWritesOffArg]);
    steps := [PostsOff(p)] + [BootWritesOffArg];
    forall k | 1 <= k < |cfg.pos| && k != j
      ensures Ready(cfg, t, k)
    {
      assert Ready(cfg, s, k);
    }
  }

  /** The PE finds PowerOffPe and turns itself off before it is powered on again. */
  lemma {:induction false} CycleToStarting(cfg: Config, s: State, j: nat) returns (steps: seq<Step>, t: State)
    requires Inv(cfg, s) && s.boot.Idle? && 1 <= j < |cfg.pos|
    requires Polls(s.secondaries[j]) && s.mem[cfg.pos[j]].payload == POWER_OFF
    ensures IsRun(cfg, s, steps, t) && Asked(steps) == [PowersOn(j)] && Inv(cfg, t)
    ensures t == s.(secondaries := s.secondaries[j := Starting])
  {
    var first, a := FindsPowerOff(cfg, s, j);
    OneStep(cfg, a, ReadsArg(j));
    var b := Do(cfg, a, ReadsArg(j));
    OneStep(cfg, b, TurnsOff(j));
    var c := Do(cfg, b, TurnsOff(j));
    OneStep(cfg, c, PowersOn(j));
    t := Do(cfg, c, PowersOn(j));
    var rest := ThreeSteps(cfg, a, ReadsArg(j), b, TurnsOff(j), c, PowersOn(j), t);
    RunThen(cfg, s, first, a, rest, t);
    AskedThen(first, rest);
    steps := first + rest;
  }

  /** One PE starting, the others ready. */
  ghost predicate OnlyStarting(cfg: Config, s: State, j: nat)
    requires |cfg.pos| == |s.secondaries|
  {
    forall k :: 1 <= k < |cfg.pos| ==> if k == j then s.secondaries[k].Starting? else Ready(cfg, s, k)
  }

  lemma {:induction false} OnlyStartingIsLive(cfg: Config, s: State, j: nat)
    requires Inv(cfg, s) && s.boot.Idle? && OnlyStarting(cfg, s, j)
    ensures Live(cfg, s)
  {
    forall k | 1 <= k < |cfg.pos|
      ensures !s.secondaries[k].Off? && !GoingOff(s.secondaries[k])
      ensures Polls(s.secondaries[k]) ==> s.mem[cfg.pos[k]].payload != POWER_OFF
    {
      assert k != j ==> Ready(cfg, s, k);
    }
  }

  lemma {:induction false} PowerCycle(cfg: Config, s: State, j: nat) returns (steps: seq<Step>, t: State)
    requires Inv(cfg, s) && cfg.AllOwned() && s.boot.Idle? && AllReady(cfg, s) && 1 <= j < |cfg.pos|
    ensures IsRun(cfg, s, steps, t) && Asked(steps) == [PostsOff(cfg.pos[j]), PowersOn(j)]
    ensures Inv(cfg, t) && t.boot.Idle? && t.rounds == s.rounds && OnlyStarting(cfg, t, j)
  {
    var post, a := PostPowerOff(cfg, s, j);
    assert Ready(cfg, s, j);
    var cycle;
    cycle, t := CycleToStarting(cfg, a, j);
    forall k | 1 <= k < |cfg.pos| && k != j
      ensures Ready(cfg, t, k)
    {
      assert Ready(cfg, a, k);
    }
    RunThen(cfg, s, post, a, cycle, t);
    AskedThen(post, cycle);
    steps := post + cycle;
  }

  /** With one PE starting, a call returns that has not run there. */
  lemma {:induction false} LostCallReturns(cfg: Config, s: State, j: nat) returns (steps: seq<Step>, t: State)
    requires Inv(cfg, s) && cfg.AllOwned() && s.boot.Idle? && 1 <= j < |cfg.pos| && OnlyStarting(cfg, s, j)
    ensures IsRun(cfg, s, steps, t) && Asked(steps) == [Invoke(SOME_CALL)]
    ensures t.boot.Idle? && |t.rounds| == |s.rounds| + 1 && !Complete(cfg, t.rounds[|s.rounds|])
  {
    steps, t := StartingLosesCall(cfg, s, j);
    if !t.boot.Idle? {
      OnlyStartingIsLive(cfg, s, j);
      RunKeepsLive(cfg, s, steps, t);
      var rest, u := MissedCallReturns(cfg, t, cfg.pos[j]);
      RunThen(cfg, s, steps, t, rest, u);
      AskedThen(steps, rest);
      steps, t := steps + rest, u;
    }
  }

  /**
    Power-off, power-on and a call in a row, with every PE ready before: if the PE is off by the
    time it is powered on, its start-up store can erase the call, which returns without having run
    there.
   */
  lemma {:induction false} PowerCycleLosesCall(cfg: Config, s: State, j: nat) returns (steps: seq<Step>, t: State)
    requires Inv(cfg, s) && cfg.AllOwned() && s.boot.Idle? && AllReady(cfg, s) && 1 <= j < |cfg.pos|
    ensures IsRun(cfg, s, steps, t) && Asked(steps) == [PostsOff(cfg.pos[j]), PowersOn(j), Invoke(SOME_CALL)]
    ensures t.boot.Idle? && |t.rounds| == |s.rounds| + 1 && !Complete(cfg, t.rounds[|s.rounds|])
  {
    var cycle, a := PowerCycle(cfg, s, j);
    var call;
    call, t := LostCallReturns(cfg, a, j);
    RunThen(cfg, s, cycle, a, call, t);
    AskedThen(cycle, call);
    steps := cycle + call;
  }

  /** CPU_ON comes before the PE has found PowerOffPe: it has no effect. */
  lemma {:induction false} IgnoredPowerOn(cfg: Config, s: State, j: nat) returns (steps: seq<Step>, t: State)
    requires Inv(cfg, s) && cfg.AllOwned() && s.boot.Idle? && AllReady(cfg, s) && 1 <= j < |cfg.pos|
    ensures IsRun(cfg, s, steps, t) && Asked(steps) == [PostsOff(cfg.pos[j]), PowersOn(j)]
    ensures Inv(cfg, t) && t.boot.Idle? && Polls(t.secondaries[j]) && t.mem[cfg.pos[j]].payload == POWER_OFF
    ensures forall k :: 1 <= k < |cfg.pos| && k != j ==> Ready(cfg, t, k)
  {
    var post;
    post, t := PostPowerOff(cfg, s, j);
    assert Ready(cfg, s, j);
    OneStep(cfg, t, PowersOn(j));
    assert Do(cfg, t, PowersOn(j)) == t;
    RunThen(cfg, s, post, t, [PowersOn(j)], t);
    AskedThen(post, [PowersOn(j)]);
    steps := post + [PowersOn(j)];
  }

  /** A PE with PowerOffPe in its mailbox, the others ready: a call can hang. */
  lemma {:induction false} OutstandingHangsCall(cfg: Config, s: State, j: nat) returns (steps: seq<Step>, t: State)
    requires Inv(cfg, s) && cfg.AllOwned() && s.boot.Idle? && 1 <= j < |cfg.pos|
    requires Polls(s.secondaries[j]) && s.mem[cfg.pos[j]].payload == POWER_OFF && ReadyBefore(cfg, s, cfg.pos[j])
    ensures IsRun(cfg, s, steps, t) && AllCalm(steps) && Asked(steps) == [Invoke(SOME_CALL)]
    ensures Inv(cfg, t) && t.boot.Spin? && t.boot.fate == WillHang
  {
    var found, u := FindsPowerOff(cfg, s, j);
    forall k | 1 <= k < |cfg.pos| && cfg.pos[k] < cfg.pos[j]
      ensures Ready(cfg, u, k)
    {
      assert Ready(cfg, s, k);
    }
    var call;
    call, t := OffHangsCall(cfg, u, j);
    RunThen(cfg, s, found, u, call, t);
    AskedThen(found, call);
    steps := found + call;
  }

  /**
    If it is not off yet, CPU_ON has no effect; the PE can find PowerOffPe afterwards, and the call
    then hangs for ever.
   */
  lemma {:induction false} PowerCycleHangs(cfg: Config, s: State, j: nat) returns (steps: seq<Step>, t: State)
    requires Inv(cfg, s) && cfg.AllOwned() && s.boot.Idle? && AllReady(cfg, s) && 1 <= j < |cfg.pos|
    ensures IsRun(cfg, s, steps, t) && Asked(steps) == [PostsOff(cfg.pos[j]), PowersOn(j), Invoke(SOME_CALL)]
    ensures Inv(cfg, t) && t.boot.Spin? && t.boot.fate == WillHang
    ensures forall rest, u :: IsRun(cfg, t, rest, u) ==> u.boot == t.boot
  {
    var cycle, a := IgnoredPowerOn(cfg, s, j);
    var call;
    call, t := OutstandingHangsCall(cfg, a, j);
    RunThen(cfg, s, cycle, a, call, t);
    AskedThen(cycle, call);
    steps := cycle + call;
    forall rest, u | IsRun(cfg, t, rest, u)
      ensures u.boot == t.boot
    {
      HangsForEver(cfg, t, rest, u);
    }
  }
}
