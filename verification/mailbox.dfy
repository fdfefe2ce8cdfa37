/**
  The cross-PE call of the SDEI platform layer as a protocol over shared memory.

  The boot PE posts a payload and its argument in one two-word mailbox after another and spins
  until each has been zeroed; every secondary PE polls the mailbox of its own slot.  Each step is
  one access to shared memory, or one step inside a payload, by one PE; the PEs interleave freely
  and memory is sequentially consistent.

  Neither CPU_ON nor the posting of PowerOffPe waits.  A secondary that has not yet run its
  start-up code will still zero its mailbox once, whatever the mailbox then holds; one that finds
  PowerOffPe turns itself off and leaves the mailbox as it is.
 */
module Mailbox {
  import opened Counting
  import opened SdeiStatus

  const POWER_OFF: nat := 1    // stands for the address of PowerOffPe

  /** What pal_pe_execute_on_all is asked to run; a code address is not zero. */
  datatype Call = Call(payload: nat, arg: nat)

  datatype Slot = Slot(payload: nat, arg: nat)

  /** What came of one mailbox: a payload that ran on a PE and left a status code, or nothing. */
  datatype Event = Ran(pe: nat, call: Call, code: Code) | Missed

  /** A returned call together with what came of each mailbox, in order. */
  datatype Round = Round(call: Call, events: seq<Event>)

  /** Start-up, CEntryPoint and PowerOffPe: where a secondary PE is. */
  datatype Secondary =
    | Off
    | Starting              // powered on, about to zero its mailbox
    | ReadPayload
    | ReadArg(resAddr: nat)
    | Running(call: Call, stored: bool)
    | Clearing
    | PoweringOff           // inside PowerOffPe

  /** What a post will come to, as the PE that polls the slot was when it was made. */
  datatype Fate = WillRun | WillMiss | WillHang

  /** pal_pe_execute_on_all and pal_pe_poweroff: where the boot PE is. */
  datatype Boot =
    | Idle
    | WriteOffArg(slot: nat)
    | InPayload(call: Call, stored: bool)
    | WriteArg(call: Call, i: nat)
    | WritePayload(call: Call, i: nat)
    | Spin(call: Call, i: nat, fate: Fate)

  /**
    pos[j] is the slot that PE j polls.  PE 0 is the boot PE, which polls none; slots is the size
    of the mailbox area.
   */
  datatype Config = Config(pos: seq<nat>, slots: nat) {
    ghost predicate Valid() {
      1 <= |pos| <= slots &&
      (forall j :: 1 <= j < |pos| ==> pos[j] < slots) &&
      (forall j, k :: 1 <= j < k < |pos| ==> pos[j] != pos[k])
    }

    /** Some secondary PE polls the slot. */
    ghost predicate Owned(slot: nat) {
      exists j :: 1 <= j < |pos| && pos[j] == slot
    }

    ghost predicate AllOwned() {
      forall slot :: 1 <= slot < |pos| ==> Owned(slot)
    }

    /** Every secondary PE polls the slot of its table index. */
    ghost predicate Identity() {
      forall j :: 1 <= j < |pos| ==> pos[j] == j
    }
  }

  datatype State = State(
    mem: seq<Slot>,
    boot: Boot,
    secondaries: seq<Secondary>,   // entry 0 is unused
    status: seq<Code>,             // the per-PE status words
    events: seq<Event>,            // what came of the current call so far
    rounds: seq<Round>             // calls that have returned
  )

  datatype Step =
    | Invoke(call: Call)
    | BootStore(code: Code)
    | BootPayloadReturns
    | BootWritesArg
    | BootWritesPayload
    | BootPolls
    | ReadsPayload(j: nat)
    | ReadsArg(j: nat)
    | Stores(j: nat, code: Code)
    | PayloadReturns(j: nat)
    | Clears(j: nat)
    | Starts(j: nat)
    | PostsOff(slot: nat)
    | BootWritesOffArg
    | PowersOn(j: nat)
    | TurnsOff(j: nat)

  /** Some PE that polls the slot has not yet run its start-up code. */
  ghost predicate OwnerStarting(cfg: Config, s: State, slot: nat)
    requires |s.secondaries| == |cfg.pos|
  {
    exists j :: 1 <= j < |cfg.pos| && cfg.pos[j] == slot && s.secondaries[j].Starting?
  }

  /** In the polling loop with nothing in hand. */
  predicate Polls(pc: Secondary) {
    pc.ReadPayload? || (pc.ReadArg? && pc.resAddr == 0)
  }

  /** Has found PowerOffPe. */
  predicate GoingOff(pc: Secondary) {
    pc.PoweringOff? || (pc.ReadArg? && pc.resAddr == POWER_OFF)
  }

  ghost predicate OwnerPolls(cfg: Config, s: State, slot: nat)
    requires |s.secondaries| == |cfg.pos|
  {
    exists j :: 1 <= j < |cfg.pos| && cfg.pos[j] == slot && Polls(s.secondaries[j])
  }

  ghost function FateOf(cfg: Config, s: State, slot: nat): Fate
    requires |s.secondaries| == |cfg.pos|
  {
    if OwnerStarting(cfg, s, slot) then WillMiss else if OwnerPolls(cfg, s, slot) then WillRun else WillHang
  }

  /**
    The pool is not cleared when it is allocated: the mailbox of a PE that has not started, or of
    no PE, may hold anything.
   */
  predicate IsInit(cfg: Config, s: State) {
    |s.mem| == cfg.slots && |s.secondaries| == |cfg.pos| && |s.status| == |cfg.pos| &&
    s.boot == Idle && s.events == [] && s.rounds == [] &&
    forall j :: 1 <= j < |cfg.pos| ==>
                  s.secondaries[j].Starting? ||
                  (s.secondaries[j].ReadPayload? && cfg.pos[j] < |s.mem| && s.mem[cfg.pos[j]].payload == 0)
  }

  predicate Sized(cfg: Config, s: State) {
    |s.mem| == cfg.slots && |s.secondaries| == |cfg.pos| == |s.status| &&
    (s.boot.WriteArg? || s.boot.WritePayload? || s.boot.Spin? ==> 1 <= s.boot.i < |cfg.pos|) &&
    (s.boot.WriteOffArg? ==> 1 <= s.boot.slot < |cfg.pos|)
  }

  /** The loop header of pal_pe_execute_on_all: the next mailbox, or the end of the call. */
  function LoopHead(cfg: Config, s: State, call: Call, i: nat): State {
    if i < |cfg.pos| then s.(boot := WriteArg(call, i))
    else s.(boot := Idle, events := [], rounds := s.rounds + [Round(call, s.events)])
  }

  /** What is on record when the boot PE goes on to the next mailbox: nothing may have run. */
  function Recorded(s: State, i: nat): seq<Event> {
    if |s.events| == i then s.events + [Missed] else s.events
  }

  predicate Enabled(cfg: Config, s: State, step: Step)
    requires cfg.Valid() && Sized(cfg, s)
  {
    match step
    case Invoke(call) => s.boot.Idle? && call.payload != 0 && call.payload != POWER_OFF
    case BootStore(_) => s.boot.InPayload? && !s.boot.stored
    case BootPayloadReturns => s.boot.InPayload? && s.boot.stored
    case BootWritesArg => s.boot.WriteArg?
    case BootWritesPayload => s.boot.WritePayload?
    case BootPolls => s.boot.Spin?
    case ReadsPayload(j) => 1 <= j < |cfg.pos| && s.secondaries[j].ReadPayload?
    case ReadsArg(j) => 1 <= j < |cfg.pos| && s.secondaries[j].ReadArg?
    case Stores(j, _) => 1 <= j < |cfg.pos| && s.secondaries[j].Running? && !s.secondaries[j].stored
    case PayloadReturns(j) =>
      1 <= j < |cfg.pos| && s.secondaries[j].Running? && s.secondaries[j].stored
    case Clears(j) => 1 <= j < |cfg.pos| && s.secondaries[j].Clearing?
    case Starts(j) => 1 <= j < |cfg.pos| && s.secondaries[j].Starting?
    case PostsOff(slot) => s.boot.Idle? && 1 <= slot < |cfg.pos|
    case BootWritesOffArg => s.boot.WriteOffArg?
    case PowersOn(j) => s.boot.Idle? && 1 <= j < |cfg.pos|
    case TurnsOff(j) => 1 <= j < |cfg.pos| && s.secondaries[j].PoweringOff?
  }

  function Goto(s: State, j: nat, pc: Secondary): State
    requires j < |s.secondaries|
  {
    s.(secondaries := s.secondaries[j := pc])
  }

  ghost function Do(cfg: Config, s: State, step: Step): State
    requires cfg.Valid() && Sized(cfg, s) && Enabled(cfg, s, step)
  {
    match step
    case Invoke(call) => s.(boot := InPayload(call, false), events := [])
    case BootStore(code) =>
      s.(boot := InPayload(s.boot.call, true), status := s.status[0 := code],
      events := s.events + [Ran(0, s.boot.call, code)])
    case BootPayloadReturns => LoopHead(cfg, s, s.boot.call, 1)
    case BootWritesArg =>
      s.(mem := s.mem[s.boot.i := s.mem[s.boot.i].(arg := s.boot.call.arg)],
      boot := WritePayload(s.boot.call, s.boot.i))
    case BootWritesPayload =>
      s.(mem := s.mem[s.boot.i := s.mem[s.boot.i].(payload := s.boot.call.payload)],
      boot := Spin(s.boot.call, s.boot.i, FateOf(cfg, s, s.boot.i)))
    case BootPolls =>
      if s.mem[s.boot.i].payload == 0
      then LoopHead(cfg, s.(events := Recorded(s, s.boot.i)), s.boot.call, s.boot.i + 1)
      else s
    case ReadsPayload(j) => Goto(s, j, ReadArg(s.mem[cfg.pos[j]].payload))
    case ReadsArg(j) =>
      var resAddr := s.secondaries[j].resAddr;
      if resAddr == 0 then Goto(s, j, ReadPayload)
      else if resAddr == POWER_OFF then Goto(s, j, PoweringOff)
      else Goto(s, j, Running(Call(resAddr, s.mem[cfg.pos[j]].arg), false))
    case Stores(j, code) =>
      var call := s.secondaries[j].call;
      Goto(s, j, Running(call, true)).(status := s.status[j := code],
      events := s.events + [Ran(j, call, code)])
    case PayloadReturns(j) => Goto(s, j, Clearing)
    case Clears(j) =>
      var p := cfg.pos[j];
      Goto(s, j, ReadPayload).(mem := s.mem[p := s.mem[p].(payload := 0)])
    case Starts(j) =>
      var p := cfg.pos[j];
      Goto(s, j, ReadPayload).(mem := s.mem[p := s.mem[p].(payload := 0)])
    case PostsOff(slot) =>
      s.(mem := s.mem[slot := s.mem[slot].(payload := POWER_OFF)], boot := WriteOffArg(slot))
    case BootWritesOffArg =>
      s.(mem := s.mem[s.boot.slot := s.mem[s.boot.slot].(arg := 0)], boot := Idle)
    case PowersOn(j) => if s.secondaries[j].Off? then Goto(s, j, Starting) else s
    case TurnsOff(j) => Goto(s, j, Off)
  }

  // ---------------------------------------------------------------- what every step keeps

  /** In slot order: boot PE first, then for slots 1, 2, 3 and so on the owner's run, or a miss. */
  ghost predicate InOrder(cfg: Config, call: Call, events: seq<Event>) {
    forall m :: 0 <= m < |events| ==>
                  match events[m]
                  case Ran(pe, what, _) =>
                    what == call && if m == 0 then pe == 0 else 1 <= pe < |cfg.pos| && cfg.pos[pe] == m
                  case Missed => m > 0 && cfg.Owned(m)
  }

  /** What every returned call leaves on record. */
  ghost predicate Closed(cfg: Config, round: Round) {
    |round.events| == |cfg.pos| && InOrder(cfg, round.call, round.events)
  }

  /** And nobody missed it. */
  ghost predicate Complete(cfg: Config, round: Round) {
    Closed(cfg, round) && forall m :: 0 <= m < |round.events| ==> round.events[m].Ran?
  }

  /** The secondary has seen the payload of a call and not yet zeroed the mailbox. */
  predicate Active(pc: Secondary) {
    match pc
    case ReadArg(resAddr) => resAddr != 0 && resAddr != POWER_OFF
    case Running(_, _) => true
    case Clearing => true
    case _ => false
  }

  predicate Finished(pc: Secondary) {
    pc.Clearing? || (pc.Running? && pc.stored)
  }

  /** A polling PE's mailbox holds nothing but the call in progress or an unserved PowerOffPe. */
  ghost predicate MailboxesInv(cfg: Config, s: State)
    requires cfg.Valid() && Sized(cfg, s)
  {
    (forall j :: 1 <= j < |cfg.pos| && Polls(s.secondaries[j]) && s.mem[cfg.pos[j]].payload != 0 ==>
                   s.mem[cfg.pos[j]].payload == POWER_OFF || (s.boot.Spin? && cfg.pos[j] == s.boot.i)) &&
    (s.boot.WritePayload? || s.boot.Spin? ==> s.mem[s.boot.i].arg == s.boot.call.arg) &&
    (!s.boot.Idle? && !s.boot.WriteOffArg? ==> s.boot.call.payload != 0 && s.boot.call.payload != POWER_OFF)
  }

  /** Where the PE that polls the slot can be, by what the post will come to. */
  predicate FitsFate(pc: Secondary, fate: Fate, posted: bool) {
    match fate
    case WillRun => Polls(pc) || (Active(pc) && posted)
    case WillMiss => if posted then pc.Starting? else Polls(pc)
    case WillHang => pc.Off? || GoingOff(pc)
  }

  /** While the boot PE spins: its own payload or zero, and what the post met. */
  ghost predicate SpinInv(cfg: Config, s: State)
    requires cfg.Valid() && Sized(cfg, s)
  {
    s.boot.Spin? ==>
      (s.mem[s.boot.i].payload == 0 || s.mem[s.boot.i].payload == s.boot.call.payload) &&
      (if s.boot.fate == WillHang then s.mem[s.boot.i].payload != 0 else cfg.Owned(s.boot.i)) &&
      forall j :: 1 <= j < |cfg.pos| && cfg.pos[j] == s.boot.i ==>
                    FitsFate(s.secondaries[j], s.boot.fate, s.mem[s.boot.i].payload != 0)
  }

  ghost predicate SecondariesInv(cfg: Config, s: State)
    requires cfg.Valid() && Sized(cfg, s)
  {
    forall j :: 1 <= j < |cfg.pos| && Active(s.secondaries[j]) ==>
                  s.boot.Spin? && s.boot.fate == WillRun && cfg.pos[j] == s.boot.i && s.mem[s.boot.i].payload != 0 &&
                  (s.secondaries[j].ReadArg? ==> s.secondaries[j].resAddr == s.boot.call.payload) &&
                  (s.secondaries[j].Running? ==> s.secondaries[j].call == s.boot.call)
  }

  /** The owner of the mailbox being served has finished its payload. */
  ghost predicate Served(cfg: Config, s: State)
    requires cfg.Valid() && Sized(cfg, s) && s.boot.Spin?
  {
    s.mem[s.boot.i].payload == 0 ||
    exists j :: 1 <= j < |cfg.pos| && cfg.pos[j] == s.boot.i && Finished(s.secondaries[j])
  }

  ghost function EventCount(cfg: Config, s: State): nat
    requires cfg.Valid() && Sized(cfg, s)
  {
    match s.boot
    case Idle => 0
    case WriteOffArg(_) => 0
    case InPayload(_, stored) => if stored then 1 else 0
    case WriteArg(_, i) => i
    case WritePayload(_, i) => i
    case Spin(_, i, fate) => if fate == WillRun && Served(cfg, s) then i + 1 else i
  }

  ghost predicate StatusMatches(s: State, events: seq<Event>) {
    forall m :: 0 <= m < |events| && events[m].Ran? ==>
                  events[m].pe < |s.status| && s.status[events[m].pe] == events[m].code
  }

  ghost predicate EventsInv(cfg: Config, s: State)
    requires cfg.Valid() && Sized(cfg, s)
  {
    |s.events| == EventCount(cfg, s) &&
    (s.boot.Spin? && |s.events| > s.boot.i ==> s.events[s.boot.i].Ran?) &&
    (!s.boot.Idle? && !s.boot.WriteOffArg? ==> InOrder(cfg, s.boot.call, s.events)) &&
    StatusMatches(s, s.events) &&
    (forall r :: 0 <= r < |s.rounds| ==> Closed(cfg, s.rounds[r]))
  }

  ghost predicate Inv(cfg: Config, s: State) {
    cfg.Valid() && Sized(cfg, s) &&
    MailboxesInv(cfg, s) && SpinInv(cfg, s) && SecondariesInv(cfg, s) && EventsInv(cfg, s)
  }

  lemma {:induction false} InitInv(cfg: Config, s: State)
    requires cfg.Valid() && IsInit(cfg, s)
    ensures Inv(cfg, s)
  {}

  /** The steps that a secondary PE takes. */
  predicate BySecondary(step: Step) {
    step.ReadsPayload? || step.ReadsArg? || step.Stores? || step.PayloadReturns? || step.Clears? ||
    step.Starts? || step.TurnsOff?
  }

  lemma {:induction false} BootPollKeepsInv(cfg: Config, s: State)
    requires Inv(cfg, s) && Enabled(cfg, s, BootPolls)
    ensures Inv(cfg, Do(cfg, s, BootPolls))
  {}

  predicate IsPower(step: Step) {
    step.PostsOff? || step.BootWritesOffArg? || step.PowersOn?
  }

  lemma {:induction false} PowerStepKeepsInv(cfg: Config, s: State, step: Step)
    requires Inv(cfg, s) && Enabled(cfg, s, step) && IsPower(step)
    ensures Inv(cfg, Do(cfg, s, step))
  {}

  lemma {:induction false} BootOtherKeepsInv(cfg: Config, s: State, step: Step)
    requires Inv(cfg, s) && Enabled(cfg, s, step) && !BySecondary(step) && step != BootPolls && !IsPower(step)
    ensures Inv(cfg, Do(cfg, s, step))
  {}

  lemma {:induction false} BootStepKeepsInv(cfg: Config, s: State, step: Step)
    requires Inv(cfg, s) && Enabled(cfg, s, step) && !BySecondary(step)
    ensures Inv(cfg, Do(cfg, s, step))
  {
    if step == BootPolls {
      BootPollKeepsInv(cfg, s);
    } else if IsPower(step) {
      PowerStepKeepsInv(cfg, s, step);
    } else {
      BootOtherKeepsInv(cfg, s, step);
    }
  }

  lemma {:induction false} SecondaryKeepsMailboxes(cfg: Config, s: State, step: Step)
    requires Inv(cfg, s) && Enabled(cfg, s, step) && BySecondary(step)
    ensures var t := Do(cfg, s, step); Sized(cfg, t) && MailboxesInv(cfg, t)
  {}

  /** The two stores that zero a mailbox. */
  lemma {:induction false} ZeroingKeepsSpin(cfg: Config, s: State, step: Step)
    requires Inv(cfg, s) && Enabled(cfg, s, step) && (step.Clears? || step.Starts?)
    ensures var t := Do(cfg, s, step); Sized(cfg, t) && SpinInv(cfg, t)
  {}

  lemma {:induction false} OthersKeepSpin(cfg: Config, s: State, step: Step)
    requires Inv(cfg, s) && Enabled(cfg, s, step) && BySecondary(step) && !step.Clears? && !step.Starts?
    ensures var t := Do(cfg, s, step); Sized(cfg, t) && SpinInv(cfg, t)
  {}

  lemma {:induction false} SecondaryKeepsSecondaries(cfg: Config, s: State, step: Step)
    requires Inv(cfg, s) && Enabled(cfg, s, step) && BySecondary(step)
    ensures var t := Do(cfg, s, step); Sized(cfg, t) && SecondariesInv(cfg, t)
  {}

  /** A start-up store ends no payload run: what is on record stays as it is. */
  lemma {:induction false} StartKeepsEvents(cfg: Config, s: State, j: nat)
    requires Inv(cfg, s) && Enabled(cfg, s, Starts(j))
    ensures var t := Do(cfg, s, Starts(j)); Sized(cfg, t) && EventsInv(cfg, t)
  {}

  /** A finished payload goes on record, and its code is in the status word. */
  lemma {:induction false} StoreKeepsEvents(cfg: Config, s: State, j: nat, code: Code)
    requires Inv(cfg, s) && Enabled(cfg, s, Stores(j, code))
    ensures var t := Do(cfg, s, Stores(j, code)); Sized(cfg, t) && EventsInv(cfg, t)
  {}

  lemma {:induction false} ReturnKeepsEvents(cfg: Config, s: State, step: Step)
    requires Inv(cfg, s) && Enabled(cfg, s, step) && (step.PayloadReturns? || step.Clears?)
    ensures var t := Do(cfg, s, step); Sized(cfg, t) && EventsInv(cfg, t)
  {}

  lemma {:induction false} LoadKeepsEvents(cfg: Config, s: State, step: Step)
    requires Inv(cfg, s) && Enabled(cfg, s, step) && (step.ReadsPayload? || step.ReadsArg?)
    ensures var t := Do(cfg, s, step); Sized(cfg, t) && EventsInv(cfg, t)
  {}

  lemma {:induction false} OffKeepsEvents(cfg: Config, s: State, j: nat)
    requires Inv(cfg, s) && Enabled(cfg, s, TurnsOff(j))
    ensures var t := Do(cfg, s, TurnsOff(j)); Sized(cfg, t) && EventsInv(cfg, t)
  {}

  lemma {:induction false} SecondaryStepKeepsInv(cfg: Config, s: State, step: Step)
    requires Inv(cfg, s) && Enabled(cfg, s, step) && BySecondary(step)
    ensures Inv(cfg, Do(cfg, s, step))
  {
    SecondaryKeepsMailboxes(cfg, s, step);
    if step.Clears? || step.Starts? {
      ZeroingKeepsSpin(cfg, s, step);
    } else {
      OthersKeepSpin(cfg, s, step);
    }
    SecondaryKeepsSecondaries(cfg, s, step);
    if step.Starts? {
      StartKeepsEvents(cfg, s, step.j);
    } else if step.Stores? {
      StoreKeepsEvents(cfg, s, step.j, step.code);
    } else if step.PayloadReturns? || step.Clears? {
      ReturnKeepsEvents(cfg, s, step);
    } else if step.TurnsOff? {
      OffKeepsEvents(cfg, s, step.j);
    } else {
      LoadKeepsEvents(cfg, s, step);
    }
  }

  lemma {:induction false} StepKeepsInv(cfg: Config, s: State, step: Step)
    requires Inv(cfg, s) && Enabled(cfg, s, step)
    ensures Inv(cfg, Do(cfg, s, step))
  {
    if BySecondary(step) {
      SecondaryStepKeepsInv(cfg, s, step);
    } else {
      BootStepKeepsInv(cfg, s, step);
    }
  }

  /** When the boot PE sees zero in a slot it posted in time, the last thing on record ran there. */
  lemma {:induction false} LastRan(cfg: Config, s: State)
    requires Inv(cfg, s) && s.boot.Spin? && s.boot.fate == WillRun && s.mem[s.boot.i].payload == 0
    ensures |s.events| == s.boot.i + 1 && s.events[s.boot.i].Ran?
  {}

  // ---------------------------------------------------------------- all interleavings

  /** s' is reached from s by performing the steps in the given order. */
  ghost predicate IsRun(cfg: Config, s: State, steps: seq<Step>, s': State)
    decreases |steps|
  {
    if |steps| == 0 then s == s' else
    cfg.Valid() && Sized(cfg, s) && Enabled(cfg, s, steps[0]) &&
    IsRun(cfg, Do(cfg, s, steps[0]), steps[1..], s')
  }

  lemma {:induction false} RunKeepsInv(cfg: Config, s: State, steps: seq<Step>, s': State)
    requires Inv(cfg, s) && IsRun(cfg, s, steps, s')
    ensures Inv(cfg, s')
    decreases |steps|
  {
    if |steps| > 0 {
      StepKeepsInv(cfg, s, steps[0]);
      RunKeepsInv(cfg, Do(cfg, s, steps[0]), steps[1..], s');
    }
  }

  // ---------------------------------------------------------------- what was asked for, and what ran

  /** The calls that the boot PE is asked for, in order. */
  function Invoked(steps: seq<Step>): (calls: seq<Call>) {
    if |steps| == 0 then [] else
    (if steps[0].Invoke? then [steps[0].call] else []) + Invoked(steps[1..])
  }

  function CallsOf(rounds: seq<Round>): (calls: seq<Call>)
    ensures |calls| == |rounds| && forall r :: 0 <= r < |rounds| ==> calls[r] == rounds[r].call
  {
    seq(|rounds|, r requires 0 <= r < |rounds| => rounds[r].call)
  }

  /** The calls that have returned, and then the one in progress. */
  function Begun(s: State): seq<Call> {
    CallsOf(s.rounds) + if s.boot.Idle? || s.boot.WriteOffArg? then [] else [s.boot.call]
  }

  lemma {:induction false} Regroup<T>(a: seq<T>, b: seq<T>, c: seq<T>)
    ensures (a + b) + c == a + (b + c)
  {}

  lemma {:induction false} StepBegins(cfg: Config, s: State, step: Step, t: State)
    requires cfg.Valid() && Sized(cfg, s) && Enabled(cfg, s, step) && t == Do(cfg, s, step)
    ensures Begun(t) == Begun(s) + if step.Invoke? then [step.call] else []
  {
    if |t.rounds| > |s.rounds| {
      assert CallsOf(t.rounds) == CallsOf(s.rounds) + [s.boot.call];
    }
  }

  lemma {:induction false} RunBegins(cfg: Config, s: State, steps: seq<Step>, t: State)
    requires IsRun(cfg, s, steps, t)
    ensures Begun(t) == Begun(s) + Invoked(steps)
    decreases |steps|
  {
    if |steps| > 0 {
      var u := Do(cfg, s, steps[0]);
      StepBegins(cfg, s, steps[0], u);
      RunBegins(cfg, u, steps[1..], t);
      Regroup(Begun(s), if steps[0].Invoke? then [steps[0].call] else [], Invoked(steps[1..]));
    }
  }

  /** The status code that a payload stores in this step, with the PE that stores it. */
  function Stored(step: Step): (stores: seq<(nat, Code)>) {
    match step
    case BootStore(code) => [(0, code)]
    case Stores(j, code) => [(j, code)]
    case _ => []
  }

  function StoredBy(steps: seq<Step>): (stores: seq<(nat, Code)>) {
    if |steps| == 0 then [] else Stored(steps[0]) + StoredBy(steps[1..])
  }

  function RunsIn(events: seq<Event>): (runs: seq<(nat, Code)>) {
    if |events| == 0 then [] else
    var last := events[|events| - 1];
    RunsIn(events[..|events| - 1]) + if last.Ran? then [(last.pe, last.code)] else []
  }

  function RunsInAll(rounds: seq<Round>): (runs: seq<(nat, Code)>) {
    if |rounds| == 0 then [] else RunsInAll(rounds[..|rounds| - 1]) + RunsIn(rounds[|rounds| - 1].events)
  }

  /** Every payload run on record: those of the calls that have returned, then those of the current one. */
  function AllRuns(s: State): seq<(nat, Code)> {
    RunsInAll(s.rounds) + RunsIn(s.events)
  }

  lemma {:induction false} OneEventMore(events: seq<Event>, event: Event)
    ensures RunsIn(events + [event]) == RunsIn(events) + if event.Ran? then [(event.pe, event.code)] else []
  {
    assert (events + [event])[..|events|] == events;
  }

  lemma {:induction false} RoundCloses(rounds: seq<Round>, call: Call, events: seq<Event>)
    ensures RunsInAll(rounds + [Round(call, events)]) + RunsIn([]) == RunsInAll(rounds) + RunsIn(events)
  {
    assert (rounds + [Round(call, events)])[..|rounds|] == rounds;
  }

  lemma {:induction false} EventReports(s: State, t: State, event: Event)
    requires t.rounds == s.rounds && t.events == s.events + [event]
    ensures AllRuns(t) == AllRuns(s) + if event.Ran? then [(event.pe, event.code)] else []
  {
    OneEventMore(s.events, event);
  }

  lemma {:induction false} RoundReports(s: State, t: State, call: Call)
    requires t.rounds == s.rounds + [Round(call, s.events)] && t.events == []
    ensures AllRuns(t) == AllRuns(s)
  {
    RoundCloses(s.rounds, call, s.events);
  }

  /** The event that a payload's store puts on record. */
  function EventOf(s: State, step: Step): (event: Event)
    requires if step.BootStore? then s.boot.InPayload?
             else step.Stores? && step.j < |s.secondaries| && s.secondaries[step.j].Running?
    ensures event.Ran? && Stored(step) == [(event.pe, event.code)]
  {
    if step.BootStore? then Ran(0, s.boot.call, step.code) else Ran(step.j, s.secondaries[step.j].call, step.code)
  }

  lemma {:induction false} StoreRecords(cfg: Config, s: State, step: Step, t: State)
    requires cfg.Valid() && Sized(cfg, s) && Enabled(cfg, s, step) && t == Do(cfg, s, step)
    requires step.BootStore? || step.Stores?
    ensures t.rounds == s.rounds && t.events == s.events + [EventOf(s, step)]
  {}

  lemma {:induction false} LoopRecords(cfg: Config, s: State, step: Step, t: State)
    requires cfg.Valid() && Sized(cfg, s) && Enabled(cfg, s, step) && t == Do(cfg, s, step)
    requires step.BootPayloadReturns? || step.BootPolls?
    ensures var events := if step.BootPolls? && s.mem[s.boot.i].payload == 0 then Recorded(s, s.boot.i) else s.events;
            (t.rounds == s.rounds && t.events == events) ||
            (t.rounds == s.rounds + [Round(s.boot.call, events)] && t.events == [])
  {}

  lemma {:induction false} LoopReports(cfg: Config, s: State, step: Step, t: State)
    requires cfg.Valid() && Sized(cfg, s) && Enabled(cfg, s, step) && t == Do(cfg, s, step)
    requires step.BootPayloadReturns? || step.BootPolls?
    ensures AllRuns(t) == AllRuns(s)
  {
    LoopRecords(cfg, s, step, t);
    var u := if step.BootPolls? && s.mem[s.boot.i].payload == 0 then s.(events := Recorded(s, s.boot.i)) else s;
    if u.events != s.events {
      EventReports(s, u, Missed);
    }
    if |t.rounds| > |s.rounds| {
      RoundReports(u, t, s.boot.call);
    }
  }

  /** Other steps leave the record alone. */
  lemma {:induction false} OtherReports(cfg: Config, s: State, step: Step, t: State)
    requires Inv(cfg, s) && Enabled(cfg, s, step) && t == Do(cfg, s, step)
    requires !step.BootStore? && !step.Stores? && !step.BootPayloadReturns? && !step.BootPolls?
    ensures t.rounds == s.rounds && t.events == s.events
  {}

  lemma {:induction false} StepReports(cfg: Config, s: State, step: Step, t: State)
    requires Inv(cfg, s) && Enabled(cfg, s, step) && t == Do(cfg, s, step)
    ensures AllRuns(t) == AllRuns(s) + Stored(step)
  {
    if step.BootStore? || step.Stores? {
      StoreRecords(cfg, s, step, t);
      EventReports(s, t, EventOf(s, step));
    } else if step.BootPayloadReturns? || step.BootPolls? {
      LoopReports(cfg, s, step, t);
    } else {
      OtherReports(cfg, s, step, t);
    }
  }

  lemma {:induction false} RunReports(cfg: Config, s: State, steps: seq<Step>, t: State)
    requires Inv(cfg, s) && IsRun(cfg, s, steps, t)
    ensures AllRuns(t) == AllRuns(s) + StoredBy(steps)
    decreases |steps|
  {
    if |steps| > 0 {
      var u := Do(cfg, s, steps[0]);
      StepKeepsInv(cfg, s, steps[0]);
      StepReports(cfg, s, steps[0], u);
      RunReports(cfg, u, steps[1..], t);
      Regroup(AllRuns(s), Stored(steps[0]), StoredBy(steps[1..]));
    }
  }

  /**
    What was asked for is what was begun, in order, and what the payloads stored is what is on
    record, in order: nothing is lost, repeated or made up.
   */
  lemma {:induction false} RecordsAreExact(cfg: Config, s0: State, steps: seq<Step>, s: State)
    requires cfg.Valid() && IsInit(cfg, s0) && IsRun(cfg, s0, steps, s)
    ensures Begun(s) == Invoked(steps)
    ensures AllRuns(s) == StoredBy(steps)
  {
    InitInv(cfg, s0);
    RunBegins(cfg, s0, steps, s);
    RunReports(cfg, s0, steps, s);
  }

  // ---------------------------------------------------------------- results over whole runs

  /** PE j is inside the payload of a call. */
  predicate Inside(s: State, j: nat) {
    if j == 0 then s.boot.InPayload? else j < |s.secondaries| && s.secondaries[j].Running?
  }

  /** A payload is never inside two PEs at once, and it is the one that was asked for. */
  lemma {:induction false} MutualExclusion(cfg: Config, s0: State, steps: seq<Step>, s: State, j: nat, k: nat)
    requires cfg.Valid() && IsInit(cfg, s0) && IsRun(cfg, s0, steps, s)
    requires Inside(s, j) && Inside(s, k)
    ensures j == k
    ensures !s.boot.Idle? && !s.boot.WriteOffArg? && (j > 0 ==> s.secondaries[j].call == s.boot.call)
  {
    InitInv(cfg, s0);
    RunKeepsInv(cfg, s0, steps, s);
  }

  /**
    Between calls no secondary has a call's payload in hand, and the mailbox of a polling one holds
    zero or a PowerOffPe that it has not found yet.
   */
  lemma {:induction false} Quiescent(cfg: Config, s0: State, steps: seq<Step>, s: State)
    requires cfg.Valid() && IsInit(cfg, s0) && IsRun(cfg, s0, steps, s) && s.boot.Idle?
    ensures |s.secondaries| == |cfg.pos| && |s.mem| == cfg.slots
    ensures forall j :: 1 <= j < |cfg.pos| ==>
                          !Active(s.secondaries[j]) &&
                          (Polls(s.secondaries[j]) ==> s.mem[cfg.pos[j]].payload in {0, POWER_OFF})
  {
    InitInv(cfg, s0);
    RunKeepsInv(cfg, s0, steps, s);
  }

  /**
    Call r that returned is the r-th that was asked for.  It went through the boot PE and then the
    slots in ascending order, and in each slot its payload ran once with its argument on the slot's
    owner, or nothing ran.
   */
  lemma {:induction false} ReturnedCallsRanInOrder(cfg: Config, s0: State, steps: seq<Step>, s: State, r: nat)
    requires cfg.Valid() && IsInit(cfg, s0) && IsRun(cfg, s0, steps, s) && r < |s.rounds|
    ensures r < |Invoked(steps)| && s.rounds[r].call == Invoked(steps)[r]
    ensures |s.rounds[r].events| == |cfg.pos| && InOrder(cfg, Invoked(steps)[r], s.rounds[r].events)
    ensures cfg.Identity() ==>
              forall m :: 0 <= m < |cfg.pos| && s.rounds[r].events[m].Ran? ==> s.rounds[r].events[m].pe == m
  {
    InitInv(cfg, s0);
    RunKeepsInv(cfg, s0, steps, s);
    RunBegins(cfg, s0, steps, s);
    assert Begun(s)[r] == CallsOf(s.rounds)[r];
    var events := s.rounds[r].events;
    if cfg.Identity() {
      forall m | 0 <= m < |cfg.pos| && events[m].Ran?
        ensures events[m].pe == m
      {
        assert m > 0 ==> cfg.pos[events[m].pe] == events[m].pe;
      }
    }
  }

  /**
    What a post comes to is settled when it is made: when the boot PE goes on, nothing has run in
    the slot if and only if its owner had still to start when the payload was written.
   */
  lemma {:induction false} MissedIffStarting(cfg: Config, s0: State, before: seq<Step>, s: State,
                                             between: seq<Step>, t: State)
    requires cfg.Valid() && IsInit(cfg, s0) && IsRun(cfg, s0, before, s)
    requires Sized(cfg, s) && s.boot.WritePayload?
    requires IsRun(cfg, Do(cfg, s, BootWritesPayload), between, t)
    requires StaysInSpin(cfg, Do(cfg, s, BootWritesPayload), between)
    requires Sized(cfg, t) && t.boot.Spin? && t.mem[t.boot.i].payload == 0
    ensures t.boot.i == s.boot.i && |Recorded(t, t.boot.i)| == t.boot.i + 1
    ensures Recorded(t, t.boot.i)[t.boot.i] == Missed <==> OwnerStarting(cfg, s, s.boot.i)
  {
    InitInv(cfg, s0);
    RunKeepsInv(cfg, s0, before, s);
    StepKeepsInv(cfg, s, BootWritesPayload);
    RunKeepsInv(cfg, Do(cfg, s, BootWritesPayload), between, t);
    SpinUnchanged(cfg, Do(cfg, s, BootWritesPayload), between, t);
    assert InOrder(cfg, t.boot.call, t.events);
    if t.boot.fate == WillRun {
      LastRan(cfg, t);
    }
  }

  /** The boot PE spins on one mailbox throughout these steps. */
  ghost predicate StaysInSpin(cfg: Config, s: State, steps: seq<Step>)
    decreases |steps|
  {
    s.boot.Spin? &&
    (|steps| > 0 && cfg.Valid() && Sized(cfg, s) && Enabled(cfg, s, steps[0]) ==>
       (steps[0] == BootPolls ==> s.mem[s.boot.i].payload != 0) &&
       StaysInSpin(cfg, Do(cfg, s, steps[0]), steps[1..]))
  }

  lemma {:induction false} SpinUnchanged(cfg: Config, s: State, steps: seq<Step>, t: State)
    requires IsRun(cfg, s, steps, t) && StaysInSpin(cfg, s, steps)
    ensures t.boot == s.boot
    decreases |steps|
  {
    if |steps| > 0 {
      SpinUnchanged(cfg, Do(cfg, s, steps[0]), steps[1..], t);
    }
  }

  /**
    A post that meets a PE that is off, or that has found PowerOffPe, is never answered: the boot PE
    spins on it for ever, in every interleaving.
   */
  lemma {:induction false} HangsForEver(cfg: Config, s: State, steps: seq<Step>, t: State)
    requires Inv(cfg, s) && s.boot.Spin? && s.boot.fate == WillHang && IsRun(cfg, s, steps, t)
    ensures Inv(cfg, t) && t.boot == s.boot
    decreases |steps|
  {
    if |steps| > 0 {
      StepKeepsInv(cfg, s, steps[0]);
      HangsForEver(cfg, Do(cfg, s, steps[0]), steps[1..], t);
    }
  }

  /** The secondary polls, and its mailbox is empty. */
  predicate Ready(cfg: Config, s: State, j: nat)
    requires 1 <= j < |cfg.pos| == |s.secondaries|
  {
    Polls(s.secondaries[j]) && cfg.pos[j] < |s.mem| && s.mem[cfg.pos[j]].payload == 0
  }

  /** No secondary is off, starting, or has PowerOffPe in hand or in its mailbox. */
  predicate AllReady(cfg: Config, s: State)
    requires |cfg.pos| == |s.secondaries|
  {
    forall j :: 1 <= j < |cfg.pos| ==> Ready(cfg, s, j)
  }

  /** No power-off or power-on is asked for. */
  predicate Calm(step: Step) {
    !step.PostsOff? && !step.PowersOn?
  }

  predicate AllCalm(steps: seq<Step>) {
    forall k :: 0 <= k < |steps| ==> Calm(steps[k])
  }

  /** Nobody has missed, or is about to miss, the call in progress. */
  ghost predicate NothingMissed(s: State) {
    (s.boot.Spin? ==> s.boot.fate != WillMiss) && forall m :: 0 <= m < |s.events| ==> s.events[m].Ran?
  }

  /** What all secondaries being ready leads to while only calls are made. */
  ghost predicate Sound(cfg: Config, s: State)
    requires cfg.Valid() && Sized(cfg, s)
  {
    !s.boot.WriteOffArg? && NothingMissed(s) &&
    forall j :: 1 <= j < |cfg.pos| ==>
                  Active(s.secondaries[j]) ||
                  (Polls(s.secondaries[j]) &&
                   (s.mem[cfg.pos[j]].payload != 0 ==> s.boot.Spin? && cfg.pos[j] == s.boot.i))
  }

  lemma {:induction false} ReadyIsSound(cfg: Config, s: State)
    requires Inv(cfg, s) && s.boot.Idle?
    ensures Sound(cfg, s) <==> AllReady(cfg, s)
  {
    assert forall j :: 1 <= j < |cfg.pos| ==> !Active(s.secondaries[j]);
    assert s.events == [];
    if Sound(cfg, s) {
      forall j | 1 <= j < |cfg.pos|
        ensures Ready(cfg, s, j)
      {
        assert Polls(s.secondaries[j]);
      }
    }
    if AllReady(cfg, s) {
      forall j | 1 <= j < |cfg.pos|
        ensures Polls(s.secondaries[j]) && s.mem[cfg.pos[j]].payload == 0
      {
        assert Ready(cfg, s, j);
      }
    }
  }

  /** The rounds that returned since are all complete. */
  ghost predicate CompleteSince(cfg: Config, before: seq<Round>, after: seq<Round>) {
    before <= after && forall r :: |before| <= r < |after| ==> Complete(cfg, after[r])
  }

  lemma {:induction false} CompleteSinceThen(cfg: Config, a: seq<Round>, b: seq<Round>, c: seq<Round>)
    requires CompleteSince(cfg, a, b) && CompleteSince(cfg, b, c)
    ensures CompleteSince(cfg, a, c)
  {
    forall r | |a| <= r < |c|
      ensures Complete(cfg, c[r])
    {
      if r < |b| {
        assert c[r] == b[r];
      }
    }
  }

  lemma {:induction false} BootKeepsSound(cfg: Config, s: State, step: Step)
    requires Inv(cfg, s) && Sound(cfg, s) && Enabled(cfg, s, step) && Calm(step) && !BySecondary(step)
    ensures var t := Do(cfg, s, step); Sized(cfg, t) && Sound(cfg, t)
  {}

  lemma {:induction false} SecondaryKeepsSound(cfg: Config, s: State, step: Step)
    requires Inv(cfg, s) && Sound(cfg, s) && Enabled(cfg, s, step) && BySecondary(step)
    ensures var t := Do(cfg, s, step); Sized(cfg, t) && Sound(cfg, t)
  {}

  lemma {:induction false} StepKeepsSound(cfg: Config, s: State, step: Step)
    requires Inv(cfg, s) && Sound(cfg, s) && Enabled(cfg, s, step) && Calm(step)
    ensures var t := Do(cfg, s, step); Sized(cfg, t) && Sound(cfg, t)
  {
    if BySecondary(step) {
      SecondaryKeepsSound(cfg, s, step);
    } else {
      BootKeepsSound(cfg, s, step);
    }
  }

  lemma {:induction false} StepRecords(cfg: Config, s: State, step: Step)
    requires Inv(cfg, s) && Sound(cfg, s) && Enabled(cfg, s, step)
    ensures var t := Do(cfg, s, step);
            |t.rounds| <= |s.rounds| + 1 && s.rounds <= t.rounds &&
            (|t.rounds| > |s.rounds| ==>
               forall m :: 0 <= m < |t.rounds[|s.rounds|].events| ==> t.rounds[|s.rounds|].events[m].Ran?)
  {}

  lemma {:induction false} StepMissesNothing(cfg: Config, s: State, step: Step)
    requires Inv(cfg, s) && Sound(cfg, s) && Enabled(cfg, s, step) && Calm(step)
    ensures var t := Do(cfg, s, step);
            Inv(cfg, t) && Sound(cfg, t) && CompleteSince(cfg, s.rounds, t.rounds)
  {
    var t := Do(cfg, s, step);
    StepKeepsInv(cfg, s, step);
    StepKeepsSound(cfg, s, step);
    StepRecords(cfg, s, step);
    assert forall r :: 0 <= r < |t.rounds| ==> Closed(cfg, t.rounds[r]);
    assert |t.rounds| > |s.rounds| ==> Complete(cfg, t.rounds[|s.rounds|]);
  }

  /** While everybody is ready and only calls are made, nobody misses one. */
  lemma {:induction false} SoundCallsComplete(cfg: Config, s: State, steps: seq<Step>, t: State)
    requires Inv(cfg, s) && Sound(cfg, s) && IsRun(cfg, s, steps, t) && AllCalm(steps)
    ensures Inv(cfg, t) && Sound(cfg, t) && CompleteSince(cfg, s.rounds, t.rounds)
    decreases |steps|
  {
    if |steps| > 0 {
      var u := Do(cfg, s, steps[0]);
      StepMissesNothing(cfg, s, steps[0]);
      assert forall k :: 0 <= k < |steps[1..]| ==> steps[1..][k] == steps[k + 1];
      SoundCallsComplete(cfg, u, steps[1..], t);
      CompleteSinceThen(cfg, s.rounds, u.rounds, t.rounds);
    }
  }

  /**
    So every call made while all secondaries are ready runs on every PE, with the payload and the
    argument that were asked for.
   */
  lemma {:induction false} CallsWhenReady(cfg: Config, s0: State, before: seq<Step>, s: State,
                                          after: seq<Step>, t: State, r: nat)
    requires cfg.Valid() && IsInit(cfg, s0) && IsRun(cfg, s0, before, s) && IsRun(cfg, s, after, t)
    requires Sized(cfg, s) && s.boot.Idle? && AllReady(cfg, s) && AllCalm(after)
    requires |s.rounds| <= r < |t.rounds|
    ensures Complete(cfg, t.rounds[r])
    ensures r - |s.rounds| < |Invoked(after)| && t.rounds[r].call == Invoked(after)[r - |s.rounds|]
  {
    InitInv(cfg, s0);
    RunKeepsInv(cfg, s0, before, s);
    RunBegins(cfg, s, after, t);
    assert Begun(t)[r] == CallsOf(t.rounds)[r];
    ReadyIsSound(cfg, s);
    SoundCallsComplete(cfg, s, after, t);
  }

  /** Exactly once per PE, whatever slots the PEs poll. */
  lemma {:induction false} ExactlyOncePerPe(cfg: Config, round: Round, pe: nat)
    requires cfg.Valid() && Complete(cfg, round) && pe < |cfg.pos|
    ensures exists m :: 0 <= m < |round.events| && round.events[m].pe == pe
    ensures forall m, k :: 0 <= m < k < |round.events| ==> round.events[m].pe != round.events[k].pe
  {
    var events := round.events;
    if forall m :: 0 <= m < |events| ==> events[m].pe != pe {
      Pigeonhole(seq(|events|, m requires 0 <= m < |events| => events[m].pe) + [pe], |events|);
    }
  }

  /**
    At the step that returns from a call, the status word of each PE that ran the payload holds
    the code that its run stored.
   */
  lemma {:induction false} StatusAtReturn(cfg: Config, s0: State, steps: seq<Step>, s: State, step: Step)
    requires cfg.Valid() && IsInit(cfg, s0) && IsRun(cfg, s0, steps, s)
    requires Sized(cfg, s) && Enabled(cfg, s, step)
    requires !s.boot.Idle? && !s.boot.WriteOffArg? && Do(cfg, s, step).boot.Idle?
    ensures var t := Do(cfg, s, step);
            |t.rounds| == |s.rounds| + 1 &&
            (var round := t.rounds[|s.rounds|];
             round.call == s.boot.call && Closed(cfg, round) && |t.status| == |cfg.pos| &&
             StatusMatches(t, round.events))
  {
    InitInv(cfg, s0);
    RunKeepsInv(cfg, s0, steps, s);
    assert step == BootPayloadReturns || step == BootPolls;
    BootStepKeepsInv(cfg, s, step);
  }
}
