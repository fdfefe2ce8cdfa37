/**
  The cross-PE call and the status poll together: the verdict of a test that runs on every PE.
 */
module SdeiAllPe {
  import opened Mailbox
  import opened SdeiStatus

  /** The code that the payload of a finished call stored on each PE, in slot order. */
  ghost function CodesOf(events: seq<Event>): (codes: seq<Code>)
    requires forall m :: 0 <= m < |events| ==> events[m].Ran?
    ensures |codes| == |events|
    ensures forall i :: 0 <= i < |events| ==> codes[i] == events[i].code
  {
    seq(|events|, i requires 0 <= i < |events| => events[i].code)
  }

  /** The status words at the return of a complete call are codes that the payload stored. */
  lemma {:induction false} WordsAreStored(cfg: Config, s: State, round: Round)
    requires cfg.Valid() && Complete(cfg, round) && |s.status| == |cfg.pos| && StatusMatches(s, round.events)
    requires forall m :: 0 <= m < |round.events| ==> IsFinal(round.events[m].code)
    ensures forall i :: 0 <= i < |s.status| ==> IsFinal(s.status[i])
    ensures cfg.Identity() ==> s.status == CodesOf(round.events)
  {
    forall i | 0 <= i < |s.status|
      ensures IsFinal(s.status[i]) && (cfg.Identity() ==> s.status[i] == round.events[i].code)
    {
      ExactlyOncePerPe(cfg, round, i);
      var m :| 0 <= m < |round.events| && round.events[m].pe == i;
      assert cfg.Identity() && m > 0 ==> cfg.pos[round.events[m].pe] == m;
      assert round.events[0].pe == 0;
    }
  }

  // ---------------------------------------------------------------- the words between calls

  predicate NoCalls(steps: seq<Step>) {
    forall k :: 0 <= k < |steps| ==> !steps[k].Invoke?
  }

  lemma {:induction false} StepKeepsWords(cfg: Config, s: State, step: Step)
    requires Inv(cfg, s) && (s.boot.Idle? || s.boot.WriteOffArg?) && Enabled(cfg, s, step) && !step.Invoke?
    ensures var t := Do(cfg, s, step);
            Inv(cfg, t) && (t.boot.Idle? || t.boot.WriteOffArg?) && t.status == s.status && t.rounds == s.rounds
    ensures Calm(step) && s.boot.Idle? ==> Do(cfg, s, step).boot.Idle?
  {
    StepKeepsInv(cfg, s, step);
  }

  /**
    Until the next call no status word changes, whatever the secondaries do meanwhile and even if
    they are turned off and on; and while nobody asks for that the boot PE stays where it is.
   */
  lemma {:induction false} WordsAtRest(cfg: Config, s: State, steps: seq<Step>, t: State)
    requires Inv(cfg, s) && (s.boot.Idle? || s.boot.WriteOffArg?) && IsRun(cfg, s, steps, t) && NoCalls(steps)
    ensures Inv(cfg, t) && t.status == s.status && t.rounds == s.rounds
    ensures AllCalm(steps) && s.boot.Idle? ==> t.boot.Idle?
    decreases |steps|
  {
    if |steps| > 0 {
      StepKeepsWords(cfg, s, steps[0]);
      assert forall k :: 0 <= k < |steps[1..]| ==> steps[1..][k] == steps[k + 1];
      WordsAtRest(cfg, Do(cfg, s, steps[0]), steps[1..], t);
    }
  }

  /** A word that the poll can read: PE i's in some state that the PEs reach without a new call. */
  ghost predicate Reads(cfg: Config, s: State, i: nat, word: Code) {
    exists steps, u :: IsRun(cfg, s, steps, u) && NoCalls(steps) && i < |u.status| && u.status[i] == word
  }

  /** Memory as the poll sees it after the call, while the secondaries go on. */
  ghost predicate SeenAfter(cfg: Config, s: State, mem: Memory) {
    forall sweep: nat, i: nat :: i < |s.status| ==> Reads(cfg, s, i, mem(sweep, i))
  }

  lemma {:induction false} SeenIsStill(cfg: Config, s: State, mem: Memory)
    requires Inv(cfg, s) && s.boot.Idle? && SeenAfter(cfg, s, mem)
    ensures Agree(mem, Still(s.status), |s.status|)
  {
    forall sweep: nat, i: nat | i < |s.status|
      ensures mem(sweep, i) == Still(s.status)(sweep, i)
    {
      assert Reads(cfg, s, i, mem(sweep, i));
      var steps, u :| IsRun(cfg, s, steps, u) && NoCalls(steps) && i < |u.status| && u.status[i] == mem(sweep, i);
      WordsAtRest(cfg, s, steps, u);
    }
  }

  // ---------------------------------------------------------------- the verdict

  /** The step by which the boot PE returns from a call in which the payload stored final codes only. */
  ghost predicate ReturnsFinal(cfg: Config, s: State, step: Step)
    requires cfg.Valid() && Sized(cfg, s) && Enabled(cfg, s, step)
  {
    var t := Do(cfg, s, step);
    !s.boot.Idle? && t.boot.Idle? && |t.rounds| > |s.rounds| &&
    forall m :: 0 <= m < |t.rounds[|s.rounds|].events| && t.rounds[|s.rounds|].events[m].Ran? ==>
                  IsFinal(t.rounds[|s.rounds|].events[m].code)
  }

  /**
    A payload that stores a final code on every PE, run through the cross-PE call in any
    interleaving once all PEs are ready, and then a poll while the secondaries go on in any
    interleaving: each word read is the code that PE's run stored, no pending status blends in, and
    the verdict is the code of the lowest-index PE that did not pass, or PASS, whatever slots the
    PEs poll.
   */
  lemma {:induction false} AllPeVerdict(cfg: Config, s0: State, before: seq<Step>, s1: State, steps: seq<Step>,
                                        s: State, step: Step, mem: Memory, timeout: nat, verdict: Code)
    requires cfg.Valid() && |cfg.pos| > 1 && timeout >= 1
    requires IsInit(cfg, s0) && IsRun(cfg, s0, before, s1) && Sized(cfg, s1) && AllReady(cfg, s1) && s1.boot.Idle?
    requires IsRun(cfg, s1, steps, s) && AllCalm(steps)
    requires Sized(cfg, s) && Enabled(cfg, s, step) && Calm(step) && ReturnsFinal(cfg, s, step)
    requires SeenAfter(cfg, Do(cfg, s, step), mem)
    requires Verdict(mem, |cfg.pos|, |cfg.pos|, timeout, verdict)
    ensures var t := Do(cfg, s, step);
            Complete(cfg, t.rounds[|s.rounds|]) && StatusMatches(t, t.rounds[|s.rounds|].events) &&
            verdict == LowestNonPassCode(t.status) &&
            (cfg.Identity() ==> t.status == CodesOf(t.rounds[|s.rounds|].events))
  {
    ReturnIsComplete(cfg, s0, before, s1, steps, s, step);
    var t := Do(cfg, s, step);
    WordsAreStored(cfg, t, t.rounds[|s.rounds|]);
    SeenIsStill(cfg, t, mem);
    VerdictAgrees(mem, Still(t.status), |cfg.pos|, timeout, verdict);
    FinalVerdict(t.status, timeout, verdict);
  }

  lemma {:induction false} ReturnIsComplete(cfg: Config, s0: State, before: seq<Step>, s1: State, steps: seq<Step>,
                                            s: State, step: Step)
    requires cfg.Valid() && IsInit(cfg, s0) && IsRun(cfg, s0, before, s1)
    requires Sized(cfg, s1) && AllReady(cfg, s1) && s1.boot.Idle?
    requires IsRun(cfg, s1, steps, s) && AllCalm(steps)
    requires Sized(cfg, s) && Enabled(cfg, s, step) && Calm(step) && ReturnsFinal(cfg, s, step)
    ensures var t := Do(cfg, s, step);
            Inv(cfg, t) && Complete(cfg, t.rounds[|s.rounds|]) && StatusMatches(t, t.rounds[|s.rounds|].events)
  {
    InitInv(cfg, s0);
    RunKeepsInv(cfg, s0, before, s1);
    ReadyIsSound(cfg, s1);
    SoundCallsComplete(cfg, s1, steps, s);
    StepMissesNothing(cfg, s, step);
    ReturnMatches(cfg, s, step);
  }

  lemma {:induction false} ReturnMatches(cfg: Config, s: State, step: Step)
    requires Inv(cfg, s) && Sound(cfg, s) && Enabled(cfg, s, step) && ReturnsFinal(cfg, s, step)
    ensures var t := Do(cfg, s, step); StatusMatches(t, t.rounds[|s.rounds|].events)
  {
    assert step == BootPayloadReturns || step == BootPolls;
  }
}
