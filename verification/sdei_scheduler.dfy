/**
  The SDEI test scheduler: enable bits, dependency lists, outcomes and counters.
 */
module SdeiScheduler {
  import opened FlagWords
  import opened SdeiStatus

  const MAX_TESTS: nat := 128       // two 64-bit flag words
  const TEST_TIMEOUT: nat := 0x10000

  /** deps is the zero-terminated list of the C descriptor, terminator included. */
  datatype TestDesc = TestDesc(id: nat, deps: seq<nat>, allPe: bool)

  ghost predicate Terminated(deps: seq<nat>) {
    exists k :: 0 <= k < |deps| && deps[k] == 0
  }

  /** The ids before the terminator. */
  function DepList(deps: seq<nat>): (ids: seq<nat>)
    ensures |ids| <= |deps| && ids == deps[..|ids|]
    ensures forall k :: 0 <= k < |ids| ==> deps[k] != 0
    ensures |ids| < |deps| ==> deps[|ids|] == 0
  {
    if |deps| == 0 || deps[0] == 0 then [] else
    var rest := DepList(deps[1..]);
    assert deps[..|rest| + 1] == [deps[0]] + deps[1..][..|rest|];
    [deps[0]] + rest
  }

  /** Index of the first test with the given id, or the number of tests. */
  function FirstWithId(tests: seq<TestDesc>, id: nat): (k: nat)
    ensures k <= |tests|
    ensures k < |tests| ==> tests[k].id == id
    ensures forall j :: 0 <= j < k ==> tests[j].id != id
  {
    if |tests| == 0 || tests[0].id == id then 0 else
    var k := FirstWithId(tests[1..], id);
    assert forall j :: 1 <= j < k + 1 ==> tests[j] == tests[1..][j - 1];
    k + 1
  }

  predicate PassedIn(tests: seq<TestDesc>, status: seq<Code>, id: nat)
    requires |status| == |tests|
  {
    var k := FirstWithId(tests, id);
    k < |tests| && status[k] == PASS
  }

  ghost predicate DepsPassedIn(tests: seq<TestDesc>, status: seq<Code>, deps: seq<nat>)
    requires |status| == |tests|
  {
    forall d :: d in DepList(deps) ==> PassedIn(tests, status, d)
  }

  // ---------------------------------------------------------------- enable bits

  /** The two 64-bit words of the enable bits. */
  predicate IsFlags(flags: seq<Bits>) {
    |flags| == 2 && |flags[0]| == 64 && |flags[1]| == 64
  }

  /** The test that run_test makes on the enable bit of test i. */
  predicate Selected(flags: seq<Bits>, i: nat)
    requires IsFlags(flags) && i < MAX_TESTS
  {
    TestBit(flags[i / 64], i % 64)
  }

  /** flags' differs from flags in the selection of test i only, which becomes on. */
  ghost predicate OnlyChanged(flags: seq<Bits>, flags': seq<Bits>, i: nat, on: bool)
    requires IsFlags(flags) && i < MAX_TESTS
  {
    IsFlags(flags') && Selected(flags', i) == on &&
    forall k :: 0 <= k < MAX_TESTS && k != i ==> Selected(flags', k) == Selected(flags, k)
  }

  /** enable_test. */
  function WithEnabled(flags: seq<Bits>, i: nat): (flags': seq<Bits>)
    requires IsFlags(flags) && i < MAX_TESTS
    ensures OnlyChanged(flags, flags', i, true)
  {
    flags[i / 64 := SetBit(flags[i / 64], i % 64)]
  }

  /** disable_test. */
  function WithDisabled(flags: seq<Bits>, i: nat): (flags': seq<Bits>)
    requires IsFlags(flags) && i < MAX_TESTS
    ensures OnlyChanged(flags, flags', i, false)
  {
    flags[i / 64 := ClearBit(flags[i / 64], i % 64)]
  }

  // ---------------------------------------------------------------- a whole run

  /**
    One pass over the table.  before and after are the recorded outcomes around the pass,
    executed tells whose body ran and verdicts what the poll then returned.
   */
  ghost predicate Pass(tests: seq<TestDesc>, flags: seq<Bits>, before: seq<Code>,
                       executed: seq<bool>, verdicts: seq<Code>, after: seq<Code>, n: nat)
  {
    IsFlags(flags) && n <= |tests| <= MAX_TESTS &&
    |before| == |after| == |tests| && |executed| == |verdicts| == n &&
    (forall i :: n <= i < |tests| ==> after[i] == before[i]) &&
    (forall i :: 0 <= i < n ==>
                   (executed[i] <==> Selected(flags, i) &&
                                     DepsPassedIn(tests, after[..i] + before[i..], tests[i].deps)) &&
                   after[i] == if executed[i] then verdicts[i] else SKIP)
  }

  function One(b: bool): nat {
    if b then 1 else 0
  }

  function CountOf(status: seq<Code>, code: Code): nat {
    if |status| == 0 then 0 else
    CountOf(status[..|status| - 1], code) + One(status[|status| - 1] == code)
  }

  predicate Uncounted(c: Code) {
    c != PASS && c != SKIP && c != FAIL && c != ABORT
  }

  function UncountedIn(status: seq<Code>): nat {
    if |status| == 0 then 0 else
    UncountedIn(status[..|status| - 1]) + One(Uncounted(status[|status| - 1]))
  }

  /** A 32-bit counter moved on by n. */
  function Advance(counter: nat, n: nat): nat {
    (counter + n) % 0x1_0000_0000
  }

  /** The outcome counters of sdei_test_control. */
  datatype Counters = Counters(skipped: nat, passed: nat, failed: nat, aborted: nat) {
    ghost predicate Is32Bit() {
      skipped < 0x1_0000_0000 && passed < 0x1_0000_0000 && failed < 0x1_0000_0000 &&
      aborted < 0x1_0000_0000
    }
  }

  /** What log_test_result does to the counters. */
  function Logged(c: Counters, result: Code): Counters {
    if result == PASS then c.(passed := Advance(c.passed, 1))
    else if result == SKIP then c.(skipped := Advance(c.skipped, 1))
    else if result == FAIL then c.(failed := Advance(c.failed, 1))
    else if result == ABORT then c.(aborted := Advance(c.aborted, 1))
    else c
  }

  function LoggedAll(c: Counters, results: seq<Code>): Counters {
    if |results| == 0 then c
    else Logged(LoggedAll(c, results[..|results| - 1]), results[|results| - 1])
  }

  lemma {:induction false} AdvanceTwice(counter: nat, n: nat, m: nat)
    ensures Advance(Advance(counter, n), m) == Advance(counter, n + m)
  {}

  /** Each counter moves on by the number of its outcomes. */
  lemma {:induction false} LoggedCounts(c: Counters, results: seq<Code>)
    requires c.Is32Bit()
    ensures LoggedAll(c, results) ==
            Counters(Advance(c.skipped, CountOf(results, SKIP)), Advance(c.passed, CountOf(results, PASS)),
                     Advance(c.failed, CountOf(results, FAIL)), Advance(c.aborted, CountOf(results, ABORT)))
  {
    if |results| > 0 {
      var rest, last := results[..|results| - 1], results[|results| - 1];
      LoggedCounts(c, rest);
      AdvanceTwice(c.skipped, CountOf(rest, SKIP), One(last == SKIP));
      AdvanceTwice(c.passed, CountOf(rest, PASS), One(last == PASS));
      AdvanceTwice(c.failed, CountOf(rest, FAIL), One(last == FAIL));
      AdvanceTwice(c.aborted, CountOf(rest, ABORT), One(last == ABORT));
    }
  }

  /** A verdict of the poll after a test: of all PEs when the test ran on all, else of one. */
  ghost predicate PollOf(test: TestDesc, mem: Memory, numPe: nat, verdict: Code) {
    (test.allPe ==> Verdict(mem, numPe, numPe, TEST_TIMEOUT, verdict)) &&
    (!test.allPe ==> Verdict(mem, 1, numPe, TEST_TIMEOUT, verdict))
  }

  /** Each executed test among the first n got its verdict from the poll after its body. */
  ghost predicate Polled(tests: seq<TestDesc>, bodies: nat -> Memory, numPe: nat,
                         executed: seq<bool>, verdicts: seq<Code>, n: nat)
  {
    n <= |tests| && |executed| == |verdicts| == n &&
    forall i :: 0 <= i < n && executed[i] ==> PollOf(tests[i], bodies(i), numPe, verdicts[i])
  }

  lemma {:induction false} PolledStep(tests: seq<TestDesc>, bodies: nat -> Memory, numPe: nat,
                                      executed: seq<bool>, verdicts: seq<Code>, i: nat, run: bool, verdict: Code)
    requires Polled(tests, bodies, numPe, executed, verdicts, i) && i < |tests|
    requires run ==> PollOf(tests[i], bodies(i), numPe, verdict)
    ensures Polled(tests, bodies, numPe, executed + [run], verdicts + [verdict], i + 1)
  {}

  /** sdei_test_control together with the outcome column of sdei_test[]. */
  class Control {
    const tests: seq<TestDesc>
    var status: seq<Code>
    var flags: seq<Bits>
    var counters: Counters

    ghost predicate Valid()
      reads this
    {
      |status| == |tests| <= MAX_TESTS && IsFlags(flags) &&
      (forall i :: 0 <= i < |tests| ==> Terminated(tests[i].deps)) && counters.Is32Bit()
    }

    /** val_test_init: every test published as pending, every enable bit set; SdeiAcsMain zeroes the counters. */
    constructor (tests: seq<TestDesc>)
      requires |tests| <= MAX_TESTS && forall i :: 0 <= i < |tests| ==> Terminated(tests[i].deps)
      ensures Valid() && this.tests == tests
      ensures forall i :: 0 <= i < |tests| ==> status[i] == PENDING && Selected(flags, i)
      ensures counters == Counters(0, 0, 0, 0)
    {
      this.tests := tests;
      status := seq(|tests|, i requires 0 <= i < |tests| => PENDING);
      flags := [Not(Zero(64)), Not(Zero(64))];
      counters := Counters(0, 0, 0, 0);
      new;
    }

    method Find(testId: nat) returns (i: nat)
      ensures i == FirstWithId(tests, testId)
    {
      i := 0;
      while i < |tests| && tests[i].id != testId
        invariant 0 <= i <= |tests|
        invariant forall j :: 0 <= j < i ==> tests[j].id != testId
      {
        i := i + 1;
      }
    }

    /** val_test_enable. */
    method Enable(testId: nat)
      requires Valid()
      modifies this`flags
      ensures Valid()
      ensures var i := FirstWithId(tests, testId);
              if i < |tests| then OnlyChanged(old(flags), flags, i, true) else flags == old(flags)
    {
      var i := Find(testId);
      if i < |tests| {
        flags := WithEnabled(flags, i);
      }
    }

    /** val_test_disable. */
    method Disable(testId: nat)
      requires Valid()
      modifies this`flags
      ensures Valid()
      ensures var i := FirstWithId(tests, testId);
              if i < |tests| then OnlyChanged(old(flags), flags, i, false) else flags == old(flags)
    {
      var i := Find(testId);
      if i < |tests| {
        flags := WithDisabled(flags, i);
      }
    }

    /** val_test_run_specific. */
    method RunSpecific(testId: nat, init: bool)
      requires Valid()
      modifies this`flags
      ensures Valid()
      ensures forall k :: 0 <= k < MAX_TESTS ==>
                            (Selected(flags, k) <==>
                             (k == FirstWithId(tests, testId) && k < |tests|) || (!init && Selected(old(flags), k)))
    {
      if init {
        flags := [Zero(64), Zero(64)];
      }
      Enable(testId);
    }

    /** is_test_passed. */
    method IsTestPassed(testId: nat) returns (yes: bool)
      requires Valid()
      ensures yes <==> PassedIn(tests, status, testId)
    {
      var i := Find(testId);
      yes := i < |tests| && status[i] == PASS;
    }

    /** deps_resolved. */
    method DepsResolved(deps: seq<nat>) returns (yes: bool)
      requires Valid() && Terminated(deps)
      ensures yes <==> DepsPassedIn(tests, status, deps)
    {
      var i := 0;
      var go := true;
      while go
        invariant 0 <= i <= |DepList(deps)| < |deps|
        invariant forall k :: 0 <= k < i ==> PassedIn(tests, status, deps[k])
        invariant go || i == |DepList(deps)| || !PassedIn(tests, status, deps[i])
        decreases |deps| - i, go
      {
        go := false;
        if deps[i] != 0 {
          var passed := IsTestPassed(deps[i]);
          if passed {
            i := i + 1;
            go := true;
          }
        }
      }
      yes := deps[i] == 0;
      if !yes {
        assert deps[i] in DepList(deps);
      }
    }

    /** log_test_result. */
    method LogTestResult(result: Code)
      requires Valid()
      modifies this`counters
      ensures Valid() && counters == Logged(old(counters), result)
    {
      if result == PASS {
        counters := counters.(passed := (counters.passed + 1) % 0x1_0000_0000);
      } else if result == SKIP {
        counters := counters.(skipped := (counters.skipped + 1) % 0x1_0000_0000);
      } else if result == FAIL {
        counters := counters.(failed := (counters.failed + 1) % 0x1_0000_0000);
      } else if result == ABORT {
        counters := counters.(aborted := (counters.aborted + 1) % 0x1_0000_0000);
      }
    }

    /** The body of the loop of val_test_execute for test i; mem is what the poll will see. */
    method RunOne(i: nat, mem: Memory, numPe: nat) returns (run: bool)
      requires Valid() && i < |tests|
      modifies this`status, this`counters
      ensures Valid()
      ensures run <==> Selected(flags, i) && DepsPassedIn(tests, old(status), tests[i].deps)
      ensures status == old(status)[i := status[i]]
      ensures if run then PollOf(tests[i], mem, numPe, status[i]) else status[i] == SKIP
      ensures counters == Logged(old(counters), status[i])
    {
      var width := 1;
      if tests[i].allPe {
        width := numPe;
      }
      run := false;
      if Selected(flags, i) {
        run := DepsResolved(tests[i].deps);
      }
      var outcome := SKIP;
      if run {
        outcome := GetStatus(mem, width, numPe, TEST_TIMEOUT);
      }
      status := status[i := outcome];
      LogTestResult(outcome);
    }

    /** The body of the loop below. */
    method RunNext(i: nat, bodies: nat -> Memory, numPe: nat, ghost before: seq<Code>, ghost executed: seq<bool>,
                   ghost verdicts: seq<Code>, ghost start: Counters)
      returns (ghost executed': seq<bool>, ghost verdicts': seq<Code>)
      requires Valid() && i < |tests|
      requires Pass(tests, flags, before, executed, verdicts, status, i)
      requires Polled(tests, bodies, numPe, executed, verdicts, i)
      requires counters == LoggedAll(start, status[..i])
      modifies this`status, this`counters
      ensures Valid()
      ensures Pass(tests, flags, before, executed', verdicts', status, i + 1)
      ensures Polled(tests, bodies, numPe, executed', verdicts', i + 1)
      ensures counters == LoggedAll(start, status[..i + 1])
    {
      ghost var was := status;
      var run := RunOne(i, bodies(i), numPe);
      ghost var outcome := status[i];
      PassStep(tests, flags, before, executed, verdicts, was, i, run, outcome);
      PolledStep(tests, bodies, numPe, executed, verdicts, i, run, outcome);
      LoggedStep(start, was, i, outcome);
      executed', verdicts' := executed + [run], verdicts + [outcome];
    }

    /**
      val_test_execute.  bodies(i) is status memory as the poll after the body of test i sees it,
      so the bodies may do anything at all.
     */
    method Execute(bodies: nat -> Memory, numPe: nat)
      returns (ghost executed: seq<bool>, ghost verdicts: seq<Code>)
      requires Valid()
      modifies this`status, this`counters
      ensures Valid()
      ensures Pass(tests, flags, old(status), executed, verdicts, status, |tests|)
      ensures forall i :: 0 <= i < |tests| && executed[i] && tests[i].allPe ==>
                            Verdict(bodies(i), numPe, numPe, TEST_TIMEOUT, status[i])
      ensures forall i :: 0 <= i < |tests| && executed[i] && !tests[i].allPe ==>
                            Verdict(bodies(i), 1, numPe, TEST_TIMEOUT, status[i])
      ensures forall i :: 0 <= i < |tests| && !executed[i] ==> status[i] == SKIP
      ensures counters.passed == Advance(old(counters.passed), CountOf(status, PASS))
      ensures counters.failed == Advance(old(counters.failed), CountOf(status, FAIL))
      ensures counters.skipped == Advance(old(counters.skipped), CountOf(status, SKIP))
      ensures counters.aborted == Advance(old(counters.aborted), CountOf(status, ABORT))
      ensures counters == LoggedAll(old(counters), status)
    {
      executed, verdicts := [], [];
      ghost var before := status;
      var i := 0;
      while i < |tests|
        invariant 0 <= i <= |tests| && Valid()
        invariant Pass(tests, flags, before, executed, verdicts, status, i)
        invariant Polled(tests, bodies, numPe, executed, verdicts, i)
        invariant counters == LoggedAll(old(counters), status[..i])
      {
        executed, verdicts := RunNext(i, bodies, numPe, before, executed, verdicts, old(counters));
        i := i + 1;
      }
      assert status[..i] == status;
      LoggedCounts(old(counters), status);
      assert forall k :: 0 <= k < i && executed[k] ==> PollOf(tests[k], bodies(k), numPe, status[k]);
    }
  }

  lemma {:induction false} LoggedStep(start: Counters, was: seq<Code>, i: nat, outcome: Code)
    requires i < |was|
    ensures LoggedAll(start, was[i := outcome][..i + 1]) == Logged(LoggedAll(start, was[..i]), outcome)
  {
    assert was[i := outcome][..i + 1][..i] == was[..i];
  }

  lemma {:induction false} PassStep(tests: seq<TestDesc>, flags: seq<Bits>, before: seq<Code>, executed: seq<bool>,
                                    verdicts: seq<Code>, status: seq<Code>, i: nat, run: bool, outcome: Code)
    requires Pass(tests, flags, before, executed, verdicts, status, i) && i < |tests|
    requires run <==> Selected(flags, i) && DepsPassedIn(tests, status, tests[i].deps)
    requires !run ==> outcome == SKIP
    ensures Pass(tests, flags, before, executed + [run], verdicts + [outcome],
                 status[i := outcome], i + 1)
  {
    var after := status[i := outcome];
    assert status == after[..i] + before[i..];
    forall k | 0 <= k < i
      ensures after[..k] == status[..k]
    {}
  }
}
