/**
  What one pass of the SDEI scheduler guarantees, for any test bodies.
 */
module SdeiScheduleLaws {
  import opened FlagWords
  import opened SdeiStatus
  import opened SdeiScheduler

  /**
    Dependency d of test i is met: its test sits earlier, was executed in this pass and passed,
    or sits at i or later and still carries a PASS from before the pass.
   */
  ghost predicate Met(tests: seq<TestDesc>, before: seq<Code>, executed: seq<bool>,
                      verdicts: seq<Code>, i: nat, d: nat)
    requires |before| == |tests| == |executed| == |verdicts|
  {
    var k := FirstWithId(tests, d);
    k < |tests| && if k < i then executed[k] && verdicts[k] == PASS else before[k] == PASS
  }

  /** A test is executed exactly when its bit is set and every one of its dependencies is met. */
  lemma {:induction false} ExecutedIff(tests: seq<TestDesc>, flags: seq<Bits>, before: seq<Code>,
                                       executed: seq<bool>, verdicts: seq<Code>, after: seq<Code>, i: nat)
    requires Pass(tests, flags, before, executed, verdicts, after, |tests|) && i < |tests|
    ensures executed[i] <==>
            Selected(flags, i) &&
            forall d :: d in DepList(tests[i].deps) ==> Met(tests, before, executed, verdicts, i, d)
  {
    var now := after[..i] + before[i..];
    forall d
      ensures PassedIn(tests, now, d) <==> Met(tests, before, executed, verdicts, i, d)
    {
      var k := FirstWithId(tests, d);
      if k < i {
        assert now[k] == after[k];
        assert !executed[k] ==> after[k] == SKIP;
      } else if k < |tests| {
        assert now[k] == before[k];
      }
    }
  }

  ghost predicate NoPassIn(status: seq<Code>) {
    forall i :: 0 <= i < |status| ==> status[i] != PASS
  }

  /** Test k is the one that some dependency of test i names. */
  ghost predicate DependsOn(tests: seq<TestDesc>, i: nat, k: nat)
    requires i < |tests|
  {
    exists d :: d in DepList(tests[i].deps) && FirstWithId(tests, d) == k
  }

  /** From a fresh table: a test runs only after everything it directly depends on has passed. */
  lemma {:induction false} DependenciesRanEarlier(tests: seq<TestDesc>, flags: seq<Bits>, before: seq<Code>,
                                                  executed: seq<bool>, verdicts: seq<Code>, after: seq<Code>,
                                                  i: nat, k: nat)
    requires Pass(tests, flags, before, executed, verdicts, after, |tests|) && i < |tests|
    requires NoPassIn(before) && executed[i] && DependsOn(tests, i, k)
    ensures k < i && executed[k] && verdicts[k] == PASS
  {
    ExecutedIff(tests, flags, before, executed, verdicts, after, i);
    var d :| d in DepList(tests[i].deps) && FirstWithId(tests, d) == k;
    assert Met(tests, before, executed, verdicts, i, d);
  }

  /** A chain of dependencies, each test depending on the next. */
  ghost predicate Chain(tests: seq<TestDesc>, chain: seq<nat>) {
    |chain| > 0 &&
    (forall m :: 0 <= m < |chain| ==> chain[m] < |tests|) &&
    (forall m :: 0 <= m < |chain| - 1 ==> DependsOn(tests, chain[m], chain[m + 1]))
  }

  /**
    The whole dependency closure of an executed test was executed and passed, and every chain of
    dependencies descends through the table, so an executed test is on no dependency cycle.
   */
  lemma {:induction false} ClosurePassed(tests: seq<TestDesc>, flags: seq<Bits>, before: seq<Code>,
                                         executed: seq<bool>, verdicts: seq<Code>,
                                         after: seq<Code>, chain: seq<nat>)
    requires Pass(tests, flags, before, executed, verdicts, after, |tests|)
    requires NoPassIn(before) && Chain(tests, chain) && executed[chain[0]]
    ensures forall m :: 1 <= m < |chain| ==>
                          chain[m] < chain[0] && executed[chain[m]] && verdicts[chain[m]] == PASS
    decreases |chain|
  {
    if |chain| > 1 {
      DependenciesRanEarlier(tests, flags, before, executed, verdicts, after, chain[0], chain[1]);
      var rest := chain[1..];
      assert forall m :: 0 <= m < |rest| - 1 ==> DependsOn(tests, rest[m], rest[m + 1]) by {
        forall m | 0 <= m < |rest| - 1
          ensures DependsOn(tests, rest[m], rest[m + 1])
        {
          assert DependsOn(tests, chain[m + 1], chain[m + 2]);
        }
      }
      ClosurePassed(tests, flags, before, executed, verdicts, after, rest);
      assert forall m :: 1 <= m < |chain| ==> chain[m] == rest[m - 1];
    }
  }

  /**
    Only a PASS left over from an earlier pass lets a test run before its dependency: if the
    dependency is not earlier in the table, its outcome before the pass was PASS.
   */
  lemma {:induction false} LaterDependencyIsStale(tests: seq<TestDesc>, flags: seq<Bits>, before: seq<Code>,
                                                  executed: seq<bool>, verdicts: seq<Code>, after: seq<Code>,
                                                  i: nat, k: nat)
    requires Pass(tests, flags, before, executed, verdicts, after, |tests|) && i < |tests|
    requires executed[i] && DependsOn(tests, i, k)
    ensures k >= i ==> k < |tests| && before[k] == PASS
    ensures k < i ==> executed[k] && verdicts[k] == PASS
  {
    ExecutedIff(tests, flags, before, executed, verdicts, after, i);
    var d :| d in DepList(tests[i].deps) && FirstWithId(tests, d) == k;
    assert Met(tests, before, executed, verdicts, i, d);
  }

  /**
    Such a pass exists: the second of two passes over a table whose first test needs its second.
    The application as shipped makes one pass only.
   */
  lemma {:induction false} StalePassAdmitsLaterDependency()
    ensures var tests := [TestDesc(1, [2, 0], false), TestDesc(2, [0], false)];
            var flags := [Not(Zero(64)), Not(Zero(64))];
            IsFlags(flags) &&
            Pass(tests, flags, [PENDING, PASS], [true, true], [PASS, FAIL], [PASS, FAIL], 2) &&
            DependsOn(tests, 0, 1)
  {
    var tests := [TestDesc(1, [2, 0], false), TestDesc(2, [0], false)];
    var flags := [Not(Zero(64)), Not(Zero(64))];
    var before, after := [PENDING, PASS], [PASS, FAIL];
    DepListOfFirst();
    assert tests[0].deps[0] == 2;
    assert FirstWithId(tests[1..], 2) == 0;
    assert FirstWithId(tests, 2) == 1;
    assert 2 in DepList(tests[0].deps);
    assert after[..0] + before[0..] == before;
    assert DepsPassedIn(tests, before, tests[0].deps);
    assert DepsPassedIn(tests, after[..1] + before[1..], tests[1].deps);
    assert Selected(flags, 0) && Selected(flags, 1);
  }

  lemma {:induction false} DepListOfFirst()
    ensures DepList([2, 0]) == [2] && DepList([0]) == []
  {
    assert [2, 0][1..] == [0];
    assert DepList([0]) == [];
  }

  // ---------------------------------------------------------------- outcomes

  /** PE k's word is the first one that is not PASS, or k is the number of PEs. */
  ghost predicate PassBefore(words: seq<Code>, k: nat) {
    k <= |words| && (k < |words| ==> words[k] != PASS) && forall j :: 0 <= j < k ==> words[j] == PASS
  }

  /**
    The outcome of a test on all of several PEs whose words rest at final codes: that of the first PE that
    did not pass, or PASS when all did.
   */
  lemma {:induction false} AllPeOutcome(test: TestDesc, mem: Memory, words: seq<Code>, outcome: Code, k: nat)
    requires test.allPe && |words| > 1 && PollOf(test, mem, |words|, outcome) && Agree(mem, Still(words), |words|)
    requires (forall i :: 0 <= i < |words| ==> IsFinal(words[i])) && PassBefore(words, k)
    ensures outcome == if k < |words| then words[k] else PASS
  {
    VerdictAgrees(mem, Still(words), |words|, TEST_TIMEOUT, outcome);
    FinalVerdict(words, TEST_TIMEOUT, outcome);
    assert FirstNonPass(words) == k;
  }

  /**
    The outcome of a test on one PE, or of any test on a platform with one PE: the first word that
    is not pending, or TIMEOUT when all are.
   */
  lemma {:induction false} OnePeOutcome(test: TestDesc, mem: Memory, words: seq<Code>, outcome: Code, k: nat)
    requires (!test.allPe || |words| == 1) && PollOf(test, mem, |words|, outcome)
    requires Agree(mem, Still(words), |words|)
    requires k <= |words| && (k < |words| ==> words[k] != PENDING) && forall j :: 0 <= j < k ==> words[j] == PENDING
    ensures outcome == if k < |words| then words[k] else TIMEOUT
  {
    forall t: nat, i: nat | i < |words|
      ensures mem(t, i) == words[i]
    {
      assert mem(t, i) == Still(words)(t, i);
    }
    if k < |words| {
      assert mem(0, k) == words[k];
      assert !AllPending(mem, 0, |words|);
      assert Verdict(mem, 1, |words|, TEST_TIMEOUT, outcome);
      var t: nat, first: nat :| 0 <= t < TEST_TIMEOUT && FirstDone(mem, t, |words|, first) && outcome == mem(t, first);
      assert mem(t, first) == words[first] && mem(t, k) == words[k];
    }
  }

  /** Every outcome is counted once: in one of the four counters or in none of them. */
  lemma {:induction false} OutcomesPartition(status: seq<Code>)
    ensures CountOf(status, PASS) + CountOf(status, FAIL) + CountOf(status, SKIP) +
            CountOf(status, ABORT) + UncountedIn(status) == |status|
  {
    if |status| > 0 {
      OutcomesPartition(status[..|status| - 1]);
    }
  }

  /** The four counters together with the uncounted outcomes grow by the number of tests. */
  lemma {:induction false} CountersConserve(c: Counters, status: seq<Code>)
    requires c.Is32Bit()
    ensures var c' := LoggedAll(c, status);
            (c'.passed + c'.failed + c'.skipped + c'.aborted + UncountedIn(status)) % 0x1_0000_0000 ==
            (c.passed + c.failed + c.skipped + c.aborted + |status|) % 0x1_0000_0000
  {
    LoggedCounts(c, status);
    OutcomesPartition(status);
    ConserveSum(c, LoggedAll(c, status), CountOf(status, PASS), CountOf(status, FAIL), CountOf(status, SKIP),
                CountOf(status, ABORT), UncountedIn(status), |status|);
  }

  lemma {:induction false} ConserveSum(c: Counters, c': Counters, passed: nat, failed: nat, skipped: nat,
                                       aborted: nat, other: nat, total: nat)
    requires c'.passed == (c.passed + passed) % 0x1_0000_0000 && c'.failed == (c.failed + failed) % 0x1_0000_0000
    requires c'.skipped == (c.skipped + skipped) % 0x1_0000_0000 && c'.aborted == (c.aborted + aborted) % 0x1_0000_0000
    requires passed + failed + skipped + aborted + other == total
    ensures (c'.passed + c'.failed + c'.skipped + c'.aborted + other) % 0x1_0000_0000 ==
            (c.passed + c.failed + c.skipped + c.aborted + total) % 0x1_0000_0000
  {
    var p, f, k, a := c.passed + passed, c.failed + failed, c.skipped + skipped, c.aborted + aborted;
    SumOfWraps(p, f, k, a, other);
    assert p + f + k + a + other == c.passed + c.failed + c.skipped + c.aborted + total;
  }

  lemma {:induction false} SumOfWraps(a: nat, b: nat, c: nat, d: nat, e: nat)
    ensures (a % 0x1_0000_0000 + b % 0x1_0000_0000 + c % 0x1_0000_0000 + d % 0x1_0000_0000 + e)
            % 0x1_0000_0000 == (a + b + c + d + e) % 0x1_0000_0000
  {}
}
