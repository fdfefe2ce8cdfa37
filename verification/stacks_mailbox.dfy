/**
  The mailbox protocol on the slots that start-up gives the PEs of a MADT: which tables let a
  cross-PE call return at all.
 */
module StacksMailbox {
  import opened Counting
  import opened Mpidr
  import opened Madt
  import opened Stacks
  import opened Mailbox
  import opened MailboxProgress
  import opened MailboxPower

  /** Each PE polls the slot of its position; the mailboxes are those of the whole affinity space. */
  ghost function ConfigOf(table: seq<PeEntry>): Config {
    var max := MaxAffinity(table);
    Config(Positions(table, max), Slots(max))
  }

  /** A secondary polls a slot that the boot PE writes for some table index. */
  predicate PositionUsed(table: seq<PeEntry>, j: nat)
    requires j < |table|
  {
    1 <= CorePos(Fields(table[j].mpidr), MaxAffinity(table)) < |table|
  }

  /** Distinct affinities give the PEs distinct slots within the affinity space. */
  lemma {:induction false} ConfigValid(table: seq<PeEntry>)
    requires |table| > 0 && DistinctAffinities(table)
    ensures ConfigOf(table).Valid()
  {
    StackPigeonhole(table);
    PositionsDistinct(table);
  }

  /** Distinct numbers from 1 to n, n of them, leave none out. */
  lemma {:induction false} NoneLeftOut(s: seq<nat>, slot: nat)
    requires forall i :: 0 <= i < |s| ==> 1 <= s[i] <= |s|
    requires forall i, j :: 0 <= i < j < |s| ==> s[i] != s[j]
    requires 1 <= slot <= |s|
    ensures slot in s
  {
    if slot !in s {
      var all := s + [slot];
      var shifted := seq(|all|, i requires 0 <= i < |all| => (all[i] - 1) as nat);
      Pigeonhole(shifted, |s|);
    }
  }

  /** When the secondaries' positions are numbers from 1 up to their count, each such slot is polled. */
  lemma {:induction false} UsedMeansOwned(table: seq<PeEntry>, slot: nat)
    requires DistinctAffinities(table) && 1 <= slot < |table|
    requires forall j :: 1 <= j < |table| ==> PositionUsed(table, j)
    ensures ConfigOf(table).Owned(slot)
  {
    var cfg := ConfigOf(table);
    ConfigValid(table);
    var polled := cfg.pos[1..];
    assert forall i :: 0 <= i < |polled| ==> polled[i] == cfg.pos[i + 1] && PositionUsed(table, i + 1);
    NoneLeftOut(polled, slot);
    var i :| 0 <= i < |polled| && polled[i] == slot;
    assert cfg.pos[i + 1] == slot;
  }

  lemma {:induction false} AllOwnedIff(table: seq<PeEntry>)
    requires |table| > 0 && DistinctAffinities(table)
    ensures ConfigOf(table).AllOwned() <==> forall j :: 1 <= j < |table| ==> PositionUsed(table, j)
  {
    var cfg := ConfigOf(table);
    ConfigValid(table);
    if cfg.AllOwned() {
      forall j | 1 <= j < |table|
        ensures PositionUsed(table, j)
      {
        PolledSlotsAreWritten(cfg, j);
      }
    }
    if forall j :: 1 <= j < |table| ==> PositionUsed(table, j) {
      forall slot | 1 <= slot < |table|
        ensures cfg.Owned(slot)
      {
        UsedMeansOwned(table, slot);
      }
    }
  }

  /**
    On a MADT with distinct affinities, a cross-PE call returns in some interleaving if and only
    if every PE but the first has a position from 1 up to the number of PEs less one; with any
    other numbering the boot PE spins for ever in every interleaving.
   */
  lemma {:induction false} CallReturnsIff(table: seq<PeEntry>, s0: State)
    requires |table| > 0 && DistinctAffinities(table) && IsInit(ConfigOf(table), s0)
    ensures SomeCallReturns(ConfigOf(table), s0) <==> forall j :: 1 <= j < |table| ==> PositionUsed(table, j)
  {
    ConfigValid(table);
    AllOwnedIff(table);
    ReturnsIffEverySlotPolled(ConfigOf(table), s0);
  }

  /** And then, as long as only calls are made, every fair schedule returns from every call. */
  lemma {:induction false} FairCallsReturn(table: seq<PeEntry>, states: nat -> State, sched: nat -> Step, n: nat)
    requires |table| > 0 && DistinctAffinities(table) && forall j :: 1 <= j < |table| ==> PositionUsed(table, j)
    requires IsInit(ConfigOf(table), states(0)) && Unending(ConfigOf(table), states, sched)
    requires Fair(ConfigOf(table), states, sched) && CalmFrom(sched, 0)
    ensures exists k: nat :: k >= n && states(k).boot.Idle?
  {
    ConfigValid(table);
    AllOwnedIff(table);
    InitIsLive(ConfigOf(table), states(0));
    EveryFairCallReturns(ConfigOf(table), states, sched, n);
  }

  /** Two clusters of different size: no cross-PE call ever returns. */
  lemma {:induction false} UnequalClustersNeverReturn(s0: State)
    requires IsInit(ConfigOf(UnequalClusters()), s0)
    ensures !SomeCallReturns(ConfigOf(UnequalClusters()), s0)
  {
    var table := UnequalClusters();
    GapBetweenClusters();
    assert Positions(table, MaxAffinity(table))[4] == 5;
    assert !PositionUsed(table, 4);
    CallReturnsIff(table, s0);
  }
}
