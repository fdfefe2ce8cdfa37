# Verified model of the ACS harness

The Arm architecture compliance suites for SDEI and MPAM rest on a small harness: a protocol that
runs code on other PEs, a test scheduler, PSCI launching and waiting, firmware-table walkers, page
search, list building, register arithmetic, and a script that patches a configuration window inside
a boot image. This project models that harness in Dafny 4.11 and proves what its callers rely on.
`dafny verify dfyconfig.toml` checks all of it.

* `mailbox.dfy`, `mailbox_progress.dfy`, `mailbox_power.dfy`, `sdei_status.dfy`, `sdei_all_pe.dfy`:
  the SDEI cross-PE mailbox as a state machine over interleaved single memory accesses, start-up,
  power-off and power-on of the secondaries included; when calls return and whom they can miss; the
  OR-based status poll, and the two together.
* `sdei_scheduler.dfy`, `sdei_schedule_laws.dfy`, `flag_words.dfy`: the scheduler with enable bits,
  dependency lists and counters.
* `mpam_status.dfy`, `mpam_launch.dfy`, `mpam_verdict.dfy`, `mpam_test_run.dfy`: CPU_ON (Arm
  DEN0022, section 5.1), result slots, waiting and the verdict, and a whole test from launch to verdict.
* `mpam_contention.dfy`, `mpam_scenarios.dfy`, `mpam_leftover.dfy`, `mpam_wait.dfy`: the contention
  handshake of the bandwidth tests, the order of what it does, and the life of its shared buffers;
  one model stands for the MBWMIN and the MBWMAX test, whose handshake code is the same.
* `mpam_lists.dfy`, `mpam_build.dfy`, `mpam_free.dfy`, `mpam_table.dfy`, `mpam_builder.dfy`: linked
  lists from a flat description, arrays from the lists, and the lists freed.
* `mpidr.dfy`, `madt.dfy`, `stacks.dfy`, `timers.dfy`: MPIDR packing, the MADT walk (section 5.2.12
  of ACPI 6.1), secondary stacks, GTDT timers (section 5.2.24 of ACPI 6.1).
* `stacks_mailbox.dfy`: the mailbox protocol on the slots that a given MADT leads to.
* `pages.dfy`, `pages_inside.dfy`: first-fit page search, shared buffers, rollback, and which
  buffers lie in the node.
* `partition.dfy`, `fraction.dfy`, `msc_registers.dfy`: portion bitmaps and fixed-point fractions.
* `text.dfy`, `luv_config.dfy`, `luv_config_laws.dfy`: the configuration patcher.
* `counting.dfy`, `options.dfy`: a pigeonhole lemma and an option type.

Firmware, hardware and test bodies are parameters: a payload is the status code it stores, a status
poll sees memory as a function of time, PSCI replies are an arbitrary sequence, the page allocator
is the set of free pages. Memory is sequentially consistent.

## Where the code falls short of its purpose

Each of these is proved together with the exact condition under which the code does what it is for.

* The stack pool's byte count is 32 bits wide and wraps; the slots of the boot PE fit if and only if
  the pool that is left is as large as the slots (`Stacks.SlotsInPoolIff`, and `Stacks.PoolSizeWraps`
  for a pool of zero bytes).
* A secondary PE polls the slot of its position in the affinity space, the boot PE writes the slot of
  the table index. After start-up a cross-PE call returns in some interleaving, and then in every fair
  one, if and only if the positions of all PEs but the first lie between 1 and their count
  (`StacksMailbox.CallReturnsIff`, `StacksMailbox.FairCallsReturn`); two clusters of different size
  are enough to make the boot PE spin for ever (`StacksMailbox.UnequalClustersNeverReturn`).
* Start-up code zeroes a secondary's mailbox, PowerOffPe is posted in it, and nothing waits for
  either. A post that meets a PE still starting is erased, and the boot PE goes on although nothing
  ran there (`Mailbox.MissedIffStarting`); one that meets a PE that is off, or has found PowerOffPe,
  is never answered (`Mailbox.HangsForEver`). Calls are complete in every interleaving and return
  under every fair schedule if and only if every secondary polls and has no power-off outstanding
  (`MailboxPower.CallsGoodIffReady`). Test 047 turns a PE off and on and makes a call at once: the
  call can be lost, and the test then passes, or it can hang (`MailboxPower.PowerCycleLosesCall`,
  `MailboxPower.PowerCycleHangs`).
* A pending status word blends with a later one under OR (`SdeiStatus.StillVerdictIff`,
  `SdeiStatus.PendingBlends`).
* In a second pass over the tests a PASS left from the first lets a test run before its dependency
  (`SdeiScheduleLaws.ExecutedIff`, `SdeiScheduleLaws.StalePassAdmitsLaterDependency`); the application
  makes one pass only, in which this cannot happen (`SdeiScheduleLaws.ClosurePassed`).
* A CPU_ON reply outside PSCI's range can leave a slot in no test state (`MpamLaunch.FailureStateIff`,
  `MpamLaunch.UndefinedReplyCorruptsState`).
* After a time-out one late write can make the check pass, if and only if the marked PE and an earlier
  one are still pending and all others passed (`MpamVerdict.LateWriteFoolsIff`); the contention tests'
  time-out exit frees buffers that may be in use (`MpamContention.ErrorExitIff`), and a contention
  test that begins while a PE is still in the payload of the one before is not safe either, even if
  no wait of its own times out (`MpamLeftover.SafeIffNobodyBusy`).
* The wait budget vanishes for a number of PEs divisible by 256 (`MpamWait.BudgetVanishesIff`).
* Every MPAM cache array has room for PE 0's count, so on a symmetric platform the primary must be
  PE 0 (`MpamBuilder.SymmetricFitsIff`).
* The timer decoder agrees with a flat lookup off block boundaries only and never reaches the first
  timer of a later block (`Timers.DecodeAgreesIff`, `Timers.FirstTimerUnreachable`). The second
  interrupt belongs to a timer of the GTDT if and only if its instance is no boundary; in zeroed
  memory a boundary makes the search succeed with interrupt 0 though all timers are secure
  (`Timers.SecondInterruptMeaning`, `Timers.BlankSlotFound`).
* Pages at address 0 are taken and lost (`Pages.RollbackRestoresIff`). Each PE searches a window as
  large as the node; all buffers lie in the node if and only if it had enough allocatable multiples
  (`PagesInside.AllInsideIff`).
* Portion words are written 32 bytes apart, registers that are not written keep their bits, and for no
  portions nothing is written: the bitmap is the intended one if and only if one word is enough, its
  filler is full, and no bit was set outside it before (`Partition.IntendedBitmapIff`); a node of
  width 3 keeps its portions when it goes from 75 to 25 percent (`Partition.LowerSettingIgnored`). A
  percentage of 0 is written as 100 (`Fraction.FullIff`).
* A second run of the patcher can change the file (`LuvConfigLaws.SecondRunIff`). The script's own
  comment speaks of replacing lines, but lines that set no known key are dropped.

## Model

| member | source | states |
|---|---|---|
| Mailbox.StepKeepsInv | sdei/platform/pal_uefi/src/pal_pe.c:170-184 | every memory access of the boot PE or a secondary, start-up store, power-off posts and power-ons included, keeps: one call in flight at most, the payload seen is the one posted with its argument, events in slot order |
| Mailbox.MutualExclusion | sdei/platform/pal_uefi/src/pal_pe.c:296-317 | in every interleaving no two PEs are inside a payload, and a secondary inside one runs the call in progress |
| Mailbox.Quiescent | sdei/platform/pal_uefi/src/pal_pe.c:87-94 | between calls no secondary has a call's payload in hand, and a polling one's mailbox holds zero or a PowerOffPe it has not found yet |
| Mailbox.ReturnedCallsRanInOrder | sdei/platform/pal_uefi/src/pal_pe.c:296-317 | call r that returned is the r-th that was asked for; it went through the boot PE and the slots in ascending order, and in each its payload ran once with its argument on the owner, or nothing ran because the owner had not started |
| Mailbox.RecordsAreExact | sdei/platform/pal_uefi/src/pal_pe.c:296-317 | on every run the calls returned, and then the one in progress, are those asked for, in order, and the payload runs on record are the status stores made, in order: none lost, repeated or made up |
| Mailbox.MissedIffStarting | sdei/platform/pal_uefi/src/AArch64/ModuleEntryPoint.S:69-86 | nothing runs for a post if and only if the slot's PE had not yet run its start-up code when the payload was written |
| Mailbox.HangsForEver | sdei/platform/pal_uefi/src/pal_pe.c:110-117 | a post that meets a PE that is off or has found PowerOffPe keeps the boot PE spinning on it in every interleaving |
| Mailbox.CallsWhenReady | sdei/platform/pal_uefi/src/pal_pe.c:296-317 | every call made while all secondaries poll with empty mailboxes, and nobody is powered off or on, runs on every PE with the payload and argument asked for, in every interleaving |
| Mailbox.ExactlyOncePerPe | sdei/platform/pal_uefi/src/pal_pe.c:296-317 | a complete call ran exactly once on every PE, whatever slots the PEs poll |
| Mailbox.StatusAtReturn | sdei/val/src/val_test_infra.c:214-247 | at the step that returns, the status word of every PE that ran is the code its run stored |
| MailboxPower.CallsGoodIffReady | sdei/platform/pal_uefi/src/pal_pe.c:147-155 | when every written slot is polled by some PE: between calls, all later calls are complete in every interleaving and return under every fair schedule if and only if every secondary polls and none is off, starting, in PowerOffPe or about to find it |
| MailboxPower.PowerCycleLosesCall | sdei/test_pool/tests/test_047.c:58-62 | power-off, power-on and a call in a row, from any state with all PEs ready: some interleaving returns without having run on that PE |
| MailboxPower.PowerCycleHangs | sdei/test_pool/tests/test_047.c:58-62 | and some other one ends with the boot PE spinning for ever |
| MailboxPower.FairScheduleExists | sdei/platform/pal_uefi/src/pal_pe.c:296-317 | from every state there is an unending fair schedule of calls, so nothing about fair schedules holds for want of one |
| MailboxProgress.CanReturn | sdei/platform/pal_uefi/src/pal_pe.c:305-314 | with every slot polled and no PE off or going off there is no deadlock: a call in progress can end |
| MailboxProgress.OthersDoNotDelay | sdei/platform/pal_uefi/src/pal_pe.c:305-314 | no step of another PE delays the call or changes whom it waits for |
| MailboxProgress.EveryFairCallReturns | sdei/platform/pal_uefi/src/pal_pe.c:305-314 | then, while only calls are made, every call in progress returns under every schedule that stops no PE for ever |
| MailboxProgress.ReturnsIffEverySlotPolled | sdei/platform/pal_uefi/src/pal_pe.c:305-314 | some run from start-up returns from a call if and only if every slot that is written is polled by some PE |
| SdeiStatus.GetStatus | sdei/val/src/val_test_infra.c:264-294 | the poll over any memory history returns the first deciding sweep's code, or TIMEOUT after the given number of undecided sweeps |
| SdeiStatus.StillVerdictIff | sdei/val/src/val_test_infra.c:264-294 | on words at rest the multi-PE poll gives the lowest non-passing PE's code exactly when that word has the FAIL bit, all passed, or the coincidence with TIMEOUT |
| SdeiStatus.FinalVerdict | sdei/val/include/val_test_infra.h:18-26 | with final codes only, the poll always gives the lowest non-passing PE's code, or PASS |
| SdeiStatus.StillFirstSweep | sdei/val/src/val_test_infra.c:279-292 | on words at rest a decision comes in the first sweep or never |
| SdeiStatus.PendingBlends | sdei/val/src/val_test_infra.c:279-292 | PENDING followed by ABORT is reported as SKIP |
| SdeiAllPe.WordsAtRest | sdei/val/src/val_test_infra.c:264-294 | from the return of a call to the next call no status word changes, whatever the secondaries do |
| SdeiAllPe.AllPeVerdict | sdei/val/src/val_test_infra.c:264-294 | with all PEs ready, after any interleaving of a cross-PE call whose payload stores final codes, and in any interleaving of the secondaries with the poll, the poll returns the code of the lowest-index PE that did not pass, or PASS, whatever slots the PEs poll |
| SdeiScheduler.Control.constructor | sdei/val/src/val_test_infra.c:109-161 | all tests start pending, as published, and enabled; the counters are those that SdeiAcsMain.c zeroes before the pass |
| SdeiScheduler.Control.Enable | sdei/val/src/val_test_infra.c:169-180 | exactly the bit of the first test with the id is set; an unknown id changes nothing |
| SdeiScheduler.Control.Disable | sdei/val/src/val_test_infra.c:182-187 | the same for clearing |
| SdeiScheduler.Control.RunSpecific | sdei/val/src/val_test_infra.c:52-61 | afterwards exactly that test is selected, or it in addition to those before |
| SdeiScheduler.Control.DepsResolved | sdei/val/src/val_test_infra.c:24-36 | true if and only if every id before the terminating zero belongs to a test that passed |
| SdeiScheduler.Control.Execute | sdei/val/src/val_test_infra.c:194-212 | for any test bodies: a test is run or skipped by bit and dependencies at that moment; the outcome of one that ran is a poll verdict over all PEs if it is an all-PE test, else over one; any other is SKIP; the four counters grow by the numbers of their outcomes, modulo 32 bits |
| SdeiScheduleLaws.AllPeOutcome | sdei/val/src/val_test_infra.c:194-212 | on several PEs whose words rest at final codes, the outcome of an all-PE test is the code of the lowest PE that did not pass, or PASS |
| SdeiScheduleLaws.OnePeOutcome | sdei/val/src/val_test_infra.c:264-278 | otherwise, or on a platform with one PE, it is the first word that is not PENDING, or TIMEOUT |
| SdeiScheduleLaws.ExecutedIff | sdei/val/src/val_test_infra.c:24-42 | a test is executed if and only if its bit is set and each dependency passed earlier in the pass, or, if it is not earlier, before the pass |
| SdeiScheduleLaws.DependenciesRanEarlier | sdei/val/src/val_test_infra.c:24-42 | from a table without old passes, an executed test's dependencies sit earlier, were executed and passed |
| SdeiScheduleLaws.ClosurePassed | sdei/val/src/val_test_infra.c:24-42 | so did its whole dependency closure, and it is on no cycle |
| SdeiScheduleLaws.LaterDependencyIsStale | sdei/val/src/val_test_infra.c:24-42 | a dependency that is not earlier in the table can only be met by an old PASS |
| SdeiScheduleLaws.StalePassAdmitsLaterDependency | sdei/val/src/val_test_infra.c:194-212 | a second pass in which this happens; the application makes one pass |
| SdeiScheduleLaws.CountersConserve | sdei/val/src/val_test_infra.c:74-102 | passed, failed, skipped, aborted and uncounted outcomes grow by the number of tests, modulo 32 bits |
| MpamStatus.ResultState | mpam/val/include/val_common.h:28-61 | a result word read back gives the state, the test number and the detail it was built from |
| MpamLaunch.Launcher.ExecuteOnPe | mpam/val/src/val_pe_infra.c:183-216 | for any replies the retry stops within TIMEOUT_LARGE + 1 attempts and either started the payload once, slot untouched, or started nothing and marked the slot |
| MpamLaunch.DefinedErrorsFail | mpam/val/src/val_pe_infra.c:208-215 | for every error PSCI defines, -e with e from 1 to 9, the mark reads as FAIL with detail 0x120 + e |
| MpamLaunch.FailureStateIff | mpam/val/include/val_common.h:28-61 | a mark reads as FAIL if and only if its detail leaves the state bits alone |
| MpamLaunch.UndefinedReplyCorruptsState | mpam/val/src/val_pe_infra.c:208-215 | another reply can leave a word in no test state |
| MpamLaunch.Launcher.LaunchOthers | mpam/val/src/val_test_infra.c:416-434 | every other PE is launched in table order, once if its last reply was success, else marked |
| MpamVerdict.Totals.InitializeTest | mpam/val/src/val_test_infra.c:103-129 | all slots pending, except the caller's own when the user skips the test |
| MpamVerdict.WaitForTestCompletion | mpam/val/src/val_test_infra.c:380-402 | for every time-out the wait ends with nothing pending, or marks a PE seen pending after which all later PEs are done; a time-out of 1 marks index -1 unseen |
| MpamVerdict.Totals.CheckForError | mpam/val/src/val_test_infra.c:446-496 | for one PE the caller's slot decides; for more, the first slot that is FAIL or SKIP gives FAIL or SKIP, and without one the last slot gives PASS or FAIL; the pass and fail counters grow in exactly those cases |
| MpamVerdict.VerdictIff | mpam/val/src/val_test_infra.c:446-496 | on several slots each of PASS, SKIP and FAIL if and only if: no bad slot and the last PASS; the first bad slot SKIP; the first bad slot FAIL, or no bad slot and the last not PASS |
| MpamVerdict.CheckAloneIff | mpam/val/src/val_test_infra.c:446-496 | the check alone passes if and only if no slot is bad and the last one is PASS |
| MpamVerdict.VerdictSound | mpam/val/src/val_test_infra.c:446-496 | after the wait it passes if and only if every slot is PASS |
| MpamVerdict.FinalSlotAt | mpam/val/src/val_test_infra.c:395-401 | after a time-out the marked slot reads as FAIL with detail 0xF, and every other slot is what its PE left there |
| MpamVerdict.TimeoutNeverPasses | mpam/val/src/val_test_infra.c:395-401 | a time-out mark that stays excludes PASS |
| MpamVerdict.WaitAndCheck | mpam/val/src/val_test_infra.c:416-434 | over all write-once histories PASS is returned if and only if the wait ended by itself with every slot PASS |
| MpamVerdict.FooledIff | mpam/val/src/val_test_infra.c:446-496 | on any test states the check passes with a PE not passing if and only if all are PASS or PENDING, the last is PASS and one is PENDING |
| MpamVerdict.WrongPassNeedsOverwrite | mpam/val/src/val_test_infra.c:395-401 | a wrong PASS after a time-out means that the marked PE overwrote its mark with PASS while an earlier PE is still pending |
| MpamVerdict.LateWriteFoolsIff | mpam/val/src/val_test_infra.c:395-401 | some late write makes the check pass wrongly if and only if the marked and an earlier PE are pending at the time-out and all that finished passed |
| MpamVerdict.LateWriteFoolsCheck | mpam/val/src/val_test_infra.c:446-496 | so with two or more PEs none of which finishes in time, the wait ends with a mark and one late PASS is enough |
| MpamTestRun.RunAndCheck | mpam/val/src/val_test_infra.c:416-434 | from launch to verdict: PASS is returned only if every other PE was started exactly once and every PE has written PASS |
| MpamTestRun.StartedOnce | mpam/val/src/val_test_infra.c:426-431 | a PE is among the launches once if its last reply was success, else not at all |
| MpamTestRun.PassMeansStarted | mpam/val/src/val_test_infra.c:416-434 | all slots PASS means that every other PE could be started |
| MpamContention.StepKeepsInv | mpam/test_pool/memory/test_d002.c:227-340 | every step before a time-out keeps: busy PEs were launched for the current scenario, their slots are pending, and the buffers are allocated |
| MpamContention.NoTouchAfterFree | mpam/test_pool/memory/test_d002.c:266-339 | if no PE is in an earlier test's payload at the start and no wait timed out, no secondary touches a buffer that is not allocated, in every interleaving |
| MpamLeftover.SafeIffNobodyBusy | mpam/test_pool/memory/test_d003.c:227-340 | with a node to test and whatever PEs are still on, that safety holds if and only if no PE is in an earlier test's payload when the test begins |
| MpamContention.WritesHitOwnScenario | mpam/test_pool/memory/test_d002.c:152-161 | a result is only stored over the PENDING of the scenario the PE was started for |
| MpamContention.CleanSweepMeansQuiet | mpam/test_pool/memory/test_d002.c:35-70 | after a sweep without pending slots no other PE is busy |
| MpamScenarios.EveryScenarioRuns | mpam/test_pool/memory/test_d002.c:227-340 | unless an allocation fails or a wait times out: when k nodes are done, each had both scenarios in order, each with one call for every other PE between flag up and flag down, and then its buffers freed, and nothing else was done |
| MpamScenarios.FlagFollows | mpam/test_pool/memory/test_d002.c:269-290 | the flag is up whenever a PE is called and down while the primary waits |
| MpamScenarios.CallOutcome | mpam/test_pool/memory/test_d002.c:273-279 | until the next scenario a PE's slot is PENDING and then PASS if its call succeeded, and FAIL if not |
| MpamContention.ErrorExitIff | mpam/test_pool/memory/test_d002.c:370-383 | after the time-out exit, even one reported after a clean sweep, freed memory can be touched if and only if some PE is copying or about to load its pointer |
| MpamContention.ErrorExitUnsafe | mpam/test_pool/memory/test_d003.c:370-383 | a run to such a state exists |
| MpamWait.WaitForSecondaryOff | mpam/test_pool/memory/test_d002.c:35-70 | 0 is returned if and only if a clean sweep comes within the budget, which a 32-bit product limits |
| MpamWait.BudgetVanishesIff | mpam/test_pool/memory/test_d002.c:35-70 | the budget counts the PEs modulo 256, so it is zero if and only if 256 divides their number |
| MpamLists.DealtExactly | mpam/platform/pal_uefi_acpi_override/src/pal_mpam.c:615-638 | dealing the nodes out gives each PE its own private nodes in the description's order |
| MpamLists.ListOrderAt | mpam/platform/pal_uefi_acpi_override/src/pal_mpam.c:621-629 | a list is the first node, then the others from the last to the second |
| MpamBuild.InsertAtHead | mpam/platform/pal_uefi_acpi_override/src/pal_mpam.c:621-629 | the heap list of a PE with one node more is that order of its longer node sequence; other heads are untouched |
| MpamBuild.BuildLists | mpam/platform/pal_uefi_acpi_override/src/pal_mpam.c:607-638 | the heap holds every PE's list in unshared cells, the cluster pointers in order without overflow, the last other node as system; exactly those blocks were allocated |
| MpamFree.FreePrivateCaches | mpam/platform/pal_uefi_acpi_override/src/pal_mpam.c:528-553 | every list cell is read before it is freed and freed once, then the heads, and nothing else |
| MpamFree.LandsExactlyOnce | mpam/platform/pal_uefi_acpi_override/src/pal_mpam.c:615-638 | a private node is in its own PE's list once and in no other list; other nodes are in none |
| MpamFree.LengthsConserve | mpam/platform/pal_uefi_acpi_override/src/pal_mpam.c:615-638 | the list lengths sum to the number of private nodes |
| MpamTable.GetCacheCount | mpam/platform/pal_uefi_acpi_override/src/pal_mpam.c:289-304 | the walk counts the list's nodes |
| MpamTable.GetClusterNode | mpam/platform/pal_uefi_acpi_override/src/pal_mpam.c:316-335 | the first cluster node with the same Aff1 to Aff3, or none |
| MpamTable.ClusterIdIff | mpam/platform/pal_uefi_acpi_override/src/pal_mpam.c:316-335 | the masked comparison holds if and only if Aff1, Aff2 and Aff3 are equal |
| MpamTable.RowMeaning | mpam/platform/pal_uefi_acpi_override/src/pal_mpam.c:393-458 | entry by entry (first private node, the others reversed, cluster node, system node) every field is the node's own: register base, size, neighbours, delay and interrupts always, scope, index, line size and attributes when they fit their bit fields |
| MpamTable.FillPe | mpam/platform/pal_uefi_acpi_override/src/pal_mpam.c:643-674 | a PE's array holds exactly its row, within bounds; MpamTable.RowMeaning says what that is |
| MpamBuilder.FillMpamInfoTable | mpam/platform/pal_uefi_acpi_override/src/pal_mpam.c:583-694 | on a well-described platform every PE's array has one entry for each of its private nodes, the first of its cluster's nodes and, on the primary PE, the last system node, in that order, with all their fields, all said of the description itself; and all scratch blocks, and only they, are freed once |
| MpamBuilder.SymmetricFitsIff | mpam/platform/pal_uefi_acpi_override/src/pal_mpam.c:654-665 | with equal private counts and one primary, no array overflows if and only if the primary is PE 0 |
| MpamBuilder.PrimaryIsCurrent | mpam/platform/pal_uefi_acpi_override/src/pal_mpam.c:645-652 | when all private nodes name known PEs, the PE taken for primary is the one with the current MPIDR |
| Mpidr.PackThenUnpack | sdei/val/src/val_gic.c:397-407 | packing any 64-bit MPIDR and unpacking it for the GIC keeps exactly the four affinity fields |
| Mpidr.PackedIsTableFormIff | sdei/val/src/val_pe.c:245-256 | the packed form equals the table form if and only if Aff3 is zero |
| Mpidr.GetIndexOfMpid | mpam/val/src/val_pe_infra.c:128-146 | the scan returns the number of the first entry with the MPIDR, or the fallback |
| Mpidr.IndexThenMpid | sdei/val/src/val_pe.c:258-297 | a found index leads back to the MPIDR, and an index is found if and only if the MPIDR is in the table |
| Mpidr.MpidThenIndexIff | sdei/val/src/val_pe.c:258-297 | MPIDR of index and index of MPIDR are inverse if and only if no two entries share an MPIDR |
| Mpidr.OwnIndexLookupIff | sdei/val/src/val_pe.c:299-309 | a PE finds itself if and only if its Aff3 is zero |
| Madt.WalkMadt | sdei/platform/pal_uefi/src/pal_pe.c:259-283 | the table has one numbered entry per GICC structure visited, enabled or not, and the maxima are those of the table |
| Madt.EntriesMeaning | sdei/platform/pal_uefi/src/pal_pe.c:259-283 | each GICC structure visited, and nothing else, has an entry at the number of such structures before it, with that number, its MPIDR and its interrupt |
| Madt.MaximaMeaning | sdei/platform/pal_uefi/src/pal_pe.c:262-281 | each maximum is one entry's field, and no entry's is larger |
| Madt.PlatformLayer.CreateInfoTable | sdei/platform/pal_uefi/src/pal_pe.c:227-294 | table, numbered in its order, maxima, stack pool and power-on calls follow from the records visited; without a MADT nothing changes |
| Madt.PlatformLayer.AllocateSecondaryStack | mpam/platform/pal_uefi_acpi_override/src/pal_pe.c:74-96 | the pool is allocated once, with the 32-bit byte count of the affinity space |
| Stacks.StackPigeonhole | sdei/platform/pal_uefi/src/pal_pe.c:195-217 | with distinct affinities there are no more PEs than the product of the maxima plus one |
| Stacks.SlotsInPoolIff | sdei/platform/pal_uefi/src/pal_pe.c:195-217 | all slots addressed by table index are inside the pool if and only if its 32-bit byte count, the slots modulo 2^23, covers them |
| Stacks.StacksDisjointInPool | sdei/platform/pal_uefi/src/pal_pe.c:36 | the slots of table indices 1 and up are disjoint, and inside the pool whenever the affinities are distinct and nothing wraps |
| Stacks.WrapsToNothing | sdei/platform/pal_uefi/src/pal_pe.c:195-217 | with a multiple of 2^23 slots the pool is empty and any secondary's slot is outside |
| Stacks.PoolSizeWraps | sdei/platform/pal_uefi/src/pal_pe.c:195-217 | two PEs for which this happens |
| Stacks.CorePosInjective | sdei/platform/pal_uefi/src/AArch64/ModuleEntryPoint.S:30-86 | start-up gives distinct PEs distinct positions |
| Stacks.CorePosOrder | sdei/platform/pal_uefi/src/AArch64/ModuleEntryPoint.S:30-86 | positions are in the order of the affinities, Aff3 first |
| Stacks.StartupSlot | sdei/platform/pal_uefi/src/AArch64/ModuleEntryPoint.S:30-86 | a PE polls the slot of its index if and only if its position is its index |
| StacksMailbox.ConfigValid | sdei/platform/pal_uefi/src/AArch64/ModuleEntryPoint.S:30-86 | on every MADT with distinct affinities the PEs poll distinct mailboxes within the affinity space |
| StacksMailbox.CallReturnsIff | sdei/platform/pal_uefi/src/pal_pe.c:296-317 | on such a MADT a cross-PE call can return if and only if every PE but the first has a position between 1 and the number of PEs less one |
| StacksMailbox.FairCallsReturn | sdei/platform/pal_uefi/src/pal_pe.c:296-317 | and then every call returns under every fair schedule |
| StacksMailbox.UnequalClustersNeverReturn | sdei/platform/pal_uefi/src/AArch64/ModuleEntryPoint.S:30-86 | with clusters of two and three PEs no call returns in any interleaving |
| Timers.TimerTable.CreateInfoTable | sdei/platform/pal_uefi/src/pal_wd_timer.c:93-122 | every GT block is in its place with its timers, other slots are as before, and the header counts all timers |
| Timers.SlotMeaning | sdei/platform/pal_uefi/src/pal_wd_timer.c:103-111 | a slot has the timer's addresses, physical and virtual interrupt, and reads as secure if and only if the common flags say so, or a reserved bit of the others is set that the shift moves there |
| Timers.GtBlocksMeaning | sdei/platform/pal_uefi/src/pal_wd_timer.c:93-122 | the blocks filled are all GT blocks of the GTDT, in its order |
| Timers.TimerTable.GetEntryIndex | sdei/platform/pal_uefi/src/pal_wd_timer.c:203-216 | an instance up to the count stops in a filled block with earlier counts plus index equal to it; others are refused |
| Timers.DecodeUnique | sdei/val/src/val_timer.c:87-101 | that property determines the decoder's answer |
| Timers.DecodeAgreesIff | sdei/val/src/val_timer.c:87-101 | an in-range instance decodes as a flat 0-based lookup if and only if it is no boundary between blocks |
| Timers.FirstTimerUnreachable | sdei/val/src/val_timer.c:87-101 | no instance leads to the first timer of a later block |
| Timers.BoundaryReadsPastBlock | sdei/val/src/val_timer.c:87-101 | its flat instance reads one slot past an earlier block's timers |
| Timers.WalkedTimerFound | sdei/platform/pal_uefi/src/pal_wd_timer.c:218-246 | on a walked table every other instance leads to its timer's data: the physical interrupt and the security of that GTDT timer |
| Timers.TimerTable.ConfigureSecondInterrupt | sdei/platform/pal_uefi/src/pal_wd_timer.c:248-277 | the highest instance whose decoded slot is non-secure, or an error if and only if there is none |
| Timers.SecondInterruptMeaning | sdei/platform/pal_uefi/src/pal_wd_timer.c:248-277 | on a walked table the interrupt found is a GTDT timer's physical one if and only if its instance is no boundary; then that timer is non-secure in the GTDT and all reachable ones behind it are secure |
| Timers.BlankSlotFound | sdei/platform/pal_uefi/src/pal_wd_timer.c:248-277 | in zeroed memory with all timers secure and a boundary in range, success is returned with interrupt 0 |
| Pages.Platform.AllocateAddress | mpam/platform/pal_uefi_acpi_override/src/pal_misc.c:434-472 | for every size above zero the loop ends with the first accepted round's pages, or with none taken and NULL, wrap-around included |
| Pages.SearchMeaning | mpam/platform/pal_uefi_acpi_override/src/pal_misc.c:434-472 | on a node that holds a buffer this is the least accepted multiple, wholly inside the node, or NULL with every multiple inside refused |
| Pages.PagesOfIff | mpam/platform/pal_uefi_acpi_override/src/pal_misc.c:451-456 | the pages asked for are exactly those that hold a byte of the buffer |
| Pages.Platform.AllocateShared | mpam/platform/pal_uefi_acpi_override/src/pal_misc.c:221-264 | 1 with one buffer per PE, or 0 after giving back the buffers held |
| Pages.ShareConserves | mpam/platform/pal_uefi_acpi_override/src/pal_misc.c:221-264 | free, held and lost pages are disjoint and make up what was free; buffers are pairwise disjoint |
| Pages.FreeUndoesShare | mpam/platform/pal_uefi_acpi_override/src/pal_misc.c:287-300 | a full free after a success restores the initial free pages |
| Pages.RollbackRestoresIff | mpam/platform/pal_uefi_acpi_override/src/pal_misc.c:244-256 | a failed call restores the free pages if and only if the node does not start at address 0 with its first buffer free |
| PagesInside.BuffersAreFirst | mpam/platform/pal_uefi_acpi_override/src/pal_misc.c:244-249 | the buffers of a successful call are the first allocatable multiples of the node, in ascending order |
| PagesInside.AllInsideIff | mpam/platform/pal_uefi_acpi_override/src/pal_misc.c:244-249 | all of them lie in the node if and only if at least as many multiples inside the node were allocatable at the start as there are PEs |
| PagesInside.BufferBeyondNode | mpam/platform/pal_uefi_acpi_override/src/pal_misc.c:244-249 | a success with a buffer outside the node |
| Partition.MemoryPortions | mpam/val/src/val_memory.c:288-295 | the words written hold exactly floor(width * pct / 100) one bits |
| Partition.WordsShape | mpam/val/src/val_memory.c:288-295 | one word per started group of 32, 32 bytes apart, the last one low-packed |
| Partition.CachePortions | mpam/val/src/val_cache.c:184-191 | with the 16-bit filler the one bits are 16 * (n / 32) + n % 32 |
| Partition.IntendedBitmapIff | mpam/val/src/val_cache.c:184-191 | for any earlier contents, the register bitmap has exactly its n low bits set if and only if n < 32, or n = 32 with a full filler, and no bit was set before outside the word written |
| Partition.LowerSettingIgnored | mpam/val/src/val_memory.c:288-295 | at width 3, 25 percent after 75 percent leaves two portions set |
| MscRegisters.ConfigurePortions | mpam/val/src/val_memory.c:272-299 | the writes are the PARTID and then the bitmap words |
| MscRegisters.ConfigureMbwMin | mpam/val/src/val_memory.c:219-242 | the writes are the PARTID and then the fraction field |
| MscRegisters.ConfigureLimit | mpam/val/src/val_memory.c:244-270 | the writes are the PARTID and then hard limit and fraction together |
| Fraction.ErrorBoundIff | mpam/val/src/val_memory.c:228-238 | pct/100 - 2^-w < (v+1)/2^w <= pct/100 with v below 2^w, if and only if 2^w * pct >= 100; else v is 0xFFFF |
| Fraction.Monotone | mpam/val/src/val_memory.c:228-238 | a larger percentage gives no smaller fraction |
| Fraction.FieldRecovers | mpam/val/src/val_memory.c:253-263 | shifting the field back recovers the fraction |
| Fraction.FullIff | mpam/val/src/val_memory.c:228-238 | the field is all ones if and only if pct is 100 or 2^w * pct is below 100 |
| Fraction.LimitParts | mpam/val/src/val_cache.c:206-216 | hard-limit bit and fraction can both be read back from the register |
| MscRegisters.ZeroMinimumIsFull | mpam/test_pool/memory/test_d003.c:235-240 | asking for a minimum of 0 percent writes the same as 100 percent |
| LuvConfig.ReplaceStrings | luvos/scripts/modify_luv_params_efi.py:77-111 | the text is the start marker and, each with its line end, what the lines with a known or protected key are to become by the options; an error if and only if a set line has no equals sign |
| LuvConfig.Image.Modify | luvos/scripts/modify_luv_params_efi.py:113-139 | the file becomes the patched one on success and stays as it is on every error |
| LuvConfigLaws.OutsideUnchanged | luvos/scripts/modify_luv_params_efi.py:113-139 | success keeps the file's length and every byte outside the window |
| LuvConfigLaws.MarkersStay | luvos/scripts/modify_luv_params_efi.py:56-75 | re-reading finds start and end where they were |
| LuvConfigLaws.SetLinesExactly | luvos/scripts/modify_luv_params_efi.py:77-111 | a set line is in the patched window if and only if some line of the old one is to become it: none lost, none made up, all others gone |
| LuvConfigLaws.SetLinesMeaning | luvos/scripts/modify_luv_params_efi.py:77-111 | the set lines read back are, in order and number, the old ones with a known or protected key: unchanged if protected, else the keyword with the lower-case option, the lower-case old value if the option is absent, or for LUV_TESTS the old value without the disabled names |
| LuvConfigLaws.OutcomeIff | luvos/scripts/modify_luv_params_efi.py:56-139 | the script gives up exactly on a missing marker, a set line without equals sign, or a text longer than the window, and else succeeds |
| LuvConfigLaws.LineTwice | luvos/scripts/modify_luv_params_efi.py:77-111 | a rewritten line is kept by a second run, and unchanged if and only if no disabled name reappears in it |
| LuvConfigLaws.SecondRunIff | luvos/scripts/modify_luv_params_efi.py:113-139 | a second identical run succeeds, and writes an identical file if and only if no disabled name reappears in a LUV_TESTS line |
| LuvConfigLaws.NameReappears | luvos/scripts/modify_luv_params_efi.py:97-102 | a name can reappear |
| Text.RemoveEachNothingIff | luvos/scripts/modify_luv_params_efi.py:97-102 | removing names changes nothing if and only if none occurs |
| Text.RemoveAllIff | luvos/scripts/modify_luv_params_efi.py:97-102 | removing a name takes out exactly its occurrences found from the left without overlap, and keeps the rest |
| Text.LowerIff | luvos/scripts/modify_luv_params_efi.py:95-109 | lower-casing turns each capital letter into its small one and keeps every other character |

## Left out

- The SDEI dispatcher and the SDEI call wrappers: they are firmware calls and the firmware is not in the repository.
- Test bodies, printing, log files, shell argument parsing: a body is modelled by the status codes it stores.
- System-register, PMU, GIC, timer and watchdog register switches: one branch each over hardware.
- Cache maintenance and barriers: memory is sequentially consistent in the model.
- Latency buffers and their comparison, and the escape from exception handlers in the contention tests.
- Memory-node copying in the MPAM table and the dump of the table: field copies without branching.
- Reading the PE table at index num_of_pe, which both index checks let through: what lies there is unknown.
- The capacity of the PE table, of the shared-memory area and of the MPAM table itself.
- The boot PE is table entry 0, so the comparison with the own MPIDR in the mailbox loop is the test for index 0.
- CPU_OFF is taken to succeed, and pal_pe_suspend is not modelled; power-off and power-on are asked for by the boot PE between calls.
- MpamBuilder.FillMpamInfoTable: its precondition is what the code takes for granted (each PE has a private node and a cluster node, a primary has a system node, no PE needs more room than PE 0); without it the code follows a null or uninitialised pointer or writes past an array.
- MpamBuilder.FillMpamInfoTable: the info table and its arrays are new objects, not blocks of the pool, since the builder never frees them; the table is a sequence that grows.
- MpamLaunch.Launcher.ExecuteOnPe: the index equal to num_of_pe, which the bound check lets through to memory beyond the table.
- MpamVerdict.WaitAndCheck: a time-out of 1, which writes the slot of index -1 (MpamVerdict.WaitForTestCompletion covers it), and histories with a write after the wait, for which MpamVerdict.LateWriteFoolsIff says what happens.
- MpamTestRun.RunAndCheck: replies are success or errors that PSCI defines; another one can leave a slot in no test state, see MpamLaunch.FailureStateIff.
- Timers.TimerTable.CreateInfoTable: at most eight timers per GT block, as the ACPI structure and the table's arrays have.
- Timers.TimerTable.GetEntryIndex: one model for both layers, which differ in the value for an invalid instance.
- Pages.Platform.AllocateAddress: sizes of zero are excluded; the code then reads an uninitialised status or does not end.
- Pages.SearchMeaning: nodes that wrap around 64 bits or hold no buffer are covered by Pages.Platform.AllocateAddress only.
- Fraction.ErrorBoundIff: widths up to 16, as the architecture has; for larger ones the code shifts by a negative amount.
- LuvConfigLaws.SecondRunIff: option values without a newline; a list given for the reboot tests is its printed text.
