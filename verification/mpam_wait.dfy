/**
  The timed wait of the contention tests, with the 32-bit product its budget is computed in.
 */
module MpamWait {
  import opened MpamStatus

  const TIMEOUT_LARGE: nat := 0x100_0000
  const TWO_64: nat := 0x1_0000_0000_0000_0000

  /** slots(c, i) is the word of PE i when sweep c reads it. */
  type Sweeps = (nat, nat) -> Status

  /** num_pe * TIMEOUT_LARGE, a 32-bit product assigned to a 64-bit counter. */
  function Budget(numPe: nat): nat {
    numPe * TIMEOUT_LARGE % 0x1_0000_0000
  }

  /** The most sweeps the loop can make: a zero counter wraps on its first decrement. */
  function MaxSweeps(numPe: nat): nat {
    if Budget(numPe) == 0 then TWO_64 else Budget(numPe)
  }

  /** Sweep c finds no other PE pending. */
  ghost predicate Clean(slots: Sweeps, c: nat, numPe: nat, primary: nat) {
    forall i :: 0 <= i < numPe && i != primary ==> !IsPending(slots(c, i))
  }

  /** Sweep c is the first clean one. */
  ghost predicate FirstClean(slots: Sweeps, c: nat, numPe: nat, primary: nat) {
    Clean(slots, c, numPe, primary) && forall b :: 0 <= b < c ==> !Clean(slots, b, numPe, primary)
  }

  method SweepOthers(slots: Sweeps, c: nat, numPe: nat, primary: nat) returns (pending: bool)
    ensures pending <==> !Clean(slots, c, numPe, primary)
  {
    pending := false;
    var i := 0;
    while i < numPe
      invariant 0 <= i <= numPe
      invariant pending <==> exists k :: 0 <= k < i && k != primary && IsPending(slots(c, k))
    {
      if i != primary {
        pending := pending || IsPending(slots(c, i));
      }
      i := i + 1;
    }
  }

  /**
    wait_for_secondary_off.  It returns 0 exactly when a clean sweep comes within the budget,
    except that with a number of PEs divisible by 256 the budget is zero and a clean first sweep
    is reported as a time-out.
   */
  method WaitForSecondaryOff(slots: Sweeps, numPe: nat, primary: nat) returns (timedOut: bool)
    ensures !timedOut <==>
            exists c: nat :: c < MaxSweeps(numPe) && FirstClean(slots, c, numPe, primary) &&
                             (c > 0 || Budget(numPe) != 0)
  {
    var timeout := Budget(numPe);
    ghost var c: nat := 0;
    var sweep := 0;
    var again := true;
    while again
      invariant c == sweep
      invariant again ==> c < MaxSweeps(numPe) && timeout == (Budget(numPe) + TWO_64 - c) % TWO_64
      invariant again ==> forall b :: 0 <= b < c ==> !Clean(slots, b, numPe, primary)
      invariant !again ==>
                  (FirstClean(slots, c, numPe, primary) && c < MaxSweeps(numPe) &&
                   timeout == (Budget(numPe) + TWO_64 - c) % TWO_64) ||
                  (timeout == 0 && c == MaxSweeps(numPe) &&
                   forall b :: 0 <= b < c ==> !Clean(slots, b, numPe, primary))
      decreases again, MaxSweeps(numPe) - c
    {
      var pending := SweepOthers(slots, sweep, numPe, primary);
      again := false;
      if pending {
        timeout := (timeout + TWO_64 - 1) % TWO_64;
        c := c + 1;
        sweep := sweep + 1;
        again := timeout != 0;
      }
    }
    timedOut := timeout == 0;
  }

  /** The budget counts PEs modulo 256, and is zero exactly for a number of PEs divisible by 256. */
  lemma {:induction false} BudgetVanishesIff(numPe: nat)
    ensures Budget(numPe) == numPe % 256 * TIMEOUT_LARGE
    ensures Budget(numPe) == 0 <==> numPe % 256 == 0
  {
    var q, r := numPe / 256, numPe % 256;
    assert numPe * TIMEOUT_LARGE == q * 0x1_0000_0000 + r * TIMEOUT_LARGE;
    assert Budget(numPe) == r * TIMEOUT_LARGE;
  }
}
