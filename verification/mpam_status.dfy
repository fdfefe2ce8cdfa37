/**
  MPAM status words: a state in the top four bits, then the test number, then a detail code.
 */
module MpamStatus {

  type Status = bv32

  const PASS_STATE: bv32 := 0x4
  const FAIL_STATE: bv32 := 0x8
  const SKIP_STATE: bv32 := 0x9
  const PENDING_STATE: bv32 := 0xA

  /** (value >> STATE_BIT) & STATE_MASK. */
  function StateOf(value: Status): bv32 {
    (value >> 28) & 0xF
  }

  /** The RESULT macros; the test number is not cut to its field, just as in C. */
  function ResultWord(state: bv32, testNum: bv32, detail: bv32): Status {
    (state << 28) | (testNum << 16) | detail
  }

  /** test numbers and details that stay within their fields. */
  predicate FitsFields(testNum: bv32, detail: bv32) {
    testNum <= 0xFFF && detail <= 0xFFFF
  }

  lemma {:induction false} ResultState(state: bv32, testNum: bv32, detail: bv32)
    requires state <= 0xF && FitsFields(testNum, detail)
    ensures StateOf(ResultWord(state, testNum, detail)) == state
    ensures (ResultWord(state, testNum, detail) >> 16) & 0xFFF == testNum
    ensures ResultWord(state, testNum, detail) & 0xFFFF == detail
  {}

  predicate IsPass(value: Status) {
    StateOf(value) == PASS_STATE
  }

  predicate IsFail(value: Status) {
    StateOf(value) == FAIL_STATE
  }

  predicate IsSkip(value: Status) {
    StateOf(value) == SKIP_STATE
  }

  predicate IsPending(value: Status) {
    StateOf(value) == PENDING_STATE
  }

  /** The states a slot takes while a test is under way. */
  predicate IsTestState(value: Status) {
    IsPass(value) || IsFail(value) || IsSkip(value) || IsPending(value)
  }
}
