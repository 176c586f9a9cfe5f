// The rule-based agent's decision: a fixed timing schedule that alternates
// between running right and running right while jumping.

module Agent {
  import opened Actions
  import Screen

  /** The emulator's per-frame info record, restricted to the entries the
      agent reads. */
  datatype Info = Info(xPos: int, yPos: int, status: string, world: int, stage: int)

  /** Length of one run/jump cycle, in frames. */
  const Period: int := 100

  /** `agent(observation, info, ticks)`: within each 100-tick cycle, ticks
      51..99 hold the jump and the rest only run. Python's `%` and Dafny's
      agree here because the divisor is positive. */
  function Decide(observation: Screen.Frame, info: Info, ticks: int): (a: int)
    ensures a == 3 || a == 4
  {
    RunEntries();
    if ticks % Period > 50 && ticks % Period < 100 then ActionTable()["RIGHT_JUMP_RUN"]
    else ActionTable()["RIGHT_RUN"]
  }

  /** The schedule as a set of tick intervals: the agent jumps
      ("RIGHT_JUMP_RUN", index 4) exactly on the ticks `100 q + 51 .. 100 q + 99`
      for some cycle number `q`, and runs ("RIGHT_RUN", index 3) on every
      other tick. The `< 100` half of the source's test never fails. */
  lemma DecideJumpIntervals(observation: Screen.Frame, info: Info, ticks: int)
    ensures Decide(observation, info, ticks) == 4 <==>
      exists q :: Period * q + 51 <= ticks <= Period * q + 99
    ensures Decide(observation, info, ticks) == 3 <==>
      !exists q :: Period * q + 51 <= ticks <= Period * q + 99
    ensures Decide(observation, info, ticks) == 4 <==> ticks % Period > 50
  {
    RunEntries();
    var q := ticks / Period;
    assert Period * q <= ticks < Period * q + Period;
    if exists q' :: Period * q' + 51 <= ticks <= Period * q' + 99 {
      var q' :| Period * q' + 51 <= ticks <= Period * q' + 99;
      assert q' == q;
    }
  }

  /** The decision is periodic in `ticks` with period 100. */
  lemma DecidePeriodic(observation: Screen.Frame, info: Info, ticks: int, k: int)
    ensures Decide(observation, info, ticks + Period * k) == Decide(observation, info, ticks)
  {
  }

  /** The decision depends on `ticks` alone: neither the screen nor the info
      record changes it. */
  lemma DecideIgnoresInputs(obs1: Screen.Frame, info1: Info, obs2: Screen.Frame, info2: Info, ticks: int)
    ensures Decide(obs1, info1, ticks) == Decide(obs2, info2, ticks)
  {
  }
}
