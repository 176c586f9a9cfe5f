// The outer frame loop of the rule-based agent (`main`): send an action, read
// back the emulator's step result, choose the next action and add up the
// reward until the episode ends. The emulator is abstracted as the sequence
// of step results it produces during the episode.

module Episode {
  import Screen
  import opened Agent

  /** What `env.step(action)` returns: the new screen, the reward of the
      step, the two end-of-episode flags and the info record. */
  datatype StepResult = StepResult(
    obs: Screen.Frame, reward: int, terminated: bool, truncated: bool, info: Info)

  /** `done = terminated or truncated`. */
  predicate Ends(s: StepResult)
  {
    s.terminated || s.truncated
  }

  /** Initial value of `ticks`. */
  const StartTicks: int := 34

  /** The action sent on the first step, before any decision: "RIGHT_JUMP_RUN". */
  const FirstAction: int := 4

  /** Sum of the rewards of `steps`. */
  function RewardSum(steps: seq<StepResult>): int
  {
    if steps == [] then 0
    else RewardSum(steps[..|steps| - 1]) + steps[|steps| - 1].reward
  }

  /** The reward sum adds up over consecutive stretches of an episode. */
  lemma {:induction false} RewardSumAppend(a: seq<StepResult>, b: seq<StepResult>)
    ensures RewardSum(a + b) == RewardSum(a) + RewardSum(b)
  {
    if b != [] {
      var b' := b[..|b| - 1];
      assert (a + b)[..|a + b| - 1] == a + b';
      RewardSumAppend(a, b');
      calc {
        RewardSum(a + b);
        RewardSum(a + b') + (a + b)[|a + b| - 1].reward;
        RewardSum(a) + RewardSum(b') + b[|b| - 1].reward;
        RewardSum(a) + RewardSum(b);
      }
    } else {
      assert a + b == a;
    }
  }

  /** When every step's reward lies in `[lo, hi]`, the total over `n` steps
      lies in `[n * lo, n * hi]`. */
  lemma {:induction false} RewardSumBounds(steps: seq<StepResult>, lo: int, hi: int)
    requires forall i :: 0 <= i < |steps| ==> lo <= steps[i].reward <= hi
    ensures lo * |steps| <= RewardSum(steps) <= hi * |steps|
  {
    if steps != [] {
      var init := steps[..|steps| - 1];
      assert forall i :: 0 <= i < |init| ==> init[i] == steps[i];
      RewardSumBounds(init, lo, hi);
      assert lo * |steps| == lo * |init| + lo;
      assert hi * |steps| == hi * |init| + hi;
    }
  }

  /** `main`'s loop, run against the step results `steps`. Returns the actions
      sent, one per step, the final reward total and tick count, and the last
      decision (made after the final step and never sent). The loop stops at
      the first step that ends the episode; it sends "RIGHT_JUMP_RUN" first,
      and from then on the decision taken after step `k`, at tick `35 + k`. */
  method RunEpisode(steps: seq<StepResult>) returns (sent: seq<int>, rewardTotal: int, ticks: int, action: int)
    requires exists i :: 0 <= i < |steps| && Ends(steps[i])
    ensures 1 <= |sent| <= |steps|
    ensures Ends(steps[|sent| - 1])
    ensures forall i :: 0 <= i < |sent| - 1 ==> !Ends(steps[i])
    ensures sent[0] == FirstAction
    ensures forall k :: 1 <= k < |sent| ==>
      sent[k] == Decide(steps[k - 1].obs, steps[k - 1].info, StartTicks + k)
    ensures forall k :: 0 <= k < |sent| ==>
      (sent[k] == 3 || sent[k] == 4) && (sent[k] == 4 <==> k == 0 || (StartTicks + k) % Period > 50)
    ensures rewardTotal == RewardSum(steps[..|sent|])
    ensures ticks == StartTicks + |sent|
    ensures action == Decide(steps[|sent| - 1].obs, steps[|sent| - 1].info, ticks)
  {
    ghost var last :| 0 <= last < |steps| && Ends(steps[last]);
    ticks := StartTicks;
    rewardTotal := 0;
    var done := false;
    action := FirstAction;
    sent := [];
    var i := 0;
    while !done
      invariant 0 <= i <= |steps| && |sent| == i
      invariant !done ==> i <= last && forall j :: 0 <= j < i ==> !Ends(steps[j])
      invariant done ==> 1 <= i && Ends(steps[i - 1]) && forall j :: 0 <= j < i - 1 ==> !Ends(steps[j])
      invariant ticks == StartTicks + i
      invariant rewardTotal == RewardSum(steps[..i])
      invariant i == 0 ==> action == FirstAction
      invariant i > 0 ==> action == Decide(steps[i - 1].obs, steps[i - 1].info, ticks)
      invariant i > 0 ==> sent[0] == FirstAction
      invariant forall k :: 1 <= k < i ==>
        sent[k] == Decide(steps[k - 1].obs, steps[k - 1].info, StartTicks + k)
      decreases |steps| - i, !done
    {
      ticks := ticks + 1;
      var result := steps[i];  // env.step(action)
      sent := sent + [action];
      action := Decide(result.obs, result.info, ticks);
      rewardTotal := rewardTotal + result.reward;
      done := result.terminated || result.truncated;
      assert steps[..i + 1][..i] == steps[..i];
      i := i + 1;
    }
    forall k | 0 <= k < |sent|
      ensures (sent[k] == 3 || sent[k] == 4) && (sent[k] == 4 <==> k == 0 || (StartTicks + k) % Period > 50)
    {
      if k > 0 {
        DecideJumpIntervals(steps[k - 1].obs, steps[k - 1].info, StartTicks + k);
      }
    }
  }
}
