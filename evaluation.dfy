/** The counting loop of `DDPG.evaluate`: `evaluation_steps` environment
    steps with noise-free actions. Its episode counters are never reset, so
    every entry appended to `rewards` and `lengths` is a running total from
    the start of the evaluation, and the values it logs at the end are the
    totals over all steps. */
module Evaluation {
  import opened DdpgTypes

  /** The loop's state: the two lists and the two counters. */
  datatype EvalState = EvalState(rewards: seq<real>, lengths: seq<int>, episodeReward: real, episodeLength: int)

  /** One iteration: add the reward, count the step, and append both
      counters when the episode-end test holds. */
  function EvalStep(maxEpisodeLength: int, s: EvalState, o: Outcome): EvalState
  {
    var reward := s.episodeReward + o.reward;
    var length := s.episodeLength + 1;
    if EpisodeEnds(o.done, length, maxEpisodeLength)
    then EvalState(s.rewards + [reward], s.lengths + [length], reward, length)
    else EvalState(s.rewards, s.lengths, reward, length)
  }

  /** The state after the first `k` iterations. */
  function EvalRun(maxEpisodeLength: int, outcomes: seq<Outcome>, k: nat): EvalState
    requires k <= |outcomes|
  {
    if k == 0 then EvalState([], [], 0.0, 0)
    else EvalStep(maxEpisodeLength, EvalRun(maxEpisodeLength, outcomes, k - 1), outcomes[k - 1])
  }

  /** The sum of the rewards of a sequence of outcomes. */
  function RewardSum(outcomes: seq<Outcome>): real
  {
    if outcomes == [] then 0.0
    else RewardSum(outcomes[..|outcomes| - 1]) + outcomes[|outcomes| - 1].reward
  }

  /** The state after `k` iterations of the loop: the length counter is `k`
      and the reward counter the sum of the first `k` rewards. An entry is
      appended after the n-th step exactly when that step reported done or
      `n` equals `max_episode_length`; the lengths entry is then `n`,
      strictly above the entries before it, and the rewards entry the sum of
      the first `n` rewards. */
  predicate CountsFollow(maxEpisodeLength: int, outcomes: seq<Outcome>, s: EvalState, k: nat)
    requires k <= |outcomes|
  {
    && s.episodeLength == k
    && s.episodeReward == RewardSum(outcomes[..k])
    && |s.rewards| == |s.lengths|
    && (forall j :: 0 <= j < |s.lengths| ==> 1 <= s.lengths[j] <= k)
    && (forall j :: 0 <= j < |s.lengths| ==> s.rewards[j] == RewardSum(outcomes[..s.lengths[j]]))
    && (forall i, j :: 0 <= i < j < |s.lengths| ==> s.lengths[i] < s.lengths[j])
    && (forall n :: 1 <= n <= k ==> (n in s.lengths <==> EpisodeEnds(outcomes[n - 1].done, n, maxEpisodeLength)))
  }

  /** Every prefix of the loop is described by `CountsFollow`. */
  lemma {:induction false} EvalRunCounts(maxEpisodeLength: int, outcomes: seq<Outcome>, k: nat)
    requires k <= |outcomes|
    ensures CountsFollow(maxEpisodeLength, outcomes, EvalRun(maxEpisodeLength, outcomes, k), k)
  {
    if k > 0 {
      EvalRunCounts(maxEpisodeLength, outcomes, k - 1);
      StepKeepsCounts(maxEpisodeLength, outcomes, EvalRun(maxEpisodeLength, outcomes, k - 1), k - 1);
    }
  }

  lemma StepKeepsCounts(maxEpisodeLength: int, outcomes: seq<Outcome>, s: EvalState, k: nat)
    requires k < |outcomes|
    requires CountsFollow(maxEpisodeLength, outcomes, s, k)
    ensures CountsFollow(maxEpisodeLength, outcomes, EvalStep(maxEpisodeLength, s, outcomes[k]), k + 1)
  {
    assert outcomes[..k + 1][..k] == outcomes[..k];
    assert RewardSum(outcomes[..k + 1]) == s.episodeReward + outcomes[k].reward;
  }

  /** Without a done signal the only entry ever appended is the one for the
      step whose running length equals `max_episode_length`; every later
      step goes past the cap and is never counted as an episode end. */
  lemma NoDoneAppendsAtMostOnce(maxEpisodeLength: int, outcomes: seq<Outcome>, k: nat)
    requires k <= |outcomes|
    requires forall i :: 0 <= i < k ==> !outcomes[i].done
    ensures EvalRun(maxEpisodeLength, outcomes, k).lengths ==
      if 1 <= maxEpisodeLength <= k then [maxEpisodeLength] else []
  {
    EvalRunCounts(maxEpisodeLength, outcomes, k);
    var lengths := EvalRun(maxEpisodeLength, outcomes, k).lengths;
    forall j | 0 <= j < |lengths| ensures lengths[j] == maxEpisodeLength {
      var n := lengths[j];
      assert n in lengths;
    }
    if 1 <= maxEpisodeLength <= k {
      assert maxEpisodeLength in lengths;
    }
  }

  /** `DDPG.evaluate` with the environment given as the outcomes of its
      steps. Returns the two lists and the two counters; the counters are
      what the method logs as "eval episode length" and "eval episode
      reward" (the mean of a single number is that number). */
  method Evaluate(evaluationSteps: int, maxEpisodeLength: int, outcomes: seq<Outcome>)
    returns (rewards: seq<real>, lengths: seq<int>, episodeReward: real, episodeLength: int)
    requires RangeLength(evaluationSteps) <= |outcomes|
    ensures EvalState(rewards, lengths, episodeReward, episodeLength)
      == EvalRun(maxEpisodeLength, outcomes, RangeLength(evaluationSteps))
    ensures CountsFollow(maxEpisodeLength, outcomes, EvalState(rewards, lengths, episodeReward, episodeLength),
      RangeLength(evaluationSteps))
  {
    rewards, lengths := [], [];
    episodeReward, episodeLength := 0.0, 0;
    for step := 0 to RangeLength(evaluationSteps)
      invariant EvalState(rewards, lengths, episodeReward, episodeLength) == EvalRun(maxEpisodeLength, outcomes, step)
    {
      var o := outcomes[step];
      episodeReward := episodeReward + o.reward;
      episodeLength := episodeLength + 1;
      if o.done || episodeLength == maxEpisodeLength {
        rewards := rewards + [episodeReward];
        lengths := lengths + [episodeLength];
      }
    }
    EvalRunCounts(maxEpisodeLength, outcomes, RangeLength(evaluationSteps));
  }
}
