/** The step scheduler of `DDPG.train`: one environment step per iteration,
    one replay-buffer insertion per step, `_update(episode_length)` and a
    counter reset at each episode end, and `evaluate()` at every epoch
    boundary. The environment is the sequence of outcomes it reports, and
    the calls the loop makes are recorded as a trace of events. */
module Training {
  import opened DdpgTypes

  /** Where a step's action comes from: `env.action_space.sample()` during
      warm-up, `_get_action(observation)` afterwards. */
  datatype ActionSource = Sampled | Policy

  /** The calls `train` makes, in the order it makes them. */
  datatype Event =
    | Add(action: ActionSource, reward: real, done: bool)  // replay_buffer.add
    | Update(episodeLength: int)                            // _update(episode_length)
    | Evaluate                                              // evaluate()

  /** The configuration values `train` reads. */
  datatype TrainConfig = TrainConfig(startSteps: int, stepsPerEpoch: int, epochs: int, maxEpisodeLength: int)

  /** The loop's state between two iterations: the calls made so far and the
      two episode counters. */
  datatype TrainState = TrainState(events: seq<Event>, episodeReward: real, episodeLength: int)

  /** `range(steps_per_epoch * epochs)`: the number of loop iterations. */
  function NumberOfSteps(cfg: TrainConfig): nat
  {
    RangeLength(cfg.stepsPerEpoch * cfg.epochs)
  }

  function ActionAt(cfg: TrainConfig, step: int): ActionSource
  {
    if step < cfg.startSteps then Sampled else Policy
  }

  /** The epoch test. Python's `%` floors and Dafny's is Euclidean, but the
      two agree on whether the remainder is zero for every nonzero divisor. */
  predicate EpochEnds(cfg: TrainConfig, step: int)
    requires cfg.stepsPerEpoch != 0
  {
    step != 0 && step % cfg.stepsPerEpoch == 0
  }

  /** One iteration of the loop. */
  function TrainStep(cfg: TrainConfig, s: TrainState, step: int, o: Outcome): TrainState
    requires cfg.stepsPerEpoch != 0
  {
    var length := s.episodeLength + 1;
    var reward := s.episodeReward + o.reward;
    var added := s.events + [Add(ActionAt(cfg, step), o.reward, o.done)];
    var ended :=
      if EpisodeEnds(o.done, length, cfg.maxEpisodeLength)
      then TrainState(added + [Update(length)], 0.0, 0)
      else TrainState(added, reward, length);
    if EpochEnds(cfg, step) then ended.(events := ended.events + [Evaluate]) else ended
  }

  /** A run of at least one step has a nonzero epoch length. */
  lemma StepsNeedEpochLength(cfg: TrainConfig)
    requires NumberOfSteps(cfg) > 0
    ensures cfg.stepsPerEpoch != 0
  {
  }

  /** The state after the first `k` iterations of `train`. */
  function Run(cfg: TrainConfig, outcomes: seq<Outcome>, k: nat): TrainState
    requires k <= |outcomes| && (k == 0 || cfg.stepsPerEpoch != 0)
  {
    if k == 0 then TrainState([], 0.0, 0)
    else TrainStep(cfg, Run(cfg, outcomes, k - 1), k - 1, outcomes[k - 1])
  }

  /** The Add events of a trace, in order: the transitions given to the
      replay buffer. */
  function Adds(events: seq<Event>): (adds: seq<Event>)
    ensures |adds| <= |events|
    ensures forall j :: 0 <= j < |adds| ==> adds[j].Add?
  {
    if events == [] then []
    else
      var last := events[|events| - 1];
      Adds(events[..|events| - 1]) + (if last.Add? then [last] else [])
  }

  /** The arguments of the `_update` calls of a trace, in order. */
  function UpdateLengths(events: seq<Event>): seq<int>
  {
    if events == [] then []
    else
      var last := events[|events| - 1];
      UpdateLengths(events[..|events| - 1]) + (if last.Update? then [last.episodeLength] else [])
  }

  /** For each `evaluate()` call of a trace, the number of transitions added
      before it. */
  function EvaluationPoints(events: seq<Event>): seq<nat>
  {
    if events == [] then []
    else
      var prefix := events[..|events| - 1];
      EvaluationPoints(prefix) + (if events[|events| - 1].Evaluate? then [|Adds(prefix)|] else [])
  }

  /** The number of transitions added since the last `_update` call (or since
      the start): the length of the episode in progress, read off the trace. */
  function OpenEpisodeLength(events: seq<Event>): nat
  {
    if events == [] then 0
    else
      var last := events[|events| - 1];
      if last.Update? then 0
      else OpenEpisodeLength(events[..|events| - 1]) + (if last.Add? then 1 else 0)
  }

  /** The sum of the rewards added since the last `_update` call. */
  function OpenEpisodeReward(events: seq<Event>): real
  {
    if events == [] then 0.0
    else
      var last := events[|events| - 1];
      if last.Update? then 0.0
      else OpenEpisodeReward(events[..|events| - 1]) + (if last.Add? then last.reward else 0.0)
  }

  function Sum(xs: seq<int>): int
  {
    if xs == [] then 0 else Sum(xs[..|xs| - 1]) + xs[|xs| - 1]
  }

  /** Which event may follow which: an Update only right after an Add, an
      Evaluate never right after another Evaluate. */
  predicate MayFollow(previous: Event, next: Event)
  {
    match next
    case Add(_, _, _) => true
    case Update(_) => previous.Add?
    case Evaluate => !previous.Evaluate?
  }

  /** The shape of every trace of `train`: a sequence of steps, each an Add,
      then possibly an Update, then possibly an Evaluate. */
  predicate WellOrdered(events: seq<Event>)
  {
    && (|events| > 0 ==> events[0].Add?)
    && forall i :: 0 < i < |events| ==> MayFollow(events[i - 1], events[i])
  }

  /** How one appended event changes each view of the trace. */
  lemma AppendAdds(events: seq<Event>, e: Event)
    ensures Adds(events + [e]) == Adds(events) + (if e.Add? then [e] else [])
  {
    assert (events + [e])[..|events|] == events;
  }

  lemma AppendUpdateLengths(events: seq<Event>, e: Event)
    ensures UpdateLengths(events + [e]) == UpdateLengths(events) + (if e.Update? then [e.episodeLength] else [])
    ensures Sum(UpdateLengths(events + [e])) == Sum(UpdateLengths(events)) + (if e.Update? then e.episodeLength else 0)
  {
    assert (events + [e])[..|events|] == events;
    var xs := UpdateLengths(events) + (if e.Update? then [e.episodeLength] else []);
    assert UpdateLengths(events + [e]) == xs;
    if e.Update? {
      assert xs[..|xs| - 1] == UpdateLengths(events);
      assert Sum(xs) == Sum(UpdateLengths(events)) + e.episodeLength;
    } else {
      assert xs == UpdateLengths(events);
    }
  }

  lemma AppendEvaluationPoints(events: seq<Event>, e: Event)
    ensures EvaluationPoints(events + [e]) == EvaluationPoints(events) + (if e.Evaluate? then [|Adds(events)|] else [])
  {
    assert (events + [e])[..|events|] == events;
  }

  lemma AppendOpenEpisode(events: seq<Event>, e: Event)
    ensures OpenEpisodeLength(events + [e]) ==
      if e.Update? then 0 else OpenEpisodeLength(events) + (if e.Add? then 1 else 0)
    ensures OpenEpisodeReward(events + [e]) ==
      if e.Update? then 0.0 else OpenEpisodeReward(events) + (if e.Add? then e.reward else 0.0)
  {
    assert (events + [e])[..|events|] == events;
  }

  lemma AppendWellOrdered(events: seq<Event>, e: Event)
    requires WellOrdered(events)
    requires |events| == 0 ==> e.Add?
    requires |events| > 0 ==> MayFollow(events[|events| - 1], e)
    ensures WellOrdered(events + [e])
  {
    var es := events + [e];
    forall i | 0 < i < |es| ensures MayFollow(es[i - 1], es[i]) {
      if i < |events| {
        assert es[i - 1] == events[i - 1] && es[i] == events[i];
      }
    }
  }

  /** The trace of one iteration: an Add, an Update when the episode ends,
      an Evaluate when the epoch ends. */
  lemma StepShape(cfg: TrainConfig, s: TrainState, step: int, o: Outcome)
    requires cfg.stepsPerEpoch != 0
    ensures var length := s.episodeLength + 1;
            var added := s.events + [Add(ActionAt(cfg, step), o.reward, o.done)];
            var ended := if EpisodeEnds(o.done, length, cfg.maxEpisodeLength) then added + [Update(length)] else added;
            TrainStep(cfg, s, step, o).events == if EpochEnds(cfg, step) then ended + [Evaluate] else ended
  {
  }

  lemma StepAdds(cfg: TrainConfig, s: TrainState, step: int, o: Outcome)
    requires cfg.stepsPerEpoch != 0
    ensures Adds(TrainStep(cfg, s, step, o).events) == Adds(s.events) + [Add(ActionAt(cfg, step), o.reward, o.done)]
  {
    StepShape(cfg, s, step, o);
    var length := s.episodeLength + 1;
    var added := s.events + [Add(ActionAt(cfg, step), o.reward, o.done)];
    var ended := if EpisodeEnds(o.done, length, cfg.maxEpisodeLength) then added + [Update(length)] else added;
    AppendAdds(s.events, Add(ActionAt(cfg, step), o.reward, o.done));
    AppendAdds(added, Update(length));
    AppendAdds(ended, Evaluate);
  }

  lemma StepUpdateLengths(cfg: TrainConfig, s: TrainState, step: int, o: Outcome)
    requires cfg.stepsPerEpoch != 0
    ensures var length := s.episodeLength + 1;
            var ends := EpisodeEnds(o.done, length, cfg.maxEpisodeLength);
            var s' := TrainStep(cfg, s, step, o);
            && UpdateLengths(s'.events) == UpdateLengths(s.events) + (if ends then [length] else [])
            && Sum(UpdateLengths(s'.events)) == Sum(UpdateLengths(s.events)) + (if ends then length else 0)
  {
    StepShape(cfg, s, step, o);
    var length := s.episodeLength + 1;
    var added := s.events + [Add(ActionAt(cfg, step), o.reward, o.done)];
    var ended := if EpisodeEnds(o.done, length, cfg.maxEpisodeLength) then added + [Update(length)] else added;
    AppendUpdateLengths(s.events, Add(ActionAt(cfg, step), o.reward, o.done));
    AppendUpdateLengths(added, Update(length));
    AppendUpdateLengths(ended, Evaluate);
  }

  lemma StepEvaluationPoints(cfg: TrainConfig, s: TrainState, step: int, o: Outcome)
    requires cfg.stepsPerEpoch != 0
    ensures EvaluationPoints(TrainStep(cfg, s, step, o).events) ==
      EvaluationPoints(s.events) + (if EpochEnds(cfg, step) then [|Adds(s.events)| + 1] else [])
  {
    StepShape(cfg, s, step, o);
    var length := s.episodeLength + 1;
    var add := Add(ActionAt(cfg, step), o.reward, o.done);
    var added := s.events + [add];
    var ended := if EpisodeEnds(o.done, length, cfg.maxEpisodeLength) then added + [Update(length)] else added;
    AppendEvaluationPoints(s.events, add);
    AppendEvaluationPoints(added, Update(length));
    AppendEvaluationPoints(ended, Evaluate);
    AppendAdds(s.events, add);
    AppendAdds(added, Update(length));
  }

  lemma StepOpenEpisode(cfg: TrainConfig, s: TrainState, step: int, o: Outcome)
    requires cfg.stepsPerEpoch != 0
    ensures var ends := EpisodeEnds(o.done, s.episodeLength + 1, cfg.maxEpisodeLength);
            var s' := TrainStep(cfg, s, step, o);
            && OpenEpisodeLength(s'.events) == (if ends then 0 else OpenEpisodeLength(s.events) + 1)
            && OpenEpisodeReward(s'.events) == (if ends then 0.0 else OpenEpisodeReward(s.events) + o.reward)
  {
    StepShape(cfg, s, step, o);
    var length := s.episodeLength + 1;
    var added := s.events + [Add(ActionAt(cfg, step), o.reward, o.done)];
    var ended := if EpisodeEnds(o.done, length, cfg.maxEpisodeLength) then added + [Update(length)] else added;
    AppendOpenEpisode(s.events, Add(ActionAt(cfg, step), o.reward, o.done));
    AppendOpenEpisode(added, Update(length));
    AppendOpenEpisode(ended, Evaluate);
  }

  lemma StepCounters(cfg: TrainConfig, s: TrainState, step: int, o: Outcome)
    requires cfg.stepsPerEpoch != 0
    ensures var length := s.episodeLength + 1;
            var s' := TrainStep(cfg, s, step, o);
            if EpisodeEnds(o.done, length, cfg.maxEpisodeLength)
            then s'.episodeLength == 0 && s'.episodeReward == 0.0
            else s'.episodeLength == length && s'.episodeReward == s.episodeReward + o.reward
  {
  }

  lemma StepWellOrdered(cfg: TrainConfig, s: TrainState, step: int, o: Outcome)
    requires cfg.stepsPerEpoch != 0
    requires WellOrdered(s.events)
    ensures WellOrdered(TrainStep(cfg, s, step, o).events)
  {
    StepShape(cfg, s, step, o);
    var length := s.episodeLength + 1;
    var added := s.events + [Add(ActionAt(cfg, step), o.reward, o.done)];
    var ended := if EpisodeEnds(o.done, length, cfg.maxEpisodeLength) then added + [Update(length)] else added;
    AppendWellOrdered(s.events, Add(ActionAt(cfg, step), o.reward, o.done));
    if EpisodeEnds(o.done, length, cfg.maxEpisodeLength) {
      AppendWellOrdered(added, Update(length));
    }
    if EpochEnds(cfg, step) {
      AppendWellOrdered(ended, Evaluate);
    }
  }

  /** The transitions `adds` given to the replay buffer are one per outcome
      of the first `k` steps: the j-th carries the j-th reward and done flag
      and a sampled action exactly when `j < start_steps`. */
  predicate AddsFollow(cfg: TrainConfig, outcomes: seq<Outcome>, adds: seq<Event>, k: nat)
    requires k <= |outcomes|
  {
    && |adds| == k
    && forall j :: 0 <= j < k ==>
         && adds[j].Add?
         && adds[j].reward == outcomes[j].reward
         && adds[j].done == outcomes[j].done
         && (adds[j].action == Sampled <==> j < cfg.startSteps)
         && (adds[j].action == Policy <==> j >= cfg.startSteps)
  }

  /** Every iteration adds exactly one transition, the one of its step. */
  lemma {:induction false} RunAddsOnePerStep(cfg: TrainConfig, outcomes: seq<Outcome>, k: nat)
    requires k <= |outcomes| && (k == 0 || cfg.stepsPerEpoch != 0)
    ensures AddsFollow(cfg, outcomes, Adds(Run(cfg, outcomes, k).events), k)
  {
    if k > 0 {
      RunAddsOnePerStep(cfg, outcomes, k - 1);
      var s := Run(cfg, outcomes, k - 1);
      assert Run(cfg, outcomes, k) == TrainStep(cfg, s, k - 1, outcomes[k - 1]);
      StepKeepsAddsFollowing(cfg, outcomes, s, k - 1);
    }
  }

  lemma StepKeepsAddsFollowing(cfg: TrainConfig, outcomes: seq<Outcome>, s: TrainState, step: nat)
    requires cfg.stepsPerEpoch != 0 && step < |outcomes|
    requires AddsFollow(cfg, outcomes, Adds(s.events), step)
    ensures AddsFollow(cfg, outcomes, Adds(TrainStep(cfg, s, step, outcomes[step]).events), step + 1)
  {
    StepAdds(cfg, s, step, outcomes[step]);
  }

  /** The episode counters agree with the trace: the episode length is the
      number of transitions added since the last `_update`, and the episode
      reward is the sum of their rewards. The `_update` arguments plus the
      length of the unfinished episode add up to the number of steps taken. */
  predicate CountersOnTrace(s: TrainState, steps: int)
  {
    && s.episodeLength == OpenEpisodeLength(s.events)
    && s.episodeReward == OpenEpisodeReward(s.events)
    && Sum(UpdateLengths(s.events)) + s.episodeLength == steps
  }

  /** Between iterations the counters always agree with the trace. */
  lemma {:induction false} RunEpisodeCounters(cfg: TrainConfig, outcomes: seq<Outcome>, k: nat)
    requires k <= |outcomes| && (k == 0 || cfg.stepsPerEpoch != 0)
    ensures CountersOnTrace(Run(cfg, outcomes, k), k)
  {
    if k > 0 {
      RunEpisodeCounters(cfg, outcomes, k - 1);
      var s := Run(cfg, outcomes, k - 1);
      assert Run(cfg, outcomes, k) == TrainStep(cfg, s, k - 1, outcomes[k - 1]);
      StepKeepsCountersOnTrace(cfg, s, k - 1, outcomes[k - 1]);
    }
  }

  lemma StepKeepsCountersOnTrace(cfg: TrainConfig, s: TrainState, step: int, o: Outcome)
    requires cfg.stepsPerEpoch != 0
    requires CountersOnTrace(s, step)
    ensures CountersOnTrace(TrainStep(cfg, s, step, o), step + 1)
  {
    StepUpdateLengths(cfg, s, step, o);
    StepOpenEpisode(cfg, s, step, o);
    StepCounters(cfg, s, step, o);
  }

  /** The episode length is below the cap and every `_update` argument
      lies in `1..max_episode_length`. */
  predicate WithinCap(s: TrainState, maxEpisodeLength: int)
  {
    && 0 <= s.episodeLength < maxEpisodeLength
    && forall j :: 0 <= j < |UpdateLengths(s.events)| ==> 1 <= UpdateLengths(s.events)[j] <= maxEpisodeLength
  }

  /** With `max_episode_length >= 1` an episode never outgrows the cap. */
  lemma {:induction false} RunEpisodeBounds(cfg: TrainConfig, outcomes: seq<Outcome>, k: nat)
    requires k <= |outcomes| && (k == 0 || cfg.stepsPerEpoch != 0)
    requires cfg.maxEpisodeLength >= 1
    ensures WithinCap(Run(cfg, outcomes, k), cfg.maxEpisodeLength)
  {
    if k > 0 {
      RunEpisodeBounds(cfg, outcomes, k - 1);
      var s := Run(cfg, outcomes, k - 1);
      assert Run(cfg, outcomes, k) == TrainStep(cfg, s, k - 1, outcomes[k - 1]);
      StepStaysWithinCap(cfg, s, k - 1, outcomes[k - 1]);
    }
  }

  lemma StepStaysWithinCap(cfg: TrainConfig, s: TrainState, step: int, o: Outcome)
    requires cfg.stepsPerEpoch != 0
    requires WithinCap(s, cfg.maxEpisodeLength)
    ensures WithinCap(TrainStep(cfg, s, step, o), cfg.maxEpisodeLength)
  {
    var length := s.episodeLength + 1;
    var ends := EpisodeEnds(o.done, length, cfg.maxEpisodeLength);
    StepUpdateLengths(cfg, s, step, o);
    StepCounters(cfg, s, step, o);
    var before, after := UpdateLengths(s.events), UpdateLengths(TrainStep(cfg, s, step, o).events);
    assert after == before + (if ends then [length] else []);
    forall j | 0 <= j < |after| ensures 1 <= after[j] <= cfg.maxEpisodeLength {
      if j < |before| {
        assert after[j] == before[j];
      }
    }
  }

  /** Iteration `k` calls `_update` exactly when the environment reports done
      or the episode in progress (read off the trace) reaches
      `max_episode_length`; the argument is that episode's length, and right
      afterwards both episode counters are zero. */
  lemma {:induction false} UpdateExactlyAtEpisodeEnd(cfg: TrainConfig, outcomes: seq<Outcome>, k: nat)
    requires k < |outcomes| && cfg.stepsPerEpoch != 0
    ensures var before := Run(cfg, outcomes, k);
            var after := Run(cfg, outcomes, k + 1);
            var length := OpenEpisodeLength(before.events) + 1;
            var ends := outcomes[k].done || length == cfg.maxEpisodeLength;
            && UpdateLengths(after.events) == UpdateLengths(before.events) + (if ends then [length] else [])
            && (ends ==> after.episodeLength == 0 && after.episodeReward == 0.0)
            && (!ends ==> after.episodeLength == length)
  {
    RunEpisodeCounters(cfg, outcomes, k);
    var before := Run(cfg, outcomes, k);
    assert Run(cfg, outcomes, k + 1) == TrainStep(cfg, before, k, outcomes[k]);
    StepUpdatesAtEpisodeEnd(cfg, before, k, outcomes[k]);
  }

  lemma StepUpdatesAtEpisodeEnd(cfg: TrainConfig, s: TrainState, step: int, o: Outcome)
    requires cfg.stepsPerEpoch != 0
    requires CountersOnTrace(s, step)
    ensures var after := TrainStep(cfg, s, step, o);
            var length := OpenEpisodeLength(s.events) + 1;
            var ends := o.done || length == cfg.maxEpisodeLength;
            && UpdateLengths(after.events) == UpdateLengths(s.events) + (if ends then [length] else [])
            && (ends ==> after.episodeLength == 0 && after.episodeReward == 0.0)
            && (!ends ==> after.episodeLength == length)
  {
    assert s.episodeLength == OpenEpisodeLength(s.events);
    StepUpdateLengths(cfg, s, step, o);
    StepCounters(cfg, s, step, o);
  }

  /** Within each iteration the insertion comes first, then the episode-end
      `_update`, then the epoch `evaluate()`: every trace is well ordered. */
  lemma {:induction false} RunWellOrdered(cfg: TrainConfig, outcomes: seq<Outcome>, k: nat)
    requires k <= |outcomes| && (k == 0 || cfg.stepsPerEpoch != 0)
    ensures WellOrdered(Run(cfg, outcomes, k).events)
  {
    if k > 0 {
      RunWellOrdered(cfg, outcomes, k - 1);
      StepWellOrdered(cfg, Run(cfg, outcomes, k - 1), k - 1, outcomes[k - 1]);
    }
  }

  /** Division facts for stepping a counter of multiples of `d`. */
  lemma DivStep(a: int, d: int)
    requires a >= 1 && d >= 1
    ensures a / d == (a - 1) / d + (if a % d == 0 then 1 else 0)
  {
    var q, r := (a - 1) / d, (a - 1) % d;
    assert a - 1 == d * q + r && 0 <= r < d;
    if r == d - 1 {
      DivModUnique(a, d, q + 1, 0);
    } else {
      DivModUnique(a, d, q, r + 1);
    }
  }

  lemma DivModUnique(a: int, d: int, q: int, r: int)
    requires d >= 1 && 0 <= r < d && a == d * q + r
    ensures a / d == q && a % d == r
  {
    var q', r' := a / d, a % d;
    assert a == d * q' + r' && 0 <= r' < d;
    if q' < q {
      MulAtLeast(d, q - q');
    } else if q' > q {
      MulAtLeast(d, q' - q);
    }
  }

  lemma {:induction false} MulAtLeast(d: int, n: int)
    requires d >= 1 && n >= 1
    ensures d * n >= d
  {
    if n > 1 {
      MulAtLeast(d, n - 1);
      assert d * n == d * (n - 1) + d;
    }
  }

  /** The evaluation points of `k` steps with epochs of `d >= 1` steps:
      `evaluate()` runs after step `m * d` for m = 1, 2, ..., so after
      `k >= 1` steps it has run `(k - 1) / d` times, the j-th time once
      `(j + 1) * d + 1` transitions had been added. */
  predicate EvaluatedAtEpochs(points: seq<nat>, k: nat, d: int)
    requires d >= 1
  {
    && |points| == (if k == 0 then 0 else (k - 1) / d)
    && forall j :: 0 <= j < |points| ==> points[j] == (j + 1) * d + 1
  }

  /** `evaluate()` runs at the epoch boundaries, with the epoch length
      `|steps_per_epoch|`: the sign does not change which steps are
      multiples. */
  lemma {:induction false} RunEvaluations(cfg: TrainConfig, outcomes: seq<Outcome>, k: nat)
    requires k <= |outcomes| && cfg.stepsPerEpoch != 0
    ensures EvaluatedAtEpochs(EvaluationPoints(Run(cfg, outcomes, k).events), k, Abs(cfg.stepsPerEpoch))
  {
    if k > 0 {
      RunEvaluations(cfg, outcomes, k - 1);
      RunAddsOnePerStep(cfg, outcomes, k - 1);
      var s := Run(cfg, outcomes, k - 1);
      assert Run(cfg, outcomes, k) == TrainStep(cfg, s, k - 1, outcomes[k - 1]);
      StepKeepsEvaluatedAtEpochs(cfg, s, k - 1, outcomes[k - 1]);
    }
  }

  lemma StepKeepsEvaluatedAtEpochs(cfg: TrainConfig, s: TrainState, step: nat, o: Outcome)
    requires cfg.stepsPerEpoch != 0
    requires |Adds(s.events)| == step
    requires EvaluatedAtEpochs(EvaluationPoints(s.events), step, Abs(cfg.stepsPerEpoch))
    ensures EvaluatedAtEpochs(EvaluationPoints(TrainStep(cfg, s, step, o).events), step + 1, Abs(cfg.stepsPerEpoch))
  {
    StepEvaluationPoints(cfg, s, step, o);
    ModAbs(step, cfg.stepsPerEpoch);
    EvaluationPointsStep(EvaluationPoints(s.events), step, Abs(cfg.stepsPerEpoch));
  }

  function Abs(x: int): nat
  {
    if x < 0 then -x else x
  }

  /** Dafny's `%` is Euclidean, so the sign of the divisor does not matter. */
  lemma ModAbs(a: int, d: int)
    requires d != 0
    ensures a % d == a % Abs(d)
  {
    if d < 0 {
      var q, r := a / -d, a % -d;
      assert a == d * -q + r && 0 <= r < Abs(d);
      ModUnique(a, d, -q, r);
    }
  }

  /** The remainder of a division by a negative `d` is the one `r` in
      `0..|d|` with `a == d * q + r`. */
  lemma ModUnique(a: int, d: int, q: int, r: int)
    requires d < 0 && 0 <= r < -d && a == d * q + r
    ensures a % d == r
  {
    var q', r' := a / d, a % d;
    assert a == d * q' + r' && 0 <= r' < -d;
    if q' < q {
      MulAtLeast(-d, q - q');
    } else if q' > q {
      MulAtLeast(-d, q' - q);
    }
  }

  /** The arithmetic of one step of `RunEvaluations`: after step `n`, which
      evaluates exactly when `n != 0 && n % d == 0`. */
  lemma EvaluationPointsStep(points: seq<nat>, n: nat, d: int)
    requires d >= 1
    requires |points| == (if n == 0 then 0 else (n - 1) / d)
    requires forall j :: 0 <= j < |points| ==> points[j] == (j + 1) * d + 1
    ensures var after := points + (if n != 0 && n % d == 0 then [n + 1] else []);
            && |after| == n / d
            && forall j :: 0 <= j < |after| ==> after[j] == (j + 1) * d + 1
  {
    if n > 0 {
      DivStep(n, d);
      if n % d == 0 {
        var m := n / d;
        assert n == d * m;
        var after := points + [n + 1];
        assert after[m - 1] == m * d + 1;
      }
    }
  }

  /** `DDPG.train` with the environment given as the outcomes of its steps.
      Returns the calls the loop makes to the replay buffer, `_update` and
      `evaluate`. */
  method Train(cfg: TrainConfig, outcomes: seq<Outcome>) returns (trace: seq<Event>)
    requires NumberOfSteps(cfg) <= |outcomes|
    ensures trace == Run(cfg, outcomes, NumberOfSteps(cfg)).events
    ensures |Adds(trace)| == NumberOfSteps(cfg)
    ensures WellOrdered(trace)
    ensures cfg.maxEpisodeLength >= 1 ==>
      && Sum(UpdateLengths(trace)) <= NumberOfSteps(cfg)
      && NumberOfSteps(cfg) - Sum(UpdateLengths(trace)) < cfg.maxEpisodeLength
    ensures NumberOfSteps(cfg) >= 1 ==>
      |EvaluationPoints(trace)| == (NumberOfSteps(cfg) - 1) / Abs(cfg.stepsPerEpoch)
  {
    var numberOfSteps := RangeLength(cfg.stepsPerEpoch * cfg.epochs);
    var events: seq<Event> := [];
    var episodeReward: real := 0.0;
    var episodeLength: int := 0;
    if numberOfSteps > 0 {
      StepsNeedEpochLength(cfg);
    }
    for step := 0 to numberOfSteps
      invariant TrainState(events, episodeReward, episodeLength) == Run(cfg, outcomes, step)
    {
      var action := if step < cfg.startSteps then Sampled else Policy;
      var o := outcomes[step];
      episodeReward := episodeReward + o.reward;
      episodeLength := episodeLength + 1;
      events := events + [Add(action, o.reward, o.done)];
      if o.done || episodeLength == cfg.maxEpisodeLength {
        events := events + [Update(episodeLength)];
        episodeReward := 0.0;
        episodeLength := 0;
      }
      if step != 0 && step % cfg.stepsPerEpoch == 0 {
        events := events + [Evaluate];
      }
    }
    trace := events;
    RunAddsOnePerStep(cfg, outcomes, numberOfSteps);
    RunWellOrdered(cfg, outcomes, numberOfSteps);
    RunEpisodeCounters(cfg, outcomes, numberOfSteps);
    if cfg.maxEpisodeLength >= 1 {
      RunEpisodeBounds(cfg, outcomes, numberOfSteps);
    }
    if numberOfSteps > 0 {
      RunEvaluations(cfg, outcomes, numberOfSteps);
    }
  }

  /** One epoch of ten steps in an environment that rewards 1 and reports
      done every third step, with no warm-up and a cap of three. */
  function ScenarioConfig(): TrainConfig { TrainConfig(0, 10, 1, 3) }

  function ScenarioOutcomes(): seq<Outcome> { seq(10, i => Outcome(1.0, i % 3 == 2)) }

  /** After `k` steps, `_update(3)` has been called `k / 3` times and the
      episode length is `k % 3`. */
  predicate UpdatedEveryThird(s: TrainState, k: nat)
  {
    UpdateLengths(s.events) == Repeat(3, k / 3) && s.episodeLength == k % 3
  }

  /** In an environment that reports done exactly every third step (and
      any cap of three), `_update(3)` is called after every third step. */
  lemma {:induction false} EveryThirdDoneUpdates(cfg: TrainConfig, outcomes: seq<Outcome>, k: nat)
    requires k <= |outcomes| && (k == 0 || cfg.stepsPerEpoch != 0)
    requires cfg.maxEpisodeLength == 3
    requires forall i :: 0 <= i < |outcomes| ==> outcomes[i].done == (i % 3 == 2)
    ensures UpdatedEveryThird(Run(cfg, outcomes, k), k)
  {
    if k > 0 {
      EveryThirdDoneUpdates(cfg, outcomes, k - 1);
      var s := Run(cfg, outcomes, k - 1);
      assert Run(cfg, outcomes, k) == TrainStep(cfg, s, k - 1, outcomes[k - 1]);
      StepCountsInThrees(cfg, s, k - 1, outcomes[k - 1]);
    }
  }

  lemma StepCountsInThrees(cfg: TrainConfig, s: TrainState, step: nat, o: Outcome)
    requires cfg.stepsPerEpoch != 0 && cfg.maxEpisodeLength == 3
    requires o.done == (step % 3 == 2)
    requires UpdatedEveryThird(s, step)
    ensures UpdatedEveryThird(TrainStep(cfg, s, step, o), step + 1)
  {
    var s' := TrainStep(cfg, s, step, o);
    StepUpdateLengths(cfg, s, step, o);
    StepCounters(cfg, s, step, o);
    CountInThrees(step + 1, o.done, UpdateLengths(s.events), s.episodeLength,
      UpdateLengths(s'.events), s'.episodeLength);
  }

  /** One step of `EveryThirdDoneUpdates`: the done flag of step `k - 1`
      ends the episode exactly when `k` is a multiple of three. */
  lemma CountInThrees(k: nat, done: bool, updates: seq<int>, length: int, updates': seq<int>, length': int)
    requires k > 0
    requires done == ((k - 1) % 3 == 2)
    requires updates == Repeat(3, (k - 1) / 3) && length == (k - 1) % 3
    requires var ends := EpisodeEnds(done, length + 1, 3);
             && updates' == updates + (if ends then [length + 1] else [])
             && length' == (if ends then 0 else length + 1)
    ensures updates' == Repeat(3, k / 3) && length' == k % 3
  {
    CountingInThrees(k);
  }

  /** `n` copies of `x`. */
  function Repeat(x: int, n: nat): (r: seq<int>)
    ensures |r| == n && forall j :: 0 <= j < n ==> r[j] == x
  {
    if n == 0 then [] else Repeat(x, n - 1) + [x]
  }

  lemma CountingInThrees(k: nat)
    requires k > 0
    ensures ((k - 1) % 3 == 2) == (k % 3 == 0)
    ensures (k - 1) % 3 + 1 == (if k % 3 == 0 then 3 else k % 3)
    ensures k % 3 == 0 ==> Repeat(3, (k - 1) / 3) + [3] == Repeat(3, k / 3)
    ensures k % 3 != 0 ==> (k - 1) / 3 == k / 3
  {
    if k % 3 == 0 {
      assert (k - 1) / 3 + 1 == k / 3;
    }
  }

  /** In that scenario ten transitions are added, `_update(3)` is called
      three times, and `evaluate()` is never called: the only step index in
      `range(10)` divisible by ten is 0, which the epoch test excludes. */
  lemma OneEpochScenario()
    ensures var trace := Run(ScenarioConfig(), ScenarioOutcomes(), 10).events;
            && |Adds(trace)| == 10
            && UpdateLengths(trace) == [3, 3, 3]
            && EvaluationPoints(trace) == []
  {
    RunAddsOnePerStep(ScenarioConfig(), ScenarioOutcomes(), 10);
    RunEvaluations(ScenarioConfig(), ScenarioOutcomes(), 10);
    EveryThirdDoneUpdates(ScenarioConfig(), ScenarioOutcomes(), 10);
  }
}
