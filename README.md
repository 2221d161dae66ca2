# DDPG trainer: step scheduling, evaluation counting and target arithmetic

This project models the sequential logic inside the `DDPG` trainer class of
`safe_explorer/ddpg/ddpg.py` and proves properties of it in Dafny:

- **`train`** (module `Training`). This is the step scheduler. The
  environment is given as the sequence of `(reward, done)` outcomes it
  reports, and the calls the loop makes are recorded as a trace of events:
  - `Add` is one replay-buffer insertion. It records whether the action was
    sampled (warm-up) or came from the policy.
  - `Update(n)` is the call `_update(episode_length)`.
  - `Evaluate` is the call `evaluate()`.

  The method `Train` runs the loop's scheduling as the source does. It is proved equal to
  the fold `Run`, and lemmas about `Run` state what the trace contains:
  - counts and order;
  - episode bounds;
  - when `_update` is called;
  - when evaluation happens.
- **`evaluate`** (module `Evaluation`). This is the counting loop, with its
  episode counters never reset. The method `Evaluate` is proved equal to the
  fold `EvalRun`, and `EvalRunCounts` describes that fold completely.
- **`_update_targets`** (module `TargetNetworks`). This is the in-place
  polyak update on an array of reals whose pairs are formed by `zip`. It is
  specified by `Smooth` on sequences, and lemmas show that smoothing is convex
  and shrinks the gap geometrically.
- **`_get_target`** (module `TargetNetworks`). This is the literal expression
  `reward + discount_factor * (1 - done) + q`. It is compared with the masked
  Bellman target that the source's own comment describes.

Module `DdpgTypes` holds what these share:
- an environment outcome;
- the iteration count of Python's `range`;
- the episode-end test.

The model follows the code as written. Consequences worth knowing:
- `_get_target` adds `q` undiscounted and unmasked, unlike the formula in
  the comment above it (see Findings).
- `evaluate` never resets its counters inside the loop. It logs totals
  over all evaluation steps, and an episode-end entry records the running
  totals since the start of the evaluation.
- `train` adds one transition per step. In a one-epoch run of ten steps with
  done every third step and a cap of three, that gives ten transitions and
  three `_update(3)` calls (`Training.OneEpochScenario`).
- With `d = |steps_per_epoch|`, evaluation runs after the steps with index
  `d, 2d, ...` below the step budget `N`. Step 0 is excluded. The loop never
  reaches index `N` itself, so the last step is followed by `evaluate()`
  only when `d == 1` (and `N >= 2`).
- The source as written raises `AttributeError` in three places, and the
  model's trace carries on past each of them (see "## Left out"):
  - `train` reads `self.env` at ddpg.py:161, before its first step;
  - `_get_action` reads `action_space.hight` at ddpg.py:57, which `train`
    reaches at its first policy step, `step == start_steps` (ddpg.py:170);
  - `evaluate` reaches the same read at the first step of every call
    (ddpg.py:133).

## Model

| member | source | states |
|---|---|---|
| `Training.Train` | safe_explorer/ddpg/ddpg.py:161-200 | The loop's trace is the fold `Run` over `max(0, steps_per_epoch * epochs)` steps. It holds exactly that many insertions and is well ordered. With `max_episode_length >= 1`, the `_update` arguments sum to at most the step count, and they fall short of it by less than the cap. With at least one step, `evaluate()` is called `(N - 1) / abs(steps_per_epoch)` times. |
| `Training.StepsNeedEpochLength` | safe_explorer/ddpg/ddpg.py:165-167 | If the loop runs at all, `steps_per_epoch` is nonzero, so the epoch test never divides by zero. |
| `Training.RunAddsOnePerStep` | safe_explorer/ddpg/ddpg.py:167-182 | After `k` steps there are exactly `k` insertions. The j-th carries the j-th reward and done flag, and its action is sampled iff `j < start_steps` and comes from the policy iff `j >= start_steps`. |
| `Training.RunEpisodeCounters` | safe_explorer/ddpg/ddpg.py:173-192 | `episode_length` is the number of insertions since the last `_update`, and `episode_reward` is the sum of their rewards. The `_update` arguments plus `episode_length` sum to the number of steps taken. |
| `Training.RunEpisodeBounds` | safe_explorer/ddpg/ddpg.py:167-192 | With `max_episode_length >= 1`, `0 <= episode_length < max_episode_length` between iterations, and every `_update` argument lies in `1..max_episode_length`. |
| `Training.UpdateExactlyAtEpisodeEnd` | safe_explorer/ddpg/ddpg.py:187-192 | Step `k` calls `_update` exactly when done holds or the open episode's length plus one equals the cap. The argument is that length, and both counters are 0 afterwards. |
| `Training.RunWellOrdered` | safe_explorer/ddpg/ddpg.py:176-200 | Every trace starts with an Add. An Update only follows an Add, and an Evaluate never follows an Evaluate. |
| `Training.RunEvaluations` | safe_explorer/ddpg/ddpg.py:196-200 | With `d = abs(steps_per_epoch)`, after `k >= 1` steps `evaluate()` has run `(k - 1) / d` times. The j-th run comes after `(j + 1) * d + 1` insertions, that is, after step `(j + 1) * d`. |
| `Training.EveryThirdDoneUpdates` | safe_explorer/ddpg/ddpg.py:167-192 | If the environment reports done exactly at every third step and the cap is 3, then after `k` steps the `_update` arguments are `k / 3` threes and `episode_length == k % 3`. |
| `Training.OneEpochScenario` | safe_explorer/ddpg/ddpg.py:165-200 | With `start_steps = 0`, `steps_per_epoch = 10`, `epochs = 1`, cap 3 and done every third step, the run makes 10 insertions and calls `_update(3)` three times. It never calls `evaluate()`. |
| `Evaluation.Evaluate` | safe_explorer/ddpg/ddpg.py:122-143 | The loop's result is the fold `EvalRun`: the final length counter is `max(0, evaluation_steps)` and the reward counter is the sum of all rewards. The two lists have equal length, and `lengths` is strictly increasing within `1..episode_length`. Each `rewards` entry is the reward sum up to its length, and step `n` appends iff done or `n == max_episode_length`. |
| `Evaluation.EvalRunCounts` | safe_explorer/ddpg/ddpg.py:126-140 | After `k` steps of the loop the counters are `k` and the sum of the first `k` rewards. An entry is appended for step `n` exactly when that step is done or `n` equals the cap. The lengths entry is then `n` and the rewards entry the reward sum of the first `n` steps. |
| `Evaluation.NoDoneAppendsAtMostOnce` | safe_explorer/ddpg/ddpg.py:132-140 | Because the counters are never reset, a run without done flags appends at most once: `[max_episode_length]` if `1 <= max_episode_length <= k`, and nothing otherwise. |
| `TargetNetworks.GetTarget` | safe_explorer/ddpg/ddpg.py:63-75 | Elementwise over the batch, the target is `reward + discount + q` for a non-terminal transition and `reward + q` for a terminal one. |
| `TargetNetworks.GetTargetShiftsWithQ` | safe_explorer/ddpg/ddpg.py:72-75 | Shifting every critic value by `c` shifts every target by exactly `c`: `q` enters with weight one whatever the discount and the done flag. |
| `TargetNetworks.MaskedTarget` | safe_explorer/ddpg/ddpg.py:64-67 | The target that the source's comment describes: `reward` for a terminal transition and `reward + discount * q` otherwise. |
| `TargetNetworks.TerminalTargetKeepsCriticValue` | safe_explorer/ddpg/ddpg.py:63-75 | For a terminal transition the literal target exceeds the masked one by exactly `q`, so the two agree iff `q == 0`. |
| `TargetNetworks.TerminalTransitionCounterexample` | safe_explorer/ddpg/ddpg.py:75 | With reward 1, done, `q = 5` and discount 0.99, the literal target is 6 and the masked target is 1. |
| `TargetNetworks.Smooth` | safe_explorer/ddpg/ddpg.py:80-83 | Smoothing keeps the length, leaves every parameter without a partner in `main` unchanged, and is the identity when the target already equals main. |
| `TargetNetworks.SmoothGap` | safe_explorer/ddpg/ddpg.py:82-83 | Each paired parameter's distance to its main value is multiplied by `polyak`. |
| `TargetNetworks.SmoothIsConvex` | safe_explorer/ddpg/ddpg.py:82-83 | With `polyak` in [0, 1], each new paired value lies between the old target value and the main value. |
| `TargetNetworks.SmoothRepeatedlyGap` | safe_explorer/ddpg/ddpg.py:80-83 | After `n` updates against fixed main parameters, each paired gap is `polyak^n` times the original gap. |
| `TargetNetworks.SmoothRepeatedlyKeepsUnpaired` | safe_explorer/ddpg/ddpg.py:81 | However many updates are made, parameters beyond the shorter length are never changed. |
| `TargetNetworks.UpdateTargets` | safe_explorer/ddpg/ddpg.py:80-83 | In place, each target parameter `i < min(len(target), len(main))` becomes `polyak * old_target[i] + (1 - polyak) * main[i]`. The rest of `target` and all of `main` are unchanged, also when both arguments are the same array. |

## Left out

- Torch and the networks: the forward passes of actor and critic, Adam, `backward`/`step`, tensor conversion (`_tuple_to_tensor`) and `.cuda`. These are foreign library code. Network outputs such as `q` are inputs to the model, and parameters are flattened to one array of reals.
- Tensor shapes and broadcasting: `_get_target` is modelled elementwise over equal-length batches.
- Floating point: all arithmetic is on exact reals. Two stated facts hold only in exact arithmetic: `Smooth` is the identity when the target equals main, and `UpdateTargets` leaves an array unchanged when it is passed as both arguments. In float32, `polyak * x + (1 - polyak) * x` need not round back to `x`.
- The environment: `env.reset`/`env.step` become the given sequence of `(reward, done)` outcomes. Observations and actions are opaque and are not modelled.
- The replay buffer: `replay_buffer.py` is not part of this model. An insertion is only an `Add` event, and `sample` is not modelled.
- `_update` and `_update_batch`: `_update` is recorded only as the call and its argument. Its body maps lazily and runs nothing. `_update_batch` is made of sampling and gradient steps, and its only modelled parts are `_get_target` and `_update_targets`.
- `eval_mode`, `train_mode` and `cuda`: each is a lazy `map` that runs nothing.
- `_get_action`: Gaussian noise from `torch.randn` and clipping against the action space. The clipping reads the nonexistent attribute `action_space.hight` (ddpg.py:57), so as written the call raises `AttributeError`. `train` would raise at its first policy step, `step == start_steps`, and `evaluate` at its first step. The model records only whether an action was sampled or came from the policy, and its trace continues past those points.
- Logging, `print`, `time.time()` and `Config.get()`: TensorBoard scalars and console output are I/O. Configuration values are parameters.
- Attribute names: `train` reads `self.env` (ddpg.py:161) and `self.replay_buffer` (ddpg.py:176), but the constructor sets only `_env` and `_replay_buffer`. As written, `train` therefore raises `AttributeError` at line 161, before its first step. The model reads these names as the underscored fields and runs the whole loop. `_update_batch` reads `self.target_actor`/`self.target_critic` the same way, but the lazy `map` in `_update` never runs it.
- Training.RunEvaluations: stated for a nonzero `steps_per_epoch`, the only case in which the loop body runs.
- TargetNetworks.SmoothIsConvex: stated for `polyak` in [0, 1]. Outside that range a smoothed value can lie outside the two.

## Findings

| source | as written | input that shows it | evidently intended | confidence | as-written member | corrected member |
|---|---|---|---|---|---|---|
| safe_explorer/ddpg/ddpg.py:75 | `reward + discount_factor * (1 - done) + q`: the critic's value is added undiscounted and is not masked by `done` | one terminal transition with reward 1, `q = 5`, discount 0.99 gives target 6 | `reward + discount_factor * (1 - done) * q`, as the comment at lines 64-65 states, which gives 1 | high; not executed | `TargetNetworks.TerminalTransitionCounterexample` | `TargetNetworks.MaskedTarget` |
