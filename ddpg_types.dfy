/** Values shared by the trainer's loops: what the environment reports after
    each step, and the pieces of Python semantics the loops rely on. */
module DdpgTypes {

  /** The part of `env.step(action)` that the trainer's counters use: the
      scalar reward and the done flag. Observations and actions are opaque. */
  datatype Outcome = Outcome(reward: real, done: bool)

  /** Number of iterations of Python's `range(n)`: none when `n <= 0`. */
  function RangeLength(n: int): (r: nat)
    ensures n <= 0 ==> r == 0
    ensures n > 0 ==> r == n
  {
    if n < 0 then 0 else n
  }

  /** The episode-end test shared by `train` and `evaluate`: the environment
      says done, or the episode has reached the configured maximum length. */
  predicate EpisodeEnds(done: bool, episodeLength: int, maxEpisodeLength: int)
  {
    done || episodeLength == maxEpisodeLength
  }
}
