/** The two pieces of arithmetic the trainer applies to target networks:
    the critic's regression target of `_get_target` and the polyak smoothing
    of `_update_targets`. Network outputs and parameters are plain reals. */
module TargetNetworks {

  /** Float value of one element of `torch.Tensor(batch["done"])`. */
  function DoneAsReal(done: bool): real
  {
    if done then 1.0 else 0.0
  }

  /** `_get_target`, elementwise over a batch: `reward + discount_factor *
      (1 - done) + q`, where `q` is the target critic's value of the target
      actor's action. The bootstrapped value is added undiscounted and is not
      masked by `done`: a terminal transition gets `reward + q`. */
  function GetTarget(discountFactor: real, reward: seq<real>, done: seq<bool>, q: seq<real>): (target: seq<real>)
    requires |done| == |reward| && |q| == |reward|
    ensures |target| == |reward|
    ensures forall i :: 0 <= i < |target| && done[i] ==> target[i] == reward[i] + q[i]
    ensures forall i :: 0 <= i < |target| && !done[i] ==> target[i] == reward[i] + discountFactor + q[i]
  {
    seq(|reward|, i requires 0 <= i < |reward| =>
      reward[i] + discountFactor * (1.0 - DoneAsReal(done[i])) + q[i])
  }

  /** Shifting every critic value by `c` shifts every target by exactly `c`:
      the critic's value enters the target with weight one, whatever the
      discount factor and whether or not the transition was terminal. */
  lemma GetTargetShiftsWithQ(discountFactor: real, reward: seq<real>, done: seq<bool>, q: seq<real>, c: real)
    requires |done| == |reward| && |q| == |reward|
    ensures var shifted := seq(|q|, i requires 0 <= i < |q| => q[i] + c);
            forall i :: 0 <= i < |reward| ==>
              GetTarget(discountFactor, reward, done, shifted)[i] == GetTarget(discountFactor, reward, done, q)[i] + c
  {
    var shifted := seq(|q|, i requires 0 <= i < |q| => q[i] + c);
    var before := GetTarget(discountFactor, reward, done, q);
    var after := GetTarget(discountFactor, reward, done, shifted);
    forall i | 0 <= i < |reward| ensures after[i] == before[i] + c {
      assert shifted[i] == q[i] + c;
    }
  }

  /** The masked Bellman target `reward + discount_factor * (1 - done) * q`
      that the comment above `_get_target` describes: the critic's value is
      discounted and dropped for terminal transitions. */
  function MaskedTarget(discountFactor: real, reward: seq<real>, done: seq<bool>, q: seq<real>): (target: seq<real>)
    requires |done| == |reward| && |q| == |reward|
    ensures |target| == |reward|
    ensures forall i :: 0 <= i < |target| && done[i] ==> target[i] == reward[i]
    ensures forall i :: 0 <= i < |target| && !done[i] ==> target[i] == reward[i] + discountFactor * q[i]
  {
    seq(|reward|, i requires 0 <= i < |reward| =>
      reward[i] + discountFactor * (1.0 - DoneAsReal(done[i])) * q[i])
  }

  /** For a terminal transition the literal target exceeds the masked one by
      exactly the critic's value, so the two agree there only when that
      value is zero. */
  lemma TerminalTargetKeepsCriticValue(discountFactor: real, reward: seq<real>, done: seq<bool>, q: seq<real>, i: int)
    requires |done| == |reward| && |q| == |reward|
    requires 0 <= i < |reward| && done[i]
    ensures GetTarget(discountFactor, reward, done, q)[i] - MaskedTarget(discountFactor, reward, done, q)[i] == q[i]
    ensures GetTarget(discountFactor, reward, done, q)[i] == MaskedTarget(discountFactor, reward, done, q)[i] <==> q[i] == 0.0
  {
  }

  /** One terminal transition with reward 1 and critic value 5: the literal
      target is 6, the masked target 1. */
  lemma TerminalTransitionCounterexample()
    ensures GetTarget(0.99, [1.0], [true], [5.0]) == [6.0]
    ensures MaskedTarget(0.99, [1.0], [true], [5.0]) == [1.0]
  {
    var literal, masked := GetTarget(0.99, [1.0], [true], [5.0]), MaskedTarget(0.99, [1.0], [true], [5.0]);
    assert literal[0] == 6.0 && masked[0] == 1.0;
  }

  /** New target parameters after `_update_targets(target, main)`: the
      parameters are paired by `zip`, so only the first `min(|target|, |main|)`
      are smoothed towards `main`; the rest keep their values. */
  function Smooth(polyak: real, target: seq<real>, main: seq<real>): (r: seq<real>)
    ensures |r| == |target|
    ensures forall i :: |main| <= i < |target| ==> r[i] == target[i]
    ensures target == main ==> r == target
  {
    seq(|target|, i requires 0 <= i < |target| =>
      if i < |main| then polyak * target[i] + (1.0 - polyak) * main[i] else target[i])
  }

  /** Each paired parameter's distance to its main value is multiplied by
      `polyak`. */
  lemma SmoothGap(polyak: real, target: seq<real>, main: seq<real>, i: int)
    requires 0 <= i < |target| && i < |main|
    ensures Smooth(polyak, target, main)[i] - main[i] == polyak * (target[i] - main[i])
  {
    var t, m := target[i], main[i];
    assert Smooth(polyak, target, main)[i] == polyak * t + (1.0 - polyak) * m;
  }

  /** With `polyak` in [0, 1] every smoothed parameter lies between its old
      value and the corresponding main parameter. */
  lemma SmoothIsConvex(polyak: real, target: seq<real>, main: seq<real>, i: int)
    requires 0.0 <= polyak <= 1.0
    requires 0 <= i < |target| && i < |main|
    ensures target[i] <= main[i] ==> target[i] <= Smooth(polyak, target, main)[i] <= main[i]
    ensures main[i] <= target[i] ==> main[i] <= Smooth(polyak, target, main)[i] <= target[i]
  {
    ConvexCombinationBetween(polyak, target[i], main[i], Smooth(polyak, target, main)[i]);
  }

  /** A convex combination of two reals lies between them. */
  lemma ConvexCombinationBetween(p: real, t: real, m: real, x: real)
    requires 0.0 <= p <= 1.0
    requires x == p * t + (1.0 - p) * m
    ensures t <= m ==> t <= x <= m
    ensures m <= t ==> m <= x <= t
  {
    if t <= m {
      assert x - t == (1.0 - p) * (m - t);
      assert m - x == p * (m - t);
      MulNonneg(1.0 - p, m - t);
      MulNonneg(p, m - t);
    }
    if m <= t {
      assert t - x == (1.0 - p) * (t - m);
      assert x - m == p * (t - m);
      MulNonneg(1.0 - p, t - m);
      MulNonneg(p, t - m);
    }
  }

  lemma MulNonneg(a: real, b: real)
    requires a >= 0.0 && b >= 0.0
    ensures a * b >= 0.0
  {
  }

  /** `p` raised to the power `n`. */
  function Pow(p: real, n: nat): real
  {
    if n == 0 then 1.0 else p * Pow(p, n - 1)
  }

  /** The target parameters after `n` successive `_update_targets` calls
      against the same main parameters. */
  function SmoothRepeatedly(polyak: real, target: seq<real>, main: seq<real>, n: nat): (r: seq<real>)
    ensures |r| == |target|
  {
    if n == 0 then target else Smooth(polyak, SmoothRepeatedly(polyak, target, main, n - 1), main)
  }

  /** Repeated smoothing towards fixed main parameters shrinks each paired
      parameter's distance to its main value geometrically, by a factor of
      `polyak` per update. */
  lemma {:induction false} SmoothRepeatedlyGap(polyak: real, target: seq<real>, main: seq<real>, n: nat, i: int)
    requires 0 <= i < |target| && i < |main|
    ensures SmoothRepeatedly(polyak, target, main, n)[i] - main[i] == Pow(polyak, n) * (target[i] - main[i])
  {
    var next := SmoothRepeatedly(polyak, target, main, n);
    if n == 0 {
      assert next == target && Pow(polyak, n) == 1.0;
    } else {
      SmoothRepeatedlyGap(polyak, target, main, n - 1, i);
      var prev := SmoothRepeatedly(polyak, target, main, n - 1);
      assert next == Smooth(polyak, prev, main);
      SmoothGap(polyak, prev, main, i);
      GapShrinks(polyak, Pow(polyak, n - 1), Pow(polyak, n), target[i] - main[i], prev[i] - main[i], next[i] - main[i]);
    }
  }

  /** However often it is repeated, smoothing never touches a target
      parameter that has no partner in `main`. */
  lemma {:induction false} SmoothRepeatedlyKeepsUnpaired(polyak: real, target: seq<real>, main: seq<real>, n: nat, i: int)
    requires |main| <= i < |target|
    ensures SmoothRepeatedly(polyak, target, main, n)[i] == target[i]
  {
    if n > 0 {
      SmoothRepeatedlyKeepsUnpaired(polyak, target, main, n - 1, i);
    }
  }

  /** One more factor `polyak` on a gap that has already shrunk by `p`. */
  lemma GapShrinks(polyak: real, p: real, p': real, gap: real, before: real, after: real)
    requires before == p * gap && after == polyak * before && p' == polyak * p
    ensures after == p' * gap
  {
  }

  /** `_update_targets(target, main)`: overwrites each paired target
      parameter in place with `polyak * target + (1 - polyak) * main`. The
      main parameters are read only; if both arguments are the same array
      the update leaves it as it was. */
  method UpdateTargets(polyak: real, target: array<real>, main: array<real>)
    modifies target
    ensures target[..] == Smooth(polyak, old(target[..]), old(main[..]))
    ensures main[..] == old(main[..])
  {
    var paired := if target.Length < main.Length then target.Length else main.Length;
    for i := 0 to paired
      invariant forall j :: 0 <= j < i ==> target[j] == polyak * old(target[j]) + (1.0 - polyak) * old(main[j])
      invariant forall j :: i <= j < target.Length ==> target[j] == old(target[j])
      invariant forall j :: 0 <= j < main.Length ==> main[j] == old(main[j])
    {
      target[i] := polyak * target[i] + (1.0 - polyak) * main[i];
    }
    ghost var smoothed := Smooth(polyak, old(target[..]), old(main[..]));
    forall j | 0 <= j < target.Length ensures target[j] == smoothed[j] {
    }
    assert target[..] == smoothed;
  }
}
