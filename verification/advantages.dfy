/**
 * Advantage estimation after a rollout (ppo.py:275-300): generalized
 * advantage estimation, or plain discounted returns, computed backward
 * over the `[num_steps][num_envs]` buffers, each environment's column on
 * its own.
 */
module Advantages {
  import opened SeqOps

  /** A `[num_steps][num_envs]` buffer. */
  type Grid = seq<seq<real>>

  /**
   * What the estimators read: the rewards, value estimates and done flags of
   * each step, and the bootstrap value and done flag that follow the last step.
   */
  datatype Rollout = Rollout(rewards: Grid, values: Grid, dones: Grid, nextValue: seq<real>, nextDone: seq<real>)

  /** `gamma` and `gae_lambda`. */
  datatype Params = Params(gamma: real, lambda: real)

  function Steps(r: Rollout): nat
  {
    |r.rewards|
  }

  function Envs(r: Rollout): nat
  {
    |r.nextValue|
  }

  /** Every buffer has one row per step and one column per environment. */
  predicate WellShaped(r: Rollout)
  {
    && |r.values| == Steps(r) && |r.dones| == Steps(r)
    && Rectangular(r.rewards, Envs(r)) && Rectangular(r.values, Envs(r)) && Rectangular(r.dones, Envs(r))
    && |r.nextDone| == Envs(r)
  }

  /** `nextnonterminal`: one minus the done flag of the following step, `next_done` after the last step. */
  function NextNonTerminal(r: Rollout, t: nat, e: nat): real
    requires WellShaped(r) && t < Steps(r) && e < Envs(r)
  {
    if t == Steps(r) - 1 then 1.0 - r.nextDone[e] else 1.0 - r.dones[t + 1][e]
  }

  /** `nextvalues`: the value estimate of the following step, `next_value` after the last step. */
  function NextValue(r: Rollout, t: nat, e: nat): real
    requires WellShaped(r) && t < Steps(r) && e < Envs(r)
  {
    if t == Steps(r) - 1 then r.nextValue[e] else r.values[t + 1][e]
  }

  /** `delta`, the one-step temporal-difference error. */
  function Delta(r: Rollout, p: Params, t: nat, e: nat): real
    requires WellShaped(r) && t < Steps(r) && e < Envs(r)
  {
    r.rewards[t][e] + p.gamma * NextValue(r, t, e) * NextNonTerminal(r, t, e) - r.values[t][e]
  }

  /**
   * The GAE advantage of cell `(t, e)`: `delta` plus the discounted advantage
   * of the following step (`lastgaelam`, 0 after the last step).
   */
  function Gae(r: Rollout, p: Params, t: nat, e: nat): real
    requires WellShaped(r) && t < Steps(r) && e < Envs(r)
    decreases Steps(r) - t
  {
    var last := if t == Steps(r) - 1 then 0.0 else Gae(r, p, t + 1, e);
    Delta(r, p, t, e) + p.gamma * p.lambda * NextNonTerminal(r, t, e) * last
  }

  /** The plain discounted return of cell `(t, e)`, bootstrapped from `next_value` after the last step. */
  function DiscountedReturn(r: Rollout, p: Params, t: nat, e: nat): real
    requires WellShaped(r) && t < Steps(r) && e < Envs(r)
    decreases Steps(r) - t
  {
    var next := if t == Steps(r) - 1 then r.nextValue[e] else DiscountedReturn(r, p, t + 1, e);
    r.rewards[t][e] + p.gamma * NextNonTerminal(r, t, e) * next
  }

  /** `torch.zeros_like` of a `[steps][envs]` buffer. */
  function ZeroGrid(steps: nat, envs: nat): (g: Grid)
    ensures |g| == steps && Rectangular(g, envs)
  {
    seq(steps, _ => Zeros(envs))
  }

  /**
   * One step of the `lastgaelam` loop: row `t` from `last`, which holds
   * zeros after the final step and row `t + 1` of the advantages otherwise.
   */
  function GaeRow(r: Rollout, p: Params, t: nat, last: seq<real>): (row: seq<real>)
    requires WellShaped(r) && t < Steps(r) && |last| == Envs(r)
    requires forall e :: 0 <= e < Envs(r) ==> last[e] == (if t == Steps(r) - 1 then 0.0 else Gae(r, p, t + 1, e))
    ensures |row| == Envs(r)
    ensures forall e :: 0 <= e < Envs(r) ==> row[e] == Gae(r, p, t, e)
  {
    seq(Envs(r), e requires 0 <= e < Envs(r) =>
      Delta(r, p, t, e) + p.gamma * p.lambda * NextNonTerminal(r, t, e) * last[e])
  }

  /** The `lastgaelam` loop: steps from the last to the first, each row from the one after it. */
  method GaeLoop(r: Rollout, p: Params) returns (adv: Grid)
    requires WellShaped(r)
    ensures |adv| == Steps(r) && Rectangular(adv, Envs(r))
    ensures forall t, e :: 0 <= t < Steps(r) && 0 <= e < Envs(r) ==> adv[t][e] == Gae(r, p, t, e)
  {
    var steps, envs := Steps(r), Envs(r);
    adv := ZeroGrid(steps, envs);
    var last := Zeros(envs);
    var t: nat := steps;
    while t > 0
      invariant t <= steps && |adv| == steps && Rectangular(adv, envs) && |last| == envs
      invariant forall s, e :: t <= s < steps && 0 <= e < envs ==> adv[s][e] == Gae(r, p, s, e)
      invariant forall e :: 0 <= e < envs ==> last[e] == (if t == steps then 0.0 else Gae(r, p, t, e))
    {
      t := t - 1;
      var row := GaeRow(r, p, t, last);
      adv := adv[t := row];
      last := row;
    }
  }

  /** The `next_return` loop: steps from the last to the first, each row from the one after it. */
  method ReturnsLoop(r: Rollout, p: Params) returns (ret: Grid)
    requires WellShaped(r)
    ensures |ret| == Steps(r) && Rectangular(ret, Envs(r))
    ensures forall t, e :: 0 <= t < Steps(r) && 0 <= e < Envs(r) ==> ret[t][e] == DiscountedReturn(r, p, t, e)
  {
    var steps, envs := Steps(r), Envs(r);
    ret := ZeroGrid(steps, envs);
    var t: nat := steps;
    while t > 0
      invariant t <= steps && |ret| == steps && Rectangular(ret, envs)
      invariant forall s, e :: t <= s < steps && 0 <= e < envs ==> ret[s][e] == DiscountedReturn(r, p, s, e)
    {
      t := t - 1;
      var next := if t == steps - 1 then r.nextValue else ret[t + 1];
      var row := seq(envs, e requires 0 <= e < envs => r.rewards[t][e] + p.gamma * NextNonTerminal(r, t, e) * next[e]);
      assert forall e :: 0 <= e < envs ==> row[e] == DiscountedReturn(r, p, t, e);
      ret := ret[t := row];
    }
  }

  /** Cell-wise `a + sign * b` of two `[steps][envs]` buffers. */
  function Combine(a: Grid, b: Grid, sign: real, envs: nat): (c: Grid)
    requires |a| == |b| && Rectangular(a, envs) && Rectangular(b, envs)
    ensures |c| == |a| && Rectangular(c, envs)
    ensures forall t, e :: 0 <= t < |a| && 0 <= e < envs ==> c[t][e] == a[t][e] + sign * b[t][e]
  {
    seq(|a|, t requires 0 <= t < |a| => seq(envs, e requires 0 <= e < envs => a[t][e] + sign * b[t][e]))
  }

  /**
   * The estimation block of `main()`: with `gae` the `lastgaelam` loop and
   * `returns = advantages + values`; otherwise the `next_return` loop and
   * `advantages = returns - values`.
   */
  method EstimateAdvantages(r: Rollout, p: Params, gae: bool) returns (adv: Grid, ret: Grid)
    requires WellShaped(r)
    ensures |adv| == Steps(r) && |ret| == Steps(r) && Rectangular(adv, Envs(r)) && Rectangular(ret, Envs(r))
    ensures forall t, e :: 0 <= t < Steps(r) && 0 <= e < Envs(r) ==> ret[t][e] == adv[t][e] + r.values[t][e]
    ensures gae ==> forall t, e :: 0 <= t < Steps(r) && 0 <= e < Envs(r) ==> adv[t][e] == Gae(r, p, t, e)
    ensures !gae ==> forall t, e :: 0 <= t < Steps(r) && 0 <= e < Envs(r) ==> ret[t][e] == DiscountedReturn(r, p, t, e)
  {
    if gae {
      adv := GaeLoop(r, p);
      ret := Combine(adv, r.values, 1.0, Envs(r));
    } else {
      ret := ReturnsLoop(r, p);
      adv := Combine(ret, r.values, -1.0, Envs(r));
    }
  }

  /**
   * A done flag on the following step cuts the recursion: the advantage is
   * the reward minus the value estimate, whatever comes later.
   */
  lemma GaeDoneCutoff(r: Rollout, p: Params, t: nat, e: nat)
    requires WellShaped(r) && t < Steps(r) && e < Envs(r)
    requires (if t == Steps(r) - 1 then r.nextDone[e] else r.dones[t + 1][e]) == 1.0
    ensures Gae(r, p, t, e) == r.rewards[t][e] - r.values[t][e]
  {
    assert NextNonTerminal(r, t, e) == 0.0;
  }

  /** With `gae_lambda = 0` the advantage is the one-step TD error. */
  lemma GaeLambdaZero(r: Rollout, p: Params, t: nat, e: nat)
    requires WellShaped(r) && t < Steps(r) && e < Envs(r) && p.lambda == 0.0
    ensures Gae(r, p, t, e) == r.rewards[t][e] + p.gamma * NextValue(r, t, e) * NextNonTerminal(r, t, e) - r.values[t][e]
  {
    assert p.gamma * p.lambda == 0.0;
  }

  /** With `gae_lambda = 1`, GAE advantages plus values are the plain discounted returns. */
  lemma {:induction false} GaeLambdaOne(r: Rollout, p: Params, t: nat, e: nat)
    requires WellShaped(r) && t < Steps(r) && e < Envs(r) && p.lambda == 1.0
    ensures Gae(r, p, t, e) + r.values[t][e] == DiscountedReturn(r, p, t, e)
    decreases Steps(r) - t
  {
    var g, nnt, nv := p.gamma, NextNonTerminal(r, t, e), NextValue(r, t, e);
    var rew, v := r.rewards[t][e], r.values[t][e];
    var last := if t == Steps(r) - 1 then 0.0 else Gae(r, p, t + 1, e);
    var next := if t == Steps(r) - 1 then r.nextValue[e] else DiscountedReturn(r, p, t + 1, e);
    if t < Steps(r) - 1 {
      GaeLambdaOne(r, p, t + 1, e);
    }
    assert next == nv + last;
    assert Gae(r, p, t, e) == (rew + g * nv * nnt - v) + g * 1.0 * nnt * last;
    assert DiscountedReturn(r, p, t, e) == rew + g * nnt * next;
    assert g * nv * nnt + g * 1.0 * nnt * last == g * nnt * (nv + last);
  }

  /** With `gae_lambda = 1` both branches of the estimation block compute the same advantages and returns. */
  lemma BranchesAgree(r: Rollout, p: Params, t: nat, e: nat)
    requires WellShaped(r) && t < Steps(r) && e < Envs(r) && p.lambda == 1.0
    ensures Gae(r, p, t, e) == DiscountedReturn(r, p, t, e) - r.values[t][e]
  {
    GaeLambdaOne(r, p, t, e);
  }

  /**
   * Four steps of one environment with reward 1, value estimates 0 and no
   * episode end, at `gamma = 0.99` and `gae_lambda = 0.95`.
   */
  function StationaryRollout(): Rollout
  {
    Rollout([[1.0], [1.0], [1.0], [1.0]], [[0.0], [0.0], [0.0], [0.0]], [[0.0], [0.0], [0.0], [0.0]], [0.0], [0.0])
  }

  /**
   * On a stationary reward pattern the advantages are not roughly equal:
   * each step accumulates the discounted advantages after it, so they grow
   * moving backward from 1 at the last step.
   */
  lemma StationaryAdvantagesGrow()
    ensures WellShaped(StationaryRollout())
    ensures var r, p := StationaryRollout(), Params(0.99, 0.95);
      && Gae(r, p, 3, 0) == 1.0
      && Gae(r, p, 2, 0) == 1.9405
      && Gae(r, p, 1, 0) == 1.0 + 0.9405 * 1.9405
      && Gae(r, p, 0, 0) > Gae(r, p, 1, 0) > Gae(r, p, 2, 0) > Gae(r, p, 3, 0)
  {
    var r, p := StationaryRollout(), Params(0.99, 0.95);
    assert WellShaped(r);
    assert Gae(r, p, 3, 0) == 1.0;
    assert Gae(r, p, 2, 0) == 1.0 + 0.9405 * Gae(r, p, 3, 0);
    assert Gae(r, p, 1, 0) == 1.0 + 0.9405 * Gae(r, p, 2, 0);
    assert Gae(r, p, 0, 0) == 1.0 + 0.9405 * Gae(r, p, 1, 0);
  }
}
