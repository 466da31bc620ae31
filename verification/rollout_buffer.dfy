/**
 * The rollout storage of the PPO loop (ppo.py): `[num_steps][num_envs]`
 * buffers, the window of one finished episode read back out of them, the
 * row-major flattening into the training batch, and the gathering of a
 * minibatch's rows by index.
 */
module RolloutBuffer {
  import opened Wrappers
  import opened SeqOps
  import opened Batching

  /** Column `env` of a `[steps][envs]` buffer (`buf[:, env_ind]`). */
  function Column<T>(buf: seq<seq<T>>, env: nat): (c: seq<T>)
    requires forall t :: 0 <= t < |buf| ==> env < |buf[t]|
    ensures |c| == |buf|
    ensures forall t :: 0 <= t < |buf| ==> c[t] == buf[t][env]
  {
    seq(|buf|, t requires 0 <= t < |buf| => buf[t][env])
  }

  /**
   * The entries of the episode of length `len` that ended at `step`, read
   * from one buffer column of length `num_steps`. The episode starts at
   * `step + 1 - len`; when that is negative the episode began in the
   * previous rollout and wraps around to the end of the buffer.
   */
  function EpisodeSlice<T>(col: seq<T>, step: nat, len: int): seq<T>
  {
    var start := step + 1 - len;
    if start < 0 then
      var startBefore := |col| + start;
      Slice(col, startBefore, |col|) + Slice(col, 0, step + 1)
    else
      Slice(col, start, step + 1)
  }

  /**
   * An episode that fits in the buffer is read back whole and in order:
   * its `k`-th entry is the buffer entry `start + k` taken cyclically,
   * and the last one is the entry of the step that ended it.
   */
  lemma EpisodeWindow<T>(col: seq<T>, step: nat, len: int)
    requires step < |col| && 0 <= len <= |col|
    ensures var r := EpisodeSlice(col, step, len);
      && |r| == len
      && (forall k :: 0 <= k < len ==> r[k] == col[(step + 1 - len + k) % |col|])
      && (len > 0 ==> r[len - 1] == col[step])
  {
    var n, start := |col|, step + 1 - len;
    var r := EpisodeSlice(col, step, len);
    if start < 0 {
      EpisodeWraps(col, step, len);
      forall k | 0 <= k < len
        ensures r[k] == col[(start + k) % n]
      {
        if start + k < 0 {
          ModNegative(start + k, n);
        } else {
          ModSmall(start + k, n);
        }
      }
    } else {
      assert r == col[start..step + 1];
      forall k | 0 <= k < len
        ensures r[k] == col[(start + k) % n]
      {
        ModSmall(start + k, n);
      }
    }
    if len > 0 {
      ModSmall(step, n);
    }
  }

  /**
   * The wrapping case reads the tail of the buffer from `num_steps + start`
   * and then its head up to `step`; the two ranges do not overlap.
   */
  lemma EpisodeWraps<T>(col: seq<T>, step: nat, len: int)
    requires step < |col| && len <= |col| && step + 1 - len < 0
    ensures var startBefore := |col| + step + 1 - len;
      && step < startBefore
      && EpisodeSlice(col, step, len) == col[startBefore..] + col[..step + 1]
  {
  }

  /** An episode that started in this rollout is the contiguous range `start..step`. */
  lemma EpisodeContiguous<T>(col: seq<T>, step: nat, len: int)
    requires step < |col| && 0 <= len <= step + 1
    ensures EpisodeSlice(col, step, len) == col[step + 1 - len..step + 1]
  {
  }

  /**
   * An episode longer than the buffer (but begun no earlier than the
   * previous rollout) still yields `len` entries, but the first `len - n`
   * of them are repeats of later ones: its true first steps were
   * overwritten and the tail read wraps onto the head read.
   */
  lemma EpisodeOverlong<T>(col: seq<T>, step: nat, len: int)
    requires step < |col| < len <= |col| + step + 1
    ensures var r := EpisodeSlice(col, step, len);
      && |r| == len
      && forall k :: 0 <= k < len - |col| ==> r[k] == r[k + |col|]
  {
    var n := |col|;
    var startBefore := n + step + 1 - len;
    var r := EpisodeSlice(col, step, len);
    assert r == col[startBefore..] + col[..step + 1];
    forall k | 0 <= k < len - n
      ensures r[k] == r[k + n]
    {
      assert r[k] == col[startBefore + k];
      assert r[k + n] == col[k + n - (n - startBefore)];
    }
  }

  /** The per-step storage of one rollout, each `[num_steps][num_envs]`. */
  datatype Buffers<G> = Buffers(
    obs: seq<seq<G>>,
    actions: seq<seq<int>>,
    logprobs: seq<seq<real>>,
    advantages: seq<seq<real>>,
    returnValues: seq<seq<real>>,
    values: seq<seq<real>>)

  predicate WellFormed<G>(b: Buffers<G>, steps: nat, envs: nat)
  {
    && |b.obs| == steps && Rectangular(b.obs, envs)
    && |b.actions| == steps && Rectangular(b.actions, envs)
    && |b.logprobs| == steps && Rectangular(b.logprobs, envs)
    && |b.advantages| == steps && Rectangular(b.advantages, envs)
    && |b.returnValues| == steps && Rectangular(b.returnValues, envs)
    && |b.values| == steps && Rectangular(b.values, envs)
  }

  /** The training batch: one entry per (step, env) pair. */
  datatype Batch<G> = Batch(
    obs: seq<G>,
    actions: seq<int>,
    logprobs: seq<real>,
    advantages: seq<real>,
    returnValues: seq<real>,
    values: seq<real>)

  /**
   * "Flatten the batch": the graphs of every step are appended in step
   * order (`to_data_list` per step), and every tensor is `reshape(-1)`-ed.
   */
  function Flatten<G>(b: Buffers<G>): Batch<G>
  {
    Batch(Concat(b.obs), Concat(b.actions), Concat(b.logprobs),
          Concat(b.advantages), Concat(b.returnValues), Concat(b.values))
  }

  /** Every field of the batch holds `num_steps * num_envs` entries. */
  lemma FlattenSizes<G>(b: Buffers<G>, steps: nat, envs: nat)
    requires WellFormed(b, steps, envs)
    ensures var f := Flatten(b);
      && |f.obs| == steps * envs && |f.actions| == steps * envs && |f.logprobs| == steps * envs
      && |f.advantages| == steps * envs && |f.returnValues| == steps * envs && |f.values| == steps * envs
  {
    FlattenLength(b.obs, envs);
    FlattenLength(b.actions, envs);
    FlattenLength(b.logprobs, envs);
    FlattenLength(b.advantages, envs);
    FlattenLength(b.returnValues, envs);
    FlattenLength(b.values, envs);
  }

  /** Batch entry `i` of every field comes from the same cell `(t, e)` of the buffers. */
  ghost predicate AlignedAt<G>(b: Buffers<G>, f: Batch<G>, i: nat, t: nat, e: nat)
  {
    && t < |b.obs| && e < |b.obs[t]| && i < |f.obs| && f.obs[i] == b.obs[t][e]
    && t < |b.actions| && e < |b.actions[t]| && i < |f.actions| && f.actions[i] == b.actions[t][e]
    && t < |b.logprobs| && e < |b.logprobs[t]| && i < |f.logprobs| && f.logprobs[i] == b.logprobs[t][e]
    && t < |b.advantages| && e < |b.advantages[t]| && i < |f.advantages| && f.advantages[i] == b.advantages[t][e]
    && t < |b.returnValues| && e < |b.returnValues[t]| && i < |f.returnValues| && f.returnValues[i] == b.returnValues[t][e]
    && t < |b.values| && e < |b.values[t]| && i < |f.values| && f.values[i] == b.values[t][e]
  }

  /** Cell `(t, e)` of every buffer lands at batch entry `t * num_envs + e`. */
  lemma FlattenCell<G>(b: Buffers<G>, steps: nat, envs: nat, t: nat, e: nat)
    requires WellFormed(b, steps, envs) && t < steps && e < envs
    ensures AlignedAt(b, Flatten(b), t * envs + e, t, e)
  {
    FlattenIndex(b.obs, envs, t, e);
    FlattenIndex(b.actions, envs, t, e);
    FlattenIndex(b.logprobs, envs, t, e);
    FlattenIndex(b.advantages, envs, t, e);
    FlattenIndex(b.returnValues, envs, t, e);
    FlattenIndex(b.values, envs, t, e);
  }

  /**
   * The converse: batch entry `i` of every field comes from step
   * `i / num_envs` of env `i % num_envs`, so an observation stays paired
   * with its own action, log-probability, advantage, return and value.
   */
  lemma FlattenEntry<G>(b: Buffers<G>, steps: nat, envs: nat, i: nat) returns (t: nat, e: nat)
    requires WellFormed(b, steps, envs) && i < steps * envs
    ensures t == i / envs && e == i % envs && t < steps && e < envs
    ensures AlignedAt(b, Flatten(b), i, t, e)
  {
    DivBelow(i, steps, envs);
    t, e := i / envs, i % envs;
    FlattenCell(b, steps, envs, t, e);
  }

  /** Fancy indexing `s[inds]`: the entries at the given positions, an `IndexError` if any is out of range. */
  function Gather<T>(s: seq<T>, inds: seq<nat>): (r: Option<seq<T>>)
    ensures r.Some? <==> forall j :: 0 <= j < |inds| ==> inds[j] < |s|
    ensures r.Some? ==> |r.value| == |inds| && forall j :: 0 <= j < |inds| ==> r.value[j] == s[inds[j]]
  {
    if forall j :: 0 <= j < |inds| ==> inds[j] < |s| then
      Some(seq(|inds|, j requires 0 <= j < |inds| => s[inds[j]]))
    else
      None
  }

  /** Position `i` exists in every field of the batch. */
  predicate InBatch<G>(f: Batch<G>, i: nat)
  {
    && i < |f.obs| && i < |f.actions| && i < |f.logprobs|
    && i < |f.advantages| && i < |f.returnValues| && i < |f.values|
  }

  /** Row `j` of `g` is row `i` of `f`, in every field. */
  ghost predicate SameRow<G>(f: Batch<G>, i: nat, g: Batch<G>, j: nat)
  {
    && InBatch(f, i) && InBatch(g, j)
    && g.obs[j] == f.obs[i] && g.actions[j] == f.actions[i] && g.logprobs[j] == f.logprobs[i]
    && g.advantages[j] == f.advantages[i] && g.returnValues[j] == f.returnValues[i] && g.values[j] == f.values[i]
  }

  /**
   * One minibatch's rows (`b_obs[mb_inds]`, `b_logprobs[mb_inds]`, ...):
   * every field gathered by the same indices, so the rows stay paired.
   */
  function GatherBatch<G>(f: Batch<G>, inds: seq<nat>): (r: Option<Batch<G>>)
    ensures r.Some? <==> forall j :: 0 <= j < |inds| ==> InBatch(f, inds[j])
    ensures r.Some? ==> |r.value.obs| == |inds| && forall j :: 0 <= j < |inds| ==> SameRow(f, inds[j], r.value, j)
  {
    var obs :- Gather(f.obs, inds);
    var actions :- Gather(f.actions, inds);
    var logprobs :- Gather(f.logprobs, inds);
    var advantages :- Gather(f.advantages, inds);
    var returnValues :- Gather(f.returnValues, inds);
    var values :- Gather(f.values, inds);
    Some(Batch(obs, actions, logprobs, advantages, returnValues, values))
  }

  /** Every index of a minibatch cut from a permutation of `range(n)` is below `n`. */
  lemma MinibatchInRange(perm: seq<nat>, mb: int, chunks: seq<seq<nat>>, k: nat, j: nat)
    requires mb > 0 && IsPermutation(perm, |perm|)
    requires Minibatches(perm, mb) == Ok(chunks)
    requires k < |chunks| && j < |chunks[k]|
    ensures chunks[k][j] < |perm|
  {
    var x := chunks[k][j];
    MinibatchesConcat(perm, mb);
    ConcatMember(chunks, x);
    assert x in perm;
    RangeMultiplicity(|perm|, x);
  }

  /** Row `j` of `g` is the buffer cell that flat batch index `i` names. */
  ghost predicate FromFlatIndex<G>(b: Buffers<G>, g: Batch<G>, j: nat, i: nat, envs: nat)
  {
    envs > 0 && AlignedAt(b, g, j, i / envs, i % envs)
  }

  /** A gathered row whose index is inside the batch is the buffer cell that index names. */
  lemma GatheredRow<G>(b: Buffers<G>, steps: nat, envs: nat, inds: seq<nat>, g: Batch<G>, j: nat)
    requires WellFormed(b, steps, envs)
    requires GatherBatch(Flatten(b), inds) == Some(g)
    requires j < |inds| && inds[j] < steps * envs
    ensures FromFlatIndex(b, g, j, inds[j], envs)
  {
    var t, e := FlattenEntry(b, steps, envs, inds[j]);
    assert SameRow(Flatten(b), inds[j], g, j);
  }

  /** Gathering any indices inside the batch succeeds, and each gathered row is the cell its index names. */
  lemma GatherCells<G>(b: Buffers<G>, steps: nat, envs: nat, inds: seq<nat>) returns (g: Batch<G>)
    requires WellFormed(b, steps, envs)
    requires forall j :: 0 <= j < |inds| ==> inds[j] < steps * envs
    ensures GatherBatch(Flatten(b), inds) == Some(g)
    ensures forall j :: 0 <= j < |inds| ==> FromFlatIndex(b, g, j, inds[j], envs)
  {
    var f := Flatten(b);
    FlattenSizes(b, steps, envs);
    assert forall j :: 0 <= j < |inds| ==> InBatch(f, inds[j]);
    g := GatherBatch(f, inds).value;
    forall j | 0 <= j < |inds|
      ensures FromFlatIndex(b, g, j, inds[j], envs)
    {
      GatheredRow(b, steps, envs, inds, g, j);
    }
  }

  /**
   * Gathering a minibatch of a shuffled `b_inds` never fails, and its `j`-th
   * row of every field is the buffer cell that minibatch index names.
   */
  lemma MinibatchRows<G>(b: Buffers<G>, steps: nat, envs: nat, perm: seq<nat>, mb: int, chunks: seq<seq<nat>>, k: nat)
      returns (g: Batch<G>)
    requires WellFormed(b, steps, envs)
    requires |perm| == steps * envs && IsPermutation(perm, |perm|) && mb > 0
    requires Minibatches(perm, mb) == Ok(chunks) && k < |chunks|
    ensures GatherBatch(Flatten(b), chunks[k]) == Some(g)
    ensures forall j :: 0 <= j < |chunks[k]| ==> FromFlatIndex(b, g, j, chunks[k][j], envs)
  {
    forall j | 0 <= j < |chunks[k]|
      ensures chunks[k][j] < steps * envs
    {
      MinibatchInRange(perm, mb, chunks, k, j);
    }
    g := GatherCells(b, steps, envs, chunks[k]);
  }
}
