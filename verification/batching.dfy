/**
 * Batch bookkeeping of the PPO loop (ppo.py): the sizes derived from the
 * command line, the chunking of the shuffled index permutation into
 * minibatches with Python's `range` and slicing, and the epoch loop with
 * its KL early stop.
 */
module Batching {
  import opened Wrappers
  import opened SeqOps

  /**
   * The command-line values the size arithmetic reads. `num_envs` and
   * `num_steps` size tensors and environment lists, which reject negative
   * values before any of this arithmetic matters.
   */
  datatype Config = Config(numEnvs: nat, numSteps: nat, numMinibatches: int, updateEpochs: int, totalTimesteps: int)

  datatype BatchError =
    | ZeroDivision     // `//` by zero
    | ZeroRangeStep    // `range(0, batch_size, 0)`
    | UnboundKl        // `approx_kl` read before any minibatch assigned it

  /** Python's `//`: the quotient rounded toward negative infinity, whatever the signs. */
  function FloorDiv(a: int, b: int): (q: int)
    requires b != 0
    ensures b > 0 ==> b * q <= a < b * q + b
    ensures b < 0 ==> b * q + b < a <= b * q
  {
    if b > 0 then a / b else (-a) / (-b)
  }

  /** `FloorDiv` is the floor of the exact quotient. */
  lemma FloorDivIsFloor(a: int, b: int)
    requires b != 0
    ensures (FloorDiv(a, b) as real) <= (a as real) / (b as real) < (FloorDiv(a, b) as real) + 1.0
  {
    if b > 0 {
      PositiveFloor(a, b);
    } else {
      PositiveFloor(-a, -b);
      assert (a as real) / (b as real) == ((-a) as real) / ((-b) as real);
    }
  }

  lemma PositiveFloor(a: int, b: int)
    requires b > 0
    ensures (FloorDiv(a, b) as real) <= (a as real) / (b as real) < (FloorDiv(a, b) as real) + 1.0
  {
    var q := FloorDiv(a, b);
    MulAsReal(q, b);
    MulAsReal(q + 1, b);
    RealFloor(a as real, b as real, q as real);
  }

  /** Converting a product to `real` multiplies the converted factors. */
  lemma {:induction false} MulAsReal(x: int, n: nat)
    ensures (x * n) as real == (x as real) * (n as real)
  {
    if n > 0 {
      MulAsReal(x, n - 1);
      assert x * n == x * (n - 1) + x;
    }
  }

  lemma RealFloor(x: real, y: real, q: real)
    requires y > 0.0 && q * y <= x < q * y + y
    ensures q <= x / y < q + 1.0
  {
    var z := x / y;
    assert z * y == x;
    assert (z - q) * y == x - q * y;
    assert (z - q - 1.0) * y == x - q * y - y;
    ProductSign(z - q, y);
    ProductSign(z - q - 1.0, y);
  }

  /** Scaling by a positive factor keeps the sign. */
  lemma ProductSign(d: real, y: real)
    requires y > 0.0
    ensures d >= 0.0 <==> d * y >= 0.0
  {
    if d < 0.0 {
      assert (-d) * y > 0.0;
    }
  }

  datatype Sizes = Sizes(batch: nat, minibatch: int, updates: int)

  /**
   * `batch_size` and `minibatch_size` (ppo.py:83-84) and `num_updates`
   * (ppo.py:222). Nothing checks that the batch divides evenly.
   */
  function ComputeSizes(c: Config): (r: Result<Sizes, BatchError>)
    ensures r.Ok? <==> c.numMinibatches != 0 && c.numEnvs * c.numSteps != 0
    ensures r.Err? ==> r.error == ZeroDivision
    ensures r.Ok? ==> r.value.batch == c.numEnvs * c.numSteps
  {
    var batch := c.numEnvs * c.numSteps;
    if c.numMinibatches == 0 then Err(ZeroDivision)
    else
      var mb := FloorDiv(batch, c.numMinibatches);
      if batch == 0 then Err(ZeroDivision)
      else Ok(Sizes(batch, mb, FloorDiv(c.totalTimesteps, batch)))
  }

  /** The minibatch size and the update count are floors of the exact quotients. */
  lemma SizesAreFloors(c: Config)
    requires ComputeSizes(c).Ok?
    ensures var s := ComputeSizes(c).value;
      && (s.minibatch as real) <= (s.batch as real) / (c.numMinibatches as real) < (s.minibatch as real) + 1.0
      && (s.updates as real) <= (c.totalTimesteps as real) / (s.batch as real) < (s.updates as real) + 1.0
  {
    var s := ComputeSizes(c).value;
    FloorDivIsFloor(s.batch, c.numMinibatches);
    FloorDivIsFloor(c.totalTimesteps, s.batch);
  }

  /** Python's `range(start, stop, step)`, as the list of values it yields. */
  function PyRange(start: int, stop: int, step: int): (r: Result<seq<int>, BatchError>)
    ensures r.Err? <==> step == 0
    ensures r.Err? ==> r.error == ZeroRangeStep
  {
    if step == 0 then Err(ZeroRangeStep) else Ok(RangeFrom(start, stop, step))
  }

  function RangeFrom(start: int, stop: int, step: int): seq<int>
    requires step != 0
    decreases if step > 0 then stop - start else start - stop
  {
    if (step > 0 && start < stop) || (step < 0 && start > stop) then [start] + RangeFrom(start + step, stop, step)
    else []
  }

  /** The number of values of `range(0, n, d)`. */
  function CeilDiv(n: nat, d: nat): nat
    requires d > 0
  {
    (n + d - 1) / d
  }

  /** `CeilDiv(n, d)` is the least count whose blocks of `d` cover `n`. */
  lemma CeilDivBounds(n: nat, d: nat)
    requires d > 0
    ensures CeilDiv(n, d) * d >= n
    ensures n > 0 ==> CeilDiv(n, d) > 0 && (CeilDiv(n, d) - 1) * d < n
    ensures n == 0 ==> CeilDiv(n, d) == 0
  {
    var c, r := (n + d - 1) / d, (n + d - 1) % d;
    assert n + d - 1 == c * d + r;
    if n == 0 {
      DivModUnique(d - 1, d, 0, d - 1);
    }
  }

  /** Taking one step of `d` off a positive count. */
  lemma CeilDivStep(n: nat, d: nat)
    requires d > 0 && n > 0
    ensures CeilDiv(n, d) == 1 + (if n > d then CeilDiv(n - d, d) else 0)
  {
    if n > d {
      var m := n - d + d - 1;
      DivModUnique(m + d, d, m / d + 1, m % d);
    } else {
      DivModUnique(n + d - 1, d, 1, n - 1);
    }
  }

  /** An ascending `range` yields `start + k * step` for each `k` below its length. */
  lemma {:induction false} RangeFromUp(start: int, stop: int, step: int)
    requires step > 0
    ensures |RangeFrom(start, stop, step)| == if start < stop then CeilDiv(stop - start, step) else 0
    ensures forall k :: 0 <= k < |RangeFrom(start, stop, step)| ==> RangeFrom(start, stop, step)[k] == start + k * step
    decreases stop - start
  {
    if start < stop {
      var r, tail := RangeFrom(start, stop, step), RangeFrom(start + step, stop, step);
      RangeFromUp(start + step, stop, step);
      CeilDivStep(stop - start, step);
      forall k | 0 < k < |r|
        ensures r[k] == start + k * step
      {
        assert r[k] == tail[k - 1];
        assert (k - 1) * step + step == k * step;
      }
    }
  }

  function Min(a: int, b: int): int
  {
    if a <= b then a else b
  }

  /**
   * The inner loop's minibatches (ppo.py:319-321): `b_inds[start:start+mb]`
   * for each `start` in `range(0, batch_size, mb)`, where `b_inds` is the
   * shuffled `np.arange(batch_size)`.
   */
  function Minibatches(perm: seq<nat>, mb: int): (r: Result<seq<seq<nat>>, BatchError>)
    ensures r.Err? <==> mb == 0
    ensures mb < 0 ==> r == Ok([])
  {
    var starts :- PyRange(0, |perm|, mb);
    assert mb < 0 ==> starts == [];
    Ok(SlicesAt(perm, starts, mb))
  }

  /** `perm[start:start+mb]` for each start, in order. */
  function SlicesAt(perm: seq<nat>, starts: seq<int>, mb: int): (r: seq<seq<nat>>)
    ensures |r| == |starts|
  {
    seq(|starts|, k requires 0 <= k < |starts| => Slice(perm, starts[k], starts[k] + mb))
  }

  /** Consecutive chunks of `mb` entries, the last one possibly shorter. */
  function ChunksOf(s: seq<nat>, mb: nat): seq<seq<nat>>
    requires mb > 0
    decreases |s|
  {
    if |s| == 0 then [] else [s[..Min(mb, |s|)]] + ChunksOf(s[Min(mb, |s|)..], mb)
  }

  /** The slices taken from `range(a, len(perm), mb)` are the consecutive chunks of `perm[a:]`. */
  lemma {:induction false} SlicesFrom(perm: seq<nat>, mb: nat, a: nat)
    requires mb > 0 && a <= |perm|
    ensures SlicesAt(perm, RangeFrom(a, |perm|, mb), mb) == ChunksOf(perm[a..], mb)
    decreases |perm| - a
  {
    var n := |perm|;
    if a < n {
      var rest := RangeFrom(a + mb, n, mb);
      var b := Min(a + mb, n);
      assert RangeFrom(a, n, mb) == [a] + rest;
      assert Slice(perm, a, a + mb) == perm[a..b];
      assert SlicesAt(perm, [a] + rest, mb) == [perm[a..b]] + SlicesAt(perm, rest, mb);
      assert perm[a..][..Min(mb, n - a)] == perm[a..b];
      assert perm[a..][Min(mb, n - a)..] == perm[b..];
      if a + mb < n {
        SlicesFrom(perm, mb, a + mb);
      } else {
        assert rest == [];
        assert perm[b..] == [];
      }
    } else {
      assert perm[a..] == [];
    }
  }

  /** With a positive size the minibatches are the consecutive `mb`-chunks of the permutation. */
  lemma MinibatchesAreChunks(perm: seq<nat>, mb: int)
    requires mb > 0
    ensures Minibatches(perm, mb) == Ok(ChunksOf(perm, mb))
  {
    SlicesFrom(perm, mb, 0);
    assert perm[0..] == perm;
  }

  /** The chunks, concatenated, give back the sequence. */
  lemma {:induction false} ChunksConcat(s: seq<nat>, mb: nat)
    requires mb > 0
    ensures Concat(ChunksOf(s, mb)) == s
    decreases |s|
  {
    if |s| > 0 {
      var m := Min(mb, |s|);
      ChunksConcat(s[m..], mb);
      assert ChunksOf(s, mb)[1..] == ChunksOf(s[m..], mb);
      assert s[..m] + s[m..] == s;
    }
  }

  /** There are `CeilDiv(|s|, mb)` chunks; all hold `mb` entries but the last, which holds one to `mb`. */
  lemma {:induction false} ChunksSizes(s: seq<nat>, mb: nat)
    requires mb > 0
    ensures var c := ChunksOf(s, mb);
      && |c| == CeilDiv(|s|, mb)
      && (forall k :: 0 <= k < |c| - 1 ==> |c[k]| == mb)
      && (|c| > 0 ==> 0 < |c[|c| - 1]| <= mb)
    decreases |s|
  {
    var c := ChunksOf(s, mb);
    if |s| == 0 {
      CeilDivBounds(0, mb);
    } else {
      var m := Min(mb, |s|);
      ChunksSizes(s[m..], mb);
      CeilDivStep(|s|, mb);
      if |s| > mb {
        CeilDivBounds(|s| - mb, mb);
      }
      assert c[1..] == ChunksOf(s[m..], mb);
      forall k | 0 < k < |c| - 1
        ensures |c[k]| == mb
      {
        assert c[k] == c[1..][k - 1];
      }
    }
  }

  /** With a positive size: `CeilDiv(len, mb)` minibatches, all of size `mb` but a shorter non-empty last one. */
  lemma MinibatchSizes(perm: seq<nat>, mb: int)
    requires mb > 0
    ensures Minibatches(perm, mb).Ok?
    ensures var chunks := Minibatches(perm, mb).value;
      && |chunks| == CeilDiv(|perm|, mb)
      && (forall k :: 0 <= k < |chunks| - 1 ==> |chunks[k]| == mb)
      && (|chunks| > 0 ==> 0 < |chunks[|chunks| - 1]| <= mb)
  {
    MinibatchesAreChunks(perm, mb);
    ChunksSizes(perm, mb);
  }

  /** The minibatches of an epoch, concatenated, give back the permutation. */
  lemma MinibatchesConcat(perm: seq<nat>, mb: int)
    requires mb > 0
    ensures Minibatches(perm, mb).Ok? && Concat(Minibatches(perm, mb).value) == perm
  {
    MinibatchesAreChunks(perm, mb);
    ChunksConcat(perm, mb);
  }

  /** `b_inds` after `np.random.shuffle`: each index below `n` exactly once. */
  predicate IsPermutation(perm: seq<nat>, n: nat)
  {
    multiset(perm) == multiset(Range(n))
  }

  /**
   * In each epoch every index of the batch falls in exactly one minibatch,
   * and occurs exactly once among all of them.
   */
  lemma ExactlyOneMinibatch(perm: seq<nat>, mb: int, x: nat)
    requires mb > 0 && IsPermutation(perm, |perm|) && x < |perm|
    ensures Minibatches(perm, mb).Ok?
    ensures var chunks := Minibatches(perm, mb).value;
      && (exists k :: 0 <= k < |chunks| && x in chunks[k])
      && (forall k1, k2 :: 0 <= k1 < |chunks| && 0 <= k2 < |chunks| && x in chunks[k1] && x in chunks[k2] ==> k1 == k2)
      && multiset(Concat<nat>(chunks))[x] == 1
  {
    MinibatchesConcat(perm, mb);
    RangeMultiplicity(|perm|, x);
    var chunks := Minibatches(perm, mb).value;
    assert x in perm;
    ConcatMember(chunks, x);
    forall k1, k2 | 0 <= k1 < |chunks| && 0 <= k2 < |chunks| && x in chunks[k1] && x in chunks[k2]
      ensures k1 == k2
    {
      if k1 < k2 {
        ConcatTwice(chunks, k1, k2, x);
      } else if k2 < k1 {
        ConcatTwice(chunks, k2, k1, x);
      }
    }
  }

  /** Blocks of `b / m` cover `b` in at least `m` steps, in exactly `m` when `m` divides `b`. */
  lemma CeilDivOfFloor(b: nat, m: nat)
    requires m > 0 && b / m > 0
    ensures CeilDiv(b, b / m) >= m
    ensures CeilDiv(b, b / m) == m <==> b % m == 0
  {
    var mb, r := b / m, b % m;
    var n := CeilDiv(b, mb);
    assert b == m * mb + r;
    CeilDivBounds(b, mb);
    assert (m - 1) * mb == m * mb - mb;
    assert r > 0 ==> m * mb < b;
    if n < m {
      MulMonotone(n, m - 1, mb);
      assert false;
    }
    if r == 0 {
      DivModUnique(b + mb - 1, mb, m, mb - 1);
    } else if n == m {
      assert false;
    }
  }

  /**
   * Against `num_minibatches`: with `m > 0` requested minibatches the loop
   * runs at least `m`, exactly `m` only when `m` divides the batch; when
   * `m` exceeds the batch the size is 0 and `range` raises.
   */
  lemma MinibatchCount(c: Config, perm: seq<nat>)
    requires ComputeSizes(c).Ok? && c.numMinibatches > 0 && |perm| == ComputeSizes(c).value.batch
    ensures var s := ComputeSizes(c).value;
      && (Minibatches(perm, s.minibatch).Ok? <==> c.numMinibatches <= s.batch)
      && (Minibatches(perm, s.minibatch).Ok? ==>
            |Minibatches(perm, s.minibatch).value| >= c.numMinibatches
            && (|Minibatches(perm, s.minibatch).value| == c.numMinibatches <==> s.batch % c.numMinibatches == 0))
  {
    var s := ComputeSizes(c).value;
    var b, m := s.batch, c.numMinibatches;
    assert s.minibatch == b / m;
    if m <= b {
      DivModUnique(b, m, b / m, b % m);
      if b / m == 0 {
        assert false;
      }
      MinibatchSizes(perm, b / m);
      CeilDivOfFloor(b, m);
    } else {
      DivModUnique(b, m, 0, b);
    }
  }

  /** One gradient step: the epoch and the position of its minibatch in that epoch. */
  datatype Step = Step(epoch: nat, minibatch: nat)

  /** The steps of epoch `e` with `n` minibatches, in order. */
  function EpochSteps(e: nat, n: nat): (r: seq<Step>)
    ensures |r| == n && forall j :: 0 <= j < n ==> r[j] == Step(e, j)
  {
    seq(n, j requires 0 <= j => Step(e, j as nat))
  }

  /** The steps of `ran` epochs, one row per epoch. */
  function EpochGrid(ran: nat, n: nat): (g: seq<seq<Step>>)
    ensures |g| == ran && Rectangular(g, n)
  {
    seq(ran, e requires 0 <= e => EpochSteps(e as nat, n))
  }

  /** The steps of `ran` whole epochs, in order. */
  function Schedule(ran: nat, n: nat): seq<Step>
  {
    Concat(EpochGrid(ran, n))
  }

  /** One more epoch appends all of its steps. */
  lemma ScheduleSnoc(ran: nat, n: nat)
    ensures Schedule(ran + 1, n) == Schedule(ran, n) + EpochSteps(ran, n)
  {
    var last := EpochSteps(ran, n);
    assert EpochGrid(ran + 1, n) == EpochGrid(ran, n) + [last];
    ConcatAppend(EpochGrid(ran, n), [last]);
    assert Concat([last]) == last + Concat([]);
  }

  /** A schedule of `ran` epochs has `ran * n` steps, and step `e * n + j` is minibatch `j` of epoch `e`. */
  lemma ScheduleIndex(ran: nat, n: nat, e: nat, j: nat)
    requires e < ran && j < n
    ensures |Schedule(ran, n)| == ran * n
    ensures e * n + j < ran * n && Schedule(ran, n)[e * n + j] == Step(e, j)
  {
    FlattenLength(EpochGrid(ran, n), n);
    FlattenIndex(EpochGrid(ran, n), n, e, j);
  }

  /** A schedule of `ran` epochs has `ran * n` steps. */
  lemma ScheduleLength(ran: nat, n: nat)
    ensures |Schedule(ran, n)| == ran * n
  {
    FlattenLength(EpochGrid(ran, n), n);
  }

  /** The `approx_kl` an epoch of `n > 0` minibatches leaves behind: its last minibatch's. */
  function EpochKl(kl: (nat, nat) -> real, e: nat, n: nat): real
    requires n > 0
  {
    kl(e, n - 1)
  }

  /**
   * How many epochs run from epoch `e` on (ppo.py:318, 368-370): every epoch
   * runs all `n` minibatches; afterwards, with a target set, the loop stops
   * when `approx_kl` (left by the epoch's last minibatch, or `last` if the
   * epoch had none) exceeds it.
   */
  function EpochsFrom(e: nat, epochs: int, n: nat, target: Option<real>, kl: (nat, nat) -> real, last: Option<real>)
    : Result<nat, BatchError>
    decreases epochs - e
  {
    if e >= epochs then Ok(e)
    else
      var approx := if n > 0 then Some(EpochKl(kl, e, n)) else last;
      if target.None? then EpochsFrom(e + 1, epochs, n, target, kl, approx)
      else if approx.None? then Err(UnboundKl)
      else if approx.value > target.value then Ok(e + 1)
      else EpochsFrom(e + 1, epochs, n, target, kl, approx)
  }

  /**
   * The epoch loop (ppo.py:318-370) with `n` minibatches per epoch; `kl(e, j)`
   * is the `approx_kl` of minibatch `j` of epoch `e`, and `prior` what
   * `approx_kl` held before the loop.
   */
  method RunEpochs(epochs: int, n: nat, target: Option<real>, kl: (nat, nat) -> real, prior: Option<real>)
    returns (r: Result<seq<Step>, BatchError>)
    ensures r.Ok? <==> EpochsFrom(0, epochs, n, target, kl, prior).Ok?
    ensures r.Err? ==> r.error == UnboundKl
    ensures r.Ok? ==> r.value == Schedule(EpochsFrom(0, epochs, n, target, kl, prior).value, n)
  {
    var steps: seq<Step> := [];
    var approx := prior;
    var epoch: nat := 0;
    while epoch < epochs
      invariant steps == Schedule(epoch, n)
      invariant EpochsFrom(0, epochs, n, target, kl, prior) == EpochsFrom(epoch, epochs, n, target, kl, approx)
      decreases epochs - epoch
    {
      ghost var before := approx;
      var j: nat := 0;
      while j < n
        invariant j <= n
        invariant steps == Schedule(epoch, n) + EpochSteps(epoch, n)[..j]
        invariant approx == if j > 0 then Some(kl(epoch, j - 1)) else before
      {
        steps := steps + [Step(epoch, j)];
        approx := Some(kl(epoch, j));
        j := j + 1;
      }
      assert EpochSteps(epoch, n)[..n] == EpochSteps(epoch, n);
      ScheduleSnoc(epoch, n);
      if target.Some? {
        if approx.None? {
          return Err(UnboundKl);
        }
        if approx.value > target.value {
          return Ok(steps);
        }
      }
      epoch := epoch + 1;
    }
    return Ok(steps);
  }

  /** Minibatches per epoch when the chunking step is usable: none for a negative step. */
  function PerEpoch(count: nat, mb: int): nat
  {
    if mb > 0 then CeilDiv(count, mb) else 0
  }

  /**
   * One whole update (ppo.py:316-370): the permutation `perm` is chunked by
   * `mb` inside every epoch, so a zero `minibatch_size` raises only once an
   * epoch starts; with no epochs nothing is chunked and nothing fails.
   */
  method RunUpdate(perm: seq<nat>, mb: int, epochs: int, target: Option<real>, kl: (nat, nat) -> real, prior: Option<real>)
    returns (r: Result<seq<Step>, BatchError>)
    ensures r == Err(ZeroRangeStep) <==> mb == 0 && epochs > 0
    ensures mb != 0 ==> Minibatches(perm, mb).Ok? && |Minibatches(perm, mb).value| == PerEpoch(|perm|, mb)
    ensures !(mb == 0 && epochs > 0) ==>
      var n := PerEpoch(|perm|, mb);
      && (r.Ok? <==> EpochsFrom(0, epochs, n, target, kl, prior).Ok?)
      && (r.Err? ==> r.error == UnboundKl)
      && (r.Ok? ==> r.value == Schedule(EpochsFrom(0, epochs, n, target, kl, prior).value, n))
  {
    var n: nat := 0;
    if mb > 0 {
      MinibatchSizes(perm, mb);
      n := |Minibatches(perm, mb).value|;
    } else if mb == 0 && epochs > 0 {
      return Err(ZeroRangeStep);
    }
    r := RunEpochs(epochs, n, target, kl, prior);
  }

  /** Without `target_kl` every epoch runs: `update_epochs * n` gradient steps. */
  lemma {:induction false} EpochsWithoutTarget(e: nat, epochs: int, n: nat, kl: (nat, nat) -> real, last: Option<real>)
    ensures EpochsFrom(e, epochs, n, None, kl, last) == Ok(if e >= epochs then e else epochs as nat)
    decreases epochs - e
  {
    if e < epochs {
      EpochsWithoutTarget(e + 1, epochs, n, kl, if n > 0 then Some(EpochKl(kl, e, n)) else last);
    }
  }

  /**
   * Without `target_kl`, an update of a batch cut into minibatches of size
   * `mb > 0` takes `update_epochs * ceil(batch / mb)` gradient steps, which
   * is what `RunEpochs` performs with that many minibatches per epoch.
   */
  lemma UpdateStepCount(perm: seq<nat>, mb: int, epochs: int, kl: (nat, nat) -> real, prior: Option<real>)
    requires mb > 0
    ensures Minibatches(perm, mb).Ok?
    ensures var n := |Minibatches(perm, mb).value|;
      && n == CeilDiv(|perm|, mb)
      && EpochsFrom(0, epochs, n, None, kl, prior).Ok?
      && |Schedule(EpochsFrom(0, epochs, n, None, kl, prior).value, n)| == (if epochs > 0 then epochs else 0) * CeilDiv(|perm|, mb)
  {
    MinibatchSizes(perm, mb);
    var n := |Minibatches(perm, mb).value|;
    EpochsWithoutTarget(0, epochs, n, kl, prior);
    ScheduleLength(EpochsFrom(0, epochs, n, None, kl, prior).value, n);
  }

  /**
   * With `target_kl` and at least one minibatch per epoch, the loop runs
   * epochs until the first whose last minibatch's KL exceeds the target,
   * that epoch included, or all of them.
   */
  lemma {:induction false} EpochsEarlyStop(e: nat, epochs: int, n: nat, target: real, kl: (nat, nat) -> real, last: Option<real>)
    requires n > 0
    ensures EpochsFrom(e, epochs, n, Some(target), kl, last).Ok?
    ensures var ran := EpochsFrom(e, epochs, n, Some(target), kl, last).value;
      && e <= ran && (ran <= epochs || ran == e)
      && (forall i: nat :: e <= i < ran - 1 ==> EpochKl(kl, i, n) <= target)
      && (e < ran < epochs ==> EpochKl(kl, ran - 1, n) > target)
      && (e < epochs ==> e < ran)
    decreases epochs - e
  {
    if e < epochs && EpochKl(kl, e, n) <= target {
      EpochsEarlyStop(e + 1, epochs, n, target, kl, Some(EpochKl(kl, e, n)));
    }
  }

  /** With `target_kl` but no minibatch at all, `approx_kl` is read unassigned unless an earlier update left a value. */
  lemma EpochsWithoutMinibatches(epochs: int, target: real, kl: (nat, nat) -> real, prior: Option<real>)
    requires epochs > 0
    ensures EpochsFrom(0, epochs, 0, Some(target), kl, prior).Err? <==> prior.None?
  {
    if prior.Some? {
      EpochsWithoutMinibatchesOk(0, epochs, target, kl, prior.value);
    }
  }

  lemma {:induction false} EpochsWithoutMinibatchesOk(e: nat, epochs: int, target: real, kl: (nat, nat) -> real, v: real)
    ensures EpochsFrom(e, epochs, 0, Some(target), kl, Some(v)).Ok?
    decreases epochs - e
  {
    if e < epochs && v <= target {
      EpochsWithoutMinibatchesOk(e + 1, epochs, target, kl, v);
    }
  }
}
