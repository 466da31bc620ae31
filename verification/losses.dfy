/**
 * The per-minibatch loss terms of the PPO update (ppo.py): the clipped
 * surrogate policy loss, the optionally clipped value loss and the
 * fraction of clipped ratios. The probability ratios come in as inputs;
 * how the network produces them is not modelled.
 */
module Losses {
  import opened Wrappers
  import opened SeqOps

  function Min(a: real, b: real): real
  {
    if a <= b then a else b
  }

  function Max(a: real, b: real): real
  {
    if a >= b then a else b
  }

  /**
   * `torch.clamp(x, lo, hi)`: first raised to `lo`, then lowered to `hi`,
   * so with `lo > hi` every input comes out as `hi`.
   */
  function Clamp(x: real, lo: real, hi: real): (c: real)
    ensures lo <= hi ==> lo <= c <= hi
    ensures lo <= x <= hi ==> c == x
    ensures hi < lo ==> c == hi
  {
    Min(Max(x, lo), hi)
  }

  /** With `lo <= hi`, clamping is the projection onto `[lo, hi]`: no point of the interval is closer to `x`. */
  lemma ClampIsNearest(x: real, lo: real, hi: real, y: real)
    requires lo <= y <= hi
    ensures Abs(Clamp(x, lo, hi) - x) <= Abs(y - x)
  {
  }

  /** `pg_loss1` and `pg_loss2` for one sample, and the larger of the two (`torch.max`). */
  function PolicyTerm(adv: real, ratio: real, coef: real): real
  {
    Max(-adv * ratio, -adv * Clamp(ratio, 1.0 - coef, 1.0 + coef))
  }

  lemma MulLeft(a: real, x: real, y: real)
    requires x <= y
    ensures a >= 0.0 ==> a * x <= a * y
    ensures a <= 0.0 ==> a * y <= a * x
  {
    assert a * y - a * x == a * (y - x);
  }

  /**
   * The policy term is the negated clipped surrogate objective of PPO,
   * `-min(r * A, clip(r, 1 - eps, 1 + eps) * A)`, so it never falls below
   * either the unclipped or the clipped loss.
   */
  lemma PolicyTermIsClippedObjective(adv: real, ratio: real, coef: real)
    ensures PolicyTerm(adv, ratio, coef) == -Min(adv * ratio, adv * Clamp(ratio, 1.0 - coef, 1.0 + coef))
    ensures PolicyTerm(adv, ratio, coef) >= -adv * ratio
    ensures PolicyTerm(adv, ratio, coef) >= -adv * Clamp(ratio, 1.0 - coef, 1.0 + coef)
  {
  }

  /**
   * For a non-negative clip coefficient, clipping only caps the incentive:
   * a positive advantage stops paying above `1 + eps`, a negative one
   * below `1 - eps`.
   */
  lemma PolicyTermCases(adv: real, ratio: real, coef: real)
    requires coef >= 0.0
    ensures adv >= 0.0 ==> PolicyTerm(adv, ratio, coef) == -adv * Min(ratio, 1.0 + coef)
    ensures adv <= 0.0 ==> PolicyTerm(adv, ratio, coef) == -adv * Max(ratio, 1.0 - coef)
    ensures 1.0 - coef <= ratio <= 1.0 + coef ==> PolicyTerm(adv, ratio, coef) == -adv * ratio
  {
    var c := Clamp(ratio, 1.0 - coef, 1.0 + coef);
    if ratio <= c {
      MulLeft(adv, ratio, c);
    } else {
      MulLeft(adv, c, ratio);
    }
    if ratio <= 1.0 + coef {
      MulLeft(adv, ratio, 1.0 + coef);
    } else {
      MulLeft(adv, 1.0 + coef, ratio);
    }
    if ratio <= 1.0 - coef {
      MulLeft(adv, ratio, 1.0 - coef);
    } else {
      MulLeft(adv, 1.0 - coef, ratio);
    }
  }

  /** The per-sample policy terms of a minibatch. */
  function PolicyTerms(adv: seq<real>, ratio: seq<real>, coef: real): (t: seq<real>)
    requires |adv| == |ratio|
    ensures |t| == |adv|
    ensures forall i :: 0 <= i < |t| ==> t[i] == PolicyTerm(adv[i], ratio[i], coef)
  {
    seq(|adv|, i requires 0 <= i < |adv| => PolicyTerm(adv[i], ratio[i], coef))
  }

  /** The mean of a tensor; the mean of an empty tensor is NaN, modelled as `None`. */
  function MeanOrNaN(s: seq<real>): (m: Option<real>)
    ensures m.Some? <==> |s| > 0
  {
    if |s| == 0 then None else Some(Mean(s))
  }

  /** `pg_loss`: the mean of the per-sample policy terms. */
  function PolicyLoss(adv: seq<real>, ratio: seq<real>, coef: real): (r: Option<real>)
    requires |adv| == |ratio|
    ensures r.Some? <==> |adv| > 0
  {
    MeanOrNaN(PolicyTerms(adv, ratio, coef))
  }

  /** The unclipped surrogate loss `-(A * r).mean()`. */
  function UnclippedPolicyLoss(adv: seq<real>, ratio: seq<real>): (r: Option<real>)
    requires |adv| == |ratio|
    ensures r.Some? <==> |adv| > 0
  {
    MeanOrNaN(seq(|adv|, i requires 0 <= i < |adv| => -adv[i] * ratio[i]))
  }

  /** The clipped policy loss is a pessimistic bound: never below the unclipped one. */
  lemma PolicyLossPessimistic(adv: seq<real>, ratio: seq<real>, coef: real)
    requires |adv| == |ratio| > 0
    ensures PolicyLoss(adv, ratio, coef).value >= UnclippedPolicyLoss(adv, ratio).value
  {
    var u := seq(|adv|, i requires 0 <= i < |adv| => -adv[i] * ratio[i]);
    var t := PolicyTerms(adv, ratio, coef);
    forall i | 0 <= i < |u|
      ensures u[i] <= t[i]
    {
      PolicyTermIsClippedObjective(adv[i], ratio[i], coef);
    }
    MeanMonotone(u, t);
  }

  /** Per sample, 1 when the ratio lies farther than `clip_coef` from 1, else 0. */
  function ClipIndicators(ratio: seq<real>, coef: real): (f: seq<real>)
    ensures |f| == |ratio|
    ensures forall i :: 0 <= i < |f| ==> f[i] == (if Abs(ratio[i] - 1.0) > coef then 1.0 else 0.0)
  {
    seq(|ratio|, i requires 0 <= i < |ratio| => if Abs(ratio[i] - 1.0) > coef then 1.0 else 0.0)
  }

  /** `clipfracs`: the fraction of samples whose ratio was clipped. */
  function ClipFraction(ratio: seq<real>, coef: real): (r: Option<real>)
    ensures r.Some? <==> |ratio| > 0
  {
    MeanOrNaN(ClipIndicators(ratio, coef))
  }

  /** The clip fraction is a proportion. */
  lemma ClipFractionBounds(ratio: seq<real>, coef: real)
    requires |ratio| > 0
    ensures 0.0 <= ClipFraction(ratio, coef).value <= 1.0
  {
    var f := ClipIndicators(ratio, coef);
    var ones := seq(|ratio|, _ => 1.0);
    var n := |ratio| as real;
    SumNonNegative(f);
    assert Mean(f) >= 0.0 by {
      assert Sum(f) / n >= 0.0 / n;
    }
    MeanMonotone(f, ones);
    SumConstant(|ratio|, 1.0);
    assert Mean(ones) == 1.0 by {
      assert Sum(ones) == n * 1.0;
    }
  }

  /** A zero clip fraction means every ratio stayed within `clip_coef` of 1. */
  lemma ClipFractionZero(ratio: seq<real>, coef: real)
    requires ClipFraction(ratio, coef) == Some(0.0)
    ensures forall i :: 0 <= i < |ratio| ==> Abs(ratio[i] - 1.0) <= coef
  {
    var f := ClipIndicators(ratio, coef);
    MeanZero(f);
    SumNonNegativeZero(f);
    forall i | 0 <= i < |ratio|
      ensures Abs(ratio[i] - 1.0) <= coef
    {
      assert f[i] == 0.0;
    }
  }

  /** A ratio within `clip_coef` of 1 leaves the policy term unclipped. */
  lemma PolicyTermUnclipped(adv: real, ratio: real, coef: real)
    requires Abs(ratio - 1.0) <= coef
    ensures PolicyTerm(adv, ratio, coef) == -adv * ratio
  {
    assert Clamp(ratio, 1.0 - coef, 1.0 + coef) == ratio;
  }

  /**
   * A zero clip fraction means clipping was inactive on the whole
   * minibatch: the policy loss is the unclipped surrogate loss.
   */
  lemma NoClippingMeansUnclipped(adv: seq<real>, ratio: seq<real>, coef: real)
    requires |adv| == |ratio|
    requires ClipFraction(ratio, coef) == Some(0.0)
    ensures PolicyLoss(adv, ratio, coef) == UnclippedPolicyLoss(adv, ratio)
  {
    var u := seq(|adv|, i requires 0 <= i < |adv| => -adv[i] * ratio[i]);
    var t := PolicyTerms(adv, ratio, coef);
    ClipFractionZero(ratio, coef);
    forall i | 0 <= i < |t|
      ensures t[i] == u[i]
    {
      PolicyTermUnclipped(adv[i], ratio[i], coef);
    }
    assert t == u;
  }

  /** `v_clipped`: the new value estimate kept within `clip_coef` of the one recorded at rollout time. */
  function ClippedValue(newValue: real, oldValue: real, coef: real): (v: real)
    ensures coef >= 0.0 ==> Abs(v - oldValue) <= coef
    ensures Abs(newValue - oldValue) <= coef ==> v == newValue
  {
    oldValue + Clamp(newValue - oldValue, -coef, coef)
  }

  /** One sample's squared value error, with `clip_vloss` the larger of the unclipped and clipped errors. */
  function ValueTerm(newValue: real, ret: real, oldValue: real, coef: real, clip: bool): real
  {
    var unclipped := Square(newValue - ret);
    if clip then Max(unclipped, Square(ClippedValue(newValue, oldValue, coef) - ret)) else unclipped
  }

  /**
   * The clipped value term is never below the plain squared error, and
   * equals it when the new estimate stayed within `clip_coef` of the old one.
   */
  lemma ValueTermBounds(newValue: real, ret: real, oldValue: real, coef: real, clip: bool)
    ensures ValueTerm(newValue, ret, oldValue, coef, clip) >= Square(newValue - ret) >= 0.0
    ensures Abs(newValue - oldValue) <= coef ==> ValueTerm(newValue, ret, oldValue, coef, clip) == Square(newValue - ret)
  {
  }

  /** The per-sample value terms of a minibatch. */
  function ValueTerms(newValues: seq<real>, rets: seq<real>, oldValues: seq<real>, coef: real, clip: bool): (t: seq<real>)
    requires |newValues| == |rets| == |oldValues|
    ensures |t| == |newValues|
    ensures forall i :: 0 <= i < |t| ==> t[i] == ValueTerm(newValues[i], rets[i], oldValues[i], coef, clip)
  {
    seq(|newValues|, i requires 0 <= i < |newValues| => ValueTerm(newValues[i], rets[i], oldValues[i], coef, clip))
  }

  /** `v_loss`: half the mean value term. */
  function ValueLoss(newValues: seq<real>, rets: seq<real>, oldValues: seq<real>, coef: real, clip: bool): (r: Option<real>)
    requires |newValues| == |rets| == |oldValues|
    ensures r.Some? <==> |newValues| > 0
  {
    var m :- MeanOrNaN(ValueTerms(newValues, rets, oldValues, coef, clip));
    Some(0.5 * m)
  }

  /** Value loss is non-negative, and clipping can only raise it. */
  lemma ValueLossClippedAtLeast(newValues: seq<real>, rets: seq<real>, oldValues: seq<real>, coef: real)
    requires |newValues| == |rets| == |oldValues| > 0
    ensures ValueLoss(newValues, rets, oldValues, coef, true).value >= ValueLoss(newValues, rets, oldValues, coef, false).value >= 0.0
  {
    var c := ValueTerms(newValues, rets, oldValues, coef, true);
    var u := ValueTerms(newValues, rets, oldValues, coef, false);
    forall i | 0 <= i < |u|
      ensures 0.0 <= u[i] <= c[i]
    {
      ValueTermBounds(newValues[i], rets[i], oldValues[i], coef, true);
    }
    MeanMonotone(u, c);
    SumNonNegative(u);
  }

  /** When no value estimate moved farther than `clip_coef`, clipping leaves the value loss unchanged. */
  lemma ValueLossClipInactive(newValues: seq<real>, rets: seq<real>, oldValues: seq<real>, coef: real)
    requires |newValues| == |rets| == |oldValues|
    requires forall i :: 0 <= i < |newValues| ==> Abs(newValues[i] - oldValues[i]) <= coef
    ensures ValueLoss(newValues, rets, oldValues, coef, true) == ValueLoss(newValues, rets, oldValues, coef, false)
  {
    var c := ValueTerms(newValues, rets, oldValues, coef, true);
    var u := ValueTerms(newValues, rets, oldValues, coef, false);
    forall i | 0 <= i < |u|
      ensures c[i] == u[i]
    {
      ValueTermBounds(newValues[i], rets[i], oldValues[i], coef, true);
    }
    assert c == u;
  }
}
