/**
 * The explained-variance diagnostic logged after each update (ppo.py):
 * how much of the variance of the returns the value estimates account for,
 * NaN (`None`) when the returns do not vary.
 */
module Diagnostics {
  import opened Wrappers
  import opened SeqOps

  /** The squared deviations from the mean. */
  function Deviations(s: seq<real>): (d: seq<real>)
    requires |s| > 0
    ensures |d| == |s|
    ensures forall i :: 0 <= i < |s| ==> d[i] == Square(s[i] - Mean(s))
  {
    seq(|s|, i requires 0 <= i < |s| => Square(s[i] - Mean(s)))
  }

  /** `np.var`: the population variance, dividing by `n`. */
  function Var(s: seq<real>): real
    requires |s| > 0
  {
    Mean(Deviations(s))
  }

  lemma VarNonNegative(s: seq<real>)
    requires |s| > 0
    ensures Var(s) >= 0.0
  {
    SumNonNegative(Deviations(s));
  }

  /** The mean of a sequence whose entries are all `c` is `c`. */
  lemma MeanOfConstant(s: seq<real>, c: real)
    requires |s| > 0 && forall i :: 0 <= i < |s| ==> s[i] == c
    ensures Mean(s) == c
  {
    var d := seq(|s|, i requires 0 <= i < |s| => s[i] - c);
    SumZeros(d);
    SumShift(s, c);
  }

  /** Returns that are all the same have zero variance. */
  lemma VarOfConstant(s: seq<real>)
    requires |s| > 0 && forall i :: 0 <= i < |s| ==> s[i] == s[0]
    ensures Var(s) == 0.0
  {
    MeanOfConstant(s, s[0]);
    SumZeros(Deviations(s));
  }

  /** Shifting every entry by the same amount leaves the variance unchanged. */
  lemma VarShift(s: seq<real>, c: real)
    requires |s| > 0
    ensures Var(seq(|s|, i requires 0 <= i < |s| => s[i] - c)) == Var(s)
  {
    var t := seq(|s|, i requires 0 <= i < |s| => s[i] - c);
    var n := |s| as real;
    SumShift(s, c);
    assert Mean(t) == Mean(s) - c by {
      assert Sum(t) / n == Sum(s) / n - n * c / n;
    }
    assert Deviations(t) == Deviations(s);
  }

  /** `y_true - y_pred`. */
  function Residual(truth: seq<real>, pred: seq<real>): (d: seq<real>)
    requires |truth| == |pred|
    ensures |d| == |truth|
    ensures forall i :: 0 <= i < |d| ==> d[i] == truth[i] - pred[i]
  {
    seq(|truth|, i requires 0 <= i < |truth| => truth[i] - pred[i])
  }

  /**
   * `explained_var`: `1 - Var(y_true - y_pred) / Var(y_true)`, NaN when the
   * returns have zero variance; an empty batch makes `np.var` itself NaN,
   * and the comparison with 0 lets that NaN through.
   */
  function ExplainedVariance(pred: seq<real>, truth: seq<real>): Option<real>
    requires |pred| == |truth|
  {
    if |truth| == 0 then None
    else
      var varY := Var(truth);
      if varY == 0.0 then None else Some(1.0 - Var(Residual(truth, pred)) / varY)
  }

  /**
   * The diagnostic is NaN for an empty batch and whenever the returns are
   * all the same, whatever the value estimates.
   */
  lemma ExplainedVarianceUndefined(pred: seq<real>, truth: seq<real>)
    requires |pred| == |truth|
    requires |truth| == 0 || forall i :: 0 <= i < |truth| ==> truth[i] == truth[0]
    ensures ExplainedVariance(pred, truth) == None
  {
    if |truth| > 0 {
      VarOfConstant(truth);
    }
  }

  /** No prediction explains more than all of the variance. */
  lemma ExplainedVarianceAtMostOne(pred: seq<real>, truth: seq<real>)
    requires |pred| == |truth| && ExplainedVariance(pred, truth).Some?
    ensures ExplainedVariance(pred, truth).value <= 1.0
  {
    var d := Residual(truth, pred);
    VarNonNegative(truth);
    VarNonNegative(d);
    assert Var(d) / Var(truth) >= 0.0;
  }

  /** Predicting the returns exactly explains all of their variance. */
  lemma PerfectPrediction(truth: seq<real>)
    requires ExplainedVariance(truth, truth).Some?
    ensures ExplainedVariance(truth, truth) == Some(1.0)
  {
    var d := Residual(truth, truth);
    VarOfConstant(d);
  }

  /** A value estimate that is the same everywhere explains none of the variance. */
  lemma ConstantPrediction(pred: seq<real>, truth: seq<real>, c: real)
    requires |pred| == |truth| && forall i :: 0 <= i < |pred| ==> pred[i] == c
    requires ExplainedVariance(pred, truth).Some?
    ensures ExplainedVariance(pred, truth) == Some(0.0)
  {
    var d := Residual(truth, pred);
    assert d == seq(|truth|, i requires 0 <= i < |truth| => truth[i] - c);
    VarShift(truth, c);
    assert Var(d) / Var(truth) == 1.0;
  }
}
