/**
 * `relative_error`: the relative gap between the cycle where the measured capacity
 * first drops to the end-of-life threshold and the cycle where the prediction does.
 */
module Metrics {
  import opened Wrappers

  /** The measured series has reached the threshold at `i`: `y[i] <= threshold >= y[i+1]`. */
  predicate MeasuredCrossing(y: seq<real>, threshold: real, i: nat)
    requires i + 1 < |y|
  {
    y[i] <= threshold && threshold >= y[i + 1]
  }

  /** The predicted series has reached the threshold at `i` (only `i < len - 1` is searched). */
  predicate PredictedCrossing(y: seq<real>, threshold: real, i: nat)
    requires i + 1 < |y|
  {
    y[i] <= threshold
  }

  /** The first measured crossing at or after `from`. */
  function FirstMeasured(y: seq<real>, threshold: real, from: nat): (r: Option<nat>)
    ensures r.Some? ==> from <= r.value && r.value + 1 < |y| && MeasuredCrossing(y, threshold, r.value)
    ensures r.Some? ==> forall j :: from <= j < r.value ==> !MeasuredCrossing(y, threshold, j)
    ensures r.None? ==> forall j :: from <= j && j + 1 < |y| ==> !MeasuredCrossing(y, threshold, j)
    decreases |y| - from
  {
    if from + 1 >= |y| then None
    else if MeasuredCrossing(y, threshold, from) then Some(from)
    else FirstMeasured(y, threshold, from + 1)
  }

  /** The first predicted crossing at or after `from`. */
  function FirstPredicted(y: seq<real>, threshold: real, from: nat): (r: Option<nat>)
    ensures r.Some? ==> from <= r.value && r.value + 1 < |y| && PredictedCrossing(y, threshold, r.value)
    ensures r.Some? ==> forall j :: from <= j < r.value ==> !PredictedCrossing(y, threshold, j)
    ensures r.None? ==> forall j :: from <= j && j + 1 < |y| ==> !PredictedCrossing(y, threshold, j)
    decreases |y| - from
  {
    if from + 1 >= |y| then None
    else if PredictedCrossing(y, threshold, from) then Some(from)
    else FirstPredicted(y, threshold, from + 1)
  }

  /** `true_re`: one before the first measured crossing, or `len(y_test)` without one. */
  function TrueIndex(yTest: seq<real>, threshold: real): (r: int)
    ensures -1 <= r <= |yTest|
    ensures r == |yTest| <==> FirstMeasured(yTest, threshold, 0).None?
    ensures r == -1 <==> FirstMeasured(yTest, threshold, 0) == Some(0)
  {
    match FirstMeasured(yTest, threshold, 0)
    case Some(i) => i - 1
    case None => |yTest|
  }

  /** `pred_re`: one before the first predicted crossing, or 0 without one. */
  function PredIndex(yPredict: seq<real>, threshold: real): (r: int)
    ensures -1 <= r < |yPredict| || (r == 0 && |yPredict| == 0)
    ensures r == -1 <==> FirstPredicted(yPredict, threshold, 0) == Some(0)
  {
    match FirstPredicted(yPredict, threshold, 0)
    case Some(i) => i - 1
    case None => 0
  }

  function AbsInt(x: int): (r: nat)
    ensures r == x || r == -x
  {
    if x < 0 then -x else x
  }

  /** `abs(t - p) / t`, capped at 1 when it exceeds 1; None where `t == 0` raises
      ZeroDivisionError. */
  function Ratio(t: int, p: int): (r: Option<real>)
    ensures r.None? <==> t == 0
    ensures r.Some? ==> r.value <= 1.0
  {
    if t == 0 then None
    else
      var ratio := (AbsInt(t - p) as real) / (t as real);
      if ratio <= 1.0 then Some(ratio) else Some(1.0)
  }

  function RelativeErrorOf(yTest: seq<real>, yPredict: seq<real>, threshold: real): (r: Option<real>)
    ensures r.None? <==> TrueIndex(yTest, threshold) == 0
    ensures r.Some? ==> r.value <= 1.0
  {
    Ratio(TrueIndex(yTest, threshold), PredIndex(yPredict, threshold))
  }

  /** `relative_error`: two first-index searches with `break`, then the capped ratio. */
  method RelativeError(yTest: seq<real>, yPredict: seq<real>, threshold: real) returns (r: Option<real>)
    ensures r == RelativeErrorOf(yTest, yPredict, threshold)
  {
    var trueRe, predRe := |yTest|, 0;
    var i := 0;
    while i + 1 < |yTest|
      invariant FirstMeasured(yTest, threshold, i) == FirstMeasured(yTest, threshold, 0)
      decreases |yTest| - i
    {
      if yTest[i] <= threshold && threshold >= yTest[i + 1] {
        trueRe := i - 1;
        break;
      }
      i := i + 1;
    }
    assert trueRe == TrueIndex(yTest, threshold);
    i := 0;
    while i + 1 < |yPredict|
      invariant FirstPredicted(yPredict, threshold, i) == FirstPredicted(yPredict, threshold, 0)
      decreases |yPredict| - i
    {
      if yPredict[i] <= threshold {
        predRe := i - 1;
        break;
      }
      i := i + 1;
    }
    assert predRe == PredIndex(yPredict, threshold);
    if trueRe == 0 {
      return None;
    }
    var ratio := (AbsInt(trueRe - predRe) as real) / (trueRe as real);
    if ratio <= 1.0 {
      r := Some(ratio);
    } else {
      r := Some(1.0);
    }
  }

  /** The score is undefined (division by zero) exactly when the measured series is
      empty or its first crossing is at index 1. */
  lemma {:induction false} UndefinedIff(yTest: seq<real>, yPredict: seq<real>, threshold: real)
    ensures RelativeErrorOf(yTest, yPredict, threshold).None? <==>
      |yTest| == 0 || FirstMeasured(yTest, threshold, 0) == Some(1)
  {
  }

  /** When `true_re` is positive (a first crossing after index 1, or none in a non-empty
      series) the score lies in [0, 1]. */
  lemma {:induction false} ScoreInUnitInterval(yTest: seq<real>, yPredict: seq<real>, threshold: real)
    requires TrueIndex(yTest, threshold) > 0
    ensures RelativeErrorOf(yTest, yPredict, threshold).Some?
    ensures 0.0 <= RelativeErrorOf(yTest, yPredict, threshold).value <= 1.0
  {
    var t, p := TrueIndex(yTest, threshold), PredIndex(yPredict, threshold);
    var q := (AbsInt(t - p) as real) / (t as real);
    assert q * (t as real) == AbsInt(t - p) as real;
    assert q >= 0.0;
  }

  /** A crossing at index 0 gives `true_re = -1` and a score of minus the gap. */
  lemma {:induction false} CrossingAtStartScoresNonPositive(yTest: seq<real>, yPredict: seq<real>, threshold: real)
    requires |yTest| >= 2 && yTest[0] <= threshold && yTest[1] <= threshold
    ensures RelativeErrorOf(yTest, yPredict, threshold) ==
      Some(-(AbsInt(-1 - PredIndex(yPredict, threshold)) as real))
  {
    assert MeasuredCrossing(yTest, threshold, 0);
  }

  /** Neither series crossing scores 1: `true_re` defaults to the length, `pred_re` to 0. */
  lemma {:induction false} NoCrossingScoresOne(yTest: seq<real>, yPredict: seq<real>, threshold: real)
    requires |yTest| > 0
    requires forall j :: 0 <= j < |yTest| ==> yTest[j] > threshold
    requires forall j :: 0 <= j < |yPredict| ==> yPredict[j] > threshold
    ensures RelativeErrorOf(yTest, yPredict, threshold) == Some(1.0)
  {
    NeverMeasured(yTest, threshold, 0);
    NeverPredicted(yPredict, threshold, 0);
    var n := |yTest|;
    assert TrueIndex(yTest, threshold) == n && PredIndex(yPredict, threshold) == 0;
    assert AbsInt(n - 0) == n;
    var t := n as real;
    assert t > 0.0;
    assert t / t == 1.0;
  }

  /** A series that stays above the threshold has no measured crossing. */
  lemma {:induction false} NeverMeasured(y: seq<real>, threshold: real, from: nat)
    requires forall j :: 0 <= j < |y| ==> y[j] > threshold
    ensures FirstMeasured(y, threshold, from).None?
    decreases |y| - from
  {
    if from + 1 < |y| {
      assert !MeasuredCrossing(y, threshold, from);
      NeverMeasured(y, threshold, from + 1);
    }
  }

  /** A series that stays above the threshold has no predicted crossing. */
  lemma {:induction false} NeverPredicted(y: seq<real>, threshold: real, from: nat)
    requires forall j :: 0 <= j < |y| ==> y[j] > threshold
    ensures FirstPredicted(y, threshold, from).None?
    decreases |y| - from
  {
    if from + 1 < |y| {
      assert !PredictedCrossing(y, threshold, from);
      NeverPredicted(y, threshold, from + 1);
    }
  }

  /** For a non-increasing measured series the two tests agree, so a prediction equal
      to it that crosses after index 1 scores 0. */
  lemma {:induction false} ExactPredictionScoresZero(y: seq<real>, threshold: real)
    requires forall p, q :: 0 <= p < q < |y| ==> y[q] <= y[p]
    requires TrueIndex(y, threshold) > 0
    requires FirstMeasured(y, threshold, 0).Some?
    ensures RelativeErrorOf(y, y, threshold) == Some(0.0)
  {
    var i := FirstMeasured(y, threshold, 0).value;
    var k := FirstPredicted(y, threshold, 0);
    assert PredictedCrossing(y, threshold, i);
    assert k.Some?;
    if k.value < i {
      assert y[k.value + 1] <= y[k.value];
      assert MeasuredCrossing(y, threshold, k.value);
    }
    assert k.value == i;
  }
}
