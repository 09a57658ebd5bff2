/** The numpy reductions the preprocessing uses (sum, mean, population variance,
    max, min, arg-min of a distance), over Dafny's exact reals. */
module Stats {

  function Abs(x: real): (r: real)
    ensures r >= 0.0 && (r == x || r == -x)
  {
    if x < 0.0 then -x else x
  }

  /** `np.sum`, accumulated front to back as `np.cumsum` does. */
  function Sum(s: seq<real>): (r: real)
    decreases |s|
  {
    if |s| == 0 then 0.0 else Sum(s[..|s| - 1]) + s[|s| - 1]
  }

  /** `np.mean` of a non-empty sample. */
  function Mean(s: seq<real>): (r: real)
    requires |s| > 0
    ensures r * (|s| as real) == Sum(s)
  {
    Sum(s) / (|s| as real)
  }

  /** `x * x`, never negative. */
  function Square(x: real): (r: real)
    ensures r >= 0.0
  {
    if x < 0.0 then (-x) * (-x) else x * x
  }

  /** Sum of squared deviations from `m`. */
  function SquaredDeviations(s: seq<real>, m: real): (r: real)
    ensures r >= 0.0
    decreases |s|
  {
    if |s| == 0 then 0.0
    else SquaredDeviations(s[..|s| - 1], m) + Square(s[|s| - 1] - m)
  }

  /** `np.std(s) ** 2`: the population variance (ddof = 0). */
  function Variance(s: seq<real>): (r: real)
    requires |s| > 0
    ensures r >= 0.0
  {
    SquaredDeviations(s, Mean(s)) / (|s| as real)
  }

  /** `np.max` of a non-empty sample. */
  function MaxOf(s: seq<real>): (r: real)
    requires |s| > 0
    ensures r in s
    ensures forall i :: 0 <= i < |s| ==> s[i] <= r
    decreases |s|
  {
    if |s| == 1 then s[0]
    else
      var m := MaxOf(s[..|s| - 1]);
      if s[|s| - 1] > m then s[|s| - 1] else m
  }

  /** `np.min` of a non-empty sample. */
  function MinOf(s: seq<real>): (r: real)
    requires |s| > 0
    ensures r in s
    ensures forall i :: 0 <= i < |s| ==> r <= s[i]
    decreases |s|
  {
    if |s| == 1 then s[0]
    else
      var m := MinOf(s[..|s| - 1]);
      if s[|s| - 1] < m then s[|s| - 1] else m
  }

  /** `np.abs(v - target).argmin()`: the FIRST index of a sample nearest to `target`. */
  function ArgMinDistance(v: seq<real>, target: real): (k: nat)
    requires |v| > 0
    ensures k < |v|
    ensures forall j :: 0 <= j < |v| ==> Abs(v[k] - target) <= Abs(v[j] - target)
    ensures forall j :: 0 <= j < k ==> Abs(v[k] - target) < Abs(v[j] - target)
    decreases |v|
  {
    if |v| == 1 then 0
    else
      var best := ArgMinDistance(v[..|v| - 1], target);
      if Abs(v[|v| - 1] - target) < Abs(v[best] - target) then |v| - 1 else best
  }

  /** The sum of `n` copies of `c` is `n * c`. */
  lemma {:induction false} SumConstant(s: seq<real>, c: real)
    requires forall i :: 0 <= i < |s| ==> s[i] == c
    ensures Sum(s) == (|s| as real) * c
  {
    if |s| > 0 {
      SumConstant(s[..|s| - 1], c);
    }
  }

  /** Deviations from the common value of a constant sample vanish. */
  lemma {:induction false} SquaredDeviationsConstant(s: seq<real>, c: real)
    requires forall i :: 0 <= i < |s| ==> s[i] == c
    ensures SquaredDeviations(s, c) == 0.0
  {
    if |s| > 0 {
      SquaredDeviationsConstant(s[..|s| - 1], c);
    }
  }

  /** A constant sample has its value as mean and zero variance. */
  lemma {:induction false} ConstantSampleStatistics(s: seq<real>, c: real)
    requires |s| > 0
    requires forall i :: 0 <= i < |s| ==> s[i] == c
    ensures Mean(s) == c
    ensures Variance(s) == 0.0
  {
    SumConstant(s, c);
    SquaredDeviationsConstant(s, c);
  }

  /** The sum of a sample lies between `n * min` and `n * max`. */
  lemma {:induction false} SumBetween(s: seq<real>, lo: real, hi: real)
    requires forall i :: 0 <= i < |s| ==> lo <= s[i] <= hi
    ensures (|s| as real) * lo <= Sum(s) <= (|s| as real) * hi
  {
    if |s| > 0 {
      SumBetween(s[..|s| - 1], lo, hi);
    }
  }

  /** The mean of a sample bounded by `lo` and `hi` is bounded by them too. */
  lemma {:induction false} MeanBetween(s: seq<real>, lo: real, hi: real)
    requires |s| > 0
    requires forall i :: 0 <= i < |s| ==> lo <= s[i] <= hi
    ensures lo <= Mean(s) <= hi
  {
    SumBetween(s, lo, hi);
    QuotientBetween(Sum(s), |s| as real, lo, hi);
  }

  /** The mean of a sample lies between its minimum and its maximum. */
  lemma {:induction false} MeanBetweenMinAndMax(s: seq<real>)
    requires |s| > 0
    ensures MinOf(s) <= Mean(s) <= MaxOf(s)
  {
    MeanBetween(s, MinOf(s), MaxOf(s));
  }

  lemma {:induction false} QuotientBetween(a: real, n: real, lo: real, hi: real)
    requires n > 0.0
    requires n * lo <= a <= n * hi
    ensures lo <= a / n <= hi
  {
    var q := a / n;
    assert q * n == a;
  }
}
