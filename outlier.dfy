/** The windowed sigma-clip outlier filter `drop_outlier` (preprocess.py). */
module OutlierFilter {
  import opened Stats

  /** `np.arange(lo, hi, step)` for a positive step: lo, lo + step, ... below hi. */
  function Arange(lo: nat, hi: int, step: nat): (r: seq<nat>)
    requires step > 0
    ensures |r| == 0 <==> lo >= hi
    ensures forall k :: 0 <= k < |r| ==> lo <= r[k] < hi
    ensures forall p, q :: 0 <= p < q < |r| ==> r[p] + step <= r[q]
    decreases hi - lo
  {
    if lo >= hi then [] else [lo] + Arange(lo + step, hi, step)
  }

  /** The k-th term `lo + k * step` of an arithmetic progression. */
  function Term(lo: nat, k: nat, step: nat): (r: nat)
    ensures r >= lo
  {
    lo + k * step
  }

  /** Python's `s[:-1]`: everything but the last element (empty stays empty). */
  function DropLast(s: seq<nat>): seq<nat>
  {
    if |s| == 0 then [] else s[..|s| - 1]
  }

  /** Python's slice bound: an index past the end is clipped to the length. */
  function Clip(i: nat, n: nat): nat
  {
    if i < n then i else n
  }

  /** `array[i:i+bins]`, clipped to the array as Python clips a slice. */
  function Window(a: seq<real>, i: nat, bins: nat): (r: seq<real>)
    ensures |r| <= bins
    ensures |r| > 0 <==> i < |a| && bins > 0
    ensures forall k :: 0 <= k < |r| ==> i + k < |a| && r[k] == a[i + k]
  {
    a[Clip(i, |a|)..Clip(i + bins, |a|)]
  }

  /** `m - 2 sigma < x < m + 2 sigma`, stated without the square root: (x - m)^2 < 4 var. */
  predicate Inside(x: real, m: real, v: real)
    ensures Inside(x, m, v) ==> v > 0.0
  {
    Square(x - m) < 4.0 * v
  }

  /** Index `j` passes the two-sigma test of the window that starts at `i`. */
  predicate PassesWindowTest(a: seq<real>, i: nat, bins: nat, j: nat)
    requires j < |a|
    ensures PassesWindowTest(a, i, bins, j) ==> i < |a| && bins > 0 && Variance(Window(a, i, bins)) > 0.0
  {
    var w := Window(a, i, bins);
    |w| > 0 && Inside(a[j], Mean(w), Variance(w))
  }

  predicate Increasing(s: seq<nat>)
  {
    forall p, q :: 0 <= p < q < |s| ==> s[p] < s[q]
  }

  /** `np.where` over positions j .. hi-1 of `a`, offset back to positions of `a`. */
  function KeepFrom(a: seq<real>, j: nat, hi: nat, m: real, v: real): (r: seq<nat>)
    requires j <= hi <= |a|
    ensures forall p :: 0 <= p < |r| ==> j <= r[p] < hi
    ensures forall x :: j <= x < hi ==> (x in r <==> Inside(a[x], m, v))
    ensures Increasing(r)
    decreases hi - j
  {
    if j == hi then []
    else
      var rest := KeepFrom(a, j + 1, hi, m, v);
      if Inside(a[j], m, v) then [j] + rest else rest
  }

  /** The original indices one window contributes: those strictly inside mean +- 2 sigma.
      A window that starts past the end is empty, its statistics are NaN and it keeps nothing. */
  function WindowInliers(a: seq<real>, i: nat, bins: nat): (r: seq<nat>)
    requires bins > 0
    ensures forall p :: 0 <= p < |r| ==> i <= r[p] < i + bins && r[p] < |a|
    ensures forall j :: i <= j < i + bins && j < |a| ==> (j in r <==> PassesWindowTest(a, i, bins, j))
    ensures Increasing(r)
  {
    var w := Window(a, i, bins);
    if |w| == 0 then []
    else KeepFrom(a, i, i + |w|, Mean(w), Variance(w))
  }

  /** The inliers of the windows at `starts`, window after window. */
  function Collect(a: seq<real>, starts: seq<nat>, bins: nat): (r: seq<nat>)
    requires bins > 0
    ensures forall p :: 0 <= p < |r| ==> r[p] < |a|
    decreases |starts|
  {
    if |starts| == 0 then []
    else Collect(a, starts[..|starts| - 1], bins) + WindowInliers(a, starts[|starts| - 1], bins)
  }

  /** The windows `drop_outlier` processes: `np.arange(1, count, bins)[:-1]`. */
  function ProcessedStarts(count: int, bins: nat): (r: seq<nat>)
    requires bins > 0
    ensures forall k :: 0 <= k < |r| ==> 1 <= r[k] && r[k] + bins < count
  {
    var s := Arange(1, count, bins);
    var r := DropLast(s);
    assert forall k :: 0 <= k < |r| ==> r[k] + bins < count by {
      forall k | 0 <= k < |r|
        ensures r[k] + bins < count
      {
        assert r[k] == s[k] && s[k] + bins <= s[k + 1];
      }
    }
    r
  }

  /** What `drop_outlier(array, count, bins)` returns. */
  function Kept(a: seq<real>, count: int, bins: nat): (r: seq<nat>)
    requires bins > 0
    ensures forall p :: 0 <= p < |r| ==> r[p] < |a|
  {
    Collect(a, ProcessedStarts(count, bins), bins)
  }

  /** The loop of `drop_outlier`: per processed window, its inliers appended in order. */
  method DropOutlier(a: seq<real>, count: int, bins: nat) returns (index: seq<nat>)
    requires bins > 0
    ensures index == Kept(a, count, bins)
  {
    var starts := DropLast(Arange(1, count, bins));
    index := [];
    for k := 0 to |starts|
      invariant index == Collect(a, starts[..k], bins)
    {
      index := index + WindowInliers(a, starts[k], bins);
      CollectSnoc(a, starts, k, bins);
    }
    assert starts[..|starts|] == starts;
  }

  /** One more window appends its inliers. */
  lemma {:induction false} CollectSnoc(a: seq<real>, starts: seq<nat>, k: nat, bins: nat)
    requires bins > 0 && k < |starts|
    ensures Collect(a, starts[..k + 1], bins) == Collect(a, starts[..k], bins) + WindowInliers(a, starts[k], bins)
  {
    assert starts[..k + 1][..k] == starts[..k];
  }

  // ---------------------------------------------------------------------------
  // Which windows are processed

  /** Term k of a progression from lo is term k - 1 of the progression from lo + step. */
  lemma {:induction false} TermShift(lo: nat, k: nat, step: nat)
    requires k > 0
    ensures Term(lo, k, step) == Term(lo + step, k - 1, step)
  {
    assert (k - 1) * step + step == k * step;
  }

  /** `np.arange(lo, hi, step)` is exactly the progression terms below `hi`. */
  lemma {:induction false} ArangeShape(lo: nat, hi: int, step: nat)
    requires step > 0
    ensures forall k :: 0 <= k < |Arange(lo, hi, step)| ==> Arange(lo, hi, step)[k] == Term(lo, k, step)
    ensures forall k: nat :: k < |Arange(lo, hi, step)| <==> Term(lo, k, step) < hi
    decreases hi - lo
  {
    var r := Arange(lo, hi, step);
    if lo < hi {
      var rest := Arange(lo + step, hi, step);
      ArangeShape(lo + step, hi, step);
      assert r == [lo] + rest;
      forall k: nat
        ensures (k < |r| ==> r[k] == Term(lo, k, step)) && (k < |r| <==> Term(lo, k, step) < hi)
      {
        if k > 0 {
          TermShift(lo, k, step);
          assert k < |r| <==> k - 1 < |rest|;
        }
      }
    } else {
      forall k: nat
        ensures Term(lo, k, step) >= hi
      {
        assert k * step >= 0;
      }
    }
  }

  /** The processed windows start at 1, 1 + bins, 1 + 2 bins, ..., and window k is
      processed exactly when the start of window k + 1 is still below `count`. */
  lemma {:induction false} ProcessedStartsShape(count: int, bins: nat)
    requires bins > 0
    ensures forall k :: 0 <= k < |ProcessedStarts(count, bins)| ==> ProcessedStarts(count, bins)[k] == Term(1, k, bins)
    ensures forall k: nat :: k < |ProcessedStarts(count, bins)| <==> Term(1, k, bins) + bins < count
  {
    ArangeShape(1, count, bins);
    var r := Arange(1, count, bins);
    forall k: nat
      ensures k < |ProcessedStarts(count, bins)| <==> Term(1, k, bins) + bins < count
    {
      TermShift(1, k + 1, bins);
      assert Term(1, k, bins) + bins == Term(1, k + 1, bins);
      assert k < |ProcessedStarts(count, bins)| <==> k + 1 < |r|;
    }
  }

  /** Nothing survives when `count <= 1 + bins`: `np.arange` has at most one start. */
  lemma {:induction false} KeptEmptyForShortCount(a: seq<real>, count: int, bins: nat)
    requires bins > 0
    requires count <= 1 + bins
    ensures Kept(a, count, bins) == []
  {
    ProcessedStartsShape(count, bins);
    assert Term(1, 0, bins) == 1;
    assert |ProcessedStarts(count, bins)| == 0;
  }

  // ---------------------------------------------------------------------------
  // Which indices are kept

  /** An index belongs to the collected result iff some listed window keeps it. */
  lemma {:induction false} CollectMembership(a: seq<real>, starts: seq<nat>, bins: nat, j: nat)
    requires bins > 0
    ensures j in Collect(a, starts, bins) <==>
      exists k :: 0 <= k < |starts| && j in WindowInliers(a, starts[k], bins)
  {
    var parts := Parts(a, starts, bins);
    CollectIsFlatten(a, starts, bins);
    FlattenMembership(parts, j);
    if j in Collect(a, starts, bins) {
      var k :| 0 <= k < |parts| && j in parts[k];
      assert j in WindowInliers(a, starts[k], bins);
    }
    forall k | 0 <= k < |starts| && j in WindowInliers(a, starts[k], bins)
      ensures j in Collect(a, starts, bins)
    {
      assert j in parts[k];
    }
  }

  /** The window results, one per start. */
  function Parts(a: seq<real>, starts: seq<nat>, bins: nat): (r: seq<seq<nat>>)
    requires bins > 0
    ensures |r| == |starts|
  {
    seq(|starts|, k requires 0 <= k < |starts| => WindowInliers(a, starts[k], bins))
  }

  /** The concatenation of `parts`, in order. */
  function Flatten(parts: seq<seq<nat>>): seq<nat>
  {
    if |parts| == 0 then [] else Flatten(parts[..|parts| - 1]) + parts[|parts| - 1]
  }

  /** Collecting window by window is concatenating the window results. */
  lemma {:induction false} CollectIsFlatten(a: seq<real>, starts: seq<nat>, bins: nat)
    requires bins > 0
    ensures Collect(a, starts, bins) == Flatten(Parts(a, starts, bins))
  {
    if |starts| > 0 {
      var n := |starts|;
      CollectIsFlatten(a, starts[..n - 1], bins);
      assert Parts(a, starts, bins)[..n - 1] == Parts(a, starts[..n - 1], bins);
    }
  }

  /** An index is in a concatenation iff it is in one of the parts. */
  lemma {:induction false} FlattenMembership(parts: seq<seq<nat>>, j: nat)
    ensures j in Flatten(parts) <==> exists k :: 0 <= k < |parts| && j in parts[k]
  {
    if |parts| > 0 {
      var n := |parts|;
      var init := parts[..n - 1];
      FlattenMembership(init, j);
      if j in Flatten(init) {
        var k :| 0 <= k < |init| && j in init[k];
        assert parts[k] == init[k];
      }
      forall k | 0 <= k < n - 1 && j in parts[k]
        ensures j in Flatten(init)
      {
        assert parts[k] == init[k];
      }
    }
  }

  /** The start of the window of width `bins` that holds position `j >= 1`. */
  function WindowStart(j: nat, bins: nat): nat
    requires bins > 0 && j >= 1
  {
    Term(1, (j - 1) / bins, bins)
  }

  /** The window that holds position `j >= 1` is window number (j - 1) / bins. */
  lemma {:induction false} WindowNumber(j: nat, k: nat, bins: nat)
    requires bins > 0
    requires Term(1, k, bins) <= j < Term(1, k, bins) + bins
    ensures (j - 1) / bins == k
  {
    var q, r := (j - 1) / bins, (j - 1) % bins;
    assert j - 1 == q * bins + r && 0 <= r < bins;
    assert k * bins <= j - 1 < k * bins + bins;
    MultiplesApart(q, k, bins, r, j - 1 - k * bins);
  }

  /** Two ways of writing one number as multiple-plus-remainder agree on the multiple. */
  lemma {:induction false} MultiplesApart(q: nat, k: nat, bins: nat, r: nat, r': nat)
    requires bins > 0 && r < bins && r' < bins
    requires q * bins + r == k * bins + r'
    ensures q == k
  {
    if q > k {
      MulMonotone(k + 1, q, bins);
    } else if q < k {
      MulMonotone(q + 1, k, bins);
    }
  }

  lemma {:induction false} MulMonotone(x: nat, y: nat, c: nat)
    requires x <= y
    ensures x * c <= y * c
  {
  }

  /** Position `j >= 1` lies in window number (j - 1) / bins. */
  lemma {:induction false} InOwnWindow(j: nat, bins: nat)
    requires bins > 0 && j >= 1
    ensures (j - 1) / bins >= 0 && WindowStart(j, bins) == Term(1, (j - 1) / bins, bins)
    ensures WindowStart(j, bins) <= j < WindowStart(j, bins) + bins
  {
    var q, r := (j - 1) / bins, (j - 1) % bins;
    assert j - 1 == q * bins + r && 0 <= r < bins;
  }

  /** Every kept index lies in a processed window and passes that window's test. */
  lemma {:induction false} KeptSound(a: seq<real>, count: int, bins: nat, j: nat)
    requires bins > 0
    requires j in Kept(a, count, bins)
    ensures 1 <= j < |a|
    ensures WindowStart(j, bins) + bins < count
    ensures PassesWindowTest(a, WindowStart(j, bins), bins, j)
  {
    var starts := ProcessedStarts(count, bins);
    ProcessedStartsShape(count, bins);
    CollectMembership(a, starts, bins, j);
    var k :| 0 <= k < |starts| && j in WindowInliers(a, starts[k], bins);
    var i := starts[k];
    assert i == Term(1, k, bins);
    assert i <= j < i + bins && j < |a|;
    assert PassesWindowTest(a, i, bins, j);
    assert i + bins < count;
    WindowNumber(j, k, bins);
    assert (j - 1) / bins == k;
    assert WindowStart(j, bins) == i;
  }

  /** KeptSound for every entry of the result at once. */
  lemma {:induction false} KeptSoundAll(a: seq<real>, count: int, bins: nat)
    requires bins > 0
    ensures forall k :: 0 <= k < |Kept(a, count, bins)| ==>
      1 <= Kept(a, count, bins)[k] < |a| &&
      PassesWindowTest(a, WindowStart(Kept(a, count, bins)[k], bins), bins, Kept(a, count, bins)[k])
  {
    var idx := Kept(a, count, bins);
    forall k | 0 <= k < |idx|
      ensures 1 <= idx[k] < |a|
      ensures PassesWindowTest(a, WindowStart(idx[k], bins), bins, idx[k])
    {
      KeptSound(a, count, bins, idx[k]);
    }
  }

  /** Every index of a processed window that passes its test is kept. */
  lemma {:induction false} KeptComplete(a: seq<real>, count: int, bins: nat, j: nat)
    requires bins > 0
    requires 1 <= j < |a|
    requires WindowStart(j, bins) + bins < count
    requires PassesWindowTest(a, WindowStart(j, bins), bins, j)
    ensures j in Kept(a, count, bins)
  {
    var starts := ProcessedStarts(count, bins);
    ProcessedStartsShape(count, bins);
    var k := (j - 1) / bins;
    InOwnWindow(j, bins);
    assert k < |starts|;
    assert starts[k] == Term(1, k, bins);
    assert j in WindowInliers(a, starts[k], bins);
    CollectMembership(a, starts, bins, j);
  }

  /** The result of `drop_outlier` is exactly the set of positions `j` with
      1 <= j < len(array) whose window is processed and whose value lies strictly
      inside that window's mean +- 2 sigma. */
  lemma {:induction false} KeptMembership(a: seq<real>, count: int, bins: nat, j: nat)
    requires bins > 0
    ensures j in Kept(a, count, bins) <==>
      1 <= j < |a| &&
      WindowStart(j, bins) + bins < count &&
      PassesWindowTest(a, WindowStart(j, bins), bins, j)
  {
    if j in Kept(a, count, bins) {
      KeptSound(a, count, bins, j);
    } else if 1 <= j < |a| && WindowStart(j, bins) + bins < count {
      if PassesWindowTest(a, WindowStart(j, bins), bins, j) {
        KeptComplete(a, count, bins, j);
        assert false;
      }
    }
  }

  /** Two ascending runs, the first wholly below the second, make one ascending run. */
  lemma {:induction false} ConcatIncreasing(left: seq<nat>, right: seq<nat>, bound: nat)
    requires Increasing(left) && Increasing(right)
    requires forall p :: 0 <= p < |left| ==> left[p] < bound
    requires forall q :: 0 <= q < |right| ==> bound <= right[q]
    ensures Increasing(left + right)
  {
    var s := left + right;
    forall p, q | 0 <= p < q < |s|
      ensures s[p] < s[q]
    {
      if q < |left| {
        assert s[p] == left[p] && s[q] == left[q];
      } else if p < |left| {
        assert s[p] == left[p] && s[q] == right[q - |left|];
      } else {
        assert s[p] == right[p - |left|] && s[q] == right[q - |left|];
      }
    }
  }

  /** Windows are disjoint and appended in order, so the collected indices are
      strictly ascending and lie below the start of the next window. */
  lemma {:induction false} CollectIncreasing(a: seq<real>, starts: seq<nat>, bins: nat)
    requires bins > 0
    requires forall k :: 0 <= k < |starts| ==> starts[k] == Term(1, k, bins)
    ensures Increasing(Collect(a, starts, bins))
    ensures forall p :: 0 <= p < |Collect(a, starts, bins)| ==> Collect(a, starts, bins)[p] < Term(1, |starts|, bins)
  {
    if |starts| > 0 {
      var n := |starts|;
      var init := starts[..n - 1];
      assert forall k :: 0 <= k < |init| ==> init[k] == Term(1, k, bins);
      CollectIncreasing(a, init, bins);
      var left, right := Collect(a, init, bins), WindowInliers(a, starts[n - 1], bins);
      assert starts[n - 1] == Term(1, n - 1, bins);
      TermShift(1, n, bins);
      assert Term(1, n - 1, bins) + bins == Term(1, n, bins);
      assert Collect(a, starts, bins) == left + right;
      ConcatIncreasing(left, right, Term(1, n - 1, bins));
      var s := left + right;
      forall p | 0 <= p < |s|
        ensures s[p] < Term(1, n, bins)
      {
        if p < |left| {
          assert s[p] == left[p];
        } else {
          assert s[p] == right[p - |left|];
        }
      }
    }
  }

  /** `drop_outlier` returns strictly ascending indices, so no duplicates. */
  lemma {:induction false} KeptIncreasing(a: seq<real>, count: int, bins: nat)
    requires bins > 0
    ensures Increasing(Kept(a, count, bins))
  {
    ProcessedStartsShape(count, bins);
    CollectIncreasing(a, ProcessedStarts(count, bins), bins);
  }

  /** Index 0 is never returned, nor any index at or past the last start of
      `np.arange(1, count, bins)` (the dropped final window), nor any index past the array. */
  lemma {:induction false} KeptBounds(a: seq<real>, count: int, bins: nat, j: nat)
    requires bins > 0
    requires j in Kept(a, count, bins)
    ensures 1 <= j < |a|
    ensures |Arange(1, count, bins)| >= 2
    ensures j < Arange(1, count, bins)[|Arange(1, count, bins)| - 1]
  {
    KeptSound(a, count, bins, j);
    InOwnWindow(j, bins);
    BeforeLastStart(j, (j - 1) / bins, bins, count);
  }

  /** A position of a window whose successor starts below `count` lies before the
      last element of `np.arange(1, count, bins)`. */
  lemma {:induction false} BeforeLastStart(j: nat, k: nat, bins: nat, count: int)
    requires bins > 0
    requires j < Term(1, k, bins) + bins < count
    ensures |Arange(1, count, bins)| >= 2
    ensures j < Arange(1, count, bins)[|Arange(1, count, bins)| - 1]
  {
    var r := Arange(1, count, bins);
    ArangeShape(1, count, bins);
    TermShift(1, k + 1, bins);
    assert Term(1, k + 1, bins) < count;
    assert k + 1 < |r|;
    var last := |r| - 1;
    MulMonotone(k + 1, last, bins);
    assert Term(1, k + 1, bins) <= Term(1, last, bins);
  }

  /** Squares are strictly monotone on the non-negative reals, in both directions. */
  lemma {:induction false} SquareOrder(d: real, b: real)
    requires d >= 0.0 && b >= 0.0
    ensures d < b <==> d * d < b * b
  {
    if d < b {
      MulMonotoneReal(d, b, d);
      MulStrictReal(d, b, b);
      calc {
        d * d;
      <= b * d;
      == d * b;
      < b * b;
      }
    } else {
      MulMonotoneReal(b, d, b);
      MulMonotoneReal(b, d, d);
      calc {
        b * b;
      <= d * b;
      == b * d;
      <= d * d;
      }
    }
  }

  lemma {:induction false} MulMonotoneReal(x: real, y: real, c: real)
    requires x <= y && c >= 0.0
    ensures x * c <= y * c
  {
  }

  lemma {:induction false} MulStrictReal(x: real, y: real, c: real)
    requires x < y && c > 0.0
    ensures x * c < y * c
  {
  }

  /** The square-free test is the two-sigma band: for sigma >= 0 with sigma^2 = var,
      (x - m)^2 < 4 var iff m - 2 sigma < x < m + 2 sigma; the band's ends are excluded. */
  lemma {:induction false} InsideIsTwoSigmaBand(x: real, m: real, v: real, sigma: real)
    requires sigma >= 0.0 && sigma * sigma == v
    ensures Inside(x, m, v) <==> m - 2.0 * sigma < x < m + 2.0 * sigma
  {
    var d, b := Abs(x - m), 2.0 * sigma;
    assert Square(x - m) == d * d;
    assert 4.0 * v == b * b;
    SquareOrder(d, b);
  }

  /** A window of equal values has sigma = 0, and the strict test then keeps none of it. */
  lemma {:induction false} FlatWindowKeepsNothing(a: seq<real>, i: nat, bins: nat, c: real)
    requires bins > 0
    requires forall p :: 0 <= p < |Window(a, i, bins)| ==> Window(a, i, bins)[p] == c
    ensures WindowInliers(a, i, bins) == []
  {
    var w := Window(a, i, bins);
    var r := WindowInliers(a, i, bins);
    if |r| > 0 {
      var j := r[0];
      assert i <= j < i + bins && j < |a|;
      assert PassesWindowTest(a, i, bins, j);
      assert w == a[i..Clip(i + bins, |a|)];
      assert a[j] == w[j - i];
      ConstantSampleStatistics(w, c);
    }
  }
}
