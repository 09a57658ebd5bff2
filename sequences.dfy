/**
 * Training data for the sequence model: the sliding-window pair builder
 * `build_sequences` and the leave-one-out assembler `get_train_test`.
 */
module Sequences {
  import opened Wrappers

  /** Number of pairs `range(len(text) - w)` yields (a negative count yields none). */
  function PairCount(text: seq<real>, w: nat): nat
  {
    if |text| <= w then 0 else |text| - w
  }

  /** The model inputs `text[i:i+w]`, one per start `i`. */
  function Inputs(text: seq<real>, w: nat): (x: seq<seq<real>>)
    ensures |x| == PairCount(text, w)
  {
    if |text| <= w then [] else seq(|text| - w, i requires 0 <= i < |text| - w => text[i..i + w])
  }

  /** The model targets `text[i+1:i+1+w]`, one per start `i`. */
  function Targets(text: seq<real>, w: nat): (y: seq<seq<real>>)
    ensures |y| == PairCount(text, w)
  {
    if |text| <= w then [] else seq(|text| - w, i requires 0 <= i < |text| - w => text[i + 1..i + 1 + w])
  }

  /** `build_sequences`: appends one input window and one target window per start. */
  method BuildSequences(text: seq<real>, w: nat) returns (x: seq<seq<real>>, y: seq<seq<real>>)
    ensures x == Inputs(text, w) && y == Targets(text, w)
  {
    x, y := [], [];
    var n := PairCount(text, w);
    for i := 0 to n
      invariant x == Inputs(text, w)[..i] && y == Targets(text, w)[..i]
    {
      PairsSnoc(text, w, i);
      x := x + [text[i..i + w]];
      y := y + [text[i + 1..i + 1 + w]];
    }
    assert Inputs(text, w)[..n] == Inputs(text, w) && Targets(text, w)[..n] == Targets(text, w);
  }

  /** The pairs of starts 0..i are those of starts 0..i-1 and the pair at start i. */
  lemma {:induction false} PairsSnoc(text: seq<real>, w: nat, i: nat)
    requires i < PairCount(text, w)
    ensures Inputs(text, w)[..i + 1] == Inputs(text, w)[..i] + [text[i..i + w]]
    ensures Targets(text, w)[..i + 1] == Targets(text, w)[..i] + [text[i + 1..i + 1 + w]]
  {
    assert Inputs(text, w)[i] == text[i..i + w];
    assert Targets(text, w)[i] == text[i + 1..i + 1 + w];
  }

  /** For L > w there are exactly L - w pairs of windows of length w, the input at
      positions i..i+w-1 and the target at i+1..i+w; for L <= w there are none. */
  lemma {:induction false} SequencesShape(text: seq<real>, w: nat)
    ensures |text| <= w ==> Inputs(text, w) == [] && Targets(text, w) == []
    ensures |text| > w ==> |Inputs(text, w)| == |text| - w && |Targets(text, w)| == |text| - w
    ensures forall i :: 0 <= i < PairCount(text, w) ==>
      |Inputs(text, w)[i]| == w && |Targets(text, w)[i]| == w &&
      Inputs(text, w)[i] == text[i..i + w] && Targets(text, w)[i] == text[i + 1..i + 1 + w]
  {
  }

  /** The target is the input shifted by one: it drops the first sample and appends
      the sample that follows the input window. */
  lemma {:induction false} TargetIsShiftedInput(text: seq<real>, w: nat, i: nat)
    requires w >= 1 && i < PairCount(text, w)
    ensures Targets(text, w)[i][..w - 1] == Inputs(text, w)[i][1..]
    ensures Targets(text, w)[i][w - 1] == text[i + w]
  {
    assert Targets(text, w)[i] == text[i + 1..i + 1 + w];
    assert Inputs(text, w)[i] == text[i..i + w];
  }

  /** Each target window is the next input window. */
  lemma {:induction false} TargetIsNextInput(text: seq<real>, w: nat, i: nat)
    requires i + 1 < PairCount(text, w)
    ensures Targets(text, w)[i] == Inputs(text, w)[i + 1]
  {
  }

  /** The last sample of each window, in order. */
  function LastSamples(y: seq<seq<real>>): (r: seq<real>)
    requires forall i :: 0 <= i < |y| ==> |y[i]| >= 1
    ensures |r| == |y|
  {
    seq(|y|, i requires 0 <= i < |y| => y[i][|y[i]| - 1])
  }

  /** The pairs lose nothing: the first input window followed by the last sample of
      every target window is the whole series. */
  lemma {:induction false} WindowsRecoverText(text: seq<real>, w: nat)
    requires w >= 1 && |text| > w
    ensures forall i :: 0 <= i < |Targets(text, w)| ==> |Targets(text, w)[i]| >= 1
    ensures Inputs(text, w)[0] + LastSamples(Targets(text, w)) == text
  {
    var y := Targets(text, w);
    var r := Inputs(text, w)[0] + LastSamples(y);
    assert |r| == |text|;
    forall p | 0 <= p < |text|
      ensures r[p] == text[p]
    {
      if p >= w {
        TargetIsShiftedInput(text, w, p - w);
      }
    }
  }

  // ---------------------------------------------------------------------------
  // get_train_test

  /** The default `window_size` of `get_train_test`. */
  const DefaultWindow: nat := 8

  /** `data_dict` in mapping-iteration order: battery name and capacity series. */
  type Dataset = seq<(string, seq<real>)>

  /** `data_dict[name]['capacity']`, or None where the lookup raises KeyError. */
  function Lookup(d: Dataset, name: string): (r: Option<seq<real>>)
    ensures r.None? <==> forall k :: 0 <= k < |d| ==> d[k].0 != name
    ensures r.Some? ==> exists k :: 0 <= k < |d| && d[k] == (name, r.value)
    decreases |d|
  {
    if |d| == 0 then None
    else if d[0].0 == name then Some(d[0].1)
    else
      var r := Lookup(d[1..], name);
      assert forall k :: 1 <= k < |d| ==> d[k] == d[1..][k - 1];
      r
  }

  /** The input windows of every battery other than `name`, in mapping order. */
  function PooledInputs(d: Dataset, name: string, w: nat): seq<seq<real>>
    decreases |d|
  {
    if |d| == 0 then []
    else PooledInputs(d[..|d| - 1], name, w) + (if d[|d| - 1].0 != name then Inputs(d[|d| - 1].1, w) else [])
  }

  /** The target windows of every battery other than `name`, in mapping order. */
  function PooledTargets(d: Dataset, name: string, w: nat): seq<seq<real>>
    decreases |d|
  {
    if |d| == 0 then []
    else PooledTargets(d[..|d| - 1], name, w) + (if d[|d| - 1].0 != name then Targets(d[|d| - 1].1, w) else [])
  }

  /** Every other battery yields no pairs exactly when the held-out fragment does. */
  predicate SameEmptiness(d: Dataset, name: string, w: nat, heldEmpty: bool)
  {
    forall k :: 0 <= k < |d| && d[k].0 != name ==> (PairCount(d[k].1, w) == 0) == heldEmpty
  }

  datatype Split = Split(trainX: seq<seq<real>>, trainY: seq<seq<real>>, trainData: seq<real>, testData: seq<real>)

  /** What `get_train_test` returns or raises: KeyError for an unknown battery, and
      ValueError where `np.r_` joins an empty (one-dimensional) pair array with a
      non-empty (two-dimensional) one. */
  datatype Outcome = Assembled(split: Split) | UnknownBattery | ShapeMismatch

  /** Where the held-out series is cut: `seq[:w+1]` clipped to its length. */
  function Cut(s: seq<real>, w: nat): (n: nat)
    ensures n <= |s| && n <= w + 1
    ensures n == |s| || n == w + 1
  {
    if |s| < w + 1 then |s| else w + 1
  }

  /** The value `get_train_test` computes. */
  function TrainTest(d: Dataset, name: string, w: nat): (r: Outcome)
    ensures r.UnknownBattery? <==> Lookup(d, name).None?
    ensures r.Assembled? ==> r.split.trainData + r.split.testData == Lookup(d, name).value
  {
    match Lookup(d, name)
    case None => UnknownBattery
    case Some(s) =>
      var train := s[..Cut(s, w)];
      assert train + s[Cut(s, w)..] == s;
      if !SameEmptiness(d, name, w, PairCount(train, w) == 0) then ShapeMismatch
      else Assembled(Split(Inputs(train, w) + PooledInputs(d, name, w),
                           Targets(train, w) + PooledTargets(d, name, w),
                           train, s[Cut(s, w)..]))
  }

  /** `get_train_test`: the held-out fragment's pairs, then each other battery's pairs
      appended in mapping order; it fails at the first battery whose pair array has the
      other shape from the accumulated one. */
  method GetTrainTest(d: Dataset, name: string, w: nat) returns (r: Outcome)
    ensures r == TrainTest(d, name, w)
  {
    var held := Lookup(d, name);
    if held.None? {
      return UnknownBattery;
    }
    var s := held.value;
    var cut := Cut(s, w);
    var train, test := s[..cut], s[cut..];
    var x0, y0 := BuildSequences(train, w);
    var ok, trainX, trainY := PoolOthers(d, name, w, x0, y0);
    if !ok {
      return ShapeMismatch;
    }
    return Assembled(Split(trainX, trainY, train, test));
  }

  /** The loop of `get_train_test`: each other battery's pairs appended in mapping order
      after `x0, y0`; `ok` is false where `np.r_` raises at the first battery whose pair
      array has the other shape from the accumulated one. */
  method PoolOthers(d: Dataset, name: string, w: nat, x0: seq<seq<real>>, y0: seq<seq<real>>)
    returns (ok: bool, trainX: seq<seq<real>>, trainY: seq<seq<real>>)
    ensures ok == SameEmptiness(d, name, w, |x0| == 0)
    ensures ok ==> trainX == x0 + PooledInputs(d, name, w) && trainY == y0 + PooledTargets(d, name, w)
  {
    var heldEmpty := |x0| == 0;
    trainX, trainY := x0, y0;
    for k := 0 to |d|
      invariant trainX == x0 + PooledInputs(d[..k], name, w)
      invariant trainY == y0 + PooledTargets(d[..k], name, w)
      invariant SameEmptiness(d[..k], name, w, heldEmpty)
      invariant (|trainX| == 0) == heldEmpty
    {
      PooledSnoc(d, name, w, k, x0, y0);
      if d[k].0 != name {
        var dataX, dataY := BuildSequences(d[k].1, w);
        if (|trainX| == 0) != (|dataX| == 0) {
          MismatchAt(d, name, w, k, heldEmpty);
          return false, trainX, trainY;
        }
        trainX, trainY := trainX + dataX, trainY + dataY;
      }
      SameEmptinessSnoc(d, name, w, k, heldEmpty);
    }
    assert d[..|d|] == d;
    ok := true;
  }

  /** One more battery extends the accumulated pairs by its own. */
  lemma {:induction false} PooledSnoc(d: Dataset, name: string, w: nat, k: nat, x0: seq<seq<real>>, y0: seq<seq<real>>)
    requires k < |d|
    ensures x0 + PooledInputs(d[..k + 1], name, w) == (x0 + PooledInputs(d[..k], name, w)) + (if d[k].0 != name then Inputs(d[k].1, w) else [])
    ensures y0 + PooledTargets(d[..k + 1], name, w) == (y0 + PooledTargets(d[..k], name, w)) + (if d[k].0 != name then Targets(d[k].1, w) else [])
  {
    assert d[..k + 1][..k] == d[..k];
  }

  lemma {:induction false} SameEmptinessSnoc(d: Dataset, name: string, w: nat, k: nat, heldEmpty: bool)
    requires k < |d|
    requires SameEmptiness(d[..k], name, w, heldEmpty)
    requires d[k].0 != name ==> (PairCount(d[k].1, w) == 0) == heldEmpty
    ensures SameEmptiness(d[..k + 1], name, w, heldEmpty)
  {
    forall j | 0 <= j < k
      ensures d[..k + 1][j] == d[..k][j]
    {
    }
  }

  lemma {:induction false} MismatchAt(d: Dataset, name: string, w: nat, k: nat, heldEmpty: bool)
    requires k < |d| && d[k].0 != name && (PairCount(d[k].1, w) == 0) != heldEmpty
    ensures !SameEmptiness(d, name, w, heldEmpty)
  {
  }

  /** KeyError exactly when no battery carries the name. */
  lemma {:induction false} UnknownBatteryIff(d: Dataset, name: string, w: nat)
    ensures TrainTest(d, name, w) == UnknownBattery <==> forall k :: 0 <= k < |d| ==> d[k].0 != name
  {
  }

  /** Where every series is longer than the window, no shape clash can occur. */
  lemma {:induction false} LongSeriesAssemble(d: Dataset, name: string, w: nat)
    requires exists k :: 0 <= k < |d| && d[k].0 == name
    requires forall k :: 0 <= k < |d| ==> |d[k].1| > w
    ensures TrainTest(d, name, w).Assembled?
  {
    var s := Lookup(d, name).value;
    var k :| 0 <= k < |d| && d[k] == (name, s);
    assert |s| > w;
  }

  /** The held-out series is split at w + 1: the training part is its first
      min(w + 1, L) samples and the test part the rest. */
  lemma {:induction false} SplitPartitionsHeldOut(d: Dataset, name: string, w: nat)
    requires TrainTest(d, name, w).Assembled?
    ensures Lookup(d, name).Some?
    ensures var s, split := Lookup(d, name).value, TrainTest(d, name, w).split;
      && split.trainData + split.testData == s
      && |split.trainData| == (if |s| < w + 1 then |s| else w + 1)
  {
    CutPartitions(Lookup(d, name).value, w);
  }

  /** Cutting a series at `Cut` splits it into its first `min(len, w + 1)` samples and the rest. */
  lemma {:induction false} CutPartitions(s: seq<real>, w: nat)
    ensures s[..Cut(s, w)] + s[Cut(s, w)..] == s
    ensures |s[..Cut(s, w)]| == (if |s| < w + 1 then |s| else w + 1)
  {
    assert s[..Cut(s, w)] + s[Cut(s, w)..] == s;
  }

  /** The held-out battery contributes exactly one pair, its first w samples and
      samples 1..w, when its series has at least w + 1 samples, and none otherwise. */
  lemma {:induction false} HeldOutContributesOnePair(d: Dataset, name: string, w: nat)
    requires TrainTest(d, name, w).Assembled?
    ensures Lookup(d, name).Some?
    ensures var s, train := Lookup(d, name).value, TrainTest(d, name, w).split.trainData;
      && (|s| >= w + 1 ==> Inputs(train, w) == [s[..w]] && Targets(train, w) == [s[1..w + 1]])
      && (|s| < w + 1 ==> Inputs(train, w) == [] && Targets(train, w) == [])
  {
    HeldOutPairs(Lookup(d, name).value, w);
  }

  /** The first `min(len, w + 1)` samples of a series hold one pair, or none when
      the series is shorter than w + 1. */
  lemma {:induction false} HeldOutPairs(s: seq<real>, w: nat)
    ensures |s| >= w + 1 ==> Inputs(s[..Cut(s, w)], w) == [s[..w]] && Targets(s[..Cut(s, w)], w) == [s[1..w + 1]]
    ensures |s| < w + 1 ==> Inputs(s[..Cut(s, w)], w) == [] && Targets(s[..Cut(s, w)], w) == []
  {
    var train := s[..Cut(s, w)];
    if |s| >= w + 1 {
      assert |train| == w + 1;
      assert Inputs(train, w)[0] == train[..w] == s[..w];
      assert Targets(train, w)[0] == train[1..w + 1] == s[1..w + 1];
    }
  }

  /** `(x, y)` is the pair at start `p` of series `s`. */
  predicate PairAt(s: seq<real>, w: nat, p: nat, x: seq<real>, y: seq<real>)
  {
    p + w < |s| && x == s[p..p + w] && y == s[p + 1..p + 1 + w]
  }

  /** Every pooled pair is a pair of windows of some other battery: nothing of the
      held-out battery beyond its first w + 1 samples reaches the training set. */
  lemma {:induction false} PooledPairsComeFromOtherBatteries(d: Dataset, name: string, w: nat, k: nat)
    requires k < |PooledInputs(d, name, w)|
    ensures |PooledTargets(d, name, w)| == |PooledInputs(d, name, w)|
    ensures exists j, p :: 0 <= j < |d| && d[j].0 != name &&
                          PairAt(d[j].1, w, p, PooledInputs(d, name, w)[k], PooledTargets(d, name, w)[k])
  {
    PooledLengths(d, name, w);
    var j, p := PairSource(d, name, w, k);
  }

  /** The battery `j` and the start `p` pooled pair `k` comes from. */
  lemma {:induction false} PairSource(d: Dataset, name: string, w: nat, k: nat) returns (j: nat, p: nat)
    requires k < |PooledInputs(d, name, w)|
    ensures j < |d| && d[j].0 != name && k < |PooledTargets(d, name, w)|
    ensures PairAt(d[j].1, w, p, PooledInputs(d, name, w)[k], PooledTargets(d, name, w)[k])
    decreases |d|
  {
    var n := |d|;
    var init := d[..n - 1];
    PooledLengths(init, name, w);
    var before := |PooledInputs(init, name, w)|;
    if k < before {
      j, p := PairSource(init, name, w, k);
      assert init[j] == d[j];
      PooledPrefix(d, name, w, k);
    } else {
      PooledLengths(d, name, w);
      j, p := n - 1, k - before;
      PooledLast(d, name, w, k);
    }
  }

  /** A pooled pair from the batteries before the last keeps its place. */
  lemma {:induction false} PooledPrefix(d: Dataset, name: string, w: nat, k: nat)
    requires |d| > 0 && k < |PooledInputs(d[..|d| - 1], name, w)| && k < |PooledTargets(d[..|d| - 1], name, w)|
    ensures k < |PooledInputs(d, name, w)| && k < |PooledTargets(d, name, w)|
    ensures PooledInputs(d, name, w)[k] == PooledInputs(d[..|d| - 1], name, w)[k]
    ensures PooledTargets(d, name, w)[k] == PooledTargets(d[..|d| - 1], name, w)[k]
  {
  }

  /** A pooled pair past those of the batteries before the last is a pair of the last. */
  lemma {:induction false} PooledLast(d: Dataset, name: string, w: nat, k: nat)
    requires |d| > 0
    requires |PooledTargets(d[..|d| - 1], name, w)| == |PooledInputs(d[..|d| - 1], name, w)|
    requires |PooledInputs(d[..|d| - 1], name, w)| <= k < |PooledInputs(d, name, w)|
    ensures d[|d| - 1].0 != name && k < |PooledTargets(d, name, w)|
    ensures PairAt(d[|d| - 1].1, w, k - |PooledInputs(d[..|d| - 1], name, w)|,
                   PooledInputs(d, name, w)[k], PooledTargets(d, name, w)[k])
  {
    var n, before := |d|, |PooledInputs(d[..|d| - 1], name, w)|;
    var p := k - before;
    assert d[n - 1].0 != name;
    assert PooledInputs(d, name, w)[k] == Inputs(d[n - 1].1, w)[p];
    assert PooledTargets(d, name, w)[k] == Targets(d[n - 1].1, w)[p];
  }

  /** The pooled pair count is the sum of the other batteries' pair counts. */
  function OtherPairCount(d: Dataset, name: string, w: nat): nat
    decreases |d|
  {
    if |d| == 0 then 0
    else OtherPairCount(d[..|d| - 1], name, w) + (if d[|d| - 1].0 != name then PairCount(d[|d| - 1].1, w) else 0)
  }

  lemma {:induction false} PooledLengths(d: Dataset, name: string, w: nat)
    ensures |PooledInputs(d, name, w)| == OtherPairCount(d, name, w)
    ensures |PooledTargets(d, name, w)| == OtherPairCount(d, name, w)
    decreases |d|
  {
    if |d| > 0 {
      PooledLengths(d[..|d| - 1], name, w);
    }
  }

  /** The training set holds the held-out pairs followed by every other battery's
      full set of pairs, inputs and targets equally many. */
  lemma {:induction false} TrainingPairCount(d: Dataset, name: string, w: nat)
    requires TrainTest(d, name, w).Assembled?
    ensures var split := TrainTest(d, name, w).split;
      && |split.trainX| == |split.trainY|
      && |split.trainX| == PairCount(split.trainData, w) + OtherPairCount(d, name, w)
  {
    PooledLengths(d, name, w);
  }
}
