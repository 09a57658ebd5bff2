/** Per-cycle feature extraction (`process_battery_data`) and the final table
    (`aggregate_data`) of `BatteryDataPreprocessor` (preprocess.py). */
module CycleFeatures {
  import opened Wrappers
  import opened Stats
  import OutlierFilter

  /** One row of a cycler sheet: the columns Cycle_Index, Step_Index, Test_Time(s),
      Voltage(V), Current(A) and Internal_Resistance(Ohm). */
  datatype Row = Row(cycle: int, step: int, time: real, voltage: real, current: real, resistance: real)

  const ConstantCurrentStep: int := 2
  const ConstantVoltageStep: int := 4
  const DischargeStep: int := 7
  /** The window size `aggregate_data` passes to `drop_outlier`. */
  const OutlierBins: nat := 40
  const SecondsPerHour: real := 3600.0
  /** The voltages whose nearest discharge samples bracket the health indicator. */
  const UpperMarker: real := 3.8
  const LowerMarker: real := 3.4

  /** `df[df['Cycle_Index'] == c][... ['Step_Index'] == step]`, in sheet order. */
  function Select(rows: seq<Row>, c: int, step: int): (r: seq<Row>)
    ensures forall k :: 0 <= k < |r| ==> r[k].cycle == c && r[k].step == step
    ensures forall x :: x in r <==> x in rows && x.cycle == c && x.step == step
    decreases |rows|
  {
    if |rows| == 0 then []
    else
      var init := Select(rows[..|rows| - 1], c, step);
      var last := rows[|rows| - 1];
      assert rows == rows[..|rows| - 1] + [last];
      if last.cycle == c && last.step == step then init + [last] else init
  }

  /** The sheet positions of the rows of cycle `c` at step `step`, in sheet order. */
  function SheetPositions(rows: seq<Row>, c: int, step: int): seq<nat>
    decreases |rows|
  {
    if |rows| == 0 then []
    else
      var last := rows[|rows| - 1];
      SheetPositions(rows[..|rows| - 1], c, step) + (if last.cycle == c && last.step == step then [|rows| - 1] else [])
  }

  /** The positions are ascending and are exactly those of the matching rows. */
  lemma {:induction false} SheetPositionsSpec(rows: seq<Row>, c: int, step: int)
    ensures forall p, q :: 0 <= p < q < |SheetPositions(rows, c, step)| ==>
      SheetPositions(rows, c, step)[p] < SheetPositions(rows, c, step)[q]
    ensures forall k :: 0 <= k < |SheetPositions(rows, c, step)| ==> SheetPositions(rows, c, step)[k] < |rows|
    ensures forall j :: j in SheetPositions(rows, c, step) <==> 0 <= j < |rows| && rows[j].cycle == c && rows[j].step == step
    decreases |rows|
  {
    if |rows| > 0 {
      var init := rows[..|rows| - 1];
      SheetPositionsSpec(init, c, step);
      forall j | 0 <= j < |init|
        ensures init[j] == rows[j]
      {
      }
    }
  }

  /** Boolean indexing keeps sheet order and repeated rows: entry k of the selection is
      the row at the k-th matching sheet position. */
  lemma {:induction false} SelectAtPositions(rows: seq<Row>, c: int, step: int)
    ensures |Select(rows, c, step)| == |SheetPositions(rows, c, step)|
    ensures forall k :: 0 <= k < |SheetPositions(rows, c, step)| ==>
      SheetPositions(rows, c, step)[k] < |rows| &&
      Select(rows, c, step)[k] == rows[SheetPositions(rows, c, step)[k]]
    decreases |rows|
  {
    SheetPositionsSpec(rows, c, step);
    if |rows| > 0 {
      var init := rows[..|rows| - 1];
      SelectAtPositions(init, c, step);
      SheetPositionsSpec(init, c, step);
      var pos, pInit := SheetPositions(rows, c, step), SheetPositions(init, c, step);
      forall k | 0 <= k < |pInit|
        ensures Select(rows, c, step)[k] == rows[pos[k]]
      {
        assert pos[k] == pInit[k];
        assert init[pInit[k]] == rows[pInit[k]];
      }
    }
  }

  /** The rows are in time order, as a cycler records them. */
  predicate TimeOrdered(d: seq<Row>)
  {
    forall p, q :: 0 <= p < q < |d| ==> d[p].time <= d[q].time
  }

  /** Selecting from a time-ordered sheet gives time-ordered rows. */
  lemma {:induction false} SelectKeepsTimeOrder(rows: seq<Row>, c: int, step: int)
    requires TimeOrdered(rows)
    ensures TimeOrdered(Select(rows, c, step))
  {
    SelectAtPositions(rows, c, step);
    SheetPositionsSpec(rows, c, step);
    var d, pos := Select(rows, c, step), SheetPositions(rows, c, step);
    forall p, q | 0 <= p < q < |d|
      ensures d[p].time <= d[q].time
    {
      assert d[p] == rows[pos[p]] && d[q] == rows[pos[q]];
    }
  }

  function Times(d: seq<Row>): seq<real>
  {
    seq(|d|, k requires 0 <= k < |d| => d[k].time)
  }

  function Voltages(d: seq<Row>): seq<real>
  {
    seq(|d|, k requires 0 <= k < |d| => d[k].voltage)
  }

  function Currents(d: seq<Row>): seq<real>
  {
    seq(|d|, k requires 0 <= k < |d| => d[k].current)
  }

  function Resistances(d: seq<Row>): seq<real>
  {
    seq(|d|, k requires 0 <= k < |d| => d[k].resistance)
  }

  /** `np.max(t) - np.min(t)` over one phase; an empty phase gives NaN (here None). */
  function PhaseDuration(t: seq<real>): (r: Option<real>)
    ensures r.None? <==> |t| == 0
    ensures r.Some? ==> r.value >= 0.0
    ensures r.Some? ==> forall p, q :: 0 <= p < |t| && 0 <= q < |t| ==> t[p] - t[q] <= r.value
    ensures r.Some? ==> exists p, q :: 0 <= p < |t| && 0 <= q < |t| && r.value == t[p] - t[q]
  {
    if |t| == 0 then None else Some(MaxOf(t) - MinOf(t))
  }

  /** `np.diff(t) * c[1:] / 3600`: ampere-seconds between samples, in ampere-hours. */
  function Increments(t: seq<real>, c: seq<real>): (r: seq<real>)
    requires |t| == |c|
    ensures |r| == if |t| == 0 then 0 else |t| - 1
  {
    if |t| == 0 then []
    else seq(|t| - 1, j requires 0 <= j < |t| - 1 => (t[j + 1] - t[j]) * c[j + 1] / SecondsPerHour)
  }

  /** `np.cumsum`. */
  function CumSum(s: seq<real>): (r: seq<real>)
    ensures |r| == |s|
    decreases |s|
  {
    if |s| == 0 then [] else CumSum(s[..|s| - 1]) + [Sum(s)]
  }

  /** Entry k of `np.cumsum(s)` is the sum of the first k + 1 entries of `s`. */
  lemma {:induction false} CumSumAt(s: seq<real>, k: nat)
    requires k < |s|
    ensures CumSum(s)[k] == Sum(s[..k + 1])
    decreases |s|
  {
    var n := |s|;
    if k < n - 1 {
      CumSumAt(s[..n - 1], k);
      assert s[..n - 1][..k + 1] == s[..k + 1];
    } else {
      assert s[..k + 1] == s;
    }
  }

  /** What one cycle's discharge rows give: nothing, the single-sample case on which
      `discharge_capacity[-1]` raises IndexError, or capacity, health indicator and resistance. */
  datatype Discharge = NoDischarge | SingleSample | Measured(capacity: real, health: real, resistance: real)

  /** The discharge branch of `process_battery_data` for one cycle's step-7 rows. */
  function DischargeFeatures(d: seq<Row>): (r: Discharge)
    ensures r.NoDischarge? <==> |d| == 0
    ensures r.SingleSample? <==> |d| == 1
  {
    if |d| == 0 then NoDischarge
    else if |d| == 1 then SingleSample
    else
      var dV := Voltages(d);
      var capacity := Cumulative(d);
      var startCapacity := capacity[ArgMinDistance(dV[1..], UpperMarker)];
      var endCapacity := capacity[ArgMinDistance(dV[1..], LowerMarker)];
      Measured(-capacity[|capacity| - 1], -startCapacity + endCapacity, Mean(Resistances(d)))
  }

  /** `np.cumsum(np.diff(dT) * dC[1:] / 3600)`: one entry per discharge sample after the first. */
  function Cumulative(d: seq<Row>): (r: seq<real>)
    requires |d| >= 1
    ensures |r| == |d| - 1
  {
    CumSum(Increments(Times(d), Currents(d)))
  }

  /** Everything one cycle appends: CC and CV durations, and the discharge outcome. */
  datatype CycleRecord = CycleRecord(ccct: Option<real>, cvct: Option<real>, discharge: Discharge)

  function FeaturesOfCycle(rows: seq<Row>, c: int): (r: CycleRecord)
    ensures r.ccct.None? <==> |Select(rows, c, ConstantCurrentStep)| == 0
    ensures r.cvct.None? <==> |Select(rows, c, ConstantVoltageStep)| == 0
    ensures r.discharge.NoDischarge? <==> |Select(rows, c, DischargeStep)| == 0
    ensures r.discharge.SingleSample? <==> |Select(rows, c, DischargeStep)| == 1
  {
    CycleRecord(
      PhaseDuration(Times(Select(rows, c, ConstantCurrentStep))),
      PhaseDuration(Times(Select(rows, c, ConstantVoltageStep))),
      DischargeFeatures(Select(rows, c, DischargeStep)))
  }

  /** The records of the listed cycles, in the order listed. */
  function Records(rows: seq<Row>, cycles: seq<int>): (r: seq<CycleRecord>)
    ensures |r| == |cycles|
    ensures forall k :: 0 <= k < |r| ==> r[k] == FeaturesOfCycle(rows, cycles[k])
  {
    seq(|cycles|, k requires 0 <= k < |cycles| => FeaturesOfCycle(rows, cycles[k]))
  }

  /** `cycles` is `list(set(df['Cycle_Index']))`: each cycle of the sheet once, in any order. */
  predicate ListsEachCycleOnce(rows: seq<Row>, cycles: seq<int>)
  {
    && (forall p, q :: 0 <= p < q < |cycles| ==> cycles[p] != cycles[q])
    && (forall r :: r in rows ==> r.cycle in cycles)
    && (forall c :: c in cycles ==> exists r :: r in rows && r.cycle == c)
  }

  /** Every list of `s` is a prefix of the same list of `t`: the loop only appends. */
  predicate Extends(s: Series, t: Series)
  {
    && s.capacities <= t.capacities && s.health <= t.health && s.resistance <= t.resistance
    && s.ccct <= t.ccct && s.cvct <= t.cvct
  }

  /** The five caller-owned lists, as values. */
  datatype Series = Series(
    capacities: seq<real>, health: seq<real>, resistance: seq<real>,
    ccct: seq<Option<real>>, cvct: seq<Option<real>>)

  /** The lists, the discharge-cycle counter, and whether an exception was raised. */
  datatype Progress = Progress(series: Series, count: nat, failed: bool)

  /** One iteration of the per-cycle loop: CC and CV durations for every cycle; the
      three discharge series and the counter only for a cycle with discharge rows. */
  function Record(p: Progress, r: CycleRecord): (q: Progress)
    ensures q.series == Join(p.series, Own(r))
    ensures q.count == p.count + |Own(r).capacities|
    ensures q.failed <==> r.discharge.SingleSample?
  {
    var s := p.series.(ccct := p.series.ccct + [r.ccct], cvct := p.series.cvct + [r.cvct]);
    match r.discharge
    case NoDischarge => Progress(s, p.count, false)
    case SingleSample => Progress(s, p.count, true)
    case Measured(cap, hi, res) =>
      Progress(s.(capacities := s.capacities + [cap], health := s.health + [hi],
                  resistance := s.resistance + [res]), p.count + 1, false)
  }

  /** The per-cycle loop over `records`, stopping at the first exception. */
  function Run(p: Progress, records: seq<CycleRecord>): (q: Progress)
    ensures p.failed ==> q == p
    ensures Extends(p.series, q.series)
    ensures q.count >= p.count
    decreases |records|
  {
    if |records| == 0 || p.failed then p else Run(Record(p, records[0]), records[1..])
  }

  /** The lists the caller passes to `process_battery_data` and then to `aggregate_data`. */
  class FeatureLists {
    var capacities: seq<real>
    var health: seq<real>
    var resistance: seq<real>
    var ccct: seq<Option<real>>
    var cvct: seq<Option<real>>

    constructor ()
      ensures Contents() == Series([], [], [], [], [])
    {
      capacities, health, resistance, ccct, cvct := [], [], [], [], [];
    }

    function Contents(): Series
      reads this
    {
      Series(capacities, health, resistance, ccct, cvct)
    }
  }

  /** `process_battery_data`, with the class counter `count` passed in and returned.
      `ok` is false where the source raises IndexError (a cycle with one discharge row);
      the lists then keep what was appended before the exception. */
  method ProcessBatteryData(rows: seq<Row>, cycles: seq<int>, lists: FeatureLists, count: nat)
    returns (newCount: nat, ok: bool)
    requires ListsEachCycleOnce(rows, cycles)
    modifies lists
    ensures Run(Progress(old(lists.Contents()), count, false), Records(rows, cycles))
         == Progress(lists.Contents(), newCount, !ok)
  {
    ghost var records := Records(rows, cycles);
    ghost var start := Progress(old(lists.Contents()), count, false);
    newCount, ok := count, true;
    var k := 0;
    while k < |cycles|
      invariant 0 <= k <= |cycles|
      invariant Run(Progress(lists.Contents(), newCount, false), records[k..]) == Run(start, records)
    {
      ghost var before := Progress(lists.Contents(), newCount, false);
      RunUnfold(before, records, k);
      assert records[k] == FeaturesOfCycle(rows, cycles[k]);
      newCount, ok := ProcessCycle(rows, cycles[k], lists, newCount);
      if !ok {
        return;
      }
      k := k + 1;
    }
  }

  /** The running loop over the remaining records takes one step. */
  lemma {:induction false} RunUnfold(p: Progress, records: seq<CycleRecord>, k: nat)
    requires k < |records| && !p.failed
    ensures Run(p, records[k..]) == Run(Record(p, records[k]), records[k + 1..])
  {
    assert records[k..][1..] == records[k + 1..];
  }

  /** The body of the per-cycle loop of `process_battery_data` for cycle `c`. */
  method ProcessCycle(rows: seq<Row>, c: int, lists: FeatureLists, count: nat)
    returns (newCount: nat, ok: bool)
    modifies lists
    ensures Progress(lists.Contents(), newCount, !ok)
         == Record(Progress(old(lists.Contents()), count, false), FeaturesOfCycle(rows, c))
  {
    ghost var record := FeaturesOfCycle(rows, c);
    ghost var before := lists.Contents();
    var dfCc := Select(rows, c, ConstantCurrentStep);
    var dfCv := Select(rows, c, ConstantVoltageStep);
    var ccct, cvct := PhaseDuration(Times(dfCc)), PhaseDuration(Times(dfCv));
    lists.ccct := lists.ccct + [ccct];
    lists.cvct := lists.cvct + [cvct];
    var dfD := Select(rows, c, DischargeStep);
    var discharge := DischargeFeatures(dfD);
    assert record == CycleRecord(ccct, cvct, discharge);
    ghost var durations := before.(ccct := before.ccct + [ccct], cvct := before.cvct + [cvct]);
    assert lists.Contents() == durations;
    newCount, ok := count, true;
    match discharge
    case NoDischarge =>
    case SingleSample =>
      ok := false;  // `discharge_capacity[-1]` of an empty cumsum raises IndexError
    case Measured(capacity, health, resistance) =>
      lists.capacities := lists.capacities + [capacity];
      lists.health := lists.health + [health];
      lists.resistance := lists.resistance + [resistance];
      newCount := newCount + 1;
      assert lists.Contents() == durations.(capacities := durations.capacities + [capacity],
        health := durations.health + [health], resistance := durations.resistance + [resistance]);
  }

  // ---------------------------------------------------------------------------
  // Discharge capacity

  /** The charge the discharge samples record, sum over j = 1 .. n-1 of
      (t[j] - t[j-1]) * I[j] / 3600 ampere-hours. */
  function ChargeMoved(d: seq<Row>): real
    decreases |d|
  {
    if |d| < 2 then 0.0
    else ChargeMoved(d[..|d| - 1]) + ChargeStep(d[|d| - 2], d[|d| - 1])
  }

  /** The charge moved between two consecutive samples, at the later sample's current. */
  function ChargeStep(prev: Row, next: Row): real
  {
    (next.time - prev.time) * next.current / SecondsPerHour
  }

  /** `np.sum(np.diff(t) * c[1:] / 3600)` is the charge moved. */
  lemma {:induction false} IncrementsSumToChargeMoved(d: seq<Row>)
    ensures Sum(Increments(Times(d), Currents(d))) == ChargeMoved(d)
    decreases |d|
  {
    if |d| >= 2 {
      var n := |d|;
      var init := d[..n - 1];
      IncrementsSumToChargeMoved(init);
      var inc := Increments(Times(d), Currents(d));
      IncrementsPrefix(d, n - 1);
      LastIncrement(d);
      assert init[n - 2] == d[n - 2];
    }
  }

  /** The last increment is the charge moved between the last two samples. */
  lemma {:induction false} LastIncrement(d: seq<Row>)
    requires |d| >= 2
    ensures Increments(Times(d), Currents(d))[|d| - 2] == ChargeStep(d[|d| - 2], d[|d| - 1])
  {
  }

  /** The increments of a prefix are a prefix of the increments. */
  lemma {:induction false} IncrementsPrefix(d: seq<Row>, m: nat)
    requires 1 <= m <= |d|
    ensures Increments(Times(d[..m]), Currents(d[..m])) == Increments(Times(d), Currents(d))[..m - 1]
  {
    var pre := d[..m];
    var a, b := Increments(Times(pre), Currents(pre)), Increments(Times(d), Currents(d));
    forall j | 0 <= j < m - 1
      ensures a[j] == b[j]
    {
      assert pre[j] == d[j] && pre[j + 1] == d[j + 1];
    }
  }

  /** Entry k of the cumulative series is the charge moved up to discharge sample k + 1. */
  lemma {:induction false} CumulativeIsChargeMoved(d: seq<Row>, k: nat)
    requires k + 1 < |d|
    ensures Cumulative(d)[k] == ChargeMoved(d[..k + 2])
  {
    var inc := Increments(Times(d), Currents(d));
    CumSumAt(inc, k);
    IncrementsPrefix(d, k + 2);
    IncrementsSumToChargeMoved(d[..k + 2]);
  }

  /** The capacity appended for a cycle with n >= 2 discharge samples is the negated
      charge moved, -sum_{j=1}^{n-1} (t[j] - t[j-1]) * I[j] / 3600. */
  lemma {:induction false} DischargeCapacityIsChargeMoved(d: seq<Row>)
    requires |d| >= 2
    ensures DischargeFeatures(d).Measured?
    ensures DischargeFeatures(d).capacity == -ChargeMoved(d)
  {
    CumulativeIsChargeMoved(d, |d| - 2);
    assert d[..|d|] == d;
  }

  /** Under a constant current the charge moved telescopes to I * (t_last - t_first) / 3600. */
  lemma {:induction false} ConstantCurrentChargeMoved(d: seq<Row>, current: real)
    requires |d| >= 1
    requires forall k :: 0 <= k < |d| ==> d[k].current == current
    ensures ChargeMoved(d) == current * (d[|d| - 1].time - d[0].time) / SecondsPerHour
    decreases |d|
  {
    if |d| >= 2 {
      var n := |d|;
      ConstantCurrentChargeMoved(d[..n - 1], current);
      assert current * (d[n - 2].time - d[0].time) + (d[n - 1].time - d[n - 2].time) * current
          == current * (d[n - 1].time - d[0].time);
    }
  }

  /** A discharge at constant current I over t_first .. t_last has capacity
      -I * (t_last - t_first) / 3600. */
  lemma {:induction false} ConstantCurrentCapacity(d: seq<Row>, current: real)
    requires |d| >= 2
    requires forall k :: 0 <= k < |d| ==> d[k].current == current
    ensures DischargeFeatures(d).Measured?
    ensures DischargeFeatures(d).capacity == -(current * (d[|d| - 1].time - d[0].time) / SecondsPerHour)
  {
    DischargeCapacityIsChargeMoved(d);
    ConstantCurrentChargeMoved(d, current);
  }

  /** A constant -2 A discharge over 3600 s yields a capacity of 2.0 Ah. */
  lemma {:induction false} TwoAmpsForOneHour(d: seq<Row>)
    requires |d| >= 2
    requires forall k :: 0 <= k < |d| ==> d[k].current == -2.0
    requires d[|d| - 1].time - d[0].time == 3600.0
    ensures DischargeFeatures(d).Measured?
    ensures DischargeFeatures(d).capacity == 2.0
  {
    ConstantCurrentCapacity(d, -2.0);
  }

  lemma {:induction false} NonPositiveTerm(dt: real, current: real)
    requires dt >= 0.0 && current <= 0.0
    ensures dt * current / SecondsPerHour <= 0.0
  {
    assert dt * current <= 0.0;
  }

  /** Samples in time order with non-positive current move non-positive charge. */
  lemma {:induction false} ChargeMovedNonPositive(d: seq<Row>)
    requires forall p, q :: 0 <= p < q < |d| ==> d[p].time <= d[q].time
    requires forall k :: 0 <= k < |d| ==> d[k].current <= 0.0
    ensures ChargeMoved(d) <= 0.0
    decreases |d|
  {
    if |d| >= 2 {
      var n := |d|;
      ChargeMovedNonPositive(d[..n - 1]);
      NonPositiveTerm(d[n - 1].time - d[n - 2].time, d[n - 1].current);
    }
  }

  /** With the cycler's sign convention (discharge current negative) and samples in
      time order, the sign-corrected capacity is non-negative. */
  lemma {:induction false} CapacityNonNegative(d: seq<Row>)
    requires |d| >= 2
    requires TimeOrdered(d)
    requires forall k :: 0 <= k < |d| ==> d[k].current <= 0.0
    ensures DischargeFeatures(d).Measured?
    ensures DischargeFeatures(d).capacity >= 0.0
  {
    DischargeCapacityIsChargeMoved(d);
    ChargeMovedNonPositive(d);
  }

  /** The same for a cycle of a whole time-ordered sheet whose discharge rows draw current:
      the cycle's step-7 rows keep the sheet's time order, so its capacity is non-negative. */
  lemma {:induction false} SheetCapacityNonNegative(rows: seq<Row>, c: int)
    requires TimeOrdered(rows)
    requires forall r :: r in rows && r.step == DischargeStep ==> r.current <= 0.0
    requires |Select(rows, c, DischargeStep)| >= 2
    ensures FeaturesOfCycle(rows, c).discharge.Measured?
    ensures FeaturesOfCycle(rows, c).discharge.capacity >= 0.0
  {
    var d := Select(rows, c, DischargeStep);
    SelectKeepsTimeOrder(rows, c, DischargeStep);
    forall k | 0 <= k < |d|
      ensures d[k].current <= 0.0
    {
      assert d[k] in d;
    }
    CapacityNonNegative(d);
  }

  // ---------------------------------------------------------------------------
  // Health indicator and resistance

  /** `k` is the first index of `v` at least as near to `target` as every other. */
  predicate FirstNearest(v: seq<real>, target: real, k: nat)
  {
    && k < |v|
    && (forall j :: 0 <= j < |v| ==> Abs(v[k] - target) <= Abs(v[j] - target))
    && (forall j :: 0 <= j < k ==> Abs(v[k] - target) < Abs(v[j] - target))
  }

  lemma {:induction false} FirstNearestUnique(v: seq<real>, target: real, k1: nat, k2: nat)
    requires FirstNearest(v, target, k1) && FirstNearest(v, target, k2)
    ensures k1 == k2
  {
    var d1, d2 := Abs(v[k1] - target), Abs(v[k2] - target);
    assert d1 <= d2 && d2 <= d1;
  }

  /** The health indicator is the charge moved up to the sample nearest 3.4 V minus the
      charge moved up to the sample nearest 3.8 V, where "nearest" is taken over
      voltage samples 2..n (those the cumulative series is aligned with), first one on ties. */
  lemma {:induction false} HealthIndicatorBetweenMarkers(d: seq<Row>, a34: nat, a38: nat)
    requires |d| >= 2
    requires FirstNearest(Voltages(d)[1..], LowerMarker, a34)
    requires FirstNearest(Voltages(d)[1..], UpperMarker, a38)
    ensures DischargeFeatures(d).Measured?
    ensures DischargeFeatures(d).health == ChargeMoved(d[..a34 + 2]) - ChargeMoved(d[..a38 + 2])
  {
    var v := Voltages(d)[1..];
    FirstNearestUnique(v, LowerMarker, a34, ArgMinDistance(v, LowerMarker));
    FirstNearestUnique(v, UpperMarker, a38, ArgMinDistance(v, UpperMarker));
    CumulativeIsChargeMoved(d, a34);
    CumulativeIsChargeMoved(d, a38);
  }

  /** The resistance feature is the arithmetic mean of the discharge samples' internal
      resistance, so it lies between their minimum and maximum. */
  lemma {:induction false} ResistanceIsMeanOfSamples(d: seq<Row>)
    requires |d| >= 2
    ensures DischargeFeatures(d).Measured?
    ensures DischargeFeatures(d).resistance == Sum(Resistances(d)) / (|d| as real)
    ensures MinOf(Resistances(d)) <= DischargeFeatures(d).resistance <= MaxOf(Resistances(d))
  {
    MeanBetweenMinAndMax(Resistances(d));
  }

  // ---------------------------------------------------------------------------
  // Length bookkeeping of the per-cycle loop

  /** The series one batch of records appends, list by list. */
  function Join(s: Series, t: Series): Series
  {
    Series(s.capacities + t.capacities, s.health + t.health, s.resistance + t.resistance,
           s.ccct + t.ccct, s.cvct + t.cvct)
  }

  /** What one record appends. */
  function Own(r: CycleRecord): Series
  {
    match r.discharge
    case Measured(cap, hi, res) => Series([cap], [hi], [res], [r.ccct], [r.cvct])
    case _ => Series([], [], [], [r.ccct], [r.cvct])
  }

  /** What a run over `records` appends when it raises nothing. */
  function Appended(records: seq<CycleRecord>): Series
    decreases |records|
  {
    if |records| == 0 then Series([], [], [], [], []) else Join(Own(records[0]), Appended(records[1..]))
  }

  /** The records whose cycle had at least two discharge rows, in order. */
  function MeasuredRecords(records: seq<CycleRecord>): (m: seq<CycleRecord>)
    ensures forall k :: 0 <= k < |m| ==> m[k].discharge.Measured?
    decreases |records|
  {
    if |records| == 0 then []
    else (if records[0].discharge.Measured? then [records[0]] else []) + MeasuredRecords(records[1..])
  }

  /** A run that raises nothing appends exactly `Appended(records)` and advances the
      counter by the number of discharge cycles. */
  lemma {:induction false} RunAppends(p: Progress, records: seq<CycleRecord>)
    requires !p.failed
    requires !Run(p, records).failed
    ensures Run(p, records) == Progress(Join(p.series, Appended(records)), p.count + |Appended(records).capacities|, false)
    decreases |records|
  {
    if |records| > 0 {
      var q := Record(p, records[0]);
      assert q == Progress(Join(p.series, Own(records[0])), p.count + |Own(records[0]).capacities|, false);
      RunAppends(q, records[1..]);
      JoinAssociative(p.series, Own(records[0]), Appended(records[1..]));
    }
  }

  lemma {:induction false} JoinAssociative(s: Series, t: Series, u: Series)
    ensures Join(Join(s, t), u) == Join(s, Join(t, u))
  {
    assert (s.capacities + t.capacities) + u.capacities == s.capacities + (t.capacities + u.capacities);
    assert (s.health + t.health) + u.health == s.health + (t.health + u.health);
    assert (s.resistance + t.resistance) + u.resistance == s.resistance + (t.resistance + u.resistance);
    assert (s.ccct + t.ccct) + u.ccct == s.ccct + (t.ccct + u.ccct);
    assert (s.cvct + t.cvct) + u.cvct == s.cvct + (t.cvct + u.cvct);
  }

  /** A run raises exactly when some cycle has a single discharge row. */
  lemma {:induction false} RunFailsOnSingleSample(p: Progress, records: seq<CycleRecord>)
    requires !p.failed
    ensures Run(p, records).failed <==> exists k :: 0 <= k < |records| && records[k].discharge.SingleSample?
    decreases |records|
  {
    if |records| > 0 {
      var q := Record(p, records[0]);
      if !q.failed {
        RunFailsOnSingleSample(q, records[1..]);
        if exists k :: 0 <= k < |records[1..]| && records[1..][k].discharge.SingleSample? {
          var k :| 0 <= k < |records[1..]| && records[1..][k].discharge.SingleSample?;
          assert records[k + 1] == records[1..][k];
        }
        if exists k :: 0 <= k < |records| && records[k].discharge.SingleSample? {
          var k :| 0 <= k < |records| && records[k].discharge.SingleSample?;
          assert k > 0;
          assert records[1..][k - 1] == records[k];
        }
      }
    }
  }

  /** CCCT and CVCT get one entry per cycle, in cycle order; capacity, health indicator
      and resistance get one entry per discharge cycle, those of the discharge cycles in order. */
  lemma {:induction false} AppendedShape(records: seq<CycleRecord>)
    ensures var a := Appended(records);
      && |a.ccct| == |records| && |a.cvct| == |records|
      && (forall k :: 0 <= k < |records| ==> a.ccct[k] == records[k].ccct && a.cvct[k] == records[k].cvct)
      && |a.capacities| == |MeasuredRecords(records)|
      && |a.health| == |a.capacities| && |a.resistance| == |a.capacities|
      && |a.capacities| <= |records|
      && (forall k :: 0 <= k < |a.capacities| ==>
            a.capacities[k] == MeasuredRecords(records)[k].discharge.capacity &&
            a.health[k] == MeasuredRecords(records)[k].discharge.health &&
            a.resistance[k] == MeasuredRecords(records)[k].discharge.resistance)
  {
    AppendedDurations(records);
    AppendedDischarges(records);
    var a, m := Appended(records), MeasuredRecords(records);
    assert DischargeColumns(a, m);
  }

  /** The CCCT and CVCT columns: one entry per cycle, in cycle order. */
  lemma {:induction false} AppendedDurations(records: seq<CycleRecord>)
    ensures var a := Appended(records);
      && |a.ccct| == |records| && |a.cvct| == |records|
      && (forall k :: 0 <= k < |records| ==> a.ccct[k] == records[k].ccct && a.cvct[k] == records[k].cvct)
    decreases |records|
  {
    if |records| > 0 {
      var tail := records[1..];
      AppendedDurations(tail);
      var a, rest := Appended(records), Appended(tail);
      assert a.ccct == [records[0].ccct] + rest.ccct;
      assert a.cvct == [records[0].cvct] + rest.cvct;
      forall k | 0 < k < |records|
        ensures a.ccct[k] == records[k].ccct && a.cvct[k] == records[k].cvct
      {
        assert tail[k - 1] == records[k];
      }
    }
  }

  /** Columns `a` hold the capacity, health indicator and resistance of the records `m`, in order. */
  predicate DischargeColumns(a: Series, m: seq<CycleRecord>)
  {
    && |a.capacities| == |m| && |a.health| == |m| && |a.resistance| == |m|
    && forall k :: 0 <= k < |m| ==>
         m[k].discharge.Measured? &&
         a.capacities[k] == m[k].discharge.capacity &&
         a.health[k] == m[k].discharge.health &&
         a.resistance[k] == m[k].discharge.resistance
  }

  /** The capacity, health indicator and resistance columns: one entry per discharge
      cycle, in order. */
  lemma {:induction false} AppendedDischarges(records: seq<CycleRecord>)
    ensures DischargeColumns(Appended(records), MeasuredRecords(records))
    ensures |MeasuredRecords(records)| <= |records|
    decreases |records|
  {
    if |records| > 0 {
      var tail := records[1..];
      AppendedDischarges(tail);
      if records[0].discharge.Measured? {
        PrependMeasured(records[0], Appended(tail), MeasuredRecords(tail));
      } else {
        PrependUnmeasured(records[0], Appended(tail), MeasuredRecords(tail));
      }
    }
  }

  /** A cycle without discharge values in front leaves those columns as they are. */
  lemma {:induction false} PrependUnmeasured(r: CycleRecord, rest: Series, m: seq<CycleRecord>)
    requires !r.discharge.Measured? && DischargeColumns(rest, m)
    ensures DischargeColumns(Join(Own(r), rest), m)
  {
    var a := Join(Own(r), rest);
    assert a.capacities == rest.capacities && a.health == rest.health && a.resistance == rest.resistance;
  }

  /** A discharge cycle in front adds its values in front of each column. */
  lemma {:induction false} PrependMeasured(r: CycleRecord, rest: Series, m: seq<CycleRecord>)
    requires r.discharge.Measured? && DischargeColumns(rest, m)
    ensures DischargeColumns(Join(Own(r), rest), [r] + m)
  {
    var a, m' := Join(Own(r), rest), [r] + m;
    forall k | 0 < k < |m'|
      ensures a.capacities[k] == m'[k].discharge.capacity && a.health[k] == m'[k].discharge.health
        && a.resistance[k] == m'[k].discharge.resistance
    {
      assert m'[k] == m[k - 1];
    }
  }

  /** The list lengths `aggregate_data` relies on: capacity, health indicator and
      resistance equally long, CCCT and CVCT equally long and never shorter. */
  predicate LengthsAligned(s: Series)
  {
    && |s.health| == |s.capacities| && |s.resistance| == |s.capacities|
    && |s.cvct| == |s.ccct| && |s.capacities| <= |s.ccct|
  }

  /** Every run, even one that raises, keeps the lengths aligned and keeps the counter
      exactly `count - len(capacities)` ahead of the capacity list. */
  lemma {:induction false} RunKeepsLengthsAligned(p: Progress, records: seq<CycleRecord>)
    requires LengthsAligned(p.series)
    ensures LengthsAligned(Run(p, records).series)
    ensures Run(p, records).count - |Run(p, records).series.capacities| == p.count - |p.series.capacities|
    decreases |records|
  {
    if |records| > 0 && !p.failed {
      RunKeepsLengthsAligned(Record(p, records[0]), records[1..]);
    }
  }

  // ---------------------------------------------------------------------------
  // aggregate_data

  /** One row of the table `aggregate_data` builds. */
  datatype FeatureRow = FeatureRow(cycle: nat, capacity: real, soh: real, resistance: real,
                                   ccct: Option<real>, cvct: Option<real>)

  /** Position `j` exists in all five lists. */
  predicate InAllLists(s: Series, j: nat)
  {
    j < |s.capacities| && j < |s.health| && j < |s.resistance| && j < |s.ccct| && j < |s.cvct|
  }

  /** `aggregate_data`: the `drop_outlier` index set selects every list at the same
      positions and the rows are renumbered 1..N. None where numpy raises IndexError:
      an empty index set (its float-typed array cannot index) or a position past a list. */
  function AggregateData(s: Series, count: int): (r: Option<seq<FeatureRow>>)
    ensures var idx := OutlierFilter.Kept(s.capacities, count, OutlierBins);
      r.Some? <==> |idx| > 0 && forall k :: 0 <= k < |idx| ==> InAllLists(s, idx[k])
    ensures var idx := OutlierFilter.Kept(s.capacities, count, OutlierBins);
      r.Some? ==> |r.value| == |idx| && forall k :: 0 <= k < |r.value| ==>
        InAllLists(s, idx[k]) && r.value[k].cycle == k + 1 &&
        r.value[k].capacity == s.capacities[idx[k]] && r.value[k].soh == s.health[idx[k]] &&
        r.value[k].resistance == s.resistance[idx[k]] &&
        r.value[k].ccct == s.ccct[idx[k]] && r.value[k].cvct == s.cvct[idx[k]]
  {
    var idx := OutlierFilter.Kept(s.capacities, count, OutlierBins);
    if |idx| == 0 || exists k :: 0 <= k < |idx| && !InAllLists(s, idx[k]) then None
    else Some(seq(|idx|, k requires 0 <= k < |idx| =>
      FeatureRow(k + 1, s.capacities[idx[k]], s.health[idx[k]], s.resistance[idx[k]],
                 s.ccct[idx[k]], s.cvct[idx[k]])))
  }

  /** Lists built by `process_battery_data` are always selectable: the table exists
      exactly when `drop_outlier` keeps at least one index. */
  lemma {:induction false} AggregateDefinedIffKept(s: Series, count: int)
    requires LengthsAligned(s)
    ensures AggregateData(s, count).Some? <==> |OutlierFilter.Kept(s.capacities, count, OutlierBins)| > 0
  {
    var idx := OutlierFilter.Kept(s.capacities, count, OutlierBins);
    forall k | 0 <= k < |idx|
      ensures InAllLists(s, idx[k])
    {
      OutlierFilter.KeptBounds(s.capacities, count, OutlierBins, idx[k]);
    }
  }

  /** The table has one row per kept index, cycles numbered 1..N, rows in their original
      order, and each row's capacity is an inlier of its processed window. */
  lemma {:induction false} AggregateRowsAreInliers(s: Series, count: int)
    requires AggregateData(s, count).Some?
    ensures var rows := AggregateData(s, count).value;
      var idx := OutlierFilter.Kept(s.capacities, count, OutlierBins);
      && |rows| == |idx| > 0
      && (forall k :: 0 <= k < |rows| ==> rows[k].cycle == k + 1)
      && OutlierFilter.Increasing(idx)
      && (forall k :: 0 <= k < |rows| ==>
            1 <= idx[k] < |s.capacities| &&
            rows[k].capacity == s.capacities[idx[k]] &&
            OutlierFilter.PassesWindowTest(s.capacities, OutlierFilter.WindowStart(idx[k], OutlierBins), OutlierBins, idx[k]))
  {
    OutlierFilter.KeptIncreasing(s.capacities, count, OutlierBins);
    OutlierFilter.KeptSoundAll(s.capacities, count, OutlierBins);
  }

  // ---------------------------------------------------------------------------
  // Alignment of the duration columns

  /** Every record measured: the filter keeps them all. */
  lemma {:induction false} MeasuredRecordsOfMeasured(records: seq<CycleRecord>)
    requires forall k :: 0 <= k < |records| ==> records[k].discharge.Measured?
    ensures MeasuredRecords(records) == records
    decreases |records|
  {
    if |records| > 0 {
      MeasuredRecordsOfMeasured(records[1..]);
      assert records == [records[0]] + records[1..];
    }
  }

  /** `aggregate_data` indexes the CCCT and CVCT lists, which have an entry for every
      cycle, with positions in the capacity list, which has one only for discharge cycles.
      When every cycle but the first has discharge rows, every row pairs the capacity,
      health indicator and resistance of cycle j + 1 with the CC and CV durations of cycle j. */
  lemma {:induction false} DurationsShiftedAfterChargeOnlyCycle(records: seq<CycleRecord>, count: int)
    requires |records| >= 1 && MeasuredRecords(records) == records[1..]
    requires AggregateData(Appended(records), count).Some?
    ensures var rows := AggregateData(Appended(records), count).value;
      var idx := OutlierFilter.Kept(Appended(records).capacities, count, OutlierBins);
      forall k :: 0 <= k < |rows| ==>
        idx[k] + 1 < |records| &&
        rows[k].capacity == records[idx[k] + 1].discharge.capacity &&
        rows[k].ccct == records[idx[k]].ccct && rows[k].cvct == records[idx[k]].cvct
  {
    AppendedShape(records);
  }

  /** The premise of the lemma above: the first cycle only charges, every later one discharges. */
  lemma {:induction false} ChargeOnlyFirstCycle(records: seq<CycleRecord>)
    requires |records| >= 1 && !records[0].discharge.Measured?
    requires forall k :: 1 <= k < |records| ==> records[k].discharge.Measured?
    ensures MeasuredRecords(records) == records[1..]
  {
    var tail := records[1..];
    forall k | 0 <= k < |tail|
      ensures tail[k].discharge.Measured?
    {
      assert tail[k] == records[k + 1];
    }
    MeasuredRecordsOfMeasured(tail);
  }

  /** One table row built from one cycle's record. */
  function RowOf(cycle: nat, r: CycleRecord): FeatureRow
    requires r.discharge.Measured?
  {
    FeatureRow(cycle, r.discharge.capacity, r.discharge.health, r.discharge.resistance, r.ccct, r.cvct)
  }

  /** The capacities of the discharge cycles, in order. */
  function MeasuredCapacities(m: seq<CycleRecord>): (caps: seq<real>)
    requires forall k :: 0 <= k < |m| ==> m[k].discharge.Measured?
    ensures |caps| == |m|
  {
    seq(|m|, k requires 0 <= k < |m| => m[k].discharge.capacity)
  }

  /** `aggregate_data` with the duration columns taken from the same cycles as the
      capacity column: only discharge cycles contribute rows, each row whole. */
  function AggregateAligned(records: seq<CycleRecord>, count: int): Option<seq<FeatureRow>>
  {
    AlignedTable(MeasuredRecords(records), count)
  }

  /** The table over the discharge cycles `m`: the rows of the records `drop_outlier`
      keeps, numbered 1..N. */
  function AlignedTable(m: seq<CycleRecord>, count: int): Option<seq<FeatureRow>>
    requires forall k :: 0 <= k < |m| ==> m[k].discharge.Measured?
  {
    var idx := OutlierFilter.Kept(MeasuredCapacities(m), count, OutlierBins);
    if |idx| == 0 then None
    else Some(seq(|idx|, k requires 0 <= k < |idx| => RowOf(k + 1, m[idx[k]])))
  }

  /** Row k of the corrected table is the record at the k-th kept index. */
  lemma {:induction false} AlignedRowAt(m: seq<CycleRecord>, count: int, k: nat)
    requires forall j :: 0 <= j < |m| ==> m[j].discharge.Measured?
    requires AlignedTable(m, count).Some? && k < |AlignedTable(m, count).value|
    ensures var idx := OutlierFilter.Kept(MeasuredCapacities(m), count, OutlierBins);
      k < |idx| && idx[k] < |m| && AlignedTable(m, count).value[k] == RowOf(k + 1, m[idx[k]])
  {
  }

  /** The discharge cycles are cycles of the run. */
  lemma {:induction false} MeasuredRecordsAreRecords(records: seq<CycleRecord>)
    ensures forall r :: r in MeasuredRecords(records) ==> r in records
    decreases |records|
  {
    if |records| > 0 {
      MeasuredRecordsAreRecords(records[1..]);
    }
  }

  /** `row` is row number `k + 1` built from one discharge cycle of `records`. */
  predicate RowFromOneCycle(row: FeatureRow, k: nat, records: seq<CycleRecord>)
  {
    exists r :: r in records && r.discharge.Measured? && row == RowOf(k + 1, r)
  }

  /** Each row of the corrected table is one discharge cycle's record, whole. */
  lemma {:induction false} AlignedRowsDescribeOneCycle(records: seq<CycleRecord>, count: int)
    requires AggregateAligned(records, count).Some?
    ensures var rows := AggregateAligned(records, count).value;
      forall k :: 0 <= k < |rows| ==> RowFromOneCycle(rows[k], k, records)
  {
    var m := MeasuredRecords(records);
    var idx := OutlierFilter.Kept(MeasuredCapacities(m), count, OutlierBins);
    var rows := AggregateAligned(records, count).value;
    MeasuredRecordsAreRecords(records);
    forall k | 0 <= k < |rows|
      ensures RowFromOneCycle(rows[k], k, records)
    {
      AlignedRowAt(m, count, k);
      var r := m[idx[k]];
      assert r in m;
    }
  }

  /** When every cycle has discharge rows the two tables coincide. */
  lemma {:induction false} AlignedAgreesWhenEveryCycleDischarges(records: seq<CycleRecord>, count: int)
    requires forall k :: 0 <= k < |records| ==> records[k].discharge.Measured?
    ensures AggregateAligned(records, count) == AggregateData(Appended(records), count)
  {
    MeasuredRecordsOfMeasured(records);
    AppendedDurations(records);
    AppendedDischarges(records);
    TablesAgree(records, Appended(records), count);
  }

  /** Columns that hold, position by position, the values of the discharge cycles `m`
      give the same table whether selected column by column or record by record. */
  lemma {:induction false} TablesAgree(m: seq<CycleRecord>, s: Series, count: int)
    requires DischargeColumns(s, m)
    requires |s.ccct| == |m| && |s.cvct| == |m|
    requires forall k :: 0 <= k < |m| ==> s.ccct[k] == m[k].ccct && s.cvct[k] == m[k].cvct
    ensures AlignedTable(m, count) == AggregateData(s, count)
  {
    assert MeasuredCapacities(m) == s.capacities;
    var idx := OutlierFilter.Kept(s.capacities, count, OutlierBins);
    assert forall k :: 0 <= k < |idx| ==> InAllLists(s, idx[k]);
    if |idx| > 0 {
      RowsAgree(m, s, count);
    }
  }

  /** The rows of the two tables, when there are any. */
  lemma {:induction false} RowsAgree(m: seq<CycleRecord>, s: Series, count: int)
    requires DischargeColumns(s, m)
    requires |s.ccct| == |m| && |s.cvct| == |m|
    requires forall k :: 0 <= k < |m| ==> s.ccct[k] == m[k].ccct && s.cvct[k] == m[k].cvct
    requires MeasuredCapacities(m) == s.capacities
    requires AggregateData(s, count).Some?
    ensures AlignedTable(m, count).Some?
    ensures AlignedTable(m, count).value == AggregateData(s, count).value
  {
    var idx := OutlierFilter.Kept(s.capacities, count, OutlierBins);
    var aligned, data := AlignedTable(m, count).value, AggregateData(s, count).value;
    forall k | 0 <= k < |idx|
      ensures aligned[k] == data[k]
    {
      AlignedRowAt(m, count, k);
    }
  }
}
