/**
 * The record filters over a NASA battery's cycle list: `getBatteryValues` keeps the
 * data of the records of one type; `getBatteryCapacity` numbers the discharge records
 * 1..n and reads each one's first `Capacity` sample.
 */
module NasaRecords {
  import opened Wrappers

  /** One entry of the cycle list: its `type` and its `data` fields. */
  datatype Record = Record(kind: string, data: map<string, seq<real>>)

  /** The positions of the records of type `kind`, in order. */
  function Positions(battery: seq<Record>, kind: string): seq<nat>
    decreases |battery|
  {
    if |battery| == 0 then []
    else Positions(battery[..|battery| - 1], kind) + (if battery[|battery| - 1].kind == kind then [|battery| - 1] else [])
  }

  /** The positions are ascending and are exactly those of the records of type `kind`. */
  lemma {:induction false} PositionsSpec(battery: seq<Record>, kind: string)
    ensures forall p, q :: 0 <= p < q < |Positions(battery, kind)| ==> Positions(battery, kind)[p] < Positions(battery, kind)[q]
    ensures forall k :: 0 <= k < |Positions(battery, kind)| ==> Positions(battery, kind)[k] < |battery|
    ensures forall j :: j in Positions(battery, kind) <==> 0 <= j < |battery| && battery[j].kind == kind
    decreases |battery|
  {
    if |battery| > 0 {
      var init := battery[..|battery| - 1];
      PositionsSpec(init, kind);
      forall j | 0 <= j < |init|
        ensures init[j] == battery[j]
      {
      }
    }
  }

  /** The data of the records of type `kind`, in order. */
  function Filtered(battery: seq<Record>, kind: string): (r: seq<map<string, seq<real>>>)
    ensures |r| == |Positions(battery, kind)|
    decreases |battery|
  {
    if |battery| == 0 then []
    else Filtered(battery[..|battery| - 1], kind) + (if battery[|battery| - 1].kind == kind then [battery[|battery| - 1].data] else [])
  }

  /** Entry k of the filtered list is the data of the k-th record of that type. */
  lemma {:induction false} FilteredAtPositions(battery: seq<Record>, kind: string)
    ensures |Filtered(battery, kind)| == |Positions(battery, kind)|
    ensures forall k :: 0 <= k < |Positions(battery, kind)| ==>
      Positions(battery, kind)[k] < |battery| &&
      Filtered(battery, kind)[k] == battery[Positions(battery, kind)[k]].data
    decreases |battery|
  {
    PositionsSpec(battery, kind);
    if |battery| > 0 {
      var init := battery[..|battery| - 1];
      FilteredAtPositions(init, kind);
      PositionsSpec(init, kind);
      forall k | 0 <= k < |Positions(init, kind)|
        ensures Filtered(battery, kind)[k] == battery[Positions(battery, kind)[k]].data
      {
        assert Positions(battery, kind)[k] == Positions(init, kind)[k];
        assert init[Positions(init, kind)[k]] == battery[Positions(init, kind)[k]];
      }
    }
  }

  /** The default `Type` of `getBatteryValues`. */
  const DefaultKind: string := "charge"

  /** `getBatteryValues`: the data of every record of type `kind`, in order. */
  method GetBatteryValues(battery: seq<Record>, kind: string) returns (data: seq<map<string, seq<real>>>)
    ensures data == Filtered(battery, kind)
  {
    data := [];
    for k := 0 to |battery|
      invariant data == Filtered(battery[..k], kind)
    {
      if battery[k].kind == kind {
        data := data + [battery[k].data];
      }
      assert battery[..k + 1][..k] == battery[..k];
    }
    assert battery[..|battery|] == battery;
  }

  /** `Bat['data']['Capacity'][0]` can be read. */
  predicate HasCapacity(r: Record)
  {
    "Capacity" in r.data && |r.data["Capacity"]| > 0
  }

  /** The discharge capacities, or None where `['Capacity'][0]` raises KeyError or IndexError. */
  function Capacities(battery: seq<Record>): (r: Option<seq<real>>)
    ensures r.Some? ==> |r.value| == |Positions(battery, "discharge")|
    decreases |battery|
  {
    if |battery| == 0 then Some([])
    else
      var last := battery[|battery| - 1];
      match Capacities(battery[..|battery| - 1])
      case None => None
      case Some(c) =>
        if last.kind != "discharge" then Some(c)
        else if HasCapacity(last) then Some(c + [last.data["Capacity"][0]])
        else None
  }

  /** The cycle numbers 1..n. */
  function Numbering(n: nat): (r: seq<nat>)
    ensures |r| == n
  {
    seq(n, k requires 0 <= k < n => k + 1)
  }

  /** `getBatteryCapacity`: the discharge records numbered from 1 by a running
      counter, and each one's first capacity sample. */
  method GetBatteryCapacity(battery: seq<Record>) returns (r: Option<(seq<nat>, seq<real>)>)
    ensures Capacities(battery).None? ==> r.None?
    ensures Capacities(battery).Some? ==>
      r == Some((Numbering(|Capacities(battery).value|), Capacities(battery).value))
  {
    var cycle: seq<nat>, capacity: seq<real> := [], [];
    var i := 1;
    for k := 0 to |battery|
      invariant Capacities(battery[..k]).Some?
      invariant capacity == Capacities(battery[..k]).value
      invariant cycle == Numbering(|capacity|) && i == |capacity| + 1
    {
      assert battery[..k + 1][..k] == battery[..k];
      if battery[k].kind == "discharge" {
        if !HasCapacity(battery[k]) {
          CapacitiesStayNone(battery, k + 1);
          return None;
        }
        capacity := capacity + [battery[k].data["Capacity"][0]];
        cycle := cycle + [i];
        i := i + 1;
      }
    }
    assert battery[..|battery|] == battery;
    return Some((cycle, capacity));
  }

  /** Once a prefix fails, the whole list fails. */
  lemma {:induction false} CapacitiesStayNone(battery: seq<Record>, k: nat)
    requires k <= |battery| && Capacities(battery[..k]).None?
    ensures Capacities(battery).None?
    decreases |battery| - k
  {
    if k < |battery| {
      assert battery[..k + 1][..k] == battery[..k];
      CapacitiesStayNone(battery, k + 1);
    } else {
      assert battery[..k] == battery;
    }
  }

  /** The capacities fail exactly when some discharge record has no capacity sample;
      otherwise there is one per discharge record, the first sample of each, in order. */
  lemma {:induction false} CapacitiesSpec(battery: seq<Record>)
    ensures Capacities(battery).None? <==>
      exists j :: 0 <= j < |battery| && battery[j].kind == "discharge" && !HasCapacity(battery[j])
    ensures Capacities(battery).Some? ==>
      var c, pos := Capacities(battery).value, Positions(battery, "discharge");
      && |c| == |pos|
      && forall k :: 0 <= k < |pos| ==>
           pos[k] < |battery| && HasCapacity(battery[pos[k]]) && c[k] == battery[pos[k]].data["Capacity"][0]
    decreases |battery|
  {
    PositionsSpec(battery, "discharge");
    if |battery| > 0 {
      var n := |battery|;
      var init := battery[..n - 1];
      CapacitiesSpec(init);
      PositionsSpec(init, "discharge");
      forall j | 0 <= j < n - 1
        ensures init[j] == battery[j]
      {
      }
      if Capacities(battery).Some? {
        var c, pos := Capacities(battery).value, Positions(battery, "discharge");
        var pInit := Positions(init, "discharge");
        forall k | 0 <= k < |pos|
          ensures pos[k] < |battery| && HasCapacity(battery[pos[k]]) && c[k] == battery[pos[k]].data["Capacity"][0]
        {
          if k < |pInit| {
            assert pos[k] == pInit[k];
          }
        }
      }
    }
  }
}
