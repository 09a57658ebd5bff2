/**
 * The base expansion of `convert_to_triplets`: one {Feature, Cycle, Value, Mask}
 * record per row and feature column of a feature table.
 */
module Triplets {
  import opened Wrappers

  // ---------------------------------------------------------------------------
  // Column names in sorted order, as `Index.difference` returns them

  /** Python's string order: lexicographic by code point, a proper prefix first. */
  predicate Below(a: string, b: string)
    decreases |a|
  {
    |b| > 0 && (|a| == 0 || a[0] < b[0] || (a[0] == b[0] && Below(a[1..], b[1..])))
  }

  lemma {:induction false} BelowIrreflexive(a: string)
    ensures !Below(a, a)
    decreases |a|
  {
    if |a| > 0 {
      BelowIrreflexive(a[1..]);
    }
  }

  lemma {:induction false} BelowTransitive(a: string, b: string, c: string)
    requires Below(a, b) && Below(b, c)
    ensures Below(a, c)
    decreases |a|
  {
    if |a| > 0 && a[0] == b[0] && b[0] == c[0] {
      BelowTransitive(a[1..], b[1..], c[1..]);
    }
  }

  lemma {:induction false} BelowTotal(a: string, b: string)
    requires a != b
    ensures Below(a, b) || Below(b, a)
    decreases |a|
  {
    if |a| > 0 && |b| > 0 && a[0] == b[0] {
      assert a == [a[0]] + a[1..] && b == [b[0]] + b[1..];
      BelowTotal(a[1..], b[1..]);
    }
  }

  /** Strictly ascending in string order, hence without duplicates. */
  predicate Ascending(s: seq<string>)
  {
    forall p, q :: 0 <= p < q < |s| ==> Below(s[p], s[q])
  }

  /** Adds `x` to an ascending list unless it is there already. */
  function Insert(s: seq<string>, x: string): (r: seq<string>)
    ensures |s| <= |r| <= |s| + 1
    decreases |s|
  {
    if |s| == 0 then [x]
    else if x == s[0] then s
    else if Below(x, s[0]) then [x] + s
    else [s[0]] + Insert(s[1..], x)
  }

  lemma {:induction false} InsertMembers(s: seq<string>, x: string)
    ensures forall y :: y in Insert(s, x) <==> y in s || y == x
    decreases |s|
  {
    if |s| > 0 && x != s[0] && !Below(x, s[0]) {
      InsertMembers(s[1..], x);
      assert s == [s[0]] + s[1..];
    }
  }

  lemma {:induction false} InsertAscending(s: seq<string>, x: string)
    requires Ascending(s)
    ensures Ascending(Insert(s, x))
    decreases |s|
  {
    if |s| > 0 && x != s[0] {
      if Below(x, s[0]) {
        var r := [x] + s;
        forall p, q | 0 <= p < q < |r|
          ensures Below(r[p], r[q])
        {
          if p == 0 && q > 1 {
            BelowTransitive(x, s[0], s[q - 1]);
          }
        }
      } else {
        BelowTotal(x, s[0]);
        var rest := Insert(s[1..], x);
        InsertAscending(s[1..], x);
        InsertMembers(s[1..], x);
        forall q | 0 <= q < |rest|
          ensures Below(s[0], rest[q])
        {
          assert rest[q] in rest;
        }
      }
    }
  }

  /** `columns.difference(['cycle', target])`: the columns other than those two,
      deduplicated and sorted. */
  function FeatureColumns(columns: seq<string>, target: string): (r: seq<string>)
    ensures |r| <= |columns|
    decreases |columns|
  {
    if |columns| == 0 then []
    else
      var rest := FeatureColumns(columns[..|columns| - 1], target);
      var c := columns[|columns| - 1];
      if c == "cycle" || c == target then rest else Insert(rest, c)
  }

  /** The feature columns are ascending and are exactly the columns other than
      `cycle` and the target. */
  lemma {:induction false} FeatureColumnsSpec(columns: seq<string>, target: string)
    ensures Ascending(FeatureColumns(columns, target))
    ensures forall c :: c in FeatureColumns(columns, target) <==> c in columns && c != "cycle" && c != target
    decreases |columns|
  {
    if |columns| > 0 {
      var init := columns[..|columns| - 1];
      FeatureColumnsSpec(init, target);
      var c := columns[|columns| - 1];
      assert columns == init + [c];
      if c != "cycle" && c != target {
        InsertAscending(FeatureColumns(init, target), c);
        InsertMembers(FeatureColumns(init, target), c);
      }
    }
  }

  // ---------------------------------------------------------------------------
  // The table and its triplets

  /** A pandas row: column name to value, None for a null. */
  type Row = map<string, Option<real>>

  /** Column names and rows in `iterrows` order. */
  datatype Table = Table(columns: seq<string>, rows: seq<Row>)

  /** Every row carries exactly the table's columns. */
  predicate WellFormed(t: Table)
  {
    forall i :: 0 <= i < |t.rows| ==> t.rows[i].Keys == set c | c in t.columns
  }

  datatype Triplet = Triplet(feature: string, cycle: Option<real>, value: Option<real>, mask: int)

  /** `1 if pd.notnull(value) else 0`. */
  function Mask(v: Option<real>): (m: int)
    ensures m == 1 <==> v.Some?
    ensures m == 0 <==> v.None?
  {
    if v.Some? then 1 else 0
  }

  /** The row can be read at `cycle` and at every feature. */
  predicate Readable(row: Row, features: seq<string>)
  {
    "cycle" in row && forall j :: 0 <= j < |features| ==> features[j] in row
  }

  /** The records of one row, one per feature in order. */
  function RowTriplets(row: Row, features: seq<string>): (r: seq<Triplet>)
    requires Readable(row, features)
    ensures |r| == |features|
    ensures forall j :: 0 <= j < |r| ==> r[j].feature == features[j] && r[j].mask == Mask(r[j].value)
  {
    seq(|features|, j requires 0 <= j < |features| =>
      Triplet(features[j], row["cycle"], row[features[j]], Mask(row[features[j]])))
  }

  /** The base expansion: the records of every row, row after row. */
  function Expansion(rows: seq<Row>, features: seq<string>): (r: seq<Triplet>)
    requires forall i :: 0 <= i < |rows| ==> Readable(rows[i], features)
    ensures forall k :: 0 <= k < |r| ==> r[k].feature in features && r[k].mask == Mask(r[k].value)
    decreases |rows|
  {
    if |rows| == 0 then []
    else Expansion(rows[..|rows| - 1], features) + RowTriplets(rows[|rows| - 1], features)
  }

  /** What `convert_to_triplets` returns: the expansion when within budget; the
      over-budget selection is not modelled; a table with rows but no `cycle`
      column raises KeyError at `row['cycle']`. */
  datatype Encoding = Expanded(triplets: seq<Triplet>) | OverBudget(size: nat) | MissingCycleColumn

  lemma {:induction false} WellFormedReadable(t: Table, target: string)
    requires WellFormed(t) && "cycle" in t.columns
    ensures forall i :: 0 <= i < |t.rows| ==> Readable(t.rows[i], FeatureColumns(t.columns, target))
  {
    FeatureColumnsSpec(t.columns, target);
    var features := FeatureColumns(t.columns, target);
    forall i, j | 0 <= i < |t.rows| && 0 <= j < |features|
      ensures features[j] in t.rows[i]
    {
      assert features[j] in features;
    }
  }

  function Encode(t: Table, target: string, maxTriplets: int): (r: Encoding)
    requires WellFormed(t)
    ensures r.MissingCycleColumn? <==> |t.rows| > 0 && "cycle" !in t.columns
    ensures r.OverBudget? ==> r.size > maxTriplets
    ensures r.Expanded? ==> |r.triplets| <= maxTriplets
  {
    if |t.rows| > 0 && "cycle" !in t.columns then MissingCycleColumn
    else
      var features := FeatureColumns(t.columns, target);
      var x := if |t.rows| == 0 then [] else (WellFormedReadable(t, target); Expansion(t.rows, features));
      if |x| > maxTriplets then OverBudget(|x|) else Expanded(x)
  }

  /** `convert_to_triplets`: for each row, for each feature column, append a record. */
  method ConvertToTriplets(t: Table, target: string, maxTriplets: int) returns (e: Encoding)
    requires WellFormed(t)
    ensures e == Encode(t, target, maxTriplets)
  {
    var features := FeatureColumns(t.columns, target);
    var triplets: seq<Triplet> := [];
    if |t.rows| > 0 && "cycle" !in t.columns {
      return MissingCycleColumn;
    }
    if |t.rows| > 0 {
      WellFormedReadable(t, target);
    }
    for i := 0 to |t.rows|
      invariant triplets == Expansion(t.rows[..i], features)
    {
      var row := t.rows[i];
      var cycle := row["cycle"];
      ghost var before := triplets;
      for j := 0 to |features|
        invariant triplets == before + RowTriplets(row, features)[..j]
      {
        var value := row[features[j]];
        var mask := if value.Some? then 1 else 0;
        triplets := triplets + [Triplet(features[j], cycle, value, mask)];
      }
      assert RowTriplets(row, features)[..|features|] == RowTriplets(row, features);
      assert t.rows[..i + 1][..i] == t.rows[..i];
    }
    assert t.rows[..|t.rows|] == t.rows;
    if |triplets| > maxTriplets {
      return OverBudget(|triplets|);
    }
    return Expanded(triplets);
  }

  lemma {:induction false} RowMajorBound(i: nat, j: nat, n: nat, m: nat)
    requires i < n && j < m
    ensures i * m + j < n * m
  {
    assert (i + 1) * m <= n * m;
  }

  /** Row-major layout: the expansion has rows × features records, and record
      `i * |F| + j` is feature `j` of row `i`, with that row's cycle. */
  lemma {:induction false} ExpansionLayout(rows: seq<Row>, features: seq<string>, i: nat, j: nat)
    requires forall k :: 0 <= k < |rows| ==> Readable(rows[k], features)
    requires i < |rows| && j < |features|
    ensures |Expansion(rows, features)| == |rows| * |features|
    ensures i * |features| + j < |Expansion(rows, features)|
    ensures Expansion(rows, features)[i * |features| + j] ==
      Triplet(features[j], rows[i]["cycle"], rows[i][features[j]], Mask(rows[i][features[j]]))
    decreases |rows|
  {
    var n, m := |rows|, |features|;
    var init := rows[..n - 1];
    ExpansionSize(rows, features);
    ExpansionSize(init, features);
    RowMajorBound(i, j, n, m);
    var prefix := Expansion(init, features);
    var index := i * m + j;
    assert Expansion(rows, features) == prefix + RowTriplets(rows[n - 1], features);
    if i < n - 1 {
      RowMajorBound(i, j, n - 1, m);
      ExpansionLayout(init, features, i, j);
      assert init[i] == rows[i];
      assert Expansion(rows, features)[index] == prefix[index];
    } else {
      assert index == |prefix| + j;
    }
  }

  lemma {:induction false} ExpansionSize(rows: seq<Row>, features: seq<string>)
    requires forall k :: 0 <= k < |rows| ==> Readable(rows[k], features)
    ensures |Expansion(rows, features)| == |rows| * |features|
    decreases |rows|
  {
    if |rows| > 0 {
      ExpansionSize(rows[..|rows| - 1], features);
      assert (|rows| - 1) * |features| + |features| == |rows| * |features|;
    }
  }

  /** Every record's mask is 1 exactly when its value is present, its feature is a
      column other than `cycle` and the target. */
  lemma {:induction false} ExpansionRecords(rows: seq<Row>, columns: seq<string>, target: string)
    requires forall k :: 0 <= k < |rows| ==> Readable(rows[k], FeatureColumns(columns, target))
    ensures forall x :: x in Expansion(rows, FeatureColumns(columns, target)) ==>
      (x.mask == 1 <==> x.value.Some?) && (x.mask == 0 <==> x.value.None?) &&
      x.feature in columns && x.feature != "cycle" && x.feature != target
    decreases |rows|
  {
    var features := FeatureColumns(columns, target);
    FeatureColumnsSpec(columns, target);
    if |rows| > 0 {
      ExpansionRecords(rows[..|rows| - 1], columns, target);
      var last := RowTriplets(rows[|rows| - 1], features);
      forall x | x in last
        ensures x.feature in columns && x.feature != "cycle" && x.feature != target
      {
        var j :| 0 <= j < |last| && last[j] == x;
        assert features[j] in features;
      }
    }
  }

  /** Within budget the expansion is returned unchanged; over budget it is not. */
  lemma {:induction false} WithinBudgetUnchanged(t: Table, target: string, maxTriplets: int)
    requires WellFormed(t) && "cycle" in t.columns
    ensures forall i :: 0 <= i < |t.rows| ==> Readable(t.rows[i], FeatureColumns(t.columns, target))
    ensures var size := |t.rows| * |FeatureColumns(t.columns, target)|;
      && (size <= maxTriplets ==> Encode(t, target, maxTriplets) == Expanded(Expansion(t.rows, FeatureColumns(t.columns, target))))
      && (size > maxTriplets ==> Encode(t, target, maxTriplets) == OverBudget(size))
  {
    WellFormedReadable(t, target);
    ExpansionSize(t.rows, FeatureColumns(t.columns, target));
  }

  /** Every record's value is read from some row. */
  lemma {:induction false} ExpansionValueFromRow(rows: seq<Row>, features: seq<string>, p: nat)
    requires forall k :: 0 <= k < |rows| ==> Readable(rows[k], features)
    requires p < |Expansion(rows, features)|
    ensures exists i, j :: 0 <= i < |rows| && 0 <= j < |features| &&
                          Expansion(rows, features)[p].value == rows[i][features[j]]
    decreases |rows|
  {
    var n := |rows|;
    var init := rows[..n - 1];
    var prefix := Expansion(init, features);
    if p < |prefix| {
      ExpansionValueFromRow(init, features, p);
      var i, j :| 0 <= i < |init| && 0 <= j < |features| && prefix[p].value == init[i][features[j]];
      assert init[i] == rows[i];
    } else {
      var j := p - |prefix|;
      assert Expansion(rows, features)[p].value == rows[n - 1][features[j]];
    }
  }

  /** A table without nulls gives mask 1 everywhere. */
  lemma {:induction false} FullTableAllMasksOne(rows: seq<Row>, columns: seq<string>, target: string)
    requires forall k :: 0 <= k < |rows| ==> Readable(rows[k], FeatureColumns(columns, target))
    requires forall k, c :: 0 <= k < |rows| && c in rows[k] ==> rows[k][c].Some?
    ensures forall x :: x in Expansion(rows, FeatureColumns(columns, target)) ==> x.mask == 1
  {
    var features := FeatureColumns(columns, target);
    var x := Expansion(rows, features);
    ExpansionRecords(rows, columns, target);
    forall p | 0 <= p < |x|
      ensures x[p].mask == 1
    {
      assert x[p] in x;
      ExpansionValueFromRow(rows, features, p);
    }
  }
}
