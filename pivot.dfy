/** The transform step of Bubble.py: the ambient-temperature readings become a
    temperature column, joined back onto the NOx and SO2 readings of the same
    year, month, site, county and region; rows missing a temperature or a
    concentration are then dropped, and the remaining missing values filled
    with zero. */
module Pivot {
  import opened Wrappers
  import opened Relational
  import opened Tables

  /** The items whose rows survive transform. */
  const PollutantItems: set<string> := {"NOx", "SO2"}

  predicate IsAmbTemp(r: Row)
  {
    r.itemengname == "AMB_TEMP"
  }

  predicate IsPollutant(r: Row)
  {
    r.itemengname in PollutantItems
  }

  predicate HasConcentration(r: Row)
  {
    r.concentration.Some?
  }

  /** An ambient-temperature reading with a value. */
  predicate IsTempReading(r: Row)
  {
    IsAmbTemp(r) && HasConcentration(r)
  }

  /** The merge key of transform: year, month, site, county and region. Missing
      year and month compare equal to each other, as the source's merge does. */
  type MergeKey = (Option<string>, Option<string>, string, string, string)

  function RowKey(r: Row): MergeKey
  {
    (r.year, r.month, r.sitename, r.county, r.areaname)
  }

  function TempKey(t: TempRow): MergeKey
  {
    (t.year, t.month, t.sitename, t.county, t.areaname)
  }

  // ------------------------------------------------------ temperature table

  /** A temperature reading with its concentration taken as the temperature,
      projected to the merge key and the temperature. */
  function ToTemp(r: Row): (t: TempRow)
    ensures TempKey(t) == RowKey(r) && t.temperature == r.concentration
  {
    TempRow(r.year, r.month, r.sitename, r.county, r.areaname, r.concentration)
  }

  /** The side table of temperatures: the ambient-temperature rows, projected. */
  function TemperatureTable(df: seq<Row>): (t: seq<TempRow>)
    ensures |t| <= |df|
    ensures forall i :: 0 <= i < |t| ==>
              exists r :: r in df && IsAmbTemp(r) && TempKey(t[i]) == RowKey(r) && t[i].temperature == r.concentration
  {
    var amb := Filter(df, IsAmbTemp);
    var t := Map(amb, ToTemp);
    assert forall i :: 0 <= i < |t| ==> amb[i] in df && IsAmbTemp(amb[i]) && t[i] == ToTemp(amb[i]);
    t
  }

  /** The side table holds exactly the projections of the temperature rows. */
  lemma TemperatureTableRows(df: seq<Row>, x: TempRow)
    ensures x in TemperatureTable(df) <==> exists r :: r in df && IsAmbTemp(r) && ToTemp(r) == x
  {
    var amb := Filter(df, IsAmbTemp);
    MapMembership(amb, ToTemp, x);
    if x in TemperatureTable(df) {
      var r :| r in amb && ToTemp(r) == x;
      FilterMembership(df, IsAmbTemp, r);
    }
    if exists r :: r in df && IsAmbTemp(r) && ToTemp(r) == x {
      var r :| r in df && IsAmbTemp(r) && ToTemp(r) == x;
      FilterMembership(df, IsAmbTemp, r);
    }
  }

  /** The NOx and SO2 rows. */
  function PollutantRows(df: seq<Row>): (p: seq<Row>)
    ensures |p| <= |df|
    ensures forall i :: 0 <= i < |p| ==> p[i] in df && p[i].itemengname in PollutantItems
  {
    Filter(df, IsPollutant)
  }

  // ------------------------------------------------------------------ merge

  /** A joined pair as one row: the pollutant row with the temperature added. */
  function Attach(p: (Row, TempRow)): (m: Merged)
    ensures m.row == p.0 && m.temperature == p.1.temperature
    ensures Complete(m) <==> PairComplete(p)
  {
    Merged(p.0, p.1.temperature)
  }

  /** Inner join of the pollutant rows with the temperature table on the merge key. */
  function MergeTemperature(pol: seq<Row>, temps: seq<TempRow>): (m: seq<Merged>)
    ensures forall i :: 0 <= i < |m| ==>
              m[i].row in pol && exists t :: t in temps && TempKey(t) == RowKey(m[i].row) && t.temperature == m[i].temperature
  {
    var joined := Join(pol, temps, RowKey, TempKey);
    var m := Map(joined, Attach);
    assert forall i :: 0 <= i < |m| ==> m[i] == Attach(joined[i]);
    m
  }

  // ------------------------------------------------------- missing values

  /** Both the temperature and the concentration are present. */
  predicate Complete(m: Merged)
  {
    m.temperature.Some? && m.row.concentration.Some?
  }

  /** Drop the rows missing a temperature or a concentration. */
  function DropNa(ms: seq<Merged>): (r: seq<Merged>)
    ensures |r| <= |ms|
    ensures forall i :: 0 <= i < |r| ==> r[i] in ms && Complete(r[i])
  {
    Filter(ms, Complete)
  }

  /** One row with a missing temperature or concentration replaced by zero. */
  function Fill(m: Merged): (r: Merged)
    ensures Complete(r)
    ensures Complete(m) ==> r == m
    ensures r.temperature == if m.temperature.Some? then m.temperature else Some(0.0)
    ensures r.row.concentration == if m.row.concentration.Some? then m.row.concentration else Some(0.0)
    ensures r.row.(concentration := m.row.concentration) == m.row
  {
    Merged(m.row.(concentration := Some(m.row.concentration.GetOr(0.0))), Some(m.temperature.GetOr(0.0)))
  }

  /** Fill the missing temperatures and concentrations with zero. */
  function FillNa(ms: seq<Merged>): (r: seq<Merged>)
    ensures |r| == |ms|
    ensures forall i :: 0 <= i < |r| ==> r[i] == Fill(ms[i])
    ensures forall i :: 0 <= i < |r| ==> Complete(r[i]) && r[i].row.itemengname == ms[i].row.itemengname
  {
    Map(ms, Fill)
  }

  /** After the drop the fill finds nothing to fill: it leaves the table unchanged. */
  lemma FillNaAfterDropNa(ms: seq<Merged>)
    ensures FillNa(DropNa(ms)) == DropNa(ms)
  {
    var d := DropNa(ms);
    assert forall i :: 0 <= i < |d| ==> FillNa(d)[i] == d[i];
  }

  // -------------------------------------------------------------- transform

  /** transform: every row it returns is a NOx or SO2 reading with both a
      concentration and a temperature. */
  function Transform(df: seq<Row>): (out: seq<Merged>)
    ensures forall i :: 0 <= i < |out| ==> out[i].row.itemengname in PollutantItems && Complete(out[i])
  {
    var temp := TemperatureTable(df);
    var pol := PollutantRows(df);
    var merge := MergeTemperature(pol, temp);
    var dropped := DropNa(merge);
    assert forall i :: 0 <= i < |dropped| ==> dropped[i].row.itemengname in PollutantItems by {
      forall i | 0 <= i < |dropped| ensures dropped[i].row.itemengname in PollutantItems {
        var j :| 0 <= j < |merge| && merge[j] == dropped[i];
        var k :| 0 <= k < |pol| && pol[k] == merge[j].row;
      }
    }
    FillNa(dropped)
  }

  predicate PairComplete(p: (Row, TempRow))
  {
    p.0.concentration.Some? && p.1.temperature.Some?
  }

  predicate HasTemperature(t: TempRow)
  {
    t.temperature.Some?
  }

  /** Dropping incomplete rows after the merge is the same as merging only the
      rows that have values: transform is an inner join of the pollutant
      readings with a concentration and the temperature readings with a value. */
  lemma TransformShape(df: seq<Row>)
    ensures Transform(df) ==
            Map(Join(Filter(PollutantRows(df), HasConcentration), Filter(TemperatureTable(df), HasTemperature), RowKey, TempKey), Attach)
  {
    var pol := PollutantRows(df);
    var temp := TemperatureTable(df);
    var joined := Join(pol, temp, RowKey, TempKey);
    FillNaAfterDropNa(Map(joined, Attach));
    FilterMap(joined, Attach, Complete, PairComplete);
    FilterJoin(pol, temp, RowKey, TempKey, HasConcentration, HasTemperature, PairComplete);
  }

  /** Every row of transform is a NOx or SO2 row of the input with a
      concentration, and its temperature is the value of an ambient-temperature
      row of the input with the same year, month, site, county and region. */
  lemma TransformPartner(df: seq<Row>, m: Merged)
    requires m in Transform(df)
    ensures m.row in df && IsPollutant(m.row) && m.row.concentration.Some? && m.temperature.Some?
    ensures exists t :: t in df && IsAmbTemp(t) && RowKey(t) == RowKey(m.row) && t.concentration == m.temperature
  {
    var pol := Filter(PollutantRows(df), HasConcentration);
    var temp := Filter(TemperatureTable(df), HasTemperature);
    var joined := Join(pol, temp, RowKey, TempKey);
    TransformShape(df);
    MapMembership(joined, Attach, m);
    var p :| p in joined && Attach(p) == m;
    JoinMembership(pol, temp, RowKey, TempKey, p.0, p.1);
    FilterMembership(PollutantRows(df), HasConcentration, p.0);
    FilterMembership(df, IsPollutant, p.0);
    FilterMembership(TemperatureTable(df), HasTemperature, p.1);
    TemperatureTableRows(df, p.1);
    var t :| t in df && IsAmbTemp(t) && ToTemp(t) == p.1;
    assert RowKey(t) == RowKey(m.row) && t.concentration == m.temperature;
  }

  /** A NOx or SO2 row with no ambient-temperature row of the same key is dropped. */
  lemma TransformDropsUnmatched(df: seq<Row>, r: Row)
    requires forall t :: t in df && IsAmbTemp(t) ==> RowKey(t) != RowKey(r)
    ensures forall m :: m in Transform(df) ==> m.row != r
  {
    forall m | m in Transform(df) ensures m.row != r {
      TransformPartner(df, m);
    }
  }

  /** Conversely, a NOx or SO2 row with a concentration and an ambient-temperature
      row of the same key with a value give an output row carrying that value. */
  lemma TransformKeepsMatched(df: seq<Row>, r: Row, t: Row)
    requires r in df && IsPollutant(r) && r.concentration.Some?
    requires t in df && IsAmbTemp(t) && t.concentration.Some?
    requires RowKey(t) == RowKey(r)
    ensures Merged(r, t.concentration) in Transform(df)
  {
    var pol := Filter(PollutantRows(df), HasConcentration);
    var temp := Filter(TemperatureTable(df), HasTemperature);
    var joined := Join(pol, temp, RowKey, TempKey);
    TransformShape(df);
    FilterMembership(df, IsPollutant, r);
    FilterMembership(PollutantRows(df), HasConcentration, r);
    TemperatureTableRows(df, ToTemp(t));
    FilterMembership(TemperatureTable(df), HasTemperature, ToTemp(t));
    JoinMembership(pol, temp, RowKey, TempKey, r, ToTemp(t));
    MapMembership(joined, Attach, Merged(r, t.concentration));
    assert Attach((r, ToTemp(t))) == Merged(r, t.concentration);
  }

  // ------------------------------------------------------------ multiplicity

  /** Number of output rows built on the input row r. */
  function CountRows(ms: seq<Merged>, r: Row): nat
  {
    if ms == [] then 0 else (if ms[0].row == r then 1 else 0) + CountRows(ms[1..], r)
  }

  /** Number of ambient-temperature readings with a value under key k. */
  function CountTemps(df: seq<Row>, k: MergeKey): nat
  {
    if df == [] then 0 else (if IsTempReading(df[0]) && RowKey(df[0]) == k then 1 else 0) + CountTemps(df[1..], k)
  }

  lemma {:induction false} CountRowsAttach(s: seq<(Row, TempRow)>, r: Row)
    ensures CountRows(Map(s, Attach), r) == CountLeft(s, r)
  {
    if s != [] {
      CountRowsAttach(s[1..], r);
      assert Map(s, Attach)[0] == Attach(s[0]) && Map(s, Attach)[1..] == Map(s[1..], Attach);
    }
  }

  lemma {:induction false} CountTempReadings(df: seq<Row>, k: MergeKey)
    ensures CountKey(Filter(df, IsTempReading), RowKey, k) == CountTemps(df, k)
  {
    if df != [] {
      CountTempReadings(df[1..], k);
      var head := if IsTempReading(df[0]) then [df[0]] else [];
      CountKeyAppend(head, Filter(df[1..], IsTempReading), RowKey, k);
    }
  }

  /** The temperature readings with a value, counted per key, are those of the input. */
  lemma CountTemperatureTable(df: seq<Row>, k: MergeKey)
    ensures CountKey(Filter(TemperatureTable(df), HasTemperature), TempKey, k) == CountTemps(df, k)
  {
    var amb := Filter(df, IsAmbTemp);
    FilterMap(amb, ToTemp, HasTemperature, HasConcentration);
    FilterFilter(df, IsAmbTemp, HasConcentration, IsTempReading);
    CountKeyMap(Filter(df, IsTempReading), ToTemp, RowKey, TempKey, k);
    CountTempReadings(df, k);
  }

  lemma CountRowsJoin(df: seq<Row>, r: Row)
    ensures CountRows(Transform(df), r) ==
            multiset(Filter(PollutantRows(df), HasConcentration))[r] * CountTemps(df, RowKey(r))
  {
    var pol := Filter(PollutantRows(df), HasConcentration);
    var temp := Filter(TemperatureTable(df), HasTemperature);
    var joined := Join(pol, temp, RowKey, TempKey);
    TransformShape(df);
    CountRowsAttach(joined, r);
    JoinFanOut(pol, temp, RowKey, TempKey, r);
    CountTemperatureTable(df, RowKey(r));
  }

  /** Multiplicity of transform: a NOx or SO2 row with a concentration comes out
      once for each of its occurrences and each ambient-temperature reading with
      a value under its key (so exactly once when both are unique); any other
      row does not come out at all. */
  lemma TransformCount(df: seq<Row>, r: Row)
    ensures CountRows(Transform(df), r) ==
            if IsPollutant(r) && r.concentration.Some? then multiset(df)[r] * CountTemps(df, RowKey(r)) else 0
  {
    CountRowsJoin(df, r);
    var n := multiset(Filter(PollutantRows(df), HasConcentration))[r];
    var c := CountTemps(df, RowKey(r));
    FilterMultiset(PollutantRows(df), HasConcentration, r);
    FilterMultiset(df, IsPollutant, r);
    if IsPollutant(r) && r.concentration.Some? {
      assert n == multiset(df)[r];
    } else {
      assert n == 0;
      assert n * c == 0;
    }
  }
}
