/** The top level of Bubble.py that feeds the chart: the tidy table built by
    transform after tidydata and projected to the columns the chart reads, and
    the selection of one air-quality region from it. */
module Dashboard {
  import opened Wrappers
  import opened Relational
  import opened Tables
  import opened Tidy
  import opened Pivot

  /** Back from a tidy row to the merged row it was projected from. */
  function Unproject(t: TidyRow): Merged
  {
    Merged(Row(t.sitename, t.itemengname, t.monitormonth, t.concentration, t.areaname, t.county, t.year, t.month),
           t.temperature)
  }

  /** The projection to the kept columns, in the kept order. It loses nothing:
      every column transform leaves in the modelled rows is among those kept. */
  function Project(m: Merged): (t: TidyRow)
    ensures Unproject(t) == m
  {
    TidyRow(m.row.year, m.row.month, m.row.sitename, m.row.county, m.row.areaname, m.temperature,
            m.row.itemengname, m.row.concentration, m.row.monitormonth)
  }

  /** The table handed to the chart. It fails exactly when tidydata does; on
      success every row is a NOx or SO2 reading with a concentration and a
      temperature. */
  function TidyTable(air: Table, site: Table, parse: string -> Option<Num>): (r: Result<seq<TidyRow>, Error>)
    ensures r.Failure? <==> TidyData(air, site, parse).Failure?
    ensures r.Success? ==> forall i :: 0 <= i < |r.value| ==>
              r.value[i].itemengname in PollutantItems && r.value[i].temperature.Some? && r.value[i].concentration.Some?
  {
    match TidyData(air, site, parse)
    case Failure(e) => Failure(e)
    case Success(df) =>
      var out := Transform(df);
      Success(Map(out, Project))
  }

  /** The selection predicate of one region. */
  function InArea(area: string): TidyRow -> bool
  {
    (t: TidyRow) => t.areaname == area
  }

  /** The rows of the selected region. */
  function RegionFilter(tidy: seq<TidyRow>, area: string): (r: seq<TidyRow>)
    ensures |r| <= |tidy|
    ensures forall i :: 0 <= i < |r| ==> r[i] in tidy && r[i].areaname == area
  {
    Filter(tidy, InArea(area))
  }

  /** Exactly the rows of the region survive, each as often as it occurs. */
  lemma RegionFilterExact(tidy: seq<TidyRow>, area: string, t: TidyRow)
    ensures multiset(RegionFilter(tidy, area))[t] == if t.areaname == area then multiset(tidy)[t] else 0
  {
    FilterMultiset(tidy, InArea(area), t);
  }

  /** The survivors keep their original order. */
  lemma RegionFilterOrder(a: seq<TidyRow>, b: seq<TidyRow>, area: string)
    ensures RegionFilter(a + b, area) == RegionFilter(a, area) + RegionFilter(b, area)
  {
    FilterAppend(a, b, InArea(area));
  }

  /** The selection is empty exactly when no row is of the region. */
  lemma RegionFilterEmpty(tidy: seq<TidyRow>, area: string)
    ensures RegionFilter(tidy, area) == [] <==> forall i :: 0 <= i < |tidy| ==> tidy[i].areaname != area
  {
    FilterEmpty(tidy, InArea(area));
  }
}
