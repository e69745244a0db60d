/** The data model: a table read from a CSV file as a header and rows of text
    cells, and the typed rows each stage of the tidying pipeline produces. */
module Tables {
  import opened Wrappers

  /** A numeric cell. The source holds floats; real arithmetic stands in for
      them, and nothing in the pipeline computes with the values. */
  type Num = real

  /** A table as read from a CSV file: a header row and rows of text cells. */
  datatype Frame = Frame(columns: seq<string>, rows: seq<seq<string>>)

  /** Every row has one cell per column, as in any data frame. */
  predicate Rectangular(f: Frame)
  {
    forall i :: 0 <= i < |f.rows| ==> |f.rows[i]| == |f.columns|
  }

  type Table = f: Frame | Rectangular(f) witness Frame([], [])

  /** Position of the first column called name, if any. */
  function IndexOf(names: seq<string>, name: string): (r: Option<nat>)
    ensures r.None? <==> name !in names
    ensures r.Some? ==> r.value < |names| && names[r.value] == name
    ensures r.Some? ==> forall j :: 0 <= j < r.value ==> names[j] != name
  {
    if names == [] then None
    else if names[0] == name then Some(0)
    else match IndexOf(names[1..], name)
      case None => None
      case Some(j) => Some(j + 1)
  }

  /** The cell of row i in the (first) column called name. */
  function Cell(t: Table, i: nat, name: string): string
    requires i < |t.rows| && name in t.columns
  {
    t.rows[i][IndexOf(t.columns, name).value]
  }

  /** A measurement row, holding the columns of the measurement table that the
      pipeline reads (monthly value of one item at one site). */
  datatype Measurement = Measurement(sitename: string, itemengname: string, monitormonth: string, concentration: string)

  /** A station row, projected to the three columns the pipeline reads. */
  datatype Station = Station(sitename: string, areaname: string, county: string)

  /** A row of the table tidydata returns: a measurement enriched with its
      station's region and county, its concentration coerced to a number or
      missing, and its month code split into year and month. */
  datatype Row = Row(
    sitename: string,
    itemengname: string,
    monitormonth: string,
    concentration: Option<Num>,
    areaname: string,
    county: string,
    year: Option<string>,
    month: Option<string>)

  /** A row of the temperature side table built in transform. */
  datatype TempRow = TempRow(
    year: Option<string>,
    month: Option<string>,
    sitename: string,
    county: string,
    areaname: string,
    temperature: Option<Num>)

  /** A pollutant row with the temperature joined onto it. */
  datatype Merged = Merged(row: Row, temperature: Option<Num>)

  /** A row of the final tidy table, with the columns in the order kept by the
      projection of the top-level script. */
  datatype TidyRow = TidyRow(
    year: Option<string>,
    month: Option<string>,
    sitename: string,
    county: string,
    areaname: string,
    temperature: Option<Num>,
    itemengname: string,
    concentration: Option<Num>,
    monitormonth: string)

  /** Which input table a missing column was looked up in. */
  datatype Source = MeasurementTable | StationTable

  /** The one failure of the pipeline: a column looked up by name is absent
      (a KeyError in the source). */
  datatype Error = MissingColumn(source: Source, column: string)
}
