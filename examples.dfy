/** Worked examples: a small measurement file with the quoted header of the
    real one and a one-station table, run through the whole pipeline. */
module Examples {
  import opened Wrappers
  import opened Relational
  import opened Tables
  import opened Tidy
  import opened Pivot
  import opened Dashboard

  /** The measurement header as the source's file spells it. */
  const QuotedHeader: seq<string> :=
    ["\"siteid\"", "\"sitename\"", "\"itemid\"", "\"itemname\"",
     "\"itemengname\"", "\"itemunit\"", "\"monitormonth\"", "\"concentration\""]

  const ExampleStations: Table := Frame(["sitename", "areaname", "county"], [["A", "北部空品區", "X"]])

  const ExampleAir: Table :=
    Frame(QuotedHeader, [["1", "A", "14", "temp", "AMB_TEMP", "C", "202301", "15.0"],
                         ["1", "A", "7", "nox", "NOx", "ppb", "202301", "20.0"]])

  lemma ExampleRename()
    ensures Rename(ExampleAir, NewColNames).columns == CanonicalNames
  {
    var named := Rename(ExampleAir, NewColNames);
    forall i | 0 <= i < 8 ensures named.columns[i] == CanonicalNames[i] {
      assert ExampleAir.columns[i] in NewColNames;
    }
  }

  lemma ExampleNamed()
    ensures Rename(ExampleAir, NewColNames) == Frame(CanonicalNames, ExampleAir.rows)
    ensures HasAirColumns(Rename(ExampleAir, NewColNames))
  {
    ExampleRename();
  }

  /** A name found at i, where no earlier column has its length, is first found at i. */
  lemma IndexOfAt(names: seq<string>, name: string, i: nat, n: nat)
    requires i < |names| && names[i] == name && |name| == n
    requires forall j :: 0 <= j < i ==> |names[j]| != n
    ensures IndexOf(names, name) == Some(i)
  {
  }

  /** The header lengths, which tell the four looked-up columns from every column before them. */
  lemma CanonicalLengths()
    ensures |CanonicalNames[0]| == 6 && |CanonicalNames[1]| == 8 && |CanonicalNames[2]| == 6
    ensures |CanonicalNames[3]| == 8 && |CanonicalNames[4]| == 11 && |CanonicalNames[5]| == 8
    ensures |CanonicalNames[6]| == 12
  {
  }

  lemma SiteIndex()
    ensures IndexOf(CanonicalNames, "sitename") == Some(1)
  {
    CanonicalLengths();
    IndexOfAt(CanonicalNames, "sitename", 1, 8);
  }

  lemma ItemIndex()
    ensures IndexOf(CanonicalNames, "itemengname") == Some(4)
  {
    CanonicalLengths();
    IndexOfAt(CanonicalNames, "itemengname", 4, 11);
  }

  lemma MonthIndex()
    ensures IndexOf(CanonicalNames, "monitormonth") == Some(6)
  {
    CanonicalLengths();
    IndexOfAt(CanonicalNames, "monitormonth", 6, 12);
  }

  lemma ConcentrationIndex()
    ensures IndexOf(CanonicalNames, "concentration") == Some(7)
  {
    CanonicalLengths();
    IndexOfAt(CanonicalNames, "concentration", 7, 13);
  }

  lemma ExampleIndices()
    ensures IndexOf(CanonicalNames, "sitename") == Some(1)
    ensures IndexOf(CanonicalNames, "itemengname") == Some(4)
    ensures IndexOf(CanonicalNames, "monitormonth") == Some(6)
    ensures IndexOf(CanonicalNames, "concentration") == Some(7)
  {
    SiteIndex();
    ItemIndex();
    MonthIndex();
    ConcentrationIndex();
  }

  lemma ExampleColumns(named: Table)
    requires named == Frame(CanonicalNames, ExampleAir.rows)
    ensures HasAirColumns(named)
  {
    ExampleIndices();
  }

  /** The cells of row i, through the column positions. */
  lemma ExampleCells(named: Table, i: nat)
    requires named == Frame(CanonicalNames, ExampleAir.rows) && i < 2
    ensures HasAirColumns(named)
    ensures Cell(named, i, "sitename") == ExampleAir.rows[i][1]
    ensures Cell(named, i, "itemengname") == ExampleAir.rows[i][4]
    ensures Cell(named, i, "monitormonth") == ExampleAir.rows[i][6]
    ensures Cell(named, i, "concentration") == ExampleAir.rows[i][7]
  {
    ExampleColumns(named);
    ExampleIndices();
  }

  /** The example's rows read through the canonical header. */
  lemma ExampleCanonicalMeasurements(named: Table)
    requires named == Frame(CanonicalNames, ExampleAir.rows)
    ensures HasAirColumns(named)
    ensures Measurements(named) ==
            [Measurement("A", "AMB_TEMP", "202301", "15.0"), Measurement("A", "NOx", "202301", "20.0")]
  {
    ExampleCells(named, 0);
    ExampleCells(named, 1);
    var ms := Measurements(named);
    assert ms[0] == Measurement("A", "AMB_TEMP", "202301", "15.0");
    assert ms[1] == Measurement("A", "NOx", "202301", "20.0");
    PairEq(ms, Measurement("A", "AMB_TEMP", "202301", "15.0"), Measurement("A", "NOx", "202301", "20.0"));
  }

  lemma ExampleMeasurements()
    ensures HasAirColumns(Rename(ExampleAir, NewColNames))
    ensures Measurements(Rename(ExampleAir, NewColNames)) ==
            [Measurement("A", "AMB_TEMP", "202301", "15.0"), Measurement("A", "NOx", "202301", "20.0")]
  {
    ExampleNamed();
    ExampleCanonicalMeasurements(Rename(ExampleAir, NewColNames));
  }

  /** A two-element sequence is given by its two elements. */
  lemma PairEq<T>(s: seq<T>, a: T, b: T)
    requires |s| == 2 && s[0] == a && s[1] == b
    ensures s == [a, b]
  {
  }

  /** The filter of a two-row sequence, row by row. */
  lemma FilterPair<T>(a: T, b: T, p: T -> bool)
    ensures Filter([a, b], p) == (if p(a) then [a] else []) + (if p(b) then [b] else [])
  {
    assert [a, b][1..] == [b];
    assert [b][1..] == [];
  }

  lemma ExampleStationsRows()
    ensures HasStationColumns(ExampleStations)
    ensures Stations(ExampleStations) == [Station("A", "北部空品區", "X")]
  {
    assert IndexOf(ExampleStations.columns, "sitename") == Some(0);
    assert IndexOf(ExampleStations.columns, "areaname") == Some(1);
    assert IndexOf(ExampleStations.columns, "county") == Some(2);
    assert |Stations(ExampleStations)| == 1;
  }

  lemma ExampleSelectAndMerge(a: Measurement, b: Measurement, s: Station)
    requires a.itemengname in KeptItems && b.itemengname in KeptItems
    requires a.sitename == s.sitename && b.sitename == s.sitename
    ensures MergeStations(SelectItems([a, b]), [s]) == [(a, s), (b, s)]
  {
    FilterPair(a, b, IsKept);
    assert Matches(a, [s], SiteOf, StationSite) == [(a, s)];
    assert Matches(b, [s], SiteOf, StationSite) == [(b, s)];
    assert Join([b], [s], SiteOf, StationSite) == [(b, s)];
  }

  lemma ExampleSplit()
    ensures SplitMonth("202301") == Some(("2023", "01"))
  {
    assert NoNewline("202301");
    assert "202301"[..4] == "2023" && "202301"[4..] == "01";
  }

  lemma ExampleNormalize(parse: string -> Option<Num>, m: Measurement, st: Station)
    requires m.monitormonth == "202301"
    ensures Normalize(parse, (m, st)) ==
            Row(m.sitename, m.itemengname, m.monitormonth, parse(m.concentration), st.areaname, st.county,
                Some("2023"), Some("01"))
  {
    ExampleSplit();
  }

  /** The example's column lookups all succeed, and the selection and the
      station merge give each reading with the one station of its site. */
  lemma ExampleMerged()
    ensures HasAirColumns(Rename(ExampleAir, NewColNames)) && HasStationColumns(ExampleStations)
    ensures FirstMissing(Rename(ExampleAir, NewColNames), ExampleStations) == None
    ensures MergeStations(SelectItems(Measurements(Rename(ExampleAir, NewColNames))), Stations(ExampleStations))
            == [(Measurement("A", "AMB_TEMP", "202301", "15.0"), Station("A", "北部空品區", "X")),
                (Measurement("A", "NOx", "202301", "20.0"), Station("A", "北部空品區", "X"))]
  {
    ExampleMeasurements();
    ExampleStationsRows();
    ExampleSelectAndMerge(Measurement("A", "AMB_TEMP", "202301", "15.0"), Measurement("A", "NOx", "202301", "20.0"),
                          Station("A", "北部空品區", "X"));
  }

  lemma ExampleRows(parse: string -> Option<Num>, tempM: Measurement, noxM: Measurement, st: Station)
    requires tempM == Measurement("A", "AMB_TEMP", "202301", "15.0") && noxM == Measurement("A", "NOx", "202301", "20.0")
    requires st == Station("A", "北部空品區", "X")
    requires parse("15.0") == Some(15.0) && parse("20.0") == Some(20.0)
    ensures Map([(tempM, st), (noxM, st)], Normalizer(parse)) ==
            [Row("A", "AMB_TEMP", "202301", Some(15.0), "北部空品區", "X", Some("2023"), Some("01")),
             Row("A", "NOx", "202301", Some(20.0), "北部空品區", "X", Some("2023"), Some("01"))]
  {
    ExampleNormalize(parse, tempM, st);
    ExampleNormalize(parse, noxM, st);
    var rows := Map([(tempM, st), (noxM, st)], Normalizer(parse));
    PairEq(rows, Row("A", "AMB_TEMP", "202301", Some(15.0), "北部空品區", "X", Some("2023"), Some("01")),
                 Row("A", "NOx", "202301", Some(20.0), "北部空品區", "X", Some("2023"), Some("01")));
  }

  lemma ExampleTidyData(parse: string -> Option<Num>)
    requires parse("15.0") == Some(15.0) && parse("20.0") == Some(20.0)
    ensures TidyData(ExampleAir, ExampleStations, parse) ==
            Success([Row("A", "AMB_TEMP", "202301", Some(15.0), "北部空品區", "X", Some("2023"), Some("01")),
                     Row("A", "NOx", "202301", Some(20.0), "北部空品區", "X", Some("2023"), Some("01"))])
  {
    ExampleMerged();
    ExampleRows(parse, Measurement("A", "AMB_TEMP", "202301", "15.0"), Measurement("A", "NOx", "202301", "20.0"),
                Station("A", "北部空品區", "X"));
  }

  lemma ExampleSides(temp: Row, nox: Row)
    requires temp.itemengname == "AMB_TEMP" && nox.itemengname == "NOx"
    requires temp.concentration.Some? && nox.concentration.Some?
    ensures Filter(PollutantRows([temp, nox]), HasConcentration) == [nox]
    ensures Filter(TemperatureTable([temp, nox]), HasTemperature) == [ToTemp(temp)]
  {
    FilterPair(temp, nox, IsPollutant);
    FilterPair(temp, nox, IsAmbTemp);
    assert Filter([nox], HasConcentration) == [nox];
    assert TemperatureTable([temp, nox]) == [ToTemp(temp)];
    assert Filter([ToTemp(temp)], HasTemperature) == [ToTemp(temp)];
  }

  lemma ExampleTransform(temp: Row, nox: Row)
    requires temp.itemengname == "AMB_TEMP" && nox.itemengname == "NOx"
    requires RowKey(temp) == RowKey(nox)
    requires temp.concentration.Some? && nox.concentration.Some?
    ensures Transform([temp, nox]) == [Merged(nox, temp.concentration)]
  {
    TransformShape([temp, nox]);
    ExampleSides(temp, nox);
    assert Matches(nox, [ToTemp(temp)], RowKey, TempKey) == [(nox, ToTemp(temp))];
    assert Join([nox], [ToTemp(temp)], RowKey, TempKey) == [(nox, ToTemp(temp))];
  }

  /** One site, one month, a temperature reading and a NOx reading: exactly one
      tidy row, the NOx reading with the temperature beside it. */
  lemma EndToEndExample(parse: string -> Option<Num>)
    requires parse("15.0") == Some(15.0) && parse("20.0") == Some(20.0)
    ensures TidyTable(ExampleAir, ExampleStations, parse)
            == Success([TidyRow(Some("2023"), Some("01"), "A", "X", "北部空品區", Some(15.0), "NOx", Some(20.0), "202301")])
  {
    var tempR := Row("A", "AMB_TEMP", "202301", Some(15.0), "北部空品區", "X", Some("2023"), Some("01"));
    var noxR := Row("A", "NOx", "202301", Some(20.0), "北部空品區", "X", Some("2023"), Some("01"));
    ExampleTidyData(parse);
    ExampleTransform(tempR, noxR);
    assert Map([Merged(noxR, Some(15.0))], Project) == [Project(Merged(noxR, Some(15.0)))];
  }

  const NoCountyStations: Table := Frame(["sitename", "areaname"], [["A", "北部空品區"]])

  lemma NoCountyLookup()
    ensures FirstMissing(Rename(ExampleAir, NewColNames), NoCountyStations) == Some(MissingColumn(StationTable, "county"))
  {
    ExampleNamed();
    assert "itemengname" in AirColumns;
    assert "county" !in NoCountyStations.columns;
    assert "sitename" in NoCountyStations.columns && "areaname" in NoCountyStations.columns;
  }

  /** A station table without its county column: the lookup of that column
      fails, and the failure names it. */
  lemma MissingCountyExample(parse: string -> Option<Num>)
    ensures TidyTable(ExampleAir, NoCountyStations, parse) == Failure(MissingColumn(StationTable, "county"))
  {
    NoCountyLookup();
    assert TidyData(ExampleAir, NoCountyStations, parse) == Failure(MissingColumn(StationTable, "county"));
  }
}
