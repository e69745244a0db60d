/** The tidydata step of Bubble.py: rename the quoted headers of the
    measurement table, keep the three measurement items the dashboard needs,
    attach each site's region and county, coerce the concentration to a
    number, and split the month code into year and month. */
module Tidy {
  import opened Wrappers
  import opened Relational
  import opened Tables

  // ------------------------------------------------------------ header rename

  /** A header as the measurement file spells it: the name in double quotes. */
  function Quote(name: string): string
  {
    "\"" + name + "\""
  }

  /** The eight column names of the measurement table once renamed. */
  const CanonicalNames: seq<string> :=
    ["siteid", "sitename", "itemid", "itemname", "itemengname", "itemunit", "monitormonth", "concentration"]

  /** The fixed mapping of tidydata from each quoted header to its bare name. */
  const NewColNames: map<string, string> := map[
    "\"siteid\"" := "siteid", "\"sitename\"" := "sitename", "\"itemid\"" := "itemid",
    "\"itemname\"" := "itemname", "\"itemengname\"" := "itemengname", "\"itemunit\"" := "itemunit",
    "\"monitormonth\"" := "monitormonth", "\"concentration\"" := "concentration"]

  /** A header after renaming: its image under the mapping, or itself when unmapped. */
  function RenameHeader(names: map<string, string>, h: string): string
  {
    if h in names then names[h] else h
  }

  /** Renaming the columns of a table. Only the header changes: the rows, their
      order and every cell stay as they were, mapped headers take their new
      name and all other headers pass through untouched. */
  function Rename(t: Table, names: map<string, string>): (r: Table)
    ensures r.rows == t.rows
    ensures |r.columns| == |t.columns|
    ensures forall i :: 0 <= i < |t.columns| && t.columns[i] in names ==> r.columns[i] == names[t.columns[i]]
    ensures forall i :: 0 <= i < |t.columns| && t.columns[i] !in names ==> r.columns[i] == t.columns[i]
  {
    Frame(seq(|t.columns|, i requires 0 <= i < |t.columns| => RenameHeader(names, t.columns[i])), t.rows)
  }

  /** The mapping takes exactly the quoted canonical names, each to its bare name. */
  lemma NewColNamesUnquote(h: string)
    ensures h in NewColNames <==> exists c :: c in CanonicalNames && h == Quote(c)
    ensures h in NewColNames ==> h == Quote(NewColNames[h]) && NewColNames[h] in CanonicalNames
  {
    assert Quote("siteid") == "\"siteid\"";
    assert Quote("sitename") == "\"sitename\"";
    assert Quote("itemid") == "\"itemid\"";
    assert Quote("itemname") == "\"itemname\"";
    assert Quote("itemengname") == "\"itemengname\"";
    assert Quote("itemunit") == "\"itemunit\"";
    assert Quote("monitormonth") == "\"monitormonth\"";
    assert Quote("concentration") == "\"concentration\"";
  }

  /** Every mapped header opens with a double quote and no bare name does. */
  lemma NewColNamesQuoted(h: string)
    requires h in NewColNames
    ensures |h| > 0 && h[0] == '"'
    ensures |NewColNames[h]| > 0 && NewColNames[h][0] != '"'
  {
  }

  /** A header that does not open with a double quote is left alone. */
  lemma UnquotedNotMapped(s: string)
    requires |s| > 0 && s[0] != '"'
    ensures s !in NewColNames
  {
    if s in NewColNames {
      NewColNamesQuoted(s);
    }
  }

  /** No bare name is itself a quoted header, so the rename is idempotent. */
  lemma RenameIdempotent(t: Table)
    ensures Rename(Rename(t, NewColNames), NewColNames) == Rename(t, NewColNames)
  {
    var once := Rename(t, NewColNames);
    var twice := Rename(once, NewColNames);
    forall i | 0 <= i < |t.columns| ensures twice.columns[i] == once.columns[i] {
      var h := t.columns[i];
      if h in NewColNames {
        NewColNamesQuoted(h);
        UnquotedNotMapped(NewColNames[h]);
      }
    }
  }

  /** After the rename a canonical column is present exactly when the raw header
      held it in quotes or already bare. */
  lemma RenameFinds(t: Table, c: string)
    requires c in CanonicalNames
    ensures c in Rename(t, NewColNames).columns <==> c in t.columns || Quote(c) in t.columns
  {
    var r := Rename(t, NewColNames);
    NewColNamesUnquote(Quote(c));
    assert Quote(c) in NewColNames;
    NewColNamesUnquote(c);
    assert c !in NewColNames;
    QuoteInjective(c, NewColNames[Quote(c)]);
    if c in r.columns {
      var i :| 0 <= i < |r.columns| && r.columns[i] == c;
      var h := t.columns[i];
      if h in NewColNames {
        NewColNamesUnquote(h);
        assert h == Quote(c);
      }
      assert t.columns[i] == h;
    }
    if c in t.columns {
      var i :| 0 <= i < |t.columns| && t.columns[i] == c;
      assert r.columns[i] == c;
    }
    if Quote(c) in t.columns {
      var i :| 0 <= i < |t.columns| && t.columns[i] == Quote(c);
      assert r.columns[i] == c;
    }
  }

  lemma QuoteInjective(a: string, b: string)
    requires Quote(a) == Quote(b)
    ensures a == b
  {
    assert a == Quote(a)[1..|Quote(a)| - 1];
    assert b == Quote(b)[1..|Quote(b)| - 1];
  }

  // ---------------------------------------------------------- column lookups

  /** Measurement columns the pipeline reads, in the order it first reads them. */
  const AirColumns: seq<string> := ["itemengname", "sitename", "concentration", "monitormonth"]

  /** Station columns the merge projects to. */
  const StationColumns: seq<string> := ["sitename", "areaname", "county"]

  predicate HasAirColumns(t: Table)
  {
    forall c :: c in AirColumns ==> c in t.columns
  }

  predicate HasStationColumns(t: Table)
  {
    forall c :: c in StationColumns ==> c in t.columns
  }

  /** The first failing column lookup of tidydata, in the order the source
      performs them: the item column of the measurements, the three projected
      station columns, then the site, concentration and month columns of the
      measurements. None when every lookup succeeds. */
  function FirstMissing(air: Table, site: Table): (r: Option<Error>)
    ensures r.None? <==> HasAirColumns(air) && HasStationColumns(site)
    ensures r.Some? && r.value.source == MeasurementTable ==>
              r.value.column in AirColumns && r.value.column !in air.columns
    ensures r.Some? && r.value.source == StationTable ==>
              r.value.column in StationColumns && r.value.column !in site.columns
    ensures r.Some? && r.value.source == StationTable ==> "itemengname" in air.columns
    ensures "itemengname" !in air.columns ==> r == Some(MissingColumn(MeasurementTable, "itemengname"))
    ensures "itemengname" in air.columns && "sitename" !in site.columns ==>
              r == Some(MissingColumn(StationTable, "sitename"))
    ensures "itemengname" in air.columns && "sitename" in site.columns && "areaname" !in site.columns ==>
              r == Some(MissingColumn(StationTable, "areaname"))
    ensures ("itemengname" in air.columns && "sitename" in site.columns && "areaname" in site.columns &&
             "county" !in site.columns) ==> r == Some(MissingColumn(StationTable, "county"))
    ensures "itemengname" in air.columns && HasStationColumns(site) && "sitename" !in air.columns ==>
              r == Some(MissingColumn(MeasurementTable, "sitename"))
    ensures ("itemengname" in air.columns && HasStationColumns(site) && "sitename" in air.columns &&
             "concentration" !in air.columns) ==> r == Some(MissingColumn(MeasurementTable, "concentration"))
    ensures ("itemengname" in air.columns && HasStationColumns(site) && "sitename" in air.columns &&
             "concentration" in air.columns && "monitormonth" !in air.columns) ==>
              r == Some(MissingColumn(MeasurementTable, "monitormonth"))
  {
    if "itemengname" !in air.columns then Some(MissingColumn(MeasurementTable, "itemengname"))
    else if "sitename" !in site.columns then Some(MissingColumn(StationTable, "sitename"))
    else if "areaname" !in site.columns then Some(MissingColumn(StationTable, "areaname"))
    else if "county" !in site.columns then Some(MissingColumn(StationTable, "county"))
    else if "sitename" !in air.columns then Some(MissingColumn(MeasurementTable, "sitename"))
    else if "concentration" !in air.columns then Some(MissingColumn(MeasurementTable, "concentration"))
    else if "monitormonth" !in air.columns then Some(MissingColumn(MeasurementTable, "monitormonth"))
    else None
  }

  /** The measurement rows, read through the renamed header. */
  function Measurements(t: Table): (ms: seq<Measurement>)
    requires HasAirColumns(t)
    ensures |ms| == |t.rows|
    ensures forall i :: 0 <= i < |ms| ==>
              ms[i].sitename == Cell(t, i, "sitename") && ms[i].itemengname == Cell(t, i, "itemengname") &&
              ms[i].monitormonth == Cell(t, i, "monitormonth") && ms[i].concentration == Cell(t, i, "concentration")
  {
    seq(|t.rows|, i requires 0 <= i < |t.rows| =>
      Measurement(Cell(t, i, "sitename"), Cell(t, i, "itemengname"), Cell(t, i, "monitormonth"), Cell(t, i, "concentration")))
  }

  /** The station rows projected to site, region and county. */
  function Stations(t: Table): (ss: seq<Station>)
    requires HasStationColumns(t)
    ensures |ss| == |t.rows|
    ensures forall i :: 0 <= i < |ss| ==>
              ss[i].sitename == Cell(t, i, "sitename") && ss[i].areaname == Cell(t, i, "areaname") &&
              ss[i].county == Cell(t, i, "county")
  {
    seq(|t.rows|, i requires 0 <= i < |t.rows| =>
      Station(Cell(t, i, "sitename"), Cell(t, i, "areaname"), Cell(t, i, "county")))
  }

  // --------------------------------------------------------- item selection

  /** The measurement items the dashboard uses. */
  const KeptItems: set<string> := {"NOx", "SO2", "AMB_TEMP"}

  predicate IsKept(m: Measurement)
  {
    m.itemengname in KeptItems
  }

  /** The rows of the three kept items. */
  function SelectItems(ms: seq<Measurement>): (r: seq<Measurement>)
    ensures |r| <= |ms|
    ensures forall i :: 0 <= i < |r| ==> r[i].itemengname in KeptItems
  {
    Filter(ms, IsKept)
  }

  /** Every row of a kept item survives as often as it occurs; no other row does. */
  lemma SelectItemsExact(ms: seq<Measurement>, m: Measurement)
    ensures multiset(SelectItems(ms))[m] == if m.itemengname in KeptItems then multiset(ms)[m] else 0
  {
    FilterMultiset(ms, IsKept, m);
  }

  /** The survivors keep their relative order: selection distributes over concatenation. */
  lemma SelectItemsOrder(a: seq<Measurement>, b: seq<Measurement>)
    ensures SelectItems(a + b) == SelectItems(a) + SelectItems(b)
  {
    FilterAppend(a, b, IsKept);
  }

  // ------------------------------------------------------------ station merge

  function SiteOf(m: Measurement): string
  {
    m.sitename
  }

  function StationSite(s: Station): string
  {
    s.sitename
  }

  /** Inner join of the measurements with the stations on the site name. */
  function MergeStations(ms: seq<Measurement>, ss: seq<Station>): (r: seq<(Measurement, Station)>)
    ensures forall i :: 0 <= i < |r| ==> r[i].0 in ms && r[i].1 in ss && r[i].0.sitename == r[i].1.sitename
  {
    Join(ms, ss, SiteOf, StationSite)
  }

  /** A measurement is paired with a station exactly when both are present and their sites agree. */
  lemma MergeStationsMembership(ms: seq<Measurement>, ss: seq<Station>, m: Measurement, s: Station)
    ensures (m, s) in MergeStations(ms, ss) <==> m in ms && s in ss && m.sitename == s.sitename
  {
    JoinMembership(ms, ss, SiteOf, StationSite, m, s);
  }

  /** A measurement whose site is listed k times among the stations comes out k
      times for each time it occurs (the join fans out, it does not deduplicate). */
  lemma MergeStationsFanOut(ms: seq<Measurement>, ss: seq<Station>, m: Measurement)
    ensures CountLeft(MergeStations(ms, ss), m) == multiset(ms)[m] * CountKey(ss, StationSite, m.sitename)
  {
    JoinFanOut(ms, ss, SiteOf, StationSite, m);
  }

  /** A measurement whose site has no station row disappears. */
  lemma MergeStationsUnmatched(ms: seq<Measurement>, ss: seq<Station>, m: Measurement)
    requires forall s :: s in ss ==> s.sitename != m.sitename
    ensures forall p :: p in MergeStations(ms, ss) ==> p.0 != m
  {
    forall p | p in MergeStations(ms, ss) ensures p.0 != m {
      JoinMembership(ms, ss, SiteOf, StationSite, p.0, p.1);
    }
  }

  // ------------------------------------------------------- month code split

  predicate NoNewline(s: string)
  {
    forall i :: 0 <= i < |s| ==> s[i] != '\n'
  }

  /** The longest prefix of s without a line break: what the pattern `.*` matches. */
  function LineRest(s: string): (r: string)
    ensures r <= s
    ensures NoNewline(r)
    ensures |r| < |s| ==> s[|r|] == '\n'
  {
    if s == [] || s[0] == '\n' then []
    else
      var rest := LineRest(s[1..]);
      assert s == [s[0]] + s[1..];
      [s[0]] + rest
  }

  /** On a single line, `.*` takes everything. */
  lemma LineRestWhole(s: string)
    requires NoNewline(s)
    ensures LineRest(s) == s
  {
  }

  /** Four characters without a line break start at position j: where the
      pattern `.{4}` can match. */
  predicate YearAt(s: string, j: nat)
  {
    j + 4 <= |s| && NoNewline(s[j..j + 4])
  }

  /** Regular-expression search for `(.{4})(.*)` from position i on: the first
      position where four characters without a line break start gives the year
      group, and the rest of that line gives the month group. */
  function SearchFrom(s: string, i: nat): (r: Option<(string, string)>)
    decreases |s| - i
    ensures r.None? <==> forall j :: i <= j ==> !YearAt(s, j)
    ensures r.Some? ==> exists j :: i <= j && YearAt(s, j) && (forall k :: i <= k < j ==> !YearAt(s, k)) &&
                                    r.value == (s[j..j + 4], LineRest(s[j + 4..]))
  {
    if i + 4 > |s| then None
    else if NoNewline(s[i..i + 4]) then
      assert YearAt(s, i);
      Some((s[i..i + 4], LineRest(s[i + 4..])))
    else SearchFrom(s, i + 1)
  }

  /** The split of tidydata's month code into year and month. An ordinary code
      (at least four characters, one line) splits into its first four
      characters and the remainder; a shorter one yields no match (both groups
      missing) instead of an error. */
  function SplitMonth(s: string): (r: Option<(string, string)>)
    ensures r.Some? ==> |r.value.0| == 4 && NoNewline(r.value.0) && NoNewline(r.value.1)
    ensures |s| < 4 ==> r.None?
    ensures NoNewline(s) && |s| >= 4 ==> r == Some((s[..4], s[4..]))
  {
    SearchOneLine(s);
    SearchFrom(s, 0)
  }

  /** On a one-line code of four or more characters the search matches at the
      start, and `.*` takes the rest of the code. */
  lemma SearchOneLine(s: string)
    ensures NoNewline(s) && |s| >= 4 ==> SearchFrom(s, 0) == Some((s[..4], s[4..]))
  {
    if NoNewline(s) && |s| >= 4 {
      assert YearAt(s, 0) by {
        forall k | 0 <= k < 4 ensures s[0..4][k] != '\n' { assert s[0..4][k] == s[k]; }
      }
      assert NoNewline(s[4..]) by {
        forall k | 0 <= k < |s[4..]| ensures s[4..][k] != '\n' { assert s[4..][k] == s[k + 4]; }
      }
      LineRestWhole(s[4..]);
    }
  }

  /** For an ordinary month code the two groups put back together give the code. */
  lemma SplitMonthRoundTrip(s: string)
    requires NoNewline(s) && |s| >= 4
    ensures SplitMonth(s).Some?
    ensures SplitMonth(s).value.0 + SplitMonth(s).value.1 == s
  {
    assert s[..4] + s[4..] == s;
  }

  // ----------------------------------------------------- coercion and split

  /** One merged row after the column updates of tidydata: the concentration
      replaced by its numeric coercion (parse stands for the source's lenient
      to-number conversion, a failure giving a missing value, never an
      error), and the year and month groups of the month code added. */
  function Normalize(parse: string -> Option<Num>, p: (Measurement, Station)): (r: Row)
    ensures r.concentration == parse(p.0.concentration)
    ensures r.year.Some? <==> r.month.Some?
    ensures r.year.Some? ==> |r.year.value| == 4
    ensures |p.0.monitormonth| < 4 ==> r.year.None? && r.month.None?
    ensures NoNewline(p.0.monitormonth) && |p.0.monitormonth| >= 4 ==>
              r.year.Some? && r.year.value + r.month.value == p.0.monitormonth
    ensures r.sitename == p.0.sitename && r.itemengname == p.0.itemengname && r.monitormonth == p.0.monitormonth
    ensures r.areaname == p.1.areaname && r.county == p.1.county
  {
    var m := p.0;
    var split := SplitMonth(m.monitormonth);
    assert |m.monitormonth| >= 4 ==> m.monitormonth[..4] + m.monitormonth[4..] == m.monitormonth;
    Row(m.sitename, m.itemengname, m.monitormonth, parse(m.concentration), p.1.areaname, p.1.county,
        if split.Some? then Some(split.value.0) else None,
        if split.Some? then Some(split.value.1) else None)
  }

  function Normalizer(parse: string -> Option<Num>): ((Measurement, Station)) -> Row
  {
    p => Normalize(parse, p)
  }

  // ----------------------------------------------------------------- tidydata

  /** tidydata: rename, select the three items, merge the stations, coerce and
      split. It fails only on a column the source looks up and cannot find,
      reporting the first such lookup; otherwise every row it returns is of a
      kept item. */
  function TidyData(air: Table, site: Table, parse: string -> Option<Num>): (r: Result<seq<Row>, Error>)
    ensures r.Failure? <==> !HasAirColumns(Rename(air, NewColNames)) || !HasStationColumns(site)
    ensures r.Failure? ==> Some(r.error) == FirstMissing(Rename(air, NewColNames), site)
    ensures r.Success? ==> forall i :: 0 <= i < |r.value| ==> r.value[i].itemengname in KeptItems
  {
    var named := Rename(air, NewColNames);
    match FirstMissing(named, site)
    case Some(e) => Failure(e)
    case None =>
      var merged := MergeStations(SelectItems(Measurements(named)), Stations(site));
      var rows := Map(merged, Normalizer(parse));
      assert forall i :: 0 <= i < |rows| ==> rows[i].itemengname in KeptItems by {
        forall i | 0 <= i < |rows| ensures rows[i].itemengname in KeptItems {
          assert rows[i] == Normalize(parse, merged[i]);
          var kept := SelectItems(Measurements(named));
          var j :| 0 <= j < |kept| && kept[j] == merged[i].0;
        }
      }
      Success(rows)
  }

  /** The rows of tidydata are exactly the normalized pairs of a kept measurement
      and a station of the same site. */
  lemma TidyDataRows(air: Table, site: Table, parse: string -> Option<Num>, row: Row)
    ensures TidyData(air, site, parse).Success? ==>
            (row in TidyData(air, site, parse).value <==>
             exists m, s :: m in Measurements(Rename(air, NewColNames)) && s in Stations(site) &&
                            m.itemengname in KeptItems && m.sitename == s.sitename && row == Normalize(parse, (m, s)))
  {
    if TidyData(air, site, parse).Failure? {
      return;
    }
    var named := Rename(air, NewColNames);
    var ms := Measurements(named);
    var ss := Stations(site);
    var kept := SelectItems(ms);
    var merged := MergeStations(kept, ss);
    assert TidyData(air, site, parse).value == Map(merged, Normalizer(parse));
    MapMembership(merged, Normalizer(parse), row);
    if row in TidyData(air, site, parse).value {
      var p :| p in merged && Normalizer(parse)(p) == row;
      MergeStationsMembership(kept, ss, p.0, p.1);
      FilterMembership(ms, IsKept, p.0);
      assert p.0 in ms && p.1 in ss && row == Normalize(parse, (p.0, p.1));
    }
    if exists m, s :: m in ms && s in ss && m.itemengname in KeptItems && m.sitename == s.sitename && row == Normalize(parse, (m, s)) {
      var m, s :| m in ms && s in ss && m.itemengname in KeptItems && m.sitename == s.sitename && row == Normalize(parse, (m, s));
      FilterMembership(ms, IsKept, m);
      MergeStationsMembership(kept, ss, m, s);
      assert (m, s) in merged && Normalizer(parse)((m, s)) == row;
    }
  }

  /** tidydata fails exactly when a needed measurement column is absent under
      both its quoted and its bare spelling, or a needed station column is absent. */
  lemma TidyDataFailure(air: Table, site: Table, parse: string -> Option<Num>)
    ensures TidyData(air, site, parse).Failure? <==>
            (exists c :: c in AirColumns && c !in air.columns && Quote(c) !in air.columns) ||
            (exists c :: c in StationColumns && c !in site.columns)
  {
    var named := Rename(air, NewColNames);
    forall c | c in AirColumns ensures c in named.columns <==> c in air.columns || Quote(c) in air.columns {
      RenameFinds(air, c);
    }
  }
}
