# Air-quality bubble chart: the tidying pipeline

This project models the data pipeline behind the air-quality bubble chart of
`Bubble.py`. The pipeline reads a monthly measurement table and a station
table. `tidydata` renames the quoted headers of the measurement table and keeps
the NOx, SO2 and ambient-temperature (AMB_TEMP) readings. It attaches each
site's air-quality region and county with an inner join on the site name. It
coerces the concentration to a number, and splits the month code (`202301`)
into a year (`2023`) and a month (`01`).

`transform` turns the AMB_TEMP readings into a temperature column. It joins
that column onto the NOx and SO2 readings that share year, month, site, county
and region. It then drops the rows missing a temperature or a concentration,
and fills what is still missing with zero. The top level keeps nine columns in
a fixed order. The chart shows the rows of one selected region.

Everything here is a pure function over sequences of records. The modelled
part of the source has no loops: its column assignments act on data frames
local to the function that returns them, and the model states them as per-row
maps.

- `wrappers.dfy` (`Wrappers`): `Option` and `Result`.
- `relational.dfy` (`Relational`): the data-frame operations the pipeline uses.
  - Row selection (`Filter`) and column computation (`Map`).
  - Inner equi-join (`Join`, with its per-row part `Matches`).
  - Lemmas about these operations: membership, multiplicity, fan-out, order.
- `tables.dfy` (`Tables`): a table as a header plus rectangular rows of text
  cells, looked up by column name. It also defines the typed rows of each stage
  and the one error, a missing column.
- `tidy.dfy` (`Tidy`): `tidydata`.
- `pivot.dfy` (`Pivot`): `transform`.
- `dashboard.dfy` (`Dashboard`): the two steps composed, the final column
  projection, and the region filter of `plot`.
- `examples.dfy` (`Examples`): one site's AMB_TEMP and NOx readings for one
  month, which give exactly one tidy row. Also a station table without a
  `county` column, which fails on that column.

Two facts about the code that a reader might expect otherwise:
- The month key is the separate `year` and `month` groups of the month code.
- A region with no rows gives an empty table, and the code raises no separate
  condition for it.

## Model

| member | source | states |
|---|---|---|
| Tidy.Rename | Bubble.py:19-21 | Only the header changes. Rows and cells are untouched; each mapped header takes its new name and every other header is kept as it is. |
| Tidy.NewColNamesUnquote | Bubble.py:19-20 | The fixed mapping takes exactly the eight quoted canonical names, each to its bare name. |
| Tidy.RenameIdempotent | Bubble.py:19-21 | Renaming twice is the same as renaming once. |
| Tidy.RenameFinds | Bubble.py:19-21 | After the rename, a canonical column is present iff the raw header held it quoted or already bare. |
| Tidy.FirstMissing | Bubble.py:24-32 | No error iff all four measurement columns and all three station columns are present. Otherwise, the named column is a needed one, absent from the table it is reported for, and it is the first failing lookup in the source's order: `itemengname` (line 24), then the station's `sitename`, `areaname`, `county` (line 25), then the measurement's `sitename` (line 25), `concentration` (line 28) and `monitormonth` (line 32). |
| Tidy.Measurements | Bubble.py:24-32 | One measurement per row; its site, item, month code and concentration are that row's cells in the columns of those names. |
| Tidy.Stations | Bubble.py:25 | The projection `site_df[['sitename', 'areaname', 'county']]`: one station per row, holding that row's cells in the three columns. |
| Tidy.SelectItems | Bubble.py:24 | Every surviving row is a NOx, SO2 or AMB_TEMP reading. |
| Tidy.SelectItemsExact | Bubble.py:24 | A row of a kept item survives exactly as often as it occurs; any other row does not survive. |
| Tidy.SelectItemsOrder | Bubble.py:24 | The selection distributes over concatenation, so survivors keep their order. |
| Tidy.MergeStations | Bubble.py:25 | Every merged pair is a measurement and a station from the inputs with the same site. |
| Tidy.MergeStationsMembership | Bubble.py:25 | A pair is in the merge iff both rows are in the inputs and their sites agree. |
| Tidy.MergeStationsFanOut | Bubble.py:25 | A measurement occurring n times whose site has k station rows comes out n*k times: no deduplication. |
| Tidy.MergeStationsUnmatched | Bubble.py:25 | A measurement whose site has no station row disappears. |
| Tidy.SearchFrom | Bubble.py:33 | Regex search for `(.{4})(.*)`. There is no match iff no four newline-free characters start at or after i. On a match the groups come from the first such position, and the second group runs to the end of that line. |
| Tidy.LineRest | Bubble.py:33 | What `.*` takes: a newline-free prefix of the input, stopped only by a newline or the end. |
| Tidy.SplitMonth | Bubble.py:33 | A year group always has four characters. A code shorter than four characters gives no match, not an error. A one-line code of four or more characters splits into its first four characters and the rest. |
| Tidy.SplitMonthRoundTrip | Bubble.py:33 | For such a code, year followed by month gives back the code. |
| Tidy.Normalize | Bubble.py:28-33 | The concentration is the lenient coercion of the text, and a failure gives a missing value. Year and month are both present or both missing; a code shorter than four characters gives neither, and for a one-line code of four or more characters they rebuild the code. Site, item, month code, region and county are carried over. |
| Tidy.TidyData | Bubble.py:17-35 | Fails iff a needed column is missing after the rename, and reports the first failing lookup. On success, every row is of a kept item. |
| Tidy.TidyDataRows | Bubble.py:17-35 | A row is in the result iff it normalizes a kept measurement paired with a station of the same site. |
| Tidy.TidyDataFailure | Bubble.py:17-35 | Fails iff some needed measurement column is absent under both its quoted and its bare name, or some station column is absent. |
| Pivot.ToTemp | Bubble.py:41-42 | A temperature row keeps the merge key, and its temperature is the reading's concentration. |
| Pivot.TemperatureTable | Bubble.py:40-42 | Every row of the side table carries the merge key of an AMB_TEMP row of the input and that row's concentration as its temperature. |
| Pivot.TemperatureTableRows | Bubble.py:40-42 | The temperature table holds exactly the projections of the input's AMB_TEMP rows. |
| Pivot.PollutantRows | Bubble.py:44 | Every row kept is an input row of NOx or SO2. |
| Pivot.Attach | Bubble.py:46 | A joined pair becomes the pollutant row with the temperature row's temperature; it is complete iff the concentration and the temperature are both present. |
| Pivot.MergeTemperature | Bubble.py:45-46 | Every merged row is a pollutant row with the temperature of a temperature row of the same key. |
| Pivot.DropNa | Bubble.py:49 | Every remaining row is an input row with both temperature and concentration present. |
| Pivot.Fill | Bubble.py:50-51 | A missing temperature becomes 0 and a present one is kept; the same for the concentration. The result is complete, a complete row is unchanged, and no other field changes. |
| Pivot.FillNa | Bubble.py:50-51 | Row i of the result is row i of the input filled by Fill: same length, every row complete, items unchanged. |
| Pivot.FillNaAfterDropNa | Bubble.py:49-51 | After the drop, the fill changes nothing. |
| Pivot.Transform | Bubble.py:38-53 | Every output row is a NOx or SO2 reading with a concentration and a temperature. |
| Pivot.TransformShape | Bubble.py:38-53 | transform is the inner join of the pollutant rows that have a concentration with the temperature rows that have a value. |
| Pivot.TransformPartner | Bubble.py:38-53 | Every output row is a pollutant row of the input, and its temperature is the value of an AMB_TEMP row with the same year, month, site, county and region. |
| Pivot.TransformDropsUnmatched | Bubble.py:44-49 | A pollutant row with no AMB_TEMP row of the same key comes out nowhere. |
| Pivot.TransformKeepsMatched | Bubble.py:44-49 | A pollutant row with a concentration and an AMB_TEMP row of the same key that has a value give an output row carrying that temperature. |
| Pivot.CountTemperatureTable | Bubble.py:40-42 | Per key, the temperature rows that have a value are the AMB_TEMP readings that have a value. |
| Pivot.TransformCount | Bubble.py:38-53 | A pollutant row with a concentration comes out (occurrences × temperature readings under its key) times; any other row never comes out. |
| Relational.Filter | Bubble.py:24 | A boolean mask (also lines 40, 44, 49 and 64): every kept row is an input row that satisfies the condition, and never more rows than the input. |
| Relational.Join | Bubble.py:46 | An inner merge (also line 25): every pair is a left row and a right row of the inputs with equal keys. |
| Relational.JoinMembership | Bubble.py:46 | A pair is joined iff its rows come from the two inputs and their keys agree. |
| Relational.JoinMultiset | Bubble.py:46 | A pair with equal keys occurs (left count × right count) times; any other pair never occurs. |
| Relational.JoinFanOut | Bubble.py:25 | A left row comes out (its occurrences × the right rows with its key) times. |
| Relational.FilterJoin | Bubble.py:46-49 | Filtering a join by a condition on both sides is the join of the filtered sides. |
| Relational.FilterMultiset | Bubble.py:24 | A row of a selection occurs as often as in the input when it passes, and otherwise not at all. |
| Dashboard.Project | Bubble.py:56-57 | The projection to the nine kept columns loses nothing, so the merged row can be rebuilt from it. |
| Dashboard.TidyTable | Bubble.py:55-57 | Fails iff tidydata fails. On success, every row is a NOx or SO2 reading with a concentration and a temperature. |
| Dashboard.RegionFilter | Bubble.py:64 | Every selected row is an input row of the chosen region. |
| Dashboard.RegionFilterExact | Bubble.py:64 | A row of the region survives as often as it occurs; any other row does not survive. |
| Dashboard.RegionFilterOrder | Bubble.py:64 | The filter distributes over concatenation, so the survivors keep their order. |
| Dashboard.RegionFilterEmpty | Bubble.py:64 | The selection is empty iff no row is of the region. |
| Examples.EndToEndExample | Bubble.py:55-57 | One site's AMB_TEMP 15.0 and NOx 20.0 readings for 202301 give the single row (2023, 01, A, X, region, 15.0, NOx, 20.0, 202301). |
| Examples.MissingCountyExample | Bubble.py:25 | A station table without `county` fails, naming that column. |

## Left out

- Reading the two CSV files (lines 12-13) is left out. Tables are given as values, and every cell is text. NaN cells and the type inference of `read_csv` are not modelled.
- The float semantics of `pd.to_numeric(errors='coerce')` (line 28) are left out. The coercion is a parameter `parse` from text to an optional number, and no numeric property is claimed about it.
- The two `print` calls (lines 29 and 59) are output only, so they are left out.
- The Plotly figure, the concentration range, the styling loop and the Streamlit page (lines 66-88) are presentation and are left out. Only the region filter that feeds them (line 64) is modelled.
- Relational.Join: the source's merge promises no particular row order. The model fixes one order (left rows in order, each with its partners in order). Membership and multiplicity results do not depend on it. These members state exact sequences under that order: Relational.FilterJoin, Pivot.TransformShape, Examples.ExampleSelectAndMerge, Examples.ExampleMerged, Examples.ExampleTidyData, Examples.ExampleTransform and Examples.EndToEndExample. In the examples each join has at most one partner per row, so there only the order of the input rows matters.
- Tables.Measurement keeps only the four measurement columns the pipeline reads. `siteid`, `itemid`, `itemname` and `itemunit` are never looked up, and the projection at line 57 drops them. Other unmapped columns are not carried either; see the next line for when that matters.
- Column-name clashes in the two merges are left out. If the measurement table also had `areaname` or `county`, pandas would add suffixes at line 25; the model takes these from the station only. If it had a column named `temperature`, that column would pass through tidydata and clash with the temperature column at line 46; pandas would rename both copies (`temperature_x`, `temperature_y`) and line 49 would then raise a KeyError, where the model returns rows.
- A header that appears twice (for instance both `"sitename"` with quotes and `sitename` after the rename) is read through its first occurrence. A data frame with duplicate columns is not modelled.
- Tidy.FirstMissing: for a station projection missing several columns, pandas names them all in one KeyError message. The model reports the first missing one only.
