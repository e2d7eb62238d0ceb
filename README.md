# Airports EDA: cleaning and aggregation core

This project models the logic of two analysis scripts for an airports dataset, and proves
properties about that model. `eda_airports.py` cleans the loaded table, then builds an overview
and two top-10 tables. `task3_visualization.py` reloads the cleaned table and builds the data for
three charts. All the logic the scripts write themselves is covered:

- **Placeholder filling.** A missing `icao` becomes `"Not Available"` and a missing `time`
  becomes `"Unknown"`. Present values are kept (`FillNaColumn`, `EdaAirports.Clean`).
- **Country extraction.** The country is `location.split(',')[-1].strip()`
  (`Text.ExtractCountry`). `Text.IsSpace` lists Python's `str.isspace()` characters exactly.
  The country is the stripped text after the last comma. It holds no comma and no outer
  whitespace, so extracting it again returns it unchanged. A missing location (NaN) has no
  `split` and raises. That case is modelled as an error result (`ApplyExtractCountry`
  returns `None`), not as a precondition.
- **Continent classification.** A fixed 11-entry table is used, and any other country (or a
  missing one) gets `"Other"` (`Continents.ContinentOf`).
- **Frequency tables.** `value_counts()` and `value_counts().head(10)` are specified by the
  predicates `Frequency.IsValueCounts` and `Frequency.IsTopTable`:
  - missing cells are not counted;
  - values are distinct and each count is exact;
  - counts do not increase down the table;
  - a value is left out of a top table only when the table is full, and then it occurs no more
    often than the last value listed.

  The order among equal counts is left open. `ValueCounts` and `Top` compute one valid table
  (an insertion sort by count). The lemmas about tables hold for every valid table.

The DataFrame is the class `Airports.Frame`. Its rows are an array of `Row` records whose cells
are `Option<string>`; `None` is pandas' NaN. Columns the scripts never name are carried in
`Row.others`. A column assignment `df[c] = ...` is `Frame.SetColumn`. It rewrites column `c` of
every row in place and leaves every other column and the row count alone. The column
expressions on the right-hand side are pure functions.

## Model

| member | source | states |
|---|---|---|
| `Text.LeadingSpaces` | eda_airports.py:35 | the length of the longest whitespace prefix, where whitespace is Python's set (the part `strip()` removes on the left) |
| `Text.TrailingSpaces` | eda_airports.py:35 | the length of the longest whitespace suffix (the part `strip()` removes on the right) |
| `Text.Strip` | eda_airports.py:35 | `strip()`: the result neither starts nor ends with whitespace |
| `Text.StripIsTrimmedSlice` | eda_airports.py:35 | the result of `strip()` is a slice of its argument, and only whitespace lies on either side of it |
| `Text.StripUnpadded` | eda_airports.py:35 | `strip()` leaves a string without outer whitespace unchanged |
| `Text.StripIdempotent` | eda_airports.py:35 | `strip()` applied twice equals `strip()` applied once |
| `Text.AfterLastComma` | eda_airports.py:35 | `split(',')[-1]` is the suffix after the last comma (the whole string when there is no comma); it contains no comma |
| `Text.AfterLastCommaNoComma` | eda_airports.py:35 | a string without a comma splits into itself |
| `Text.ExtractCountry` | eda_airports.py:35 | the derived country contains no comma and has no leading or trailing whitespace |
| `Text.ExtractCountryIsLastField` | eda_airports.py:35 | the derived country is the stripped text after the last comma of the location (all of it, stripped, when there is no comma) |
| `Text.ExtractCountryIdempotent` | task3_visualization.py:10 | extracting the country from an extracted country returns it unchanged (same rule in both scripts) |
| `Frequency.Count` | eda_airports.py:62 | the number of cells holding a value equals its multiplicity in the column's multiset; it is positive exactly when the value occurs |
| `Frequency.Present` | eda_airports.py:65 | the number of non-missing cells is at most the row count; it equals the row count exactly when no cell is missing, and is zero exactly when all are |
| `Frequency.Distinct` | eda_airports.py:62 | the distinct values of a column, without repeats, and exactly those that occur |
| `Frequency.Tally` | eda_airports.py:62 | one line per occurring value with its exact count, covering every value |
| `Frequency.InsertByCount` | eda_airports.py:62 | insertion adds exactly one line: as a multiset, the result is the table plus the new line |
| `Frequency.InsertKeepsOrder` | eda_airports.py:62 | insertion keeps a table sorted by non-increasing count |
| `Frequency.SortByCount` | eda_airports.py:62 | the sorted table is a permutation of the input, with counts non-increasing |
| `Frequency.SortKeepsDistinct` | eda_airports.py:62 | sorting keeps the values distinct |
| `Frequency.ValueCounts` | task3_visualization.py:56 | the result is a valid `value_counts()` table: distinct values, exact counts, every occurring value, non-increasing counts |
| `Frequency.ValueCountsUpToOrder` | task3_visualization.py:56 | any two valid `value_counts()` tables of a column hold the same lines and have the same length, the number of distinct values; only the order of ties can differ |
| `Frequency.ListsEveryValue` | eda_airports.py:62 | a complete tally lists exactly the values occurring in the column |
| `Frequency.HeadOfValueCounts` | eda_airports.py:62 | `head(k)` of any valid `value_counts()` table, whatever its tie order, is a top-k table |
| `Frequency.Top` | eda_airports.py:62 | `value_counts().head(k)` gives at most k distinct values with exact counts, non-increasing; a value missing from a full table occurs no more often than the last one listed |
| `Frequency.TopTableSize` | task3_visualization.py:13 | a top-k table has exactly min(k, number of distinct values) lines |
| `Frequency.TallySum` | eda_airports.py:65 | the counts of a complete tally add up to the number of non-missing cells |
| `Frequency.CountsCoverEveryRow` | eda_airports.py:65 | with no missing cell (time after line 32, continent after line 55), the counts of any valid `value_counts()` table add up to the row count |
| `Continents.ContinentOf` | task3_visualization.py:41-55 | every label is one of the six continent names; it is "Other" exactly when the country is missing or not literally a key; otherwise it is the table's continent for that key |
| `Continents.OnlyExactKeysAreMapped` | task3_visualization.py:41-53 | only the 11 literal keys get a continent other than "Other" |
| `Airports.FillNaColumn` | eda_airports.py:31-32 | after `fillna`, no cell is missing; present cells keep their value and missing ones hold the placeholder |
| `Airports.ApplyExtractCountry` | eda_airports.py:35 | the derived column exists exactly when every location is present; then each cell is the extracted country of its row's location |
| `Airports.MapContinent` | task3_visualization.py:55 | every cell gets the classification of its row's country, and none is missing |
| `Airports.Frame.ColumnCount` | eda_airports.py:53 | `df.shape[1]`, the "Columns" metric: `otherColumns` plus the named columns the table has. icao, location and time are always present, country and continent only when the table has them; the result lies between 3 and 5 plus `otherColumns` |
| `Airports.Frame.Values` | eda_airports.py:31-35 | `df[c]`: one cell per row, holding that row's cell in column c, in row order |
| `Airports.Frame.Load` | eda_airports.py:22 | the loaded table holds the given rows, in order, with the given columns |
| `Airports.Frame.SetColumn` | eda_airports.py:31-35 | `df[c] = cells` rewrites column c of every row, adds the column if absent, and leaves every other column and the row count unchanged |
| `EdaAirports.Clean` | eda_airports.py:31-35 | every icao and time is present: the placeholder where it was missing, unchanged otherwise. Location, continent and other columns are unchanged. The country is derived exactly when all locations are present; otherwise the country column is unchanged |
| `EdaAirports.Summarize` | eda_airports.py:51-66 | needs a country column, as `df['country']` does. "Rows" is the row count and "Columns" the column count; both top tables satisfy the top-10 specification over the cleaned columns |
| `EdaAirports.Run` | eda_airports.py:31-66 | every icao and time is filled, and location, continent and the other columns are unchanged. The run succeeds exactly when every location is present; on failure the country column is unchanged. On success each country is extracted from its row's location, and "Rows" equals the input row count. "Columns" grows by one only if the country column is new. The top tables are valid for the derived country and filled time columns, and the time-zone counts of any valid `value_counts()` add up to the row count |
| `Task3Visualization.EnsureCountry` | task3_visualization.py:9-10 | a loaded country column is kept as it is; otherwise the country is derived by the same rule, and only that column changes |
| `Task3Visualization.ClassifyContinents` | task3_visualization.py:55-56 | each row's continent is the classification of its country. The continent counts form a valid `value_counts()`, add up to the row count, and use only the six labels |
| `Task3Visualization.ContinentCountsPartition` | task3_visualization.py:55-56 | every row lands in exactly one continent bucket: the counts add up to the number of rows and every bucket is one of the six labels |
| `Task3Visualization.Run` | task3_visualization.py:9-56 | the country column is derived only when it is absent. The top-10 country and time-zone tables are valid, and the continent counts partition the rows. Only the country and continent columns change |

## Left out

- CSV reading and writing (`read_csv` at eda_airports.py:22 and task3_visualization.py:5, `to_csv` at eda_airports.py:44). The loaded table is the argument of `Frame.Load`. The round trip through the file is not modelled. For example, an empty derived country would be read back as NaN.
- The row schema: every row has `icao`, `location` and `time` cells. A file lacking one of these columns would raise `KeyError`; that case is not modelled. Location cells are strings or missing; other non-string cell types are not modelled.
- Chart rendering and `savefig` (matplotlib). The bar charts at eda_airports.py:75 and 84 re-evaluate the same `value_counts().head(10)` as lines 62 and 65, so they are described by `Frequency.Top`.
- The `reset_index()` at eda_airports.py:62 and 65 and the column renaming at lines 63 and 66. They only relabel the two columns of each table.
- PDF assembly with ReportLab and the try/except around `doc.build` (eda_airports.py:96-156). This is a document library plus I/O error handling.
- The hard-coded observation text (eda_airports.py:140-146). Its figures are literals, not computed values.
- Base-directory handling with `os.path`, and all `print`, `head()` and `info()` output.
- The generic `isnull().sum()` and `nunique()` tables (eda_airports.py:56-60). The facts they would show for icao and time (zero missing) are ensures of `EdaAirports.Clean`. `Frequency.PresentValues` is the set that `nunique()` would count.
- The order among values with equal counts in `value_counts()`. pandas does not fix it, and the model leaves it free.
