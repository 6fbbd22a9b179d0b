# Recife service requests and GOG catalogue: table pipelines in Dafny

This project models, as pure functions over immutable tables, the data logic
of two small pandas scripts and the dashboard built on one of them. It proves
what each step does to the rows and columns.

- **`tratamento_dados`** (`Enlurb2024/tratamento.py`) cleans the city of
  Recife's "156" service-request table.
  - It derives five columns from the two request dates: DIFERENCA_DIAS, MES, DIA, ANO and DIA_SEMANA.
  - It drops six columns (codes, address and coordinates).
  - It renders the district code RPA as text and maps it to a ZONA, with `Não Informado` as the default.
  - It keeps the 2024 requests of four service groups.
- **The Streamlit dashboard** (`Enlurb2024/streamlitdash.py`) shows values computed from that table:
  - the four-way sidebar selection;
  - the three KPIs: total, percentage attended and mean days;
  - the `groupby(...).size()` tables by month and by zone;
  - the two top-10 rankings: neighbourhoods, and (group, service) pairs;
  - the weekday-name table;
  - the attended percentage per month.
- **The GOG catalogue overview** (`GOGView/datasetoverview.py`) prepares the game catalogue.
  - It keeps released games and drops 26 columns.
  - It coerces `dateGlobal` to a date, where an unreadable value becomes missing, and derives its year and month.
  - It lists the distinct genres and operating systems with `explode().unique()`.

## How a table is modelled

- **Frames.**
  - A frame (module `Frames`) is a list of column names plus a sequence of rows.
  - A row is a `map<string, Cell>`.
  - A `Cell` is missing (`Null`, which stands for pandas' NaN/NaT/None), a boolean, an integer, a string, a calendar date or a list of strings.
- **The three frame operations** the scripts use are modelled with the semantics pandas gives them:
  - Column assignment (`WithColumn`) appends a new column or overwrites an existing one.
  - `drop(columns=...)` requires every named column to exist. pandas raises KeyError otherwise.
  - Boolean-mask indexing (`Where`) is an order-preserving filter.
- **Dates** (module `Calendar`) are proleptic Gregorian.
  - The day number follows Python's `date.toordinal`.
  - The weekday is `dt.dayofweek`, with 0 = Monday.
- **`groupby(...).size()`** (module `Grouping`) follows pandas' defaults:
  - A row whose key has a missing part is in no group.
  - Groups come in ascending key order.
  - Within one kind, numbers order numerically, strings by code point, dates by calendar order, and tuples lexicographically.
  - Across kinds the model fixes an order by kind. pandas defines none; this is the model's convention. It is harmless, because each grouping column holds one kind of value besides missing ones.
- **The top-10 rankings.** pandas does not fix the order among equal counts. So `TopN` states what every admissible ranking satisfies and computes one of them.
- **Drop of an absent column.** The code calls `drop` with its default `errors='raise'`, which raises KeyError on an absent column. The model follows the code: column presence is a precondition (`ParsedTable`, `GogInput`).
- **The weekday table** (lines 86-87) is grouped and then sorted by the weekday name. It therefore comes out alphabetically (Domingo, Quarta, Quinta, Segunda, Sexta, Sábado, Terça), not Monday to Sunday (`Dashboard.WeekdayTableOrder`). The `sort_values` of line 87 sorts by the key `groupby` already sorted on, so `ByWeekday` models both lines.
- **RPA as text** (`astype(str)`, line 25) depends on the dtype `read_csv` gave the column. Integer codes alone load as int64 and render as "1". With a missing code among them the column loads as float64 and they render as "1.0", which is not a key of the zone table. `FloatCodes` says which case applies, and the enriched rows depend on it (`Tratamento.ScenarioFloatCodes`).
- **The month-rate chart** (line 94) raises TypeError when no row of the view has a month, an empty view included. With no group, `apply` returns a DataFrame, and `DataFrame.reset_index` takes no `name` argument. The page stops there, so `Render` reports neither the month rates nor the services ranking of line 101 in that case (`Dashboard.MonthTableEmpty`).
- **The mean elapsed time** (line 55) is pandas' `mean`. It averages the present DIFERENCA_DIAS values and skips missing ones. It is NaN when rows exist but none has a value, and 0 for an empty view.

## Model

| member | source | states |
|---|---|---|
| Tratamento.TratamentoDados | Enlurb2024/tratamento.py:11-49 | The result columns are the input columns minus the six dropped, plus the six added. The rows are exactly the enriched input rows whose demand date is in 2024 and whose group is one of the four, in input order. RPA is rendered as the loaded column's dtype dictates. |
| Tratamento.Prepare | Enlurb2024/tratamento.py:15-39 | Before the row filters, every input row is enriched and none is removed. The columns are the input's minus the six dropped, plus the six added. |
| Tratamento.AddDateColumns | Enlurb2024/tratamento.py:15-19 | Each row gains exactly the five derived date cells, and every other cell is unchanged. The columns are the input's plus the five. |
| Tratamento.AddZone | Enlurb2024/tratamento.py:25-39 | Each row's RPA becomes the text `str()` gives it under the column's dtype (for float64, within the range named under "## Left out"), and ZONA becomes the zone of that text. Nothing else changes. |
| Tratamento.AsStr | Enlurb2024/tratamento.py:25 | `astype(str)` of one RPA cell: missing becomes "nan", a boolean "True"/"False", text stays, and an integer becomes its decimal digits, with ".0" appended when the column is float64. `DigitsRoundTrip` states that the digits read back to the integer, and `IntCodeZone` what each rendering maps to. |
| Tratamento.FloatCodes | Enlurb2024/tratamento.py:8 | When `read_csv` loads RPA as float64: some value is missing and every value is missing or an integer. `ScenarioFloatCodes` shows a single missing value changing code 1 from Centro to Não Informado. |
| Tratamento.ZoneOf | Enlurb2024/tratamento.py:28-39 | The zone is always one of Centro, Norte, Oeste, Sul or Não Informado: ZONA is never missing. |
| Tratamento.ZoneOfCases | Enlurb2024/tratamento.py:28-39 | The table read in both directions: Centro iff "1"; Norte iff "2" or "3"; Oeste iff "4"; Sul iff "5" or "6"; Não Informado iff any other string. |
| Tratamento.IntCodeZone | Enlurb2024/tratamento.py:25-39 | In an int64 column a district code gets a real zone iff it is 1 to 6. In a float64 column no code gets one, since "1.0" is not a key. A missing code renders as "nan" and gets the default. |
| Tratamento.DigitsRoundTrip | Enlurb2024/tratamento.py:25 | The decimal rendering of an int reads back as the same number. It uses only digits and has no leading zero unless the number is 0. |
| Tratamento.DateColumnsRebuildDate | Enlurb2024/tratamento.py:16-19 | MES, DIA and ANO put back together give DATA_DEMANDA. MES is 1..12, DIA is 1..31 and DIA_SEMANA is 0..6. All four are missing exactly when the date is. |
| Tratamento.ElapsedDaysSign | Enlurb2024/tratamento.py:15 | DIFERENCA_DIAS is missing iff either date is. Otherwise it is 0 iff the dates are equal, and negative iff the last update precedes the demand, which nothing rejects. |
| Tratamento.WeekdayOfNextDay | Enlurb2024/tratamento.py:19 | A demand one day later has the next DIA_SEMANA, wrapping from Sunday (6) to Monday (0). |
| Tratamento.EnrichedRow | Enlurb2024/tratamento.py:22-39 | An output row has none of the six dropped columns. Its RPA is the input code as text, and its ZONA is the zone of that text. |
| Tratamento.Enrich | Enlurb2024/tratamento.py:15-39 | What lines 15-39 do to one row: add the five date cells, drop the six columns, rewrite RPA as text and add ZONA. `EnrichedRow`, `EnrichedDates`, `EnrichedCarried` and `Untouched` state the result cell by cell. |
| Tratamento.EnrichedCarried | Enlurb2024/tratamento.py:22-39 | The group, the status and the demand date pass through the pipeline unchanged. |
| Tratamento.Untouched | Enlurb2024/tratamento.py:15-39 | Every column the pipeline neither drops, derives nor rewrites keeps its value. |
| Tratamento.EnrichedDates | Enlurb2024/tratamento.py:15-19 | The five date columns of an output row are the ones derived from its input dates. |
| Tratamento.KeptIffFiltered | Enlurb2024/tratamento.py:42-45 | The filters on the derived ANO and on the group column keep a row iff its demand date is a 2024 date and its group is one of the four. |
| Tratamento.FilterEnriched | Enlurb2024/tratamento.py:42-45 | Filtering the enriched table equals enriching the rows the filters keep. |
| Tratamento.TratamentoRows | Enlurb2024/tratamento.py:39-45 | Every returned row has ANO 2024, one of the four groups, a ZONA among the five, MES 1..12, DIA 1..31 and DIA_SEMANA 0..6. Each is a kept input row enriched, and every kept input row is returned. |
| Tratamento.TratamentoIsSubseq | Enlurb2024/tratamento.py:42-45 | The two filters only remove rows: the output is an order-preserving subsequence of the enriched table. |
| Tratamento.ScenarioKeptCentral | Enlurb2024/tratamento.py:15-45 | A drainage request from district 1 dated 2024-03-01, last updated 2024-03-05, is kept. It has 4 elapsed days, weekday 4 (Friday) and zone Centro. |
| Tratamento.ScenarioUnmappedCode | Enlurb2024/tratamento.py:38-39 | A request with district code "9" is kept with zone Não Informado. |
| Tratamento.ScenarioFloatCodes | Enlurb2024/tratamento.py:25-39 | Code 1 alone loads as an integer and gets zone Centro. Next to a missing code the column is float64, code 1 renders as "1.0", and the zone is Não Informado. |
| Tratamento.ScenarioDropped | Enlurb2024/tratamento.py:42-45 | A 2023 request is filtered out, and so is a 2024 request of another service group. |
| Calendar.DaysBetweenSign | Enlurb2024/tratamento.py:15 | The day difference is 0 iff the dates are equal, negative iff the second is earlier, and positive iff it is later. |
| Calendar.DayNumberNextDay | Enlurb2024/tratamento.py:15 | Consecutive calendar days have consecutive day numbers. |
| Calendar.WeekdayNextDay | Enlurb2024/tratamento.py:19 | The weekday of the next day is one more, modulo 7. |
| Calendar.March2024 | Enlurb2024/tratamento.py:15-19 | 2024-03-01 is a Friday (4), 2024-03-04 is a Monday (0), and 2024-03-05 is 4 days after 2024-03-01. |
| Frames.WithColumn | Enlurb2024/tratamento.py:15-19 | Assigning a column sets that cell on every row and leaves the other cells alone. A new column is appended, and an existing one keeps its place. |
| Frames.Drop | Enlurb2024/tratamento.py:22 | The named columns disappear from the columns and from every row. Every other column keeps its relative position and its values. |
| Frames.Where | Enlurb2024/tratamento.py:42-45 | Mask indexing keeps exactly the rows satisfying the mask, as an order-preserving subsequence, with each kept row's multiplicity unchanged. |
| Frames.ColumnValues | Enlurb2024/streamlitdash.py:32-35 | `unique()` as a set: a value is listed iff some row holds it. |
| Frames.KeyLessStrictTotal | Enlurb2024/streamlitdash.py:101 | The order on group keys, lexicographic over cells, is a strict total order. |
| Seqs.Filter | Enlurb2024/tratamento.py:42 | A mask keeps each element iff it satisfies the predicate, as often as it occurs, and in order. |
| Seqs.FilterFilter | Enlurb2024/tratamento.py:42-45 | Two masks in a row keep what their conjunction keeps. |
| Seqs.FilterKeepsAll | Enlurb2024/streamlitdash.py:39-44 | A mask returns the whole table iff it holds on every row. |
| Seqs.FilterCount | Enlurb2024/streamlitdash.py:52 | A mask keeps every row iff it holds on all of them, and none iff it holds on none. |
| Seqs.FilterIsSubseq | Enlurb2024/tratamento.py:42-45 | The kept rows form an order-preserving subsequence. |
| Seqs.FilterMap | Enlurb2024/tratamento.py:38-45 | Filtering after a row-wise derivation equals deriving after filtering, when the two predicates agree through the derivation. |
| Seqs.Unique | GOGView/datasetoverview.py:32 | `unique()` lists no value twice, and lists a value iff it occurs. |
| Seqs.UniqueFirstAppearanceOrder | GOGView/datasetoverview.py:32 | The values come out in the order of their first appearance. |
| Seqs.UniqueOnce | GOGView/datasetoverview.py:38 | Each occurring value is listed exactly once. |
| Seqs.UniqueOfDistinct | GOGView/datasetoverview.py:32 | `unique()` returns its input unchanged iff the input has no repeats. |
| Order.SortedSet | Enlurb2024/streamlitdash.py:62 | The group keys (`sort=True`) are the distinct keys, in strictly ascending order. |
| Order.StrictlySortedUnique | Enlurb2024/streamlitdash.py:87 | Two strictly sorted lists with the same elements are equal, so sorting by name fixes the layout of the table. |
| Order.LexStrictTotal | Enlurb2024/streamlitdash.py:101 | Tuple keys compared lexicographically form a strict total order whenever their parts do. |
| Order.StrLessStrictTotal | Enlurb2024/streamlitdash.py:87 | String comparison by code point is a strict total order. |
| Grouping.GroupSizes | Enlurb2024/streamlitdash.py:62 | One line per distinct complete key, in ascending key order, whose size is the key's number of occurrences. Every complete key occurring is listed, and no size is 0. |
| Grouping.GroupSizesTotal | Enlurb2024/streamlitdash.py:70 | The sizes add up to the number of rows whose key has no missing part. |
| Grouping.SortBySizeDesc | Enlurb2024/streamlitdash.py:77 | The groups, reordered by non-increasing size: a permutation of the input. |
| Grouping.TopN | Enlurb2024/streamlitdash.py:77 | `head(n)` of the size-sorted table holds min(n, groups) of the input groups, by non-increasing size. A group left out means the ranking is full and no shown group is smaller. |
| Dashboard.FilterView | Enlurb2024/streamlitdash.py:39-44 | A row is in `filtered_df` iff its group, zone, month and status are each selected. Table order and multiplicity are preserved. The four columns must exist (KeyError otherwise). |
| Dashboard.DefaultSelectionKeepsAll | Enlurb2024/streamlitdash.py:32-44 | With the default selections (every value present), the filter returns the whole table. |
| Dashboard.NarrowerSelectionSubseq | Enlurb2024/streamlitdash.py:32-44 | Deselecting values only removes rows from the view. |
| Dashboard.Ratio | Enlurb2024/streamlitdash.py:52 | The percentage lies in [0, 100]. It is 100 iff the count is the non-zero total, and 0 iff the count is 0. |
| Dashboard.PercentAttended | Enlurb2024/streamlitdash.py:52 | `% Atendida` lies in [0, 100]. It is 100 iff the view is non-empty and every row is ATENDIDA, and 0 iff none is (an empty view included). |
| Dashboard.ElapsedValues | Enlurb2024/streamlitdash.py:55 | These are the present DIFERENCA_DIAS values, in row order: the k-th is the value of the k-th row that has one, so each value occurs as often as rows hold it. A value is listed iff some row holds it. |
| Dashboard.SumBetween | Enlurb2024/streamlitdash.py:55 | A sum of n values lies between n times a lower and n times an upper bound of them. |
| Dashboard.MeanDays | Enlurb2024/streamlitdash.py:55 | The mean is 0 for an empty view. For a non-empty view it is NaN iff no row has a value. Otherwise it lies between the smallest and the largest value present. |
| Dashboard.KeyCount | Enlurb2024/streamlitdash.py:62 | The number of occurrences of a key equals the number of view rows carrying it. |
| Dashboard.CountBy | Enlurb2024/streamlitdash.py:62 | `groupby(cols).size()` as used at lines 62, 70, 77 and 101: the size table of the rows' keys. `CountByFacts` and `KeyCount` state that it is sorted, complete, and counts each key's rows exactly. |
| Dashboard.CountByFacts | Enlurb2024/streamlitdash.py:62 | A size table (`SizeTable`) lists keys in ascending order, each complete, with size equal to the number of rows carrying that key (never 0). Every complete row key is listed. |
| Dashboard.ZoneCountsSumToTotal | Enlurb2024/streamlitdash.py:70 | When no row lacks a zone, the zone counts are positive and add up to the view's size. |
| Dashboard.DashboardZoneTotal | Enlurb2024/streamlitdash.py:70 | The pipeline's output has the selection columns, and whatever the selection, the zone table accounts for every row of the view. |
| Dashboard.PipelineFeedsPage | Enlurb2024/streamlitdash.py:10-101 | The pipeline's output has the four columns the filter reads. It has every column the page reads when the loaded table has BAIRRO and SERVICO_DESCRICAO. |
| Dashboard.TopTenSizes | Enlurb2024/streamlitdash.py:77 | A top-10 ranking has at most 10 entries, largest first. Each entry is a group of the table, and its count is the true number of rows with that key. |
| Dashboard.TopTenOmitted | Enlurb2024/streamlitdash.py:101 | If a row's key is missing from a top-10 ranking, the ranking holds 10 entries and that key has no more rows than any entry shown. |
| Dashboard.TopTenRanking | Enlurb2024/streamlitdash.py:77 | Both rankings are top-10 rankings (`Ranking`): at most 10 entries, no key twice, largest first, each a complete key with its true row count. A complete key left out means the ranking is full and the key has no more rows than any shown. |
| Dashboard.TopBairros | Enlurb2024/streamlitdash.py:77 | The neighbourhood ranking: `head(10)` of the BAIRRO size table sorted by size. `TopTenRanking` states that it is a top-10 ranking. |
| Dashboard.TopServices | Enlurb2024/streamlitdash.py:101 | The services ranking: `head(10)` of the (group, service) size table sorted by size. `TopTenRanking` states that it is a top-10 ranking. |
| Dashboard.DayNameTotalInjective | Enlurb2024/streamlitdash.py:85-86 | The weekday-name map names exactly 0..6, and no two indices share a name. |
| Dashboard.DayNameCell | Enlurb2024/streamlitdash.py:86 | `map(dia_semana_map)` on one cell: the result is missing iff the cell is not an integer 0..6, and otherwise it is one of the seven names. |
| Dashboard.ByWeekday | Enlurb2024/streamlitdash.py:86-87 | The weekday table: sizes grouped by the mapped name, in name order. `WeekdayTableOrder` states that the lines come in code-point order of the names, not weekday order. |
| Dashboard.NameOrderSorted | Enlurb2024/streamlitdash.py:87 | The seven names in alphabetical order are strictly ascending as group keys. |
| Dashboard.WeekdayTableOrder | Enlurb2024/streamlitdash.py:85-87 | When all seven weekdays occur, the table has seven lines in name order (Domingo, Quarta, Quinta, Segunda, Sexta, Sábado, Terça), not in weekday order. |
| Dashboard.PercentByMonth | Enlurb2024/streamlitdash.py:94 | There is one percentage per line of the month table, with the same month, in [0, 100]. |
| Dashboard.PercentByMonthMeaning | Enlurb2024/streamlitdash.py:94 | Each month's percentage is the month's ATENDIDA requests out of the month's size. |
| Dashboard.MonthTableEmpty | Enlurb2024/streamlitdash.py:94 | The month table is empty iff no row of the view has a month, which is when line 94 raises. |
| Dashboard.TopTenDistinct | Enlurb2024/streamlitdash.py:77 | The ten largest groups of a count table name each key at most once. |
| Dashboard.Render | Enlurb2024/streamlitdash.py:39-101 | The page needs the columns it reads. For the selected rows, the total is their number. The percentage is their ATENDIDA share, and the mean is `MeanDays` of them. Month and zone are size tables of them, the neighbourhood list is a top-10 ranking (no key twice), and the weekday table is that of their names. The month rates (keyed like the month table, each the month's ATENDIDA share) and the services ranking are present iff the month table has a line. An empty view shows 0, 0 and neither. |
| Dashboard.Page | Enlurb2024/streamlitdash.py:49-101 | The page body on the selected rows. |
| Dashboard.PageFacts | Enlurb2024/streamlitdash.py:49-101 | The page shows its rows (`Shows`): the count, the ATENDIDA share, `MeanDays`, the size tables, the top-10 rankings, the weekday table, and the month rates and services ranking iff the month table has a line. |
| GogOverview.FilterGames | GOGView/datasetoverview.py:14-16 | The three masks keep exactly the rows whose type is 1 or True (`isin([1])` matches with `==`, and `True == 1`) that are neither in development nor coming soon, in order and unchanged. |
| GogOverview.KeepGame | GOGView/datasetoverview.py:14-16 | The three filters on one row. |
| GogOverview.KeepGameCases | GOGView/datasetoverview.py:14-16 | A row is kept iff its type is 1 or True and each of `isInDevelopment` and `isComingSoon` is False or 0. A missing value fails each test. |
| GogOverview.ToDatetime | GOGView/datasetoverview.py:22 | Coercion always yields a date or a missing value; it never fails. |
| GogOverview.ToDatetimeCases | GOGView/datasetoverview.py:22 | A date stays as it is, and readable text becomes its date. The result is missing iff the value is neither. Coercing twice changes nothing. |
| GogOverview.YearMonthOfDate | GOGView/datasetoverview.py:25-26 | YearGlobal and MonthGlobal are missing iff `dateGlobal` is. A present month is 1..12, and the year is the date's year. |
| GogOverview.AddDates | GOGView/datasetoverview.py:22-26 | Each row gets the coerced date and its year and month, and nothing else changes. The columns gain YearGlobal and MonthGlobal. |
| GogOverview.KeptColumnsNotDropped | GOGView/datasetoverview.py:19 | `dateGlobal`, `genres` and `supportedOperatingSystems` are not among the dropped columns, and neither are the two added ones. |
| GogOverview.Games | GOGView/datasetoverview.py:14-26 | The columns are the input's minus the 26 dropped, plus YearGlobal and MonthGlobal. The rows are the kept games reshaped, in order. |
| GogOverview.GamesRows | GOGView/datasetoverview.py:14-26 | Every returned game comes from a kept input row and has none of the dropped columns. Its date is present or missing, and its year and month are missing exactly with it (month 1..12). |
| GogOverview.GamesComplete | GOGView/datasetoverview.py:14-19 | Every input row passing the three filters is returned. |
| GogOverview.FiltersNeedDroppedColumns | GOGView/datasetoverview.py:14-19 | `type`, `isInDevelopment` and `isComingSoon`, the three columns the filters read, are all gone after the drop, so the filters must run before it. |
| GogOverview.ExplodeCellMembers | GOGView/datasetoverview.py:31 | Exploding a list gives its strings, or a single missing entry when the list is empty. |
| GogOverview.ExplodeAppend | GOGView/datasetoverview.py:31 | Exploding a concatenation gives the concatenation of the exploded parts. |
| GogOverview.ExplodeCell | GOGView/datasetoverview.py:31 | `explode` of one cell: never empty. `ExplodeCellMembers` states its entries. |
| GogOverview.Explode | GOGView/datasetoverview.py:31 | `explode` of a column: at least one entry per cell. `ExplodeAppend` and `ExplodeMembers` state that it concatenates the cells' explosions. |
| GogOverview.ExplodeMembers | GOGView/datasetoverview.py:37 | An entry of the exploded series is an entry of some cell's explosion, and conversely. |
| GogOverview.UniqueOfLists | GOGView/datasetoverview.py:31-32 | `explode().unique()` of a list column lists every string of every list once. It includes a missing marker iff some list is empty, and nothing else. |
| GogOverview.UniqueOfListsOrder | GOGView/datasetoverview.py:37-38 | The unique values keep their first-appearance order, and each occurs once. |
| GogOverview.GogOverview | GOGView/datasetoverview.py:14-38 | The input must have every dropped column, `dateGlobal`, `genres` and `supportedOperatingSystems` (pandas raises KeyError otherwise). The games are the kept input rows reshaped, with the input columns minus the 26 dropped plus YearGlobal and MonthGlobal. `unique_genres` and `unique_os` repeat nothing. They list a string iff some kept game's list holds it, and a missing marker iff some kept game's list is empty. Nothing else is listed, and values come in order of first appearance in the exploded column. |
| GogOverview.OverviewLists | GOGView/datasetoverview.py:30-38 | A list column of the result is that of the kept input rows, and its `explode().unique()` is as `DistinctListValues` states. |
| GogOverview.UniqueListColumn | GOGView/datasetoverview.py:31-32 | `explode().unique()` of any column of lists satisfies `DistinctListValues`: distinct, complete, nothing else, first-appearance order. |
| GogOverview.CarriedLists | GOGView/datasetoverview.py:19-26 | The drop and the date columns leave `genres` and `supportedOperatingSystems` unchanged. |

## Left out

- Reading the CSV files (`Enlurb2024/tratamento.py:8`, `GOGView/datasetoverview.py:7`) is file I/O. The model starts from the loaded table.
- Parsing date text is library code.
  - In `tratamento_dados` (lines 11-12) the input already holds dates or missing values.
  - In the GOG script (line 22) the text-to-date parser is a parameter of `ToDatetime`. A numeric `dateGlobal` becomes missing in the model, where pandas would read it as an epoch offset.
- `ast.literal_eval` (`GOGView/datasetoverview.py:30`, `:36`) is a foreign parser. `GogInput` requires the kept rows' list columns to already hold lists of strings.
- Tratamento.AsStr: covers missing, boolean, integer and text RPA values. Integer codes render with ".0" exactly when `FloatCodes` holds. A non-integral code (such as 1.5) is not a cell kind here. `FloatCodes` ignores pandas' options that could change the dtype. Under float64 the model writes every integer as its digits plus ".0". Python's `str` agrees only while the magnitude is below 10^16 and at most 2^53: from 10^16 it uses exponent form ("1e+16"), and above 2^53 float64 has already rounded the integer. RPA codes are small region numbers, so the model does not state these cases.
- Tratamento.AddZone: the RPA text it states is `str()`'s only for float64 codes below 10^16 and at most 2^53 in magnitude (see Tratamento.AsStr). ZONA is unaffected, since neither form of such a code is a zone key.
- Floating-point arithmetic is out of scope. Percentages and means are exact reals, and the `:.2f` formatting of the KPIs (`Enlurb2024/streamlitdash.py:54`, `:57`) is left out.
- Grouping.TopN: fixes one order among groups of equal size (stable insertion). pandas' default sort is not stable, so the contract states only what every admissible order satisfies.
- Dashboard.Render: does not state the chart construction. Streamlit widgets, page layout, `st.metric`, `st.plotly_chart` and every Plotly figure are presentation.
- The GeoJSON HTTP fetch (`Enlurb2024/streamlitdash.py:14-19`) is network I/O. The choropleth map with its neighbourhood table (lines 108-125) only presents that data, so both are left out.
- `df['SITUACAO'].unique()` (`Enlurb2024/tratamento.py:47`) discards its result and has no effect.
- The `print` calls (`GOGView/datasetoverview.py:41-42`) are output only.
- Dashboard.MeanDays: does not state the exact average as a formula. The contract bounds it by the smallest and largest present values and fixes when it is NaN or 0.
- Dashboard.FilterView: models `isin` as plain cell equality. pandas would also match 1 against 1.0 and True.
- GogOverview.FalseLike: models `== False` as matching False and the integer 0. The float 0.0 is not a cell kind here.
