# Allegheny County municipal assessment dashboard — data pipeline model

This project models the data layer of a dashboard that tracks taxable real
estate value for the municipalities of Allegheny County. The layer has four
operations:

- **`parseCSVLine`** (`Csv.ParseCSVLine`) splits one line of the
  time-series CSV into fields. It keeps a single in-quotes flag that every
  `"` toggles. A comma outside quotes ends a field. Every field is trimmed.
  Doubled quotes are not an escape: each `"` flips the flag and is dropped.
  This is a loose subset of section 2 of RFC 4180.
- **`parseCSV`** (`Csv.ParseCSV`) turns the file into one row per data line:
  - It trims the text and splits it on line feeds.
  - It splits the header line naively on commas.
  - Each cell is coerced according to its header name (`Csv.Coerce`).
- **`calculateSummaries`** (`Summaries.CalculateSummaries`) builds one
  summary per municipality:
  - a start-of-year baseline and the latest value;
  - the change and the percentage change;
  - the result is sorted by municipality name.
- **`getChartData`** (`Charts.GetChartData`) returns two things:
  - the sorted, distinct scrape weeks;
  - for each municipality, its year-to-date percentage aligned on those weeks.

The files are laid out as follows:

- `strings.dfy` holds the string primitives the code relies on: `trim`, a
  one-character `split` and its inverse `join`, `includes`, and the string
  order used for sorting.
- `sorting.dfy` holds the array operations:
  - `sort` with a key, as a stable insertion sort;
  - `filter`;
  - de-duplication through a `Set`.
- `records.dfy` holds the row and `MuniRecord` shapes.
- `csv.dfy`, `summaries.dfy` and `charts.dfy` model the four operations.

State is modelled in the form the code uses:

- **Methods with loops:**
  - the character loop of `parseCSVLine`;
  - the `headers.forEach` that fills a record;
  - the `lines.slice(1).map`;
  - the `forEach` that fills the series map.
- **Specification functions:** each method's `ensures` ties its result to a
  function (`Fields`, `RecordOf`, `RowOf`, `SeriesFor`). The properties are
  proved as lemmas about those functions.
- **Pure functions:** `calculateSummaries` is a pure `map`/`filter`/`sort`
  pipeline, so it is modelled as functions with lemmas about them.

Parameters stand in for what the model cannot see:

- JavaScript's `parseInt(·, 10)` is a parameter of type
  `string -> Option<int>`, with `None` standing for NaN.
- `parseFloat` is a parameter of type `string -> Option<real>`, with `None`
  standing for NaN.
- The current year, read from the clock in the code, is a parameter `year`.

## Model

| member | source | states |
|---|---|---|
| Csv.ParseCSVLine | src/lib/data.ts:34-52 | The character loop returns exactly `Fields(line)`: one field per comma outside quotes plus one, each the trimmed text between two such commas with its quotes dropped |
| Csv.Unquote | src/lib/data.ts:40-41 | Dropping every toggling quote leaves no `"` in the text |
| Csv.DelimitersAreUnquotedCommas | src/lib/data.ts:39-47 | The positions where a field ends are exactly the commas preceded by an even number of quotes, in increasing order; so a comma inside quotes never splits a field |
| Csv.ChunkIsSegment | src/lib/data.ts:39-48 | Raw field `k` is the text between field boundary `k - 1` and boundary `k`, with its quotes removed |
| Csv.FieldIsSegment | src/lib/data.ts:39-49 | Field `k` is the trimmed, unquoted text between its two boundaries; it holds no `"`; trimming it again changes nothing |
| Csv.FieldsSpec | src/lib/data.ts:42-49 | The number of fields is the number of commas outside quotes plus one (so at least one), and each field is its trimmed, unquoted segment |
| Strings.TrimSlice | src/lib/data.ts:43-49 | `trim` keeps one contiguous slice of its input, drops only whitespace at both ends, and leaves no whitespace at either end |
| Strings.TrimIdempotent | src/lib/data.ts:43-49 | Trimming a trimmed field changes nothing |
| Strings.SplitJoin | src/lib/data.ts:12-13 | `split` on one character gives one piece more than the number of separators; no piece contains the separator; joining the pieces with it gives the input back |
| Strings.Trim | src/lib/data.ts:43 | `String.prototype.trim`; computed by the body, characterised by `Strings.TrimSlice` |
| Strings.Split | src/lib/data.ts:12-13 | One-character `split`, giving at least one piece; characterised by `Strings.SplitJoin` |
| Strings.Contains | src/lib/data.ts:23 | `includes`; computed by the body, characterised by `Strings.ContainsOccurs` |
| Strings.ContainsOccurs | src/lib/data.ts:23 | `includes` holds exactly when the searched text occurs at some index of the header |
| Strings.Le | src/lib/data.ts:61 | The string order of the sorts; computed by the body, characterised by `Strings.LeTotal`, `Strings.LeAntisymmetric` and `Strings.LeTransitive` |
| Csv.Chunks | src/lib/data.ts:39-48 | The raw fields the character loop collects, always at least one; characterised by `Csv.ChunkIsSegment` and `Csv.DelimitersAreUnquotedCommas` |
| Csv.Fields | src/lib/data.ts:39-49 | The trimmed fields of a line; computed by the body, characterised by `Csv.FieldsSpec` and `Csv.FieldIsSegment` |
| Csv.FieldAt | src/lib/data.ts:20 | The field in a column, or `''` past the end of the line; computed by the body, characterised by `Csv.RecordOfSpec` |
| Csv.Coerce | src/lib/data.ts:21-27 | The coercion chosen by header name; computed by the body, characterised by `Csv.CoercionRules` |
| Csv.RecordOf | src/lib/data.ts:19-28 | The record one line's fields make; computed by the body, characterised by `Csv.RecordOfSpec` and built by `Csv.BuildRecord` |
| Csv.RowOf | src/lib/data.ts:15-30 | The row one data line makes; computed by the body, characterised by `Csv.ParseRows` and `Csv.ParseCSVRows` |
| Csv.BuildRecord | src/lib/data.ts:17-28 | The `headers.forEach` loop builds exactly `RecordOf(headers, values)`, each header in turn writing its coerced cell |
| Csv.RecordOfSpec | src/lib/data.ts:19-28 | The row's keys are exactly the header names; a header's cell is coerced from the field in its (last) column, or from `''` when the line has fewer fields than headers |
| Csv.CoercionRules | src/lib/data.ts:21-27 | `taxable_value` and `year` are always integers and become 0 when unparsable; a header containing `_change` or `_pct` gives null exactly for `NA` and `''` and otherwise the number `parseFloat` makes of the text (NaN when it fails); every other header keeps the string unchanged |
| Csv.ParseRows | src/lib/data.ts:15-31 | The `map` over the data lines gives one row per line, in order, row `k` being the coerced fields of line `k` |
| Csv.ParseCSV | src/lib/data.ts:11-32 | There is one row per line feed of the trimmed text (all lines but the header line), and each row is the coerced fields of its line under the naively split header |
| Csv.ParseCSVRows | src/lib/data.ts:12-20 | A corollary of `Csv.ParseCSV` read at one index: row `k` of the result is built from the comma-split first line and the fields of line `k + 1` of the trimmed text |
| Records.ToMuniRecord | src/lib/data.ts:30 | The cast yields a record exactly when all thirteen columns are present with the kind of value the parser gives them, and its fields are those cells |
| Strings.LeTotal | src/lib/data.ts:61 | Any two strings are comparable in the sort order |
| Strings.LeAntisymmetric | src/lib/data.ts:61 | Two strings that each sort no later than the other are equal |
| Strings.LeTransitive | src/lib/data.ts:61 | The sort order is transitive |
| Sorting.Insert | src/lib/data.ts:61 | One step of the stable sort, adding exactly the new element; characterised by `Sorting.SortBySorted` and `Sorting.SortByStable` |
| Sorting.Filter | src/lib/data.ts:60 | `filter`, never longer than its input; characterised by `Sorting.FilterHas` |
| Records.Names | src/lib/data.ts:55 | `data.map(d => d.municipality)`; computed by the body |
| Sorting.SortBy | src/lib/data.ts:59-61 | Sorting by a key returns a permutation of its input |
| Sorting.SortBySorted | src/lib/data.ts:59-61 | Sorting by a key gives a sequence whose keys never decrease |
| Sorting.SortByStable | src/lib/data.ts:59-61 | The sort is stable: the elements sharing a key keep their input order |
| Sorting.SortByStrict | src/lib/data.ts:80 | Sorting elements with pairwise distinct keys gives strictly increasing keys |
| Sorting.Distinct | src/lib/data.ts:55 | `[...new Set(xs)]` holds every value of `xs`, nothing else, and no value twice |
| Sorting.DistinctHas | src/lib/data.ts:55 | A value is in the de-duplicated list exactly when it is in the input |
| Sorting.FilterHas | src/lib/data.ts:60 | An element is kept by `filter` exactly when it is in the input and satisfies the predicate |
| Summaries.MuniData | src/lib/data.ts:59-61 | One municipality's records sorted by scrape week; computed by the body, characterised by `Summaries.MuniDataSpec` |
| Summaries.StartRecord | src/lib/data.ts:63-64 | The first record of the current year, else the first record; computed by the body, characterised by `Summaries.StartOfYearBaseline`, `Summaries.FallbackBaseline` and `Summaries.NoYearData` |
| Summaries.CurrentRecord | src/lib/data.ts:65 | The last record of the sorted data; computed by the body, characterised by `Summaries.LatestRecord` |
| Summaries.SummaryFor | src/lib/data.ts:58-79 | One municipality's summary; computed by the body, characterised by `Summaries.StartOfYearBaseline`, `Summaries.FallbackBaseline`, `Summaries.LatestRecord` and `Summaries.ChangeArithmetic` |
| Summaries.SummariesOf | src/lib/data.ts:58-79 | The `municipalities.map` before the final sort; computed by the body |
| Summaries.CalculateSummaries | src/lib/data.ts:54-81 | `calculateSummaries` with the current year as a parameter; computed by the body, characterised by `Summaries.CalculateSummariesSpec` |
| Summaries.MuniDataSpec | src/lib/data.ts:59-61 | A municipality's sorted data holds exactly its records, with scrape weeks never decreasing |
| Summaries.SummaryForName | src/lib/data.ts:72-73 | Each summary carries the municipality it was computed for |
| Summaries.SummariesSortedByName | src/lib/data.ts:80 | The summaries are sorted by name, with no name twice |
| Summaries.SummariesAreOwn | src/lib/data.ts:55-79 | Each summary is the summary of its own municipality, which is a municipality of the input |
| Summaries.SummariesCover | src/lib/data.ts:55-58 | Every municipality of the input has a summary |
| Summaries.CalculateSummariesSpec | src/lib/data.ts:54-81 | There is exactly one summary per distinct municipality of the input. Each is that municipality's summary. The list is strictly sorted by name |
| Summaries.StartOfYearBaseline | src/lib/data.ts:63-67 | When the municipality has a record of the current year, the baseline is one of them. Its scrape week is the earliest among those records. Among that week's records it is the first in input order. Its value is the start-of-year value |
| Summaries.FallbackBaseline | src/lib/data.ts:63-67 | With no record of the current year, the baseline is the municipality's record with the earliest scrape week, the first in input order among those with that week. Its value is the start-of-year value |
| Summaries.NoYearData | src/lib/data.ts:63-64 | With no record of the current year, the year's data is empty |
| Summaries.LatestRecord | src/lib/data.ts:65-78 | The current record is the municipality's record with the latest scrape week, the last in input order among that week's records. It supplies the current value and `dataAsOf` |
| Summaries.ChangeArithmetic | src/lib/data.ts:67-70 | The change is current minus baseline. The percentage is 0 when the baseline is not positive; otherwise the baseline plus that percentage of itself is the current value, and the percentage is positive exactly when the value rose |
| Charts.Weeks | src/lib/data.ts:84 | `data.map(d => d.scrape_week)`; computed by the body |
| Charts.ChartWeeks | src/lib/data.ts:84 | The sorted distinct scrape weeks; computed by the body, characterised by `Charts.ChartWeeksSpec` |
| Charts.YtdPctAt | src/lib/data.ts:92-93 | The looked-up year-to-date percentage for one week; computed by the body, characterised by `Charts.YtdPctAligned` |
| Charts.SeriesFor | src/lib/data.ts:91-94 | One municipality's series over the weeks; computed by the body, characterised by `Charts.SeriesAligned` |
| Charts.Aligned | src/lib/data.ts:90-93 | Reference definition of a series entry: the year-to-date percentage of the municipality's first record of the week in input order, or null; related to the code's lookup by `Charts.YtdPctAligned` |
| Charts.ChartWeeksSpec | src/lib/data.ts:84 | The chart's weeks are strictly increasing, so none repeats. Each is a scrape week of the input, and every scrape week of the input is among them |
| Charts.FindWeek | src/lib/data.ts:92 | `find` gives no record exactly when no record has the week; otherwise it gives a record of that week, the first of that week in the list |
| Charts.YtdPctAligned | src/lib/data.ts:91-94 | The looked-up value is the year-to-date percentage of the municipality's first record of the week, or null when it has none |
| Charts.SeriesAligned | src/lib/data.ts:91-94 | Every entry of a series is that week's aligned value |
| Charts.BuildSeries | src/lib/data.ts:87-96 | The `forEach` loop maps exactly the listed municipalities, each to its series over the weeks |
| Charts.SeriesComplete | src/lib/data.ts:85-96 | A series map over the distinct names has exactly the input's municipalities as keys, and every series is aligned on the weeks entry by entry |
| Charts.GetChartData | src/lib/data.ts:83-99 | `weeks` are the sorted distinct scrape weeks. There is one series per municipality of the input, as long as `weeks`. Entry `i` is the year-to-date percentage of the municipality's first record of week `i`, or null when there is none |

## Left out

- `fetchData` and its data URL (src/lib/data.ts:3-9): a network fetch. The model starts from the text.
- `generateColor` (src/lib/data.ts:102-105): floating-point hue arithmetic and CSS formatting.
- `src/lib/tooltip.ts`: chart tooltip DOM code, currency formatting through `Intl.NumberFormat`, and a colour switch.
- The richer summary type and the millage, tax-impact and weekly-change fields declared in `src/lib/types.ts`: no code in `src/lib/data.ts` computes them. `Summaries.Summary` is the flat record the code actually builds.
- `exempt_value` and `purta_value` are declared as numbers but fall through to the string branch of the coercion, so the model keeps them as strings, following the code.
- The internals of `parseInt` and `parseFloat`: they are parameters. An unparsable value is `None` (NaN). Infinity is not distinguished from other results.
- `localeCompare` and the default `sort()` comparison are both modelled as lexicographic order on characters (`Strings.Le`). Locale collation and UTF-16 code-unit order are not modelled.
- The insertion order of the JavaScript `Map` built by `getChartData`: `series` is a Dafny `map`, so only its keys and values are modelled.
- The clock: the current year is a parameter.
- Floating-point arithmetic: values and percentages are exact integers and reals, so rounding in `pctChange` is not modelled.
- Csv.ParseCSV: returns the coerced rows. The `as unknown as MuniRecord` cast is the separate `Records.ToMuniRecord`, and the model does not prove that a row of the real file casts.
- Records.ToMuniRecord: is partial where the JavaScript cast is not. The cast always yields an object, with `undefined` for a missing column or a cell of the wrong kind; the model yields `None` instead and describes only when the cast gives a fully typed record.
- Records are plain JavaScript objects in the code. Keys that behave specially on such objects (such as `__proto__`) are not modelled.
- Carriage returns: a file with Windows line endings keeps `\r` on the last header name, because the header line is not trimmed. The model reproduces this as the code does and proves nothing specific about it.
- Sorting.Distinct: does not state that the elements keep the order of their first occurrence in the input. Every use sorts the result afterwards or keys a map whose order is not modelled.
