# Wind short-term forecast: the table transformations, verified

This project models the deterministic core of the wind short-term forecast repository in
Dafny, and proves what each step promises. The core is the set of table transformations that
sit under its dashboards and API clients.

- **Grid-operator client** (`src/data/client_coes.py`, module `CoesClient`):
  - the case-insensitive allow-list and deny-list filters on device names, and the cut of the
    last 48 columns;
  - the pooling of the four measurement codes;
  - keeping the last row of each device-day;
  - `getFormatData`: the unpivot of the slots `h1`..`h48` into half-hourly readings, the
    per-date sum of the Punta Lomitas units, the renaming of the other farms, and the
    concatenation of the two blocks.
- **Forecast/observation reconciliation** (`Scripts/preProcessing.py`, modules
  `PreProcessing` and `ScrapedForecasts`):
  - cleaning of the Darwin workbooks, lead hours and issue dates;
  - the collection loop;
  - the first observation per date, the outer merge on date, and the `lead_days` bins;
  - the sort by issue date, date and lead hour;
  - the per-(issue date, model) de-duplication of the scraped forecasts, the pivot, and the
    final outer merge.
- **Model spread** (`addMinMaxMean` of `Scripts/myDashBoard.py`, module `ModelSpread`): the
  rows with a present speed among the last four columns, and each row's minimum, maximum and
  mean.
- **Dashboards** (`app/app3.py`, `app/tester.py`, `app/app.py`):
  - module `Dashboard` holds what the three apps share: the first existing candidate path,
    the generation column check, date conversion, padding of the wind columns, the farm
    selector, the plot subsets, the metric-card trend and caption, and the theme toggle;
  - modules `App3`, `Tester` and `App` hold what differs between the apps: app3's
    latest-initialisation-per-model filter, tester's strict date parsing, and app.py's
    fallback day of data.

Support modules:
- `Frames`: a table of named columns and rows of cells. A cell is missing, a real number, a
  string, or a timestamp in minutes since 1970-01-01.
- `Seqs`: filters, de-duplication and flattening.
- `Sorting`: a stable insertion sort by a total preorder. This gives pandas' stable
  multi-key `sort_values`.
- `Text`: the case-insensitive regular-expression search for patterns whose only
  metacharacter is `.`, digit strings, and Python's `float()`.
- `Wrappers`: Option and Result.

Four behaviours of the code that are easy to misread:
- `pd.cut` bins are right-closed: `lead_days` bin b is `(24b, 24(b+1)]`, so (0, 24],
  (24, 48], … (216, 240].
- `lead_hour` is the row number 1..n within each forecast file.
- `sort_values` puts missing keys last, so a row without `initDate` sorts after every row
  with one.
- An outer `pd.merge` sorts its rows by the join keys, and rows of one key keep their join
  order; the model is a stable sort of the join.

## Model

| member | source | states |
|---|---|---|
| CoesClient.ClientCoes | src/data/client_coes.py:39-53 | The result is a valid table with no more rows than the response; it is either the empty frame a raised exception gives, or has the response's columns less the last 48 |
| CoesClient.FilterNamesSpec | src/data/client_coes.py:40-44 | The two masks keep exactly the rows whose device name passes both filters, in their order |
| CoesClient.KeptSpec | src/data/client_coes.py:40-44 | A name is kept iff one of Cupis, Dunas, Huambos, Marcona, Lomitas, Talara, Hermanas, Wayra, C.E. matches it and none of TV, C.H., C.S. does |
| CoesClient.ClientCoesFilters | src/data/client_coes.py:39-46 | For a non-empty response with text names, the result has the trimmed columns and exactly the kept rows, in order, each cut to those columns |
| CoesClient.ClientCoesEmpty | src/data/client_coes.py:39-46 | An empty response skips the filters and is only trimmed |
| CoesClient.ClientCoesUntypedNames | src/data/client_coes.py:42-53 | A device name that is not text makes the filter raise, and the client returns the empty frame |
| CoesClient.CollectedSpec | src/data/client_coes.py:101-107 | The container holds valid, non-empty frames, no more than there were requests, and is empty iff every request came back empty |
| CoesClient.CollectedSnoc | src/data/client_coes.py:102-106 | One more loop iteration appends the code's result exactly when that result is non-empty |
| CoesClient.RetrieveGeneration | src/data/client_coes.py:101-122 | The loop over codes 0..3 reports "no data" iff every result is empty; otherwise its outcome is the formatted pool of the non-empty results |
| CoesClient.LatestIsPermutation | src/data/client_coes.py:110-112 | The group-wise de-duplication holds the same rows as keeping the last row of each device-day among the named rows |
| CoesClient.LatestKeysDistinct | src/data/client_coes.py:110-112 | No two surviving rows share a device and a day |
| CoesClient.LatestKeepsLast | src/data/client_coes.py:110-112 | Every surviving row is a named row with no later row of the same device and day |
| CoesClient.LatestCovers | src/data/client_coes.py:110-112 | Every named device-day of the pool is still present |
| CoesClient.LatestSortedByName | src/data/client_coes.py:110-112 | The groups come out in device-name order |
| CoesClient.DedupDeviceDays | src/data/client_coes.py:110-114 | On success the input had the name and day columns, the columns are the input's less the five dropped names, and row i holds, under each remaining column, the cell of the i-th latest device-day row |
| CoesClient.IsSlotColumnSpec | src/data/client_coes.py:57 | A column is unpivoted iff its name contains one of `h1`..`h48` |
| CoesClient.IdentifiersAreNotSlots | src/data/client_coes.py:57 | NombreEquipo, Medifecha, NombreEmpresa and Tipoinfoabrev are never unpivoted |
| CoesClient.LayoutOf | src/data/client_coes.py:57-62 | A layout it returns places the four identifier columns and the slot columns within the table |
| CoesClient.LayoutSlots | src/data/client_coes.py:57-58 | The unpivoted positions are exactly the slot columns, left to right |
| CoesClient.MeltLength | src/data/client_coes.py:58 | The unpivot has (slot columns) × (rows) rows |
| CoesClient.MeltAt | src/data/client_coes.py:58 | Row j·n + i of the unpivot is input row i under the j-th slot column |
| CoesClient.ParseDay | src/data/client_coes.py:59 | A parsed day is a midnight timestamp; a missing day stays missing |
| CoesClient.SlotColumnRoundTrip | src/data/client_coes.py:60 | Column `h<K>` is a slot column and its name reads back as slot K |
| CoesClient.ToReading | src/data/client_coes.py:59-61 | A converted row keeps the device name and power, and its day and slot are the parsed cells |
| CoesClient.ReadingsSpec | src/data/client_coes.py:57-61 | Reading j·n + i comes from row i under the j-th slot column, dated 30 minutes per slot after its midnight |
| CoesClient.OrderedSpec | src/data/client_coes.py:58-63 | The two stable sorts keep the readings and order them by device, then date |
| CoesClient.PuntaDatesSpec | src/data/client_coes.py:65-66 | The Punta group keys strictly increase and are exactly the dates of the readings whose name contains PUN |
| CoesClient.LastPresentSpec | src/data/client_coes.py:66 | `last` is missing iff all cells are, and otherwise is a cell after which every cell is missing |
| CoesClient.SumPowerFails | src/data/client_coes.py:66 | The sum succeeds iff every power is a number or missing |
| CoesClient.SumPowerIsSum | src/data/client_coes.py:66 | The sum is the sum of the numbers, skipping missing cells |
| CoesClient.PuntaRowSpec | src/data/client_coes.py:66-67 | A Punta row is dated by its group, named W.F. Punta Lomitas, sums the group's powers and takes its last company and its last information type |
| CoesClient.PuntaRowFails | src/data/client_coes.py:66 | A Punta row fails iff a reading of its date has a power the sum cannot add |
| CoesClient.PuntaBlockRows | src/data/client_coes.py:65-67 | The Punta block has one row per Punta date, in order, each with the group's sum, last company and last information type |
| CoesClient.PuntaBlockDates | src/data/client_coes.py:65-67 | The Punta block's dates strictly increase and are exactly the Punta readings' dates |
| CoesClient.PuntaBlockFails | src/data/client_coes.py:65-66 | The Punta block fails iff some dated Punta reading has a power the sum cannot add |
| CoesClient.RenameAvoidsPunta | src/data/client_coes.py:71-82 | Renaming a name without PUN never yields W.F. Punta Lomitas |
| CoesClient.OtherBlockSpec | src/data/client_coes.py:69-84 | The second block is the readings free of PUN and paita, in order, renamed through the nine-entry table, with their dates and powers |
| CoesClient.OtherBlockOrder | src/data/client_coes.py:63-70 | The second block stays ordered by device, then date |
| CoesClient.FormatReadingsSplit | src/data/client_coes.py:84-86 | The output is the Punta block followed by the other block |
| CoesClient.FormatDataShape | src/data/client_coes.py:84-86 | The first part has one row per Punta date and the rest one row per other reading; the Punta name marks exactly the first part |
| CoesClient.FormatDataOrder | src/data/client_coes.py:65-86 | The Punta rows come first, dated and strictly ascending |
| CoesClient.FormatDataCover | src/data/client_coes.py:65-86 | The Punta rows' dates are exactly the dates some Punta reading has |
| Text.SearchAnySpec | src/data/client_coes.py:42 | An alternation matches iff one of its alternatives does |
| Text.PlainSearchIsSubstring | src/data/client_coes.py:65 | Without a `.`, the search is a case-insensitive substring test |
| Text.HasSubstringSpec | src/data/client_coes.py:57 | `sub in s` holds iff `sub` occurs at some position |
| Text.ParseNatToString | src/data/client_coes.py:60 | `int(str(n)) == n` |
| Frames.DropLastColumns | src/data/client_coes.py:46 | `iloc[:, :-n]` keeps the leading columns and cuts every row to match |
| Frames.DropColumns | src/data/client_coes.py:113-114 | The columns are the input's less the dropped names, and every row keeps its cell under each remaining column |
| Frames.SelectRows | src/data/client_coes.py:42 | A mask keeps the columns and exactly the rows it selects, in order |
| Frames.Concat | src/data/client_coes.py:108 | The columns of the concatenation are exactly the columns of its parts |
| Frames.ConcatRows | src/data/client_coes.py:108 | The concatenation has as many rows as its parts together |
| Frames.ConcatLayout | src/data/client_coes.py:108 | Row i of part j stands after the rows of the parts before it, laid out under the union of the columns |
| Frames.RelayoutCells | src/data/client_coes.py:108 | A row laid out under the union columns has its own cell under each of its part's columns and a missing cell under every other |
| Seqs.DedupLastKeepsLast | src/data/client_coes.py:111 | `keep='last'` keeps only rows with no later row of the same key |
| Seqs.DedupFirstKeepsFirst | Scripts/preProcessing.py:68 | `keep='first'` keeps only rows with no earlier row of the same key |
| Sorting.SortBySorted | Scripts/preProcessing.py:73 | The sort's output is ordered by its comparator |
| Sorting.SortByStable | Scripts/preProcessing.py:73 | The elements the comparator ranks equal to any given one come out in their input order |
| PreProcessing.CleanSpec | Scripts/preProcessing.py:44-48 | Cleaning keeps exactly the rows with a date and a value; an unparseable value stays as a missing speed |
| PreProcessing.MinDate | Scripts/preProcessing.py:52 | The earliest date is one of the dates and no date is earlier |
| PreProcessing.DayOf | Scripts/preProcessing.py:52 | The day of a timestamp is the midnight at or before it, less than a day earlier |
| PreProcessing.ForecastSpec | Scripts/preProcessing.py:41-53 | A forecast frame exists iff the workbook reads and has a complete row; lead hours are 1..n and every row has the day of the earliest date |
| PreProcessing.CollectFrames | Scripts/preProcessing.py:57-65 | The loop's containers are the forecast frames of the workbooks whose forecast read succeeds and the observation frames of those whose observation read then succeeds too |
| PreProcessing.ContainersAligned | Scripts/preProcessing.py:57-65 | The forecast entries are the non-empty frames of the workbooks whose forecast reads, in order; the observation entries come from the subsequence of those whose observation also reads; so there are never more observation entries than forecast entries, and as many iff no observation read fails after a forecast read succeeded |
| PreProcessing.ObservationsUnique | Scripts/preProcessing.py:67-68 | The observations keep one row per date, the first, and lose no date |
| PreProcessing.Lookup | Scripts/preProcessing.py:71 | The observation found has the date; none is found iff no observation has it |
| PreProcessing.MergeJoin | Scripts/preProcessing.py:71 | The join is every forecast row with its observation, then every observation no forecast shares a date with |
| PreProcessing.MergeOuterSpec | Scripts/preProcessing.py:71 | The outer merge holds exactly the joined rows, each as often, in ascending date order, and the rows of one date keep their join order |
| PreProcessing.MergeRows | Scripts/preProcessing.py:70-71 | In the join, forecast rows keep their speed, lead hour and issue date and get the speed of their date's observation; the rest are observation-only rows whose date no forecast has |
| PreProcessing.MergeCovers | Scripts/preProcessing.py:71 | The merged dates are exactly the dates of either side |
| PreProcessing.LeadDaysBins | Scripts/preProcessing.py:72 | Lead hour h gets `Day {b+1:02d}` iff 24b < h ≤ 24(b+1) |
| PreProcessing.LeadDaysUnlabelled | Scripts/preProcessing.py:72 | A row gets no label iff its lead hour is missing or outside (0, 240] |
| PreProcessing.DayLabelInjective | Scripts/preProcessing.py:72 | Different bins have different labels |
| PreProcessing.Label | Scripts/preProcessing.py:72 | Every merged row is kept in place with the label of its own lead hour |
| PreProcessing.ReconciledLeTotal | Scripts/preProcessing.py:73 | The order by issue date, date and lead hour, missing last, is a total preorder |
| PreProcessing.SortedLabels | Scripts/preProcessing.py:73 | Sorting keeps the labelled rows, orders them, and keeps each label its row's bin |
| PreProcessing.ReconcileSpec | Scripts/preProcessing.py:67-74 | Reconciling fails iff a container is empty; otherwise it is the labelled outer merge, sorted, each label its row's bin |
| ScrapedForecasts.GroupLeTotal | Scripts/preProcessing.py:98 | The group order by issue date, then model, is a total preorder |
| ScrapedForecasts.DedupScrapedSpec | Scripts/preProcessing.py:98-99 | Surviving rows have an issue date and model, are distinct per (issue date, model, forecast date), and keep every grouped key through its first row; when nothing is dropped they are the grouped rows in input order, otherwise they come in (issue date, model) order with each group in its input order |
| ScrapedForecasts.PivotKeysSpec | Scripts/preProcessing.py:103-104 | The pivot keys are exactly the (issue day, forecast date) pairs of the counted rows, ascending, each once |
| ScrapedForecasts.PivotTable | Scripts/preProcessing.py:103-104 | One pivot row per key, in key order, each with one speed per model column |
| ScrapedForecasts.PivotRowsOrder | Scripts/preProcessing.py:103-104 | The pivot rows come in strictly ascending key order |
| ScrapedForecasts.PivotRowsComplete | Scripts/preProcessing.py:103-104 | Every counted row's key has a pivot row |
| ScrapedForecasts.PivotRowsSound | Scripts/preProcessing.py:103-104 | Every pivot row's key is a counted row's key |
| ScrapedForecasts.ModelsOrder | Scripts/preProcessing.py:103-104 | The model columns are ascending, each once |
| ScrapedForecasts.ModelsCover | Scripts/preProcessing.py:103-104 | The model columns are exactly the models of the counted rows |
| ScrapedForecasts.CellMeanPresent | Scripts/preProcessing.py:103-104 | A pivot cell has a mean iff some counted row has its key and model |
| ScrapedForecasts.FindPivot | Scripts/preProcessing.py:106-107 | The pivot row found has the date and issue day; none is found iff no pivot row has them |
| ScrapedForecasts.JoinRows | Scripts/preProcessing.py:106-107 | The join is every Darwin row with its pivot speeds, then the pivot rows no Darwin row shares a key with |
| ScrapedForecasts.FinalLeTotal | Scripts/preProcessing.py:106-107 | The merge order by date, then issue day with a missing issue day last, is a total preorder |
| ScrapedForecasts.FinalMergeShape | Scripts/preProcessing.py:106-107 | The final table holds exactly the joined rows, each as often, ordered by date and then issue day: every Darwin row with its pivot speeds and every unmatched pivot row, and nothing else |
| ScrapedForecasts.FinalMergeStable | Scripts/preProcessing.py:106-107 | Rows of one (date, issue day) key keep their join order |
| ScrapedForecasts.FinalMergeCover | Scripts/preProcessing.py:106-107 | A (date, issue day) key is in the final table iff a Darwin row or a pivot row has it |
| ScrapedForecasts.ScrapedPipelineSpec | Scripts/preProcessing.py:82-107 | The scraped pipeline fails iff there are no sheets; otherwise its rows are ordered by date and issue day, and every Darwin row is among them with its own date and issue day |
| ModelSpread.StatPositions | Scripts/myDashBoard.py:42 | The summarised positions are the last four, or all when there are fewer |
| ModelSpread.Values | Scripts/myDashBoard.py:44 | The present values are exactly the numbers among the summarised cells |
| ModelSpread.MinOf | Scripts/myDashBoard.py:44 | The minimum is one of the values and no value is smaller |
| ModelSpread.MaxOf | Scripts/myDashBoard.py:44 | The maximum is one of the values and no value is larger |
| ModelSpread.MeanBetween | Scripts/myDashBoard.py:44 | min ≤ mean ≤ max |
| ModelSpread.SetColumn | Scripts/myDashBoard.py:44 | Setting a column overwrites or appends it and leaves every other column's cells unchanged |
| ModelSpread.WithStats | Scripts/myDashBoard.py:44 | The three new columns hold the statistics and every other column is unchanged |
| ModelSpread.AddMinMaxMean | Scripts/myDashBoard.py:40-45 | A result has one row per kept row |
| ModelSpread.KeptUnaggregatable | Scripts/myDashBoard.py:43-44 | Some kept row cannot be aggregated iff some input row with a present value cannot be |
| ModelSpread.AddMinMaxMeanFails | Scripts/myDashBoard.py:43-44 | The function fails iff a row it keeps has text or a timestamp among its last four cells |
| ModelSpread.AddMinMaxMeanRows | Scripts/myDashBoard.py:41-44 | The result has exactly the rows with a present value, in order, and other columns keep those rows' cells |
| ModelSpread.RowStatsPresent | Scripts/myDashBoard.py:44 | A row with a present value gets the min, max and mean of its present values |
| ModelSpread.AddMinMaxMeanStats | Scripts/myDashBoard.py:44-48 | Every result row's min, max and mean are those of its present values, with min ≤ mean ≤ max |
| Dashboard.FirstExisting | app/app3.py:24 | The path is the first candidate that is set and exists; there is none iff no candidate qualifies |
| Dashboard.OverrideFirst | app/app3.py:18-24 | A set, existing environment override always wins |
| Dashboard.ConvertDatesSpec | app/tester.py:51 | The conversion keeps the columns and other cells; the strict one fails iff a date cell is neither a timestamp nor missing, and the coercing one turns such a cell into a missing one |
| Dashboard.StrictAgreesWithCoerced | app/app3.py:38 | Where the strict conversion succeeds, coercing gives the same table |
| Dashboard.Coerced | app/app3.py:38 | Coercion never fails; a timestamp date stays, any other date cell becomes missing, and every other cell is kept |
| Dashboard.CheckGenerationSpec | app/app3.py:32-38 | A table is refused iff it lacks one of name, date and power, and the error names exactly the missing ones |
| Dashboard.LoadGenerationSpec | app/app3.py:18-38 | Loading fails with not-found iff no candidate qualifies; a loaded table comes from a qualifying candidate and has the three columns |
| Dashboard.StrictLoadAgrees | app/tester.py:30-51 | When tester's strict load succeeds, app3's coercing load gives the same table |
| Dashboard.PadColumns | app/app3.py:60-62 | The missing required columns are added, all missing, after the existing ones, which are unchanged |
| Dashboard.PaddedCoercedRows | app/app3.py:59-68 | After padding and coercion each row is its source row laid out again: the source date if a timestamp and missing otherwise, its own cell under every other column it has, missing under the added ones |
| Dashboard.EmptyWind | app/app3.py:65 | Without a wind file the table has no rows |
| Dashboard.FarmName | app/app3.py:260 | An unknown selector value gives SEIN, and every result is a mapped farm name |
| Dashboard.FarmNameSein | app/app3.py:170-175 | SEIN comes from "0" and from every value outside the selector, and from no other value |
| Dashboard.FarmNameDistinct | app/app3.py:170-175 | Different selector values give different farms |
| Dashboard.GenSubsetSpec | app/app3.py:259-264 | The subset holds exactly the farm's rows, in order, or is the empty date/power frame when there are none |
| Dashboard.WindSubsetSpec | app/app3.py:275-282 | The subset holds exactly the farm's rows, or is the empty date/wwind100/model frame when the table is empty or lacks `name` |
| Dashboard.TrendUpSpec | app/app3.py:135-139 | Guarded, the trend never fails and agrees with the unguarded one; unguarded, it fails iff there is no leading "+" and the change does not parse; down iff the change parses to a negative number or NaN |
| Dashboard.MetricCardsUp | app/app3.py:156-158 | The three cards shown are all up |
| Dashboard.ChangeTextSpec | app/app3.py:140 | The caption is the change, a "%" when it has none, and " from last month" |
| Dashboard.ToggleThemeSpec | app/app3.py:249-252 | The dark theme is chosen iff the switch is on, and the store says so |
| Text.RemoveAll | app/app3.py:136 | Removing a character leaves none of it and adds nothing |
| Text.ParseFloatDigits | app/app3.py:136 | A plain digit string parses to its decimal value |
| Text.ParseFloatNegativeDigits | app/app3.py:136 | A minus sign before digits parses to the negated value |
| App3.Generation | app/app3.py:18-38 | Loading fails with app3's not-found message or missing columns; a loaded table has name, date and power |
| App3.LatestInit | app/app3.py:56 | A model's latest initialisation is a row's, no row of that model is later, and it is absent iff no row of that model has one |
| App3.CoercedRow | app/app3.py:55 | Coercing `initDate` changes neither a row's model nor its timestamp |
| App3.LatestPerModelSpec | app/app3.py:54-57 | The filter fails iff there is no model column; otherwise a row survives iff its model is present, its `initDate` is a timestamp, and no row of the same model is later |
| App3.LatestKept | app/app3.py:56-57 | A row the filter keeps is unbeaten in its model |
| App3.UnbeatenKept | app/app3.py:56-57 | An unbeaten row is kept |
| App3.LoadWind | app/app3.py:49-68 | Without a file the empty wind table; otherwise it fails iff there is `initDate` but no `model`, has the file's columns and the four wind columns, and row i is the loaded form of the i-th row the latest-initialisation filter keeps (of the i-th file row without `initDate`) |
| App3.PadAndCoerce | app/app3.py:59-68 | The padded, coerced table has the source's columns and the wind columns, every row is the loaded form of its source row, and every date is a timestamp or missing |
| Tester.Generation | app/tester.py:30-51 | Not-found carries tester's message; a loaded table has name, date and power |
| Tester.LoadWind | app/tester.py:64-77 | The wind table has the four wind columns, pads only when something is missing, and row i is the file's row i with its date coerced and missing cells under the added columns |
| App.FallbackDataset | app/app.py:241-245 | The fallback table has the columns date, name, power and 24 rows |
| App.FallbackSpec | app/app.py:241-245 | The fallback rows are hourly within 2024-01-01, named Punta Lomitas, with power 0..23; the fallback series is that table without `name` |
| App.Generation | app/app.py:235-245 | The table read, or the fallback day when the file is missing |
| App.UpdateGenPlotSpec | app/app.py:404-414 | The subset holds exactly the farm's rows when the table is non-empty with a `name` column, otherwise the fallback series |
| App.FallbackNames | app/app.py:241-245 | Every fallback row names Punta Lomitas |
| App.OneFarmPlot | app/app.py:407-408 | On a one-farm table the plot shows the whole table for that farm and nothing for any other |
| App.FallbackPlot | app/app.py:404-408 | Without the file, Punta Lomitas shows the whole fallback day and every other farm an empty plot |

## Left out

- HTTP requests, `raise_for_status`, the ERA5 and Earth Engine clients, logging and progress
  bars. A response is a parameter: a frame, or `None` for a request that failed.
- File reading and writing (`read_parquet`, `read_excel`, `to_parquet`, `to_pickle`,
  `os.walk`), the sheet offsets, and the path of the written file. Tables are inputs; whether a
  path exists is a predicate parameter.
- Dates arrive already parsed as timestamps. Parsing date strings (`%Y-%m-%dT00:00:00`,
  `strftime('%Y-%m-%d')`) is modelled only as "a timestamp, or missing".
- Dashboard.ToDatetime: a text cell is always unparseable; pandas' parsing of date strings is
  not modelled. A number is unparseable too, where pandas would read it as an epoch offset.
- Text.Search: only patterns whose one metacharacter is `.` are modelled, with ASCII-only case
  folding. Those are the only patterns the code uses.
- Text.ParseFloat: exponents and underscores in numbers are not accepted, and only ASCII white
  space is stripped.
- ModelSpread.AddMinMaxMean: the mean column's name is always a parameter; the default
  `mean` of a call without `name=` is not modelled, because both calls pass a name.
- ModelSpread.AddMinMaxMean: speeds are reals, not floats, so the mean is the exact mean.
  A `name` of "min" or "max" is modelled, but only the case of a distinct name is
  characterised (`AddMinMaxMeanStats`).
- ScrapedForecasts.CellMean: `np.nanmean` is the exact mean of the present reals.
- Dashboard.PadColumns: a Python set has no fixed order; the missing columns are added in the
  order of the required list.
- CoesClient.LatestSortedByName: the model emits the device groups in name order. pandas does
  so only when some group dropped a row; otherwise it restores the pooled order, which depends
  on the duplicate row labels the concatenation keeps. `getFormatData` re-sorts by device and
  date, and a device-day is unique by then, so the difference is never observed.
- CoesClient.DedupDeviceDays: a pool that already has an `index` column is an error here;
  pandas' `reset_index` would add `level_0` instead. Row labels are not modelled.
- CoesClient.SumPower: any text power makes the sum fail. pandas concatenates a group whose
  present powers are all text; only a group mixing text with numbers raises.
- CoesClient.SumPowerFails: states the failure condition of the model's sum above, not
  pandas' for all-text groups.
- CoesClient.PuntaRowFails: inherits the failure condition of `SumPower` above.
- CoesClient.PuntaBlockFails: inherits the failure condition of `SumPower` above.
- PreProcessing.ToNumeric: the text `inf` reads as a missing speed; pandas keeps
  infinity. Speeds are reals here and have no infinite value.
- PreProcessing.CleanSpec: inherits the reading of `inf` as missing from `ToNumeric` above.
- App.Generation: any read error other than a missing file is not modelled.
- Tester.Generation and App3.Generation: the text of the `ValueError` message is not modelled,
  only the set of missing columns it names.
- Dash layouts, Plotly figures, styling and the panel dashboard body.
- `app/myDashBoard_Wind.py` and `Scripts/myCss.py` are not part of this model; they hold layout
  and a stylesheet only.
