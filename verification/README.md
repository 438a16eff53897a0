# indycarpy metric pipeline and session-records normaliser, in Dafny

This project models two parts of indycarpy, a library that derives
per-driver performance metrics from IndyCar session results.

The metric pipeline (`analysis.py`) enriches a table of session results one
column at a time. In order, it adds:

- the number of cars still running at the flag in each event;
- a competition rank among those cars;
- a finish percentile built from that rank;
- each driver's best lap speed as a percentage of the session's best;
- the places gained in a race.

`get_rpi_df` then keeps the race rows and groups them by driver, or by season
and driver. For each group it computes the counts, means and finish rates, and
the race performance index (RPI). The RPI is the harmonic mean of the mean
finish percentile and the adjusted finish rate. It finally drops small groups
and sorts by that index, best first.

The normaliser (`clean_sessions_records` in `cleaning.py`) takes the raw
session-records table and does the following:

- selects a session type;
- trims the status text;
- drops the presentation columns, the columns with no values, and a
  single-valued `is_deleted`;
- casts the count columns to integers (missing counts read as 0);
- casts the best speed to floats.

Files and modules:

| file | module | contents |
|---|---|---|
| options.dfy | `Options` | `Option` and `Result` |
| seqs.dfy | `Seqs` | counting, filtering (pandas' boolean-mask selection), sums, subsequences |
| records.dfy | `Records` | a row of the canonical table: the input columns plus one `Option` field per derived column |
| enrichment.dfy | `Enrichment` | the five enrichment stages of `analysis.py` |
| summary.dfy | `Summary` | `calculate_rpi` and `get_rpi_df` |
| strings.dfy | `Strings` | `str.strip()` and `str.lower()` |
| cleaning.dfy | `Cleaning` | `clean_sessions_records` on a frame of columns and rows |

General modelling choices:

- A pandas NaN is `None`.
- Ratios are exact `real` values.
- An exception the source raises is an `Err` of the `Result` it returns:
  - a `KeyError` on a missing column is `MissingColumn`;
  - a failed numeric cast is `NotNumeric`.
- In the normaliser, a frame is a list of column names plus a list of rows.
  Each row is a map from column to cell.
- A column the normaliser names is a constructor of `Column`. Any other column
  is `Other(name)`.
- Every step of `clean_sessions_records` is a pure function from frame to
  frame.

`Cleaning.CleanSessionsRecords` groups those steps into three phases:

1. `SelectRows`: lines 72-76.
2. `PruneColumns`: lines 79-91.
3. `CastColumns`: lines 94-106.

`PruneColumns` states the three column drops as one drop of a closed-form set
of columns. `PruneColumnsStaged` proves that this equals the source's three
drops run in order.

Behaviours of the code that the model keeps as written:

- **`running_cars`.** It counts the "Running" rows of every session type that
  share the row's `event_id` (analysis.py:45-51).
- **Sorting.** The final sort (analysis.py:307) is pandas' default
  `sort_values`, which is not stable. The model leaves the order among equal
  indices open.
- **Count columns.** A count column is filled with 0 and cast only when the
  frame has it (cleaning.py:101-103). An absent count column stays absent.
- **`dropna`.** It runs on the selected rows (cleaning.py:87). A column is
  dropped when every selected row lacks a value in it.
- **`is_deleted`.** It is dropped when it has exactly one distinct non-missing
  value (cleaning.py:90). Missing cells are ignored.
- **Reading `is_deleted`.** The read at cleaning.py:90 raises when the column
  is absent. This includes the case where `dropna` has just removed it.
  `Cleaning.NoMatchingRowsRaise` shows the consequence: a session type with no
  rows makes the normaliser raise.

## Model

| member | source | states |
|---|---|---|
| Enrichment.AddRunningCounts | analysis.py:44-57 | every row gets a `running_cars` value; rows of one `event_id` get the same value; no other column changes |
| Enrichment.RunningCarsCountsRunningRows | analysis.py:44-55 | `running_cars` is the number of "Running" rows with the row's `event_id`; it is 0 exactly when the event has no "Running" row (the `fillna(0)`) |
| Enrichment.RunningValueCounts | analysis.py:45-48 | the `value_counts` map has a key exactly for the events with a "Running" row; each value is that event's count |
| Enrichment.AddRunningCountsByValueCounts | analysis.py:44-57 | mapping each `event_id` through the counts and filling gaps with 0 gives the same table as the count definition |
| Enrichment.AddFinishedRanking | analysis.py:75-88 | `position_finish_only` is present exactly on "Running" rows; `running_cars` is stage 1's; nothing else changes |
| Enrichment.RankIsCompetitionRank | analysis.py:80-88 | a "Running" row's rank is 1 plus the number of "Running" rows of its event that finished strictly ahead; it lies in [1, `running_cars`] |
| Enrichment.RankOrdersFinishes | analysis.py:83-88 | within an event, ranks are equal exactly when finishing positions are equal, and ordered exactly as positions are; after a tie the next rank skips the tied rows (`method="min"`) |
| Enrichment.RankSkipsTies | analysis.py:83-88 | a row finishing behind another ranks at least the other's rank plus the size of the other's tie group |
| Enrichment.RankOneIsEventBest | analysis.py:83-88 | rank 1 exactly when no "Running" row of the event finished ahead |
| Enrichment.PercentileOf | analysis.py:112-114 | with one running car the percentile is missing (0/0); otherwise, for a rank in [1, cars], it lies in [0, 100]; it is 100 exactly for rank 1 and 0 exactly for the last rank |
| Enrichment.AddFinishPercentile | analysis.py:109-120 | a percentile only on "Running" rows; `position_finish_only` is dropped again; `running_cars` is stage 1's; nothing else changes |
| Enrichment.FinishPercentileBounds | analysis.py:111-114 | per row: missing for non-"Running" rows and for a lone running car; otherwise `(cars - rank) / (cars - 1) * 100`, in [0, 100], 100 exactly for the event's best finisher and 0 exactly for the last rank |
| Enrichment.FinishPercentileInRange | analysis.py:111-114 | every percentile the stage produces lies in [0, 100] |
| Enrichment.SessionBest | analysis.py:140 | the session's best speed exists exactly when the session has a row; it is at least every speed of the session and is one of them |
| Enrichment.MinRank | analysis.py:83-88 | the `method="min"` rank is at least 1 and, for a "Running" row of the table, at most the number of "Running" rows of its event |
| Enrichment.SpeedPercentage | analysis.py:146-148 | present exactly when the session best is present and non-zero; then the percentage times the best is the speed times 100; for `0 < speed <= best` it lies in (0, 100] and is 100 exactly when the speed is the best |
| Enrichment.AddRelativeBestLap | analysis.py:140-151 | only `best_lap_percentage` changes; the helper column `best_speed_session` is gone again |
| Enrichment.BestLapPercentageValue | analysis.py:140-148 | each row's `best_lap_percentage` times its session's best speed (the largest in the session, per `SessionBest`) is the row's own speed times 100; it is missing exactly when that best is 0 |
| Enrichment.BestLapPercentageBounds | analysis.py:140-148 | with positive speeds in the session, every row's percentage lies in (0, 100]; it is 100 exactly for the rows holding the session's best speed |
| Enrichment.BestLapLeaderExists | analysis.py:140-148 | every session with positive speeds has a row at exactly 100 |
| Enrichment.CalculatePositionChange | analysis.py:175-191 | present exactly for race rows; start = finish + change, so the change is positive exactly when places were gained |
| Enrichment.AddPositionChange | analysis.py:170 | row count, order and every other column are unchanged; the change is present exactly on race rows and satisfies start = finish + change |
| Enrichment.StagesCommute | analysis.py:109-172 | running the best-lap and position-change stages before or after the percentile stage gives the same table |
| Enrichment.StagesCommuteAt | analysis.py:109-172 | the same, row by row |
| Seqs.Filter | analysis.py:234 | the boolean-mask selection keeps exactly the matching elements; its length is their count |
| Seqs.FilterKeeps | analysis.py:234 | the selection keeps the input order and each matching element as often as the input has it |
| Seqs.FilterIdempotent | analysis.py:234 | selecting twice with the same mask is selecting once |
| Seqs.FilterTwice | cleaning.py:84-91 | filtering by one predicate and then another is filtering once by both |
| Summary.HarmonicMean | analysis.py:210 | defined exactly for non-negative values; 0 when one of them is 0; otherwise `h * (a + b) == 2ab` |
| Summary.HarmonicMeanBetween | analysis.py:194-210 | for positive values, the harmonic mean lies between their minimum and maximum and never exceeds their arithmetic mean |
| Summary.HarmonicMeanOrdered | analysis.py:210 | for `0 < a <= b`, the harmonic mean lies in [a, b] |
| Summary.HarmonicMeanBelowAverage | analysis.py:210 | the harmonic mean of positive values is at most their arithmetic mean |
| Summary.CalculateRpi | analysis.py:194-210 | the RPI is missing when the percentile index is missing; otherwise it is the harmonic mean of the index and the rate; two inputs in [0, 100] give an RPI in [0, 100] |
| Summary.KeysOf | analysis.py:236-241 | the group keys are distinct, and they are exactly the keys of the rows |
| Summary.GroupOf | analysis.py:241 | a group holds exactly the rows with its key |
| Summary.GroupOfKeyNonEmpty | analysis.py:241 | every key that occurs has a non-empty group |
| Summary.RaceRowKey | analysis.py:241 | every row's key is one of the group keys, and the row lies in that key's group |
| Summary.FinishRate | analysis.py:247-249 | `finish_rate` times the group size is 100 per "Running" race |
| Summary.AdjFinishRate | analysis.py:250-257 | `adj_finish_rate` times (size - "Mechanical" count) is 100 per "Running" race; 0 when that denominator is 0 |
| Summary.PercentileIndex | analysis.py:246 | the mean skips missing percentiles: present exactly when some row has one; the index times the number of rows with a percentile is the sum of their percentiles; in [0, 100] when every percentile is |
| Summary.Summarize | analysis.py:241-272 | `races_completed` is the group size; the name is the first row's; `points_per_race` times races is the points total; the index is missing exactly when every percentile is; an RPI implies an index; the index is the group's `PercentileIndex`; the two rates are `FinishRate` and `AdjFinishRate` of the group's "Running" and "Mechanical" counts; the RPI is `CalculateRpi` of the index and the adjusted rate |
| Summary.SummaryAverages | analysis.py:244-258 | each average position times the race count is the column total; `points_earned` is the sum of the group's points |
| Summary.SummaryRates | analysis.py:247-257 | 0 <= `finish_rate` <= `adj_finish_rate` <= 100; the adjusted rate is 0 exactly when no race ended "Running"; the two agree when no race ended "Mechanical" |
| Summary.RateBounds | analysis.py:247-257 | the same bounds, stated over the group's input columns |
| Summary.RatesOrdered | analysis.py:247-257 | the same bounds, stated over the counts |
| Summary.SummaryOf | analysis.py:241-262 | the summary of a key carries that key and its driver's name, and counts as races the size of the key's group, which is at least 1 |
| Summary.Summaries | analysis.py:241-262 | one summary per distinct key; no summary twice |
| Summary.DropSmallGroups | analysis.py:303-304 | with `drop > 0`, exactly the groups with fewer than `drop` races go; with `drop <= 0` nothing goes; what stays is kept with its multiplicity |
| Summary.InsertByRpi | analysis.py:307 | inserting into a list sorted by descending RPI keeps it sorted and adds exactly that element |
| Summary.SortByRpi | analysis.py:307 | the result is sorted by descending RPI (missing last) and is a permutation of the input |
| Summary.RaceTable | analysis.py:229-234 | the summary reads exactly the race rows of the enriched table: each of them as often as it occurs there, in table order, and no other row |
| Summary.GetRpiDf | analysis.py:213-309 | the output is sorted by descending RPI |
| Summary.SummariesAreGroups | analysis.py:241-262 | each summary is the summary of its own key's group, and that group is non-empty |
| Summary.GetRpiDfRowsAreGroups | analysis.py:233-304 | every output row summarises one group of race rows; with `drop > 0` that group has at least `drop` races |
| Summary.GetRpiDfRowKept | analysis.py:303-307 | an output row is a group summary that the drop kept |
| Summary.GetRpiDfKeepsGroups | analysis.py:241-307 | every group with at least `drop` races (every group when `drop <= 0`) appears exactly once in the output |
| Summary.GetRpiDfCoversRaceRows | analysis.py:229-307 | every race row of the enriched table lies in its key's group, and that group's summary is in the output unless `drop > 0` and the group has fewer than `drop` races |
| Summary.GetRpiDfBounds | analysis.py:229-272 | after the percentile stage, every rate, index and RPI lies in [0, 100]; `finish_rate` <= `adj_finish_rate`; an index implies an RPI |
| Summary.NonRaceRowsIgnored | analysis.py:233-234 | with the percentile column already present, removing the non-race rows first changes nothing |
| Strings.Strip | cleaning.py:76 | the result has no white space at either end and is the input with only white space around it |
| Strings.StripUnique | cleaning.py:76 | any stripped piece surrounded only by white space is the strip result |
| Strings.StripIdempotent | cleaning.py:76 | stripping twice is stripping once |
| Strings.Lower | cleaning.py:72 | same length; no ASCII capital remains; each character is kept or is the lower case of an ASCII capital |
| Strings.LowerIsAll | cleaning.py:72 | `s.lower() == "all"` holds exactly for the spellings of "all" in any mix of cases |
| Cleaning.NamedRoundTrip | cleaning.py:72-106 | column names and the columns the normaliser names correspond one to one |
| Cleaning.WellFormedNamesDistinct | cleaning.py:25-69 | in a well-formed frame no two columns carry the same name, as pandas' column index after the renaming |
| Cleaning.RowsOfSession | cleaning.py:73 | every selected row has exactly the requested session type; there are as many as the input has rows of that type |
| Cleaning.RowsOfSessionKeeps | cleaning.py:73 | the selection keeps the input order, holds every row of the session as often as the input does, and holds no other row |
| Cleaning.FilterSessionType | cleaning.py:72-73 | "all" in any case keeps the frame unchanged; otherwise the rows are the `RowsOfSession` selection, each of the exact type; it raises exactly when `session_type` is missing and must be read |
| Cleaning.FilterSessionTypeWellFormed | cleaning.py:72-73 | selecting rows keeps the frame well formed |
| Cleaning.StripStatus | cleaning.py:76 | raises exactly when `status` is absent; otherwise only the status cells change, each becoming its stripped text (non-text becomes missing) |
| Cleaning.StripValue | cleaning.py:76 | text becomes text with no white space at either end, and the input is that text with only white space around it; any other cell becomes missing |
| Cleaning.StripStatusTrims | cleaning.py:76 | each new status cell is the trimmed form of the old one |
| Cleaning.TrimmedIsStripValue | cleaning.py:76 | the trimmed form of a cell is unique |
| Cleaning.StripValueIdempotent | cleaning.py:76 | trimming a cell twice is trimming it once |
| Cleaning.StripStatusIdempotent | cleaning.py:76 | trimming the status column twice is trimming it once |
| Cleaning.StripValueClean | cleaning.py:76 | a trimmed cell is missing or text with no surrounding white space |
| Cleaning.ColumnsWithout | cleaning.py:84 | the remaining names are exactly the ones not dropped |
| Cleaning.ColumnsWithoutKeeps | cleaning.py:84 | the remaining names keep their order and multiplicity |
| Cleaning.DropColumns | cleaning.py:84-91 | removing a set of columns: the columns left are exactly the others; rows keep their count; removed cells read as missing; other cells are unchanged |
| Cleaning.FirstAbsent | cleaning.py:84 | the name reported is one of the list's and absent from the frame; none is reported exactly when the frame has every name |
| Cleaning.Drop | cleaning.py:84-91 | pandas' `drop` raises exactly when some named column is absent, reporting an absent one; otherwise it removes exactly the named columns and changes no other cell |
| Cleaning.DropUnneeded | cleaning.py:79-84 | drops exactly the presentation columns present (absent ones are no error); other cells are unchanged |
| Cleaning.DropUnneededIsGuardedDrop | cleaning.py:79-84 | the drop of the listed names the frame has never raises and equals `DropUnneeded`; dropping the whole list would raise exactly when one presentation column is absent |
| Cleaning.DropEmptyColumns | cleaning.py:87 | a column is dropped exactly when all its cells are missing; no cell changes; no empty column remains |
| Cleaning.DropEmptyColumnsOfNoRows | cleaning.py:87 | a frame without rows loses every column |
| Cleaning.NUnique | cleaning.py:90 | `nunique()` is 0 exactly when every cell of the column is missing |
| Cleaning.NUniqueOne | cleaning.py:90 | `nunique() == 1` holds exactly when the column holds one value apart from missing cells |
| Cleaning.DropIsDeleted | cleaning.py:90-91 | raises exactly when `is_deleted` is absent; otherwise drops it exactly when it has one distinct value and changes nothing else |
| Cleaning.Trunc | cleaning.py:103 | `astype(int)` truncates toward zero |
| Cleaning.IntCell | cleaning.py:103 | a missing cell becomes 0; a number becomes its truncation; only text fails |
| Cleaning.FloatCell | cleaning.py:106 | a missing cell stays missing; a number keeps its value as a float; only text fails |
| Cleaning.CastIntTwice | cleaning.py:103 | casting to int twice is casting once |
| Cleaning.CastsKeepPresence | cleaning.py:103-106 | the int cast never yields a missing cell; the float cast keeps present cells present |
| Cleaning.ConvertColumns | cleaning.py:103 | converts exactly the cells of the chosen columns and keeps the rest |
| Cleaning.FirstTextCount | cleaning.py:103 | the reported count column holds text; there is none exactly when no count column does |
| Cleaning.FillIntColumns | cleaning.py:94-103 | present count columns are filled with 0 and cast; absent ones are skipped; it raises exactly when a present count column holds text; afterwards every count cell is an integer |
| Cleaning.CastBestSpeed | cleaning.py:106 | raises when `best_speed` is absent or holds text; otherwise only `best_speed` changes, to floats or missing |
| Cleaning.SelectRows | cleaning.py:72-76 | the error conditions of lines 72-76; row `k` is the `k`-th row the session filter keeps (every row for "all"), with its status trimmed and every other cell unchanged; unless the type is "all", every row has it |
| Cleaning.PruneColumns | cleaning.py:79-91 | raises exactly when `is_deleted` is absent or all missing; otherwise drops exactly the presentation columns, the all-missing columns and a single-valued `is_deleted` |
| Cleaning.PruneColumnsStaged | cleaning.py:79-91 | `PruneColumns` equals the three drops in source order |
| Cleaning.PruneColumnsNotEmpty | cleaning.py:87-91 | no column left after pruning is all missing |
| Cleaning.PruneColumnsIsDeleted | cleaning.py:90-91 | a surviving `is_deleted` does not hold a single value |
| Cleaning.PruneColumnsKeepsSession | cleaning.py:79-91 | pruning keeps every row's session type |
| Cleaning.PruneColumnsKeepsStatus | cleaning.py:79-91 | pruning keeps the trimmed status cells |
| Cleaning.CastColumns | cleaning.py:94-106 | raises exactly on text in a count column or in `best_speed`, or a missing `best_speed`; otherwise each cell of a present count column is its integer cast, each best speed its float cast, and every other cell is unchanged; counts are integers and speeds floats or missing |
| Cleaning.CastColumnsKeepsSession | cleaning.py:94-106 | casting keeps every row's session type |
| Cleaning.CastColumnsKeepsStatus | cleaning.py:94-106 | casting keeps the trimmed status cells |
| Cleaning.CastColumnsKeepsPresence | cleaning.py:94-106 | casting never makes a present cell missing |
| Cleaning.CastColumnsKeepsNotEmpty | cleaning.py:94-106 | casting keeps every column that holds some value |
| Cleaning.CastColumnsKeepsIsDeleted | cleaning.py:94-106 | casting leaves `is_deleted` as it was |
| Cleaning.CleanSessionsRecords | cleaning.py:8-108 | a missing `session_type` raises unless the type is "all"; a result implies the input had `status`, `is_deleted` and `best_speed` |
| Cleaning.CleanedRows | cleaning.py:72-106 | row `k` of the output comes from the `k`-th row the session filter keeps; every cell of a surviving column is that row's cell with the status trimmed, a count cast to an integer, the best speed cast to a float, and any other cell unchanged |
| Cleaning.PrunedStatusNull | cleaning.py:87 | pruning removes `status` only when every status cell reads missing |
| Cleaning.CleanedSteps | cleaning.py:72-106 | a successful run passes through the three phases in order |
| Cleaning.CleanedShape | cleaning.py:72-106 | the output has as many rows as the input has rows of the session (all rows for "all"); it keeps `best_speed`; it is well formed if the input is |
| Cleaning.CleanedColumnOrigin | cleaning.py:72-91 | an input column is in the output exactly when it is not a presentation column, some selected row holds a value in it (after the status trim), and it is not a single-valued `is_deleted` |
| Cleaning.SelectedNull | cleaning.py:72-87 | a column of the selection reads only missing cells exactly when every selected row's cell, after the status trim, is missing |
| Cleaning.CleanedNoEmptyColumns | cleaning.py:87 | no output column is all missing |
| Cleaning.CleanedIsDeleted | cleaning.py:90-91 | an output `is_deleted` does not hold a single value |
| Cleaning.CleanedSessionType | cleaning.py:72-73 | every output row has exactly the requested session type unless the type is "all" |
| Cleaning.CleanedStatus | cleaning.py:72-87 | every output status is the trimmed status of its input row, even when pruning removed the column, and so missing or trimmed text |
| Cleaning.CleanedNumbers | cleaning.py:94-103 | each output count is the integer cast of its input cell (a missing count becomes 0, a number is truncated), so an integer |
| Cleaning.CleanedSpeeds | cleaning.py:105-106 | each output best speed is the float cast of its input cell, so a float or missing |
| Cleaning.NoMatchingRowsRaise | cleaning.py:72-90 | when no row has the requested type, every column of the selection is empty, `dropna` removes them all, and the read of `is_deleted` raises |

## Left out

- Rounding (`.round(1)`, `.round(2)` in analysis.py:117, 148, 210, 267 and 275-283): floating-point presentation. The model keeps exact values.
- IEEE floating point: `best_speed`, percentiles and means are exact reals. NaN is `None`, with no arithmetic on it.
- Summary.HarmonicMean: follows `scipy.stats.hmean` only for non-negative inputs. It is 0 as soon as one input is 0. A negative input gives `None`, and scipy's own NaN and warning handling is not modelled.
- Enrichment.SpeedPercentage: a session best of 0 gives `None` where pandas divides by zero (inf or NaN). Only positive speeds carry a proven bound.
- Summary.SortByRpi: the sort is specified only as sorted and a permutation. pandas' `groupby` lists the groups in ascending key order and the model lists them in an unspecified order; neither order is visible after the sort by RPI except among ties, and pandas' non-stable tie order is not modelled either.
- Summary.GetRpiDf: the `finish_percentile in df.columns` test is a boolean parameter, because the model's row always carries the field. The column reordering for `by_season` (analysis.py:285-301) is layout only.
- Summary.Summarize: the average positions are stated only through their totals in `SummaryAverages`, since rounding is left out.
- In-place updates: the five enrichment stages assign their columns into the frame they are given and return that frame (analysis.py:51-55, 77-88, 111-120, 143-151, 170), and `get_rpi_df` does so through `add_finish_percentile` (analysis.py:230-231). The model's stages are pure functions returning new tables, so the caller's frame changing as well is not modelled.
- Enrichment.SessionBest: `best_speed` is never missing in the model. pandas' `max` would skip a NaN best speed, and that row's percentage would be NaN.
- Cleaning.CleanSessionsRecords: its own contract gives only the error on a missing `session_type` and the columns a result needs. The row-by-row relation to the input is stated by `CleanedRows`, `CleanedStatus` and `CleanedNumbers`.
- Cleaning.Drop: reports the first absent name, where pandas' `KeyError` lists every absent one.
- `get_unique_drivers` (analysis.py:10-26): it returns a pandas groupby object and computes nothing.
- Column renaming (cleaning.py:25-69): a fixed name map. The frame already carries the snake_case names.
- Cleaning.IntCell: text in a numeric column is always `NotNumeric`. pandas would parse numeric text and raises only on the rest. The model does not parse numbers from text.
- Cleaning.FloatCell: text in `best_speed` is always `NotNumeric`, where `astype(float)` (cleaning.py:106) parses numeric text such as "220.5"; the model does not parse numbers from text.
- Cleaning.CastBestSpeed: inherits the `FloatCell` departure: numeric text in `best_speed` fails where pandas converts it.
- Cleaning.FillIntColumns: inherits the `IntCell` departure: numeric text in a count column fails where `astype(int)` (cleaning.py:103) converts it.
- Cleaning.CastColumns: inherits both departures, and so do `CleanSessionsRecords`, `CleanedNumbers` and `CleanedSpeeds`: a frame with numeric text in a count column or in `best_speed` is an error in the model.
- Cleaning.Trunc: integers are unbounded. The 64-bit width of `astype(int)` (cleaning.py:103) is not modelled, so a float beyond the int64 range truncates to its exact integer.
- Cleaning.FillIntColumns: when several count columns hold text, the one reported is the first in the source's list. pandas' choice of which column to report is not modelled.
- Cleaning.NUniqueOne: cells are compared as model values. An integer and a float of the same number count as two values, where pandas would count one.
- Cleaning.StripValue: `.str.strip()` on a non-text cell gives a missing cell, as in pandas. Other `.str` accessor errors are not modelled.
- Strings.Lower: only ASCII letters are lowered. Full Unicode case mapping is out of scope.
- scraper.py (HTTP fetching, pacing, progress bars, the older duplicate normaliser), helper.py (CSV writing) and setup.py (package metadata) are I/O or packaging and are not part of this model.
