# Rainfall event analysis: a verified model

`inter3.py` is a small rainfall-analysis application. It reads a series of
precipitation readings taken every five minutes and stamps each row with a
synthetic time. It then cuts the series into rain *events*: maximal runs of
rows with precipitation above zero. For each event it records:

- start and end time;
- duration;
- total rainfall;
- peak reading and the time of the first row reaching that peak;
- a duration category.

It counts the events per category. For the four categories up to three
hours it builds each event's normalized accumulation curve (the running
total divided by the event total). These curves feed one average per
category and an overall average. Finally it exports the event table to a
spreadsheet, with one sheet per category.

This project models that pipeline in Dafny, from the decoded precipitation
column to the curves and the sheet layout, and proves what each step
guarantees.

- `timeline.dfy` (`Timeline`): row `i` is stamped `origin + 5*i`. Time is
  whole minutes from the origin (2000-01-01 00:00).
- `segmentation.dfy` (`Segmentation`): the segmentation loop is the method
  `Segment`. It keeps an open buffer and a list of closed events, like the
  source. Its result is specified by the predicate `IsSegmentation`: maximal
  runs of rain, in row order, covering every rainy row. The lemmas prove that
  this specification admits exactly one answer, that it partitions the rows,
  and its edge cases. An event is the sequence of its row indices.
- `summary.dfy` (`Summary`): the event summary, the classification chain,
  the summary loop (`SummarizeAll`) and the category count.
- `curves.dfy` (`Curves`): the curve-membership test, the cumulative
  fraction, and the curve loop (`CollectCurves` / `CollectCategory`). The
  loop fills the per-category lists and the overall list.
- `export.dfy` (`Export`): the sheet-name transform, and the workbook of one
  table sheet plus one sheet per category present, in sorted key order.
- `pipeline.dfy` (`Pipeline`): the whole run.
  - It fails when the `Precipitacion` column is missing.
  - As written, it also stops when there is no event, or when no event
    reaches the overall average (see Findings).
  - Otherwise it chains the steps above.
  - It includes a worked example, with its events and summaries computed.

The classification chain is modelled twice, selected by a `Policy`:

- `AsWritten` follows the source exactly, including its gap at 30 minutes
  (see Findings).
- `Corrected` closes the gap, and goes on where the written program stops:
  with no events it reports an empty table, and with no curve for the
  overall average it leaves that pattern out, as the source already does for
  a category with no curve (its fit is guarded by `if curvas_cat:` at
  inter3.py:169, while the overall fit at inter3.py:186-187 is not). The
  written program's stops are recorded under Findings.

Every operation whose result depends on the classification takes the policy,
so each property about it is proved for the program as written and for the
corrected one.

## Model

| member | source | states |
|---|---|---|
| Timeline.Timestamps | inter3.py:32-33 | one stamp per row; row `i` is 5·i minutes after the origin, and rows `j - i` apart are 5·(j - i) minutes apart |
| Timeline.TimeOf | inter3.py:33 | a stamp is on the five-minute grid at or after the origin, and the row is recovered from it: (stamp − origin) / 5 is the row index |
| Timeline.StampOfRow | inter3.py:32-33 | the stamp of row `i` is the time of row `i` |
| Segmentation.Segment | inter3.py:41-53 | the loop's result is the segmentation of the series: every event is a non-empty run of consecutive rainy rows; each run is bounded by a dry row or an end of the series; events are in row order and do not overlap; every rainy row is in an event |
| Segmentation.Values | inter3.py:61 | the readings of an event, one per row, in row order |
| Segmentation.Partition | inter3.py:41-53 | a row is rainy exactly when some event holds it, and no two events share a row, so the events and the dry rows partition the rows |
| Segmentation.NoRainNoEvents | inter3.py:44-53 | a series with no reading above zero, empty or not, has no events |
| Segmentation.EventsIffRain | inter3.py:44-53 | a series has no events exactly when no reading is above zero |
| Segmentation.AllRainOneEvent | inter3.py:52-53 | a non-empty series that rains on every row has exactly one event, holding every row; the flush after the loop is what emits it |
| Segmentation.StartsOfSegmentation | inter3.py:44-50 | event starts strictly increase and are exactly the rainy rows whose predecessor is dry or absent |
| Segmentation.SegmentationUnique | inter3.py:41-53 | a series has only one segmentation, so the loop's output is determined by the series |
| Summary.Label | inter3.py:67-75 | the five category strings stored in the table, each ending in ` min` |
| Summary.ClassifyAsWritten | inter3.py:66-75 | the chain as written: under 30 gives `<30 min`; (30, 60] gives `30-60 min`; (60, 120] gives `60-120 min`; (120, 180] gives `120-180 min`; exactly 30 or above 180 gives `>180 min` |
| Summary.ClassifyCorrected | inter3.py:66-75 | the corrected chain: [30, 60] gives `30-60 min`, and only durations above 180 give `>180 min` |
| Summary.Classify | inter3.py:66-75 | the category under a policy: `>180 min` exactly for durations above 180 and, as written, also for 30 |
| Summary.PoliciesDifferOnlyAtThirty | inter3.py:66-75 | the two chains disagree on exactly one duration, 30 minutes |
| Summary.Duration | inter3.py:60 | an event lasts five minutes per row: the duration is a multiple of 5, and divided by 5 it is the number of rows |
| Summary.SumPositive | inter3.py:61 | `Summary.Sum`, the total of `.sum()`, is above zero for readings that are all above zero |
| Summary.PeakIndex | inter3.py:62 | a row holding the maximum reading, and no earlier row reaches it, as `idxmax` returns the first maximum |
| Summary.Summarize | inter3.py:57-85 | start and end are the stamps of the first and last rows; duration is 5 per row; total is the sum of the readings; peak value is the maximum, and peak time is the stamp of the first row reaching it; category is the policy's classification of the duration |
| Summary.SummaryStamps | inter3.py:58-63 | start, end and peak time are the stamps the timeline gives the event's first row, last row and a row of the event |
| Summary.SummaryOfRun | inter3.py:58-61 | for an event of the segmentation, end − start = duration − 5, the peak time lies between start and end, and the total is positive |
| Summary.SixRowEvent | inter3.py:60-75 | a six-row event lasts 30 minutes and is filed `>180 min` as written, `30-60 min` when corrected |
| Summary.SegmentationSummarizable | inter3.py:57-64 | every event of a segmentation is non-empty and inside the series, so it can be summarized |
| Summary.SummarizeAll | inter3.py:55-85 | the summary loop gives one row per event, in event order, each the summary of its event |
| Summary.Categories | inter3.py:92 | the category column: one entry per row, in row order, each the row's category |
| Summary.CountOf | inter3.py:92 | the number of rows in a category is the number of times the category occurs in the category column, and never exceeds the number of rows |
| Summary.CategoryCounts | inter3.py:92 | the count lists exactly the categories present, each with its number of rows |
| Summary.RowsCountedOnce | inter3.py:92 | the five per-category numbers add up to the number of rows |
| Summary.CountsAddUp | inter3.py:92 | the category counts, zero for absent categories, add up to the number of events |
| Curves.Selects | inter3.py:113-118 | the membership test keeps an event for a listed category exactly when its classification is that category, under the written and under the corrected chain; it never keeps an event for `>180 min` |
| Curves.CumSum | inter3.py:163 | the running totals: entry `k` is the sum of the first `k + 1` readings |
| Curves.CumFraction | inter3.py:163 | entry `k` is the sum of the first `k + 1` readings divided by the event total |
| Curves.RunningTotalsIncrease | inter3.py:163 | with readings above zero, the running totals are positive and strictly increase |
| Curves.CumFractionIncreasing | inter3.py:161-163 | with readings above zero, the cumulative fraction strictly increases |
| Curves.CumFractionBounds | inter3.py:161-163 | with readings above zero, every entry of the cumulative fraction lies in (0, 1] and the last one is 1 |
| Curves.CumFractionShape | inter3.py:161-163 | the cumulative fraction of an event has one entry per row, strictly increases, lies in (0, 1] and ends at 1 |
| Curves.RunReadings | inter3.py:161 | an event of the segmentation has readings above zero, so its total is not zero and the division is defined |
| Curves.Curve | inter3.py:161-163 | an event's curve has one entry per row, strictly increases, lies in (0, 1] and ends at 1 |
| Curves.SelectedMembers | inter3.py:153-160 | an event is among those kept for a category exactly when the membership test keeps it |
| Curves.SelectedUpTo | inter3.py:153-160 | the events kept for a category, in event order, without repetition |
| Curves.CollectCategory | inter3.py:151-166 | one pass over the events for a category: the category's list holds the curve of each kept event, in event order, and the overall list grows by exactly that list |
| Curves.CollectCurves | inter3.py:146-166 | the curve loop: four category lists, each holding its category's curves; the overall list holds the curves of all kept events, category by category |
| Curves.OverallOnce | inter3.py:146-166 | in `Curves.Overall`, the events whose curves `todas_curvas` holds, every event not classified `>180 min` feeds the overall list exactly once, and no other event does; as written, that leaves out the 30-minute events |
| Curves.OverallEmpty | inter3.py:146-166 | the overall list is empty exactly when every event is classified `>180 min` (in particular when there are no events) |
| Export.ReplaceSpaces | inter3.py:206 | same length; every space becomes an underscore, and every other character is kept |
| Export.SheetName | inter3.py:206 | the name is the space-replaced string cut to 31 characters: no space, length min(length, 31), character by character the replaced original |
| Export.SheetNameIdempotent | inter3.py:206 | deriving a sheet name from a sheet name changes nothing |
| Export.SheetOfCategory | inter3.py:205-206 | the sheet name of each category label, written out |
| Export.CategorySheetsDistinct | inter3.py:204-206 | different categories get different sheet names, and none is the table sheet's name |
| Export.SheetOrderSorted | inter3.py:205 | the sheet order is the categories sorted by label, as the group keys come out |
| Export.CategoryPositions | inter3.py:205 | the table positions holding a category, strictly increasing, as many as the count says |
| Export.CategoryPositionsMembers | inter3.py:205 | a position is listed exactly when it is a table row of that category |
| Export.CategoryRows | inter3.py:205 | the rows of a category: the table rows at the category's positions, in table order, with repetitions kept; a row is there exactly when it is a table row of that category |
| Export.SheetFor | inter3.py:206 | the sheet written for a category: its name has no space and at most 31 characters, and it holds the category's rows, exactly the table rows in that category, as many as the count says |
| Export.Groups | inter3.py:205-206 | the `groupby` loop: at most one sheet per listed category, and no sheet without rows |
| Export.GroupsHold | inter3.py:205-206 | a category has a group sheet exactly when it is listed and has rows |
| Export.GroupNamesDistinct | inter3.py:205-206 | group sheets of categories listed once each have pairwise different names |
| Export.Workbook | inter3.py:203-206 | the workbook: first the `Eventos` sheet holding the whole table, then at most five group sheets, none of them empty |
| Export.GroupsInOrder | inter3.py:205-206 | group sheets come out in the order of the listed categories: when those are in increasing label order, every group sheet's category is listed, and the categories of the group sheets, in order, are in increasing label order |
| Export.WorkbookSheets | inter3.py:203-206 | the workbook starts with the whole table; a category gets a sheet of its rows exactly when it is in the count, and there are no other sheets |
| Export.GroupedNamesDistinct | inter3.py:203-206 | with each category listed once, the table sheet and the group sheets have pairwise different names |
| Export.GroupedNamesFit | inter3.py:203-206 | the table sheet and every group sheet have names of at most 31 characters |
| Export.WorkbookInKeyOrder | inter3.py:204-206 | after the table sheet, the categories of the workbook's sheets are in strictly increasing label order, as `groupby` yields its sorted keys |
| Export.WorkbookNames | inter3.py:203-206 | sheet names in the workbook are pairwise different and at most 31 characters long |
| Pipeline.StopOf | inter3.py:87-187 | as written, the run stops exactly when there are no events (at the category count) or when every event is `>180 min` (at the overall average); corrected, it never stops there |
| Pipeline.Analyze | inter3.py:28-206 | a missing `Precipitacion` column fails the run and nothing else does; as written, the run stops at the category count exactly when no reading is above zero, and at the overall average when every event is `>180 min`; corrected, it never stops; a report holds the segmentation, its summary table, the category count, the curve lists and the workbook of that table, each as specified above; the workbook is only reached when the run does not stop |
| Pipeline.DrySeriesStops | inter3.py:87-92 | a series with no reading above zero, empty or not, stops the written run at the category count and not the corrected one |
| Pipeline.ThirtyMinuteSeriesStops | inter3.py:184-187 | the series 0, 1, 1, 1, 1, 1, 1, 0 has one event of 30 minutes; it stops the written run at the overall average and not the corrected one |
| Pipeline.ExampleIsSegmentation | inter3.py:41-53 | in the series 0, 5, 5, 0, 0, 3, 3, 3, 3, 0, rows 1-2 and rows 5-8 form a segmentation |
| Pipeline.ExampleSegmentation | inter3.py:41-53 | that segmentation is the only one of the series |
| Pipeline.ExampleFirstSummary | inter3.py:57-85 | the first event runs 5-10 min, lasts 10 min, totals 10, peaks at 5 at minute 5, and is `<30 min` |
| Pipeline.ExampleSecondSummary | inter3.py:57-85 | the second event runs 25-40 min, lasts 20 min, totals 12, peaks first at minute 25 with 3, and is `<30 min` |

## Left out

- The Streamlit interface: page setup, file upload, tables on screen,
  headings, equations and the download button. This is presentation only.
- Decoding the `.sav` file, the temporary file, and the renaming of
  `valor`/`fecha`. Foreign decoding and file I/O. The decoded column is an
  input of `Pipeline.Analyze`, `None` when the file has no `Precipitacion`
  column.
- Plotting, both the hyetograms and the curve plots. Rendering only. The
  hyetogram loop (inter3.py:108-129) uses the same membership test as the
  curve loop, which `Curves.Selects` models.
- Resampling each curve to 100 points (`np.interp`), the averages
  (`np.nanmean`) and the quadratic fit (`np.polyfit`). These are floating-point
  numerics inside numpy. The model stops at the raw cumulative-fraction
  curves that feed them, in the order they are fed. When no curve reaches the
  overall list, the source fails at inter3.py:186-187 (`np.nanmean` of an
  empty list gives a scalar NaN, and `np.polyfit` rejects it); the model
  records that stop as `NoOverallCurves` and does not model the numerics.
- Writing the workbook bytes with the spreadsheet library. Only the sheet
  names and the rows that go on each sheet are modelled.
- The display order of the category count. `value_counts` sorts by
  frequency; `Summary.CategoryCounts` is a map from category to count.
- Readings are exact `real` numbers. Floating-point rounding in the sums and
  divisions is not modelled, so `Curves.CumFractionShape` states exact
  equality with 1 at the last row.
- Missing readings (NaN) are not modelled. A NaN compares false with zero,
  so the source treats it as a dry row.
- Timestamps are whole minutes from the origin, not calendar date-times.
  `Timeline.Origin` is that origin, as zero.
- Events are the row indices of the series, not copies of the table rows;
  values and times are read through those indices.

## Findings

| source | as written | input that shows it | evidently intended | confidence | as-written member | corrected member |
|---|---|---|---|---|---|---|
| inter3.py:66-75 and inter3.py:113-118, 155-160 | every band after the first is open at 30 (`30 < duracion_min`), so a duration of exactly 30 minutes fails every test and falls to `'>180 min'`; the curve-membership test has the same gap, so such events never reach a curve list or the overall average | an event of six rows (30 minutes), e.g. readings 0, 1, 1, 1, 1, 1, 1, 0 | 30 minutes belongs to `'30-60 min'`, with the bands [0, 30), [30, 60], (60, 120], (120, 180], above 180 | not executed | Summary.ClassifyAsWritten (with Summary.SixRowEvent and Curves.OverallOnce) | Summary.ClassifyCorrected (with Summary.PoliciesDifferOnlyAtThirty) |
| inter3.py:87-92 | with no event the summary list is empty, `pd.DataFrame([])` has no columns, and `df_eventos['Categoria']` raises `KeyError`, so the run fails | a series with no reading above zero, e.g. readings 0, 0, or an empty series | an empty event table and an empty category count | not executed | Pipeline.DrySeriesStops (with Pipeline.StopOf under `AsWritten`) | Pipeline.Analyze under `Corrected` (with Segmentation.EventsIffRain) |
| inter3.py:184-187 | when no curve reached `todas_curvas`, `np.nanmean([], axis=0)` gives a scalar NaN and `np.polyfit` fails on it; as written this happens whenever every event is `>180 min`, including series whose only events last 30 minutes | readings 0, 1, 1, 1, 1, 1, 1, 0 (one 30-minute event) | skip the overall pattern, as the per-category patterns are skipped when their list is empty (inter3.py:169) | not executed | Pipeline.ThirtyMinuteSeriesStops (with Curves.OverallEmpty) | Pipeline.Analyze under `Corrected` (with Pipeline.StopOf) |
