# Bio-Optimization analytics: cleaning, merge and Volume

A Dafny model of the data pipeline in `analyze_performance`. The pipeline
takes the two loaded spreadsheet sheets: a daily wellness log (`Daily_Log`)
and a workout log with one row per set (`Workout_Log`). It runs four steps:

1. **Zero-fill.** Missing `Caffeine_Mg` and `Screen_Time_Phone` cells of the
   daily sheet become 0, but only when the column exists.
2. **Forward-fill and defaults.** Every column of the workout sheet is
   forward-filled. Then missing `Pre_Workout` cells become `"No"` and missing
   `Gym_Crowd_Level` cells become 1, again only when the column exists.
3. **Merge.** The two sheets are inner-joined on `Date`. An empty merge stops
   the run.
4. **Volume.** The merged table gets a `Volume = Weight_KG * Reps` column.

## How it is modelled

- A table (`Tables.Table`) is a set of column names plus a sequence of rows.
- A row maps every column name to a cell, `Option<Value>`. A missing cell
  (NaN / NaT) is `None`.
- A value is a number (`real`), a text label, or an already-parsed date. A
  date is a day number that is only ever compared for equality.
- `Tables.Table.Valid` says every row has exactly the table's columns.

The steps the source runs in place are methods of the class
`DataFrames.Frame`, which holds a column set and an `array<Row>`:

- `FillNa` loops over the rows.
- `ForwardFill` makes one pass down the rows, carrying a map from each column
  to the last present cell seen so far.
- `AssignVolume` writes the new column row by row and adds it to the column
  set.

Each method is proved to leave the frame holding exactly what a specification
function computes from the old contents: `Cleaning.FillNa`,
`Cleaning.ForwardFill`, `Volume.AddVolume`. The source's properties are
lemmas about those functions.

The forward-fill reference is `Cleaning.Nearest`: the nearest present cell of
a column at or above a row.

The merge is a pure function (`Merge.Join`). It pairs rows on equal `Date`
cells, and follows pandas in a few details:

- Null keys match each other.
- Rows come in workout-row order, then daily-row order.
- A non-key column that both sheets have appears twice, as `<name>_x` (the
  workout cell) and `<name>_y` (the daily cell).

`Analytics.Analysis` composes the steps and `Analytics.AnalyzePerformance`
runs them on two frames. It returns either the merged table or why the run
stopped:

- `MissingColumn(name)`: the KeyError raised when `Date`, `Weight_KG` or
  `Reps` is absent.
- `NoMatchingData`: the join was empty. Here the routine returns before any
  Volume is computed.

One consequence of the pandas renaming is proved in
`Analytics.WeightInBothSheets`: if both sheets have a `Weight_KG` column, the
merged table has only `Weight_KG_x` and `Weight_KG_y`. The Volume line then
stops with a KeyError.

Two details of the cleaning, as the code does them:

- Only `Caffeine_Mg` and `Screen_Time_Phone` are zero-filled.
- Every workout column is forward-filled, `Date` and the numeric columns
  included.

## Model

| member | source | states |
|---|---|---|
| `Cleaning.FillNaFillsColumn` | analytics.py:33-36 | on a present column, fill-missing leaves no missing cell; present cells keep their value; only missing cells become the constant; every other column is unchanged |
| `Cleaning.FillNaAbsentColumn` | analytics.py:33-36 | on an absent column, fill-missing returns the table unchanged and creates no column |
| `Cleaning.CleanDailySpec` | analytics.py:32-36 | after both zero-fills, each of the two columns (when present) holds its old cell if present and 0 otherwise; every other column, `Date` included, is untouched |
| `Cleaning.CleanDailyKeepsDate` | analytics.py:33-36 | zero-fill keeps each daily row's `Date` cell |
| `Cleaning.OptionalColumnsAbsent` | analytics.py:33-43 | with none of the four optional columns, the daily sheet is unchanged and the workout sheet is only forward-filled |
| `Cleaning.NearestIsLastPresent` | analytics.py:39 | the nearest-earlier cell is missing exactly when no row in range has the column present; otherwise it is the cell of the last such row |
| `Cleaning.ForwardFillKeepsPresent` | analytics.py:39 | forward-fill keeps the row count, the columns of every row, and every present cell |
| `Cleaning.ForwardFillMissingIff` | analytics.py:39 | after forward-fill a cell is missing exactly when the column is missing in that row and every earlier row |
| `Cleaning.ForwardFillTakesNearest` | analytics.py:39 | a filled cell equals the cell of the nearest earlier row whose cell in that column is present |
| `Cleaning.ForwardFillValid` | analytics.py:39 | forward-fill of a well-formed table is well-formed |
| `Cleaning.NearestOneColumn` | analytics.py:39 | the nearest-earlier cell of a column depends only on that column's cells |
| `Cleaning.ForwardFillColumnwise` | analytics.py:39 | forward-fill acts on each column on its own: tables that agree on a column agree on it after forward-fill, whatever the other columns hold |
| `Cleaning.DefaultOnlyOnLeadingGaps` | analytics.py:39-43 | after forward-fill and then a constant default, the column has no missing cell. A cell is the default when the column was missing in that row and all earlier ones; otherwise it is the last present cell above. So it holds the default value only if the column was missing all the way up, or that value was really present |
| `Cleaning.CleanWorkoutDefaults` | analytics.py:38-43 | in the cleaned workout sheet, `Pre_Workout` and `Gym_Crowd_Level` (when present) have no missing cell. `"No"` or 1 appears only where the column was missing in that row and every earlier row, or where that value was really present |
| `Merge.Join` | analytics.py:46 | the merged table has the merged columns and every merged row has exactly those columns |
| `Merge.MergeRowShape` | analytics.py:46 | a merged row has the merged columns and the workout row's `Date` |
| `Merge.MergeRowCells` | analytics.py:46 | a column of one sheet only keeps its name and cell. A non-key column of both sheets loses its own name and becomes `_x` (workout cell) and `_y` (daily cell) |
| `Merge.MergedColumnsHas` | analytics.py:46 | a name of exactly one sheet is a merged column; a name of both sheets, or of neither, is not (unless it is itself suffixed) |
| `Merge.JoinRowsShape` | analytics.py:46 | all merged rows have the merged columns |
| `Merge.MatchesExactly` | analytics.py:46 | the rows one workout row contributes are exactly its merges with the daily rows of the same date |
| `Merge.JoinExactly` | analytics.py:46 | a row is in the merge exactly when it merges a workout row and a daily row with equal `Date` cells |
| `Merge.JoinDatesInBoth` | analytics.py:46 | every merged row's `Date` occurs in both the workout and the daily table |
| `Merge.MatchesCount` | analytics.py:46 | a workout row contributes as many rows as there are daily rows with its date, and none when there is no such daily row |
| `Merge.JoinCount` | analytics.py:46 | the merged row count is the sum, over workout rows, of the number of daily rows sharing that date |
| `Merge.JoinAppend` | analytics.py:46 | merging a concatenation of workout rows concatenates the merges |
| `Merge.UnmatchedWorkoutRowDropped` | analytics.py:46 | removing a workout row whose date has no daily row leaves the merge unchanged |
| `Merge.JoinEmptyIff` | analytics.py:46-48 | the merge is empty exactly when no workout row and daily row share a date |
| `Volume.AddVolume` | analytics.py:54 | the Volume step fails exactly when `Weight_KG` or `Reps` is absent, naming `Weight_KG` first |
| `Volume.AddVolumeSpec` | analytics.py:54 | adding Volume keeps the row count and every other cell; the columns gain `Volume`; each row's `Volume` is the product of its `Weight_KG` and `Reps` |
| `DataFrames.Frame.constructor` | analytics.py:46 | a new frame holds the given table in a fresh array |
| `DataFrames.Frame.FillNa` | analytics.py:33-36 | in place, the frame ends holding the fill-missing of its old contents |
| `DataFrames.Frame.ForwardFill` | analytics.py:39 | in place, one pass with a carried last-seen cell per column leaves the frame holding the forward-fill of its old contents |
| `DataFrames.Frame.AssignVolume` | analytics.py:54 | in place, the frame ends holding its old contents with Volume added; on a KeyError it returns the error and the frame is unchanged |
| `Analytics.AnalyzePerformance` | analytics.py:28-54 | running the steps on the two frames returns exactly what the analysis function computes from their old contents; both frames stay well-formed. Unless a sheet lacks `Date`, the daily frame ends zero-filled and the workout frame ends forward-filled with its defaults; otherwise both are unchanged |
| `Analytics.AnalysisOutcome` | analytics.py:29-54 | the run stops for `Date` exactly when a sheet lacks it. It stops for an empty merge exactly when no cleaned rows share a date. Any other KeyError means a Volume factor is not a merged column |
| `Analytics.WeightInBothSheets` | analytics.py:46-54 | with `Weight_KG` in both sheets and a non-empty merge, the Volume step raises a KeyError on `Weight_KG` |
| `Analytics.AnalysisIsMergeWithVolume` | analytics.py:46-54 | a successful run is the non-empty merge of the cleaned sheets with Volume added, so Volume is reached only past the empty-merge guard |
| `Analytics.AnalysisCount` | analytics.py:46-54 | a successful run has one row per date-matching pair of cleaned rows, and at least one row |
| `Analytics.AnalysisRowAt` | analytics.py:32-54 | each row of a successful run is a date-matching pair of cleaned rows, merged, with Volume added; its date is the daily row's date as loaded |
| `Analytics.CleanWorkoutKeepsShape` | analytics.py:38-43 | cleaning the workout sheet keeps its columns, row count and well-formedness |
| `Analytics.CleanDailyKeepsShape` | analytics.py:32-36 | cleaning the daily sheet keeps its columns, row count and well-formedness |

## Left out

- Locating the workbook with `os.path` (analytics.py:7-8): environment glue.
- Reading the two sheets with `pd.read_excel`, and the handling of a missing
  file or other read error with messages and a prompt (analytics.py:15-26):
  I/O. The model starts from the loaded sheets.
- Parsing dates with `pd.to_datetime(..., dayfirst=True)` (analytics.py:29-30):
  a library call whose format rules are not visible here. Dates are modelled
  as already-parsed values compared by equality. Only the KeyError for an
  absent `Date` column is kept, and an unparseable date string is not
  modelled.
- The console messages, prompts and `time.sleep(5)` (analytics.py:11-12,
  49-50, 55, 77-80): user interface.
- The three charts and the column checks that guard them (analytics.py:57-75):
  presentation.
- engine.py: it only checks that the workbook exists, loads one sheet, and
  prints a column check and a preview. That is all I/O.
- Floating point: numbers are exact reals, so `Weight_KG * Reps` has no
  rounding.
- `Volume.AddVolumeSpec`: a text cell in `Weight_KG` or `Reps` gives a
  missing Volume. pandas would instead raise a TypeError or repeat a string by
  an integer.
- `Merge.MergeRowCells`: the `_x`/`_y` cells are stated only when the suffixed
  name is not already a column name. Take a column `A` of both sheets where
  `A_x` is also a column of the workout sheet only. The merged `A_x` then
  holds the workout row's own `A_x` cell, and the workout cell of `A` appears
  under no name. The same holds for `A_y` and the daily sheet. Recent pandas
  versions refuse such a merge.
- The row order of the merge follows the workout rows, as pandas 2.2 and
  later does. Older pandas versions group an inner merge by key.
- `workout.ffill()` returns a new frame that replaces the local `workout`.
  The model updates that frame in place instead; nothing else refers to the
  frame, so the two cannot be told apart.
- The column order of a data frame is not modelled: columns form a set.
