/** The cleaning, merging and `Volume` section of `analyze_performance`, run
    on the two sheets once they are loaded: zero-fill of the daily sheet,
    forward-fill and defaults on the workout sheet, the inner join on `Date`,
    the guard against an empty merge, and the `Volume` column. */
module Analytics {
  import opened Tables
  import opened Cleaning
  import opened Merge
  import opened Volume
  import opened DataFrames

  /** What the analysis computes from the loaded sheets: the merged table
      with its `Volume` column, or the reason it stops. */
  function Analysis(daily: Table, workout: Table): Result<Table>
  {
    if DATE !in daily.columns then Err(MissingColumn(DATE))
    else if DATE !in workout.columns then Err(MissingColumn(DATE))
    else
      var merged := Join(CleanWorkout(workout), CleanDaily(daily));
      if merged.rows == [] then Err(NoMatchingData) else AddVolume(merged)
  }

  /** The analysis updating the two loaded frames in place: unless a sheet
      lacks `Date`, both frames end cleaned. It returns before the merged
      frame exists when the merge is empty. */
  method AnalyzePerformance(daily: Frame, workout: Frame) returns (r: Result<Table>)
    requires daily.Valid() && workout.Valid() && daily.rows != workout.rows
    modifies daily.rows, workout.rows
    ensures r == Analysis(old(daily.Contents()), old(workout.Contents()))
    ensures daily.Valid() && workout.Valid()
    ensures DATE in old(daily.columns) && DATE in old(workout.columns) ==>
      daily.Contents() == CleanDaily(old(daily.Contents())) &&
      workout.Contents() == CleanWorkout(old(workout.Contents()))
    ensures DATE !in old(daily.columns) || DATE !in old(workout.columns) ==>
      daily.Contents() == old(daily.Contents()) && workout.Contents() == old(workout.Contents())
  {
    if DATE !in daily.columns || DATE !in workout.columns {
      return Err(MissingColumn(DATE));
    }
    daily.FillNa(CAFFEINE, Num(0.0));
    daily.FillNa(SCREEN_TIME, Num(0.0));
    workout.ForwardFill();
    workout.FillNa(PRE_WORKOUT, Text("No"));
    workout.FillNa(CROWD_LEVEL, Num(1.0));
    var m := Join(workout.Contents(), daily.Contents());
    if m.rows == [] {
      return Err(NoMatchingData);
    }
    var merged := new Frame(m);
    var err := merged.AssignVolume();
    if err.Some? {
      return Err(err.value);
    }
    return Ok(merged.Contents());
  }

  // ---------------------------------------------------------------------
  // Properties of the whole analysis

  /** The analysis stops for a missing `Date` column exactly when a sheet
      lacks one, stops for an empty merge exactly when no cleaned workout
      row shares a date with a cleaned daily row, and otherwise stops only
      when a factor of `Volume` is missing from the merged columns. */
  lemma AnalysisOutcome(daily: Table, workout: Table)
    ensures Analysis(daily, workout) == Err(MissingColumn(DATE)) <==>
      DATE !in daily.columns || DATE !in workout.columns
    ensures var w, d := CleanWorkout(workout).rows, CleanDaily(daily).rows;
      Analysis(daily, workout) == Err(NoMatchingData) <==>
        && DATE in daily.columns && DATE in workout.columns
        && forall i, j :: 0 <= i < |w| && 0 <= j < |d| ==> Key(w[i]) != Key(d[j])
    ensures var cols := MergedColumns(workout.columns, daily.columns);
      Analysis(daily, workout).Err? && Analysis(daily, workout).failure.MissingColumn? &&
      DATE in daily.columns && DATE in workout.columns ==>
        WEIGHT !in cols || REPS !in cols
  {
    var w, d := CleanWorkout(workout), CleanDaily(daily);
    JoinEmptyIff(w.rows, d.rows, w.columns, d.columns);
    assert WEIGHT != DATE && REPS != DATE by {
      assert |WEIGHT| != |DATE| && |REPS| == |DATE| && REPS[0] != DATE[0];
    }
  }

  /** A `Weight_KG` column in both sheets is renamed by the merge, so with a
      non-empty merge the `Volume` step stops with a KeyError. */
  lemma WeightInBothSheets(daily: Table, workout: Table)
    requires DATE in daily.columns && DATE in workout.columns
    requires WEIGHT in daily.columns && WEIGHT in workout.columns
    requires Join(CleanWorkout(workout), CleanDaily(daily)).rows != []
    ensures Analysis(daily, workout) == Err(MissingColumn(WEIGHT))
  {
    assert WEIGHT != DATE by { assert |WEIGHT| != |DATE|; }
    assert !Suffixed(WEIGHT) by { assert WEIGHT[|WEIGHT| - 2..] == "KG"; }
    MergedColumnsHas(workout.columns, daily.columns, WEIGHT);
  }

  /** A successful analysis is the non-empty merge of the cleaned sheets with
      its `Volume` column. */
  lemma AnalysisIsMergeWithVolume(daily: Table, workout: Table)
    requires Analysis(daily, workout).Ok?
    ensures var m := Join(CleanWorkout(workout), CleanDaily(daily));
      m.rows != [] && Analysis(daily, workout) == AddVolume(m)
  {
  }

  /** A successful analysis has one row for each pair of a cleaned workout
      row and a cleaned daily row with the same date, and at least one. */
  lemma AnalysisCount(daily: Table, workout: Table)
    requires Analysis(daily, workout).Ok?
    ensures |Analysis(daily, workout).value.rows| == PairCount(CleanWorkout(workout).rows, CleanDaily(daily).rows) > 0
  {
    var w, d := CleanWorkout(workout), CleanDaily(daily);
    AnalysisIsMergeWithVolume(daily, workout);
    JoinCount(w.rows, d.rows, w.columns, d.columns);
  }

  /** Every row of a successful analysis is the merge of a cleaned workout row
      and a cleaned daily row with the same date, with its `Volume` assigned;
      that date is the daily row's date as loaded. */
  lemma AnalysisRowAt(daily: Table, workout: Table, k: nat)
    requires daily.Valid() && workout.Valid()
    requires Analysis(daily, workout).Ok? && k < |Analysis(daily, workout).value.rows|
    ensures var u, w, d := Analysis(daily, workout).value, CleanWorkout(workout).rows, CleanDaily(daily).rows;
      exists i, j :: 0 <= i < |w| && 0 <= j < |d| && Key(w[i]) == Key(d[j]) && Key(d[j]) == Key(daily.rows[j]) &&
        u.rows[k] == VolumeRow(MergeRow(w[i], d[j], workout.columns, daily.columns))
  {
    var w, d := CleanWorkout(workout), CleanDaily(daily);
    CleanWorkoutKeepsShape(workout);
    CleanDailyKeepsShape(daily);
    var m := Join(w, d);
    AnalysisIsMergeWithVolume(daily, workout);
    var u := Analysis(daily, workout).value;
    JoinExactly(w.rows, d.rows, w.columns, d.columns, m.rows[k]);
    var i, j :| 0 <= i < |w.rows| && 0 <= j < |d.rows| && Key(w.rows[i]) == Key(d.rows[j]) &&
      m.rows[k] == MergeRow(w.rows[i], d.rows[j], w.columns, d.columns);
    assert u.rows[k] == VolumeRow(m.rows[k]);
    CleanDailyKeepsDate(daily, j);
  }

  /** Cleaning the workout sheet keeps its columns and rows count. */
  lemma CleanWorkoutKeepsShape(t: Table)
    requires t.Valid()
    ensures CleanWorkout(t).Valid() && CleanWorkout(t).columns == t.columns
    ensures |CleanWorkout(t).rows| == |t.rows|
  {
  }

  /** Cleaning the daily sheet keeps its columns and rows count. */
  lemma CleanDailyKeepsShape(t: Table)
    requires t.Valid()
    ensures CleanDaily(t).Valid() && CleanDaily(t).columns == t.columns
    ensures |CleanDaily(t).rows| == |t.rows|
  {
  }
}
