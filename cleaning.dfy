/** The cleaning steps of the analysis: filling missing cells of one column
    with a constant, and forward-filling every column of a table. */
module Cleaning {
  import opened Tables

  const CAFFEINE := "Caffeine_Mg"
  const SCREEN_TIME := "Screen_Time_Phone"
  const PRE_WORKOUT := "Pre_Workout"
  const CROWD_LEVEL := "Gym_Crowd_Level"

  /** Row `r` with a missing cell of column `c` replaced by `v`. */
  function FillRow(r: Row, c: string, v: Value): Row
  {
    if c in r && r[c].None? then r[c := Some(v)] else r
  }

  /** `t[c] = t[c].fillna(v)`, done only when the table has column `c`. */
  function FillNa(t: Table, c: string, v: Value): (u: Table)
    ensures u.columns == t.columns && |u.rows| == |t.rows|
    ensures t.Valid() ==> u.Valid()
  {
    if c in t.columns then
      Table(t.columns, seq(|t.rows|, i requires 0 <= i < |t.rows| => FillRow(t.rows[i], c, v)))
    else
      t
  }

  /** The nearest present cell of column `c` among the first `n` rows,
      searching from row `n - 1` backwards; missing when there is none. */
  function Nearest(rows: seq<Row>, n: nat, c: string): Cell
    requires n <= |rows|
  {
    if n == 0 then None
    else if Get(rows[n - 1], c).Some? then Get(rows[n - 1], c)
    else Nearest(rows, n - 1, c)
  }

  /** Row `i` after forward-fill: each of its cells is the nearest present
      cell of the same column at or above it. */
  function ForwardRow(rows: seq<Row>, i: nat): Row
    requires i < |rows|
  {
    map c | c in rows[i] :: Nearest(rows, i + 1, c)
  }

  /** `t.ffill()`: every column forward-filled, in row order. */
  function ForwardFill(t: Table): (u: Table)
    ensures u.columns == t.columns && |u.rows| == |t.rows|
  {
    Table(t.columns, seq(|t.rows|, i requires 0 <= i < |t.rows| => ForwardRow(t.rows, i)))
  }

  /** The daily sheet cleaned: missing caffeine and phone screen-time cells
      become 0, each only when the sheet has that column. */
  function CleanDaily(t: Table): Table
  {
    FillNa(FillNa(t, CAFFEINE, Num(0.0)), SCREEN_TIME, Num(0.0))
  }

  /** The workout sheet cleaned: every column forward-filled, then missing
      `Pre_Workout` cells become "No" and missing `Gym_Crowd_Level` cells 1,
      each only when the sheet has that column. */
  function CleanWorkout(t: Table): Table
  {
    FillNa(FillNa(ForwardFill(t), PRE_WORKOUT, Text("No")), CROWD_LEVEL, Num(1.0))
  }

  // ---------------------------------------------------------------------
  // Fill-missing

  /** On a present column, fill-missing leaves no missing cell in it, keeps
      every present cell and turns exactly the missing ones into `v`; no
      other column changes. */
  lemma FillNaFillsColumn(t: Table, c: string, v: Value)
    requires t.Valid() && c in t.columns
    ensures var u := FillNa(t, c, v);
      forall i :: 0 <= i < |t.rows| ==>
        && u.rows[i].Keys == t.rows[i].Keys
        && u.rows[i][c].Some?
        && (t.rows[i][c].Some? ==> u.rows[i][c] == t.rows[i][c])
        && (t.rows[i][c].None? ==> u.rows[i][c] == Some(v))
        && (forall d :: d in t.rows[i] && d != c ==> u.rows[i][d] == t.rows[i][d])
  {
  }

  /** Fill-missing on an absent column changes nothing and creates no column. */
  lemma FillNaAbsentColumn(t: Table, c: string, v: Value)
    requires c !in t.columns
    ensures FillNa(t, c, v) == t
    ensures c !in FillNa(t, c, v).columns
  {
  }

  /** Both zero-filled daily columns end without missing cells; present cells
      keep their value; every other column, `Date` included, is untouched. */
  lemma CleanDailySpec(t: Table)
    requires t.Valid()
    ensures var u := CleanDaily(t);
      && u.Valid() && u.columns == t.columns && |u.rows| == |t.rows|
      && (forall i, c :: 0 <= i < |t.rows| && c in t.rows[i] && c != CAFFEINE && c != SCREEN_TIME ==>
            u.rows[i][c] == t.rows[i][c])
      && (forall i :: 0 <= i < |t.rows| && CAFFEINE in t.columns ==>
            u.rows[i][CAFFEINE] == (if t.rows[i][CAFFEINE].Some? then t.rows[i][CAFFEINE] else Some(Num(0.0))))
      && (forall i :: 0 <= i < |t.rows| && SCREEN_TIME in t.columns ==>
            u.rows[i][SCREEN_TIME] == (if t.rows[i][SCREEN_TIME].Some? then t.rows[i][SCREEN_TIME] else Some(Num(0.0))))
  {
  }

  /** Without the optional columns, cleaning adds no column: the daily sheet
      stays as it is and the workout sheet is only forward-filled. */
  lemma OptionalColumnsAbsent(daily: Table, workout: Table)
    requires CAFFEINE !in daily.columns && SCREEN_TIME !in daily.columns
    requires PRE_WORKOUT !in workout.columns && CROWD_LEVEL !in workout.columns
    ensures CleanDaily(daily) == daily
    ensures CleanWorkout(workout) == ForwardFill(workout)
  {
  }

  /** Zero-fill of the daily sheet leaves its `Date` cells alone. */
  lemma CleanDailyKeepsDate(t: Table, j: nat)
    requires j < |t.rows|
    ensures |CleanDaily(t).rows| == |t.rows| && Get(CleanDaily(t).rows[j], DATE) == Get(t.rows[j], DATE)
  {
  }

  // ---------------------------------------------------------------------
  // Forward-fill

  /** `Nearest` is missing exactly when no row in range has the column
      present; otherwise it is the cell of the last such row. */
  lemma {:induction false} NearestIsLastPresent(rows: seq<Row>, n: nat, c: string)
    requires n <= |rows|
    ensures Nearest(rows, n, c).None? <==> forall j :: 0 <= j < n ==> Get(rows[j], c).None?
    ensures Nearest(rows, n, c).Some? ==>
      exists j :: 0 <= j < n && Get(rows[j], c).Some? && Nearest(rows, n, c) == Get(rows[j], c) &&
        forall k :: j < k < n ==> Get(rows[k], c).None?
  {
    if n > 0 {
      NearestIsLastPresent(rows, n - 1, c);
      if Get(rows[n - 1], c).None? && Nearest(rows, n, c).Some? {
        var j :| 0 <= j < n - 1 && Get(rows[j], c).Some? && Nearest(rows, n - 1, c) == Get(rows[j], c) &&
          forall k :: j < k < n - 1 ==> Get(rows[k], c).None?;
        assert forall k :: j < k < n ==> Get(rows[k], c).None?;
      }
    }
  }

  /** Forward-fill keeps the row count, the columns and every present cell. */
  lemma ForwardFillKeepsPresent(t: Table, i: nat, c: string)
    requires t.Valid() && i < |t.rows| && c in t.columns
    ensures var u := ForwardFill(t);
      && u.Valid() && u.columns == t.columns && |u.rows| == |t.rows|
      && (t.rows[i][c].Some? ==> u.rows[i][c] == t.rows[i][c])
  {
  }

  /** After forward-fill a cell is missing exactly when the column is missing
      in that row and in every earlier row. */
  lemma ForwardFillMissingIff(t: Table, i: nat, c: string)
    requires t.Valid() && i < |t.rows| && c in t.columns
    ensures ForwardFill(t).rows[i][c].None? <==> forall j :: 0 <= j <= i ==> t.rows[j][c].None?
  {
    ForwardFillAt(t, i, c);
    NearestIsLastPresent(t.rows, i + 1, c);
    GetOfValid(t, c);
  }

  /** A missing cell that forward-fill fills takes the cell of the nearest
      earlier row whose cell in that column is present. */
  lemma ForwardFillTakesNearest(t: Table, i: nat, c: string)
    requires t.Valid() && i < |t.rows| && c in t.columns
    requires t.rows[i][c].None? && ForwardFill(t).rows[i][c].Some?
    ensures exists j ::
      && 0 <= j < i && t.rows[j][c].Some? && ForwardFill(t).rows[i][c] == t.rows[j][c]
      && (forall k :: j < k <= i ==> t.rows[k][c].None?)
  {
    var rows := t.rows;
    ForwardFillAt(t, i, c);
    NearestIsLastPresent(rows, i + 1, c);
    var j :| 0 <= j < i + 1 && Get(rows[j], c).Some? && Nearest(rows, i + 1, c) == Get(rows[j], c) &&
      forall k :: j < k < i + 1 ==> Get(rows[k], c).None?;
    assert Get(rows[j], c) == rows[j][c];
    assert Get(rows[i], c) == rows[i][c];
    assert j < i;
    forall k | j < k <= i ensures rows[k][c].None? {
      assert Get(rows[k], c) == rows[k][c];
    }
  }

  /** Forward-fill keeps every row's columns. */
  lemma ForwardFillValid(t: Table)
    requires t.Valid()
    ensures ForwardFill(t).Valid()
  {
  }

  /** One cell of the forward-filled table (a helper unfolding `ForwardRow`). */
  lemma ForwardFillAt(t: Table, i: nat, c: string)
    requires i < |t.rows| && c in t.rows[i]
    ensures c in ForwardFill(t).rows[i] && ForwardFill(t).rows[i][c] == Nearest(t.rows, i + 1, c)
  {
  }

  lemma GetOfValid(t: Table, c: string)
    requires t.Valid() && c in t.columns
    ensures forall j :: 0 <= j < |t.rows| ==> Get(t.rows[j], c) == t.rows[j][c]
  {
  }

  /** Two row sequences that agree on column `c` have the same nearest cell
      in that column, whatever their other columns hold. */
  lemma {:induction false} NearestOneColumn(rows: seq<Row>, rows': seq<Row>, n: nat, c: string)
    requires n <= |rows| == |rows'|
    requires forall j :: 0 <= j < |rows| ==> Get(rows[j], c) == Get(rows'[j], c)
    ensures Nearest(rows, n, c) == Nearest(rows', n, c)
  {
    if n > 0 {
      NearestOneColumn(rows, rows', n - 1, c);
    }
  }

  /** Forward-fill acts on each column on its own: tables that agree on
      column `c` agree on it after forward-fill. */
  lemma ForwardFillColumnwise(t: Table, t': Table, c: string)
    requires |t.rows| == |t'.rows|
    requires forall i :: 0 <= i < |t.rows| ==> (c in t.rows[i] <==> c in t'.rows[i])
    requires forall i :: 0 <= i < |t.rows| ==> Get(t.rows[i], c) == Get(t'.rows[i], c)
    ensures forall i :: 0 <= i < |t.rows| ==> Get(ForwardFill(t).rows[i], c) == Get(ForwardFill(t').rows[i], c)
  {
    forall i | 0 <= i < |t.rows|
      ensures Get(ForwardFill(t).rows[i], c) == Get(ForwardFill(t').rows[i], c)
    {
      NearestOneColumn(t.rows, t'.rows, i + 1, c);
    }
  }

  // ---------------------------------------------------------------------
  // Forward-fill followed by a constant default

  /** After forward-fill and then fill-missing with `v`, column `c` has no
      missing cell; a cell is the default exactly when the column was missing
      in that row and in every earlier row, and otherwise it is the last
      present cell at or above it. So a cell holds `v` only if the column was
      missing all the way up, or `v` was really there. */
  lemma DefaultOnlyOnLeadingGaps(t: Table, c: string, v: Value, i: nat)
    requires t.Valid() && c in t.columns && i < |t.rows|
    ensures var u := FillNa(ForwardFill(t), c, v);
      && u.rows[i][c].Some?
      && ((forall j :: 0 <= j <= i ==> t.rows[j][c].None?) ==> u.rows[i][c] == Some(v))
      && ((exists j :: 0 <= j <= i && t.rows[j][c].Some?) ==>
            exists j :: 0 <= j <= i && t.rows[j][c].Some? && u.rows[i][c] == t.rows[j][c] &&
              forall k :: j < k <= i ==> t.rows[k][c].None?)
      && (u.rows[i][c] == Some(v) ==>
            (forall j :: 0 <= j <= i ==> t.rows[j][c].None?) ||
            (exists j :: 0 <= j <= i && t.rows[j][c] == Some(v)))
  {
    var f := ForwardFill(t);
    ForwardFillKeepsPresent(t, i, c);
    ForwardFillMissingIff(t, i, c);
    FillNaFillsColumn(f, c, v);
    if t.rows[i][c].None? && f.rows[i][c].Some? {
      ForwardFillTakesNearest(t, i, c);
    }
  }

  /** The cleaned workout sheet: `Pre_Workout` and `Gym_Crowd_Level`, when
      present, end without missing cells, and each takes its default ("No",
      1) only on rows where the column was missing there and above. */
  lemma CleanWorkoutDefaults(t: Table, i: nat)
    requires t.Valid() && i < |t.rows|
    ensures var u := CleanWorkout(t);
      && u.Valid() && u.columns == t.columns && |u.rows| == |t.rows|
      && (PRE_WORKOUT in t.columns ==>
            && u.rows[i][PRE_WORKOUT].Some?
            && (u.rows[i][PRE_WORKOUT] == Some(Text("No")) ==>
                  (forall j :: 0 <= j <= i ==> t.rows[j][PRE_WORKOUT].None?) ||
                  (exists j :: 0 <= j <= i && t.rows[j][PRE_WORKOUT] == Some(Text("No")))))
      && (CROWD_LEVEL in t.columns ==>
            && u.rows[i][CROWD_LEVEL].Some?
            && (u.rows[i][CROWD_LEVEL] == Some(Num(1.0)) ==>
                  (forall j :: 0 <= j <= i ==> t.rows[j][CROWD_LEVEL].None?) ||
                  (exists j :: 0 <= j <= i && t.rows[j][CROWD_LEVEL] == Some(Num(1.0)))))
  {
    var f := ForwardFill(t);
    var p := FillNa(f, PRE_WORKOUT, Text("No"));
    if PRE_WORKOUT in t.columns {
      DefaultOnlyOnLeadingGaps(t, PRE_WORKOUT, Text("No"), i);
      if CROWD_LEVEL in t.columns { FillNaFillsColumn(p, CROWD_LEVEL, Num(1.0)); }
    }
    if CROWD_LEVEL in t.columns {
      ForwardFillKeepsPresent(t, i, CROWD_LEVEL);
      if PRE_WORKOUT in t.columns {
        FillNaFillsColumn(f, PRE_WORKOUT, Text("No"));
        assert p.rows[i][CROWD_LEVEL] == f.rows[i][CROWD_LEVEL];
      }
      DefaultOnlyOnLeadingGaps(t, CROWD_LEVEL, Num(1.0), i);
    }
  }
}
