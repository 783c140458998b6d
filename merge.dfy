/** The inner join of the workout sheet with the daily sheet on `Date`: one
    merged row per pair of a workout row and a daily row with equal `Date` cells, in the
    order of the workout rows and, within one workout row, of the daily rows.
    A column both sheets have, other than `Date`, appears twice, suffixed
    `_x` (the workout cell) and `_y` (the daily cell). */
module Merge {
  import opened Tables

  /** The join key of a row. Missing keys are equal to each other, as pandas
      matches null join keys with each other. */
  function Key(r: Row): Cell
  {
    Get(r, DATE)
  }

  function LeftName(c: string, dcols: set<string>): string
  {
    if c in dcols then c + "_x" else c
  }

  function RightName(c: string, wcols: set<string>): string
  {
    if c in wcols then c + "_y" else c
  }

  /** The columns of the merged table. */
  function MergedColumns(wcols: set<string>, dcols: set<string>): set<string>
  {
    {DATE}
      + (set c | c in wcols && c != DATE :: LeftName(c, dcols))
      + (set c | c in dcols && c != DATE :: RightName(c, wcols))
  }

  /** The cell of merged column `k` for workout row `w` and daily row `d`. */
  function MergedCell(w: Row, d: Row, wcols: set<string>, dcols: set<string>, k: string): Cell
  {
    if k == DATE then Key(w)
    else if k in wcols && k !in dcols then Get(w, k)
    else if k in dcols && k !in wcols then Get(d, k)
    else if |k| >= 2 && k[|k| - 2..] == "_x" then Get(w, k[..|k| - 2])
    else if |k| >= 2 then Get(d, k[..|k| - 2])
    else None
  }

  function MergeRow(w: Row, d: Row, wcols: set<string>, dcols: set<string>): Row
  {
    map k | k in MergedColumns(wcols, dcols) :: MergedCell(w, d, wcols, dcols, k)
  }

  /** The merged rows contributed by workout row `w`. */
  function Matches(w: Row, ds: seq<Row>, wcols: set<string>, dcols: set<string>): seq<Row>
  {
    if ds == [] then []
    else
      var here := if Key(w) == Key(ds[0]) then [MergeRow(w, ds[0], wcols, dcols)] else [];
      here + Matches(w, ds[1..], wcols, dcols)
  }

  function JoinRows(ws: seq<Row>, ds: seq<Row>, wcols: set<string>, dcols: set<string>): seq<Row>
  {
    if ws == [] then [] else Matches(ws[0], ds, wcols, dcols) + JoinRows(ws[1..], ds, wcols, dcols)
  }

  /** The inner join of the workout table with the daily table on `Date`. */
  function Join(workout: Table, daily: Table): (m: Table)
    ensures m.columns == MergedColumns(workout.columns, daily.columns)
    ensures m.Valid()
  {
    JoinRowsShape(workout.rows, daily.rows, workout.columns, daily.columns);
    Table(MergedColumns(workout.columns, daily.columns),
          JoinRows(workout.rows, daily.rows, workout.columns, daily.columns))
  }

  // ---------------------------------------------------------------------
  // Reference definitions for counting

  /** How many rows of `ds` have key `k`. */
  function CountKey(ds: seq<Row>, k: Cell): nat
  {
    if ds == [] then 0 else (if Key(ds[0]) == k then 1 else 0) + CountKey(ds[1..], k)
  }

  /** The sum, over the rows of `ws`, of the number of rows of `ds` sharing its key. */
  function PairCount(ws: seq<Row>, ds: seq<Row>): nat
  {
    if ws == [] then 0 else CountKey(ds, Key(ws[0])) + PairCount(ws[1..], ds)
  }

  // ---------------------------------------------------------------------
  // Lemmas

  /** A merged row has the merged columns, and its `Date` is the workout row's. */
  lemma MergeRowShape(w: Row, d: Row, wcols: set<string>, dcols: set<string>)
    ensures MergeRow(w, d, wcols, dcols).Keys == MergedColumns(wcols, dcols)
    ensures MergeRow(w, d, wcols, dcols)[DATE] == Key(w)
  {
  }

  /** Every merged row has exactly the merged columns. */
  lemma {:induction false} JoinRowsShape(ws: seq<Row>, ds: seq<Row>, wcols: set<string>, dcols: set<string>)
    ensures forall k :: 0 <= k < |JoinRows(ws, ds, wcols, dcols)| ==>
      JoinRows(ws, ds, wcols, dcols)[k].Keys == MergedColumns(wcols, dcols)
  {
    var r := JoinRows(ws, ds, wcols, dcols);
    forall k | 0 <= k < |r| ensures r[k].Keys == MergedColumns(wcols, dcols) {
      JoinExactly(ws, ds, wcols, dcols, r[k]);
      var i, j :| 0 <= i < |ws| && 0 <= j < |ds| && Key(ws[i]) == Key(ds[j]) &&
        r[k] == MergeRow(ws[i], ds[j], wcols, dcols);
      MergeRowShape(ws[i], ds[j], wcols, dcols);
    }
  }

  /** Whether a name ends in one of the suffixes the merge appends. */
  predicate Suffixed(k: string)
  {
    |k| >= 2 && (k[|k| - 2..] == "_x" || k[|k| - 2..] == "_y")
  }

  /** A non-key column of one sheet only keeps its name and its cell. A
      non-key column of both sheets loses its own name (when that name is not
      itself suffixed) and is split into `_x` (the workout cell) and `_y`
      (the daily cell), as long as neither suffixed name is already a column. */
  lemma MergeRowCells(w: Row, d: Row, wcols: set<string>, dcols: set<string>, c: string)
    requires c != DATE
    ensures var m := MergeRow(w, d, wcols, dcols);
      && (c in wcols && c !in dcols ==> c in m && m[c] == Get(w, c))
      && (c in dcols && c !in wcols ==> c in m && m[c] == Get(d, c))
      && (c in wcols && c in dcols && !Suffixed(c) ==> c !in m)
      && (c in wcols && c in dcols && c + "_x" !in wcols + dcols ==> c + "_x" in m && m[c + "_x"] == Get(w, c))
      && (c in wcols && c in dcols && c + "_y" !in wcols + dcols ==> c + "_y" in m && m[c + "_y"] == Get(d, c))
  {
    var m := MergeRow(w, d, wcols, dcols);
    if c in wcols && c in dcols {
      var x, y := c + "_x", c + "_y";
      assert x[..|x| - 2] == c && x[|x| - 2..] == "_x";
      assert y[..|y| - 2] == c && y[|y| - 2..] == "_y" != "_x";
      assert x == LeftName(c, dcols);
      assert y == RightName(c, wcols);
      assert x != DATE by { assert |DATE| == 4 && DATE[3] == 'e' && x[|x| - 1] == 'x'; }
      assert y != DATE by { assert |DATE| == 4 && DATE[3] == 'e' && y[|y| - 1] == 'y'; }
      if c in m && !Suffixed(c) {
        SuffixedNames(c, wcols, dcols);
        assert false;
      }
    } else {
      if c in wcols { assert c == LeftName(c, dcols); }
      if c in dcols { assert c == RightName(c, wcols); }
    }
  }

  /** Which names the merged table has: a non-key column of one sheet only
      keeps its name; a column of both sheets, or of neither, does not appear
      under its own name unless that name is itself suffixed. */
  lemma MergedColumnsHas(wcols: set<string>, dcols: set<string>, c: string)
    requires c != DATE
    ensures (c in wcols) != (c in dcols) ==> c in MergedColumns(wcols, dcols)
    ensures (c in wcols) == (c in dcols) && !Suffixed(c) ==> c !in MergedColumns(wcols, dcols)
  {
    if c in wcols && c !in dcols {
      assert c == LeftName(c, dcols);
    } else if c in dcols && c !in wcols {
      assert c == RightName(c, wcols);
    } else if !Suffixed(c) && c in MergedColumns(wcols, dcols) {
      SuffixedNames(c, wcols, dcols);
      assert false;
    }
  }

  /** A name in the merged columns other than `Date` is the renaming of a
      workout or a daily column. */
  lemma SuffixedNames(n: string, wcols: set<string>, dcols: set<string>)
    requires n in MergedColumns(wcols, dcols) && n != DATE
    ensures (exists c :: c in wcols && c != DATE && n == LeftName(c, dcols)) ||
            (exists c :: c in dcols && c != DATE && n == RightName(c, wcols))
  {
  }

  /** Every merged row of workout row `w` is its merge with a daily row of
      the same key, and every such pair gives one. */
  lemma {:induction false} MatchesExactly(w: Row, ds: seq<Row>, wcols: set<string>, dcols: set<string>, m: Row)
    ensures m in Matches(w, ds, wcols, dcols) <==>
      exists j :: 0 <= j < |ds| && Key(ds[j]) == Key(w) && m == MergeRow(w, ds[j], wcols, dcols)
  {
    if ds != [] {
      MatchesExactly(w, ds[1..], wcols, dcols, m);
      if m in Matches(w, ds[1..], wcols, dcols) {
        var j :| 0 <= j < |ds[1..]| && Key(ds[1..][j]) == Key(w) && m == MergeRow(w, ds[1..][j], wcols, dcols);
        assert ds[j + 1] == ds[1..][j];
      }
      if exists j :: 0 <= j < |ds| && Key(ds[j]) == Key(w) && m == MergeRow(w, ds[j], wcols, dcols) {
        var j :| 0 <= j < |ds| && Key(ds[j]) == Key(w) && m == MergeRow(w, ds[j], wcols, dcols);
        if j > 0 { assert ds[1..][j - 1] == ds[j]; }
      }
    }
  }

  /** The inner join keeps exactly the date-matching pairs: a row is merged
      if and only if it is the merge of a workout row and a daily row with
      equal `Date` cells. */
  lemma {:induction false} JoinExactly(ws: seq<Row>, ds: seq<Row>, wcols: set<string>, dcols: set<string>, m: Row)
    ensures m in JoinRows(ws, ds, wcols, dcols) <==>
      exists i, j :: 0 <= i < |ws| && 0 <= j < |ds| && Key(ws[i]) == Key(ds[j]) &&
        m == MergeRow(ws[i], ds[j], wcols, dcols)
  {
    if ws != [] {
      JoinExactly(ws[1..], ds, wcols, dcols, m);
      MatchesExactly(ws[0], ds, wcols, dcols, m);
      if m in JoinRows(ws[1..], ds, wcols, dcols) {
        var i, j :| 0 <= i < |ws[1..]| && 0 <= j < |ds| && Key(ws[1..][i]) == Key(ds[j]) &&
          m == MergeRow(ws[1..][i], ds[j], wcols, dcols);
        assert ws[i + 1] == ws[1..][i];
      }
      if exists i, j :: 0 <= i < |ws| && 0 <= j < |ds| && Key(ws[i]) == Key(ds[j]) &&
          m == MergeRow(ws[i], ds[j], wcols, dcols) {
        var i, j :| 0 <= i < |ws| && 0 <= j < |ds| && Key(ws[i]) == Key(ds[j]) &&
          m == MergeRow(ws[i], ds[j], wcols, dcols);
        if i > 0 {
          assert ws[1..][i - 1] == ws[i];
        }
      }
    }
  }

  /** Every merged row's `Date` occurs in both tables. */
  lemma JoinDatesInBoth(ws: seq<Row>, ds: seq<Row>, wcols: set<string>, dcols: set<string>, k: nat)
    requires k < |JoinRows(ws, ds, wcols, dcols)|
    ensures var m := JoinRows(ws, ds, wcols, dcols)[k];
      DATE in m &&
      (exists i :: 0 <= i < |ws| && Key(ws[i]) == m[DATE]) &&
      (exists j :: 0 <= j < |ds| && Key(ds[j]) == m[DATE])
  {
    var m := JoinRows(ws, ds, wcols, dcols)[k];
    JoinExactly(ws, ds, wcols, dcols, m);
    var i, j :| 0 <= i < |ws| && 0 <= j < |ds| && Key(ws[i]) == Key(ds[j]) &&
      m == MergeRow(ws[i], ds[j], wcols, dcols);
    MergeRowShape(ws[i], ds[j], wcols, dcols);
  }

  /** Workout row `w` contributes as many merged rows as there are daily
      rows sharing its date, and none when there is no such daily row. */
  lemma {:induction false} MatchesCount(w: Row, ds: seq<Row>, wcols: set<string>, dcols: set<string>)
    ensures |Matches(w, ds, wcols, dcols)| == CountKey(ds, Key(w))
    ensures (forall j :: 0 <= j < |ds| ==> Key(ds[j]) != Key(w)) ==> Matches(w, ds, wcols, dcols) == []
  {
    if ds != [] {
      MatchesCount(w, ds[1..], wcols, dcols);
      assert forall j :: 0 <= j < |ds[1..]| ==> ds[1..][j] == ds[j + 1];
    }
  }

  /** The merged row count is the sum, over workout rows, of the number of
      daily rows sharing that row's date. */
  lemma {:induction false} JoinCount(ws: seq<Row>, ds: seq<Row>, wcols: set<string>, dcols: set<string>)
    ensures |JoinRows(ws, ds, wcols, dcols)| == PairCount(ws, ds)
  {
    if ws != [] {
      MatchesCount(ws[0], ds, wcols, dcols);
      JoinCount(ws[1..], ds, wcols, dcols);
    }
  }

  /** Joining a concatenation of workout rows concatenates the joins. */
  lemma {:induction false} JoinAppend(a: seq<Row>, b: seq<Row>, ds: seq<Row>, wcols: set<string>, dcols: set<string>)
    ensures JoinRows(a + b, ds, wcols, dcols) == JoinRows(a, ds, wcols, dcols) + JoinRows(b, ds, wcols, dcols)
  {
    if a == [] {
      assert a + b == b;
    } else {
      assert (a + b)[1..] == a[1..] + b;
      JoinAppend(a[1..], b, ds, wcols, dcols);
    }
  }

  /** A workout row whose date has no daily row contributes no merged row:
      removing it leaves the join unchanged. */
  lemma UnmatchedWorkoutRowDropped(ws: seq<Row>, ds: seq<Row>, wcols: set<string>, dcols: set<string>, i: nat)
    requires i < |ws|
    requires forall j :: 0 <= j < |ds| ==> Key(ds[j]) != Key(ws[i])
    ensures JoinRows(ws, ds, wcols, dcols) == JoinRows(ws[..i] + ws[i + 1..], ds, wcols, dcols)
  {
    var before, after := ws[..i], ws[i + 1..];
    var rest := [ws[i]] + after;
    assert ws == before + rest;
    assert rest[0] == ws[i] && rest[1..] == after;
    MatchesCount(ws[i], ds, wcols, dcols);
    assert JoinRows(rest, ds, wcols, dcols) == JoinRows(after, ds, wcols, dcols);
    JoinAppend(before, rest, ds, wcols, dcols);
    JoinAppend(before, after, ds, wcols, dcols);
  }

  /** The join is empty exactly when no workout row and daily row share a date. */
  lemma JoinEmptyIff(ws: seq<Row>, ds: seq<Row>, wcols: set<string>, dcols: set<string>)
    ensures JoinRows(ws, ds, wcols, dcols) == [] <==>
      forall i, j :: 0 <= i < |ws| && 0 <= j < |ds| ==> Key(ws[i]) != Key(ds[j])
  {
    var r := JoinRows(ws, ds, wcols, dcols);
    if r != [] {
      JoinExactly(ws, ds, wcols, dcols, r[0]);
    } else {
      forall i, j | 0 <= i < |ws| && 0 <= j < |ds| ensures Key(ws[i]) != Key(ds[j]) {
        JoinExactly(ws, ds, wcols, dcols, MergeRow(ws[i], ds[j], wcols, dcols));
      }
    }
  }
}
