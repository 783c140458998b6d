/** A data frame updated in place: its column names and an array of rows.
    Each mutating method is proved to leave the frame holding the table that
    the corresponding specification function computes from the old one. */
module DataFrames {
  import opened Tables
  import Cleaning
  import Volume

  class Frame {
    var columns: set<string>
    var rows: array<Row>

    /** Every row has exactly the frame's columns. */
    ghost predicate Valid()
      reads this, rows
    {
      forall i :: 0 <= i < rows.Length ==> rows[i].Keys == columns
    }

    /** The table the frame holds. */
    function Contents(): Table
      reads this, rows
    {
      Table(columns, rows[..])
    }

    constructor (t: Table)
      requires t.Valid()
      ensures Valid() && fresh(rows) && Contents() == t
    {
      columns := t.columns;
      rows := new Row[|t.rows|](i requires 0 <= i < |t.rows| => t.rows[i]);
    }

    /** `frame[c] = frame[c].fillna(v)` when the frame has column `c`. */
    method FillNa(c: string, v: Value)
      requires Valid()
      modifies rows
      ensures Valid() && Contents() == Cleaning.FillNa(old(Contents()), c, v)
    {
      if c !in columns {
        return;
      }
      var i := 0;
      while i < rows.Length
        invariant 0 <= i <= rows.Length
        invariant forall k :: 0 <= k < rows.Length ==> rows[k].Keys == columns
        invariant forall k :: 0 <= k < i ==> rows[k] == Cleaning.FillRow(old(rows[k]), c, v)
        invariant forall k :: i <= k < rows.Length ==> rows[k] == old(rows[k])
      {
        if rows[i][c].None? {
          rows[i] := rows[i][c := Some(v)];
        }
        i := i + 1;
      }
      assert rows[..] == Cleaning.FillNa(old(Contents()), c, v).rows;
    }

    /** `frame.ffill()`: one pass down the rows, carrying for every column
        the last present cell seen so far. */
    method ForwardFill()
      requires Valid()
      modifies rows
      ensures Valid() && Contents() == Cleaning.ForwardFill(old(Contents()))
    {
      ghost var orig := rows[..];
      var last: map<string, Cell> := map c | c in columns :: None;
      var i := 0;
      while i < rows.Length
        invariant 0 <= i <= rows.Length
        invariant last.Keys == columns
        invariant forall c :: c in columns ==> last[c] == Cleaning.Nearest(orig, i, c)
        invariant forall k :: 0 <= k < i ==> rows[k] == Cleaning.ForwardRow(orig, k)
        invariant forall k :: i <= k < rows.Length ==> rows[k] == orig[k]
        invariant forall k :: 0 <= k < rows.Length ==> orig[k].Keys == columns
      {
        var row := rows[i];
        last := map c | c in columns :: if row[c].Some? then row[c] else last[c];
        rows[i] := last;
        i := i + 1;
      }
      assert rows[..] == Cleaning.ForwardFill(old(Contents())).rows;
    }

    /** Assigns the `Volume` column, the product of `Weight_KG` and `Reps`
        row by row; the KeyError of an absent factor column is returned and
        leaves the frame as it was. */
    method AssignVolume() returns (err: Option<Failure>)
      requires Valid()
      modifies this, rows
      ensures Valid() && rows == old(rows)
      ensures Volume.AddVolume(old(Contents())) == if err.Some? then Err(err.value) else Ok(Contents())
      ensures err.Some? ==> Contents() == old(Contents())
    {
      if Volume.WEIGHT !in columns {
        return Some(MissingColumn(Volume.WEIGHT));
      }
      if Volume.REPS !in columns {
        return Some(MissingColumn(Volume.REPS));
      }
      var i := 0;
      while i < rows.Length
        invariant rows == old(rows) && columns == old(columns)
        invariant 0 <= i <= rows.Length
        invariant forall k :: 0 <= k < rows.Length ==> old(rows[k]).Keys == columns
        invariant forall k :: 0 <= k < i ==> rows[k] == Volume.VolumeRow(old(rows[k]))
        invariant forall k :: i <= k < rows.Length ==> rows[k] == old(rows[k])
      {
        var row := rows[i];
        rows[i] := row[Volume.VOLUME := Volume.Product(row[Volume.WEIGHT], row[Volume.REPS])];
        i := i + 1;
      }
      columns := columns + {Volume.VOLUME};
      assert rows[..] == Volume.AddVolume(old(Contents())).value.rows;
      return None;
    }
  }
}
