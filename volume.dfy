/** The `Volume` column of the merged table: for every row, the product of
    its `Weight_KG` and `Reps` cells. */
module Volume {
  import opened Tables

  const WEIGHT := "Weight_KG"
  const REPS := "Reps"
  const VOLUME := "Volume"

  predicate IsNumber(c: Cell)
  {
    c.Some? && c.value.Num?
  }

  /** The element-wise product of two cells: missing (NaN) unless both are numbers. */
  function Product(a: Cell, b: Cell): Cell
  {
    if IsNumber(a) && IsNumber(b) then Some(Num(a.value.x * b.value.x)) else None
  }

  function VolumeRow(r: Row): Row
  {
    r[VOLUME := Product(Get(r, WEIGHT), Get(r, REPS))]
  }

  /** The table with its `Volume` column assigned; a KeyError when either
      factor column is absent (`Weight_KG` is looked up first). */
  function AddVolume(t: Table): (r: Result<Table>)
    ensures r.Err? <==> WEIGHT !in t.columns || REPS !in t.columns
    ensures r.Err? ==> r.failure == MissingColumn(if WEIGHT !in t.columns then WEIGHT else REPS)
  {
    if WEIGHT !in t.columns then Err(MissingColumn(WEIGHT))
    else if REPS !in t.columns then Err(MissingColumn(REPS))
    else Ok(Table(t.columns + {VOLUME}, seq(|t.rows|, i requires 0 <= i < |t.rows| => VolumeRow(t.rows[i]))))
  }

  /** Adding `Volume` keeps the row count, the columns (plus `Volume`) and
      every other cell, and row `i`'s `Volume` is the product of its
      `Weight_KG` and `Reps` cells. */
  lemma AddVolumeSpec(t: Table, i: nat)
    requires t.Valid() && WEIGHT in t.columns && REPS in t.columns && i < |t.rows|
    ensures AddVolume(t).Ok?
    ensures var u := AddVolume(t).value;
      && u.Valid() && u.columns == t.columns + {VOLUME} && |u.rows| == |t.rows|
      && u.rows[i].Keys == t.rows[i].Keys + {VOLUME}
      && (forall c :: c in t.rows[i] && c != VOLUME ==> u.rows[i][c] == t.rows[i][c])
      && u.rows[i][VOLUME] == Product(t.rows[i][WEIGHT], t.rows[i][REPS])
  {
  }
}
