/** Tables as the analysis sees them once both spreadsheet sheets are loaded:
    a set of column names and a sequence of rows, each row mapping every
    column name to a cell that is either present or missing (NaN / NaT). */
module Tables {

  datatype Option<T> = None | Some(value: T)

  /** A present cell: a number, a text label, or an already-parsed date
      (a day number, compared only by equality). */
  datatype Value = Num(x: real) | Text(s: string) | Day(d: int)

  /** `None` is a missing cell. */
  type Cell = Option<Value>

  type Row = map<string, Cell>

  datatype Table = Table(columns: set<string>, rows: seq<Row>)
  {
    /** Every row has exactly the table's columns, as in a data frame. */
    ghost predicate Valid()
    {
      forall i :: 0 <= i < |rows| ==> rows[i].Keys == columns
    }
  }

  /** Why the analysis stops: a column it indexes is absent (a KeyError),
      or the merge of the two sheets matched nothing. */
  datatype Failure = MissingColumn(name: string) | NoMatchingData

  datatype Result<T> = Ok(value: T) | Err(failure: Failure)

  const DATE := "Date"

  /** The cell of column `c` in row `r`; missing when the row lacks the column. */
  function Get(r: Row, c: string): Cell
  {
    if c in r then r[c] else None
  }
}
