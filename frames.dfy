/** The abstract data frame every stage of the pipeline works on.
    A table is a sequence of column labels plus rows; each row carries its index label
    (`key`) and one cell per column. */
module Frames {
  import opened Seqs

  datatype Option<T> = None | Some(value: T)

  /** One cell of a table: missing (NaN), a string, a list of strings as the CIF parser
      delivers multi-valued tags, or an exact number. */
  datatype Cell = Missing | Str(s: string) | List(items: seq<string>) | Num(v: real)

  /** A row: its index label and its cells, one per column. */
  datatype Row = Row(key: Cell, cells: seq<Cell>)

  datatype Table = Table(columns: seq<string>, rows: seq<Row>)

  /** The exceptions the pipeline raises, by cause. */
  datatype Error =
    | NoObjectsToConcatenate     // concatenating an empty list of frames
    | MissingColumn(name: string) // a label the table does not have (KeyError, AttributeError)
    | NotUnique(name: string)     // an index label that names several columns
    | NotAString(column: string)  // a string operation applied to a non-string cell (TypeError)
    | NotANumber(column: string)  // a cell that does not convert to a number (ValueError, TypeError)
    | Unparsable(column: string)  // a cell the formula parser rejects, a missing one included
    | EmptyColumn(column: string) // min or max of no values (ValueError)
    | ZeroSpacing                 // division by a zero bin spacing (ZeroDivisionError)

  datatype Result<T> = Ok(value: T) | Err(error: Error)

  /** Every row has exactly one cell per column. */
  predicate WellFormed(t: Table)
  {
    forall i :: 0 <= i < |t.rows| ==> |t.rows[i].cells| == |t.columns|
  }

  /** Position of the first label equal to `name`, or `|names|` when there is none. */
  function Find(names: seq<string>, name: string): (j: nat)
    ensures j <= |names|
    ensures j < |names| <==> name in names
    ensures j < |names| ==> names[j] == name
    ensures forall k :: 0 <= k < j ==> names[k] != name
  {
    if names == [] then 0
    else if names[0] == name then 0
    else 1 + Find(names[1..], name)
  }

  /** The cell of row `i` under the first column labelled `name`. */
  function CellAt(t: Table, i: nat, name: string): Cell
    requires WellFormed(t) && i < |t.rows| && name in t.columns
  {
    t.rows[i].cells[Find(t.columns, name)]
  }

  predicate Present(r: Row, j: nat)
  {
    j < |r.cells| && r.cells[j] != Missing
  }

  /** Row `r` with cell `j` replaced by `c`. */
  function SetCell(r: Row, j: nat, c: Cell): Row
    requires j < |r.cells|
  {
    Row(r.key, r.cells[j := c])
  }

  /** Row `r` restricted to the columns at positions `idx`, in that order. */
  function SelectRow(r: Row, idx: seq<nat>): (s: Row)
  {
    Row(r.key, seq(|idx|, k requires 0 <= k < |idx| => if idx[k] < |r.cells| then r.cells[idx[k]] else Missing))
  }

  /** Table `t` restricted to the columns at positions `idx`, in that order. */
  function Select(t: Table, idx: seq<nat>): (s: Table)
    requires forall k :: 0 <= k < |idx| ==> idx[k] < |t.columns|
    ensures WellFormed(s) && |s.rows| == |t.rows|
  {
    Table(seq(|idx|, k requires 0 <= k < |idx| => t.columns[idx[k]]), Map(t.rows, r => SelectRow(r, idx)))
  }

  /** The first position holding `name` is the one with no earlier occurrence. */
  lemma FindUnique(names: seq<string>, name: string, p: nat)
    requires p < |names| && names[p] == name
    requires forall q :: 0 <= q < p ==> names[q] != name
    ensures Find(names, name) == p
  {
  }
}
