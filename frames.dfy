/** The tables the processor passes between its stages: a pandas DataFrame read
    with every cell as a string and NA handling off, so no cell is ever
    missing. */
module Frames {

  /** One data row: its index label and its cells, keyed by column name. */
  datatype Row = Row(indexLabel: int, cells: map<string, string>)

  /** Column names in order, and the rows in order. */
  datatype Frame = Frame(columns: seq<string>, rows: seq<Row>)

  predicate Distinct(s: seq<string>) {
    forall i, j :: 0 <= i < j < |s| ==> s[i] != s[j]
  }

  function ColumnSet(columns: seq<string>): set<string> {
    set c | c in columns
  }

  /** A frame as the CSV reader produces it: column names are unique (the
      reader de-duplicates repeated headers) and every row has exactly one
      cell per column. */
  predicate WellFormed(f: Frame) {
    Distinct(f.columns) && forall r :: r in f.rows ==> r.cells.Keys == ColumnSet(f.columns)
  }

  /** Index labels are 0, 1, 2, ... in row order, as after `reset_index(drop=True)`
      or a `concat` with `ignore_index=True`. */
  predicate Renumbered(rows: seq<Row>) {
    forall i :: 0 <= i < |rows| ==> rows[i].indexLabel == i
  }

  /** Index labels increase strictly down the frame, as in any frame read from
      a file and in every selection of its rows. */
  predicate IncreasingLabels(rows: seq<Row>) {
    forall i, j :: 0 <= i < j < |rows| ==> rows[i].indexLabel < rows[j].indexLabel
  }

  /** The cells of each row, without the labels. */
  function Cells(rows: seq<Row>): (r: seq<map<string, string>>)
    ensures |r| == |rows|
    ensures forall i :: 0 <= i < |rows| ==> r[i] == rows[i].cells
  {
    seq(|rows|, i requires 0 <= i < |rows| => rows[i].cells)
  }

  /** `reset_index(drop=True)`: the same rows, relabelled from 0. */
  function ResetIndex(rows: seq<Row>): (r: seq<Row>)
    ensures |r| == |rows| && Renumbered(r) && Cells(r) == Cells(rows)
  {
    seq(|rows|, i requires 0 <= i < |rows| => Row(i, rows[i].cells))
  }
}
