/** `DataProcessor._combine_data`: aligning the adult and the general frame on
    one column order and stacking them, adult rows first. */
module SchemaReconciler {
  import opened Frames

  /** The entries of `cols` that are not in `present`, in the order of `cols`. */
  function MissingFrom(cols: seq<string>, present: seq<string>): (r: seq<string>)
    ensures forall c :: c in r <==> c in cols && c !in present
  {
    if cols == [] then []
    else
      var last := cols[|cols| - 1];
      assert cols == cols[..|cols| - 1] + [last];
      MissingFrom(cols[..|cols| - 1], present) + (if last in present then [] else [last])
  }

  /** The unified column order: the adult columns, then the general-only ones in general order. */
  function UnifiedColumns(adultColumns: seq<string>, generalColumns: seq<string>): seq<string> {
    adultColumns + MissingFrom(generalColumns, adultColumns)
  }

  /** A row seen through the column list `cols`: its own cell where it has one, "" elsewhere. */
  function Pad(row: Row, cols: seq<string>): (r: Row)
    ensures r.indexLabel == row.indexLabel && r.cells.Keys == ColumnSet(cols)
  {
    Row(row.indexLabel, map c | c in cols :: if c in row.cells then row.cells[c] else "")
  }

  function PadRows(rows: seq<Row>, cols: seq<string>): (r: seq<Row>)
    ensures |r| == |rows| && forall i :: 0 <= i < |rows| ==> r[i] == Pad(rows[i], cols)
  {
    seq(|rows|, i requires 0 <= i < |rows| => Pad(rows[i], cols))
  }

  /** What `_combine_data` returns: identical column lists pass through;
      otherwise both frames are padded out to the unified column order. Rows
      are renumbered from 0, adult rows first. */
  function Combined(adult: Frame, general: Frame): Frame {
    if adult.columns == general.columns then
      Frame(adult.columns, ResetIndex(adult.rows + general.rows))
    else
      var base := UnifiedColumns(adult.columns, general.columns);
      Frame(base, ResetIndex(PadRows(adult.rows, base) + PadRows(general.rows, base)))
  }

  // ---- The in-place steps of `_combine_data` ----

  /** `frame[column] = ""` for a column the frame does not have: appended last, every cell "". */
  function AddColumn(f: Frame, column: string): (r: Frame)
    requires column !in f.columns
  {
    Frame(f.columns + [column],
          seq(|f.rows|, i requires 0 <= i < |f.rows| => Row(f.rows[i].indexLabel, f.rows[i].cells[column := ""])))
  }

  /** The columns `cs` added one after the other. */
  function AddColumns(f: Frame, cs: seq<string>): (r: Frame)
    requires Distinct(f.columns + cs)
    ensures r.columns == f.columns + cs && |r.rows| == |f.rows|
  {
    if cs == [] then
      assert f.columns + cs == f.columns;
      f
    else
      var init, last := cs[..|cs| - 1], cs[|cs| - 1];
      assert f.columns + cs == (f.columns + init) + [last];
      DistinctSplit(f.columns + init, last);
      AddColumn(AddColumns(f, init), last)
  }

  /** Adding one absent column to a padded row pads it to one more column. */
  lemma PadExtend(row: Row, cols: seq<string>, c: string)
    requires c !in row.cells
    ensures Row(row.indexLabel, Pad(row, cols).cells[c := ""]) == Pad(row, cols + [c])
  {
    var m1 := Pad(row, cols).cells[c := ""];
    var m2 := Pad(row, cols + [c]).cells;
    assert m1.Keys == m2.Keys;
    forall k | k in m1 ensures m1[k] == m2[k] {
    }
  }

  /** Adding columns keeps the frame well formed and pads every row with "". */
  lemma {:induction false} AddColumnsPads(f: Frame, cs: seq<string>)
    requires WellFormed(f) && Distinct(f.columns + cs)
    ensures var r := AddColumns(f, cs);
      WellFormed(r) && forall i :: 0 <= i < |r.rows| ==> r.rows[i] == Pad(f.rows[i], r.columns)
  {
    var r := AddColumns(f, cs);
    if cs == [] {
      forall i | 0 <= i < |f.rows| ensures f.rows[i] == Pad(f.rows[i], f.columns) {
        assert f.rows[i] in f.rows;
      }
    } else {
      var init, last := cs[..|cs| - 1], cs[|cs| - 1];
      assert f.columns + cs == (f.columns + init) + [last];
      DistinctSplit(f.columns + init, last);
      AddColumnsPads(f, init);
      var g := AddColumns(f, init);
      forall i | 0 <= i < |r.rows| ensures r.rows[i] == Pad(f.rows[i], r.columns) {
        assert f.rows[i] in f.rows;
        assert last !in f.rows[i].cells;
        PadExtend(f.rows[i], g.columns, last);
      }
      forall row | row in r.rows ensures row.cells.Keys == ColumnSet(r.columns) {
        var i :| 0 <= i < |r.rows| && r.rows[i] == row;
      }
    }
  }

  /** `frame[cols]` for a reordering `cols` of the frame's own columns. */
  function Select(f: Frame, cols: seq<string>): (r: Frame)
    requires WellFormed(f) && Distinct(cols) && ColumnSet(cols) == ColumnSet(f.columns)
    ensures WellFormed(r) && r.columns == cols && r.rows == f.rows
  {
    Frame(cols, f.rows)
  }

  /** `pd.concat([adult, general], ignore_index=True)` of two frames with the same columns. */
  function Concat(a: Frame, g: Frame): Frame
    requires a.columns == g.columns
  {
    Frame(a.columns, ResetIndex(a.rows + g.rows))
  }

  lemma MissingFromStep(cols: seq<string>, present: seq<string>, i: nat)
    requires i < |cols|
    ensures MissingFrom(cols[..i + 1], present)
         == MissingFrom(cols[..i], present) + (if cols[i] in present then [] else [cols[i]])
  {
    assert cols[..i + 1][..i] == cols[..i];
  }

  lemma {:induction false} MissingFromDistinct(cols: seq<string>, present: seq<string>)
    requires Distinct(cols)
    ensures Distinct(MissingFrom(cols, present))
  {
    if cols != [] {
      MissingFromDistinct(cols[..|cols| - 1], present);
    }
  }

  lemma DistinctSplit(s: seq<string>, x: string)
    requires Distinct(s + [x])
    ensures Distinct(s) && x !in s
  {
    forall i | 0 <= i < |s| ensures s[i] != x {
      assert (s + [x])[i] == s[i] && (s + [x])[|s|] == x;
    }
    forall i, j | 0 <= i < j < |s| ensures s[i] != s[j] {
      assert (s + [x])[i] == s[i] && (s + [x])[j] == s[j];
    }
  }

  lemma DistinctAppend(a: seq<string>, b: seq<string>)
    requires Distinct(a) && Distinct(b) && forall c :: c in b ==> c !in a
    ensures Distinct(a + b)
  {
    forall i, j | 0 <= i < j < |a + b| ensures (a + b)[i] != (a + b)[j] {
      if j >= |a| && i < |a| {
        assert (a + b)[j] in b;
      }
    }
  }

  /** Padding a well-formed row to its own columns changes nothing. */
  lemma PadOwnColumns(row: Row, cols: seq<string>)
    requires row.cells.Keys == ColumnSet(cols)
    ensures Pad(row, cols) == row
  {
  }

  /** One padding loop of `_combine_data`: for each column of `cols` in
      order that the frame lacks, `frame[col] = ""`. `added` lists the columns
      added, in order, as the second loop appends them to `base_columns`. */
  method AddMissingColumns(f: Frame, cols: seq<string>) returns (r: Frame, added: seq<string>)
    requires WellFormed(f) && Distinct(cols)
    ensures added == MissingFrom(cols, f.columns)
    ensures Distinct(f.columns + added) && r == AddColumns(f, added)
  {
    r, added := f, [];
    assert cols[..0] == [] && f.columns + [] == f.columns;
    for i := 0 to |cols|
      invariant added == MissingFrom(cols[..i], f.columns)
      invariant Distinct(f.columns + added)
      invariant r == AddColumns(f, added)
    {
      var col := cols[i];
      MissingFromStep(cols, f.columns, i);
      if col !in r.columns {
        AddMissingStep(f, cols, i, added);
        r := AddColumn(r, col);
        added := added + [col];
      }
    }
    assert cols[..|cols|] == cols;
  }

  /** One step of the padding loop: the next column of `cols`, missing from
      the frame, extends the added list and the frame by one column. */
  lemma AddMissingStep(f: Frame, cols: seq<string>, i: nat, added: seq<string>)
    requires i < |cols| && Distinct(cols) && Distinct(f.columns) && cols[i] !in f.columns
    requires added == MissingFrom(cols[..i], f.columns) && Distinct(f.columns + added)
    ensures Distinct(f.columns + (added + [cols[i]]))
    ensures AddColumns(f, added + [cols[i]]) == AddColumn(AddColumns(f, added), cols[i])
  {
    var col := cols[i];
    MissingFromStep(cols, f.columns, i);
    assert col !in added by {
      assert forall k :: 0 <= k < i ==> cols[k] != col;
    }
    MissingFromDistinct(cols[..i + 1], f.columns);
    DistinctAppend(f.columns, added + [col]);
    var next := added + [col];
    assert next[..|next| - 1] == added && next[|next| - 1] == col;
  }

  /** `_combine_data`: when the column lists differ, pad general with the
      adult columns it lacks, then pad adult with the general columns it lacks
      while extending the base order, reorder both to the base order; then
      concatenate, adult first. */
  method CombineData(adult: Frame, general: Frame) returns (combined: Frame)
    requires WellFormed(adult) && WellFormed(general)
    ensures combined == Combined(adult, general)
  {
    var a, g := adult, general;
    var adultColumns := adult.columns;
    var generalColumns := general.columns;
    if adultColumns != generalColumns {
      var addedToGeneral, addedToAdult;
      g, addedToGeneral := AddMissingColumns(general, adultColumns);
      a, addedToAdult := AddMissingColumns(adult, generalColumns);
      var baseColumns := adultColumns + addedToAdult;
      AddColumnsPads(general, addedToGeneral);
      AddColumnsPads(adult, addedToAdult);
      assert ColumnSet(baseColumns) == ColumnSet(g.columns);
      var padded := g;
      a := Select(a, baseColumns);
      g := Select(g, baseColumns);
      forall i | 0 <= i < |g.rows| ensures g.rows[i] == Pad(general.rows[i], baseColumns) {
        assert g.rows[i] == Pad(general.rows[i], padded.columns);
      }
      assert baseColumns == UnifiedColumns(adult.columns, general.columns);
      assert a.rows == PadRows(adult.rows, baseColumns);
      assert g.rows == PadRows(general.rows, baseColumns);
    } else {
      forall i | 0 <= i < |adult.rows| ensures adult.rows[i] == Pad(adult.rows[i], adultColumns) {
        assert adult.rows[i] in adult.rows;
      }
    }
    combined := Concat(a, g);
  }

  // ---- What the combined frame is ----

  lemma MissingFromSubset(cols: seq<string>, present: seq<string>)
    requires forall c :: c in cols ==> c in present
    ensures MissingFrom(cols, present) == []
  {
    if MissingFrom(cols, present) != [] {
      assert MissingFrom(cols, present)[0] in MissingFrom(cols, present);
    }
  }

  /** Both halves end up on one column order: the adult order, then the
      general-only columns in general order, with no column repeated. */
  lemma CombinedColumns(adult: Frame, general: Frame)
    requires WellFormed(adult) && WellFormed(general)
    ensures var c := Combined(adult, general);
      && c.columns == UnifiedColumns(adult.columns, general.columns)
      && WellFormed(c)
      && ColumnSet(c.columns) == ColumnSet(adult.columns) + ColumnSet(general.columns)
  {
    var c := Combined(adult, general);
    MissingFromDistinct(general.columns, adult.columns);
    DistinctAppend(adult.columns, MissingFrom(general.columns, adult.columns));
    if adult.columns == general.columns {
      MissingFromSubset(general.columns, adult.columns);
      assert adult.columns + [] == adult.columns;
      forall row | row in c.rows ensures row.cells.Keys == ColumnSet(c.columns) {
        var i :| 0 <= i < |c.rows| && c.rows[i] == row;
        var both := adult.rows + general.rows;
        assert row.cells == both[i].cells && both[i] in both;
      }
    } else {
      forall row | row in c.rows ensures row.cells.Keys == ColumnSet(c.columns) {
        var i :| 0 <= i < |c.rows| && c.rows[i] == row;
      }
    }
  }

  /** Adult rows come first, then general rows, renumbered from 0; every
      original cell is kept, and every cell a frame lacked a column for is "". */
  lemma CombinedRows(adult: Frame, general: Frame)
    requires WellFormed(adult) && WellFormed(general)
    ensures var c := Combined(adult, general);
      && |c.rows| == |adult.rows| + |general.rows|
      && Renumbered(c.rows)
      && (forall i :: 0 <= i < |adult.rows| ==> c.rows[i].cells == Pad(adult.rows[i], c.columns).cells)
      && (forall j :: 0 <= j < |general.rows| ==>
            c.rows[|adult.rows| + j].cells == Pad(general.rows[j], c.columns).cells)
  {
    if adult.columns == general.columns {
      ResetIndexHalves(adult.rows, general.rows);
      OwnColumnsPadNothing(adult.rows, adult.columns);
      OwnColumnsPadNothing(general.rows, adult.columns);
    } else {
      var base := UnifiedColumns(adult.columns, general.columns);
      ResetIndexHalves(PadRows(adult.rows, base), PadRows(general.rows, base));
    }
  }

  lemma OwnColumnsPadNothing(rows: seq<Row>, cols: seq<string>)
    requires forall r :: r in rows ==> r.cells.Keys == ColumnSet(cols)
    ensures forall i :: 0 <= i < |rows| ==> rows[i].cells == Pad(rows[i], cols).cells
  {
    forall i | 0 <= i < |rows| ensures rows[i].cells == Pad(rows[i], cols).cells {
      assert rows[i] in rows;
      PadOwnColumns(rows[i], cols);
    }
  }

  /** Renumbering two blocks of rows one after the other keeps each block's
      cells in place. */
  lemma ResetIndexHalves(x: seq<Row>, y: seq<Row>)
    ensures var r := ResetIndex(x + y);
      |r| == |x| + |y| && Renumbered(r)
      && (forall i :: 0 <= i < |x| ==> r[i].cells == x[i].cells)
      && (forall j :: 0 <= j < |y| ==> r[|x| + j].cells == y[j].cells)
  {
    var r := ResetIndex(x + y);
    assert forall i :: 0 <= i < |x| + |y| ==> r[i].cells == (x + y)[i].cells;
  }

  /** The cell of a combined row under any unified column: the original cell
      where the source frame has that column, "" otherwise. */
  lemma CombinedCell(adult: Frame, general: Frame, i: nat, column: string)
    requires WellFormed(adult) && WellFormed(general)
    requires i < |adult.rows| + |general.rows| && column in Combined(adult, general).columns
    ensures var c := Combined(adult, general);
      column in c.rows[i].cells &&
      c.rows[i].cells[column] ==
        if i < |adult.rows| then (if column in adult.columns then adult.rows[i].cells[column] else "")
        else (var j := i - |adult.rows|; if column in general.columns then general.rows[j].cells[column] else "")
  {
    CombinedRows(adult, general);
    if i < |adult.rows| {
      assert adult.rows[i] in adult.rows;
    } else {
      assert general.rows[i - |adult.rows|] in general.rows;
    }
  }

  /** Identical column lists pass straight through: the adult cells, then the
      general cells, none changed, under the same columns. */
  lemma IdenticalColumnsPassThrough(adult: Frame, general: Frame)
    requires adult.columns == general.columns
    ensures var c := Combined(adult, general);
      c.columns == adult.columns && Cells(c.rows) == Cells(adult.rows) + Cells(general.rows)
  {
  }

  /** The same columns in another order: general is reordered to the adult order. */
  lemma SameColumnsKeepAdultOrder(adult: Frame, general: Frame)
    requires ColumnSet(adult.columns) == ColumnSet(general.columns)
    ensures Combined(adult, general).columns == adult.columns
  {
    forall c | c in general.columns ensures c in adult.columns {
      assert c in ColumnSet(general.columns);
    }
    MissingFromSubset(general.columns, adult.columns);
    assert adult.columns + [] == adult.columns;
  }
}
