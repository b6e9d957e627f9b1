/** `DataProcessor._clean_data`: dropping the aggregate "total" rows the
    source system injects into each CSV. */
module RowFilter {
  import opened Text
  import opened Frames

  const GroupColumn := "キャンペーングループ"
  const NameColumn := "キャンペーン名"

  /** `str.contains(pattern, case=False, regex=False)` on one cell: pandas
      upper-cases the pattern and the cell and tests plain containment. */
  predicate MatchesPattern(cell: string, pattern: string) {
    Contains(Upper(cell), Upper(pattern))
  }

  /** The row has a cell in `column` that matches one of `patterns`. */
  predicate Hits(row: Row, column: string, patterns: seq<string>) {
    column in row.cells && exists p :: p in patterns && MatchesPattern(row.cells[column], p)
  }

  /** `data[~mask]` for the masks of `patterns` on `column`: the rows not hit, in order. */
  function Without(rows: seq<Row>, column: string, patterns: seq<string>): (r: seq<Row>)
    ensures |r| <= |rows|
  {
    if rows == [] then []
    else (if Hits(rows[0], column, patterns) then [] else [rows[0]]) + Without(rows[1..], column, patterns)
  }

  /** `mask.sum()`: the number of rows whose `column` cell matches `pattern`. */
  function CountHits(rows: seq<Row>, column: string, pattern: string): nat {
    if rows == [] then 0
    else (if Hits(rows[0], column, [pattern]) then 1 else 0) + CountHits(rows[1..], column, pattern)
  }

  /** Whether cleaning drops a row of a frame with these columns: its group
      cell or its campaign-name cell, for whichever of the two columns the
      frame has, contains a pattern regardless of case. */
  predicate Excluded(columns: seq<string>, row: Row, patterns: seq<string>) {
    || (GroupColumn in columns && Hits(row, GroupColumn, patterns))
    || (NameColumn in columns && Hits(row, NameColumn, patterns))
  }

  /** The rows cleaning keeps, in their original order and with their labels. */
  function Survivors(columns: seq<string>, rows: seq<Row>, patterns: seq<string>): (r: seq<Row>)
    ensures |r| <= |rows|
  {
    if rows == [] then []
    else (if Excluded(columns, rows[0], patterns) then [] else [rows[0]])
         + Survivors(columns, rows[1..], patterns)
  }

  /** The cleaned frame: same columns, the surviving rows relabelled from 0. */
  function Cleaned(data: Frame, patterns: seq<string>): Frame {
    Frame(data.columns, ResetIndex(Survivors(data.columns, data.rows, patterns)))
  }

  lemma {:induction false} WithoutNothing(rows: seq<Row>, column: string)
    ensures Without(rows, column, []) == rows
  {
    if rows != [] {
      WithoutNothing(rows[1..], column);
    }
  }

  /** A row is hit by the longer pattern list when it is hit by either part. */
  lemma HitsAppend(row: Row, column: string, patterns: seq<string>, p: string)
    ensures Hits(row, column, patterns + [p]) <==> Hits(row, column, patterns) || Hits(row, column, [p])
  {
    if Hits(row, column, patterns + [p]) {
      var q :| q in patterns + [p] && MatchesPattern(row.cells[column], q);
      assert q in patterns || q in [p];
    }
    if Hits(row, column, patterns) {
      var q :| q in patterns && MatchesPattern(row.cells[column], q);
      assert q in patterns + [p];
    }
    if Hits(row, column, [p]) {
      assert p in patterns + [p];
    }
  }

  /** Filtering by one more pattern is filtering by the longer pattern list. */
  lemma {:induction false} WithoutStep(rows: seq<Row>, column: string, patterns: seq<string>, p: string)
    ensures Without(Without(rows, column, patterns), column, [p]) == Without(rows, column, patterns + [p])
  {
    if rows != [] {
      var x := rows[0];
      var rest := Without(rows[1..], column, patterns);
      var first := Without(rows, column, patterns);
      WithoutStep(rows[1..], column, patterns, p);
      HitsAppend(x, column, patterns, p);
      if Hits(x, column, patterns) {
        assert first == rest;
      } else {
        assert first == [x] + rest;
        assert first[0] == x && first[1..] == rest;
      }
    }
  }

  /** Each mask removes exactly the rows it counts. */
  lemma {:induction false} WithoutCount(rows: seq<Row>, column: string, p: string)
    ensures |Without(rows, column, [p])| == |rows| - CountHits(rows, column, p)
  {
    if rows != [] {
      WithoutCount(rows[1..], column, p);
    }
  }

  /** A mask that counts nothing removes nothing. */
  lemma {:induction false} WithoutZeroCount(rows: seq<Row>, column: string, p: string)
    requires CountHits(rows, column, p) == 0
    ensures Without(rows, column, [p]) == rows
  {
    if rows != [] {
      WithoutZeroCount(rows[1..], column, p);
    }
  }

  /** Filtering on a column a row does not have keeps the row. */
  lemma {:induction false} WithoutAbsentColumn(rows: seq<Row>, column: string, patterns: seq<string>)
    requires forall r :: r in rows ==> column !in r.cells
    ensures Without(rows, column, patterns) == rows
  {
    if rows != [] {
      WithoutAbsentColumn(rows[1..], column, patterns);
    }
  }

  /** The group pass followed by the name pass keeps exactly the survivors. */
  lemma {:induction false} TwoPassesAreSurvivors(columns: seq<string>, rows: seq<Row>, patterns: seq<string>)
    requires forall r :: r in rows ==> r.cells.Keys == ColumnSet(columns)
    ensures Without(Without(rows, GroupColumn, patterns), NameColumn, patterns) == Survivors(columns, rows, patterns)
  {
    if rows != [] {
      var x := rows[0];
      var rest := Without(rows[1..], GroupColumn, patterns);
      var first := Without(rows, GroupColumn, patterns);
      TwoPassesAreSurvivors(columns, rows[1..], patterns);
      assert x in rows;
      assert Excluded(columns, x, patterns) <==> Hits(x, GroupColumn, patterns) || Hits(x, NameColumn, patterns);
      if Hits(x, GroupColumn, patterns) {
        assert first == rest;
      } else {
        assert first == [x] + rest;
        assert first[0] == x && first[1..] == rest;
      }
    }
  }

  /** `_clean_data`: for the group column and then the name column, when the
      frame has it, drop the rows each pattern's mask selects, counting them.
      `dropna(how='all')` drops nothing, since every cell is a string. */
  method CleanData(data: Frame, patterns: seq<string>) returns (cleaned: Frame, excludedTotal: nat)
    requires WellFormed(data)
    ensures cleaned == Cleaned(data, patterns)
    ensures excludedTotal == |data.rows| - |cleaned.rows|
  {
    var rows := data.rows;
    excludedTotal := 0;
    if GroupColumn in data.columns {
      rows, excludedTotal := ExcludeMatches(rows, GroupColumn, patterns, excludedTotal);
    } else {
      WithoutAbsentColumn(data.rows, GroupColumn, patterns);
    }
    ghost var afterGroup := rows;
    if NameColumn in data.columns {
      rows, excludedTotal := ExcludeMatches(rows, NameColumn, patterns, excludedTotal);
    } else {
      forall r | r in afterGroup ensures NameColumn !in r.cells {
        WithoutKeepsRows(data.rows, GroupColumn, patterns, r);
      }
      WithoutAbsentColumn(afterGroup, NameColumn, patterns);
    }
    TwoPassesAreSurvivors(data.columns, data.rows, patterns);
    cleaned := Frame(data.columns, ResetIndex(rows));
  }

  /** One column's pass of `_clean_data`: for each pattern in turn, count the
      rows its mask selects and, when there are any, drop them, adding the
      count to `excluded0`. */
  method ExcludeMatches(rows0: seq<Row>, column: string, patterns: seq<string>, excluded0: nat)
    returns (rows: seq<Row>, excludedTotal: nat)
    ensures rows == Without(rows0, column, patterns)
    ensures excludedTotal == excluded0 + (|rows0| - |rows|)
  {
    rows, excludedTotal := rows0, excluded0;
    WithoutNothing(rows0, column);
    assert patterns[..0] == [];
    for k := 0 to |patterns|
      invariant rows == Without(rows0, column, patterns[..k])
      invariant |rows| <= |rows0| && excludedTotal == excluded0 + (|rows0| - |rows|)
    {
      var pattern := patterns[k];
      var excludedRows := CountHits(rows, column, pattern);
      WithoutStep(rows0, column, patterns[..k], pattern);
      assert patterns[..k] + [pattern] == patterns[..k + 1];
      if excludedRows > 0 {
        WithoutCount(rows, column, pattern);
        rows := Without(rows, column, [pattern]);
        excludedTotal := excludedTotal + excludedRows;
      } else {
        WithoutZeroCount(rows, column, pattern);
      }
    }
    assert patterns[..|patterns|] == patterns;
  }

  lemma {:induction false} WithoutKeepsRows(rows: seq<Row>, column: string, patterns: seq<string>, r: Row)
    requires r in Without(rows, column, patterns)
    ensures r in rows && !Hits(r, column, patterns)
  {
    if rows != [] {
      if r in Without(rows[1..], column, patterns) {
        WithoutKeepsRows(rows[1..], column, patterns, r);
      }
    }
  }

  /** The survivors are exactly the rows of the input that are not excluded. */
  lemma {:induction false} SurvivorsExactlyUnexcluded(columns: seq<string>, rows: seq<Row>, patterns: seq<string>)
    ensures forall r :: r in Survivors(columns, rows, patterns) <==> r in rows && !Excluded(columns, r, patterns)
  {
    if rows != [] {
      SurvivorsExactlyUnexcluded(columns, rows[1..], patterns);
      assert rows == [rows[0]] + rows[1..];
    }
  }

  /** Cleaning keeps the input's row order: the labels of the survivors still
      increase down the frame, before they are renumbered. */
  lemma {:induction false} SurvivorsKeepOrder(columns: seq<string>, rows: seq<Row>, patterns: seq<string>)
    requires IncreasingLabels(rows)
    ensures IncreasingLabels(Survivors(columns, rows, patterns))
  {
    if rows != [] {
      var rest := Survivors(columns, rows[1..], patterns);
      SurvivorsKeepOrder(columns, rows[1..], patterns);
      SurvivorsExactlyUnexcluded(columns, rows[1..], patterns);
      forall r | r in rest ensures rows[0].indexLabel < r.indexLabel {
        var j :| 0 <= j < |rows[1..]| && rows[1..][j] == r;
        assert rows[j + 1] == r;
      }
    }
  }

  /** No row of the cleaned frame has a group or campaign-name cell that
      contains any exclusion pattern, compared without case. */
  lemma CleanedHasNoExcludedRow(data: Frame, patterns: seq<string>, i: nat, p: string)
    requires WellFormed(data)
    requires i < |Cleaned(data, patterns).rows| && p in patterns
    ensures var row := Cleaned(data, patterns).rows[i];
      && (GroupColumn in data.columns ==> GroupColumn in row.cells && !MatchesPattern(row.cells[GroupColumn], p))
      && (NameColumn in data.columns ==> NameColumn in row.cells && !MatchesPattern(row.cells[NameColumn], p))
  {
    var s := Survivors(data.columns, data.rows, patterns);
    SurvivorsExactlyUnexcluded(data.columns, data.rows, patterns);
    assert s[i] in s;
    assert Cleaned(data, patterns).rows[i].cells == s[i].cells;
  }

  /** Cleaning keeps the columns and every cell of each kept row, in the
      input's order, and numbers the kept rows 0, 1, 2, ... */
  lemma CleanedShape(data: Frame, patterns: seq<string>)
    requires WellFormed(data) && IncreasingLabels(data.rows)
    ensures var c := Cleaned(data, patterns);
      && WellFormed(c) && c.columns == data.columns
      && Renumbered(c.rows)
      && Cells(c.rows) == Cells(Survivors(data.columns, data.rows, patterns))
      && IncreasingLabels(Survivors(data.columns, data.rows, patterns))
      && (forall r :: r in Survivors(data.columns, data.rows, patterns) <==>
                      r in data.rows && !Excluded(data.columns, r, patterns))
  {
    var s := Survivors(data.columns, data.rows, patterns);
    SurvivorsExactlyUnexcluded(data.columns, data.rows, patterns);
    SurvivorsKeepOrder(data.columns, data.rows, patterns);
    var c := Cleaned(data, patterns);
    forall r | r in c.rows ensures r.cells.Keys == ColumnSet(data.columns) {
      var i :| 0 <= i < |c.rows| && c.rows[i] == r;
      assert r.cells == s[i].cells && s[i] in s;
    }
  }

  /** A frame with neither identity column comes out of cleaning with the
      same cells in the same order. */
  lemma {:induction false} NoIdentityColumnsNoChange(data: Frame, patterns: seq<string>)
    requires GroupColumn !in data.columns && NameColumn !in data.columns
    ensures Cells(Cleaned(data, patterns).rows) == Cells(data.rows)
  {
    SurvivorsAllWhenNothingExcluded(data.columns, data.rows, patterns);
  }

  lemma {:induction false} SurvivorsAllWhenNothingExcluded(columns: seq<string>, rows: seq<Row>, patterns: seq<string>)
    requires forall r :: r in rows ==> !Excluded(columns, r, patterns)
    ensures Survivors(columns, rows, patterns) == rows
  {
    if rows != [] {
      assert rows[0] in rows;
      SurvivorsAllWhenNothingExcluded(columns, rows[1..], patterns);
    }
  }
}
