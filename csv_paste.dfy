/** `_paste_csv_data`: the processed frame is written into the cleared CSV
    sheet, its header in row 1 and its data from row 2, and the column
    locator later reads that header row back. */
module CsvPaste {
  import opened Text
  import opened ColumnLetters
  import opened Frames
  import opened ColumnLocator
  import opened Aggregation

  // ---------------------------------------------------------------------
  // Cell addresses such as "A2" and "O101"

  predicate IsDigit(c: char) {
    '0' <= c <= '9'
  }

  /** A row number in decimal, without leading zeros (Python's `str` of a
      non-negative int). */
  function DecimalString(n: nat): (s: string)
    ensures |s| >= 1 && forall i :: 0 <= i < |s| ==> IsDigit(s[i])
  {
    var d := ['0' + (n % 10) as char];
    if n < 10 then d else DecimalString(n / 10) + d
  }

  function DecimalValue(s: string): nat
    requires forall i :: 0 <= i < |s| ==> IsDigit(s[i])
  {
    if s == [] then 0
    else
      assert IsDigit(s[|s| - 1]);
      10 * DecimalValue(s[..|s| - 1]) + (s[|s| - 1] as int - '0' as int)
  }

  lemma {:induction false} DecimalValueOfDecimalString(n: nat)
    ensures DecimalValue(DecimalString(n)) == n
  {
    var s := DecimalString(n);
    if n >= 10 {
      DecimalValueOfDecimalString(n / 10);
      assert s[..|s| - 1] == DecimalString(n / 10);
    }
  }

  /** `f"{column_number_to_letter(col)}{row}"`. */
  function CellAddress(col: nat, row: nat): string {
    ColumnLetter(col) + DecimalString(row)
  }

  /** The number of leading letters of an address: its column part. */
  function LetterRun(a: string): (k: nat)
    ensures k <= |a| && forall i :: 0 <= i < k ==> IsLetter(a[i])
    ensures k < |a| ==> !IsLetter(a[k])
  {
    if a == [] || !IsLetter(a[0]) then 0 else 1 + LetterRun(a[1..])
  }

  lemma {:induction false} LetterRunOfAppend(letters: string, rest: string)
    requires forall i :: 0 <= i < |letters| ==> IsLetter(letters[i])
    requires rest == [] || !IsLetter(rest[0])
    ensures LetterRun(letters + rest) == |letters|
  {
    if letters != [] {
      assert (letters + rest)[1..] == letters[1..] + rest;
      LetterRunOfAppend(letters[1..], rest);
    } else {
      assert letters + rest == rest;
    }
  }

  /** An address names the column its letters spell and the row its digits
      spell: it reads back as the column and row it was made from. */
  lemma CellAddressReadsBack(col: nat, row: nat)
    requires col >= 1
    ensures var a := CellAddress(col, row); var k := LetterRun(a);
      (forall i :: k <= i < |a| ==> IsDigit(a[i]))
      && LetterValue(a[..k]) == col && DecimalValue(a[k..]) == row
  {
    var letters, digits := ColumnLetter(col), DecimalString(row);
    var a := letters + digits;
    LetterRunOfAppend(letters, digits);
    assert a[..|letters|] == letters && a[|letters|..] == digits;
    LetterValueOfColumnLetter(col);
    DecimalValueOfDecimalString(row);
  }

  /** Different cells have different addresses. */
  lemma CellAddressInjective(c1: nat, r1: nat, c2: nat, r2: nat)
    requires c1 >= 1 && c2 >= 1 && CellAddress(c1, r1) == CellAddress(c2, r2)
    ensures c1 == c2 && r1 == r2
  {
    CellAddressReadsBack(c1, r1);
    CellAddressReadsBack(c2, r2);
  }

  /** The block the data rows are written to in one go: from A2 to the
      cell of the last column in the last data row, when there is anything
      to write. */
  function PasteRange(numRows: nat, numCols: nat): (r: Option<string>)
    ensures r.None? <==> numRows == 0 || numCols == 0
  {
    if numRows > 0 && numCols > 0 then Some("A2:" + CellAddress(numCols, numRows + 1)) else None
  }

  /** The block spans exactly the data: columns 1 to `numCols`, rows 2 to
      `numRows + 1`. */
  lemma PasteRangeSpansData(numRows: nat, numCols: nat)
    requires numRows > 0 && numCols > 0
    ensures var r := PasteRange(numRows, numCols).value;
      r[..3] == "A2:" &&
      var e := r[3..]; var k := LetterRun(e);
      LetterValue(e[..k]) == numCols && DecimalValue(e[k..]) == numRows + 1
  {
    var e := CellAddress(numCols, numRows + 1);
    assert ("A2:" + e)[3..] == e;
    CellAddressReadsBack(numCols, numRows + 1);
  }

  // ---------------------------------------------------------------------
  // The pasted sheet

  /** pandas' `empty`: no rows or no columns. */
  predicate EmptyFrame(f: Frame) {
    |f.columns| == 0 || |f.rows| == 0
  }

  /** `values.tolist()`: each row's cells in column order. */
  function DataValues(f: Frame): (d: seq<seq<string>>)
    requires WellFormed(f)
    ensures |d| == |f.rows|
    ensures forall i :: 0 <= i < |d| ==> |d[i]| == |f.columns|
  {
    seq(|f.rows|, i requires 0 <= i < |f.rows| =>
      seq(|f.columns|, j requires 0 <= j < |f.columns| => f.rows[i].cells[f.columns[j]]))
  }

  /** The rows written one at a time after the bulk write failed: a row
      whose write fails stays empty. `rowAccepted(r)` says whether sheet row
      `r` takes its write. */
  function FallbackRows(data: seq<seq<string>>, rowAccepted: nat -> bool): (rows: seq<seq<string>>)
    ensures |rows| == |data|
  {
    seq(|data|, i requires 0 <= i < |data| => if rowAccepted(i + 2) then data[i] else [])
  }

  /** The CSV sheet after the paste: cleared, then, unless the frame is
      empty, the header and the data rows (bulk, or row by row). */
  function Pasted(f: Frame, bulkAccepted: bool, rowAccepted: nat -> bool): Sheet
    requires WellFormed(f)
  {
    if EmptyFrame(f) then []
    else [f.columns] + (if bulkAccepted then DataValues(f) else FallbackRows(DataValues(f), rowAccepted))
  }

  /** `_paste_csv_data`. The sheet starts cleared; the header goes in cell by
      cell, then the data in one block, or, when the sheet refuses the block
      (`bulkAccepted` false), row by row. */
  method PasteCsvData(f: Frame, bulkAccepted: bool, rowAccepted: nat -> bool) returns (sheet: Sheet)
    requires WellFormed(f)
    ensures sheet == Pasted(f, bulkAccepted, rowAccepted)
  {
    sheet := [];
    if !EmptyFrame(f) {
      var header := PasteHeader(f.columns);
      var dataValues := DataValues(f);
      var numRows := |dataValues|;
      var numCols := if dataValues != [] then |dataValues[0]| else 0;
      if PasteRange(numRows, numCols).Some? {
        if bulkAccepted {
          sheet := [header] + dataValues;
        } else {
          sheet := PasteRowByRow(header, dataValues, rowAccepted);
        }
      } else {
        sheet := [header];
      }
    }
  }

  /** The header row, one cell at a time from column 1. */
  method PasteHeader(columns: seq<string>) returns (header: seq<string>)
    ensures header == columns
  {
    header := [];
    for col := 1 to |columns| + 1
      invariant header == columns[..col - 1]
    {
      header := header + [columns[col - 1]];
    }
  }

  /** The fallback: each data row written on its own from sheet row 2. */
  method PasteRowByRow(header: seq<string>, data: seq<seq<string>>, rowAccepted: nat -> bool)
    returns (sheet: Sheet)
    ensures sheet == [header] + FallbackRows(data, rowAccepted)
  {
    sheet := [header];
    for r := 0 to |data|
      invariant sheet == [header] + FallbackRows(data, rowAccepted)[..r]
    {
      var row := if rowAccepted(r + 2) then data[r] else [];
      assert FallbackRows(data, rowAccepted)[..r + 1] == FallbackRows(data, rowAccepted)[..r] + [row];
      sheet := sheet + [row];
    }
    assert FallbackRows(data, rowAccepted)[..|data|] == FallbackRows(data, rowAccepted);
  }

  /** A non-empty frame always has a block to write: the inner emptiness
      test of the paste never fails. */
  lemma NonEmptyFrameHasPasteRange(f: Frame)
    requires WellFormed(f) && !EmptyFrame(f)
    ensures PasteRange(|DataValues(f)|, |DataValues(f)[0]|).Some?
  {
  }

  /** With the bulk write, sheet row 1 holds the column names and the cell in
      column `j + 1` of sheet row `i + 2` holds row `i`'s value of column
      `f.columns[j]`: column order and names are kept as they are. */
  lemma PastedCells(f: Frame, rowAccepted: nat -> bool)
    requires WellFormed(f) && !EmptyFrame(f)
    ensures var s := Pasted(f, true, rowAccepted);
      |s| == |f.rows| + 1 && s[0] == f.columns
      && forall i, j :: 0 <= i < |f.rows| && 0 <= j < |f.columns| ==>
           Cell(s[i + 1], j + 1) == f.rows[i].cells[f.columns[j]]
  {
  }

  /** Row by row, every accepted row lands where the bulk write would have
      put it, and a refused row leaves an empty sheet row. */
  lemma FallbackMatchesBulk(f: Frame, rowAccepted: nat -> bool)
    requires WellFormed(f) && !EmptyFrame(f)
    ensures var s, b := Pasted(f, false, rowAccepted), Pasted(f, true, rowAccepted);
      |s| == |b| && s[0] == b[0]
      && forall i :: 1 <= i < |s| ==> s[i] == (if rowAccepted(i + 1) then b[i] else [])
  {
  }

  /** An empty frame leaves the sheet empty, and every summary row blank. */
  lemma EmptyFrameBlankSummary(f: Frame, bulkAccepted: bool, rowAccepted: nat -> bool,
                               positions: Positions, key: string, numeric: string -> Option<real>)
    requires WellFormed(f) && EmptyFrame(f) && ValidPositions(positions)
    ensures Pasted(f, bulkAccepted, rowAccepted) == []
    ensures EvaluateRow(Pasted(f, bulkAccepted, rowAccepted), positions, key, numeric) == AllBlank
  {
    UnmatchedKeyBlankRow([], positions, key, numeric);
  }

  // ---------------------------------------------------------------------
  // Reading the header back

  /** A row of cells as the locator reads it back: an empty cell reads as
      `None` (of the header row, the locator looks at the first fifty cells). */
  function ReadCells(row: seq<string>): (r: seq<Option<string>>)
    ensures |r| == |row|
    ensures forall j :: 0 <= j < |r| ==> r[j] == (if row[j] == "" then None else Some(row[j]))
  {
    seq(|row|, j requires 0 <= j < |row| => if row[j] == "" then None else Some(row[j]))
  }

  /** The header row of a sheet as read back; an empty sheet has none. */
  function HeaderRead(sheet: Sheet): seq<Option<string>> {
    if sheet == [] then [] else ReadCells(sheet[0])
  }

  /** Column `c` of the pasted header is field `f`'s name, up to surrounding
      blanks, and no later header within the first fifty is: the locator
      puts `f` in column `c + 1`. */
  lemma PastedHeaderLocated(f: Frame, bulkAccepted: bool, rowAccepted: nat -> bool, field: Field, c: nat)
    requires WellFormed(f) && !EmptyFrame(f)
    requires c < |f.columns| && c < MaxCheckCols && Strip(f.columns[c]) == TargetName(field)
    requires forall j :: c < j < |f.columns| && j < MaxCheckCols ==> Strip(f.columns[j]) != TargetName(field)
    ensures var p := Locate(Some(HeaderRead(Pasted(f, bulkAccepted, rowAccepted))));
      field in p && p[field] == ColumnLetter(c + 1)
  {
    assert HeaderRead(Pasted(f, bulkAccepted, rowAccepted)) == ReadCells(f.columns);
    HeaderLocated(f.columns, field, c);
  }

  lemma HeaderLocated(header: seq<string>, field: Field, c: nat)
    requires c < |header| && c < MaxCheckCols && Strip(header[c]) == TargetName(field)
    requires forall j :: c < j < |header| && j < MaxCheckCols ==> Strip(header[j]) != TargetName(field)
    ensures var p := Locate(Some(ReadCells(header)));
      field in p && p[field] == ColumnLetter(c + 1)
  {
    var w := Window(ReadCells(header));
    HeaderHits(header, field);
    WindowLocated(w, field, c);
    assert Locate(Some(ReadCells(header))) == Resolve(w);
  }

  /** The locator's outcome for a field whose last exact hit in the window is `c`. */
  lemma WindowLocated(w: seq<Option<string>>, field: Field, c: nat)
    requires c < |w| && ExactHit(w[c], field)
    requires forall j :: c < j < |w| ==> !ExactHit(w[j], field)
    ensures field in Resolve(w) && Resolve(w)[field] == ColumnLetter(c + 1)
  {
    LastExactIs(w, |w|, field, c);
    ghost var k := LastExact(w, |w|, field);
    assert k == c;
    ResolveExactMatch(w, field);
  }

  /** The locator's stripped window over a header row hits field `f` exactly
      at the columns whose name is `f`'s up to surrounding blanks. */
  lemma HeaderHits(header: seq<string>, field: Field)
    ensures var w := Window(ReadCells(header));
      |w| == MaxCheckCols
      && forall j :: 0 <= j < MaxCheckCols ==>
           (ExactHit(w[j], field) <==> j < |header| && Strip(header[j]) == TargetName(field))
  {
    var w := Window(ReadCells(header));
    forall j | 0 <= j < MaxCheckCols
      ensures ExactHit(w[j], field) <==> j < |header| && Strip(header[j]) == TargetName(field)
    {
      if j < |header| && header[j] == "" {
        StripEmpty();
      }
    }
  }

  lemma StripEmpty()
    ensures Strip("") == ""
  {
  }

  /** The last exact hit below `n` is `c` when `c` hits and nothing after it does. */
  lemma {:induction false} LastExactIs(headers: seq<Option<string>>, n: nat, field: Field, c: nat)
    requires c < n <= |headers| && ExactHit(headers[c], field)
    requires forall j :: c < j < n ==> !ExactHit(headers[j], field)
    ensures LastExact(headers, n, field) == c
  {
    if n - 1 > c {
      LastExactIs(headers, n - 1, field, c);
    }
  }
}
