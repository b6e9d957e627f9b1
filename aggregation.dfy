/** What the summary sheet computes. `_embed_formulas_range` writes eight
    worksheet formulas into each summary row (columns B to I); this module
    models the formulas it places, as data, and what each of them evaluates
    to over the pasted CSV sheet. */
module Aggregation {
  import opened Text
  import opened ColumnLetters
  import opened ColumnLocator

  /** What a summary cell shows: nothing, a number, or a ratio shown as a
      percentage (`TEXT(num/den, "0.00%")`, kept as the exact fraction). */
  datatype Value = Blank | Number(x: real) | Percent(numerator: real, denominator: real)

  /** The CSV sheet as the formulas see it: `sheet[0]` is its header row
      (worksheet row 1), `sheet[k]` worksheet row `k + 1`. Each cell is kept as
      the text that was pasted into it. Excel turns number-like and date-like
      text into values when it is written; the model applies that conversion
      only where `SUM` adds a cell, through `numeric`. `SEARCH` is modelled on
      the pasted text. */
  type Sheet = seq<seq<string>>

  /** The cell of a row in 1-based column `col`; outside the pasted block a
      worksheet cell is empty. */
  function Cell(row: seq<string>, col: nat): (r: string)
    ensures 1 <= col <= |row| ==> r == row[col - 1]
    ensures col == 0 || col > |row| ==> r == ""
  {
    if 1 <= col <= |row| then row[col - 1] else ""
  }

  /** `ISNUMBER(SEARCH(key, cell))`: `SEARCH` finds the key anywhere in the
      cell, ignoring case. */
  predicate Matches(cell: string, key: string) {
    Contains(Lower(cell), Lower(key))
  }

  /** `FILTER(target, ISNUMBER(SEARCH(key, search)))` over whole columns: the
      target cells of the rows whose search cell contains the key, in sheet
      order. The header row is part of the column, so it is searched too. */
  function FilterRows(rows: Sheet, searchCol: nat, targetCol: nat, key: string): (r: seq<string>)
    ensures |r| <= |rows|
  {
    if rows == [] then []
    else
      var hit := if Matches(Cell(rows[0], searchCol), key) then [Cell(rows[0], targetCol)] else [];
      hit + FilterRows(rows[1..], searchCol, targetCol, key)
  }

  /** `SUM` over an array: numbers are added, text is skipped. Which texts the
      worksheet holds as numbers is `numeric`'s business. */
  function SumNumbers(cells: seq<string>, numeric: string -> Option<real>): real {
    if cells == [] then 0.0
    else
      var x := match numeric(cells[0]) case Some(v) => v case None => 0.0;
      x + SumNumbers(cells[1..], numeric)
  }

  /** One metric formula (columns B, C, E, G, H): blank when the row's key is
      blank; otherwise the `SUM` of the filtered cells, and blank when nothing
      matched (`FILTER` then fails and `IFERROR` turns that into ""). */
  function MetricCell(sheet: Sheet, key: string, searchCol: nat, targetCol: nat,
                      numeric: string -> Option<real>): Value
  {
    if key == "" then Blank
    else
      var hits := FilterRows(sheet, searchCol, targetCol, key);
      if hits == [] then Blank else Number(SumNumbers(hits, numeric))
  }

  /** The ratio cells D (CTR = C/B) and F (CVR = E/C): blank unless both
      operands are numbers and the denominator is not zero. */
  function RatioCell(numerator: Value, denominator: Value): (r: Value)
    ensures r.Percent? <==> numerator.Number? && denominator.Number? && denominator.x != 0.0
    ensures r.Percent? ==> r.numerator == numerator.x && r.denominator == denominator.x
    ensures !r.Percent? ==> r.Blank?
  {
    if numerator.Number? && denominator.Number? && denominator.x != 0.0
    then Percent(numerator.x, denominator.x)
    else Blank
  }

  /** `ROUND(x, 0)`: the nearest integer, halves rounded away from zero. */
  function RoundHalfAway(x: real): (r: int)
    ensures x >= 0.0 ==> r as real - 0.5 <= x < r as real + 0.5
    ensures x < 0.0 ==> r as real - 0.5 < x <= r as real + 0.5
  {
    if x >= 0.0 then (x + 0.5).Floor else -((-x + 0.5).Floor)
  }

  /** Column I: gross without the 10% consumption tax, `ROUND(G/1.1, 0)`,
      blank when G is blank. */
  function TaxExclusive(gross: Value): (r: Value)
    ensures r.Blank? <==> !gross.Number?
    ensures gross.Number? ==> r == Number(RoundHalfAway(gross.x / 1.1) as real)
  {
    if gross.Number? then Number(RoundHalfAway(gross.x / 1.1) as real) else Blank
  }

  lemma FloorOfQuotient(a: int, b: int)
    requires b > 0
    ensures (a as real / b as real).Floor == a / b
  {
    var q, m := a / b, a % b;
    assert a as real == q as real * b as real + m as real;
    assert a as real / b as real == q as real + m as real / b as real;
  }

  /** For a whole number of yen, `ROUND(G/1.1, 0)` is the integer division
      `(20G + 11) / 22`: G/1.1 is 10G/11, plus one half. */
  lemma {:induction false} TaxExclusiveOfWholeAmount(g: nat)
    ensures TaxExclusive(Number(g as real)) == Number(((20 * g + 11) / 22) as real)
  {
    assert g as real / 1.1 + 0.5 == (20 * g + 11) as real / 22 as real;
    FloorOfQuotient(20 * g + 11, 22);
  }

  /** No whole amount lands exactly halfway between two integers after
      dividing by 1.1, so the rounding direction of halves never matters for
      whole yen. */
  lemma NoHalfwayCase(g: int, k: int)
    ensures g as real / 1.1 != k as real + 0.5
  {
  }

  /** The summary columns B to I of one row. */
  datatype SummaryRow = SummaryRow(imp: Value, click: Value, ctr: Value, cv: Value,
                                   cvr: Value, gross: Value, net: Value, taxExclusiveGross: Value)

  const AllBlank := SummaryRow(Blank, Blank, Blank, Blank, Blank, Blank, Blank, Blank)

  /** `column_positions.get(name, default)`. */
  function Get(positions: Positions, f: Field): (r: string)
    ensures f in positions ==> r == positions[f]
    ensures f !in positions ==> r == DefaultColumn(f)
  {
    if f in positions then positions[f] else DefaultColumn(f)
  }

  /** Every position is a column name: true of whatever the locator returns
      (`ColumnLocator.LocateResolvesEveryField`). */
  predicate ValidPositions(positions: Positions) {
    forall f :: f in positions ==> IsColumnName(positions[f])
  }

  lemma GetIsColumnName(positions: Positions, f: Field)
    requires ValidPositions(positions)
    ensures IsColumnName(Get(positions, f))
  {
    if f !in positions {
      KnownColumnLetters();
    }
  }

  /** The metric of field `f` for the row keyed `key`, searching the campaign
      column. */
  function Metric(sheet: Sheet, positions: Positions, key: string, f: Field,
                  numeric: string -> Option<real>): Value
    requires ValidPositions(positions)
  {
    GetIsColumnName(positions, CampaignName);
    GetIsColumnName(positions, f);
    MetricCell(sheet, key, LetterValue(Get(positions, CampaignName)), LetterValue(Get(positions, f)), numeric)
  }

  /** What one summary row shows, given the key typed into its column A. */
  function EvaluateRow(sheet: Sheet, positions: Positions, key: string,
                       numeric: string -> Option<real>): SummaryRow
    requires ValidPositions(positions)
  {
    var imp := Metric(sheet, positions, key, Imp, numeric);
    var click := Metric(sheet, positions, key, Click, numeric);
    var cv := Metric(sheet, positions, key, CV, numeric);
    var gross := Metric(sheet, positions, key, Gross, numeric);
    SummaryRow(imp, click, RatioCell(click, imp), cv, RatioCell(cv, click),
               gross, Metric(sheet, positions, key, Net, numeric), TaxExclusive(gross))
  }

  // ---------------------------------------------------------------------
  // Properties of the metric formulas

  lemma {:induction false} FilterAppend(a: Sheet, b: Sheet, searchCol: nat, targetCol: nat, key: string)
    ensures FilterRows(a + b, searchCol, targetCol, key)
         == FilterRows(a, searchCol, targetCol, key) + FilterRows(b, searchCol, targetCol, key)
  {
    if a != [] {
      assert (a + b)[1..] == a[1..] + b;
      FilterAppend(a[1..], b, searchCol, targetCol, key);
    } else {
      assert a + b == b;
    }
  }

  lemma {:induction false} SumAppend(a: seq<string>, b: seq<string>, numeric: string -> Option<real>)
    ensures SumNumbers(a + b, numeric) == SumNumbers(a, numeric) + SumNumbers(b, numeric)
  {
    if a != [] {
      assert (a + b)[1..] == a[1..] + b;
      SumAppend(a[1..], b, numeric);
    } else {
      assert a + b == b;
    }
  }

  /** `FILTER` finds nothing exactly when no row's search cell contains the key. */
  lemma {:induction false} FilterEmptyIff(rows: Sheet, searchCol: nat, targetCol: nat, key: string)
    ensures FilterRows(rows, searchCol, targetCol, key) == []
        <==> forall i :: 0 <= i < |rows| ==> !Matches(Cell(rows[i], searchCol), key)
  {
    if rows != [] {
      FilterEmptyIff(rows[1..], searchCol, targetCol, key);
      assert forall i :: 1 <= i < |rows| ==> rows[i] == rows[1..][i - 1];
    }
  }

  /** Every filtered cell is the target cell of a row whose search cell
      contains the key. */
  lemma {:induction false} FilterFromMatchingRows(rows: Sheet, searchCol: nat, targetCol: nat, key: string)
    ensures forall c :: c in FilterRows(rows, searchCol, targetCol, key) ==>
              exists i :: 0 <= i < |rows| && Matches(Cell(rows[i], searchCol), key) && c == Cell(rows[i], targetCol)
  {
    if rows != [] {
      FilterFromMatchingRows(rows[1..], searchCol, targetCol, key);
      forall c | c in FilterRows(rows, searchCol, targetCol, key)
        ensures exists i :: 0 <= i < |rows| && Matches(Cell(rows[i], searchCol), key) && c == Cell(rows[i], targetCol)
      {
        if c !in FilterRows(rows[1..], searchCol, targetCol, key) {
          assert Matches(Cell(rows[0], searchCol), key) && c == Cell(rows[0], targetCol);
        } else {
          var i :| 0 <= i < |rows[1..]| && Matches(Cell(rows[1..][i], searchCol), key) && c == Cell(rows[1..][i], targetCol);
          assert rows[1..][i] == rows[i + 1];
        }
      }
    }
  }

  lemma {:induction false} SumOfTextIsZero(cells: seq<string>, numeric: string -> Option<real>)
    requires forall c :: c in cells ==> numeric(c).None?
    ensures SumNumbers(cells, numeric) == 0.0
  {
    if cells != [] {
      assert cells[0] in cells;
      SumOfTextIsZero(cells[1..], numeric);
    }
  }

  /** `FILTER` hands an empty target cell (a blank cell, or one past the end
      of a short row) to `SUM` as 0. When `numeric` takes "" as no number or
      as 0, such a cell adds nothing to the sum. */
  lemma EmptyCellAddsNothing(a: seq<string>, b: seq<string>, numeric: string -> Option<real>)
    requires numeric("").None? || numeric("") == Some(0.0)
    ensures SumNumbers(a + [""] + b, numeric) == SumNumbers(a + b, numeric)
  {
    SumAppend(a + [""], b, numeric);
    SumAppend(a, [""], numeric);
    SumAppend(a, b, numeric);
  }

  /** A metric cell is blank exactly when its key is blank or no row of the
      search column contains the key. */
  lemma MetricBlankIff(sheet: Sheet, key: string, searchCol: nat, targetCol: nat,
                       numeric: string -> Option<real>)
    ensures MetricCell(sheet, key, searchCol, targetCol, numeric) == Blank
        <==> key == "" || forall i :: 0 <= i < |sheet| ==> !Matches(Cell(sheet[i], searchCol), key)
    ensures !MetricCell(sheet, key, searchCol, targetCol, numeric).Percent?
  {
    FilterEmptyIff(sheet, searchCol, targetCol, key);
  }

  /** Matching rows whose target cells all hold text add up to 0, not to a
      blank: `SUM` of an array with no numbers is 0. */
  lemma MetricOfTextIsZero(sheet: Sheet, key: string, searchCol: nat, targetCol: nat,
                           numeric: string -> Option<real>, i: nat)
    requires key != "" && i < |sheet| && Matches(Cell(sheet[i], searchCol), key)
    requires forall j :: 0 <= j < |sheet| && Matches(Cell(sheet[j], searchCol), key) ==>
               numeric(Cell(sheet[j], targetCol)).None?
    ensures MetricCell(sheet, key, searchCol, targetCol, numeric) == Number(0.0)
  {
    FilterEmptyIff(sheet, searchCol, targetCol, key);
    FilterFromMatchingRows(sheet, searchCol, targetCol, key);
    SumOfTextIsZero(FilterRows(sheet, searchCol, targetCol, key), numeric);
  }

  /** Combining two partial summaries of the same key. */
  function Combine(a: Value, b: Value): Value
    requires !a.Percent? && !b.Percent?
  {
    if a.Blank? then b else if b.Blank? then a else Number(a.x + b.x)
  }

  /** The metric over two blocks of rows one after the other is the
      combination of the two metrics: sums add, and a block without a match
      contributes nothing. */
  lemma MetricOfAppendedRows(a: Sheet, b: Sheet, key: string, searchCol: nat, targetCol: nat,
                             numeric: string -> Option<real>)
    requires key != ""
    ensures !MetricCell(a, key, searchCol, targetCol, numeric).Percent?
    ensures !MetricCell(b, key, searchCol, targetCol, numeric).Percent?
    ensures MetricCell(a + b, key, searchCol, targetCol, numeric)
         == Combine(MetricCell(a, key, searchCol, targetCol, numeric), MetricCell(b, key, searchCol, targetCol, numeric))
  {
    FilterAppend(a, b, searchCol, targetCol, key);
    SumAppend(FilterRows(a, searchCol, targetCol, key), FilterRows(b, searchCol, targetCol, key), numeric);
  }

  /** `SEARCH` ignores case, so a key and its upper- or lower-cased form give
      the same metric. */
  lemma MetricIgnoresKeyCase(sheet: Sheet, key: string, searchCol: nat, targetCol: nat,
                             numeric: string -> Option<real>)
    ensures MetricCell(sheet, Upper(key), searchCol, targetCol, numeric) == MetricCell(sheet, key, searchCol, targetCol, numeric)
    ensures MetricCell(sheet, Lower(key), searchCol, targetCol, numeric) == MetricCell(sheet, key, searchCol, targetCol, numeric)
  {
    LowerForgetsCase(key);
    assert |Upper(key)| == |key| && |Lower(key)| == |key|;
    FilterSameFold(sheet, Upper(key), key, searchCol, targetCol);
    FilterSameFold(sheet, Lower(key), key, searchCol, targetCol);
  }

  lemma {:induction false} FilterSameFold(rows: Sheet, k1: string, k2: string, searchCol: nat, targetCol: nat)
    requires Lower(k1) == Lower(k2)
    ensures FilterRows(rows, searchCol, targetCol, k1) == FilterRows(rows, searchCol, targetCol, k2)
  {
    if rows != [] {
      FilterSameFold(rows[1..], k1, k2, searchCol, targetCol);
    }
  }

  /** The header row is searched like any other: a key found in the campaign
      column's header (say, part of the header's own text) always yields a
      number, even when no data row matches. */
  lemma HeaderRowIsSearched(sheet: Sheet, key: string, searchCol: nat, targetCol: nat,
                            numeric: string -> Option<real>)
    requires key != "" && |sheet| > 0 && Matches(Cell(sheet[0], searchCol), key)
    ensures MetricCell(sheet, key, searchCol, targetCol, numeric).Number?
  {
    FilterEmptyIff(sheet, searchCol, targetCol, key);
  }

  // ---------------------------------------------------------------------
  // Properties of a whole summary row

  /** A row whose key is blank shows nothing in any column. */
  lemma BlankKeyBlankRow(sheet: Sheet, positions: Positions, numeric: string -> Option<real>)
    requires ValidPositions(positions)
    ensures EvaluateRow(sheet, positions, "", numeric) == AllBlank
  {
  }

  /** A key no campaign name contains shows nothing in any column either. */
  lemma UnmatchedKeyBlankRow(sheet: Sheet, positions: Positions, key: string, numeric: string -> Option<real>)
    requires ValidPositions(positions)
    requires forall i :: 0 <= i < |sheet| ==> !Matches(Cell(sheet[i], LetterValue(Get(positions, CampaignName))), key)
    ensures EvaluateRow(sheet, positions, key, numeric) == AllBlank
  {
    GetIsColumnName(positions, CampaignName);
    var camp := LetterValue(Get(positions, CampaignName));
    forall f: Field ensures Metric(sheet, positions, key, f, numeric) == Blank {
      GetIsColumnName(positions, f);
      MetricBlankIff(sheet, key, camp, LetterValue(Get(positions, f)), numeric);
    }
  }

  /** CTR and CVR exist exactly when their denominators are non-zero sums,
      and are then the two sums as a fraction. */
  lemma RatesOfRow(sheet: Sheet, positions: Positions, key: string, numeric: string -> Option<real>)
    requires ValidPositions(positions)
    ensures var r := EvaluateRow(sheet, positions, key, numeric);
      (r.ctr.Percent? <==> r.imp.Number? && r.click.Number? && r.imp.x != 0.0)
      && (r.ctr.Percent? ==> r.ctr == Percent(r.click.x, r.imp.x))
      && (r.cvr.Percent? <==> r.click.Number? && r.cv.Number? && r.click.x != 0.0)
      && (r.cvr.Percent? ==> r.cvr == Percent(r.cv.x, r.click.x))
      && (r.taxExclusiveGross.Blank? <==> r.gross.Blank?)
  {
    var camp := LetterValue(Get(positions, CampaignName));
    GetIsColumnName(positions, CampaignName);
    GetIsColumnName(positions, Gross);
    MetricBlankIff(sheet, key, camp, LetterValue(Get(positions, Gross)), numeric);
  }

  /** The summary of the combined CSV is the combination of the summaries of
      its parts, column by metric column. */
  lemma MetricsOfAppendedRows(a: Sheet, b: Sheet, positions: Positions, key: string,
                              numeric: string -> Option<real>, f: Field)
    requires ValidPositions(positions) && key != ""
    ensures !Metric(a, positions, key, f, numeric).Percent? && !Metric(b, positions, key, f, numeric).Percent?
    ensures Metric(a + b, positions, key, f, numeric)
         == Combine(Metric(a, positions, key, f, numeric), Metric(b, positions, key, f, numeric))
  {
    GetIsColumnName(positions, CampaignName);
    GetIsColumnName(positions, f);
    MetricOfAppendedRows(a, b, key, LetterValue(Get(positions, CampaignName)), LetterValue(Get(positions, f)), numeric);
  }

  /** With the locator's positions every `.get` finds its key, so no
      fallback column is ever used. */
  lemma LocatedPositionsNeedNoDefault(read: Option<seq<Option<string>>>, f: Field)
    ensures ValidPositions(Locate(read))
    ensures f in Locate(read) && Get(Locate(read), f) == Locate(read)[f]
  {
    LocateResolvesEveryField(read);
    FieldListed(f);
  }

  // ---------------------------------------------------------------------
  // The formulas as placed in the summary sheet

  /** A formula, by what it refers to: a metric searches the CSV sheet's
      campaign column and sums a target column; a ratio and the tax-exclusive
      gross refer to summary cells of its own row. */
  datatype Formula =
    | MetricSum(searchCol: string, targetCol: string)
    | RatioOf(numeratorCol: char, denominatorCol: char)
    | TaxExclusiveOf(grossCol: char)

  /** A formula written into the summary cell in column `column` (one letter)
      and row `row`. */
  datatype Placed = Placed(row: nat, column: char, formula: Formula)

  const SummaryColumns := "BCDEFGHI"

  /** The eight formulas of one summary row, in the order they are written. */
  function RowFormulas(row: nat, positions: Positions): (r: seq<Placed>)
    ensures |r| == |SummaryColumns|
  {
    var camp := Get(positions, CampaignName);
    [ Placed(row, 'B', MetricSum(camp, Get(positions, Imp))),
      Placed(row, 'C', MetricSum(camp, Get(positions, Click))),
      Placed(row, 'D', RatioOf('C', 'B')),
      Placed(row, 'E', MetricSum(camp, Get(positions, CV))),
      Placed(row, 'F', RatioOf('E', 'C')),
      Placed(row, 'G', MetricSum(camp, Get(positions, Gross))),
      Placed(row, 'H', MetricSum(camp, Get(positions, Net))),
      Placed(row, 'I', TaxExclusiveOf('G')) ]
  }

  /** The formulas of a row up to the first write the sheet refuses: a failed
      write ends that row, and the next row is tried afresh. */
  function AcceptedPrefix(planned: seq<Placed>, accepts: (nat, char) -> bool): (r: seq<Placed>)
    ensures |r| <= |planned|
  {
    if planned == [] || !accepts(planned[0].row, planned[0].column) then []
    else [planned[0]] + AcceptedPrefix(planned[1..], accepts)
  }

  /** The accepted formulas are a prefix of those planned, all of them
      accepted, and the first one left out was refused. */
  lemma {:induction false} AcceptedPrefixSpec(planned: seq<Placed>, accepts: (nat, char) -> bool)
    ensures var r := AcceptedPrefix(planned, accepts);
      r == planned[..|r|]
      && (forall k :: 0 <= k < |r| ==> accepts(r[k].row, r[k].column))
      && (|r| < |planned| ==> !accepts(planned[|r|].row, planned[|r|].column))
  {
    if planned != [] && accepts(planned[0].row, planned[0].column) {
      AcceptedPrefixSpec(planned[1..], accepts);
      var r := AcceptedPrefix(planned, accepts);
      var t := AcceptedPrefix(planned[1..], accepts);
      assert r == [planned[0]] + t;
      assert planned[..|r|] == [planned[0]] + planned[1..][..|t|];
    }
  }

  /** Everything written for summary rows 2 .. `end - 1`. */
  function Embedded(positions: Positions, end: nat, accepts: (nat, char) -> bool): seq<Placed>
  {
    if end <= 2 then []
    else Embedded(positions, end - 1, accepts) + AcceptedPrefix(RowFormulas(end - 1, positions), accepts)
  }

  /** `_embed_formulas_range`: summary rows 2 to `maxCampaignRows + 1`, eight
      formulas each, counting every formula written. `accepts` says which
      cell writes the sheet takes; a refused write abandons the rest of its
      row. */
  method EmbedFormulasRange(positions: Positions, maxCampaignRows: nat, accepts: (nat, char) -> bool)
    returns (written: seq<Placed>, formulaCount: nat)
    ensures written == Embedded(positions, maxCampaignRows + 2, accepts)
    ensures formulaCount == |written|
  {
    written, formulaCount := [], 0;
    for row := 2 to maxCampaignRows + 2
      invariant written == Embedded(positions, row, accepts)
      invariant formulaCount == |written|
    {
      written, formulaCount := WriteRow(RowFormulas(row, positions), accepts, written, formulaCount);
    }
  }

  /** One summary row's eight writes, in order, each one counted; the first
      refused write ends the row. */
  method WriteRow(planned: seq<Placed>, accepts: (nat, char) -> bool, written0: seq<Placed>, count0: nat)
    returns (written: seq<Placed>, formulaCount: nat)
    requires count0 == |written0|
    ensures written == written0 + AcceptedPrefix(planned, accepts)
    ensures formulaCount == |written|
  {
    written, formulaCount := written0, count0;
    var k := 0;
    while k < |planned| && accepts(planned[k].row, planned[k].column)
      invariant k <= |planned|
      invariant AcceptedPrefix(planned, accepts) == planned[..k] + AcceptedPrefix(planned[k..], accepts)
      invariant written == written0 + planned[..k]
      invariant formulaCount == |written|
    {
      written := written + [planned[k]];
      formulaCount := formulaCount + 1;
      assert planned[k..][1..] == planned[k + 1..];
      assert planned[..k + 1] == planned[..k] + [planned[k]];
      k := k + 1;
    }
  }

  /** Where each written formula sits in writing order: eight slots per row,
      column B first. */
  function Slot(p: Placed): int {
    p.row * 8 + (p.column as int - 'B' as int)
  }

  lemma RowFormulasPlacement(row: nat, positions: Positions)
    ensures var r := RowFormulas(row, positions);
      forall k :: 0 <= k < |r| ==>
        r[k].row == row && r[k].column == SummaryColumns[k] && r[k].column as int - 'B' as int == k
  {
  }

  /** The part of a row that gets written sits in that row, in slots 0, 1, 2, ...
      of it; with no refused write all eight are written. */
  lemma AcceptedRowSlots(row: nat, positions: Positions, accepts: (nat, char) -> bool)
    ensures var last := AcceptedPrefix(RowFormulas(row, positions), accepts);
      (forall k :: 0 <= k < |last| ==>
         last[k].row == row && 'B' <= last[k].column <= 'I' && Slot(last[k]) == row * 8 + k)
      && ((forall r, c :: accepts(r, c)) ==> |last| == |SummaryColumns|)
  {
    var planned := RowFormulas(row, positions);
    RowFormulasPlacement(row, positions);
    AcceptedPrefixSpec(planned, accepts);
    var last := AcceptedPrefix(planned, accepts);
    assert forall k :: 0 <= k < |last| ==> last[k] == planned[k];
  }

  /** Placements in strictly increasing slot order. */
  predicate InOrder(w: seq<Placed>) {
    forall i, j :: 0 <= i < j < |w| ==> Slot(w[i]) < Slot(w[j])
  }

  /** Placements in summary rows `2 .. end - 1`, columns B to I. */
  predicate InBlock(w: seq<Placed>, end: nat) {
    forall i :: 0 <= i < |w| ==> 2 <= w[i].row < end && 'B' <= w[i].column <= 'I'
  }

  lemma AppendRowInOrder(prev: seq<Placed>, last: seq<Placed>, row: nat)
    requires row >= 2 && InOrder(prev) && InBlock(prev, row)
    requires forall k :: 0 <= k < |last| ==>
               last[k].row == row && 'B' <= last[k].column <= 'I' && Slot(last[k]) == row * 8 + k
    ensures InOrder(prev + last) && InBlock(prev + last, row + 1)
  {
    var w := prev + last;
    forall i, j | 0 <= i < j < |w|
      ensures Slot(w[i]) < Slot(w[j])
    {
      if j < |prev| {
        assert w[i] == prev[i] && w[j] == prev[j];
      } else if i < |prev| {
        assert w[i] == prev[i] && w[j] == last[j - |prev|];
      } else {
        assert w[i] == last[i - |prev|] && w[j] == last[j - |prev|];
      }
    }
    forall i | 0 <= i < |w|
      ensures 2 <= w[i].row < row + 1 && 'B' <= w[i].column <= 'I'
    {
      if i >= |prev| {
        assert w[i] == last[i - |prev|];
      } else {
        assert w[i] == prev[i];
      }
    }
  }

  /** What is written stays inside the summary block (rows 2 .. `end - 1`,
      columns B .. I; column A, where the keys are typed, is never written),
      every cell is written at most once and in row-then-column order, and
      with no refused write the whole block is written: eight formulas per
      row. */
  lemma {:induction false} EmbeddedInOrder(positions: Positions, end: nat, accepts: (nat, char) -> bool)
    ensures var w := Embedded(positions, end, accepts);
      InBlock(w, end) && InOrder(w)
      && ((forall r, c :: accepts(r, c)) ==> |w| == |SummaryColumns| * (if end <= 2 then 0 else end - 2))
  {
    if end > 2 {
      EmbeddedInOrder(positions, end - 1, accepts);
      AcceptedRowSlots(end - 1, positions, accepts);
      AppendRowInOrder(Embedded(positions, end - 1, accepts),
                       AcceptedPrefix(RowFormulas(end - 1, positions), accepts), end - 1);
    }
  }

  // ---------------------------------------------------------------------
  // What the placed formulas evaluate to

  predicate Evaluable(f: Formula) {
    f.MetricSum? ==> IsColumnName(f.searchCol) && IsColumnName(f.targetCol)
  }

  function Lookup(env: map<char, Value>, column: char): Value {
    if column in env then env[column] else Blank
  }

  /** The value of one formula in a summary row keyed `key`, given the values
      of the row's cells evaluated so far. */
  function EvalFormula(f: Formula, env: map<char, Value>, sheet: Sheet, key: string,
                       numeric: string -> Option<real>): Value
    requires Evaluable(f)
  {
    match f
    case MetricSum(s, t) => MetricCell(sheet, key, LetterValue(s), LetterValue(t), numeric)
    case RatioOf(n, d) => RatioCell(Lookup(env, n), Lookup(env, d))
    case TaxExclusiveOf(g) => TaxExclusive(Lookup(env, g))
  }

  /** Evaluates a row's formulas left to right, each seeing the cells before it. */
  function EvalFrom(cells: seq<Placed>, env: map<char, Value>, sheet: Sheet, key: string,
                    numeric: string -> Option<real>): map<char, Value>
    requires forall k :: 0 <= k < |cells| ==> Evaluable(cells[k].formula)
  {
    if cells == [] then env
    else EvalFrom(cells[1..], env[cells[0].column := EvalFormula(cells[0].formula, env, sheet, key, numeric)],
                  sheet, key, numeric)
  }

  /** Evaluating one placed formula after the cells before it. */
  lemma EvalFromStep(c: Placed, rest: seq<Placed>, env: map<char, Value>, sheet: Sheet, key: string,
                     numeric: string -> Option<real>, v: Value, result: map<char, Value>)
    requires Evaluable(c.formula) && forall k :: 0 <= k < |rest| ==> Evaluable(rest[k].formula)
    requires v == EvalFormula(c.formula, env, sheet, key, numeric)
    requires EvalFrom(rest, env[c.column := v], sheet, key, numeric) == result
    ensures EvalFrom([c] + rest, env, sheet, key, numeric) == result
  {
    assert ([c] + rest)[0] == c && ([c] + rest)[1..] == rest;
  }

  /** The eight formulas of a row, written with the columns they refer to,
      evaluate to the metrics of those columns, the two rates and the
      tax-exclusive gross. */
  lemma RowOfColumns(row: nat, camp: string, imp: string, click: string, cv: string, gross: string,
                     net: string, sheet: Sheet, key: string, numeric: string -> Option<real>)
    requires IsColumnName(camp) && IsColumnName(imp) && IsColumnName(click) && IsColumnName(cv)
    requires IsColumnName(gross) && IsColumnName(net)
    ensures var fs := [ Placed(row, 'B', MetricSum(camp, imp)), Placed(row, 'C', MetricSum(camp, click)),
                        Placed(row, 'D', RatioOf('C', 'B')), Placed(row, 'E', MetricSum(camp, cv)),
                        Placed(row, 'F', RatioOf('E', 'C')), Placed(row, 'G', MetricSum(camp, gross)),
                        Placed(row, 'H', MetricSum(camp, net)), Placed(row, 'I', TaxExclusiveOf('G')) ];
      (forall k :: 0 <= k < |fs| ==> Evaluable(fs[k].formula))
      && var c := LetterValue(camp);
      var b := MetricCell(sheet, key, c, LetterValue(imp), numeric);
      var cl := MetricCell(sheet, key, c, LetterValue(click), numeric);
      var e := MetricCell(sheet, key, c, LetterValue(cv), numeric);
      var g := MetricCell(sheet, key, c, LetterValue(gross), numeric);
      var h := MetricCell(sheet, key, c, LetterValue(net), numeric);
      EvalFrom(fs, map[], sheet, key, numeric)
        == map['B' := b, 'C' := cl, 'D' := RatioCell(cl, b), 'E' := e, 'F' := RatioCell(e, cl),
               'G' := g, 'H' := h, 'I' := TaxExclusive(g)]
  {
    var c := LetterValue(camp);
    var b := MetricCell(sheet, key, c, LetterValue(imp), numeric);
    var cl := MetricCell(sheet, key, c, LetterValue(click), numeric);
    var e := MetricCell(sheet, key, c, LetterValue(cv), numeric);
    var g := MetricCell(sheet, key, c, LetterValue(gross), numeric);
    var h := MetricCell(sheet, key, c, LetterValue(net), numeric);
    var p1, p2, p3, p4 := Placed(row, 'B', MetricSum(camp, imp)), Placed(row, 'C', MetricSum(camp, click)),
                          Placed(row, 'D', RatioOf('C', 'B')), Placed(row, 'E', MetricSum(camp, cv));
    var p5, p6, p7, p8 := Placed(row, 'F', RatioOf('E', 'C')), Placed(row, 'G', MetricSum(camp, gross)),
                          Placed(row, 'H', MetricSum(camp, net)), Placed(row, 'I', TaxExclusiveOf('G'));
    var e1 := map['B' := b];
    var e2 := e1['C' := cl];
    var e3 := e2['D' := RatioCell(cl, b)];
    var e4 := e3['E' := e];
    var e5 := e4['F' := RatioCell(e, cl)];
    var e6 := e5['G' := g];
    var e7 := e6['H' := h];
    var e8 := e7['I' := TaxExclusive(g)];
    EvalFromStep(p8, [], e7, sheet, key, numeric, TaxExclusive(g), e8);
    EvalFromStep(p7, [p8], e6, sheet, key, numeric, h, e8);
    EvalFromStep(p6, [p7, p8], e5, sheet, key, numeric, g, e8);
    EvalFromStep(p5, [p6, p7, p8], e4, sheet, key, numeric, RatioCell(e, cl), e8);
    EvalFromStep(p4, [p5, p6, p7, p8], e3, sheet, key, numeric, e, e8);
    EvalFromStep(p3, [p4, p5, p6, p7, p8], e2, sheet, key, numeric, RatioCell(cl, b), e8);
    EvalFromStep(p2, [p3, p4, p5, p6, p7, p8], e1, sheet, key, numeric, cl, e8);
    EvalFromStep(p1, [p2, p3, p4, p5, p6, p7, p8], map[], sheet, key, numeric, b, e8);
    assert [p1] + [p2, p3, p4, p5, p6, p7, p8] == [p1, p2, p3, p4, p5, p6, p7, p8];
    assert e8 == map['B' := b, 'C' := cl, 'D' := RatioCell(cl, b), 'E' := e, 'F' := RatioCell(e, cl),
                     'G' := g, 'H' := h, 'I' := TaxExclusive(g)];
  }

  /** The formulas placed in a row show exactly the summary the row is meant
      to show: each metric column sums its own target column, D and F divide
      the right cells, I rounds G. */
  lemma RowFormulasMeanEvaluateRow(row: nat, positions: Positions, sheet: Sheet, key: string,
                                   numeric: string -> Option<real>)
    requires ValidPositions(positions)
    ensures forall k :: 0 <= k < |RowFormulas(row, positions)| ==> Evaluable(RowFormulas(row, positions)[k].formula)
    ensures var env := EvalFrom(RowFormulas(row, positions), map[], sheet, key, numeric);
            var s := EvaluateRow(sheet, positions, key, numeric);
      env == map['B' := s.imp, 'C' := s.click, 'D' := s.ctr, 'E' := s.cv,
                 'F' := s.cvr, 'G' := s.gross, 'H' := s.net, 'I' := s.taxExclusiveGross]
  {
    forall f: Field ensures IsColumnName(Get(positions, f)) {
      GetIsColumnName(positions, f);
    }
    RowOfColumns(row, Get(positions, CampaignName), Get(positions, Imp), Get(positions, Click),
                 Get(positions, CV), Get(positions, Gross), Get(positions, Net), sheet, key, numeric);
  }
}
