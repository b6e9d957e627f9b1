# CSV-to-summary aggregation, modelled in Dafny

The system reads two advertising-report CSV files for one day, an "adult" one
and a "general" one, and builds a daily summary workbook from them:

1. **Cleaning.** Aggregate "total" rows are dropped from each CSV. A row goes
   when its campaign-group cell or its campaign-name cell contains one of the
   configured patterns, compared without case (`RowFilter`).
2. **Combining.** The two frames are aligned on one column order and stacked,
   adult rows first (`SchemaReconciler`).
3. **Pasting.** The combined frame is written into the CSV sheet: its header
   in row 1, its data from row 2, in one block or else row by row
   (`CsvPaste`).
4. **Locating.** The header row is read back, and six fields are located in
   it: campaign name, Imp, Click, CV, gross and net. The locator tries an
   exact match, then a fuzzy substring match, then fixed default columns
   (`ColumnLocator`).
5. **Embedding formulas.** Eight worksheet formulas are written into each
   summary row, in columns B to I (`Aggregation`). Each row is keyed by a
   campaign name typed into its column A. The formulas give:
   - five metric sums (columns B, C, E, G and H), each a `FILTER`/`SEARCH`/`SUM` over the CSV sheet;
   - the two guarded rates, CTR and CVR;
   - the gross without consumption tax.

   The model states what each formula evaluates to.

Smaller pieces sit beside these:
- how the input file's text encoding is chosen (`EncodingResolver`);
- how the path of each CSV is built from the date (`CsvPath`);
- the spreadsheet's base-26 column names (`ColumnLetters`);
- the string helpers the steps share (`Text`);
- the frame datatype (`Frames`).

Modelling choices:
- A frame is a list of column names plus rows. Each row has its pandas index
  label and a map from column name to cell text. Every cell is a string,
  because the CSV is read with `dtype=str` and NA handling off.
- The steps that change state step by step are methods with loops, each
  proved equal to a specification function. Those steps are the cleaning
  passes, the padding loops, the fallback-encoding loop, the locator's loops,
  the column-name loop, the paste and the formula-writing loop. The
  properties are proved about the specification functions.
- Inputs stand in for whatever the model cannot see:
  - `probe` gives what opening the file in text mode under an encoding and
    reading 1024 characters does;
  - `detection` gives what the encoding detector answers;
  - `fileExists` gives whether a path exists;
  - `numeric` gives which cell texts the spreadsheet takes as numbers (an
    empty cell should be none or 0);
  - `bulkAccepted`, `rowAccepted` and `accepts` give which sheet writes
    succeed.

Where the code differs from what its comments or a reader might expect, the
model follows the code:
- The exact pass of the locator compares stripped headers case-sensitively,
  although the comment at data_handler.py:241 says case is ignored.
- The exact pass has no "already found" test, so the rightmost equal header
  wins (`ColumnLocator.ExactPassIsRightmost`).
- A header cell holding only whitespace strips to the empty string. The empty
  string is contained in every target name, so the fuzzy pass gives that cell
  the first unresolved field (`ColumnLocator.BlankHeaderTakesFirstUnresolved`).
- `SEARCH` ignores case (`Aggregation.MetricIgnoresKeyCase`).
- `FILTER` and `SEARCH` run over whole columns, header row included
  (`Aggregation.HeaderRowIsSearched`).
- `SUM` of matching cells that are all text gives 0, not a blank
  (`Aggregation.MetricOfTextIsZero`).
- `dropna(how='all')` removes nothing, since no cell is ever missing.
- pandas' `empty` is true for a frame with no rows or no columns. A frame
  with a header and no data rows is therefore not pasted at all, header
  included (`CsvPaste.EmptyFrameBlankSummary`). The inner
  `num_rows > 0 and num_cols > 0` test never fails for a frame that passed
  that check (`CsvPaste.NonEmptyFrameHasPasteRange`).

## Model

| member | source | states |
|---|---|---|
| Text.Strip | data_handler.py:244 | The stripped text has no whitespace at either end and is no longer than the input. It equals the input when the input has no whitespace at its ends. |
| Text.StripIsTrimmedSlice | data_handler.py:244 | Stripping leaves the slice of the input that starts after its leading whitespace. Everything cut off on either side is whitespace. |
| Text.StripAllSpace | data_handler.py:244 | A text of whitespace only strips to the empty string. |
| ColumnLetters.ColumnLetter | data_handler.py:485-492 | Column numbers `n <= 0` get the empty name; every `n >= 1` gets a non-empty name made of the letters A to Z. |
| ColumnLetters.LetterValueOfColumnLetter | data_handler.py:485-492 | Reading a column name back as a base-26 number gives the column number it was made from. |
| ColumnLetters.ColumnLetterOfLetterValue | data_handler.py:485-492 | Every string of upper-case letters is the name of the column it denotes, so the naming is onto. |
| ColumnLetters.ColumnLetterInjective | data_handler.py:485-492 | Distinct column numbers get distinct names. |
| ColumnLetters.KnownColumnLetters | data_handler.py:272-279 | 1, 3, 9, 10, 12, 14, 15, 26, 27 and 50 are named A, C, I, J, L, N, O, Z, AA and AX. |
| ColumnLetters.ColumnNumberToLetter | data_handler.py:485-492 | The loop returns exactly the column's name, for every integer. data_processor.py:345-352 is an identical copy. |
| CsvPath.FormatDate | data_processor.py:258 | Turning the date into `YYYY-MM-DD` adds exactly two characters. |
| CsvPath.FormatDateInverse | data_processor.py:258 | For every input, the dashes sit after the clamped 4th and 6th characters, and deleting them gives the input back. |
| CsvPath.FormatEightCharacterDate | data_processor.py:257-258 | An 8-character `YYYYMMDD` becomes the 10-character `YYYY-MM-DD` with its year, month and day in place. |
| CsvPath.CsvFilePath | data_processor.py:248-265 | The type is rejected exactly when it is neither "adult" nor "general". For a valid type, the path is the input directory joined with the type's template, the date formatted into it. That path is found when the file exists, and reported missing otherwise. |
| EncodingResolver.FallbackEncoding | data_processor.py:301-314 | A chosen fallback is a configured one or "utf-8". An escaping exception implies some configured encoding's probe failed other than by a decode error. |
| EncodingResolver.FallbackDecidedByFirstSettled | data_processor.py:303-314 | After any run of decode errors, the next fallback decides the outcome: chosen if it decodes, raised if it fails otherwise. "utf-8" is chosen when the list runs out. |
| EncodingResolver.TryFallbackEncodings | data_processor.py:301-314 | The loop with its early returns yields the fallback outcome. |
| EncodingResolver.DetectEncoding | data_processor.py:267-299 | shift_jis when its probe decodes. Otherwise, after a decode error, the detected encoding exactly when confidence is at least 0.7, else the fallback outcome. A non-decode failure of the first probe escapes. |
| EncodingResolver.NeverRaisesWhenProbesOnlyDecode | data_processor.py:267-314 | When no probe fails other than by a decode error, an encoding is always chosen. |
| EncodingResolver.FirstDecodingFallbackWins | data_processor.py:291-314 | When shift_jis cannot decode and detection is unsure, the first fallback that decodes is chosen. |
| Frames.ResetIndex | data_processor.py:159 | The same rows with the same cells, labelled 0, 1, 2, ... |
| RowFilter.WithoutStep | data_processor.py:138-144 | Filtering by one more pattern equals filtering once by the longer pattern list. |
| RowFilter.WithoutCount | data_processor.py:141-143 | A pattern's mask removes exactly as many rows as `mask.sum()` counts. |
| RowFilter.WithoutZeroCount | data_processor.py:141-142 | A mask that counts nothing removes nothing, so skipping the update changes nothing. |
| RowFilter.WithoutAbsentColumn | data_processor.py:137 | A pass over a column the rows do not have keeps every row. |
| RowFilter.ExcludeMatches | data_processor.py:137-156 | One column's loop over the patterns, run for the group column and then the campaign-name column. It leaves the rows no pattern hits, in order, and adds the number of dropped rows to the count. |
| RowFilter.TwoPassesAreSurvivors | data_processor.py:137-156 | The group pass followed by the name pass keeps exactly the rows that are not excluded. |
| RowFilter.CleanData | data_processor.py:126-164 | The result is the cleaned frame, and the summed per-pattern counts equal the drop in the number of rows. |
| RowFilter.SurvivorsExactlyUnexcluded | data_processor.py:137-156 | A row survives if and only if it is an input row that neither identity column excludes. |
| RowFilter.SurvivorsKeepOrder | data_processor.py:143-154 | The survivors keep the input's order: their labels still increase before renumbering. |
| RowFilter.CleanedHasNoExcludedRow | data_processor.py:137-156 | No cleaned row has a group or campaign-name cell containing any pattern, compared in upper case. |
| RowFilter.CleanedShape | data_processor.py:143-159 | The cleaned frame keeps the columns and is well formed. Its rows are the survivors' cells in order, numbered contiguously from 0. |
| RowFilter.NoIdentityColumnsNoChange | data_processor.py:137-159 | A frame with neither identity column comes out with the same cells in the same order. |
| RowFilter.SurvivorsAllWhenNothingExcluded | data_processor.py:137-156 | When no row is excluded, every row survives. |
| SchemaReconciler.MissingFrom | data_processor.py:192-195 | The columns added are exactly those of the list that the frame lacks. |
| SchemaReconciler.Pad | data_processor.py:186-196 | A padded row keeps its label and has exactly the unified columns. |
| SchemaReconciler.AddColumns | data_processor.py:188 | Assigning `""` columns appends them to the column list and keeps the number of rows. |
| SchemaReconciler.AddColumnsPads | data_processor.py:186-196 | The padding assignments keep the frame well formed. Each row gets `""` in every added column and keeps its other cells. |
| SchemaReconciler.Select | data_processor.py:199-200 | Reordering to a permutation of the frame's own columns keeps the rows and keeps the frame well formed. |
| SchemaReconciler.AddMissingColumns | data_processor.py:186-196 | Each padding loop adds, in list order, exactly the listed columns the frame lacks. The frame has those columns appended and padded. |
| SchemaReconciler.CombineData | data_processor.py:166-212 | The method returns the combined frame. |
| SchemaReconciler.CombinedColumns | data_processor.py:183-200 | The combined columns are the adult order, then the general-only columns in general order. No column repeats and no column is lost. |
| SchemaReconciler.CombinedRows | data_processor.py:207 | There are `len(adult) + len(general)` rows, numbered from 0. Adult rows come first, then general rows, each padded to the unified columns. |
| SchemaReconciler.CombinedCell | data_processor.py:183-207 | Each combined cell is the original cell where its frame had the column, and `""` otherwise. |
| SchemaReconciler.IdenticalColumnsPassThrough | data_processor.py:177-207 | Identical column lists give the adult cells then the general cells, none changed, under the same columns. |
| SchemaReconciler.SameColumnsKeepAdultOrder | data_processor.py:183-200 | With the same columns in another order, the result has the adult order. |
| ColumnLocator.DefaultColumn | data_handler.py:272-279 | Each default column letter is the name of the field's fixed column number. |
| ColumnLocator.HeaderWindow | data_handler.py:220-222 | The header read is the first 50 cells of row 1. Cells past the row's end are empty. |
| ColumnLocator.Stripped | data_handler.py:243-244 | Each non-empty header is stripped and empty ones stay empty. |
| ColumnLocator.DetectColumnPositions | data_handler.py:210-306 | The method returns the locator's mapping. When reading the sheet raises, that mapping is the defaults. |
| ColumnLocator.ExactPass | data_handler.py:242-250 | The exact loop visits every header cell in order. |
| ColumnLocator.ExactVisit | data_handler.py:243-250 | One header cell maps its first exact target, if any, to the cell's own column. |
| ColumnLocator.ExactTarget | data_handler.py:245-250 | The target loop with its `break` returns the first target whose name equals the header. |
| ColumnLocator.ExactHitUnique | data_handler.py:232-239 | The target names are distinct, so a header equals at most one of them. |
| ColumnLocator.FirstExactFromSpec | data_handler.py:245-250 | A returned target equals the header. None is returned if and only if no remaining target does. |
| ColumnLocator.ExactHitSelects | data_handler.py:245-250 | A header equal to a field's name selects that field. |
| ColumnLocator.LastExact | data_handler.py:242-250 | The index of the rightmost header equal to the field's name, or -1 when there is none. |
| ColumnLocator.ExactPassIsRightmost | data_handler.py:242-250 | The exact pass maps a field if and only if some header equals its name, and then to the rightmost such header's column. |
| ColumnLocator.FuzzyPass | data_handler.py:255-264 | The fuzzy loop visits every header cell in order. |
| ColumnLocator.FuzzyVisit | data_handler.py:256-264 | One header cell maps its first unresolved fuzzy target, if any, to the cell's own column. |
| ColumnLocator.FuzzyTarget | data_handler.py:258-264 | The target loop skips resolved fields and returns the first whose lower-cased name contains, or is contained in, the lower-cased header. |
| ColumnLocator.FirstFuzzyFromSpec | data_handler.py:258-264 | The result is unresolved and overlaps the header, and every earlier target fails one of the two tests. None is returned if and only if every target fails. |
| ColumnLocator.FuzzyStepResolvesAtMostOne | data_handler.py:258-264 | A header cell either changes nothing or maps exactly the first unresolved overlapping target to its column. |
| ColumnLocator.BlankHeaderTakesFirstUnresolved | data_handler.py:256-264 | A blank stripped header overlaps every target, so it takes the first unresolved field in table order. |
| ColumnLocator.FuzzyPassKeeps | data_handler.py:259 | The fuzzy pass never changes or removes a field already mapped. |
| ColumnLocator.FuzzyLaterCellsKeep | data_handler.py:255-264 | Later header cells never undo what earlier ones resolved. |
| ColumnLocator.FuzzyPassOrigin | data_handler.py:260-262 | A field the fuzzy pass maps sits at the column of a header it overlaps. |
| ColumnLocator.FillPass | data_handler.py:282-285 | The default loop returns the mapping with every missing field defaulted. |
| ColumnLocator.FillDefaultsSpec | data_handler.py:282-284 | Defaulting maps every listed field. It keeps what was found and gives each missing field its default. |
| ColumnLocator.FewerKeysIffMissing | data_handler.py:253 | Fewer than six keys means some field is unresolved, and the converse holds. |
| ColumnLocator.FoundFuzzyWhenMissing | data_handler.py:253 | The fuzzy pass runs exactly when the exact pass left some field unresolved. |
| ColumnLocator.ExactPassNames | data_handler.py:247-248 | Everything the exact pass maps is a column name. |
| ColumnLocator.FuzzyPassNames | data_handler.py:261-262 | The fuzzy pass maps only to column names. |
| ColumnLocator.ExactHitIsFuzzyHit | data_handler.py:246-260 | A header that matches exactly also matches fuzzily. |
| ColumnLocator.FoundExtendsExact | data_handler.py:253-264 | After both passes the exact results are kept. Any added field sits at a header it overlaps. |
| ColumnLocator.ResolveFillsDefaults | data_handler.py:281-284 | The result has exactly the six fields: what the passes found, else the default. |
| ColumnLocator.ResolveResolvesEveryField | data_handler.py:242-285 | For every header row, the result maps the six fields, and nothing else, to column names. |
| ColumnLocator.LocateResolvesEveryField | data_handler.py:282-306 | The same holds for the locator as a whole, including when reading raises and the defaults are returned. |
| ColumnLocator.ResolveKeepsFound | data_handler.py:282-284 | What the passes found is returned unchanged. |
| ColumnLocator.ResolveDefaultsMissing | data_handler.py:282-284 | A field the passes missed gets its default. |
| ColumnLocator.ResolveExactMatch | data_handler.py:242-284 | A field with an exact header ends at the rightmost such column. |
| ColumnLocator.ResolveDefault | data_handler.py:255-284 | A field that no header overlaps, even ignoring case, gets its default. |
| ColumnLocator.ResolveFuzzyOrDefault | data_handler.py:253-284 | A field without an exact header ends at an overlapping header's column or at its default. |
| ColumnLocator.ResolveAllExact | data_handler.py:253 | When every field has an exact header, the exact pass's mapping is returned. |
| ColumnLocator.LocateReadsFirstFifty | data_handler.py:220-222 | Header rows that agree on their first 50 cells are located alike. |
| ColumnLocator.LowerCaseImpCell | data_handler.py:255-264 | The header "imp" fuzzily resolves Imp, and not the campaign-name field listed before it. |
| ColumnLocator.LowerCaseImpHeader | data_handler.py:241-264 | "imp" is not an exact match for "Imp", since that pass is case-sensitive, yet Imp still lands at its column. |
| Aggregation.Get | data_handler.py:365-370 | `.get` returns the located column when there is one, else the source's fallback. |
| Aggregation.GetIsColumnName | data_handler.py:365-370 | With valid positions every `.get` is a column name. |
| Aggregation.LocatedPositionsNeedNoDefault | data_handler.py:365-370 | The located positions are valid, and every `.get` finds its key. |
| Aggregation.FilterEmptyIff | data_handler.py:388 | `FILTER` finds nothing if and only if no row's search cell contains the key. |
| Aggregation.FilterFromMatchingRows | data_handler.py:388 | Every filtered cell is the target cell of a row whose search cell contains the key. |
| Aggregation.EmptyCellAddsNothing | data_handler.py:389 | When the spreadsheet holds an empty cell as no number or as 0, that cell adds nothing to a `SUM`. |
| Aggregation.SumOfTextIsZero | data_handler.py:389 | `SUM` over cells with no numbers is 0. |
| Aggregation.MetricBlankIff | data_handler.py:383-392 | A metric is blank if and only if the key is blank or no campaign cell contains it, ignoring case. A metric is never a rate. |
| Aggregation.MetricOfTextIsZero | data_handler.py:388-389 | When some row matches and no matching target cell is numeric, the metric is 0, not blank. |
| Aggregation.MetricOfAppendedRows | data_handler.py:386-389 | The metric over two blocks of rows combines the two blocks' metrics: sums add and a block without matches adds nothing. |
| Aggregation.MetricIgnoresKeyCase | data_handler.py:388 | A key and its upper- or lower-cased form give the same metric. |
| Aggregation.HeaderRowIsSearched | data_handler.py:386-388 | A key found in the campaign column's header always yields a number. |
| Aggregation.RatioCell | data_handler.py:411-430 | A rate shows numerator/denominator exactly when both are numbers and the denominator is not 0, and is blank otherwise. This is CTR = C/B and CVR = E/C. |
| Aggregation.RoundHalfAway | data_handler.py:463 | `ROUND(x, 0)` is within half of x, with halves rounded away from zero. |
| Aggregation.TaxExclusive | data_handler.py:463 | Column I is blank if and only if G is not a number, and is otherwise `ROUND(G/1.1, 0)`. |
| Aggregation.TaxExclusiveOfWholeAmount | data_handler.py:463 | For a whole, non-negative G, column I is `(20G + 11) div 22`. |
| Aggregation.NoHalfwayCase | data_handler.py:463 | No integer divided by 1.1 lands exactly halfway between two integers. |
| Aggregation.BlankKeyBlankRow | data_handler.py:383-465 | A row with a blank key shows nothing in B to I. |
| Aggregation.UnmatchedKeyBlankRow | data_handler.py:383-465 | A row whose key no campaign cell contains shows nothing in B to I. |
| Aggregation.RatesOfRow | data_handler.py:411-463 | In a summary row, CTR and CVR exist exactly when their operands are numbers with a non-zero denominator, and are then the fractions. I is blank exactly when G is. |
| Aggregation.MetricsOfAppendedRows | data_handler.py:383-459 | Each metric column over a combined sheet combines the columns computed over its parts. |
| Aggregation.RowFormulas | data_handler.py:383-465 | Each summary row gets eight formulas. |
| Aggregation.RowFormulasPlacement | data_handler.py:393-464 | The k-th formula of a row goes to that row, in column B + k. |
| Aggregation.AcceptedPrefixSpec | data_handler.py:381-472 | The formulas written in a row are a prefix of the eight, all accepted. The first one left out was refused. |
| Aggregation.WriteRow | data_handler.py:381-472 | One row's writes add that accepted prefix and count each formula written. |
| Aggregation.EmbedFormulasRange | data_handler.py:358-474 | The loop writes, for rows 2 to `max_campaign_rows + 1`, each row's accepted prefix, and counts every formula written. |
| Aggregation.AcceptedRowSlots | data_handler.py:381-472 | A row's written formulas sit in that row in consecutive columns from B. With no refused write, all eight are written. |
| Aggregation.EmbeddedInOrder | data_handler.py:379-465 | Writes stay in rows 2 to `max_campaign_rows + 1`, columns B to I, each cell at most once and in row-then-column order. With no refusal, 8 formulas are written per row. |
| Aggregation.RowOfColumns | data_handler.py:383-465 | The eight formulas, written with their column references, evaluate to the five metric sums, the two rates and the tax-exclusive gross. |
| Aggregation.RowFormulasMeanEvaluateRow | data_handler.py:365-465 | The formulas placed in a row evaluate, column by column, to that row's summary. |
| CsvPaste.DecimalString | data_handler.py:112 | A row number is written as a non-empty string of digits. |
| CsvPaste.DecimalValueOfDecimalString | data_handler.py:112 | The digits read back as the row number. |
| CsvPaste.CellAddressReadsBack | data_handler.py:112 | A cell address splits into letters then digits, reading back as its column and its row. |
| CsvPaste.CellAddressInjective | data_handler.py:112 | Different cells have different addresses. |
| CsvPaste.PasteRange | data_handler.py:108-113 | There is a block to write if and only if there is at least one row and one column. |
| CsvPaste.PasteRangeSpansData | data_handler.py:111-113 | The block runs from A2 to the last column of sheet row `num_rows + 1`. |
| CsvPaste.DataValues | data_handler.py:101-103 | There is one list per row, each as long as the column list. |
| CsvPaste.FallbackRows | data_handler.py:119-125 | The row-by-row writes give one sheet row per data row. |
| CsvPaste.PasteCsvData | data_handler.py:69-135 | The method leaves the sheet in its pasted state. |
| CsvPaste.PasteHeader | data_handler.py:93-96 | Row 1 holds the column names, in order. |
| CsvPaste.PasteRowByRow | data_handler.py:116-125 | After a refused bulk write, each data row is written on its own from sheet row 2. |
| CsvPaste.NonEmptyFrameHasPasteRange | data_handler.py:85-108 | A frame pandas does not call empty always has a block to write. |
| CsvPaste.PastedCells | data_handler.py:93-114 | After the bulk write, row 1 is the header, and sheet row i + 2, column j + 1 holds row i's cell of column j. |
| CsvPaste.FallbackMatchesBulk | data_handler.py:114-125 | Row by row, each accepted row lands where the bulk write puts it. A refused row leaves an empty sheet row. |
| CsvPaste.EmptyFrameBlankSummary | data_handler.py:85-131 | An empty frame leaves the sheet empty, and every summary row then shows nothing. |
| CsvPaste.ReadCells | data_handler.py:222-227 | Reading a row back gives `None` for empty cells and the text otherwise. |
| CsvPaste.PastedHeaderLocated | data_handler.py:242-250 | A pasted column whose stripped name is a field's, with no later such column in the first 50, is where the locator puts that field. |
| CsvPaste.HeaderLocated | data_handler.py:222-250 | The same for any header row read back. |
| CsvPaste.WindowLocated | data_handler.py:242-250 | The rightmost exact hit in the window is where the locator puts the field. |
| CsvPaste.HeaderHits | data_handler.py:243-246 | A window cell hits a field exactly if and only if the header's stripped name is the field's. |

## Left out

- The spreadsheet application is not modelled: opening, saving and
  recalculating the workbook, `time.sleep`, and sheet clearing and creation.
  The paste starts from an empty sheet, and each write's success is an input.
- The checks that only read and log are not modelled: `_verify_paste_result`,
  `_verify_column_positions`, `_log_column_mapping`,
  `_log_actual_column_positions` and `_validate_combined_data`. Logging is
  left out throughout.
- Styling the summary sheet is not modelled. format_manager.py is not part of
  this model.
- Configuration loading, date defaults, the command line and file
  distribution are not modelled. orchestrator.py and main.py are not part of
  this model.
- Reading files is not modelled: `pd.read_csv`, chunked reading, the text-mode
  reads of 1024 characters, the 10 KB binary read and the statistical detector. Probe results, the detector's
  answer and file existence are inputs.
- CsvPath.CsvFilePath: a file-name template is modelled as `prefix{date}suffix`.
  The source's `str.format(date=...)` also accepts a template with no `{date}`
  or with several, and raises KeyError for any other `{field}`. Those templates
  are not modelled.
- Excel's wildcards in `SEARCH` (`?`, `*`, `~`) are not modelled. Keys are
  taken literally.
- Excel's conversion of written text to values is modelled only where `SUM`
  adds a cell, through the `numeric` parameter. Nothing constrains what
  `numeric` says about "". Excel's `FILTER` hands an empty target cell to
  `SUM` as 0. `Aggregation.EmptyCellAddsNothing` shows such a cell adds nothing
  when `numeric("")` is `None` or 0.
- Aggregation.Matches and Aggregation.MetricCell: `SEARCH` is modelled on the
  pasted text, not on the value Excel converted it to. Excel stores a campaign
  cell "00123" as the number 123 and "2024-01" as a date serial, so `SEARCH`
  for the original text can miss a cell that the model finds.
- CsvPaste.ReadCells: a header read back is modelled as the pasted text, not
  as `str()` of the value Excel converted it to. For example, "'Imp" reads back
  from Excel as "Imp". Number-like or date-like headers read back as their
  converted value.
- Case folding is ASCII-only, in `SEARCH`, in pandas' upper-casing and in
  Python's `lower()`. Other scripts are compared as they are. The Japanese
  column names involved have no case.
- `TEXT(..., "0.00%")` and floating point are not modelled. Rates are kept as
  exact numerator/denominator pairs, and amounts are reals.
- Aggregation.EvaluateRow: asks that every position be a column name. The
  locator guarantees this (`Aggregation.LocatedPositionsNeedNoDefault`), so
  the case of an ill-formed column reference in a formula is not modelled.
- Aggregation.EmbedFormulasRange: the eight formula statements of a row are
  modelled as a loop over the row's list of formulas. A refused write ends
  the row, as the source's `try` block does. The formula text is represented
  by the `Formula` datatype, not as strings.
- CsvPaste.PasteCsvData: the header writes are assumed to succeed. An
  exception there propagates out of the paste in the source, and that path
  is not modelled. The bulk write either happens in full or not at all.
- SchemaReconciler.CombineData: works on frame values. The caller's frames,
  which the source pads in place, and the aliasing of `base_columns` with
  `adult_columns` are not modelled. Neither changes the result.
- RowFilter.CleanData: both passes test cells of the frame as read. The
  source's `astype(str)` changes nothing, because every cell is already a
  string.
- ColumnLocator.DetectColumnPositions: treats reading the header row as the
  only step that can raise. The caught exception is modelled by `None` as
  the input.
