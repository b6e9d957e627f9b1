/** `DataHandler._detect_csv_column_positions`: locating the six fields the
    summary formulas need in the header row of the pasted CSV sheet, by exact
    match, then by fuzzy substring match, then by fixed defaults. */
module ColumnLocator {
  import opened Text
  import opened ColumnLetters

  datatype Option<T> = None | Some(value: T)

  datatype Field = CampaignName | Imp | Click | CV | Gross | Net

  /** The fields in the order of the source's `target_columns` table. */
  const Fields: seq<Field> := [CampaignName, Imp, Click, CV, Gross, Net]

  /** Only the header cells A1:AX1 are read. */
  const MaxCheckCols := 50

  /** The header text each field is looked up by. */
  function TargetName(f: Field): string {
    match f
    case CampaignName => "キャンペーン名"
    case Imp => "Imp"
    case Click => "Click"
    case CV => "CV"
    case Gross => "グロス"
    case Net => "ネット"
  }

  /** The last-resort position of each field, as a column number. */
  function DefaultNumber(f: Field): nat {
    match f
    case CampaignName => 3
    case Imp => 9
    case Click => 10
    case CV => 12
    case Gross => 14
    case Net => 15
  }

  /** The last-resort position of each field, as the source writes it. */
  function DefaultColumn(f: Field): (r: string)
    ensures r == ColumnLetter(DefaultNumber(f))
  {
    KnownColumnLetters();
    match f
    case CampaignName => "C"
    case Imp => "I"
    case Click => "J"
    case CV => "L"
    case Gross => "N"
    case Net => "O"
  }

  /** Field to column name. */
  type Positions = map<Field, string>

  /** The mapping returned when the lookup raises: every field at its default. */
  function DefaultPositions(): Positions {
    map f | f in Fields :: DefaultColumn(f)
  }

  /** The value of the range A1:AX1 as a list: the first 50 first-row cells
      of the CSV sheet, None for an empty cell. */
  function HeaderWindow(row: seq<Option<string>>): (w: seq<Option<string>>)
    ensures |w| == MaxCheckCols
    ensures forall i :: 0 <= i < MaxCheckCols ==> w[i] == if i < |row| then row[i] else None
  {
    seq(MaxCheckCols, i requires 0 <= i < MaxCheckCols => if i < |row| then row[i] else None)
  }

  // ---- Pass 1: exact match ----

  /** A header cell with its surrounding whitespace stripped; empty cells stay None. */
  function StripCell(cell: Option<string>): Option<string> {
    if cell.None? then None else Some(Strip(cell.value))
  }

  /** The stripped header cells: both passes look only at these. */
  function Stripped(cells: seq<Option<string>>): (r: seq<Option<string>>)
    ensures |r| == |cells| && forall i :: 0 <= i < |cells| ==> r[i] == StripCell(cells[i])
  {
    seq(|cells|, i requires 0 <= i < |cells| => StripCell(cells[i]))
  }

  /** A non-empty stripped header equal to the field's name, with case. */
  predicate ExactHit(header: Option<string>, f: Field) {
    header.Some? && header.value == TargetName(f)
  }

  /** The first field from `Fields[j..]` that the header hits exactly (the inner loop and its `break`). */
  function FirstExactFrom(header: Option<string>, j: nat): Option<Field>
    decreases |Fields| - j
  {
    if j >= |Fields| then None
    else if ExactHit(header, Fields[j]) then Some(Fields[j])
    else FirstExactFrom(header, j + 1)
  }

  /** The mapping after the exact pass visits header `i`: there is no
      "already found" test, so a later equal header replaces an earlier one. */
  function ExactStep(m: Positions, header: Option<string>, i: nat): Positions {
    match FirstExactFrom(header, 0)
    case Some(f) => m[f := ColumnLetter(i + 1)]
    case None => m
  }

  /** The mapping after the exact pass has visited `headers[..n]`. */
  function ExactUpTo(headers: seq<Option<string>>, n: nat): Positions
    requires n <= |headers|
  {
    if n == 0 then map[] else ExactStep(ExactUpTo(headers, n - 1), headers[n - 1], n - 1)
  }

  // ---- Pass 2: fuzzy match ----

  /** The header text of each field, lower-cased: `Lower(TargetName(f))`
      written out as literals (`FoldedNameIsLower`), so that proofs about a
      concrete header compare against a literal, not a folded sequence. */
  function FoldedName(f: Field): string {
    match f
    case CampaignName => "キャンペーン名"
    case Imp => "imp"
    case Click => "click"
    case CV => "cv"
    case Gross => "グロス"
    case Net => "ネット"
  }

  lemma {:induction false} FoldedNameIsLower(f: Field)
    ensures FoldedName(f) == Lower(TargetName(f))
  {
  }

  /** A non-empty stripped header whose lower-cased text contains the
      lower-cased field name or is contained in it. */
  predicate FuzzyHit(header: Option<string>, f: Field) {
    header.Some? && Overlap(Lower(header.value), FoldedName(f))
  }

  /** Either text contains the other. */
  predicate Overlap(h: string, t: string) {
    Contains(h, t) || Contains(t, h)
  }

  /** The first field from `Fields[j..]` that is still unresolved in `m` and
      that the header hits fuzzily. */
  function FirstFuzzyFrom(header: Option<string>, m: Positions, j: nat): Option<Field>
    decreases |Fields| - j
  {
    if j >= |Fields| then None
    else if Fields[j] !in m && FuzzyHit(header, Fields[j]) then Some(Fields[j])
    else FirstFuzzyFrom(header, m, j + 1)
  }

  function FuzzyStep(m: Positions, header: Option<string>, i: nat): Positions {
    match FirstFuzzyFrom(header, m, 0)
    case Some(f) => m[f := ColumnLetter(i + 1)]
    case None => m
  }

  /** The mapping after the fuzzy pass, started from `m`, has visited `headers[..n]`. */
  function FuzzyUpTo(headers: seq<Option<string>>, n: nat, m: Positions): Positions
    requires n <= |headers|
  {
    if n == 0 then m else FuzzyStep(FuzzyUpTo(headers, n - 1, m), headers[n - 1], n - 1)
  }

  // ---- Pass 3: defaults ----

  /** The default-filling loop over `fs`: a field not yet mapped gets its default. */
  function FillDefaults(m: Positions, fs: seq<Field>): Positions
    decreases |fs|
  {
    if fs == [] then m
    else FillDefaults(if fs[0] in m then m else m[fs[0] := DefaultColumn(fs[0])], fs[1..])
  }

  /** The stripped header cells A1..AX1 the passes examine. */
  function Window(row: seq<Option<string>>): seq<Option<string>> {
    Stripped(HeaderWindow(row))
  }

  /** The three passes over the stripped header cells: exact, then fuzzy if
      some field is still missing, then defaults. */
  function Resolve(headers: seq<Option<string>>): Positions {
    FillDefaults(Found(headers), Fields)
  }

  /** The mapping after the exact pass and, when some field is still
      missing, the fuzzy pass. */
  function Found(headers: seq<Option<string>>): Positions {
    var exact := ExactUpTo(headers, |headers|);
    if |exact| < |Fields| then FuzzyUpTo(headers, |headers|, exact) else exact
  }

  /** The positions `_detect_csv_column_positions` returns, given the header
      row it reads, or None when reading the sheet raises. */
  function Locate(read: Option<seq<Option<string>>>): Positions {
    match read
    case None => DefaultPositions()
    case Some(row) => Resolve(Window(row))
  }

  // ---- The method ----

  /** `_detect_csv_column_positions`, pass by pass. */
  method DetectColumnPositions(read: Option<seq<Option<string>>>) returns (positions: Positions)
    ensures positions == Locate(read)
  {
    if read.None? {
      return DefaultPositions();
    }
    var cells := Window(read.value);
    positions := ExactPass(cells);
    if |positions| < |Fields| {
      positions := FuzzyPass(cells, positions);
    }
    positions := FillPass(positions);
  }

  /** The first loop over the stripped header cells: exact matches. */
  method ExactPass(cells: seq<Option<string>>) returns (positions: Positions)
    ensures positions == ExactUpTo(cells, |cells|)
  {
    positions := map[];
    for i := 0 to |cells|
      invariant positions == ExactUpTo(cells, i)
    {
      positions := ExactVisit(positions, cells[i], i);
    }
  }

  /** One stripped header cell of the exact pass: the mapping gains the first
      target whose name the cell equals, at this cell's column. */
  method ExactVisit(m: Positions, cell: Option<string>, i: nat) returns (positions: Positions)
    ensures positions == ExactStep(m, cell, i)
  {
    positions := m;
    var hit := ExactTarget(cell);
    if hit.Some? {
      var excelCol := ColumnNumberToLetter(i + 1);
      positions := positions[hit.value := excelCol];
    }
  }

  /** The loop over the targets for one stripped header cell, stopped at the
      first exact match (the `break`). */
  method ExactTarget(cell: Option<string>) returns (hit: Option<Field>)
    ensures hit == FirstExactFrom(cell, 0)
  {
    if cell.None? {
      NoHeaderNoExactHit(cell, 0);
      return None;
    }
    var headerStr := cell.value;
    var j := 0;
    while j < |Fields|
      invariant 0 <= j <= |Fields|
      invariant FirstExactFrom(cell, 0) == FirstExactFrom(cell, j)
    {
      var f := Fields[j];
      if headerStr == TargetName(f) {
        return Some(f);
      }
      j := j + 1;
    }
    return None;
  }

  /** The second loop over the stripped header cells: fuzzy matches for the
      fields still unresolved. */
  method FuzzyPass(cells: seq<Option<string>>, exact: Positions) returns (positions: Positions)
    ensures positions == FuzzyUpTo(cells, |cells|, exact)
  {
    positions := exact;
    for i := 0 to |cells|
      invariant positions == FuzzyUpTo(cells, i, exact)
    {
      positions := FuzzyVisit(positions, cells[i], i);
    }
  }

  /** One stripped header cell of the fuzzy pass: the mapping gains the first
      unresolved target that matches, at this cell's column. */
  method FuzzyVisit(m: Positions, cell: Option<string>, i: nat) returns (positions: Positions)
    ensures positions == FuzzyStep(m, cell, i)
  {
    positions := m;
    var hit := FuzzyTarget(m, cell);
    if hit.Some? {
      var excelCol := ColumnNumberToLetter(i + 1);
      positions := positions[hit.value := excelCol];
    }
  }

  /** The loop over the targets for one stripped header cell, skipping the
      resolved ones and stopped at the first fuzzy match (the `break`). */
  method FuzzyTarget(m: Positions, cell: Option<string>) returns (hit: Option<Field>)
    ensures hit == FirstFuzzyFrom(cell, m, 0)
  {
    if cell.None? {
      NoHeaderNoFuzzyHit(cell, m, 0);
      return None;
    }
    var headerStr := Lower(cell.value);
    var j := 0;
    while j < |Fields|
      invariant 0 <= j <= |Fields|
      invariant FirstFuzzyFrom(cell, m, 0) == FirstFuzzyFrom(cell, m, j)
    {
      var f := Fields[j];
      if f !in m {
        var target := Lower(TargetName(f));
        FoldedNameIsLower(f);
        if Overlap(headerStr, target) {
          return Some(f);
        }
      }
      assert !FuzzyHit(cell, f) || f in m;
      j := j + 1;
    }
    return None;
  }

  lemma {:induction false} NoHeaderNoExactHit(header: Option<string>, j: nat)
    requires header.None?
    ensures FirstExactFrom(header, j) == None
    decreases |Fields| - j
  {
    if j < |Fields| {
      NoHeaderNoExactHit(header, j + 1);
    }
  }

  lemma {:induction false} NoHeaderNoFuzzyHit(header: Option<string>, m: Positions, j: nat)
    requires header.None?
    ensures FirstFuzzyFrom(header, m, j) == None
    decreases |Fields| - j
  {
    if j < |Fields| {
      NoHeaderNoFuzzyHit(header, m, j + 1);
    }
  }

  /** The last loop: a default for every field still missing. */
  method FillPass(found: Positions) returns (positions: Positions)
    ensures positions == FillDefaults(found, Fields)
  {
    positions := found;
    var k := 0;
    while k < |Fields|
      invariant 0 <= k <= |Fields|
      invariant FillDefaults(positions, Fields[k..]) == FillDefaults(found, Fields)
    {
      var f := Fields[k];
      if f !in positions {
        positions := positions[f := DefaultColumn(f)];
      }
      assert Fields[k..][1..] == Fields[k + 1..];
      k := k + 1;
    }
    assert Fields[k..] == [];
  }

  // ---- What the lookup guarantees ----

  function AllFields(): set<Field> {
    set f | f in Fields
  }

  /** Every field is one of the six targets. */
  lemma {:induction false} FieldListed(f: Field)
    ensures f in Fields && f in AllFields()
  {
  }

  /** Distinct fields have distinct header names, so a header hits at most one field exactly. */
  lemma {:induction false} ExactHitUnique(header: Option<string>, f: Field, g: Field)
    requires ExactHit(header, f) && ExactHit(header, g)
    ensures f == g
  {
    assert TargetName(f) == TargetName(g);
  }

  /** The exact search stops at a target the header equals, and finds none
      exactly when no remaining target is equal. */
  lemma {:induction false} FirstExactFromSpec(header: Option<string>, j: nat)
    ensures var r := FirstExactFrom(header, j);
      (r.Some? ==> ExactHit(header, r.value)) &&
      (r.None? <==> forall k :: j <= k < |Fields| ==> !ExactHit(header, Fields[k]))
    decreases |Fields| - j
  {
    if j < |Fields| && !ExactHit(header, Fields[j]) {
      FirstExactFromSpec(header, j + 1);
    }
  }

  /** A header equal to a field's name selects that field, whatever the order of the targets. */
  lemma {:induction false} ExactHitSelects(header: Option<string>, f: Field)
    requires ExactHit(header, f)
    ensures FirstExactFrom(header, 0) == Some(f)
  {
    FirstExactFromSpec(header, 0);
    FieldListed(f);
    var r := FirstExactFrom(header, 0);
    ExactHitUnique(header, f, r.value);
  }

  /** The fuzzy search stops at the first target, in table order, that is
      unresolved and overlaps the header, and finds none exactly when no
      remaining target is both. */
  lemma {:induction false} FirstFuzzyFromSpec(header: Option<string>, m: Positions, j: nat)
    ensures var r := FirstFuzzyFrom(header, m, j);
      (r.Some? ==> r.value !in m && FuzzyHit(header, r.value)) &&
      (r.Some? ==> exists k :: j <= k < |Fields| && Fields[k] == r.value &&
                     forall l :: j <= l < k ==> Fields[l] in m || !FuzzyHit(header, Fields[l])) &&
      (r.None? <==> forall k :: j <= k < |Fields| ==> Fields[k] in m || !FuzzyHit(header, Fields[k]))
  {
    FirstFuzzyFound(header, m, j);
    FirstFuzzyNone(header, m, j);
  }

  lemma {:induction false} FirstFuzzyFound(header: Option<string>, m: Positions, j: nat)
    ensures var r := FirstFuzzyFrom(header, m, j);
      r.Some? ==> (r.value !in m && FuzzyHit(header, r.value)
        && exists k :: j <= k < |Fields| && Fields[k] == r.value &&
             forall l :: j <= l < k ==> Fields[l] in m || !FuzzyHit(header, Fields[l]))
  {
    FirstFuzzyEligible(header, m, j);
    FirstFuzzyEarliest(header, m, j);
  }

  lemma {:induction false} FirstFuzzyEligible(header: Option<string>, m: Positions, j: nat)
    ensures var r := FirstFuzzyFrom(header, m, j);
      r.Some? ==> r.value !in m && FuzzyHit(header, r.value)
    decreases |Fields| - j
  {
    if j < |Fields| && !(Fields[j] !in m && FuzzyHit(header, Fields[j])) {
      FirstFuzzyEligible(header, m, j + 1);
    }
  }

  lemma {:induction false} FirstFuzzyEarliest(header: Option<string>, m: Positions, j: nat)
    ensures var r := FirstFuzzyFrom(header, m, j);
      r.Some? ==> exists k :: j <= k < |Fields| && Fields[k] == r.value &&
                    forall l :: j <= l < k ==> Fields[l] in m || !FuzzyHit(header, Fields[l])
    decreases |Fields| - j
  {
    var r := FirstFuzzyFrom(header, m, j);
    if j < |Fields| {
      if Fields[j] !in m && FuzzyHit(header, Fields[j]) {
        assert Fields[j] == r.value;
      } else if r.Some? {
        FirstFuzzyEarliest(header, m, j + 1);
        var k :| j + 1 <= k < |Fields| && Fields[k] == r.value &&
                 forall l :: j + 1 <= l < k ==> Fields[l] in m || !FuzzyHit(header, Fields[l]);
        assert forall l :: j <= l < k ==> Fields[l] in m || !FuzzyHit(header, Fields[l]);
      }
    }
  }

  lemma {:induction false} FirstFuzzyNone(header: Option<string>, m: Positions, j: nat)
    ensures FirstFuzzyFrom(header, m, j).None?
        <==> forall k :: j <= k < |Fields| ==> Fields[k] in m || !FuzzyHit(header, Fields[k])
    decreases |Fields| - j
  {
    if j < |Fields| && !(Fields[j] !in m && FuzzyHit(header, Fields[j])) {
      FirstFuzzyNone(header, m, j + 1);
    }
  }

  /** The reference meaning of the exact pass for one field: the index of the
      rightmost of `headers[..n]` equal to its name, or -1. */
  function LastExact(headers: seq<Option<string>>, n: nat, f: Field): (k: int)
    requires n <= |headers|
    ensures -1 <= k < n
    ensures k >= 0 ==> ExactHit(headers[k], f)
    ensures forall l :: k < l < n ==> !ExactHit(headers[l], f)
  {
    if n == 0 then -1
    else if ExactHit(headers[n - 1], f) then n - 1
    else LastExact(headers, n - 1, f)
  }

  /** The exact pass maps a field iff some header equals its name, and then to
      the column of the rightmost such header: with no "already found" test,
      a later duplicate overwrites an earlier match. */
  lemma {:induction false} ExactPassIsRightmost(headers: seq<Option<string>>, n: nat, f: Field)
    requires n <= |headers|
    ensures var m, k := ExactUpTo(headers, n), LastExact(headers, n, f);
      (f in m <==> k >= 0) && (k >= 0 ==> m[f] == ColumnLetter(k + 1))
  {
    if n > 0 {
      ExactPassIsRightmost(headers, n - 1, f);
      if ExactHit(headers[n - 1], f) {
        ExactPassHit(headers, n, f);
        assert LastExact(headers, n, f) == n - 1;
      } else {
        ExactPassMiss(headers, n, f);
        assert LastExact(headers, n, f) == LastExact(headers, n - 1, f);
      }
    }
  }

  /** A last header equal to the field's name places the field at its column. */
  lemma {:induction false} ExactPassHit(headers: seq<Option<string>>, n: nat, f: Field)
    requires 0 < n <= |headers| && ExactHit(headers[n - 1], f)
    ensures var m := ExactUpTo(headers, n); f in m && m[f] == ColumnLetter(n)
  {
    ExactHitSelects(headers[n - 1], f);
  }

  /** A last header that does not equal the field's name leaves the field as it was. */
  lemma {:induction false} ExactPassMiss(headers: seq<Option<string>>, n: nat, f: Field)
    requires 0 < n <= |headers| && !ExactHit(headers[n - 1], f)
    ensures var m, r := ExactUpTo(headers, n - 1), ExactUpTo(headers, n);
      (f in r <==> f in m) && (f in m ==> r[f] == m[f])
  {
    FirstExactFromSpec(headers[n - 1], 0);
  }

  /** The fuzzy pass never changes or removes a field the exact pass resolved. */
  lemma {:induction false} FuzzyPassKeeps(headers: seq<Option<string>>, n: nat, m: Positions)
    requires n <= |headers|
    ensures var r := FuzzyUpTo(headers, n, m);
      m.Keys <= r.Keys && forall f :: f in m ==> r[f] == m[f]
  {
    if n > 0 {
      FuzzyPassKeeps(headers, n - 1, m);
      FirstFuzzyFromSpec(headers[n - 1], FuzzyUpTo(headers, n - 1, m), 0);
    }
  }

  /** What the fuzzy pass has resolved after `j` cells stays resolved, at the same column. */
  lemma {:induction false} FuzzyLaterCellsKeep(headers: seq<Option<string>>, j: nat, n: nat, m: Positions)
    requires j <= n <= |headers|
    ensures var before, after := FuzzyUpTo(headers, j, m), FuzzyUpTo(headers, n, m);
      before.Keys <= after.Keys && forall f :: f in before ==> after[f] == before[f]
  {
    if j < n {
      FuzzyLaterCellsKeep(headers, j, n - 1, m);
      FirstFuzzyFromSpec(headers[n - 1], FuzzyUpTo(headers, n - 1, m), 0);
    }
  }

  /** One header cell of the fuzzy pass resolves at most one field: either
      nothing changes, or exactly the first unresolved target in table order
      that overlaps the header is mapped to this cell's column. */
  lemma {:induction false} FuzzyStepResolvesAtMostOne(m: Positions, header: Option<string>, i: nat)
    ensures var r := FuzzyStep(m, header, i);
      (r == m && forall f :: f in Fields ==> f in m || !FuzzyHit(header, f)) ||
      (exists k :: 0 <= k < |Fields| && Fields[k] !in m && FuzzyHit(header, Fields[k]) &&
         r == m[Fields[k] := ColumnLetter(i + 1)] &&
         forall l :: 0 <= l < k ==> Fields[l] in m || !FuzzyHit(header, Fields[l]))
  {
    FirstFuzzyFromSpec(header, m, 0);
  }

  /** A header cell holding only whitespace strips to "" (`StripAllSpace`),
      which every target name contains: the fuzzy pass hands it the first unresolved target in
      table order. */
  lemma {:induction false} BlankHeaderTakesFirstUnresolved(m: Positions, j: nat, k: nat)
    requires j <= k < |Fields| && Fields[k] !in m
    requires forall l :: j <= l < k ==> Fields[l] in m
    ensures FirstFuzzyFrom(Some(""), m, j) == Some(Fields[k])
    decreases k - j
  {
    if j == k {
      ContainsEmpty(FoldedName(Fields[k]));
      assert Lower("") == "";
      assert FuzzyHit(Some(""), Fields[k]);
    } else {
      BlankHeaderTakesFirstUnresolved(m, j + 1, k);
    }
  }

  /** A field the fuzzy pass resolves sits at the column of a header cell that it overlaps. */
  lemma {:induction false} FuzzyPassOrigin(headers: seq<Option<string>>, n: nat, m: Positions, f: Field)
    requires n <= |headers|
    requires f !in m && f in FuzzyUpTo(headers, n, m)
    ensures exists k :: 0 <= k < n && FuzzyHit(headers[k], f) &&
                        FuzzyUpTo(headers, n, m)[f] == ColumnLetter(k + 1)
  {
    var prev := FuzzyUpTo(headers, n - 1, m);
    FirstFuzzyFromSpec(headers[n - 1], prev, 0);
    if f in prev {
      FuzzyPassOrigin(headers, n - 1, m, f);
      var k :| 0 <= k < n - 1 && FuzzyHit(headers[k], f) && prev[f] == ColumnLetter(k + 1);
      assert FuzzyUpTo(headers, n, m)[f] == prev[f];
    } else {
      assert FuzzyHit(headers[n - 1], f);
    }
  }

  /** The default loop maps every listed field, keeps what was found, and
      gives each missing field its default. */
  lemma {:induction false} FillDefaultsSpec(m: Positions, fs: seq<Field>)
    ensures var r := FillDefaults(m, fs);
      r.Keys == m.Keys + (set f | f in fs) &&
      forall f :: f in r ==> r[f] == if f in m then m[f] else DefaultColumn(f)
    decreases |fs|
  {
    if fs != [] {
      var next := if fs[0] in m then m else m[fs[0] := DefaultColumn(fs[0])];
      FillDefaultsSpec(next, fs[1..]);
      assert (set f | f in fs) == {fs[0]} + (set f | f in fs[1..]);
    }
  }

  /** With the keys among the six fields, fewer than six keys means some field is unresolved. */
  lemma {:induction false} FewerKeysIffMissing(m: Positions)
    ensures |m| < |Fields| <==> exists f :: f !in m
  {
    forall f | f in m
      ensures f in Fields
    {
      FieldListed(f);
    }
    if exists f :: f !in m {
      var f :| f !in m;
      FieldListed(f);
    }
    CountWithin(m.Keys, Fields);
    if forall f :: f in m {
      CountCovers(m.Keys, Fields);
    }
  }

  /** A set drawn from a list has at most as many elements as the list, and
      fewer when it misses one of them. */
  lemma {:induction false} CountWithin<T>(s: set<T>, fs: seq<T>)
    requires forall f :: f in s ==> f in fs
    ensures |s| <= |fs|
    ensures (exists f :: f in fs && f !in s) ==> |s| < |fs|
    decreases |fs|
  {
    if fs == [] {
      assert s == {};
    } else {
      var x, rest := fs[0], fs[1..];
      var s' := s - {x};
      forall f | f in s'
        ensures f in rest
      {
        var k :| 0 <= k < |fs| && fs[k] == f;
        assert rest[k - 1] == f;
      }
      CountWithin(s', rest);
      if x in s {
        assert s == s' + {x};
        if exists f :: f in fs && f !in s {
          var y :| y in fs && y !in s;
          var k :| 0 <= k < |fs| && fs[k] == y;
          assert rest[k - 1] == y;
        }
      } else {
        assert s == s';
      }
    }
  }

  /** A set holding every element of a list without repeats has at least as many elements. */
  lemma {:induction false} CountCovers<T>(s: set<T>, fs: seq<T>)
    requires forall i, j :: 0 <= i < j < |fs| ==> fs[i] != fs[j]
    requires forall f :: f in fs ==> f in s
    ensures |fs| <= |s|
    decreases |fs|
  {
    if fs != [] {
      var x, rest := fs[0], fs[1..];
      var s' := s - {x};
      forall f | f in rest
        ensures f in s'
      {
        var k :| 0 <= k < |rest| && rest[k] == f;
        assert fs[k + 1] == f;
      }
      CountCovers(s', rest);
      assert s == s' + {x};
    }
  }

  /** Every value in the mapping is a column name. */
  predicate ColumnNames(m: Positions) {
    forall f :: f in m ==> IsColumnName(m[f])
  }

  lemma {:induction false} ExactPassNames(headers: seq<Option<string>>, n: nat)
    requires n <= |headers|
    ensures ColumnNames(ExactUpTo(headers, n))
  {
    forall f | f in ExactUpTo(headers, n)
      ensures IsColumnName(ExactUpTo(headers, n)[f])
    {
      ExactPassIsRightmost(headers, n, f);
    }
  }

  lemma {:induction false} FuzzyPassNames(headers: seq<Option<string>>, n: nat, m: Positions)
    requires n <= |headers| && ColumnNames(m)
    ensures ColumnNames(FuzzyUpTo(headers, n, m))
  {
    FuzzyPassKeeps(headers, n, m);
    forall f | f in FuzzyUpTo(headers, n, m) && f !in m
      ensures IsColumnName(FuzzyUpTo(headers, n, m)[f])
    {
      FuzzyPassOrigin(headers, n, m, f);
    }
  }

  /** An exact match is also a fuzzy match. */
  lemma {:induction false} ExactHitIsFuzzyHit(header: Option<string>, f: Field)
    requires ExactHit(header, f)
    ensures FuzzyHit(header, f)
  {
    FoldedNameIsLower(f);
    ContainsSelf(Lower(header.value));
  }

  /** The default loop is the last word: every field is mapped, to what the
      first two passes found or else to its default. */
  lemma {:induction false} ResolveFillsDefaults(headers: seq<Option<string>>)
    ensures var p, found := Resolve(headers), Found(headers);
      p.Keys == AllFields() &&
      forall f :: f in p && p[f] == if f in found then found[f] else DefaultColumn(f)
  {
    FillDefaultsSpec(Found(headers), Fields);
    forall f: Field
      ensures f in AllFields()
    {
      FieldListed(f);
    }
  }

  /** The first two passes keep what the exact pass found, and whatever the
      fuzzy pass adds sits at the column of a header it overlaps. */
  lemma {:induction false} FoundExtendsExact(headers: seq<Option<string>>, f: Field)
    ensures var exact, found := ExactUpTo(headers, |headers|), Found(headers);
      (f in exact ==> f in found && found[f] == exact[f]) &&
      (f in found && f !in exact ==>
         exists k :: 0 <= k < |headers| && FuzzyHit(headers[k], f) && found[f] == ColumnLetter(k + 1))
  {
    var exact := ExactUpTo(headers, |headers|);
    if |exact| < |Fields| {
      FuzzyPassKeeps(headers, |headers|, exact);
      if f in Found(headers) && f !in exact {
        FuzzyPassOrigin(headers, |headers|, exact, f);
      }
    }
  }

  /** The fuzzy pass runs exactly when the exact pass left some field unresolved. */
  lemma {:induction false} FoundFuzzyWhenMissing(headers: seq<Option<string>>)
    ensures var exact := ExactUpTo(headers, |headers|);
      Found(headers) == if exists f :: f !in exact then FuzzyUpTo(headers, |headers|, exact) else exact
  {
    FewerKeysIffMissing(ExactUpTo(headers, |headers|));
  }

  /** Whatever the header cells hold, the three passes map each of the six
      fields, and nothing else, to a column name. */
  lemma {:induction false} ResolveResolvesEveryField(headers: seq<Option<string>>)
    ensures var p := Resolve(headers); p.Keys == AllFields() && ColumnNames(p)
  {
    ResolveFillsDefaults(headers);
    forall f | f in Resolve(headers)
      ensures IsColumnName(Resolve(headers)[f])
    {
      ResolvedName(headers, f);
    }
  }

  lemma {:induction false} ResolvedName(headers: seq<Option<string>>, f: Field)
    requires f in Resolve(headers)
    ensures IsColumnName(Resolve(headers)[f])
  {
    if f in Found(headers) {
      FoundNames(headers, f);
      ResolveKeepsFound(headers, f);
    } else {
      ResolveDefaultsMissing(headers, f);
    }
  }

  lemma {:induction false} FoundNames(headers: seq<Option<string>>, f: Field)
    requires f in Found(headers)
    ensures IsColumnName(Found(headers)[f])
  {
    ExactPassNames(headers, |headers|);
    FoundExtendsExact(headers, f);
  }

  /** The same holds for the lookup as a whole, including when reading the
      header row raises and the defaults are returned. */
  lemma {:induction false} LocateResolvesEveryField(read: Option<seq<Option<string>>>)
    ensures var p := Locate(read); p.Keys == AllFields() && ColumnNames(p)
  {
    match read
    case None =>
      forall f: Field
        ensures f in AllFields() && IsColumnName(DefaultColumn(f))
      {
        FieldListed(f);
      }
    case Some(row) =>
      ResolveResolvesEveryField(Window(row));
  }

  /** What the first two passes found is what the lookup returns. */
  lemma {:induction false} ResolveKeepsFound(headers: seq<Option<string>>, f: Field)
    requires f in Found(headers)
    ensures f in Resolve(headers) && Resolve(headers)[f] == Found(headers)[f]
  {
    ResolveFillsDefaults(headers);
  }

  /** A field the first two passes leave unresolved gets its default. */
  lemma {:induction false} ResolveDefaultsMissing(headers: seq<Option<string>>, f: Field)
    requires f !in Found(headers)
    ensures f in Resolve(headers) && Resolve(headers)[f] == DefaultColumn(f)
  {
    ResolveFillsDefaults(headers);
  }

  lemma {:induction false} ExactMatchFound(headers: seq<Option<string>>, f: Field)
    requires LastExact(headers, |headers|, f) >= 0
    ensures f in Found(headers) && Found(headers)[f] == ColumnLetter(LastExact(headers, |headers|, f) + 1)
  {
    ExactPassIsRightmost(headers, |headers|, f);
    FoundExtendsExact(headers, f);
  }

  /** A field whose exact name heads one of the columns is placed at the
      rightmost such column: neither later pass overrides it. */
  lemma {:induction false} ResolveExactMatch(headers: seq<Option<string>>, f: Field)
    requires LastExact(headers, |headers|, f) >= 0
    ensures f in Resolve(headers) && Resolve(headers)[f] == ColumnLetter(LastExact(headers, |headers|, f) + 1)
  {
    ExactMatchFound(headers, f);
    ResolveKeepsFound(headers, f);
  }

  /** A field that no header overlaps, even ignoring case, gets its default column. */
  lemma {:induction false} ResolveDefault(headers: seq<Option<string>>, f: Field)
    requires forall k :: 0 <= k < |headers| ==> !FuzzyHit(headers[k], f)
    ensures f in Resolve(headers) && Resolve(headers)[f] == DefaultColumn(f)
  {
    var k := LastExact(headers, |headers|, f);
    if k >= 0 {
      ExactHitIsFuzzyHit(headers[k], f);
    }
    ExactPassIsRightmost(headers, |headers|, f);
    FoundExtendsExact(headers, f);
    ResolveFillsDefaults(headers);
  }

  /** A field without an exact header lands either at the column of a header
      it overlaps (ignoring case) or at its default. */
  lemma {:induction false} ResolveFuzzyOrDefault(headers: seq<Option<string>>, f: Field)
    requires LastExact(headers, |headers|, f) < 0
    ensures f in Resolve(headers)
    ensures var c := Resolve(headers)[f];
      c == DefaultColumn(f) ||
      exists k :: 0 <= k < |headers| && FuzzyHit(headers[k], f) && c == ColumnLetter(k + 1)
  {
    ExactPassIsRightmost(headers, |headers|, f);
    FoundExtendsExact(headers, f);
    ResolveFillsDefaults(headers);
  }

  /** When every field has an exact header, the result is the exact pass's
      mapping: the fuzzy pass is skipped and no default is used. */
  lemma {:induction false} ResolveAllExact(headers: seq<Option<string>>)
    requires forall f :: LastExact(headers, |headers|, f) >= 0
    ensures Resolve(headers) == ExactUpTo(headers, |headers|)
  {
    var exact := ExactUpTo(headers, |headers|);
    forall f
      ensures f in exact
    {
      ExactPassIsRightmost(headers, |headers|, f);
    }
    FoundFuzzyWhenMissing(headers);
    ResolveFillsDefaults(headers);
  }

  /** Only the first 50 header cells are examined. */
  lemma {:induction false} LocateReadsFirstFifty(a: seq<Option<string>>, b: seq<Option<string>>)
    requires forall k :: 0 <= k < MaxCheckCols ==>
               (if k < |a| then a[k] else None) == (if k < |b| then b[k] else None)
    ensures Locate(Some(a)) == Locate(Some(b))
  {
    assert HeaderWindow(a) == HeaderWindow(b);
  }

  /** A header row whose only non-empty stripped cell is "imp", in column A. */
  predicate OnlyLowerCaseImp(headers: seq<Option<string>>) {
    |headers| >= 1 && headers[0] == Some("imp") &&
    forall k :: 1 <= k < |headers| ==> headers[k] == None
  }

  lemma {:induction false} OnlyLowerCaseImpNoExactHit(headers: seq<Option<string>>, f: Field)
    requires OnlyLowerCaseImp(headers)
    ensures LastExact(headers, |headers|, f) < 0
  {
  }

  lemma {:induction false} OnlyLowerCaseImpExactPass(headers: seq<Option<string>>)
    requires OnlyLowerCaseImp(headers)
    ensures ExactUpTo(headers, |headers|) == map[]
  {
    forall f
      ensures f !in ExactUpTo(headers, |headers|)
    {
      OnlyLowerCaseImpNoExactHit(headers, f);
      ExactPassIsRightmost(headers, |headers|, f);
    }
  }

  /** "imp" overlaps Imp and not キャンペーン名, the target listed before it. */
  lemma {:induction false} LowerCaseImpCell()
    ensures FuzzyStep(map[], Some("imp"), 0) == map[Imp := "A"]
  {
    ImpMissesCampaignName();
    ImpHitsImp();
    assert FirstFuzzyFrom(Some("imp"), map[], 0) == Some(Imp);
    KnownColumnLetters();
  }

  lemma ImpMissesCampaignName()
    ensures !FuzzyHit(Some("imp"), CampaignName)
  {
    var name := FoldedName(CampaignName);
    assert Lower("imp") == "imp";
    ContainsBounds("imp", name);
    ContainsBounds(name, "imp");
  }

  lemma ImpHitsImp()
    ensures FuzzyHit(Some("imp"), Imp)
  {
    assert Lower("imp") == "imp";
    ContainsSelf("imp");
  }

  /** The exact pass is case-sensitive: a header "imp" does not match "Imp"
      exactly, but the fuzzy pass still places Imp at its column. */
  lemma {:induction false} LowerCaseImpHeader(headers: seq<Option<string>>)
    requires OnlyLowerCaseImp(headers)
    ensures LastExact(headers, |headers|, Imp) < 0
    ensures Imp in Resolve(headers) && Resolve(headers)[Imp] == "A"
  {
    var n := |headers|;
    OnlyLowerCaseImpNoExactHit(headers, Imp);
    OnlyLowerCaseImpExactPass(headers);
    var exact := ExactUpTo(headers, n);
    LowerCaseImpCell();
    assert FuzzyUpTo(headers, 1, exact) == map[Imp := "A"];
    FuzzyLaterCellsKeep(headers, 1, n, exact);
    FoundFuzzyWhenMissing(headers);
    ResolveFillsDefaults(headers);
  }
}
