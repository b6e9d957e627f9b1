/** Spreadsheet column names: the bijective base-26 numbering A..Z, AA..AZ, ...
    used to address the pasted CSV sheet and the summary sheet. */
module ColumnLetters {

  predicate IsLetter(c: char) {
    'A' <= c <= 'Z'
  }

  /** A well-formed column name: one or more upper-case letters. */
  predicate IsColumnName(s: string) {
    |s| >= 1 && forall i :: 0 <= i < |s| ==> IsLetter(s[i])
  }

  /** The name of the 1-based column `n`; no name for `n <= 0`. */
  function ColumnLetter(n: int): (r: string)
    ensures n <= 0 ==> r == ""
    ensures n >= 1 ==> IsColumnName(r)
    decreases n
  {
    if n <= 0 then "" else ColumnLetter((n - 1) / 26) + [(65 + (n - 1) % 26) as char]
  }

  /** The 1-based column number a letter string denotes; 0 for the empty string. */
  function LetterValue(s: string): nat
    requires forall i :: 0 <= i < |s| ==> IsLetter(s[i])
  {
    if s == [] then 0
    else
      assert IsLetter(s[|s| - 1]);
      LetterValue(s[..|s| - 1]) * 26 + (s[|s| - 1] as int - 64)
  }

  /** Reading back the name of column `n` gives `n`. */
  lemma {:induction false} LetterValueOfColumnLetter(n: nat)
    ensures LetterValue(ColumnLetter(n)) == n
  {
    if n > 0 {
      var q := (n - 1) / 26;
      var p := ColumnLetter(q);
      var s := ColumnLetter(n);
      assert s == p + [(65 + (n - 1) % 26) as char];
      assert s[..|s| - 1] == p;
      LetterValueOfColumnLetter(q);
    }
  }

  /** Every letter string is the name of the column it denotes. */
  lemma {:induction false} ColumnLetterOfLetterValue(s: string)
    requires forall i :: 0 <= i < |s| ==> IsLetter(s[i])
    ensures ColumnLetter(LetterValue(s)) == s
  {
    if s != [] {
      var p := s[..|s| - 1];
      var d := s[|s| - 1] as int - 64;
      var v := LetterValue(p);
      assert LetterValue(s) == v * 26 + d;
      assert (v * 26 + d - 1) / 26 == v && (v * 26 + d - 1) % 26 == d - 1;
      ColumnLetterOfLetterValue(p);
      assert s == p + [s[|s| - 1]];
    }
  }

  /** Distinct column numbers have distinct names. */
  lemma ColumnLetterInjective(m: nat, n: nat)
    requires ColumnLetter(m) == ColumnLetter(n)
    ensures m == n
  {
    LetterValueOfColumnLetter(m);
    LetterValueOfColumnLetter(n);
  }

  /** The names the source relies on: the default positions, Z, AA and the 50-column header window. */
  lemma KnownColumnLetters()
    ensures ColumnLetter(1) == "A" && ColumnLetter(3) == "C" && ColumnLetter(9) == "I"
    ensures ColumnLetter(10) == "J" && ColumnLetter(12) == "L" && ColumnLetter(14) == "N"
    ensures ColumnLetter(15) == "O" && ColumnLetter(26) == "Z" && ColumnLetter(27) == "AA"
    ensures ColumnLetter(50) == "AX"
  {
  }

  /** The loop of `_column_number_to_letter`: peel one base-26 digit per turn. */
  method ColumnNumberToLetter(colNum: int) returns (result: string)
    ensures result == ColumnLetter(colNum)
  {
    result := "";
    var n := colNum;
    while n > 0
      invariant ColumnLetter(n) + result == ColumnLetter(colNum)
      decreases n
    {
      ghost var before := n;
      n := n - 1;
      assert ColumnLetter(before) == ColumnLetter(n / 26) + [(65 + n % 26) as char];
      result := [(65 + n % 26) as char] + result;
      n := n / 26;
    }
  }
}
