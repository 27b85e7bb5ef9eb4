/** Cell coordinates and their textual references: the bijective base-26 column codec
    ("A" = 0, "Z" = 25, "AA" = 26) and the `<letters><1-based row>` reference form. The page
    and every cell carry identical copies of this codec in the source; it is defined once here. */
module Coordinates {
  import opened Wrappers
  import opened Text

  /** The weight the source gives a column letter: its character code minus that of 'A',
      plus one ('A' = 1, 'Z' = 26; a lower-case letter, which /[A-Z]+/i also matches, weighs
      33 to 58). */
  function LetterValue(c: char): int
  {
    c as int - 'A' as int + 1
  }

  /** The base-26 value of a column name, by Horner's rule from its last letter. */
  function ColumnValue(s: string): (v: int)
    ensures (forall i :: 0 <= i < |s| ==> IsLetter(s[i])) ==> v >= |s|
  {
    if s == [] then 0 else ColumnValue(s[..|s| - 1]) * 26 + LetterValue(s[|s| - 1])
  }

  /** The zero-based column number of a column name. */
  function ColumnIndex(s: string): int
  {
    ColumnValue(s) - 1
  }

  /** The column name of a zero-based column number; the empty name for a negative one. */
  function ColumnName(n: int): (s: string)
    decreases n + 1
    ensures n < 0 <==> s == []
    ensures AllUpper(s)
  {
    if n < 0 then [] else ColumnName(n / 26 - 1) + [(65 + n % 26) as char]
  }

  function Pow26(k: nat): (p: nat)
    ensures p >= 1
  {
    if k == 0 then 1 else 26 * Pow26(k - 1)
  }

  /** getColumnName: prepends one letter per base-26 digit until the number goes negative. */
  method GetColumnName(columnNumber: int) returns (columnName: string)
    ensures columnName == ColumnName(columnNumber)
  {
    var n := columnNumber;
    columnName := "";
    while n >= 0
      invariant ColumnName(n) + columnName == ColumnName(columnNumber)
      decreases n + 1
    {
      var letter := [(65 + n % 26) as char];
      assert ColumnName(n) == ColumnName(n / 26 - 1) + letter;
      assert ColumnName(n / 26 - 1) + (letter + columnName) == ColumnName(n) + columnName;
      columnName := letter + columnName;
      n := n / 26 - 1;
    }
  }

  /** getColumnIndex: starts at -1 and adds each letter's weight times the power of 26 of
      its position from the right. */
  method GetColumnIndex(column: string) returns (colIndex: int)
    ensures colIndex == ColumnIndex(column)
  {
    colIndex := -1;
    var i := 0;
    while i < |column|
      invariant 0 <= i <= |column|
      invariant colIndex == ColumnValue(column[..i]) * Pow26(|column| - i) - 1
    {
      var p := Pow26(|column| - i - 1);
      var v := ColumnValue(column[..i]);
      var d := LetterValue(column[i]);
      assert column[..i + 1][..i] == column[..i];
      assert ColumnValue(column[..i + 1]) == v * 26 + d;
      HornerStep(v, d, p);
      colIndex := colIndex + d * p;
      i := i + 1;
    }
    assert column[..i] == column;
  }

  lemma HornerStep(v: int, d: int, p: int)
    ensures v * (26 * p) + d * p == (v * 26 + d) * p
  {
  }

  lemma DivMod26(a: int, b: int)
    requires 0 <= b < 26
    ensures (a * 26 + b) / 26 == a && (a * 26 + b) % 26 == b
  {
  }

  /** Decoding the name of column n gives back n. */
  lemma {:induction false} ColumnIndexOfName(n: int)
    requires n >= 0
    ensures ColumnIndex(ColumnName(n)) == n
  {
    var q := n / 26 - 1;
    var p := ColumnName(q);
    var s := p + [(65 + n % 26) as char];
    assert ColumnName(n) == s;
    assert s[..|s| - 1] == p;
    if q >= 0 {
      ColumnIndexOfName(q);
    }
    assert ColumnValue(p) == n / 26;
    assert ColumnValue(s) == n / 26 * 26 + n % 26 + 1;
  }

  /** Encoding the number of a non-empty upper-case column name gives back the name. */
  lemma {:induction false} ColumnNameOfIndex(s: string)
    requires |s| > 0 && AllUpper(s)
    ensures ColumnName(ColumnIndex(s)) == s
  {
    var p := s[..|s| - 1];
    var d := LetterValue(s[|s| - 1]) - 1;
    var n := ColumnIndex(s);
    assert n == ColumnValue(p) * 26 + d;
    DivMod26(ColumnValue(p), d);
    assert (65 + n % 26) as char == s[|s| - 1];
    if p != [] {
      ColumnNameOfIndex(p);
    }
    assert ColumnName(n / 26 - 1) == p;
    assert p + [s[|s| - 1]] == s;
  }

  /** The textual reference of a zero-based (row, column) pair, e.g. (10, 26) is "AA11". */
  function RefName(row: nat, col: nat): string
  {
    ColumnName(col) + NatToString(row + 1)
  }

  /** getRowColFromReference: the first letter run read as a column and the first digit run
      read as a 1-based row; None where the source's non-null assertion on `match` fails. */
  function RowColFromReference(ref: string): Option<(int, int)>
  {
    FirstRunIs(ref, Digits);
    match (FirstRun(ref, Letters), FirstRun(ref, Digits))
    case (Some(col), Some(row)) => Some((DigitsValue(row) - 1, ColumnIndex(col)))
    case _ => None
  }

  /** Column letters followed by a decimal number split back into the two. */
  lemma NameRuns(col: nat, n: nat)
    ensures FirstRun(ColumnName(col) + NatToString(n), Letters) == Some(ColumnName(col))
    ensures FirstRun(ColumnName(col) + NatToString(n), Digits) == Some(NatToString(n))
  {
    var letters, digits := ColumnName(col), NatToString(n);
    assert letters != [] && letters[0] == (letters + digits)[0];
    TakeRunOfConcat(letters, digits, Letters);
    FirstRunSkips(letters, digits, Digits);
    TakeRunOfConcat(digits, [], Digits);
    assert digits + [] == digits;
  }

  /** Parsing column letters followed by the number n gives row n - 1 of that column. */
  lemma ParseName(col: nat, n: nat)
    ensures RowColFromReference(ColumnName(col) + NatToString(n)) == Some((n - 1, col))
  {
    NameRuns(col, n);
    ColumnIndexOfName(col);
  }

  /** Parsing the reference of (row, col) gives back (row, col). */
  lemma RowColOfRefName(row: nat, col: nat)
    ensures RowColFromReference(RefName(row, col)) == Some((row, col))
  {
    ParseName(col, row + 1);
  }

  /** Distinct coordinates have distinct reference names. */
  lemma RefNameInjective(r1: nat, c1: nat, r2: nat, c2: nat)
    requires RefName(r1, c1) == RefName(r2, c2)
    ensures r1 == r2 && c1 == c2
  {
    RowColOfRefName(r1, c1);
    RowColOfRefName(r2, c2);
  }

  /** Distinct coordinates have distinct reference names, stated positively. */
  lemma RefNameDistinct(r1: nat, c1: nat, r2: nat, c2: nat)
    ensures (r1, c1) != (r2, c2) ==> RefName(r1, c1) != RefName(r2, c2)
  {
    RowColOfRefName(r1, c1);
    RowColOfRefName(r2, c2);
  }

  /** The two-letter column after "Z": "AA" is column 26 both ways, and "AA11" is row 10 of it. */
  lemma ColumnAA()
    ensures ColumnName(26) == "AA" && ColumnIndex("AA") == 26
    ensures RowColFromReference("AA11") == Some((10, 26))
  {
    assert ColumnName(0) == "A";
    assert ColumnName(26) == ColumnName(0) + "A";
    assert "AA"[..1] == "A" && "A"[..0] == [];
    assert NatToString(1) == "1";
    assert NatToString(11) == NatToString(1) + "1";
    assert RefName(10, 26) == "AA11";
    RowColOfRefName(10, 26);
  }
}
