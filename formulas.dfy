/** The formula syntax the page understands: calls `NAME(argument)` found by the global
    patterns /REF\(([^)]+)\)/g, /SUM\(([^)]+)\)/g and /AVG\(([^)]+)\)/g, the two shapes of a
    SUM/AVG argument (a range `A1:B2` or a list `A1,B2`) and the expansion of a range into the
    names of the cells it covers (getRangeOfCells). */
module Formulas {
  import opened Wrappers
  import opened Text
  import opened Coordinates

  /** The three functions of a formula, rewritten in this order. */
  datatype Call = REF | SUM | AVG

  function Name(k: Call): string
  {
    match k
    case REF => "REF"
    case SUM => "SUM"
    case AVG => "AVG"
  }

  // ---------------------------------------------------------------------------------------
  // Finding calls

  /** The first ')' at or after position k. */
  function CloseParen(s: string, k: nat): (r: Option<nat>)
    decreases |s| - k
    ensures r.Some? ==> k <= r.value < |s| && s[r.value] == ')'
    ensures r.Some? ==> forall m :: k <= m < r.value ==> s[m] != ')'
    ensures r.None? ==> forall m :: k <= m < |s| ==> s[m] != ')'
  {
    if k >= |s| then None
    else if s[k] == ')' then Some(k)
    else CloseParen(s, k + 1)
  }

  /** Where the pattern NAME\(([^)]+)\) matches when it starts at i: the position of the
      closing ')'. The argument between the parentheses is never empty and holds no ')'. */
  function CallAt(s: string, name: string, i: nat): (r: Option<nat>)
    ensures r.Some? ==> OccursAt(s, name + "(", i) && i + |name| + 1 < r.value < |s| && s[r.value] == ')'
    ensures r.Some? ==> forall m :: i + |name| + 1 <= m < r.value ==> s[m] != ')'
    ensures (OccursAt(s, name + "(", i) && i + |name| + 1 < |s| && s[i + |name| + 1] != ')' &&
             exists m :: i + |name| + 1 < m < |s| && s[m] == ')') ==> r.Some?
  {
    if OccursAt(s, name + "(", i) then
      match CloseParen(s, i + |name| + 1)
      case Some(j) => if j > i + |name| + 1 then Some(j) else None
      case None => None
    else None
  }

  /** The leftmost match at or after `from`, as (start, position of ')'): the step of a
      global search whose lastIndex is `from`. */
  function NextCall(s: string, name: string, from: nat): (r: Option<(nat, nat)>)
    decreases |s| - from
    ensures r.Some? ==> from <= r.value.0 && CallAt(s, name, r.value.0) == Some(r.value.1)
    ensures r.Some? ==> forall i :: from <= i < r.value.0 ==> CallAt(s, name, i).None?
    ensures r.None? ==> forall i :: from <= i < |s| ==> CallAt(s, name, i).None?
  {
    if from >= |s| then None
    else
      match CallAt(s, name, from)
      case Some(j) => Some((from, j))
      case None => NextCall(s, name, from + 1)
  }

  /** The argument of the call that starts at i and closes at j. */
  function Argument(s: string, name: string, i: nat, j: nat): string
    requires i + |name| + 1 <= j <= |s|
  {
    s[i + |name| + 1..j]
  }

  /** Where `NAME(` occurs, `NAME` occurs. */
  lemma CallNameOccurs(s: string, name: string, i: nat)
    ensures OccursAt(s, name + "(", i) ==> OccursAt(s, name, i)
  {
    if OccursAt(s, name + "(", i) {
      assert s[i..i + |name|] == s[i..i + |name| + 1][..|name|];
    }
  }

  /** A text with no occurrence of the function name holds no call of it. */
  lemma {:induction false} NoNameNoCall(s: string, name: string, from: nat)
    requires !Contains(s, name)
    ensures NextCall(s, name, from) == None
    decreases |s| - from
  {
    if from < |s| {
      CallNameOccurs(s, name, from);
      NoNameNoCall(s, name, from + 1);
    }
  }

  // ---------------------------------------------------------------------------------------
  // Arguments of SUM and AVG

  /** ^[^:]+:[^:]+$ : exactly one ':' with text on both sides. */
  predicate IsRangeSyntax(r: string)
  {
    var parts := Split(r, ':');
    |parts| == 2 && |parts[0]| > 0 && |parts[1]| > 0
  }

  /** [A-Za-z]\d+ : one letter and a decimal row. */
  predicate IsShortRef(p: string)
  {
    |p| >= 2 && IsLetter(p[0]) && AllDigits(p[1..])
  }

  /** ^[A-Za-z]\d+(,\s?[A-Za-z]\d+)*$ : short references separated by ',' and at most one
      white-space character. */
  predicate IsListSyntax(r: string)
  {
    var parts := Split(r, ',');
    IsShortRef(parts[0]) &&
    forall k :: 1 <= k < |parts| ==>
      IsShortRef(parts[k]) || (|parts[k]| > 0 && IsSpace(parts[k][0]) && IsShortRef(parts[k][1..]))
  }

  /** The cells a SUM or AVG argument names: a range is expanded, a list is split at ','
      (a list item keeps its leading space), anything else is a syntax error. */
  function ArgumentCells(range: string): (r: Outcome<seq<string>>)
    ensures r.Thrown? <==> (!IsRangeSyntax(range) && !IsListSyntax(range)) ||
                           (IsRangeSyntax(range) && RangeOfCells(Split(range, ':')[0], Split(range, ':')[1]).Thrown?)
    ensures !IsRangeSyntax(range) && IsListSyntax(range) ==> r == Done(Split(range, ','))
    ensures !r.Stuck?
  {
    if IsRangeSyntax(range) then
      var parts := Split(range, ':');
      RangeOfCells(parts[0], parts[1])
    else if IsListSyntax(range) then Done(Split(range, ','))
    else Thrown("Syntax for reference is not correct. " + range)
  }

  // ---------------------------------------------------------------------------------------
  // getRangeOfCells

  /** Names of row i (1-based, as parsed) over columns c0..c1, left to right. */
  function RowNames(i: nat, c0: int, c1: int): (r: seq<string>)
    decreases c1 - c0
    ensures |r| == if c0 <= c1 then c1 - c0 + 1 else 0
  {
    if c0 > c1 then [] else [ColumnName(c0) + NatToString(i)] + RowNames(i, c0 + 1, c1)
  }

  /** Position m of a row holds the name of column c0 + m. */
  lemma {:induction false} RowNamesAt(i: nat, c0: int, c1: int, m: nat)
    requires m < |RowNames(i, c0, c1)|
    ensures RowNames(i, c0, c1)[m] == ColumnName(c0 + m) + NatToString(i)
    decreases m
  {
    if m > 0 {
      RowNamesAt(i, c0 + 1, c1, m - 1);
    }
  }

  /** Names of rows r0..r1 over columns c0..c1, row after row. */
  function RectangleNames(r0: nat, r1: nat, c0: int, c1: int): seq<string>
    decreases r1 - r0
  {
    if r0 > r1 then [] else RowNames(r0, c0, c1) + RectangleNames(r0 + 1, r1, c0, c1)
  }

  /** getRangeOfCells(startCell, endCell): each corner contributes its first letter run (the
      column) and its first digit run (the row, parsed without the -1 of a lookup); a corner
      lacking either makes the non-null assertion fail with a TypeError. */
  function RangeOfCells(startCell: string, endCell: string): Outcome<seq<string>>
  {
    FirstRunIs(startCell, Digits);
    FirstRunIs(endCell, Digits);
    var startCol, startRow := FirstRun(startCell, Letters), FirstRun(startCell, Digits);
    var endCol, endRow := FirstRun(endCell, Letters), FirstRun(endCell, Digits);
    if startCol.None? || startRow.None? || endCol.None? || endRow.None? then
      Thrown(NULL_ERROR)
    else
      Done(RectangleNames(DigitsValue(startRow.value), DigitsValue(endRow.value),
                          ColumnIndex(startCol.value), ColumnIndex(endCol.value)))
  }

  /** k rows of `width` names each, counted row by row. */
  function RowsOf(k: nat, width: nat): nat
  {
    if k == 0 then 0 else width + RowsOf(k - 1, width)
  }

  /** Counting row by row gives the product. */
  lemma {:induction false} RowsOfProduct(k: nat, width: nat)
    ensures RowsOf(k, width) == k * width
  {
    if k > 0 {
      RowsOfProduct(k - 1, width);
      NextRowOffset(k - 1, width, 0);
    }
  }

  /** Rows r0..r1 of the rectangle, counted row by row. */
  lemma {:induction false} RectangleRows(r0: nat, r1: nat, c0: int, c1: int)
    requires r0 <= r1 + 1 && c0 <= c1
    ensures |RectangleNames(r0, r1, c0, c1)| == RowsOf(r1 + 1 - r0, c1 - c0 + 1)
    decreases r1 + 1 - r0
  {
    if r0 <= r1 {
      RectangleRows(r0 + 1, r1, c0, c1);
    }
  }

  /** The rectangle has (r1 - r0 + 1) * (c1 - c0 + 1) names. */
  lemma RectangleSize(r0: nat, r1: nat, c0: int, c1: int)
    requires r0 <= r1 && c0 <= c1
    ensures |RectangleNames(r0, r1, c0, c1)| == (r1 - r0 + 1) * (c1 - c0 + 1)
  {
    RectangleRows(r0, r1, c0, c1);
    RowsOfProduct(r1 + 1 - r0, c1 - c0 + 1);
  }

  /** One row further on is `width` positions further on. */
  lemma NextRowOffset(k: nat, width: nat, d: nat)
    ensures (k + 1) * width + d == width + (k * width + d)
  {
  }

  /** Every cell of the rectangle is named in it. */
  lemma {:induction false} RectangleCovers(r0: nat, r1: nat, c0: int, c1: int, r: nat, c: int)
    requires r0 <= r <= r1 && c0 <= c <= c1
    ensures ColumnName(c) + NatToString(r) in RectangleNames(r0, r1, c0, c1)
    decreases r1 - r0
  {
    var first := RowNames(r0, c0, c1);
    var rest := RectangleNames(r0 + 1, r1, c0, c1);
    assert RectangleNames(r0, r1, c0, c1) == first + rest;
    if r == r0 {
      RowNamesAt(r0, c0, c1, c - c0);
      assert first[c - c0] == ColumnName(c) + NatToString(r);
    } else {
      RectangleCovers(r0 + 1, r1, c0, c1, r, c);
    }
  }

  /** An empty rectangle: a start row or start column past the end gives no names. */
  lemma {:induction false} EmptyRectangle(r0: nat, r1: nat, c0: int, c1: int)
    requires r0 > r1 || c0 > c1
    ensures RectangleNames(r0, r1, c0, c1) == []
    decreases r1 - r0
  {
    if r0 <= r1 {
      EmptyRectangle(r0 + 1, r1, c0, c1);
    }
  }

  /** Every name of the rectangle is the name of a cell inside it. */
  lemma {:induction false} RectangleInside(r0: nat, r1: nat, c0: int, c1: int, x: string)
    requires x in RectangleNames(r0, r1, c0, c1)
    ensures exists r: nat, c :: r0 <= r <= r1 && c0 <= c <= c1 && x == ColumnName(c) + NatToString(r)
    decreases r1 - r0
  {
    var first := RowNames(r0, c0, c1);
    var rest := RectangleNames(r0 + 1, r1, c0, c1);
    assert RectangleNames(r0, r1, c0, c1) == first + rest;
    if x in first {
      var m :| 0 <= m < |first| && first[m] == x;
      RowNamesAt(r0, c0, c1, m);
      assert x == ColumnName(c0 + m) + NatToString(r0);
    } else {
      RectangleInside(r0 + 1, r1, c0, c1, x);
      var r: nat, c :| r0 + 1 <= r <= r1 && c0 <= c <= c1 && x == ColumnName(c) + NatToString(r);
      assert r0 <= r;
    }
  }

  /** getRangeOfCells: reads the two corners, then enumerates the rectangle. */
  method GetRangeOfCells(startCell: string, endCell: string) returns (result: Outcome<seq<string>>)
    ensures result == RangeOfCells(startCell, endCell)
  {
    FirstRunIs(startCell, Digits);
    FirstRunIs(endCell, Digits);
    var startCol, startRow := FirstRun(startCell, Letters), FirstRun(startCell, Digits);
    var endCol, endRow := FirstRun(endCell, Letters), FirstRun(endCell, Digits);
    if startCol.None? || startRow.None? || endCol.None? || endRow.None? {
      return Thrown(NULL_ERROR);
    }
    var startColIdx := GetColumnIndex(startCol.value);
    var endColIdx := GetColumnIndex(endCol.value);
    var cells := CollectRectangle(DigitsValue(startRow.value), DigitsValue(endRow.value), startColIdx, endColIdx);
    return Done(cells);
  }

  /** The outer loop of getRangeOfCells: one row after another. */
  method CollectRectangle(startRowIdx: nat, endRowIdx: nat, startColIdx: int, endColIdx: int)
    returns (cells: seq<string>)
    ensures cells == RectangleNames(startRowIdx, endRowIdx, startColIdx, endColIdx)
  {
    ghost var all := RectangleNames(startRowIdx, endRowIdx, startColIdx, endColIdx);
    cells := [];
    var i: int := startRowIdx;
    while i <= endRowIdx
      invariant startRowIdx <= i && (i == startRowIdx || i <= endRowIdx + 1)
      invariant cells + RectangleNames(i, endRowIdx, startColIdx, endColIdx) == all
      decreases endRowIdx + 1 - i
    {
      ghost var later := RectangleNames(i + 1, endRowIdx, startColIdx, endColIdx);
      assert RectangleNames(i, endRowIdx, startColIdx, endColIdx) == RowNames(i, startColIdx, endColIdx) + later;
      var row := CollectRow(i, startColIdx, endColIdx);
      AppendAssoc(cells, row, later);
      cells := cells + row;
      i := i + 1;
    }
    AppendEmpty(cells, RectangleNames(i, endRowIdx, startColIdx, endColIdx));
  }

  /** The inner loop of getRangeOfCells: the names of one row, left to right. */
  method CollectRow(i: nat, startColIdx: int, endColIdx: int) returns (cells: seq<string>)
    ensures cells == RowNames(i, startColIdx, endColIdx)
  {
    cells := [];
    var j: int := startColIdx;
    while j <= endColIdx
      invariant startColIdx <= j && (j == startColIdx || j <= endColIdx + 1)
      invariant cells + RowNames(i, j, endColIdx) == RowNames(i, startColIdx, endColIdx)
      decreases endColIdx + 1 - j
    {
      var columnName := GetColumnName(j);
      var name := columnName + NatToString(i);
      assert RowNames(i, j, endColIdx) == [name] + RowNames(i, j + 1, endColIdx);
      AppendAssoc(cells, [name], RowNames(i, j + 1, endColIdx));
      cells := cells + [name];
      j := j + 1;
    }
    AppendEmpty(cells, RowNames(i, j, endColIdx));
  }
}
