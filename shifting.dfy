/** Re-referencing formula text after a row or column is inserted or removed (shiftBuffer):
    every reference /[A-Z]+[0-9]+/ in a buffer is found, the references are ordered so that
    the ones furthest in the direction of the move are rewritten first, and each one that lies
    at or beyond the edit is replaced, at its first occurrence in the text, by its moved name. */
module Shifting {
  import opened Wrappers
  import opened Text
  import opened Coordinates

  /** The four options of shiftBuffer: "down", "up", "right", "left". */
  datatype Direction = Down | Up | Right | Left

  // ---------------------------------------------------------------------------------------
  // References in a buffer

  type DigitString = s: string | AllDigits(s)

  /** A match of /[A-Z]+[0-9]+/, kept as its letters and its digits. */
  datatype Token = Token(letters: string, digits: DigitString)

  /** The matched text. */
  function TextOf(t: Token): string
  {
    t.letters + t.digits
  }

  /** What every match is: one or more upper-case letters, then one or more digits. */
  predicate WellFormed(t: Token)
  {
    |t.letters| > 0 && AllUpper(t.letters) && |t.digits| > 0
  }

  /** parseInt of the digits: the 1-based row the reference names. */
  function TokenRow(t: Token): nat
  {
    DigitsValue(t.digits)
  }

  /** getColumnIndex of the letters: the 0-based column the reference names. */
  function TokenColumn(t: Token): int
  {
    ColumnIndex(t.letters)
  }

  /** The source reads a reference's letters with /[A-Z]+/i and its digits with /\d+/; on a
      match these are exactly its two parts. */
  lemma TokenMatches(t: Token)
    requires WellFormed(t)
    ensures FirstRun(TextOf(t), Letters) == Some(t.letters)
    ensures FirstRun(TextOf(t), Digits) == Some(t.digits)
  {
    var u, r := t.letters, t.digits;
    TakeRunOfConcat(u, r, Letters);
    FirstRunSkips(u, r, Digits);
    TakeRunOfConcat(r, [], Digits);
    assert r + [] == r;
  }

  /** The reference of the cell at (row, col), as a match. */
  function RefToken(row: nat, col: nat): (t: Token)
    ensures WellFormed(t) && TextOf(t) == RefName(row, col)
    ensures TokenRow(t) == row + 1 && TokenColumn(t) == col
  {
    ColumnIndexOfName(col);
    Token(ColumnName(col), NatToString(row + 1))
  }

  /** The match of /[A-Z]+[0-9]+/ that starts at the beginning of s, if any: the maximal
      upper-case run, when a digit follows it, together with the digits that follow. */
  function MatchPrefix(s: string): (r: Option<Token>)
    ensures r.Some? ==> 0 < |TextOf(r.value)| <= |s|
  {
    var u := TakeRun(s, Uppers);
    if |u| > 0 && |u| < |s| && IsDigit(s[|u|]) then
      Some(Token(u, TakeRun(s[|u|..], Digits)))
    else None
  }

  /** buffer.match(/[A-Z]+[0-9]+/g), with the empty sequence for a null result: the matches
      left to right, the search resuming behind a match, or one character further. */
  function Tokens(s: string): seq<Token>
    decreases |s|
  {
    if s == [] then []
    else
      match MatchPrefix(s)
      case Some(t) => [t] + Tokens(s[|TextOf(t)|..])
      case None => Tokens(s[1..])
  }

  /** A match is well formed and is a prefix of the text. */
  lemma MatchPrefixIsPrefix(s: string)
    ensures MatchPrefix(s).Some? ==> WellFormed(MatchPrefix(s).value) && TextOf(MatchPrefix(s).value) <= s
  {
    var u := TakeRun(s, Uppers);
    if |u| > 0 && |u| < |s| && IsDigit(s[|u|]) {
      var d := TakeRun(s[|u|..], Digits);
      assert d[0] == s[|u|];
      assert s[..|u| + |d|] == s[..|u|] + s[|u|..][..|d|];
    }
  }

  /** An occurrence in a suffix is an occurrence in the whole text. */
  lemma OccursInSuffix(s: string, n: nat, w: string, j: nat)
    requires n <= |s| && OccursAt(s[n..], w, j)
    ensures OccursAt(s, w, n + j)
  {
    assert s[n + j..n + j + |w|] == s[n..][j..j + |w|];
  }

  /** The first reference of a text that starts with the match t is t, at position 0. */
  lemma PositionOfMatch(s: string, t: Token)
    requires MatchPrefix(s) == Some(t)
    ensures WellFormed(Tokens(s)[0]) && OccursAt(s, TextOf(Tokens(s)[0]), 0)
  {
    MatchPrefixIsPrefix(s);
    TokensAfterMatch(s, t);
  }

  /** Only a non-empty text holds a reference. */
  lemma SomeTokensNonEmpty(s: string)
    requires |Tokens(s)| > 0
    ensures s != []
  {
  }

  /** One step of the search: either the k-th reference starts the text, or it is the k2-th
      reference of the text after its first n characters. */
  lemma PositionStep(s: string, k: nat) returns (n: nat, k2: nat, here: bool)
    requires k < |Tokens(s)|
    ensures here ==> WellFormed(Tokens(s)[k]) && OccursAt(s, TextOf(Tokens(s)[k]), 0)
    ensures !here ==> 0 < n <= |s| && k2 < |Tokens(s[n..])| && Tokens(s[n..])[k2] == Tokens(s)[k]
  {
    SomeTokensNonEmpty(s);
    match MatchPrefix(s)
    case Some(t) =>
      if k == 0 {
        PositionOfMatch(s, t);
        n, k2, here := 0, 0, true;
      } else {
        n, k2, here := |TextOf(t)|, k - 1, false;
        assert Tokens(s[n..])[k2] == Tokens(s)[k] by {
          TokensAfterMatch(s, t);
        }
      }
    case None =>
      n, k2, here := 1, k, false;
      assert Tokens(s[n..]) == Tokens(s) by {
        TokensAfterChar(s);
      }
  }

  /** Every reference the search finds is well formed and occurs in the text. */
  lemma {:induction false} TokenPosition(s: string, k: nat) returns (j: nat)
    requires k < |Tokens(s)|
    ensures WellFormed(Tokens(s)[k])
    ensures OccursAt(s, TextOf(Tokens(s)[k]), j)
    decreases |s|
  {
    var n, k2, here := PositionStep(s, k);
    if here {
      j := 0;
    } else {
      var j' := TokenPosition(s[n..], k2);
      OccursInSuffix(s, n, TextOf(Tokens(s)[k]), j');
      j := n + j';
    }
  }

  /** A text without upper-case letters holds no reference. */
  lemma {:induction false} NoUpperNoTokens(s: string)
    requires forall k :: 0 <= k < |s| ==> !IsUpper(s[k])
    ensures Tokens(s) == []
    decreases |s|
  {
    if s != [] {
      NoUpperNoTokens(s[1..]);
    }
  }

  /** A text without digits holds no reference. */
  lemma {:induction false} NoDigitNoTokens(s: string)
    requires forall k :: 0 <= k < |s| ==> !IsDigit(s[k])
    ensures Tokens(s) == []
    decreases |s|
  {
    if s != [] {
      NoDigitNoTokens(s[1..]);
    }
  }

  // ---------------------------------------------------------------------------------------
  // Ordering the references

  /** The sort key of each option: "down" puts the highest row first, "up" the lowest row,
      "right" the rightmost column, "left" the leftmost column. */
  function Key(t: Token, d: Direction): int
  {
    match d
    case Down => -(TokenRow(t) as int)
    case Up => TokenRow(t)
    case Right => -TokenColumn(t)
    case Left => TokenColumn(t)
  }

  /** `x` placed in front of the first element whose key is not smaller. */
  function InsertByKey(x: Token, ys: seq<Token>, d: Direction): seq<Token>
  {
    if ys == [] || Key(x, d) <= Key(ys[0], d) then [x] + ys
    else [ys[0]] + InsertByKey(x, ys[1..], d)
  }

  /** Array.prototype.sort with the option's comparator: a stable sort by key. */
  function SortTokens(ts: seq<Token>, d: Direction): seq<Token>
  {
    if ts == [] then [] else InsertByKey(ts[0], SortTokens(ts[1..], d), d)
  }

  /** An insertion adds exactly the inserted element. */
  lemma {:induction false} InsertPermutes(x: Token, ys: seq<Token>, d: Direction)
    ensures multiset(InsertByKey(x, ys, d)) == multiset(ys) + multiset{x}
  {
    if ys != [] && Key(x, d) > Key(ys[0], d) {
      InsertPermutes(x, ys[1..], d);
      assert ys == [ys[0]] + ys[1..];
    }
  }

  /** The sort is a permutation of the references. */
  lemma {:induction false} SortPermutes(ts: seq<Token>, d: Direction)
    ensures multiset(SortTokens(ts, d)) == multiset(ts)
  {
    if ts != [] {
      SortPermutes(ts[1..], d);
      InsertPermutes(ts[0], SortTokens(ts[1..], d), d);
      assert ts == [ts[0]] + ts[1..];
    }
  }

  predicate SortedByKey(ts: seq<Token>, d: Direction)
  {
    forall i, j :: 0 <= i < j < |ts| ==> Key(ts[i], d) <= Key(ts[j], d)
  }

  /** The references with key k, in their order. */
  function WithKey(ts: seq<Token>, d: Direction, k: int): seq<Token>
  {
    if ts == [] then []
    else (if Key(ts[0], d) == k then [ts[0]] else []) + WithKey(ts[1..], d, k)
  }

  /** Every element of an insertion is the inserted one or one of the others. */
  lemma {:induction false} InsertMembers(x: Token, ys: seq<Token>, d: Direction, j: nat)
    requires j < |InsertByKey(x, ys, d)|
    ensures InsertByKey(x, ys, d)[j] == x || exists m :: 0 <= m < |ys| && ys[m] == InsertByKey(x, ys, d)[j]
  {
    var r := InsertByKey(x, ys, d);
    if ys == [] || Key(x, d) <= Key(ys[0], d) {
      if j > 0 {
        assert r[j] == ys[j - 1];
      }
    } else if j > 0 {
      InsertMembers(x, ys[1..], d, j - 1);
      if r[j] != x {
        var m :| 0 <= m < |ys[1..]| && ys[1..][m] == r[j];
        assert ys[m + 1] == r[j];
      }
    } else {
      assert r[0] == ys[0];
    }
  }

  /** An element whose key is at most every key of a sorted sequence can go in front. */
  lemma SortedCons(y: Token, r: seq<Token>, d: Direction)
    requires SortedByKey(r, d) && forall j :: 0 <= j < |r| ==> Key(y, d) <= Key(r[j], d)
    ensures SortedByKey([y] + r, d)
  {
    var s := [y] + r;
    forall i, j | 0 <= i < j < |s|
      ensures Key(s[i], d) <= Key(s[j], d)
    {
      assert s[j] == r[j - 1];
      if i > 0 {
        assert s[i] == r[i - 1];
      }
    }
  }

  /** Inserting into a sorted sequence keeps it sorted. */
  lemma {:induction false} InsertKeepsOrder(x: Token, ys: seq<Token>, d: Direction)
    requires SortedByKey(ys, d)
    ensures SortedByKey(InsertByKey(x, ys, d), d)
  {
    if ys == [] || Key(x, d) <= Key(ys[0], d) {
      SortedCons(x, ys, d);
    } else {
      var y, rest := ys[0], ys[1..];
      var r := InsertByKey(x, rest, d);
      assert InsertByKey(x, ys, d) == [y] + r;
      assert SortedByKey(rest, d);
      InsertKeepsOrder(x, rest, d);
      forall j | 0 <= j < |r|
        ensures Key(y, d) <= Key(r[j], d)
      {
        InsertMembers(x, rest, d, j);
        if r[j] != x {
          var m :| 0 <= m < |rest| && rest[m] == r[j];
          assert ys[m + 1] == r[j];
        }
      }
      SortedCons(y, r, d);
    }
  }

  /** The sorted references are in key order. */
  lemma {:induction false} SortIsOrdered(ts: seq<Token>, d: Direction)
    ensures SortedByKey(SortTokens(ts, d), d)
  {
    if ts != [] {
      SortIsOrdered(ts[1..], d);
      InsertKeepsOrder(ts[0], SortTokens(ts[1..], d), d);
    }
  }

  /** WithKey of a sequence with a known first element. */
  lemma WithKeyCons(x: Token, ys: seq<Token>, d: Direction, k: int)
    ensures WithKey([x] + ys, d, k) == (if Key(x, d) == k then [x] else []) + WithKey(ys, d, k)
  {
    assert ([x] + ys)[1..] == ys;
  }

  lemma {:induction false} InsertKeepsTies(x: Token, ys: seq<Token>, d: Direction, k: int)
    ensures WithKey(InsertByKey(x, ys, d), d, k) == WithKey([x] + ys, d, k)
  {
    if ys != [] && Key(x, d) > Key(ys[0], d) {
      var y, rest := ys[0], ys[1..];
      var r := InsertByKey(x, rest, d);
      var w := WithKey(rest, d, k);
      assert ys == [y] + rest;
      assert InsertByKey(x, ys, d) == [y] + r;
      InsertKeepsTies(x, rest, d, k);
      WithKeyCons(y, r, d, k);
      WithKeyCons(x, rest, d, k);
      WithKeyCons(x, ys, d, k);
      WithKeyCons(y, rest, d, k);
      // x and y have different keys, so at most one of them is kept
      if Key(y, d) == k {
        assert WithKey(r, d, k) == w;
        assert WithKey([x] + ys, d, k) == WithKey(ys, d, k) == [y] + w;
      } else {
        assert WithKey([y] + r, d, k) == WithKey(r, d, k);
        assert WithKey(ys, d, k) == w;
      }
    } else {
      assert InsertByKey(x, ys, d) == [x] + ys;
    }
  }

  /** The sort is stable: references with equal keys keep the order they have in the text. */
  lemma {:induction false} SortIsStable(ts: seq<Token>, d: Direction, k: int)
    ensures WithKey(SortTokens(ts, d), d, k) == WithKey(ts, d, k)
  {
    if ts != [] {
      SortIsStable(ts[1..], d, k);
      InsertKeepsTies(ts[0], SortTokens(ts[1..], d), d, k);
      assert ([ts[0]] + SortTokens(ts[1..], d))[1..] == SortTokens(ts[1..], d);
    }
  }

  // ---------------------------------------------------------------------------------------
  // Rewriting

  /** The new text of one reference, or None when the option leaves it alone: rows are
      compared 1-based and columns 1-based against the 0-based index. */
  function Shifted(t: Token, d: Direction, index: int): Option<string>
  {
    var cellRow := TokenRow(t);
    var colIndex := TokenColumn(t) + 1;
    match d
    case Down => if cellRow > index then Some(t.letters + NatToString(cellRow + 1)) else None
    case Up => if cellRow > index then Some(t.letters + IntToString(cellRow - 1)) else None
    case Right => if colIndex > index then Some(ColumnName(TokenColumn(t) + 1) + NatToString(cellRow)) else None
    case Left => if colIndex > index then Some(ColumnName(TokenColumn(t) - 1) + NatToString(cellRow)) else None
  }

  /** What one reference becomes: its shifted text, or itself. */
  function ShiftToken(t: Token, d: Direction, index: int): string
  {
    match Shifted(t, d, index)
    case Some(u) => u
    case None => TextOf(t)
  }

  /** One step of the forEach: replace the first occurrence of the reference. */
  function Step(b: string, t: Token, d: Direction, index: int): string
  {
    match Shifted(t, d, index)
    case Some(u) => ReplaceFirst(b, TextOf(t), u)
    case None => b
  }

  /** The forEach over the given references, in order. */
  function ApplyShifts(b: string, ts: seq<Token>, d: Direction, index: int): string
  {
    if ts == [] then b else Step(ApplyShifts(b, ts[..|ts| - 1], d, index), ts[|ts| - 1], d, index)
  }

  /** shiftBuffer(buffer, option, index). */
  function ShiftBuffer(b: string, d: Direction, index: int): string
  {
    ApplyShifts(b, SortTokens(Tokens(b), d), d, index)
  }

  /** shiftBuffer with the source's forEach loop. */
  method ShiftBufferLoop(buffer: string, d: Direction, index: int) returns (updatedBuffer: string)
    ensures updatedBuffer == ShiftBuffer(buffer, d, index)
  {
    var matches := Tokens(buffer);
    updatedBuffer := buffer;
    if matches != [] {
      matches := SortTokens(matches, d);
      for k := 0 to |matches|
        invariant updatedBuffer == ApplyShifts(buffer, matches[..k], d, index)
      {
        assert matches[..k + 1][..k] == matches[..k];
        updatedBuffer := ShiftReference(updatedBuffer, matches[k], d, index);
      }
      assert matches[..|matches|] == matches;
    }
  }

  /** The body of the forEach: rewrites one reference if the option moves it. */
  method ShiftReference(updatedBuffer: string, cellReference: Token, d: Direction, index: int)
    returns (result: string)
    ensures result == Step(updatedBuffer, cellReference, d, index)
  {
    result := updatedBuffer;
    var colChars := cellReference.letters;
    var cellRow := TokenRow(cellReference);
    var colIndex := GetColumnIndex(colChars);
    colIndex := colIndex + 1;
    match d {
      case Down =>
        if cellRow > index {
          result := ReplaceFirst(updatedBuffer, TextOf(cellReference), colChars + NatToString(cellRow + 1));
        }
      case Up =>
        if cellRow > index {
          result := ReplaceFirst(updatedBuffer, TextOf(cellReference), colChars + IntToString(cellRow - 1));
        }
      case Right =>
        if colIndex > index {
          var name := GetColumnName(colIndex - 1 + 1);
          result := ReplaceFirst(updatedBuffer, TextOf(cellReference), name + NatToString(cellRow));
        }
      case Left =>
        if colIndex > index {
          var name := GetColumnName(colIndex - 1 - 1);
          result := ReplaceFirst(updatedBuffer, TextOf(cellReference), name + NatToString(cellRow));
        }
    }
  }

  // ---------------------------------------------------------------------------------------
  // Properties

  /** A buffer with no upper-case letter, such as "=4+7", is never rewritten. */
  lemma NoReferenceUnchanged(b: string, d: Direction, index: int)
    requires forall k :: 0 <= k < |b| ==> !IsUpper(b[k])
    ensures ShiftBuffer(b, d, index) == b
  {
    NoUpperNoTokens(b);
  }

  /** "down" moves a reference of row `row` (0-based) one row down when its 1-based row is
      beyond the index. */
  lemma ShiftedDown(row: nat, col: nat, index: int)
    ensures Shifted(RefToken(row, col), Down, index) == if row + 1 > index then Some(RefName(row + 1, col)) else None
  {
  }

  /** "up" moves a reference one row up when its 1-based row is beyond the index; the text
      of the new row is that of the 0-based row. */
  lemma ShiftedUp(row: nat, col: nat, index: int)
    ensures Shifted(RefToken(row, col), Up, index) ==
              if row + 1 > index then Some(ColumnName(col) + NatToString(row)) else None
  {
  }

  /** "right" moves a reference one column right when its 1-based column is beyond the index. */
  lemma ShiftedRight(row: nat, col: nat, index: int)
    ensures Shifted(RefToken(row, col), Right, index) == if col + 1 > index then Some(RefName(row, col + 1)) else None
  {
  }

  /** "left" moves a reference one column left when its 1-based column is beyond the index;
      column A then loses its letters. */
  lemma ShiftedLeft(row: nat, col: nat, index: int)
    ensures Shifted(RefToken(row, col), Left, index) ==
              if col + 1 > index then Some(ColumnName(col - 1) + NatToString(row + 1)) else None
  {
  }

  /** Moving a reference down and then up at the same index gives it back. */
  lemma DownThenUp(row: nat, col: nat, index: int)
    ensures var moved := if row + 1 > index then row + 1 else row;
            ShiftToken(RefToken(row, col), Down, index) == RefName(moved, col) &&
            ShiftToken(RefToken(moved, col), Up, index) == RefName(row, col)
  {
    ShiftedDown(row, col, index);
    ShiftedUp(row + 1, col, index);
  }

  /** Moving a reference right and then left at the same index gives it back. */
  lemma RightThenLeft(row: nat, col: nat, index: int)
    ensures var moved := if col + 1 > index then col + 1 else col;
            ShiftToken(RefToken(row, col), Right, index) == RefName(row, moved) &&
            ShiftToken(RefToken(row, moved), Left, index) == RefName(row, col)
  {
    ShiftedRight(row, col, index);
    ShiftedLeft(row, col + 1, index);
  }

  // ---------------------------------------------------------------------------------------
  // Finding references in composed text

  /** A match that starts in p, before p's last character, is the same match in p + q. */
  lemma MatchPrefixAppend(p: string, q: string)
    requires |p| > 0 && !IsUpper(p[|p| - 1]) && !IsDigit(p[|p| - 1])
    ensures MatchPrefix(p + q) == MatchPrefix(p)
    ensures MatchPrefix(p).Some? ==> |TextOf(MatchPrefix(p).value)| < |p|
  {
    TakeRunStops(p, q, Uppers);
    var u := TakeRun(p, Uppers);
    if |u| > 0 && IsDigit(p[|u|]) {
      assert (p + q)[|u|..] == p[|u|..] + q;
      TakeRunStops(p[|u|..], q, Digits);
    }
  }

  /** The references of a text that starts with the match t: t, then those after it. */
  lemma TokensAfterMatch(s: string, t: Token)
    requires MatchPrefix(s) == Some(t)
    ensures Tokens(s) == [t] + Tokens(s[|TextOf(t)|..])
  {
  }

  /** The references of a non-empty text that does not start with a match: those after its
      first character. */
  lemma TokensAfterChar(s: string)
    requires s != [] && MatchPrefix(s).None?
    ensures Tokens(s) == Tokens(s[1..])
  {
  }

  /** The step of TokensAppend where p starts with a match. */
  lemma TokensAppendMatch(p: string, q: string, t: Token)
    requires MatchPrefix(p) == Some(t) && MatchPrefix(p + q) == Some(t) && |TextOf(t)| < |p|
    requires Tokens(p[|TextOf(t)|..] + q) == Tokens(p[|TextOf(t)|..]) + Tokens(q)
    ensures Tokens(p + q) == Tokens(p) + Tokens(q)
  {
    var n := |TextOf(t)|;
    DropAppend(p, q, n);
    TokensAfterMatch(p, t);
    TokensAfterMatch(p + q, t);
    ConsAssoc(t, Tokens(p[n..]), Tokens(q));
  }

  /** The step of TokensAppend where p does not start with a match. */
  lemma TokensAppendChar(p: string, q: string)
    requires |p| > 0 && MatchPrefix(p).None? && MatchPrefix(p + q).None?
    requires Tokens(p[1..] + q) == Tokens(p[1..]) + Tokens(q)
    ensures Tokens(p + q) == Tokens(p) + Tokens(q)
  {
    DropAppend(p, q, 1);
    TokensAfterChar(p);
    TokensAfterChar(p + q);
  }

  /** Text that ends in a character outside [A-Z0-9] does not merge with what follows it:
      the references of p + q are those of p, then those of q. */
  lemma {:induction false} TokensAppend(p: string, q: string)
    requires |p| > 0 && !IsUpper(p[|p| - 1]) && !IsDigit(p[|p| - 1])
    ensures Tokens(p + q) == Tokens(p) + Tokens(q)
    decreases |p|
  {
    MatchPrefixAppend(p, q);
    match MatchPrefix(p)
    case Some(t) =>
      TokensAppend(p[|TextOf(t)|..], q);
      TokensAppendMatch(p, q, t);
    case None =>
      if |p| == 1 {
        assert p[1..] == [] && p[1..] + q == q;
      } else {
        TokensAppend(p[1..], q);
      }
      TokensAppendChar(p, q);
  }

  /** A text that starts with a match, not followed by a digit, yields that match first. */
  lemma TokensOfToken(t: Token, q: string)
    requires WellFormed(t)
    requires q == [] || !IsDigit(q[0])
    ensures Tokens(TextOf(t) + q) == [t] + Tokens(q)
  {
    var s := TextOf(t) + q;
    var rest := t.digits + q;
    assert s == t.letters + rest;
    assert rest[0] == t.digits[0];
    TakeRunOfConcat(t.letters, rest, Uppers);
    assert s[|t.letters|..] == rest;
    TakeRunOfConcat(t.digits, q, Digits);
    assert MatchPrefix(s) == Some(t);
    assert s[|TextOf(t)|..] == q;
  }

  /** A text that starts with the reference of a cell, not followed by a digit, yields that
      reference first. */
  lemma TokensOfRefName(row: nat, col: nat, q: string)
    requires q == [] || !IsDigit(q[0])
    ensures Tokens(RefName(row, col) + q) == [RefToken(row, col)] + Tokens(q)
  {
    TokensOfToken(RefToken(row, col), q);
  }

  predicate NoDigits(s: string)
  {
    forall k :: 0 <= k < |s| ==> !IsDigit(s[k])
  }

  /** Text without digits that does not end in an upper-case letter, then a reference. */
  lemma RefAfterText(p: string, row: nat, col: nat, q: string)
    requires |p| > 0 && !IsUpper(p[|p| - 1]) && NoDigits(p)
    requires q == [] || !IsDigit(q[0])
    ensures Tokens(p + RefName(row, col) + q) == [RefToken(row, col)] + Tokens(q)
  {
    assert p + RefName(row, col) + q == p + (RefName(row, col) + q);
    NoDigitNoTokens(p);
    TokensAppend(p, RefName(row, col) + q);
    TokensOfRefName(row, col, q);
  }

  /** A formula holding two references separated by text without digits, such as
      "=SUM(A1:B1)", yields exactly those two references. */
  lemma TwoReferences(p: string, r1: nat, c1: nat, m: string, r2: nat, c2: nat, q: string)
    requires |p| > 0 && !IsUpper(p[|p| - 1]) && |m| > 0 && !IsUpper(m[|m| - 1])
    requires NoDigits(p) && NoDigits(m) && NoDigits(q)
    ensures Tokens(p + RefName(r1, c1) + m + RefName(r2, c2) + q) == [RefToken(r1, c1), RefToken(r2, c2)]
  {
    var a, b := RefName(r1, c1), RefName(r2, c2);
    RegroupRight(p + a, m, b, q);
    RefAfterText(p, r1, c1, m + b + q);
    RefAfterText(m, r2, c2, q);
    NoDigitNoTokens(q);
    TwoTokens(RefToken(r1, c1), RefToken(r2, c2), Tokens(q));
  }

  /** The rewriting of a formula with two references: the one whose key comes first is
      rewritten first (the first of the two on a tie). */
  lemma ShiftTwoReferences(p: string, r1: nat, c1: nat, m: string, r2: nat, c2: nat, q: string,
                           d: Direction, index: int)
    requires |p| > 0 && !IsUpper(p[|p| - 1]) && |m| > 0 && !IsUpper(m[|m| - 1])
    requires NoDigits(p) && NoDigits(m) && NoDigits(q)
    ensures var t1, t2 := RefToken(r1, c1), RefToken(r2, c2);
            var b := p + RefName(r1, c1) + m + RefName(r2, c2) + q;
            ShiftBuffer(b, d, index) ==
              if Key(t1, d) <= Key(t2, d) then Step(Step(b, t1, d, index), t2, d, index)
              else Step(Step(b, t2, d, index), t1, d, index)
  {
    TwoReferences(p, r1, c1, m, r2, c2, q);
    ShiftTwo(p + RefName(r1, c1) + m + RefName(r2, c2) + q, RefToken(r1, c1), RefToken(r2, c2), d, index);
  }

  /** shiftBuffer on a buffer in which the scan finds two references. */
  lemma ShiftTwo(b: string, x: Token, y: Token, d: Direction, index: int)
    requires Tokens(b) == [x, y]
    ensures ShiftBuffer(b, d, index) ==
              if Key(x, d) <= Key(y, d) then Step(Step(b, x, d, index), y, d, index)
              else Step(Step(b, y, d, index), x, d, index)
  {
    SortTwo(x, y, d);
    ApplyTwo(b, x, y, d, index);
    ApplyTwo(b, y, x, d, index);
  }

  /** The sort of two references. */
  lemma SortTwo(x: Token, y: Token, d: Direction)
    ensures SortTokens([x, y], d) == if Key(x, d) <= Key(y, d) then [x, y] else [y, x]
  {
    assert [x, y][0] == x && [x, y][1..] == [y];
    assert SortTokens([y], d) == [y] by {
      assert [y][0] == y && [y][1..] == [];
    }
    assert InsertByKey(x, [y], d) == if Key(x, d) <= Key(y, d) then [x, y] else [y, x] by {
      assert [y][0] == y && [y][1..] == [];
    }
  }

  /** The forEach over two references. */
  lemma ApplyTwo(b: string, x: Token, y: Token, d: Direction, index: int)
    ensures ApplyShifts(b, [x, y], d, index) == Step(Step(b, x, d, index), y, d, index)
  {
    assert [x, y][..1] == [x] && [x, y][1] == y;
    assert [x][..0] == [];
    assert ApplyShifts(b, [x], d, index) == Step(ApplyShifts(b, [], d, index), x, d, index);
  }

  /** A text holding a single match between text without digits: the match is rewritten in
      place and nothing else changes. */
  lemma SingleToken(p: string, t: Token, q: string, d: Direction, index: int)
    requires WellFormed(t)
    requires |p| > 0 && !IsUpper(p[|p| - 1]) && t.letters[0] !in p
    requires NoDigits(p) && NoDigits(q)
    ensures ShiftBuffer(p + TextOf(t) + q, d, index) == p + ShiftToken(t, d, index) + q
  {
    var b := p + TextOf(t) + q;
    NoDigitNoTokens(p);
    NoDigitNoTokens(q);
    assert b == p + (TextOf(t) + q);
    TokensAppend(p, TextOf(t) + q);
    TokensOfToken(t, q);
    assert Tokens(b) == [t];
    assert SortTokens([t], d) == [t];
    assert [t][..0] == [];
    assert ApplyShifts(b, [t], d, index) == Step(b, t, d, index);
    if Shifted(t, d, index).Some? {
      forall j | 0 <= j < |p| ensures p[j] != TextOf(t)[0] {
        assert p[j] in p;
      }
      ReplaceFirstPast(p, TextOf(t), q, Shifted(t, d, index).value);
    }
  }

  /** A formula holding a single reference, such as "=REF(A1)": the reference is rewritten
      in place and nothing else changes. */
  lemma SingleReference(p: string, row: nat, col: nat, q: string, d: Direction, index: int)
    requires |p| > 0 && !IsUpper(p[|p| - 1]) && ColumnName(col)[0] !in p
    requires NoDigits(p) && NoDigits(q)
    ensures ShiftBuffer(p + RefName(row, col) + q, d, index) == p + ShiftToken(RefToken(row, col), d, index) + q
  {
    SingleToken(p, RefToken(row, col), q, d, index);
  }

  /** One step on a text whose first occurrence of the reference's text is the one after p. */
  lemma StepAt(p: string, t: Token, q: string, d: Direction, index: int, u: string)
    requires WellFormed(t) && Shifted(t, d, index) == Some(u)
    requires forall j {:trigger p[j]} :: 0 <= j < |p| ==> p[j] != TextOf(t)[0] || (j + 1 < |p| && p[j + 1] != TextOf(t)[1])
    ensures Step(p + TextOf(t) + q, t, d, index) == p + u + q
  {
    ReplaceFirstPast(p, TextOf(t), q, u);
  }

  /** Inserting row 0 moves a lone A1 written between texts without digits or the letter A
      to A2. */
  lemma RefMoveSteps(p: string, q: string)
    requires |p| > 0 && !IsUpper(p[|p| - 1]) && 'A' !in p
    requires NoDigits(p) && NoDigits(q)
    ensures ShiftBuffer(p + RefName(0, 0) + q, Down, 0) == p + RefName(1, 0) + q
  {
    FirstCellMoves();
    SingleReference(p, 0, 0, q, Down, 0);
  }

  /** Under "down" at 0, A1 becomes A2. */
  lemma FirstCellMoves()
    ensures ColumnName(0)[0] == 'A' && ShiftToken(RefToken(0, 0), Down, 0) == RefName(1, 0)
  {
    ShiftedDown(0, 0, 0);
    assert ColumnName(0) == "A";
  }

  /** Inserting row 0 rewrites the reference of "=REF(A1)" one row down. */
  lemma RefMovesDown(b: string)
    requires b == "=REF(A1)"
    ensures ShiftBuffer(b, Down, 0) == "=REF(A2)"
  {
    var p, q := "=REF(", ")";
    ColumnANames();
    assert b == p + RefName(0, 0) + q;
    RefMoveSteps(p, q);
    assert p + RefName(1, 0) + q == "=REF(A2)";
  }

  /** The names of the first rows of column A. */
  lemma ColumnANames()
    ensures RefName(0, 0) == "A1" && RefName(1, 0) == "A2" && RefName(2, 0) == "A3"
    ensures RefName(10, 0) == "A11" && RefName(11, 0) == "A12"
  {
    assert ColumnName(0) == "A";
    assert NatToString(1) == "1" && NatToString(2) == "2" && NatToString(3) == "3";
    assert NatToString(11) == NatToString(1) + "1";
    assert NatToString(12) == NatToString(1) + "2";
  }

  /** A reference is replaced where it stands when the text before it holds no character
      equal to the reference's first one. */
  lemma StepAfter(p: string, t: Token, q: string, d: Direction, index: int, u: string)
    requires WellFormed(t) && Shifted(t, d, index) == Some(u) && TextOf(t)[0] !in p
    ensures Step(p + TextOf(t) + q, t, d, index) == p + u + q
  {
    forall j | 0 <= j < |p| ensures p[j] != TextOf(t)[0] {
      assert p[j] in p;
    }
    StepAt(p, t, q, d, index, u);
  }

  /** A two-character reference's text cannot start inside it or just behind the text
      before it when the second one's characters differ from its last: the later reference
      is then replaced where it stands. */
  lemma StepPastFirst(p: string, x: Token, m: string, y: Token, q: string, d: Direction, index: int,
                      v: string)
    requires WellFormed(y) && Shifted(y, d, index) == Some(v)
    requires |TextOf(x)| == 2 && TextOf(x)[1] != TextOf(y)[0] && TextOf(x)[1] != TextOf(y)[1]
    requires TextOf(y)[0] !in p && TextOf(y)[0] !in m
    ensures Step(p + TextOf(x) + m + TextOf(y) + q, y, d, index) == p + TextOf(x) + m + v + q
  {
    var front := p + TextOf(x) + m;
    forall j | 0 <= j < |front|
      ensures front[j] != TextOf(y)[0] || (j + 1 < |front| && front[j + 1] != TextOf(y)[1])
    {
      if j < |p| {
        assert front[j] == p[j] && p[j] in p;
      } else if j == |p| {
        assert front[j + 1] == TextOf(x)[1];
      } else if j == |p| + 1 {
        assert front[j] == TextOf(x)[1];
      } else {
        assert front[j] == m[j - |p| - 2] && m[j - |p| - 2] in m;
      }
    }
    StepAt(front, y, q, d, index, v);
  }

  /** Two references whose second one moves first, when the text of neither occurs before
      it: each is replaced where it stands. */
  lemma RangeShift(p: string, x: Token, m: string, y: Token, q: string, d: Direction, index: int,
                   u: string, v: string)
    requires WellFormed(x) && WellFormed(y)
    requires Tokens(p + TextOf(x) + m + TextOf(y) + q) == [x, y]
    requires Key(y, d) < Key(x, d)
    requires Shifted(x, d, index) == Some(u) && Shifted(y, d, index) == Some(v)
    requires |TextOf(x)| == 2 && TextOf(x)[1] != TextOf(y)[0] && TextOf(x)[1] != TextOf(y)[1]
    requires TextOf(x)[0] !in p && TextOf(y)[0] !in p && TextOf(y)[0] !in m
    ensures ShiftBuffer(p + TextOf(x) + m + TextOf(y) + q, d, index) == p + u + m + v + q
  {
    ShiftTwo(p + TextOf(x) + m + TextOf(y) + q, x, y, d, index);
    StepPastFirst(p, x, m, y, q, d, index, v);
    RegroupRight(p + TextOf(x), m, v, q);
    StepAfter(p, x, m + v + q, d, index, u);
    RegroupRight(p + u, m, v, q);
  }

  /** Inserting a row above row 1 moves both ends of a range A1..A2 written between any
      texts without digits or the letter A: the lower end is rewritten first, into A3, and
      then A1 into A2. */
  lemma RangeSteps(p: string, m: string, q: string)
    requires |p| > 0 && !IsUpper(p[|p| - 1]) && |m| > 0 && !IsUpper(m[|m| - 1])
    requires NoDigits(p) && NoDigits(m) && NoDigits(q) && 'A' !in p && 'A' !in m
    ensures ShiftBuffer(p + RefName(0, 0) + m + RefName(1, 0) + q, Down, 0) ==
              p + RefName(1, 0) + m + RefName(2, 0) + q
  {
    var x, y := RefToken(0, 0), RefToken(1, 0);
    TwoReferences(p, 0, 0, m, 1, 0, q);
    ShiftedDown(0, 0, 0);
    ShiftedDown(1, 0, 0);
    assert TextOf(x) == "A1" && TextOf(y) == "A2" by {
      ColumnANames();
    }
    RangeShift(p, x, m, y, q, Down, 0, RefName(1, 0), RefName(2, 0));
  }

  /** Inserting a row above row 1 turns "=SUM(A1:A2)" into "=SUM(A2:A3)". */
  lemma RangeMovesDown(b: string)
    requires b == "=SUM(A1:A2)"
    ensures ShiftBuffer(b, Down, 0) == "=SUM(A2:A3)"
  {
    var p, m, q := "=SUM(", ":", ")";
    ColumnANames();
    assert b == p + RefName(0, 0) + m + RefName(1, 0) + q;
    RangeSteps(p, m, q);
    assert p + RefName(1, 0) + m + RefName(2, 0) + q == "=SUM(A2:A3)";
  }

  /** Two references whose first one moves first and whose first one's new text begins with
      the text of the second: the second replacement then lands inside the first one. */
  lemma OverlapShift(p: string, x: Token, m: string, y: Token, q: string, d: Direction, index: int,
                     v: string, w: string)
    requires WellFormed(x) && WellFormed(y)
    requires Tokens(p + TextOf(x) + m + TextOf(y) + q) == [x, y]
    requires Key(x, d) <= Key(y, d)
    requires Shifted(x, d, index) == Some(TextOf(y) + w) && Shifted(y, d, index) == Some(v)
    requires TextOf(x)[0] !in p && TextOf(y)[0] !in p
    ensures ShiftBuffer(p + TextOf(x) + m + TextOf(y) + q, d, index) == p + v + w + (m + TextOf(y) + q)
  {
    var rest := m + TextOf(y) + q;
    ShiftTwo(p + TextOf(x) + m + TextOf(y) + q, x, y, d, index);
    RegroupRight(p + TextOf(x), m, TextOf(y), q);
    StepAfter(p, x, rest, d, index, TextOf(y) + w);
    RegroupMiddle(p, TextOf(y), w, rest);
    StepAfter(p, y, w + rest, d, index, v);
    RegroupMiddle(p, v, w, rest);
  }

  /** Inserting a row above row 1 where A11 is written before A1, between any texts without
      digits or the letter A: A11 is rewritten first, into A12, and the replacement of A1 by
      A2 then hits the first occurrence of the text "A1", which is the start of that A12. */
  lemma OverlapSteps(p: string, m: string, q: string)
    requires |p| > 0 && !IsUpper(p[|p| - 1]) && |m| > 0 && !IsUpper(m[|m| - 1])
    requires NoDigits(p) && NoDigits(m) && NoDigits(q) && 'A' !in p
    ensures ShiftBuffer(p + RefName(10, 0) + m + RefName(0, 0) + q, Down, 0) ==
              p + RefName(1, 0) + "2" + (m + RefName(0, 0) + q)
  {
    TwoReferences(p, 10, 0, m, 0, 0, q);
    OverlapMoves();
    OverlapShift(p, RefToken(10, 0), m, RefToken(0, 0), q, Down, 0, RefName(1, 0), "2");
  }

  /** Under "down" at 0, A11 becomes A12, which is A1 followed by "2", and A1 becomes A2. */
  lemma OverlapMoves()
    ensures Shifted(RefToken(10, 0), Down, 0) == Some(TextOf(RefToken(0, 0)) + "2")
    ensures Shifted(RefToken(0, 0), Down, 0) == Some(RefName(1, 0))
    ensures TextOf(RefToken(10, 0))[0] == 'A' && TextOf(RefToken(0, 0))[0] == 'A'
  {
    ShiftedDown(10, 0, 0);
    ShiftedDown(0, 0, 0);
    ColumnANames();
    assert TextOf(RefToken(0, 0)) + "2" == "A1" + "2" == "A12";
  }

  /** Inserting a row above row 1 turns "=SUM(A11,A1)" into "=SUM(A22,A1)": the text
      replacement of each reference acts on its first occurrence in the whole buffer, which
      need not be the reference that was scanned. */
  lemma OverlappingReferences(b: string)
    requires b == "=SUM(A11,A1)"
    ensures ShiftBuffer(b, Down, 0) == "=SUM(A22,A1)"
  {
    var p, m, q := "=SUM(", ",", ")";
    ColumnANames();
    assert b == p + RefName(10, 0) + m + RefName(0, 0) + q;
    OverlapSteps(p, m, q);
    assert p + RefName(1, 0) + "2" + (m + RefName(0, 0) + q) == "=SUM(A22,A1)";
  }

  // ---------------------------------------------------------------------------------------
  // Proof helpers: regrouping steps on texts and token lists that the proofs above call to
  // keep each concatenation in the shape the next step expects. They model nothing.

  lemma DropAppend(p: string, q: string, n: nat)
    requires n <= |p|
    ensures (p + q)[n..] == p[n..] + q
  {
  }

  lemma ConsAssoc(t: Token, a: seq<Token>, b: seq<Token>)
    ensures ([t] + a) + b == [t] + (a + b)
  {
  }

  lemma TwoTokens(x: Token, y: Token, e: seq<Token>)
    requires e == []
    ensures [x] + ([y] + e) == [x, y]
  {
  }

  lemma RegroupRight(a: string, b: string, c: string, e: string)
    ensures a + b + c + e == a + (b + c + e)
  {
  }

  lemma RegroupMiddle(a: string, b: string, c: string, e: string)
    ensures a + (b + c) + e == a + b + (c + e)
  {
  }
}
