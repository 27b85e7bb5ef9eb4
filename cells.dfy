/** SpreadsheetCellModel: one cell's entered text (the buffer), the text it shows (the
    display) and the references of the cells whose formulas read it (its dependencies),
    an insertion-ordered set. */
module Cells {
  import opened Wrappers
  import opened Text
  import opened Coordinates

  /** The text a cell shows when evaluation fails. */
  const ERR: string := "!ERR"

  datatype Cell = Cell(buffer: string, display: string, deps: seq<string>)

  /** A freshly constructed cell: empty buffer and display, no dependencies. */
  const EmptyCell: Cell := Cell("", "", [])

  predicate NoDuplicates(s: seq<string>)
  {
    forall i, j :: 0 <= i < j < |s| ==> s[i] != s[j]
  }

  // ---------------------------------------------------------------------------------------
  // setBuffer

  /** One operand of a string concatenation: a letter followed by letters and digits. */
  predicate IsWord(w: string)
  {
    |w| > 0 && IsLetter(w[0]) && forall i :: 0 <= i < |w| ==> IsAlnum(w[i])
  }

  /** The pattern ^[a-zA-Z][a-zA-Z0-9]*(\+[a-zA-Z][a-zA-Z0-9]*)*$ : words joined by single '+'. */
  predicate IsConcatenation(r: string)
  {
    var words := Split(r, '+');
    forall i :: 0 <= i < |words| ==> IsWord(words[i])
  }

  /** The display setBuffer computes for an evaluated formula text `r`: a concatenation is
      split at '+' and joined back; anything else goes to the expression evaluator, whose
      failure or "undefined" / " Infinity" text shows as the error text. */
  function EvaluatedDisplay(r: string, evaluate: string -> Option<string>): string
  {
    if IsConcatenation(r) then Join(Split(r, '+'))
    else
      match evaluate(r)
      case None => ERR
      case Some(t) => if t == "undefined" || t == " Infinity" then ERR else t
  }

  /** setBuffer(buffer, replacedBuffer?): stores the buffer; the display is the buffer itself
      when no evaluated text is given, and is computed from the evaluated text otherwise. */
  function SetBuffer(c: Cell, buffer: string, replaced: Option<string>,
                     evaluate: string -> Option<string>): (r: Cell)
    ensures r.buffer == buffer && r.deps == c.deps
    ensures replaced.None? ==> r.display == buffer
    ensures replaced.Some? && IsConcatenation(replaced.value) ==>
              r.display == Without(replaced.value, '+') && '+' !in r.display
    ensures replaced.Some? && !IsConcatenation(replaced.value) && evaluate(replaced.value).None? ==>
              r.display == ERR
    ensures replaced.Some? && !IsConcatenation(replaced.value) && evaluate(replaced.value).Some? ==>
              var t := evaluate(replaced.value).value;
              r.display == if t == "undefined" || t == " Infinity" then ERR else t
  {
    match replaced
    case None => c.(buffer := buffer, display := buffer)
    case Some(t) =>
      if IsConcatenation(t) then
        JoinSplit(t, '+');
        WithoutRemoves(t, '+');
        c.(buffer := buffer, display := EvaluatedDisplay(t, evaluate))
      else
        c.(buffer := buffer, display := EvaluatedDisplay(t, evaluate))
  }

  /** Splitting at a character and joining the pieces deletes every occurrence of it. */
  lemma {:induction false} JoinSplit(s: string, sep: char)
    ensures Join(Split(s, sep)) == Without(s, sep)
  {
    if s != [] {
      JoinSplit(s[1..], sep);
      var rest := Split(s[1..], sep);
      if s[0] != sep {
        assert Join(rest) == rest[0] + Join(rest[1..]);
        var parts := [[s[0]] + rest[0]] + rest[1..];
        assert parts[1..] == rest[1..];
        assert Join(parts) == [s[0]] + rest[0] + Join(rest[1..]);
      } else {
        assert ([[]] + rest)[1..] == rest;
      }
    }
  }

  lemma {:induction false} WithoutRemoves(s: string, c: char)
    ensures c !in Without(s, c)
  {
    if s != [] {
      WithoutRemoves(s[1..], c);
    }
  }

  /** clearCell: empties buffer and display and keeps the dependencies. */
  function ClearCell(c: Cell): (r: Cell)
    ensures r.buffer == "" && r.display == "" && r.deps == c.deps
  {
    c.(buffer := "", display := "")
  }

  // ---------------------------------------------------------------------------------------
  // The dependency set

  /** Set.add on an insertion-ordered set. */
  function Insert(s: seq<string>, x: string): (r: seq<string>)
    ensures s <= r && x in r
    ensures forall y :: y in r <==> y in s || y == x
    ensures NoDuplicates(s) ==> NoDuplicates(r)
    ensures x in s ==> r == s
  {
    if x in s then s else s + [x]
  }

  /** Set.delete on an insertion-ordered set. */
  function Delete(s: seq<string>, x: string): (r: seq<string>)
    ensures forall y :: y in r <==> y in s && y != x
    ensures |r| <= |s|
    ensures NoDuplicates(s) ==> NoDuplicates(r)
    ensures x !in s ==> r == s
  {
    if s == [] then []
    else
      var rest := Delete(s[1..], x);
      if s[0] == x then rest
      else
        assert forall y :: y in [s[0]] + rest <==> y == s[0] || y in rest;
        assert NoDuplicates(s) ==> s[0] !in s[1..] && NoDuplicates(s[1..]);
        [s[0]] + rest
  }

  /** In a set without repeats, deleting the element at position `i` closes the gap and keeps
      the order of the others. */
  lemma {:induction false} DeleteSplices(s: seq<string>, i: nat)
    requires NoDuplicates(s) && i < |s|
    ensures Delete(s, s[i]) == s[..i] + s[i + 1..]
  {
    if i == 0 {
      assert s[0] !in s[1..];
      assert s == [s[0]] + s[1..];
    } else {
      assert NoDuplicates(s[1..]);
      DeleteSplices(s[1..], i - 1);
      assert s[1..][i - 1] == s[i];
      assert s[1..][..i - 1] + s[1..][i..] == s[1..i] + s[i + 1..];
      assert s[..i] + s[i + 1..] == [s[0]] + (s[1..i] + s[i + 1..]);
    }
  }

  /** DeleteSplices at every position where `x` sits. */
  lemma DeleteSplicesAt(s: seq<string>, x: string)
    ensures NoDuplicates(s) ==> forall i :: 0 <= i < |s| && s[i] == x ==> Delete(s, x) == s[..i] + s[i + 1..]
  {
    if NoDuplicates(s) {
      forall i | 0 <= i < |s| && s[i] == x
        ensures Delete(s, x) == s[..i] + s[i + 1..]
      {
        DeleteSplices(s, i);
      }
    }
  }

  /** addDependency: registers `r` as a dependent; text and display are untouched. */
  function AddDependency(c: Cell, r: string): (c': Cell)
    ensures c'.buffer == c.buffer && c'.display == c.display
    ensures c.deps <= c'.deps && forall y :: y in c'.deps <==> y in c.deps || y == r
    ensures NoDuplicates(c.deps) ==> NoDuplicates(c'.deps)
    ensures r in c.deps ==> c' == c
  {
    c.(deps := Insert(c.deps, r))
  }

  /** removeDependency: forgets `r` as a dependent; text and display are untouched. */
  function RemoveDependency(c: Cell, r: string): (c': Cell)
    ensures c'.buffer == c.buffer && c'.display == c.display
    ensures forall y :: y in c'.deps <==> y in c.deps && y != r
    ensures NoDuplicates(c.deps) ==> NoDuplicates(c'.deps)
    ensures r !in c.deps ==> c' == c
    ensures NoDuplicates(c.deps) ==>
              forall i :: 0 <= i < |c.deps| && c.deps[i] == r ==> c'.deps == c.deps[..i] + c.deps[i + 1..]
  {
    DeleteSplicesAt(c.deps, r);
    c.(deps := Delete(c.deps, r))
  }

  /** Listing the dependencies after two insertions: in insertion order, without repeats. */
  lemma AddDependencyOrder(a: string, b: string)
    ensures AddDependency(AddDependency(EmptyCell, a), b).deps == if a == b then [a] else [a, b]
  {
  }

  // ---------------------------------------------------------------------------------------
  // shiftCellDependencies

  /** The arguments (down, right, rowIndex, colIndex) of shiftCellDependencies. */
  datatype Edit = Edit(down: int, right: int, rowIndex: int, colIndex: int)

  /** The edits the page applies to every cell when it inserts or removes a row or column. */
  function RowInserted(index: int): Edit { Edit(1, 0, index, -1) }
  function RowRemoved(index: int): Edit { Edit(-1, 0, index, -1) }
  function ColumnInserted(index: int): Edit { Edit(0, 1, -1, index) }
  function ColumnRemoved(index: int): Edit { Edit(0, -1, -1, index) }

  /** Where a dependent at zero-based (row, col) goes under edit `e`: nowhere if it sits on the
      removed row or column; otherwise its row moves if it is at or past the inserted row (past
      the removed row), else its column moves likewise. */
  function Relocate(row: int, col: int, e: Edit): Option<(int, int)>
  {
    if (row == e.rowIndex && e.down < 0) || (col == e.colIndex && e.right < 0) then None
    else if (row >= e.rowIndex && e.down > 0) || (row > e.rowIndex && e.down < 0) then Some((row + e.down, col))
    else if (col >= e.colIndex && e.right > 0) || (col > e.colIndex && e.right < 0) then Some((row, col + e.right))
    else Some((row, col))
  }

  /** The reference the source builds for (row, col): getColumnName(col) + (row + 1). */
  function NameOf(row: int, col: int): string
  {
    ColumnName(col) + IntToString(row + 1)
  }

  datatype Moved = Unparsable | Dropped | MovedTo(name: string)

  /** What happens to one dependency under edit `e`. */
  function Move(d: string, e: Edit): Moved
  {
    var rowCol := RowColFromReference(d);
    if rowCol.None? then Unparsable
    else
      var target := Relocate(rowCol.value.0, rowCol.value.1, e);
      if target.None? then Dropped else MovedTo(NameOf(target.value.0, target.value.1))
  }

  /** What happens to each dependency, in order. */
  function Moves(deps: seq<string>, e: Edit): (ms: seq<Moved>)
    ensures |ms| == |deps| && forall i :: 0 <= i < |deps| ==> ms[i] == Move(deps[i], e)
  {
    if deps == [] then [] else Moves(deps[..|deps| - 1], e) + [Move(deps[|deps| - 1], e)]
  }

  /** Adding the moved names one by one to a new set; None as soon as one does not parse. */
  function Collect(ms: seq<Moved>): Option<seq<string>>
  {
    if ms == [] then Some([])
    else
      match Collect(ms[..|ms| - 1])
      case None => None
      case Some(acc) =>
        match ms[|ms| - 1]
        case Unparsable => None
        case Dropped => Some(acc)
        case MovedTo(name) => Some(Insert(acc, name))
  }

  /** The set shiftCellDependencies builds: each dependency in turn is moved and added to a new
      set. None when some dependency is not a reference: the source then throws before it
      replaces the old set. */
  function ShiftDependencies(deps: seq<string>, e: Edit): Option<seq<string>>
  {
    Collect(Moves(deps, e))
  }

  /** Once a prefix fails to parse, the whole collection fails. */
  lemma {:induction false} CollectFailurePersists(ms: seq<Moved>, k: nat)
    requires k <= |ms| && Collect(ms[..k]) == None
    ensures Collect(ms) == None
    decreases |ms| - k
  {
    if k < |ms| {
      assert ms[..k + 1][..k] == ms[..k];
      CollectFailurePersists(ms, k + 1);
    } else {
      assert ms[..k] == ms;
    }
  }

  /** Moving a prefix of the dependencies is a prefix of moving them all. */
  lemma MovesPrefix(deps: seq<string>, e: Edit, k: nat)
    requires k <= |deps|
    ensures Moves(deps[..k], e) == Moves(deps, e)[..k]
  {
  }

  /** One step of the fold. */
  lemma CollectStep(ms: seq<Moved>, m: Moved)
    ensures Collect(ms + [m]) ==
              match Collect(ms)
              case None => None
              case Some(acc) =>
                match m
                case Unparsable => None
                case Dropped => Some(acc)
                case MovedTo(name) => Some(Insert(acc, name))
  {
    assert (ms + [m])[..|ms + [m]| - 1] == ms;
  }

  /** What happens to a dependency that parses as (row, col). */
  lemma MoveParsed(d: string, e: Edit, row: int, col: int)
    requires RowColFromReference(d) == Some((row, col))
    ensures Relocate(row, col, e).None? ==> Move(d, e) == Dropped
    ensures Relocate(row, col, e).Some? ==>
              Move(d, e) == MovedTo(NameOf(Relocate(row, col, e).value.0, Relocate(row, col, e).value.1))
  {
  }

  /** The body of shiftCellDependencies' loop for one dependency. */
  method MoveDependency(dependency: string, e: Edit) returns (moved: Moved)
    ensures moved == Move(dependency, e)
  {
    var rowCol := RowColFromReference(dependency);
    if rowCol.None? {
      return Unparsable;
    }
    var row0, col0 := rowCol.value.0, rowCol.value.1;
    MoveParsed(dependency, e, row0, col0);
    var row, col := row0, col0;
    if (row == e.rowIndex && e.down < 0) || (col == e.colIndex && e.right < 0) {
      return Dropped;
    }
    if (row >= e.rowIndex && e.down > 0) || (row > e.rowIndex && e.down < 0) {
      row := row + e.down;
    } else if (col >= e.colIndex && e.right > 0) || (col > e.colIndex && e.right < 0) {
      col := col + e.right;
    }
    assert Relocate(row0, col0, e) == Some((row, col));
    var columnName := GetColumnName(col);
    assert columnName + IntToString(row + 1) == NameOf(row, col);
    return MovedTo(columnName + IntToString(row + 1));
  }

  /** shiftCellDependencies: rebuilds the dependency set under edit `e`; the buffer and the
      display stay as they were. */
  method ShiftCellDependencies(cell: Cell, e: Edit) returns (result: Outcome<Cell>)
    ensures ShiftDependencies(cell.deps, e).None? ==> result == Thrown(NULL_ERROR)
    ensures ShiftDependencies(cell.deps, e).Some? ==>
              result == Done(cell.(deps := ShiftDependencies(cell.deps, e).value))
  {
    ghost var ms := Moves(cell.deps, e);
    var newDependencies: seq<string> := [];
    var i := 0;
    while i < |cell.deps|
      invariant 0 <= i <= |cell.deps|
      invariant Collect(ms[..i]) == Some(newDependencies)
    {
      var dependency := cell.deps[i];
      var moved := MoveDependency(dependency, e);
      TakeOneMore(ms, i);
      CollectStep(ms[..i], moved);
      match moved {
        case Unparsable =>
          CollectFailurePersists(ms, i + 1);
          return Thrown(NULL_ERROR);
        case Dropped =>
        case MovedTo(newReference) =>
          newDependencies := Insert(newDependencies, newReference);
      }
      i := i + 1;
    }
    TakeAll(ms);
    return Done(cell.(deps := newDependencies));
  }

  // ---------------------------------------------------------------------------------------
  // What shifting does to well-formed dependency sets

  /** A dependency as the page records it: the reference name of a cell. */
  predicate IsRef(d: string)
  {
    match RowColFromReference(d)
    case Some((row, col)) => row >= 0 && col >= 0 && d == RefName(row, col)
    case None => false
  }

  function RowOf(d: string): nat
    requires IsRef(d)
  {
    RowColFromReference(d).value.0
  }

  function ColOf(d: string): nat
    requires IsRef(d)
  {
    RowColFromReference(d).value.1
  }

  /** The reference name of every cell coordinate is a well-formed dependency. */
  lemma RefNameIsRef(row: nat, col: nat)
    ensures IsRef(RefName(row, col)) && RowOf(RefName(row, col)) == row && ColOf(RefName(row, col)) == col
  {
    RowColOfRefName(row, col);
  }

  /** Reference definition of the shifted set: the names moved to, in the old order, the
      dropped dependencies left out, no deduplication. */
  function Kept(ms: seq<Moved>): (r: seq<string>)
    ensures |r| <= |ms|
  {
    if ms == [] then []
    else
      var rest := Kept(ms[..|ms| - 1]);
      match ms[|ms| - 1]
      case MovedTo(name) => rest + [name]
      case _ => rest
  }

  /** The reference holds exactly the names something moves to. */
  lemma {:induction false} KeptMembers(ms: seq<Moved>)
    ensures forall x :: x in Kept(ms) <==> MovedTo(x) in ms
  {
    if ms != [] {
      var p := ms[..|ms| - 1];
      KeptMembers(p);
      assert ms == p + [ms[|ms| - 1]];
    }
  }

  /** When nothing fails to parse and no two dependencies move to the same name, the set
      semantics merges nothing: the new set is the reference, without repeats. */
  lemma {:induction false} CollectWithoutCollisions(ms: seq<Moved>)
    requires forall i :: 0 <= i < |ms| ==> !ms[i].Unparsable?
    requires forall i, j :: 0 <= i < j < |ms| && ms[j].MovedTo? ==> ms[i] != ms[j]
    ensures Collect(ms) == Some(Kept(ms))
    ensures NoDuplicates(Kept(ms))
  {
    if ms != [] {
      var p, m := ms[..|ms| - 1], ms[|ms| - 1];
      assert ms == p + [m];
      CollectWithoutCollisions(p);
      CollectStep(p, m);
      if m.MovedTo? {
        KeptMembers(p);
      }
    }
  }

  /** When nothing is dropped, the reference keeps the count and goes position by position. */
  lemma {:induction false} KeptAll(ms: seq<Moved>)
    requires forall i :: 0 <= i < |ms| ==> ms[i].MovedTo?
    ensures |Kept(ms)| == |ms|
    ensures forall i :: 0 <= i < |ms| ==> Kept(ms)[i] == ms[i].name
  {
    if ms != [] {
      KeptAll(ms[..|ms| - 1]);
    }
  }

  /** A well-formed dependency relocated to non-negative coordinates moves to their name. */
  lemma MoveOfRef(d: string, e: Edit, row: nat, col: nat)
    requires IsRef(d) && Relocate(RowOf(d), ColOf(d), e) == Some((row, col))
    ensures Move(d, e) == MovedTo(RefName(row, col))
  {
  }

  /** Distinct well-formed dependencies under an edit that relocates injectively onto
      non-negative coordinates: every one parses and no two collide. */
  lemma NoCollisions(deps: seq<string>, e: Edit)
    requires forall i :: 0 <= i < |deps| ==> IsRef(deps[i])
    requires NoDuplicates(deps)
    requires forall i :: 0 <= i < |deps| ==> var t := Relocate(RowOf(deps[i]), ColOf(deps[i]), e);
               t.Some? ==> t.value.0 >= 0 && t.value.1 >= 0
    requires forall r1: nat, c1: nat, r2: nat, c2: nat ::
               Relocate(r1, c1, e).Some? && Relocate(r1, c1, e) == Relocate(r2, c2, e) ==> r1 == r2 && c1 == c2
    ensures forall i :: 0 <= i < |deps| ==> !Move(deps[i], e).Unparsable?
    ensures forall i, j :: 0 <= i < j < |deps| && Move(deps[j], e).MovedTo? ==> Move(deps[i], e) != Move(deps[j], e)
  {
    forall i, j | 0 <= i < j < |deps| && Move(deps[j], e).MovedTo?
      ensures Move(deps[i], e) != Move(deps[j], e)
    {
      var ti := Relocate(RowOf(deps[i]), ColOf(deps[i]), e);
      var tj := Relocate(RowOf(deps[j]), ColOf(deps[j]), e);
      assert deps[i] != deps[j];
      if ti.Some? {
        MoveOfRef(deps[i], e, ti.value.0, ti.value.1);
        MoveOfRef(deps[j], e, tj.value.0, tj.value.1);
        RefNameDistinct(ti.value.0, ti.value.1, tj.value.0, tj.value.1);
      }
    }
  }

  /** Where each well-formed dependency goes when a row is inserted at `index`. */
  lemma RowInsertionMoves(deps: seq<string>, index: int)
    requires forall i :: 0 <= i < |deps| ==> IsRef(deps[i])
    ensures forall i :: 0 <= i < |deps| ==>
              (Move(deps[i], RowInserted(index)) == MovedTo(RefName(if RowOf(deps[i]) >= index then RowOf(deps[i]) + 1 else RowOf(deps[i]), ColOf(deps[i]))))
  {
    var e := RowInserted(index);
    forall i | 0 <= i < |deps|
      ensures Move(deps[i], e) == MovedTo(RefName(if RowOf(deps[i]) >= index then RowOf(deps[i]) + 1 else RowOf(deps[i]), ColOf(deps[i])))
    {
      MoveOfRef(deps[i], e, if RowOf(deps[i]) >= index then RowOf(deps[i]) + 1 else RowOf(deps[i]), ColOf(deps[i]));
    }
  }

  /** Inserting a row at `index`: every dependent keeps its place in the set; those on or
      below the new row move one row down, the others stay. */
  lemma RowInsertionShiftsDependents(deps: seq<string>, index: int)
    requires forall i :: 0 <= i < |deps| ==> IsRef(deps[i])
    requires NoDuplicates(deps)
    ensures var r := ShiftDependencies(deps, RowInserted(index));
            r.Some? && |r.value| == |deps| && NoDuplicates(r.value) &&
            forall i :: 0 <= i < |deps| ==>
              r.value[i] == RefName(if RowOf(deps[i]) >= index then RowOf(deps[i]) + 1 else RowOf(deps[i]), ColOf(deps[i]))
  {
    var e := RowInserted(index);
    NoCollisions(deps, e);
    CollectWithoutCollisions(Moves(deps, e));
    RowInsertionMoves(deps, index);
    KeptAll(Moves(deps, e));
  }

  /** Where each well-formed dependency goes when a column is inserted at `index`. */
  lemma ColumnInsertionMoves(deps: seq<string>, index: int)
    requires forall i :: 0 <= i < |deps| ==> IsRef(deps[i])
    ensures forall i :: 0 <= i < |deps| ==>
              (Move(deps[i], ColumnInserted(index)) == MovedTo(RefName(RowOf(deps[i]), if ColOf(deps[i]) >= index then ColOf(deps[i]) + 1 else ColOf(deps[i]))))
  {
    var e := ColumnInserted(index);
    forall i | 0 <= i < |deps|
      ensures Move(deps[i], e) == MovedTo(RefName(RowOf(deps[i]), if ColOf(deps[i]) >= index then ColOf(deps[i]) + 1 else ColOf(deps[i])))
    {
      MoveOfRef(deps[i], e, RowOf(deps[i]), if ColOf(deps[i]) >= index then ColOf(deps[i]) + 1 else ColOf(deps[i]));
    }
  }

  /** Inserting a column at `index`: every dependent keeps its place in the set; those at or
      right of the new column move one column right, the others stay. */
  lemma ColumnInsertionShiftsDependents(deps: seq<string>, index: int)
    requires forall i :: 0 <= i < |deps| ==> IsRef(deps[i])
    requires NoDuplicates(deps)
    ensures var r := ShiftDependencies(deps, ColumnInserted(index));
            r.Some? && |r.value| == |deps| && NoDuplicates(r.value) &&
            forall i :: 0 <= i < |deps| ==>
              r.value[i] == RefName(RowOf(deps[i]), if ColOf(deps[i]) >= index then ColOf(deps[i]) + 1 else ColOf(deps[i]))
  {
    var e := ColumnInserted(index);
    NoCollisions(deps, e);
    CollectWithoutCollisions(Moves(deps, e));
    ColumnInsertionMoves(deps, index);
    KeptAll(Moves(deps, e));
  }

  /** Where each well-formed dependency goes when row `index` is removed. */
  lemma RowRemovalMoves(deps: seq<string>, index: nat)
    requires forall i :: 0 <= i < |deps| ==> IsRef(deps[i])
    ensures forall i :: 0 <= i < |deps| ==> (RowOf(deps[i]) == index ==> Move(deps[i], RowRemoved(index)) == Dropped)
    ensures forall i :: 0 <= i < |deps| ==> (RowOf(deps[i]) != index ==> Move(deps[i], RowRemoved(index)) == MovedTo(RefName(if RowOf(deps[i]) > index then RowOf(deps[i]) - 1 else RowOf(deps[i]), ColOf(deps[i]))))
  {
    var e := RowRemoved(index);
    forall i | 0 <= i < |deps|
      ensures RowOf(deps[i]) == index ==> Move(deps[i], e) == Dropped
      ensures RowOf(deps[i]) != index ==>
                Move(deps[i], e) == MovedTo(RefName(if RowOf(deps[i]) > index then RowOf(deps[i]) - 1 else RowOf(deps[i]), ColOf(deps[i])))
    {
      if RowOf(deps[i]) != index {
        MoveOfRef(deps[i], e, if RowOf(deps[i]) > index then RowOf(deps[i]) - 1 else RowOf(deps[i]), ColOf(deps[i]));
      }
    }
  }

  /** Removing row `index`: dependents on that row are forgotten, those below it move one row
      up, the others stay; the new set holds exactly these names, without repeats. */
  lemma RowRemovalShiftsDependents(deps: seq<string>, index: nat)
    requires forall i :: 0 <= i < |deps| ==> IsRef(deps[i])
    requires NoDuplicates(deps)
    ensures var r := ShiftDependencies(deps, RowRemoved(index));
            r.Some? && |r.value| <= |deps| && NoDuplicates(r.value) &&
            (forall i :: 0 <= i < |deps| && RowOf(deps[i]) != index ==>
               RefName(if RowOf(deps[i]) > index then RowOf(deps[i]) - 1 else RowOf(deps[i]), ColOf(deps[i])) in r.value) &&
            (forall x :: x in r.value ==>
               exists i :: 0 <= i < |deps| && RowOf(deps[i]) != index &&
                 x == RefName(if RowOf(deps[i]) > index then RowOf(deps[i]) - 1 else RowOf(deps[i]), ColOf(deps[i])))
  {
    var e := RowRemoved(index);
    NoCollisions(deps, e);
    CollectWithoutCollisions(Moves(deps, e));
    KeptMembers(Moves(deps, e));
    RowRemovalMoves(deps, index);
  }

  /** Where each well-formed dependency goes when column `index` is removed. */
  lemma ColumnRemovalMoves(deps: seq<string>, index: nat)
    requires forall i :: 0 <= i < |deps| ==> IsRef(deps[i])
    ensures forall i :: 0 <= i < |deps| ==> (ColOf(deps[i]) == index ==> Move(deps[i], ColumnRemoved(index)) == Dropped)
    ensures forall i :: 0 <= i < |deps| ==> (ColOf(deps[i]) != index ==> Move(deps[i], ColumnRemoved(index)) == MovedTo(RefName(RowOf(deps[i]), if ColOf(deps[i]) > index then ColOf(deps[i]) - 1 else ColOf(deps[i]))))
  {
    var e := ColumnRemoved(index);
    forall i | 0 <= i < |deps|
      ensures ColOf(deps[i]) == index ==> Move(deps[i], e) == Dropped
      ensures ColOf(deps[i]) != index ==>
                Move(deps[i], e) == MovedTo(RefName(RowOf(deps[i]), if ColOf(deps[i]) > index then ColOf(deps[i]) - 1 else ColOf(deps[i])))
    {
      if ColOf(deps[i]) != index {
        MoveOfRef(deps[i], e, RowOf(deps[i]), if ColOf(deps[i]) > index then ColOf(deps[i]) - 1 else ColOf(deps[i]));
      }
    }
  }

  /** Removing column `index`: dependents in that column are forgotten, those right of it move
      one column left, the others stay; the new set holds exactly these names, without repeats. */
  lemma ColumnRemovalShiftsDependents(deps: seq<string>, index: nat)
    requires forall i :: 0 <= i < |deps| ==> IsRef(deps[i])
    requires NoDuplicates(deps)
    ensures var r := ShiftDependencies(deps, ColumnRemoved(index));
            r.Some? && |r.value| <= |deps| && NoDuplicates(r.value) &&
            (forall i :: 0 <= i < |deps| && ColOf(deps[i]) != index ==>
               RefName(RowOf(deps[i]), if ColOf(deps[i]) > index then ColOf(deps[i]) - 1 else ColOf(deps[i])) in r.value) &&
            (forall x :: x in r.value ==>
               exists i :: 0 <= i < |deps| && ColOf(deps[i]) != index &&
                 x == RefName(RowOf(deps[i]), if ColOf(deps[i]) > index then ColOf(deps[i]) - 1 else ColOf(deps[i])))
  {
    var e := ColumnRemoved(index);
    NoCollisions(deps, e);
    CollectWithoutCollisions(Moves(deps, e));
    KeptMembers(Moves(deps, e));
    ColumnRemovalMoves(deps, index);
  }

  /** The first two members of a set without repeats are two different members. */
  lemma LeadingPairDistinct(r: seq<string>)
    requires NoDuplicates(r)
    ensures |r| >= 2 ==> r[0] != r[1] && r[0] in r && r[1] in r
  {
  }

  /** A one-dependency set whose every member is `name` and which holds `name`. */
  lemma SingletonSet(r: seq<string>, name: string)
    requires NoDuplicates(r) && name in r && forall x :: x in r ==> x == name
    ensures r == [name]
  {
    LeadingPairDistinct(r);
  }

  /** A1 depends on A3's value: inserting a row at index 1 makes the dependent A4. */
  lemma RowInsertionOfA3()
    ensures ShiftDependencies(["A3"], RowInserted(1)) == Some(["A4"])
  {
    RefNameIsRef(2, 0);
    var deps := [RefName(2, 0)];
    RowInsertionShiftsDependents(deps, 1);
    var r := ShiftDependencies(deps, RowInserted(1)).value;
    assert r == [RefName(3, 0)];
    assert ColumnName(0) == "A" && NatToString(4) == "4" && NatToString(3) == "3";
    assert RefName(3, 0) == "A4" && RefName(2, 0) == "A3";
  }

  /** ... and removing row 1 makes it A2. */
  lemma RowRemovalOfA3()
    ensures ShiftDependencies(["A3"], RowRemoved(1)) == Some(["A2"])
  {
    RefNameIsRef(2, 0);
    var deps := [RefName(2, 0)];
    RowRemovalShiftsDependents(deps, 1);
    SingletonSet(ShiftDependencies(deps, RowRemoved(1)).value, RefName(1, 0));
    assert ColumnName(0) == "A" && NatToString(2) == "2" && NatToString(3) == "3";
    assert RefName(1, 0) == "A2" && RefName(2, 0) == "A3";
  }

  /** A1 depends on C1's value: inserting a column at index 1 makes the dependent D1. */
  lemma ColumnInsertionOfC1()
    ensures ShiftDependencies(["C1"], ColumnInserted(1)) == Some(["D1"])
  {
    RefNameIsRef(0, 2);
    var deps := [RefName(0, 2)];
    ColumnInsertionShiftsDependents(deps, 1);
    var r := ShiftDependencies(deps, ColumnInserted(1)).value;
    assert r == [RefName(0, 3)];
    assert ColumnName(3) == "D" && ColumnName(2) == "C";
    assert RefName(0, 3) == "D1" && RefName(0, 2) == "C1";
  }

  /** ... removing column 1 makes it B1 ... */
  lemma ColumnRemovalOfC1()
    ensures ShiftDependencies(["C1"], ColumnRemoved(1)) == Some(["B1"])
  {
    RefNameIsRef(0, 2);
    var deps := [RefName(0, 2)];
    ColumnRemovalShiftsDependents(deps, 1);
    SingletonSet(ShiftDependencies(deps, ColumnRemoved(1)).value, RefName(0, 1));
    assert ColumnName(1) == "B" && ColumnName(2) == "C";
    assert RefName(0, 1) == "B1" && RefName(0, 2) == "C1";
  }

  /** ... and removing column 2 forgets it. */
  lemma ColumnRemovalOfC1Itself()
    ensures ShiftDependencies(["C1"], ColumnRemoved(2)) == Some([])
  {
    RefNameIsRef(0, 2);
    var deps := [RefName(0, 2)];
    ColumnRemovalShiftsDependents(deps, 2);
    assert ColumnName(2) == "C" && RefName(0, 2) == "C1";
  }
}
