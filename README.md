# Spreadsheet recalculation engine

A Dafny model of the recalculation engine of a small TypeScript spreadsheet. It covers:

- the cell (`SpreadsheetCellModel`): a raw buffer, a display text and an insertion-ordered set of dependents;
- the page (`SpreadSheetPageModel`): a grid of cells that evaluates `=` formulas with `REF`, `SUM` and `AVG` calls, registers dependents, propagates changes and inserts or removes rows and columns while re-referencing formula text;
- the workbook's list of pages with its current page (`SpreadsheetModel`, without CSV import and export).

## Modules

| file | module | what it holds |
|---|---|---|
| wrappers.dfy | `Wrappers` | `Option`, and `Outcome`: a call returns (`Done`), throws (`Thrown(message)`) or never returns (`Stuck`) |
| text.dfy | `Text` | the JavaScript string operations the source relies on: a number's text, the first match of `/[A-Z]+/i` or `/\d+/`, `indexOf`, first-occurrence `replace`, `split`/`join` |
| coordinates.dfy | `Coordinates` | the bijective base-26 column codec and `<letters><1-based row>` references |
| cells.dfy | `Cells` | the cell as a value: `setBuffer`, `clearCell`, the dependent set, `shiftCellDependencies` |
| formulas.dfy | `Formulas` | the `NAME(…)` call matcher, the SUM/AVG argument syntax and `getRangeOfCells` |
| engine.dfy | `Engine` | cell lookup, `validDependency`, `addDependency`, `setValue`, `updateReferences`, `updateReferenceHelper`, `evaluateExpression` and its REF/SUM/AVG rewriters, `sumCells`, `averageCells` |
| engine_lemmas.dfy | `EngineLemmas` | what those operations compute |
| shifting.dfy | `Shifting` | `shiftBuffer`: finding, ordering and rewriting the references in a buffer |
| pages.dfy | `Pages` | class `Page`: the sheet and the public page methods |
| workbook.dfy | `Workbook` | class `Spreadsheet`: the page list and the current page |

## How the source's behaviour is represented

- **Mutual recursion over one grid.** `setValue`, `evaluateExpression`, `addDependency` and `updateReferences` call one another and change cells as they go. For example, an edge is added in the middle of a rewrite, and a rejected edge re-enters `setValue`. The engine is therefore a family of functions from a sheet (`Grid`, rows of `Cell` values) to the sheet they leave behind and an `Outcome`. Class `Page` holds the sheet in a field, and its methods reassign that field to what those functions compute.
- **Fuel.** One `fuel` count threads through the engine. Running out of it yields `Stuck`. This stands for the source's `while (input.includes(...))` loops, which never end on a bare `REF`, and for its recursions without a visited set, which in the source end in a RangeError once the call stack is exhausted (see "## Left out").
- **Foreign code** is a parameter `Env`:
  - mathjs `evaluate` followed by `String()` (None when it throws);
  - JavaScript's `Number()` on a display (None for NaN);
  - the text of a number.
- **Exceptions** are `Thrown` outcomes carrying the source's messages. A method call on the `undefined` that an out-of-range array access yields is `Thrown(TYPE_ERROR)`.

Source behaviour the model keeps as written:

- The bounds check of `getCellFromReference` uses `>`:
  - row `0` gives index −1;
  - a row or column one past the end passes the check and then fails on access (`RowNumberZero`, `RowsPastTheEnd`).
- `validDependency` discards the results of its recursive calls (`IndirectCycleAccepted`). A rejected edge sets the referenced cell, not the origin, to `!ERR` (`AddDependencyRejected`).
- A page built from `data` stores the texts with `setBuffer`, so loaded formulas are not evaluated (`LoadedCells`).
- `addRow` clamps its index against the column count (`Page.AddRow`).
- SUM yields `!ERR` for a cell that is not a number, while AVG throws and `evaluateExpression` turns that into `!ERR` (`EvaluateSum`, `EvaluateAverage`).
- `shiftBuffer` "up" decrements every reference past the index, including one to the removed row (`ShiftedUp`).
- `shiftBuffer` rewrites the first occurrence of each reference's text, which may lie inside another reference: `=SUM(A11,A1)` moved down at 0 becomes `=SUM(A22,A1)` (`OverlappingReferences`).
- After a page is deleted, the default name of the next page can repeat an existing one (`DefaultName` counts pages).

## Model

Paths are relative to the repository root.

| member | source | states |
|---|---|---|
| `Text.NatToString` | src/model/domain/spreadsheet-page.model.ts:450 | the text of a non-negative integer is non-empty and all digits, reads back as that integer, and has no leading zero unless it is 0 |
| `Text.IntToString` | src/model/domain/spreadsheet-page.model.ts:541 | on a non-negative integer it is the natural-number text |
| `Text.TakeRun` | src/model/domain/cells/spreadsheet-cell.model.ts:130-131 | the longest prefix of the class: a prefix, all of the class, and the next character is not of the class |
| `Text.FirstRunIs` | src/model/domain/cells/spreadsheet-cell.model.ts:130-131 | `match` of `/[A-Z]+/i` or `/\d+/` finds nothing exactly when no character is of the class; a match is non-empty and all of the class |
| `Text.TakeRunOfConcat` | src/model/domain/cells/spreadsheet-cell.model.ts:130-131 | a run of the class followed by a character outside it is matched exactly |
| `Text.FirstRunSkips` | src/model/domain/cells/spreadsheet-cell.model.ts:130-131 | a prefix with no character of the class is skipped by the match |
| `Text.TakeRunStops` | src/model/domain/cells/spreadsheet-cell.model.ts:130-131 | a run ends before the first character outside the class, whatever follows |
| `Text.IndexOf` | src/model/domain/spreadsheet-page.model.ts:531-534 | the first position where the text occurs, and none exactly when it occurs nowhere |
| `Text.Split` | src/model/domain/cells/spreadsheet-cell.model.ts:44 | `split` yields at least one part and no part holds the separator |
| `Text.ReplaceFirstPast` | src/model/domain/spreadsheet-page.model.ts:531-534 | `replace` of a text skips a prefix where it does not start and replaces the occurrence after it |
| `Coordinates.ColumnValue` | src/model/domain/spreadsheet-page.model.ts:468-476 | the Horner value of a name of letters is at least its length, so a non-empty name has a non-negative index |
| `Coordinates.ColumnName` | src/model/domain/spreadsheet-page.model.ts:458-465 | the name is empty exactly for a negative number and is all upper-case letters |
| `Coordinates.GetColumnName` | src/model/domain/spreadsheet-page.model.ts:458-465 | the loop prepending one letter per base-26 digit computes `ColumnName` |
| `Coordinates.GetColumnIndex` | src/model/domain/spreadsheet-page.model.ts:468-476 | the loop summing letter weights times powers of 26 computes `ColumnIndex` |
| `Coordinates.ColumnIndexOfName` | src/model/domain/spreadsheet-page.model.ts:458-476 | `getColumnIndex(getColumnName(n)) == n` for every n ≥ 0 |
| `Coordinates.ColumnNameOfIndex` | src/model/domain/spreadsheet-page.model.ts:458-476 | `getColumnName(getColumnIndex(s)) == s` for every non-empty upper-case s |
| `Coordinates.ColumnAA` | src/model/domain/spreadsheet-page.test.ts:114-117 | "AA" is column 26 both ways and "AA11" names row 10 of column 26 |
| `Coordinates.NameRuns` | src/model/domain/cells/spreadsheet-cell.model.ts:130-131 | the two regular expressions split column letters followed by a number back into the two |
| `Coordinates.ParseName` | src/model/domain/cells/spreadsheet-cell.model.ts:129-136 | column letters followed by n parse as row n − 1 of that column |
| `Coordinates.RowColOfRefName` | src/model/domain/cells/spreadsheet-cell.model.ts:129-136 | `getRowColFromReference(getColumnName(c) + (r+1)) == [r, c]` |
| `Coordinates.RefNameInjective` | src/model/domain/cells/spreadsheet-cell.model.ts:119 | two coordinates with the same reference name are equal |
| `Coordinates.RefNameDistinct` | src/model/domain/cells/spreadsheet-cell.model.ts:119 | distinct coordinates have distinct reference names |
| `Cells.SetBuffer` | src/model/domain/cells/spreadsheet-cell.model.ts:33-62 | all four branches: the buffer is always the given one and the dependents are kept; without a second argument the display is the buffer; letters joined by `+` display without the `+`; otherwise `!ERR` when the evaluator fails or returns "undefined" or " Infinity", and the evaluator's text in every other case |
| `Cells.JoinSplit` | src/model/domain/cells/spreadsheet-cell.model.ts:44-45 | `split("+").join("")` is the text with every `+` removed |
| `Cells.WithoutRemoves` | src/model/domain/cells/spreadsheet-cell.model.ts:45 | no `+` remains |
| `Cells.ClearCell` | src/model/domain/cells/spreadsheet-cell.model.ts:162-165 | buffer and display become empty and the dependents are kept |
| `Cells.Insert` | src/model/domain/cells/spreadsheet-cell.model.ts:80-82 | `Set.add` keeps the old entries in order, holds exactly the old entries and the new one, stays duplicate-free, and is a no-op when the entry is present |
| `Cells.Delete` | src/model/domain/cells/spreadsheet-cell.model.ts:85-87 | `Set.delete` holds exactly the other entries, stays duplicate-free, and is a no-op when the entry is absent |
| `Cells.DeleteSplices` | src/model/domain/cells/spreadsheet-cell.model.ts:85-87 | in a set without repeats, deleting the entry at position i leaves the entries before it and after it, in their insertion order |
| `Cells.DeleteSplicesAt` | src/model/domain/cells/spreadsheet-cell.model.ts:85-87 | the same, stated at every position holding the deleted entry |
| `Cells.AddDependency` | src/model/domain/cells/spreadsheet-cell.model.ts:80-82 | the dependents gain exactly the reference (idempotently), buffer and display are kept |
| `Cells.RemoveDependency` | src/model/domain/cells/spreadsheet-cell.model.ts:85-87 | the dependents lose exactly the reference (idempotently) and, when they have no repeats, keep the others in insertion order; buffer and display are kept |
| `Cells.AddDependencyOrder` | src/model/domain/cells/spreadsheet.cell.test.ts:36-43 | adding A1 then A2 lists ["A1", "A2"]; adding the same name twice lists it once |
| `Cells.Moves` | src/model/domain/cells/spreadsheet-cell.model.ts:98-99 | one move per dependent, in the set's order |
| `Cells.CollectFailurePersists` | src/model/domain/cells/spreadsheet-cell.model.ts:98-123 | once one dependent fails to parse, the whole shift fails |
| `Cells.CollectStep` | src/model/domain/cells/spreadsheet-cell.model.ts:96-125 | one turn of the forEach: a failure stays a failure, a dropped dependent adds nothing, a moved one is added to the new set |
| `Cells.MoveParsed` | src/model/domain/cells/spreadsheet-cell.model.ts:101-119 | a dependent at (row, col) is dropped or renamed exactly as the edit relocates its coordinates |
| `Cells.MoveDependency` | src/model/domain/cells/spreadsheet-cell.model.ts:99-121 | the loop body computes that move |
| `Cells.ShiftCellDependencies` | src/model/domain/cells/spreadsheet-cell.model.ts:90-126 | throws when a dependent does not parse, and otherwise replaces the dependents by the moved set |
| `Cells.RefNameIsRef` | src/model/domain/cells/spreadsheet-cell.model.ts:119 | the name built for (row, col) parses back to (row, col) |
| `Cells.KeptMembers` | src/model/domain/cells/spreadsheet-cell.model.ts:121 | the names kept are exactly the targets of the moves |
| `Cells.CollectWithoutCollisions` | src/model/domain/cells/spreadsheet-cell.model.ts:96-125 | when every dependent parses and no two land on the same name, the new set is the moved names in order, without duplicates |
| `Cells.KeptAll` | src/model/domain/cells/spreadsheet-cell.model.ts:107-121 | when nothing is dropped, the new set is the moved names one for one |
| `Cells.MoveOfRef` | src/model/domain/cells/spreadsheet-cell.model.ts:119 | a parsed dependent moves to the name of its relocated coordinates |
| `Cells.NoCollisions` | src/model/domain/cells/spreadsheet-cell.model.ts:107-119 | an injective relocation of duplicate-free references parses every one and sends no two to the same name |
| `Cells.RowInsertionMoves` | src/model/domain/cells/spreadsheet-cell.model.ts:107-111 | on row insertion a dependent at or past the row moves down one, the others stay |
| `Cells.RowInsertionShiftsDependents` | src/model/domain/cells/spreadsheet-cell.model.ts:90-126 | on row insertion the new set has one entry per dependent, in order, without duplicates, each moved as above |
| `Cells.ColumnInsertionMoves` | src/model/domain/cells/spreadsheet-cell.model.ts:112-116 | on column insertion a dependent at or past the column moves right one, the others stay |
| `Cells.ColumnInsertionShiftsDependents` | src/model/domain/cells/spreadsheet-cell.model.ts:90-126 | on column insertion the new set has one entry per dependent, in order, without duplicates, each moved as above |
| `Cells.RowRemovalMoves` | src/model/domain/cells/spreadsheet-cell.model.ts:101-111 | on row removal a dependent on the row is dropped, one past it moves up one, the others stay |
| `Cells.RowRemovalShiftsDependents` | src/model/domain/cells/spreadsheet-cell.model.ts:90-126 | on row removal the new set, without duplicates, holds exactly the moved names of the dependents not on the removed row |
| `Cells.ColumnRemovalMoves` | src/model/domain/cells/spreadsheet-cell.model.ts:101-116 | on column removal a dependent on the column is dropped, one past it moves left one, the others stay |
| `Cells.ColumnRemovalShiftsDependents` | src/model/domain/cells/spreadsheet-cell.model.ts:90-126 | on column removal the new set, without duplicates, holds exactly the moved names of the dependents not on the removed column |
| `Cells.RowInsertionOfA3` | src/model/domain/spreadsheet-page.test.ts:169-181 | ["A3"] becomes ["A4"] when a row is inserted at index 1 |
| `Cells.RowRemovalOfA3` | src/model/domain/spreadsheet-page.test.ts:183-195 | ["A3"] becomes ["A2"] when row 1 is removed |
| `Cells.ColumnInsertionOfC1` | src/model/domain/spreadsheet-page.test.ts:211-223 | ["C1"] becomes ["D1"] when a column is inserted at index 1 |
| `Cells.ColumnRemovalOfC1` | src/model/domain/spreadsheet-page.test.ts:197-209 | ["C1"] becomes ["B1"] when column 1 is removed |
| `Cells.ColumnRemovalOfC1Itself` | src/model/domain/cells/spreadsheet-cell.model.ts:101-106 | ["C1"] becomes [] when column 2, the dependent's own, is removed |
| `Formulas.CloseParen` | src/model/domain/spreadsheet-page.model.ts:339 | the first `)` from a position, or none when there is none |
| `Formulas.CallAt` | src/model/domain/spreadsheet-page.model.ts:339 | `NAME\(([^)]+)\)` matches at i exactly when `NAME(` occurs there followed by a non-empty argument without `)` and a closing `)`; the end is that first `)` |
| `Formulas.NextCall` | src/model/domain/spreadsheet-page.model.ts:340 | the global regex's next match is the leftmost from the position, and none means no match from there on |
| `Formulas.NoNameNoCall` | src/model/domain/spreadsheet-page.model.ts:316 | a text without the name holds no call |
| `Formulas.ArgumentCells` | src/model/domain/spreadsheet-page.model.ts:371-380 | throws exactly when the argument has neither the range nor the list syntax (or its range cannot be expanded); the list syntax yields the comma-separated parts |
| `Formulas.RowNames` | src/model/domain/spreadsheet-page.model.ts:449-451 | one name per column from start to end, none when start > end |
| `Formulas.RowNamesAt` | src/model/domain/spreadsheet-page.model.ts:449-451 | the m-th name is that of column start + m in the row |
| `Formulas.RectangleSize` | src/model/domain/spreadsheet-page.model.ts:448-452 | exactly (endRow − startRow + 1)·(endCol − startCol + 1) names |
| `Formulas.RectangleCovers` | src/model/domain/spreadsheet-page.model.ts:448-452 | every cell of the rectangle is listed |
| `Formulas.EmptyRectangle` | src/model/domain/spreadsheet-page.model.ts:448-452 | nothing is listed when start > end in rows or columns |
| `Formulas.RectangleInside` | src/model/domain/spreadsheet-page.model.ts:448-452 | every listed name is a cell of the rectangle |
| `Formulas.GetRangeOfCells` | src/model/domain/spreadsheet-page.model.ts:434-454 | the method computes the row-major rectangle of its two corners, or throws where the non-null assertions fail |
| `Formulas.CollectRectangle` | src/model/domain/spreadsheet-page.model.ts:448-452 | the nested loop pushes exactly the row-major rectangle |
| `Formulas.CollectRow` | src/model/domain/spreadsheet-page.model.ts:449-451 | the inner loop pushes exactly one row of it |
| `Engine.Update` | src/model/domain/spreadsheet-page.model.ts:121 | changing one cell in place leaves the shape and every other cell as they were |
| `Engine.Locate` | src/model/domain/spreadsheet-page.model.ts:163-181 | a reference is found exactly when both regular expressions match and column ≤ numCols and row ≤ numRows (the `>` check); it then yields the parsed pair, with row ≥ −1 |
| `Engine.CellAt` | src/model/domain/spreadsheet-page.model.ts:163-181 | looking a cell up always ends, with the cell or an error |
| `Engine.SetValue` | src/model/domain/spreadsheet-page.model.ts:111-130 | keeps the sheet's shape; a row outside the sheet throws before anything is evaluated (see `EngineLemmas.SetValueRowZero`) |
| `Engine.UpdateReferences` | src/model/domain/spreadsheet-page.model.ts:133-143 | keeps the sheet's shape |
| `Engine.UpdateEach` | src/model/domain/spreadsheet-page.model.ts:137-141 | keeps the sheet's shape |
| `Engine.UpdateReferenceHelper` | src/model/domain/spreadsheet-page.model.ts:145-159 | keeps the sheet's shape |
| `Engine.StoreBuffer` | src/model/domain/spreadsheet-page.model.ts:149-158 | keeps the sheet's shape |
| `Engine.Evaluate` | src/model/domain/spreadsheet-page.model.ts:314-333 | never throws (its catch returns `!ERR`) and keeps the sheet's shape |
| `Engine.Repeat` | src/model/domain/spreadsheet-page.model.ts:316-326 | keeps the sheet's shape |
| `Engine.Replace` | src/model/domain/spreadsheet-page.model.ts:340 | keeps the sheet's shape |
| `Engine.Callback` | src/model/domain/spreadsheet-page.model.ts:340-343 | keeps the sheet's shape |
| `Engine.SumCells` | src/model/domain/spreadsheet-page.model.ts:367-395 | keeps the sheet's shape |
| `Engine.AverageCells` | src/model/domain/spreadsheet-page.model.ts:399-429 | keeps the sheet's shape |
| `Engine.Accumulate` | src/model/domain/spreadsheet-page.model.ts:382-392 | keeps the sheet's shape |
| `Engine.Visit` | src/model/domain/spreadsheet-page.model.ts:383-385 | keeps the sheet's shape |
| `Engine.AddDependency` | src/model/domain/spreadsheet-page.model.ts:78-84 | keeps the sheet's shape |
| `EngineLemmas.LocateRefName` | src/model/domain/spreadsheet-page.model.ts:163-181 | the name of a cell of a rectangular sheet finds exactly that cell |
| `EngineLemmas.HelperAtRefName` | src/model/domain/spreadsheet-page.model.ts:145-146 | updateReferenceHelper on a cell's own name stores into that cell |
| `EngineLemmas.RowNumberZero` | src/model/domain/spreadsheet-page.model.ts:174-180 | row "0" gives index −1, passes the bounds check, and reading the cell throws a TypeError |
| `EngineLemmas.RowsPastTheEnd` | src/model/domain/spreadsheet-page.model.ts:176-180 | the row one past the end passes the `>` check and its access throws a TypeError; two past the end throws "Reference out of bounds!" |
| `EngineLemmas.SetValueRowZero` | src/model/domain/spreadsheet-page.model.ts:111-112 | setValue on row number 0 throws the TypeError of reading the cell, whatever the buffer, before evaluating anything, and leaves the sheet as it was |
| `EngineLemmas.ValidDependencyRejects` | src/model/domain/spreadsheet-page.model.ts:88-101 | the guard returns false exactly when `to` already lists `from` as a dependent |
| `EngineLemmas.IndirectCycleAccepted` | src/model/domain/spreadsheet-page.model.ts:94-100 | a nested call that returns false does not stop the guard from returning true |
| `EngineLemmas.LeafAccepted` | src/model/domain/spreadsheet-page.model.ts:88-100 | the guard accepts a `from` without dependents that `to` does not list |
| `EngineLemmas.AddDependencyAccepted` | src/model/domain/spreadsheet-page.model.ts:78-80 | on acceptance `to` joins the dependents of `from`, whose buffer and display are kept, and no other cell changes |
| `EngineLemmas.AddDependencyRejected` | src/model/domain/spreadsheet-page.model.ts:81-83 | on rejection `from`, the referenced cell, is set to `!ERR` and no edge is added (stated for a `from` without dependents, see "## Left out") |
| `EngineLemmas.SetPlainValue` | src/model/domain/spreadsheet-page.model.ts:111-130 | setValue with a text not starting with `=` leaves buffer == display == that text, and no other cell changes |
| `EngineLemmas.EvaluateWithoutCalls` | src/model/domain/spreadsheet-page.model.ts:314-328 | a text without REF, SUM or AVG is returned unchanged and the sheet is untouched |
| `EngineLemmas.SetFormulaWithoutCalls` | src/model/domain/spreadsheet-page.model.ts:115-121 | `=e` without calls is stored with the display setBuffer gives `e` |
| `EngineLemmas.WholeCall` | src/model/domain/spreadsheet-page.model.ts:339-340 | a whole call `NAME(x)` is matched once, with argument x |
| `EngineLemmas.GuardAcceptsReference` | src/model/domain/spreadsheet-page.model.ts:88-100 | the guard accepts x for an origin without dependents when x lists no dependent but the origin |
| `EngineLemmas.WalkToSelf` | src/model/domain/spreadsheet-page.model.ts:94-98 | the forEach over dependents that are all the origin ends normally |
| `EngineLemmas.CallbackRef` | src/model/domain/spreadsheet-page.model.ts:340-343 | once the guard accepts x for the origin, the REF callback registers the origin with x and yields x's display, changing nothing else |
| `EngineLemmas.ReplaceWholeCall` | src/model/domain/spreadsheet-page.model.ts:340 | replacing a whole call yields what the callback yields, on the sheet it leaves |
| `EngineLemmas.RepeatWholeCall` | src/model/domain/spreadsheet-page.model.ts:316-318 | the while loop stops after one rewrite whose result no longer holds the name |
| `EngineLemmas.RepeatWholeCallThrows` | src/model/domain/spreadsheet-page.model.ts:316-318 | an error thrown by the callback leaves the loop |
| `EngineLemmas.EvaluateRef` | src/model/domain/spreadsheet-page.model.ts:314-343 | once the guard accepts x for the origin, `REF(x)` evaluates to x's display (when that display holds no further call) and registers the origin with x, changing nothing else |
| `EngineLemmas.EvaluateRegisteredRef` | src/model/domain/spreadsheet-page.model.ts:314-343 | when x already lists the origin, evaluating `REF(x)` yields x's display and leaves the sheet as it was |
| `EngineLemmas.EvaluateListedRef` | src/model/domain/spreadsheet-page.model.ts:338-343 | evaluating `REF(x)` again for a dependent that x already lists, in a sheet where x lists only it and it lists none, yields x's display and leaves the sheet as it was |
| `EngineLemmas.StoreEvaluated` | src/model/domain/spreadsheet-page.model.ts:149-152 | a formula whose evaluation succeeds without side effects is stored with the display setBuffer gives its text |
| `EngineLemmas.RefreshRefDependent` | src/model/domain/spreadsheet-page.model.ts:145-159 | a dependent holding `=REF(x)`, which x lists as its one dependent and which lists none, is re-evaluated: its display becomes what setBuffer gives x's display |
| `EngineLemmas.SetPlainStep` | src/model/domain/spreadsheet-page.model.ts:111-129 | setValue with plain text stores it and then updates the cell's dependents in order |
| `EngineLemmas.UpdateOneThenOn` | src/model/domain/spreadsheet-page.model.ts:137-141 | one turn of the forEach: the dependent is stored again by updateReferenceHelper, then its own dependents, as they stand after the store, are updated |
| `EngineLemmas.UpdateOneDependent` | src/model/domain/spreadsheet-page.model.ts:137-141 | one dependent without dependents of its own is updated by updateReferenceHelper alone |
| `EngineLemmas.SetValueThenDependent` | src/model/domain/spreadsheet-page.model.ts:111-143 | setValue on a cell whose one dependent holds `=REF(cell)` and has no dependents yields exactly the sheet with the cell's new text and the dependent's new display |
| `EngineLemmas.SetValueRefreshesDependent` | src/model/domain/spreadsheet-page.model.ts:111-143 | after that setValue the cell shows the text and keeps its dependent, the dependent shows the re-evaluated text, and no other cell changes |
| `EngineLemmas.AcceptedVia` | src/model/domain/spreadsheet-page.model.ts:88-100 | when `from` lists one dependent whose walk finishes, the guard accepts unless `to` lists `from`, whatever the nested call returned |
| `EngineLemmas.ChainGuard` | src/model/domain/spreadsheet-page.model.ts:88-100 | in a chain of `=REF` cells the guard accepts each cell for the next one, although the nested walk reaches a cell that already lists its target |
| `EngineLemmas.StoreListedRef` | src/model/domain/spreadsheet-page.model.ts:145-159 | updateReferenceHelper on a cell holding `=REF(x)` that x already lists keeps its buffer, shows what setBuffer makes of x's display, and changes nothing else |
| `EngineLemmas.ChainStore` | src/model/domain/spreadsheet-page.model.ts:145-159 | each cell of a chain past the first is stored again that way, showing what setBuffer makes of the previous cell's display |
| `EngineLemmas.RefreshedGridShows` | src/model/domain/spreadsheet-page.model.ts:133-143 | the reference sheet of a refreshed chain: the j-th cell shows the j-th re-evaluated text, every other cell is as it was |
| `EngineLemmas.ChainLink` | src/model/domain/spreadsheet-page.model.ts:137-141 | one turn of the forEach inside a chain: the cell is re-evaluated, then its own dependents are updated |
| `EngineLemmas.ChainMoves` | src/model/domain/spreadsheet-page.model.ts:133-143 | after a chain cell is refreshed the rest of the chain is still a chain, ready for the next cell |
| `EngineLemmas.ChainTurn` | src/model/domain/spreadsheet-page.model.ts:137-141 | updating one chain cell stores its new display and goes on with its own dependents |
| `EngineLemmas.ChainUnfolds` | src/model/domain/spreadsheet-page.model.ts:133-143 | refreshing from a chain cell is that cell's new display followed by the refresh of the rest; the last cell has no dependents and every other lists the next |
| `EngineLemmas.ChainStep` | src/model/domain/spreadsheet-page.model.ts:133-143 | one step of the depth-first recursion at :140: if the rest of the chain refreshes, so does the chain from this cell |
| `EngineLemmas.RefreshesFromAll` | src/model/domain/spreadsheet-page.model.ts:133-143 | by induction along the chain, updating from any cell of it yields the refreshed sheet and ends normally |
| `EngineLemmas.ChainRefresh` | src/model/domain/spreadsheet-page.model.ts:133-143 | updateReferences from a chain cell refreshes every later cell of the chain, transitively, and ends normally |
| `EngineLemmas.ChainStarts` | src/model/domain/spreadsheet-page.model.ts:111-129 | storing a plain text in the first cell of a chain starts the refresh: a one-cell chain has no dependents, a longer one lists the second cell |
| `EngineLemmas.ChainRuns` | src/model/domain/spreadsheet-page.model.ts:111-143 | once the first cell of a chain holds the text, updating its dependents yields the refreshed sheet and ends normally |
| `EngineLemmas.RefreshedChainSet` | src/model/domain/spreadsheet-page.model.ts:111-143 | the refreshed sheet: the first cell holds the text, the j-th shows the j-th re-evaluated text keeping its buffer and dependents, every other cell is as it was |
| `EngineLemmas.SetValueChainStep` | src/model/domain/spreadsheet-page.model.ts:111-129 | setValue with a plain text on the first cell of a chain stores it and then updates that cell's dependents |
| `EngineLemmas.ChainRunsSet` | src/model/domain/spreadsheet-page.model.ts:111-143 | the update that follows the store ends normally with the refreshed sheet |
| `EngineLemmas.SetValueRefreshesChain` | src/model/domain/spreadsheet-page.model.ts:111-143 | setValue with a plain text on the first cell of an acyclic chain of `=REF` dependents of any length ends normally: the cell holds the text, every dependent, direct or transitive, shows its re-evaluated display and keeps its buffer and dependents, and no other cell changes |
| `EngineLemmas.ChainOfThree` | src/model/domain/spreadsheet-page.test.ts:236-249 | the test's A1 → C1 → C3 chain: after setValue("A1", "5") all three cells display "5" |
| `EngineLemmas.ThreeCellChain` | src/model/domain/spreadsheet-page.test.ts:236-240 | A1 listing C1, C1 holding `=REF(A1)` and listing C3, and C3 holding `=REF(C1)` form a chain |
| `EngineLemmas.LocateA1` | src/model/domain/spreadsheet-page.model.ts:163-181 | "A1" names the top left cell |
| `EngineLemmas.FiveShowsFive` | src/model/domain/spreadsheet-page.test.ts:244-248 | when mathjs evaluates "5" to "5", each refreshed cell of the chain shows "5" |
| `EngineLemmas.TotalFails` | src/model/domain/spreadsheet-page.model.ts:385-388 | the loop gives up exactly when some listed cell does not display a number |
| `EngineLemmas.VisitAccepted` | src/model/domain/spreadsheet-page.model.ts:383-385 | one turn registers the origin with the cell and reads its display as a number |
| `EngineLemmas.RegisteredQuiet` | src/model/domain/spreadsheet-page.model.ts:383 | registering the origin with the first cell changes only its dependents, and the rest of the cells still accept the origin |
| `EngineLemmas.VisitQuiet` | src/model/domain/spreadsheet-page.model.ts:382-385 | the first turn reads the first cell, registers the origin with it, and leaves the rest ready |
| `EngineLemmas.AccumulateHead` | src/model/domain/spreadsheet-page.model.ts:382-392 | the loop is its first turn followed by the loop over the rest, or stops at a cell that is not a number |
| `EngineLemmas.AccumulateTotal` | src/model/domain/spreadsheet-page.model.ts:382-392 | the loop yields the sum of the displays in order, or gives up at the first that is not a number |
| `EngineLemmas.AccumulateGains` | src/model/domain/spreadsheet-page.model.ts:382-392 | the loop changes no buffer or display and adds only the origin to dependents |
| `EngineLemmas.AccumulateRegisters` | src/model/domain/spreadsheet-page.model.ts:382-392 | when every display is a number, the origin is registered with every visited cell |
| `EngineLemmas.SumQuiet` | src/model/domain/spreadsheet-page.model.ts:367-395 | sumCells yields the text of the sum, or `!ERR` when a cell is not a number |
| `EngineLemmas.AverageQuiet` | src/model/domain/spreadsheet-page.model.ts:399-429 | averageCells yields the text of sum / count ("NaN" for no cells), or throws "Cell is not a Number" |
| `EngineLemmas.RangeCallGains` | src/model/domain/spreadsheet-page.model.ts:382-384 | sumCells and averageCells change only dependents, adding the origin |
| `EngineLemmas.EvaluateSumCall` | src/model/domain/spreadsheet-page.model.ts:320-322 | `SUM(x)` evaluates to what sumCells yields for x |
| `EngineLemmas.SumCallResult` | src/model/domain/spreadsheet-page.model.ts:367-395 | sumCells' text is the sum's text or `!ERR`, and holds no further SUM or AVG |
| `EngineLemmas.EvaluateSum` | src/model/domain/spreadsheet-page.model.ts:314-333 | `SUM(x)` evaluates to the sum's text, or `!ERR` when a listed cell is not a number, and registers only the origin |
| `EngineLemmas.EvaluateAverageCall` | src/model/domain/spreadsheet-page.model.ts:324-332 | `AVG(x)` evaluates to averageCells' text, and to `!ERR` when averageCells throws |
| `EngineLemmas.AverageCallResult` | src/model/domain/spreadsheet-page.model.ts:399-429 | averageCells' outcome is the average's text or the "Cell is not a Number" error |
| `EngineLemmas.EvaluateAverage` | src/model/domain/spreadsheet-page.model.ts:314-333 | `AVG(x)` evaluates to the average's text, or `!ERR` when a listed cell is not a number, and registers only the origin |
| `Shifting.TokenMatches` | src/model/domain/spreadsheet-page.model.ts:523-524 | `/[A-Z]+/i` and `/\d+/` read a reference's letters and digits exactly |
| `Shifting.RefToken` | src/model/domain/spreadsheet-page.model.ts:480 | the name of (row, col) is a well-formed reference naming 1-based row row + 1 and column col |
| `Shifting.MatchPrefix` | src/model/domain/spreadsheet-page.model.ts:480 | a match at the start is non-empty and inside the text |
| `Shifting.MatchPrefixIsPrefix` | src/model/domain/spreadsheet-page.model.ts:480 | a match at the start is upper-case letters then digits, and a prefix of the text |
| `Shifting.PositionOfMatch` | src/model/domain/spreadsheet-page.model.ts:483 | a match at the start is the first reference found |
| `Shifting.TokenPosition` | src/model/domain/spreadsheet-page.model.ts:483 | every reference `buffer.match` finds is well formed and occurs in the buffer |
| `Shifting.NoUpperNoTokens` | src/model/domain/spreadsheet-page.model.ts:483-487 | a buffer without upper-case letters holds no reference |
| `Shifting.NoDigitNoTokens` | src/model/domain/spreadsheet-page.model.ts:483-487 | a buffer without digits holds no reference |
| `Shifting.InsertPermutes` | src/model/domain/spreadsheet-page.model.ts:490-521 | inserting keeps every reference: a permutation |
| `Shifting.SortPermutes` | src/model/domain/spreadsheet-page.model.ts:490-521 | the sort is a permutation of the matches |
| `Shifting.InsertKeepsOrder` | src/model/domain/spreadsheet-page.model.ts:490-521 | inserting into a sorted list keeps it sorted |
| `Shifting.SortIsOrdered` | src/model/domain/spreadsheet-page.model.ts:490-521 | the sort orders by the option's key: highest row, lowest row, rightmost or leftmost column first |
| `Shifting.InsertKeepsTies` | src/model/domain/spreadsheet-page.model.ts:490-521 | inserting keeps the order of equal keys |
| `Shifting.SortIsStable` | src/model/domain/spreadsheet-page.model.ts:490-521 | the sort is stable, as Array.prototype.sort is |
| `Shifting.ShiftBufferLoop` | src/model/domain/spreadsheet-page.model.ts:478-569 | the method computes `ShiftBuffer`: sort the matches, then rewrite each in turn |
| `Shifting.ShiftReference` | src/model/domain/spreadsheet-page.model.ts:522-564 | one turn of the forEach replaces the first occurrence of the reference with its moved name when it lies past the index |
| `Shifting.NoReferenceUnchanged` | src/model/domain/spreadsheet-page.model.ts:483-487 | a buffer without references, such as `=4+7`, is unchanged |
| `Shifting.ShiftedDown` | src/model/domain/spreadsheet-page.model.ts:528-535 | "down" moves a reference whose 1-based row exceeds the index one row down, and leaves the others |
| `Shifting.ShiftedUp` | src/model/domain/spreadsheet-page.model.ts:536-543 | "up" moves a reference whose 1-based row exceeds the index one row up, and leaves the others |
| `Shifting.ShiftedRight` | src/model/domain/spreadsheet-page.model.ts:544-553 | "right" moves a reference whose 1-based column exceeds the index one column right, and leaves the others |
| `Shifting.ShiftedLeft` | src/model/domain/spreadsheet-page.model.ts:554-563 | "left" moves a reference whose 1-based column exceeds the index one column left, and leaves the others |
| `Shifting.DownThenUp` | src/model/domain/spreadsheet-page.model.ts:528-543 | a reference moved down at an index and then up at the same index is restored |
| `Shifting.RightThenLeft` | src/model/domain/spreadsheet-page.model.ts:544-563 | a reference moved right at an index and then left at the same index is restored |
| `Shifting.TokensAppend` | src/model/domain/spreadsheet-page.model.ts:483 | the references of a text that ends in neither a letter nor a digit, followed by another, are those of the first then those of the second |
| `Shifting.TokensOfToken` | src/model/domain/spreadsheet-page.model.ts:483 | a reference followed by a non-digit is matched whole |
| `Shifting.TokensOfRefName` | src/model/domain/spreadsheet-page.model.ts:483 | the name of a cell followed by a non-digit is matched as that cell's reference |
| `Shifting.RefAfterText` | src/model/domain/spreadsheet-page.model.ts:483 | in text of the form `=FUN(` + name + rest, the only reference before the rest is the name |
| `Shifting.TwoReferences` | src/model/domain/spreadsheet-page.model.ts:483 | a formula with two cell names and no other digits has exactly those two references |
| `Shifting.ShiftTwoReferences` | src/model/domain/spreadsheet-page.model.ts:487-565 | such a formula is rewritten one reference after the other, in the option's order |
| `Shifting.ShiftTwo` | src/model/domain/spreadsheet-page.model.ts:487-565 | a buffer with two references rewrites them in key order |
| `Shifting.SortTwo` | src/model/domain/spreadsheet-page.model.ts:490-521 | two references are sorted by key, the first kept first on a tie |
| `Shifting.ApplyTwo` | src/model/domain/spreadsheet-page.model.ts:522-565 | the forEach over two references applies the first rewrite, then the second |
| `Shifting.SingleToken` | src/model/domain/spreadsheet-page.model.ts:478-569 | a buffer with one reference has exactly that reference rewritten in place |
| `Shifting.SingleReference` | src/model/domain/spreadsheet-page.model.ts:478-569 | a formula naming one cell has that name moved and nothing else changed |
| `Shifting.StepAt` | src/model/domain/spreadsheet-page.model.ts:531-534 | the rewrite replaces the reference where it first occurs |
| `Shifting.StepAfter` | src/model/domain/spreadsheet-page.model.ts:531-534 | a reference whose first letter does not occur before it is replaced in place |
| `Shifting.StepPastFirst` | src/model/domain/spreadsheet-page.model.ts:531-534 | the second reference is replaced in place when the first cannot be mistaken for it |
| `Shifting.RefMoveSteps` | src/model/domain/spreadsheet-page.model.ts:528-535 | a formula naming A1 names A2 after a row is inserted at 0 |
| `Shifting.RefMovesDown` | src/model/domain/spreadsheet-page.test.ts:305 | `=REF(A1)` becomes `=REF(A2)` when a row is inserted at 0 |
| `Shifting.RangeShift` | src/model/domain/spreadsheet-page.model.ts:487-565 | two references rewritten furthest first both land in place when neither is a prefix of the other's text |
| `Shifting.RangeSteps` | src/model/domain/spreadsheet-page.model.ts:487-565 | a formula naming A1 and A2 names A2 and A3 after a row is inserted at 0 |
| `Shifting.RangeMovesDown` | src/model/domain/spreadsheet-page.test.ts:306 | `=SUM(A1:A2)` becomes `=SUM(A2:A3)` when a row is inserted at 0 |
| `Shifting.OverlapShift` | src/model/domain/spreadsheet-page.model.ts:531-534 | when the first rewrite produces the text of the second reference, the second rewrite lands on the new text instead of the old |
| `Shifting.OverlapSteps` | src/model/domain/spreadsheet-page.model.ts:531-534 | a formula naming A11 then A1 ends with A22 and A1 after a row is inserted at 0 |
| `Shifting.OverlappingReferences` | src/model/domain/spreadsheet-page.model.ts:531-534 | `=SUM(A11,A1)` becomes `=SUM(A22,A1)`, not `=SUM(A12,A2)`, when a row is inserted at 0 |
| `Pages.InitialSheet` | src/model/domain/spreadsheet-page.model.ts:24-35 | the constructor builds max(0, rows) rows of max(0, cols) cells |
| `Pages.LoadedData` | src/model/domain/spreadsheet-page.model.ts:15-36 | a page built from rectangular data returns exactly that data from getData |
| `Pages.LoadedCells` | src/model/domain/spreadsheet-page.model.ts:30-32 | each loaded cell holds its text as buffer and display, unevaluated and without dependents |
| `Pages.WithRow` | src/model/domain/spreadsheet-page.model.ts:203 | splicing in a row adds exactly one row |
| `Pages.CellAdded` | src/model/domain/spreadsheet-page.model.ts:282 | splicing in a cell adds exactly one cell to the row |
| `Pages.CellRemoved` | src/model/domain/spreadsheet-page.model.ts:306 | splicing out a cell removes one when the index is in the row and none otherwise |
| `Pages.WithColumn` | src/model/domain/spreadsheet-page.model.ts:281-283 | every row gains a cell at the index |
| `Pages.WithoutColumn` | src/model/domain/spreadsheet-page.model.ts:305-307 | every row loses its cell at the index |
| `Pages.EmptyRow` | src/model/domain/spreadsheet-page.model.ts:198-201 | the new row has one fresh cell per column |
| `Pages.SweepPlainCell` | src/model/domain/spreadsheet-page.model.ts:214-219 | the sweep leaves a cell holding plain text (no `=`, no upper-case letter, no dependents) exactly as it was |
| `Pages.SweepPlainRow` | src/model/domain/spreadsheet-page.model.ts:213-220 | the inner loop leaves a sheet of plain texts as it was and ends normally |
| `Pages.SweepPlainRows` | src/model/domain/spreadsheet-page.model.ts:211-222 | the outer loop leaves a sheet of plain texts as it was and ends normally |
| `Pages.WithRowPlain` | src/model/domain/spreadsheet-page.model.ts:197-202 | splicing a row of fresh cells into a sheet of plain texts gives a sheet of plain texts |
| `Pages.WithColumnPlain` | src/model/domain/spreadsheet-page.model.ts:281-283 | adding a fresh cell to every row keeps a sheet of plain texts plain |
| `Pages.WithoutRowPlain` | src/model/domain/spreadsheet-page.model.ts:294 | removing a row keeps a sheet of plain texts plain |
| `Pages.WithoutColumnPlain` | src/model/domain/spreadsheet-page.model.ts:305-307 | removing a column keeps a sheet of plain texts plain |
| `Pages.SweepCell` | src/model/domain/spreadsheet-page.model.ts:214-219 | rewriting, re-evaluating and remapping one cell keeps the sheet's shape |
| `Pages.SweepRow` | src/model/domain/spreadsheet-page.model.ts:213-220 | the inner loop keeps the sheet's shape |
| `Pages.SweepFrom` | src/model/domain/spreadsheet-page.model.ts:213-220 | the inner loop from a column keeps the sheet's shape |
| `Pages.CellThen` | src/model/domain/spreadsheet-page.model.ts:213-220 | one cell then the rest of its row keeps the sheet's shape |
| `Pages.SweepRows` | src/model/domain/spreadsheet-page.model.ts:212-221 | the outer loop of shiftDependencies* keeps the sheet's shape |
| `Pages.AfterRow` | src/model/domain/spreadsheet-page.model.ts:212-221 | continuing after a row keeps the sheet's shape |
| `Pages.Page.constructor` | src/model/domain/spreadsheet-page.model.ts:15-36 | the loops fill the sheet with the initial cells, rectangular |
| `Pages.Page.GetNumRows` | src/model/domain/spreadsheet-page.model.ts:39-41 | the number of rows |
| `Pages.Page.GetNumCols` | src/model/domain/spreadsheet-page.model.ts:44-46 | the length of the first row, and a TypeError exactly when there is no row |
| `Pages.Page.SetSheetName` | src/model/domain/spreadsheet-page.model.ts:54-56 | the name changes and the sheet does not |
| `Pages.Page.GetValueAtCell` | src/model/domain/spreadsheet-page.model.ts:59-62 | the display of the referenced cell, or the lookup's error |
| `Pages.Page.GetCellBuffer` | src/model/domain/spreadsheet-page.model.ts:65-68 | the buffer of the referenced cell, or the lookup's error |
| `Pages.Page.SetValue` | src/model/domain/spreadsheet-page.model.ts:111-130 | the sheet becomes what the engine's setValue leaves, keeping its shape and the page's name; a row outside the sheet throws TypeError and changes nothing |
| `Pages.Page.ShiftCell` | src/model/domain/spreadsheet-page.model.ts:214-219 | one cell of the sweep, as `SweepCell` defines it |
| `Pages.Page.ShiftRow` | src/model/domain/spreadsheet-page.model.ts:213-220 | the inner loop, as `SweepRow` defines it |
| `Pages.Page.ShiftSheet` | src/model/domain/spreadsheet-page.model.ts:211-222 | the double loop of shiftDependencies*, as `SweepRows` defines it |
| `Pages.Page.AddRow` | src/model/domain/spreadsheet-page.model.ts:190-206 | a negative index throws "Invalid row index" and an empty sheet a TypeError, changing nothing; otherwise the index is clamped to the column count, an empty row is spliced in and the sheet is swept "down"; one more row, the same width; on a sheet of plain texts the result is exactly the spliced sheet, so the cells at or past the index move down one row (as in the test at spreadsheet-page.test.ts:147-156) |
| `Pages.Page.AddColumn` | src/model/domain/spreadsheet-page.model.ts:273-286 | a negative index throws "Invalid column index" and an empty sheet a TypeError, changing nothing; otherwise the index is clamped to the width, a cell is spliced into every row and the sheet swept "right"; the same rows, one more column; on a sheet of plain texts the result is exactly the spliced sheet |
| `Pages.Page.RemoveRow` | src/model/domain/spreadsheet-page.model.ts:289-297 | an index outside [0, rows) throws "Invalid row index" and changes nothing; otherwise the row is spliced out and the sheet swept "up"; one row fewer, the same width; on a sheet of plain texts the result is exactly the spliced sheet |
| `Pages.Page.RemoveColumn` | src/model/domain/spreadsheet-page.model.ts:300-310 | an index outside [0, cols) throws "Invalid column index" (an empty sheet a TypeError) and changes nothing; otherwise the column is spliced out and the sheet swept "left"; one column fewer; on a sheet of plain texts the result is exactly the spliced sheet |
| `Pages.Page.GetData` | src/model/domain/spreadsheet-page.model.ts:572-584 | the buffers of the sheet, row by row |
| `Workbook.PageIndex` | src/model/domain/spreadsheet.model.ts:52 | `indexOf`: the first position of the page, or −1 exactly when it is not listed |
| `Workbook.RemovedMembers` | src/model/domain/spreadsheet.model.ts:56 | `splice(index, 1)` removes exactly that page and keeps the rest distinct |
| `Workbook.PageIndexDistinct` | src/model/domain/spreadsheet.model.ts:53 | in a list without repeats, a page's index is its position |
| `Workbook.DefaultNameInjective` | src/model/domain/spreadsheet.model.ts:29 | different page counts give different default names |
| `Workbook.FirstPageName` | src/model/domain/spreadsheet.model.ts:19 | the first default name is "Page 1" |
| `Workbook.Spreadsheet.constructor` | src/model/domain/spreadsheet.model.ts:18-22 | exactly one page, named "Page 1", empty, and current |
| `Workbook.Spreadsheet.AddPage` | src/model/domain/spreadsheet.model.ts:25-47 | appends a new current page named by `sheetName` or "Page " + (old count + 1), sized and filled from `data` when given (so getData returns `data`); an empty `data` throws and changes nothing |
| `Workbook.Spreadsheet.DeletePage` | src/model/domain/spreadsheet.model.ts:50-64 | an unknown page throws and changes nothing; otherwise exactly that page is removed, and the last remaining page becomes current when it was current |
| `Workbook.Spreadsheet.GetCurrentPage` | src/model/domain/spreadsheet.model.ts:67-69 | the current page |
| `Workbook.Spreadsheet.SetCurrentPage` | src/model/domain/spreadsheet.model.ts:72-82 | a listed page becomes current; an unlisted one throws and keeps the current page; the list never changes |
| `Workbook.Spreadsheet.GetNumPages` | src/model/domain/spreadsheet.model.ts:148-150 | the number of pages |
| `Workbook.Spreadsheet.GetAllPageNames` | src/model/domain/spreadsheet.model.ts:152-160 | the names of the pages in list order, one per page |
| `Workbook.DeleteCurrentOfThree` | src/model/domain/spreadsheet.test.ts:56-69 | after two added pages and the deletion of the current one, "Page 2" is viewed and the names are "Page 1", "Page 2" |

## Left out

- The user interface (`src/components/`, `src/SpreadsheetMain.tsx`, `src/index.tsx`), the cell styling builder `src/model/domain/cells/cell-text.model.ts` and the interface files: they hold no engine logic.
- CSV import and export (`src/model/domain/spreadsheet.model.ts:85-146`): file system, browser and conversion libraries.
- mathjs, JavaScript's `Number()` and a number's `toString()` are the uninterpreted functions of `Env`. Numbers are reals, so floating-point rounding and NaN arithmetic are not modelled. `Number("")` being 0 is left to the `Env` given.
- Cells are values inside the page's sheet, not objects. `getCellFromReference` in the source returns a shared cell object that callers change in place; the model writes the changed cell back into the sheet instead. Aliasing between cells therefore cannot arise and is not modelled.
- The cell getters (`getBuffer`, `getDisplay`, `getDependencies`) are field reads of the `Cell` datatype. `getSheetName` is the page's `name` field. `getCellAtRowCol` is indexing into `sheet` and is not a separate member.
- Termination is modelled with fuel: a run that needs more fuel than it is given ends `Stuck`. Which inputs loop forever in the source is not characterised beyond the guard lemmas.
- Stack overflow: in the source, unbounded recursion (for example `validDependency`'s walk round an indirect cycle, which `EngineLemmas.IndirectCycleAccepted` shows can be built) ends in a RangeError. Inside `evaluateExpression`'s try block that error becomes the display `!ERR`. The model has no call-stack limit, so such a run ends `Stuck` and the `!ERR` recovery is not modelled.
- Integers are unbounded. Row numbers beyond 2^53, where JavaScript numbers lose precision, are not modelled.
- EngineLemmas.SetPlainValue: stated for a cell without dependents. With dependents, `EngineLemmas.SetPlainStep` states the first step, and `EngineLemmas.SetValueRefreshesChain` the whole propagation along a chain.
- EngineLemmas.SetValueRefreshesDependent: stated for one direct `=REF(cell)` dependent without dependents of its own; `EngineLemmas.SetValueRefreshesChain` states chains of any length.
- EngineLemmas.SetValueRefreshesChain: propagation is proved along a chain of `=REF` cells, each listing the next as its one dependent (the A1 → C1 → C3 case of the tests, at any length). Each text shown before the last cell must hold no REF, SUM or AVG, so that re-evaluating the next cell does not call anything else. Graphs that branch or join, and dependents holding other formulas, are not stated.
- EngineLemmas.RefreshRefDependent: stated for a dependent without dependents of its own, which x lists as its one dependent; chains are covered by `EngineLemmas.ChainStore`.
- EngineLemmas.CallbackRef: stated when the guard accepts x for the origin. On rejection the callback's addDependency sets x to `!ERR` (`EngineLemmas.AddDependencyRejected`).
- EngineLemmas.EvaluateRef: stated when the guard accepts x and x's display holds no REF, SUM or AVG, which would otherwise be rewritten in turn.
- EngineLemmas.EvaluateListedRef: stated for an x that lists only the dependent, which lists none; `EngineLemmas.EvaluateRegisteredRef` states the same once the guard accepts x, whatever the dependents.
- EngineLemmas.AddDependencyRejected: stated for a `from` (the referenced cell) without dependents, so that the nested setValue of `!ERR` has nothing to update. With dependents, `!ERR` is propagated like any plain text (`EngineLemmas.SetPlainStep`).
- EngineLemmas.VisitAccepted: stated for an origin without dependents and a cell whose dependents are at most the origin (the "quiet" case, where the guard provably accepts). For other cells what a turn does depends on the guard's walk, which `EngineLemmas.ValidDependencyRejects` and `EngineLemmas.AcceptedVia` describe.
- EngineLemmas.AccumulateTotal: stated for quiet cells only (an origin without dependents, each listed cell with no dependent but the origin, none of them the origin).
- EngineLemmas.AccumulateGains: stated for quiet cells only, as `AccumulateTotal`.
- EngineLemmas.AccumulateRegisters: stated for quiet cells only, as `AccumulateTotal`. Registration is stated per cell (each listed cell ends up listing the origin and, by `AccumulateGains`, nothing new besides it); the order of the visits shows only in where the loop stops, which `AccumulateTotal` states.
- EngineLemmas.SumQuiet: stated for quiet cells only, as `AccumulateTotal`.
- EngineLemmas.AverageQuiet: stated for quiet cells only, as `AccumulateTotal`.
- EngineLemmas.RangeCallGains: stated for quiet cells only, as `AccumulateTotal`.
- EngineLemmas.SumCallResult: stated for quiet cells only, as `AccumulateTotal`.
- EngineLemmas.AverageCallResult: stated for quiet cells only, as `AccumulateTotal`.
- EngineLemmas.EvaluateSum: stated for cells that have no dependent but the origin and an origin without dependents, and for an `Env` whose number texts hold no SUM or AVG. What SUM does over cells already in other dependency chains is not stated.
- EngineLemmas.EvaluateAverage: the same restrictions as `EvaluateSum`.
- Consistency of the whole grid's dependents after a structural edit is not stated. The source re-evaluates each cell before it remaps its neighbours' dependents, so a name registered during the sweep may be shifted again when its cell is reached. What the cells hold after an edit is stated for a sheet of plain texts, where it is exactly the spliced sheet (`Pages.Page.AddRow` and the other edits, through `Pages.SweepPlainRows`). For formulas and dependents, only the rewrite of one buffer (`Shifting`) and of one cell's dependents (`Cells`) is stated.
- Pages.Page.constructor: requires `data` to cover rows × cols. For ragged `data` the source stores `undefined` as a buffer, which the model does not represent.
- Workbook.Spreadsheet.AddPage: requires a non-empty `data` to cover its first row's width, for the same reason.
- Engine.SetValue: its own contract states only that the sheet keeps its shape; what it computes is stated by the `EngineLemmas` members about it.
- Engine.UpdateReferences: its own contract states only that the sheet keeps its shape; what it computes is stated by the `EngineLemmas` members about it.
- Engine.UpdateEach: its own contract states only that the sheet keeps its shape; what it computes is stated by the `EngineLemmas` members about it.
- Engine.UpdateReferenceHelper: its own contract states only that the sheet keeps its shape; what it computes is stated by the `EngineLemmas` members about it.
- Engine.StoreBuffer: its own contract states only that the sheet keeps its shape; what it computes is stated by the `EngineLemmas` members about it.
- Engine.Evaluate: its own contract states only that the sheet keeps its shape and that it never throws; what it computes is stated by the `EngineLemmas` members about it.
- Engine.Repeat: its own contract states only that the sheet keeps its shape; what it computes is stated by the `EngineLemmas` members about it.
- Engine.Replace: its own contract states only that the sheet keeps its shape; what it computes is stated by the `EngineLemmas` members about it.
- Engine.Callback: its own contract states only that the sheet keeps its shape; what it computes is stated by the `EngineLemmas` members about it.
- Engine.SumCells: its own contract states only that the sheet keeps its shape; what it computes is stated by the `EngineLemmas` members about it.
- Engine.AverageCells: its own contract states only that the sheet keeps its shape; what it computes is stated by the `EngineLemmas` members about it.
- Engine.Accumulate: its own contract states only that the sheet keeps its shape; what it computes is stated by the `EngineLemmas` members about it.
- Engine.Visit: its own contract states only that the sheet keeps its shape; what it computes is stated by the `EngineLemmas` members about it.
- Engine.AddDependency: its own contract states only that the sheet keeps its shape; what it computes is stated by the `EngineLemmas` members about it.
- Pages.SweepCell: its own contract states only that the sheet keeps its shape; the page methods `ShiftCell`, `ShiftRow` and `ShiftSheet` are proved against it.
- Pages.SweepRow: its own contract states only that the sheet keeps its shape; the page methods `ShiftCell`, `ShiftRow` and `ShiftSheet` are proved against it.
- Pages.SweepFrom: its own contract states only that the sheet keeps its shape; the page methods `ShiftCell`, `ShiftRow` and `ShiftSheet` are proved against it.
- Pages.CellThen: its own contract states only that the sheet keeps its shape; the page methods `ShiftCell`, `ShiftRow` and `ShiftSheet` are proved against it.
- Pages.SweepRows: its own contract states only that the sheet keeps its shape; the page methods `ShiftCell`, `ShiftRow` and `ShiftSheet` are proved against it.
- Pages.AfterRow: its own contract states only that the sheet keeps its shape; the page methods `ShiftCell`, `ShiftRow` and `ShiftSheet` are proved against it.
