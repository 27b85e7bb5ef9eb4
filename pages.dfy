/** SpreadSheetPageModel as an object: a name and a sheet of cells that the public methods
    change in place. Lookup, evaluation and propagation are the Engine functions, which the
    methods here apply to the sheet; the structural edits splice the sheet and then sweep
    every cell, rewriting its buffer and remapping its dependents. */
module Pages {
  import opened Wrappers
  import opened Coordinates
  import opened Cells
  import opened Shifting
  import opened Engine
  import opened EngineLemmas
  import Text

  /** The number of rows and of columns of a page built without a size. */
  const DEFAULT_SIZE: int := 12

  function Max0(n: int): nat { if n < 0 then 0 else n }

  /** What the constructor reads of `data`: a text for every cell it builds. */
  predicate Covers(data: seq<seq<string>>, rows: int, cols: int)
  {
    rows <= |data| && forall r :: 0 <= r < rows ==> cols <= |data[r]|
  }

  /** The cell the constructor puts at (r, c): a fresh cell, or a fresh cell given the text of
      `data` with setBuffer, which stores it without evaluating it. */
  function InitialCell(evaluate: string -> Option<string>, data: Option<seq<seq<string>>>, r: nat, c: nat): Cell
    requires data.Some? ==> r < |data.value| && c < |data.value[r]|
  {
    match data
    case None => EmptyCell
    case Some(d) => SetBuffer(EmptyCell, d[r][c], None, evaluate)
  }

  function InitialRow(evaluate: string -> Option<string>, data: Option<seq<seq<string>>>, r: nat, cols: int): seq<Cell>
    requires data.Some? ==> r < |data.value| && cols <= |data.value[r]|
  {
    seq(Max0(cols), c requires 0 <= c < Max0(cols) => InitialCell(evaluate, data, r, c))
  }

  /** The sheet the constructor builds: max(rows, 0) rows of max(cols, 0) cells. */
  function InitialSheet(evaluate: string -> Option<string>, rows: int, cols: int, data: Option<seq<seq<string>>>): (g: Grid)
    requires data.Some? ==> Covers(data.value, rows, cols)
    ensures |g| == Max0(rows) && forall r :: 0 <= r < |g| ==> |g[r]| == Max0(cols)
  {
    seq(Max0(rows), r requires 0 <= r < Max0(rows) => InitialRow(evaluate, data, r, cols))
  }

  /** What getData returns: the buffers, row by row, over the width of the first row. */
  function Data(g: Grid): seq<seq<string>>
    requires Rectangular(g)
  {
    if g == [] then []
    else seq(|g|, r requires 0 <= r < |g| => seq(|g[0]|, c requires 0 <= c < |g[0]| => g[r][c].buffer))
  }

  /** A table in which every row is as long as the first. */
  predicate RectangularData(data: seq<seq<string>>)
  {
    forall r :: 0 <= r < |data| ==> |data[r]| == |data[0]|
  }

  /** A page loaded from a rectangular table gives that table back. */
  lemma LoadedData(evaluate: string -> Option<string>, data: seq<seq<string>>)
    requires |data| > 0 && RectangularData(data)
    ensures Data(InitialSheet(evaluate, |data|, |data[0]|, Some(data))) == data
  {
    var g := InitialSheet(evaluate, |data|, |data[0]|, Some(data));
    forall r | 0 <= r < |data|
      ensures Data(g)[r] == data[r]
    {
      assert g[r] == InitialRow(evaluate, Some(data), r, |data[0]|);
    }
  }

  /** A loaded page shows its texts as they are, with no dependents. */
  lemma LoadedCells(evaluate: string -> Option<string>, data: seq<seq<string>>, r: nat, c: nat)
    requires |data| > 0 && RectangularData(data) && r < |data| && c < |data[0]|
    ensures var g := InitialSheet(evaluate, |data|, |data[0]|, Some(data));
            g[r][c] == Cell(data[r][c], data[r][c], [])
  {
    var g := InitialSheet(evaluate, |data|, |data[0]|, Some(data));
    assert g[r] == InitialRow(evaluate, Some(data), r, |data[0]|);
  }

  // ---------------------------------------------------------------------------------------
  // The splices of the structural edits

  /** splice(k, 0, row) on the rows: the new row goes in at k, or at the end when k is past it. */
  function WithRow(g: Grid, k: nat, row: seq<Cell>): (h: Grid)
    ensures |h| == |g| + 1
  {
    var at := if k < |g| then k else |g|;
    g[..at] + [row] + g[at..]
  }

  /** splice(k, 0, cell) on one row. */
  function CellAdded(row: seq<Cell>, k: nat): (r: seq<Cell>)
    ensures |r| == |row| + 1
  {
    var at := if k < |row| then k else |row|;
    row[..at] + [EmptyCell] + row[at..]
  }

  /** splice(k, 1) on one row. */
  function CellRemoved(row: seq<Cell>, k: nat): (r: seq<Cell>)
    ensures |r| == if k < |row| then |row| - 1 else |row|
  {
    if k < |row| then row[..k] + row[k + 1..] else row
  }

  function WithColumn(g: Grid, k: nat): (h: Grid)
    ensures |h| == |g| && forall r :: 0 <= r < |g| ==> h[r] == CellAdded(g[r], k)
  {
    seq(|g|, r requires 0 <= r < |g| => CellAdded(g[r], k))
  }

  function WithoutColumn(g: Grid, k: nat): (h: Grid)
    ensures |h| == |g| && forall r :: 0 <= r < |g| ==> h[r] == CellRemoved(g[r], k)
  {
    seq(|g|, r requires 0 <= r < |g| => CellRemoved(g[r], k))
  }

  // ---------------------------------------------------------------------------------------
  // The sweep of shiftDependencies{Down,Up,Right,Left}

  /** One cell of the sweep: its buffer is shifted and stored again by updateReferenceHelper
      under the cell's own name (which locates that very cell, see HelperAtRefName), then its
      dependents are remapped; the first exception ends the sweep. */
  function SweepCell(env: Env, g: Grid, d: Direction, index: int, e: Edit, fuel: nat, row: nat, col: nat): (s: St<()>)
    requires Defined(g, row, col)
    ensures SameShape(g, s.grid)
  {
    var u := StoreBuffer(env, g, RefName(row, col), row, col, ShiftBuffer(g[row][col].buffer, d, index), fuel);
    if !u.out.Done? then u
    else
      match ShiftDependencies(u.grid[row][col].deps, e)
      case None => St(u.grid, Thrown(NULL_ERROR))
      case Some(deps) => St(Update(u.grid, row, col, u.grid[row][col].(deps := deps)), Done(()))
  }

  /** The inner loop: the cells of one row from `col` on, over the width of the first row. */
  function SweepRow(env: Env, g: Grid, d: Direction, index: int, e: Edit, fuel: nat, row: nat, col: nat): (s: St<()>)
    requires row < |g|
    ensures SameShape(g, s.grid)
    decreases |g[0]| - col, 2
  {
    if col >= |g[0]| then St(g, Done(())) else SweepFrom(env, g, d, index, e, fuel, row, col)
  }

  /** A turn of the inner loop: reading a cell past the end of a shorter row throws. */
  function SweepFrom(env: Env, g: Grid, d: Direction, index: int, e: Edit, fuel: nat, row: nat, col: nat): (s: St<()>)
    requires row < |g| && col < |g[0]|
    ensures SameShape(g, s.grid)
    decreases |g[0]| - col, 1
  {
    if col >= |g[row]| then St(g, Thrown(TYPE_ERROR)) else CellThen(env, g, d, index, e, fuel, row, col)
  }

  /** The cell at `col` is shifted, then the rest of the row unless that threw. */
  function CellThen(env: Env, g: Grid, d: Direction, index: int, e: Edit, fuel: nat, row: nat, col: nat): (s: St<()>)
    requires row < |g| && col < |g[0]| && col < |g[row]|
    ensures SameShape(g, s.grid)
    decreases |g[0]| - col, 0
  {
    var s := SweepCell(env, g, d, index, e, fuel, row, col);
    if !s.out.Done? then s else SweepRow(env, s.grid, d, index, e, fuel, row, col + 1)
  }

  /** The outer loop: the rows from `row` on. */
  function SweepRows(env: Env, g: Grid, d: Direction, index: int, e: Edit, fuel: nat, row: nat): (s: St<()>)
    ensures SameShape(g, s.grid)
    decreases |g| - row
  {
    if row >= |g| then St(g, Done(()))
    else AfterRow(env, SweepRow(env, g, d, index, e, fuel, row, 0), d, index, e, fuel, row)
  }

  /** The outer loop once row `row` has been swept with result `s`. */
  function AfterRow(env: Env, s: St<()>, d: Direction, index: int, e: Edit, fuel: nat, row: nat): (t: St<()>)
    requires row < |s.grid|
    ensures SameShape(s.grid, t.grid)
    decreases |s.grid| - row, 1
  {
    if !s.out.Done? then s else SweepRows(env, s.grid, d, index, e, fuel, row + 1)
  }

  /** One turn of the inner loop: the cell at `col` is swept, then the rest of the row. */
  lemma SweepRowStep(env: Env, g: Grid, d: Direction, index: int, e: Edit, fuel: nat, row: nat, col: nat,
                     s: St<()>)
    requires row < |g| && col < |g[0]| && col < |g[row]|
    requires s == SweepCell(env, g, d, index, e, fuel, row, col)
    ensures SweepRow(env, g, d, index, e, fuel, row, col) ==
              if !s.out.Done? then s else SweepRow(env, s.grid, d, index, e, fuel, row, col + 1)
  {
    assert SweepRow(env, g, d, index, e, fuel, row, col) == SweepFrom(env, g, d, index, e, fuel, row, col);
    assert SweepFrom(env, g, d, index, e, fuel, row, col) == CellThen(env, g, d, index, e, fuel, row, col);
  }

  /** A sweep keeps the shape, so a rectangular sheet stays rectangular. */
  lemma ShapeKeepsRectangular(g: Grid, h: Grid)
    requires Rectangular(g) && SameShape(g, h)
    ensures Rectangular(h)
  {
    forall r | 0 <= r < |h| ensures |h[r]| == |h[0]| {
      assert |h[r]| == |g[r]|;
    }
  }

  // ---------------------------------------------------------------------------------------
  // What a sweep leaves of a sheet of plain texts

  /** A cell that holds a plain text: no '=' in front, no upper-case letter (so no reference
      in it), shown as it is written, and no dependents. */
  predicate PlainCell(c: Cell)
  {
    c.deps == [] && c.display == c.buffer && !Text.StartsWith(c.buffer, '=') &&
    forall k :: 0 <= k < |c.buffer| ==> !Text.IsUpper(c.buffer[k])
  }

  /** A rectangular sheet of plain cells. */
  predicate PlainSheet(g: Grid)
  {
    Rectangular(g) && forall r, c :: 0 <= r < |g| && 0 <= c < |g[r]| ==> PlainCell(g[r][c])
  }

  /** Sweeping a plain cell stores its unchanged text again and keeps its empty dependents,
      so the sheet stays exactly as it was. */
  lemma SweepPlainCell(env: Env, g: Grid, d: Direction, index: int, e: Edit, fuel: nat, row: nat, col: nat)
    requires Defined(g, row, col) && PlainCell(g[row][col]) && fuel >= 1
    ensures SweepCell(env, g, d, index, e, fuel, row, col) == St(g, Done(()))
  {
    var c := g[row][col];
    NoReferenceUnchanged(c.buffer, d, index);
    assert SetBuffer(c, c.buffer, None, env.evaluate) == c;
    assert g[row][col := c] == g[row];
    assert Update(g, row, col, c) == g;
    var u := StoreBuffer(env, g, RefName(row, col), row, col, ShiftBuffer(c.buffer, d, index), fuel);
    assert u == St(g, Done(()));
    assert ShiftDependencies(c.deps, e) == Some([]);
    assert c.(deps := []) == c;
  }

  /** The inner loop leaves a plain sheet as it was, from any column on. */
  lemma {:induction false} SweepPlainRow(env: Env, g: Grid, d: Direction, index: int, e: Edit, fuel: nat, row: nat, col: nat)
    requires PlainSheet(g) && row < |g| && fuel >= 1
    ensures SweepRow(env, g, d, index, e, fuel, row, col) == St(g, Done(()))
    decreases |g[0]| - col
  {
    if col < |g[0]| {
      SweepPlainCell(env, g, d, index, e, fuel, row, col);
      SweepRowStep(env, g, d, index, e, fuel, row, col, St(g, Done(())));
      SweepPlainRow(env, g, d, index, e, fuel, row, col + 1);
    }
  }

  /** The outer loop leaves a plain sheet as it was, from any row on: on such a sheet the
      structural edits come down to their splices. */
  lemma {:induction false} SweepPlainRows(env: Env, g: Grid, d: Direction, index: int, e: Edit, fuel: nat, row: nat)
    requires PlainSheet(g) && fuel >= 1
    ensures SweepRows(env, g, d, index, e, fuel, row) == St(g, Done(()))
    decreases |g| - row
  {
    if row < |g| {
      SweepPlainRow(env, g, d, index, e, fuel, row, 0);
      SweepPlainRows(env, g, d, index, e, fuel, row + 1);
    }
  }

  /** Splicing a row of fresh cells into a plain sheet gives a plain sheet. */
  lemma WithRowPlain(g: Grid, k: nat)
    requires PlainSheet(g) && |g| > 0
    ensures PlainSheet(WithRow(g, k, EmptyRow(|g[0]|)))
  {
    var h := WithRow(g, k, EmptyRow(|g[0]|));
    var at := if k < |g| then k else |g|;
    forall r, c | Defined(h, r, c) ensures PlainCell(h[r][c]) {
      if r < at {
        assert h[r] == g[r] && Defined(g, r, c);
      } else if r > at {
        assert h[r] == g[r - 1] && Defined(g, r - 1, c);
      }
    }
    forall r | 0 <= r < |h| ensures |h[r]| == |h[0]| {
      assert |h[r]| == |g[0]|;
    }
  }

  /** Adding a fresh cell to every row of a plain sheet gives a plain sheet. */
  lemma WithColumnPlain(g: Grid, k: nat)
    requires PlainSheet(g)
    ensures PlainSheet(WithColumn(g, k))
  {
    var h := WithColumn(g, k);
    forall r, c | Defined(h, r, c) ensures PlainCell(h[r][c]) {
      var at := if k < |g[r]| then k else |g[r]|;
      assert h[r] == g[r][..at] + [EmptyCell] + g[r][at..];
      if c < at {
        assert h[r][c] == g[r][c] && Defined(g, r, c);
      } else if c > at {
        assert h[r][c] == g[r][c - 1] && Defined(g, r, c - 1);
      }
    }
  }

  /** Removing a row or a column of a plain sheet gives a plain sheet. */
  lemma WithoutRowPlain(g: Grid, k: nat)
    requires PlainSheet(g) && k < |g|
    ensures PlainSheet(g[..k] + g[k + 1..])
  {
    var h := g[..k] + g[k + 1..];
    forall r, c | Defined(h, r, c) ensures PlainCell(h[r][c]) {
      var i := if r < k then r else r + 1;
      assert h[r] == g[i];
      assert Defined(g, i, c);
    }
  }

  lemma WithoutColumnPlain(g: Grid, k: nat)
    requires PlainSheet(g) && |g| > 0 && k < |g[0]|
    ensures PlainSheet(WithoutColumn(g, k))
  {
    var h := WithoutColumn(g, k);
    forall r, c | Defined(h, r, c) ensures PlainCell(h[r][c]) {
      assert h[r] == CellRemoved(g[r], k);
      var i := if c < k then c else c + 1;
      assert h[r][c] == g[r][i];
      assert Defined(g, r, i);
    }
  }

  class Page {
    var name: string
    var sheet: Grid
    /** The foreign code the page's evaluation calls. */
    const env: Env

    /** Every row is as long as the first. */
    predicate Valid()
      reads this
    {
      Rectangular(sheet)
    }

    /** constructor(name, rows, cols, data?): fills the sheet row by row. */
    constructor(name: string, rows: int, cols: int, data: Option<seq<seq<string>>>, env: Env)
      requires data.Some? ==> Covers(data.value, rows, cols)
      ensures this.name == name && this.env == env
      ensures sheet == InitialSheet(env.evaluate, rows, cols, data)
      ensures Valid()
    {
      var s: Grid := [];
      var row := 0;
      while row < rows
        invariant 0 <= row <= Max0(rows)
        invariant |s| == row && forall r :: 0 <= r < row ==> s[r] == InitialRow(env.evaluate, data, r, cols)
      {
        var cells: seq<Cell> := [];
        var col := 0;
        while col < cols
          invariant 0 <= col <= Max0(cols)
          invariant |cells| == col && forall c :: 0 <= c < col ==> cells[c] == InitialCell(env.evaluate, data, row, c)
        {
          var cell := EmptyCell;
          if data.Some? {
            cell := SetBuffer(cell, data.value[row][col], None, env.evaluate);
          }
          cells := cells + [cell];
          col := col + 1;
        }
        s := s + [cells];
        row := row + 1;
      }
      this.name := name;
      this.sheet := s;
      this.env := env;
    }

    /** getNumRows. */
    method GetNumRows() returns (n: nat)
      ensures n == |sheet|
    {
      n := |sheet|;
    }

    /** getNumCols: the length of the first row, which a sheet without rows does not have. */
    method GetNumCols() returns (n: Outcome<nat>)
      ensures |sheet| == 0 <==> n == Thrown(TYPE_ERROR)
      ensures |sheet| > 0 ==> n == Done(|sheet[0]|)
    {
      if |sheet| == 0 {
        return Thrown(TYPE_ERROR);
      }
      n := Done(|sheet[0]|);
    }

    /** setSheetName. */
    method SetSheetName(newName: string)
      modifies this
      ensures name == newName && sheet == old(sheet)
    {
      name := newName;
    }

    /** getValueAtCell: the display of the cell the reference names. */
    method GetValueAtCell(ref: string) returns (r: Outcome<string>)
      ensures CellAt(sheet, ref).Done? ==> r == Done(CellAt(sheet, ref).value.display)
      ensures CellAt(sheet, ref).Thrown? ==> r == Thrown(CellAt(sheet, ref).message)
    {
      var cell := CellAt(sheet, ref);
      r := if cell.Done? then Done(cell.value.display) else Thrown(cell.message);
    }

    /** getCellBuffer: the buffer of the cell the reference names. */
    method GetCellBuffer(ref: string) returns (r: Outcome<string>)
      ensures CellAt(sheet, ref).Done? ==> r == Done(CellAt(sheet, ref).value.buffer)
      ensures CellAt(sheet, ref).Thrown? ==> r == Thrown(CellAt(sheet, ref).message)
    {
      var cell := CellAt(sheet, ref);
      r := if cell.Done? then Done(cell.value.buffer) else Thrown(cell.message);
    }

    /** setValue(cellReference, buffer), given the fuel its recursion may use. */
    method SetValue(ref: string, buffer: string, fuel: nat) returns (r: Outcome<()>)
      requires Valid()
      modifies this`sheet
      ensures Valid() && name == old(name) && SameShape(old(sheet), sheet)
      ensures sheet == Engine.SetValue(env, old(sheet), ref, buffer, fuel).grid
      ensures r == Engine.SetValue(env, old(sheet), ref, buffer, fuel).out
    {
      var s := Engine.SetValue(env, sheet, ref, buffer, fuel);
      ShapeKeepsRectangular(sheet, s.grid);
      sheet := s.grid;
      r := s.out;
    }

    /** One turn of the sweep's inner loop, at (row, col). */
    method ShiftCell(d: Direction, index: int, e: Edit, fuel: nat, row: nat, col: nat) returns (r: Outcome<()>)
      requires Valid() && Defined(sheet, row, col)
      modifies this`sheet
      ensures Valid() && SameShape(old(sheet), sheet)
      ensures SweepCell(env, old(sheet), d, index, e, fuel, row, col) == St(sheet, r)
      ensures SweepRow(env, old(sheet), d, index, e, fuel, row, col) ==
                if r.Done? then SweepRow(env, sheet, d, index, e, fuel, row, col + 1) else St(sheet, r)
    {
      SweepRowStep(env, sheet, d, index, e, fuel, row, col, SweepCell(env, sheet, d, index, e, fuel, row, col));
      var currentBuffer := sheet[row][col].buffer;
      var newBuffer := ShiftBufferLoop(currentBuffer, d, index);
      var u := UpdateReferenceHelper(env, sheet, RefName(row, col), newBuffer, fuel);
      HelperAtRefName(env, sheet, row, col, newBuffer, fuel);
      ShapeKeepsRectangular(sheet, u.grid);
      if !u.out.Done? {
        sheet := u.grid;
        return u.out;
      }
      var shifted := ShiftCellDependencies(u.grid[row][col], e);
      if shifted.Thrown? {
        sheet := u.grid;
        return Thrown(shifted.message);
      }
      var h := Update(u.grid, row, col, shifted.value);
      ShapeKeepsRectangular(sheet, h);
      sheet := h;
      r := Done(());
    }

    /** The sweep shared by shiftDependenciesDown, -Up, -Right and -Left: every cell, row by
        row, gets its buffer shifted in direction `d` and its dependents remapped by `e`. */
    method ShiftSheet(d: Direction, index: int, e: Edit, fuel: nat) returns (r: Outcome<()>)
      requires Valid()
      modifies this`sheet
      ensures Valid()
      ensures SweepRows(env, old(sheet), d, index, e, fuel, 0) == St(sheet, r)
    {
      var row := 0;
      while row < |sheet|
        invariant 0 <= row <= |sheet|
        invariant Valid() && |sheet| == |old(sheet)|
        invariant SweepRows(env, old(sheet), d, index, e, fuel, 0) == SweepRows(env, sheet, d, index, e, fuel, row)
      {
        ghost var s := SweepRow(env, sheet, d, index, e, fuel, row, 0);
        assert SweepRows(env, sheet, d, index, e, fuel, row) == AfterRow(env, s, d, index, e, fuel, row);
        r := ShiftRow(d, index, e, fuel, row);
        if !r.Done? {
          return;
        }
        row := row + 1;
      }
      r := Done(());
    }

    /** The inner loop of the sweep: the cells of one row, left to right. */
    method ShiftRow(d: Direction, index: int, e: Edit, fuel: nat, row: nat) returns (r: Outcome<()>)
      requires Valid() && row < |sheet|
      modifies this`sheet
      ensures Valid()
      ensures SweepRow(env, old(sheet), d, index, e, fuel, row, 0) == St(sheet, r)
    {
      var col := 0;
      while col < |sheet[0]|
        invariant Valid() && |sheet| == |old(sheet)| && 0 <= col <= |sheet[0]|
        invariant SweepRow(env, old(sheet), d, index, e, fuel, row, 0) == SweepRow(env, sheet, d, index, e, fuel, row, col)
        decreases |sheet[0]| - col
      {
        assert |sheet[row]| == |sheet[0]|;
        r := ShiftCell(d, index, e, fuel, row, col);
        if !r.Done? {
          return;
        }
        col := col + 1;
      }
      r := Done(());
    }

    /** addRow(index): a negative index throws; an index past the number of COLUMNS is cut
        back to it; a row of fresh cells goes in at that index (at the end when the index is
        past the last row), and the sheet is swept downward from that index. */
    method AddRow(index: int, fuel: nat) returns (r: Outcome<()>)
      requires Valid()
      modifies this`sheet
      ensures Valid() && name == old(name)
      ensures index < 0 ==> r == Thrown("Invalid row index") && sheet == old(sheet)
      ensures 0 <= index && |old(sheet)| == 0 ==> r == Thrown(TYPE_ERROR) && sheet == old(sheet)
      ensures 0 <= index && |old(sheet)| > 0 ==>
                var at := if index > |old(sheet)[0]| then |old(sheet)[0]| else index;
                var s := SweepRows(env, WithRow(old(sheet), at, EmptyRow(|old(sheet)[0]|)), Down, at, RowInserted(at), fuel, 0);
                sheet == s.grid && r == s.out && |sheet| == |old(sheet)| + 1 && |sheet[0]| == |old(sheet)[0]|
      ensures 0 <= index && |old(sheet)| > 0 && PlainSheet(old(sheet)) && fuel >= 1 ==>
                var at := if index > |old(sheet)[0]| then |old(sheet)[0]| else index;
                r == Done(()) && sheet == WithRow(old(sheet), at, EmptyRow(|old(sheet)[0]|))
    {
      if index < 0 {
        return Thrown("Invalid row index");
      }
      if |sheet| == 0 {
        return Thrown(TYPE_ERROR);
      }
      var at := index;
      if at > |sheet[0]| {
        at := |sheet[0]|;
      }
      var newRow: seq<Cell> := [];
      for col := 0 to |sheet[0]|
        invariant newRow == EmptyRow(col)
      {
        newRow := newRow + [EmptyCell];
      }
      ghost var before := sheet;
      sheet := WithRow(sheet, at, newRow);
      assert Valid() by {
        forall k | 0 <= k < |sheet| ensures |sheet[k]| == |sheet[0]| {
          assert sheet[k] in before || sheet[k] == newRow;
        }
      }
      r := ShiftSheet(Down, at, RowInserted(at), fuel);
      if PlainSheet(before) && fuel >= 1 {
        WithRowPlain(before, at);
        SweepPlainRows(env, WithRow(before, at, newRow), Down, at, RowInserted(at), fuel, 0);
      }
    }

    /** addColumn(index): a negative index throws; an index past the number of columns is cut
        back to it; every row gets a fresh cell at that index, and the sheet is swept
        rightward from it. */
    method AddColumn(index: int, fuel: nat) returns (r: Outcome<()>)
      requires Valid()
      modifies this`sheet
      ensures Valid() && name == old(name)
      ensures index < 0 ==> r == Thrown("Invalid column index") && sheet == old(sheet)
      ensures 0 <= index && |old(sheet)| == 0 ==> r == Thrown(TYPE_ERROR) && sheet == old(sheet)
      ensures 0 <= index && |old(sheet)| > 0 ==>
                var at := if index > |old(sheet)[0]| then |old(sheet)[0]| else index;
                var s := SweepRows(env, WithColumn(old(sheet), at), Right, at, ColumnInserted(at), fuel, 0);
                sheet == s.grid && r == s.out && |sheet| == |old(sheet)| && |sheet[0]| == |old(sheet)[0]| + 1
      ensures 0 <= index && |old(sheet)| > 0 && PlainSheet(old(sheet)) && fuel >= 1 ==>
                var at := if index > |old(sheet)[0]| then |old(sheet)[0]| else index;
                r == Done(()) && sheet == WithColumn(old(sheet), at)
    {
      if index < 0 {
        return Thrown("Invalid column index");
      }
      if |sheet| == 0 {
        return Thrown(TYPE_ERROR);
      }
      var at := index;
      if at > |sheet[0]| {
        at := |sheet[0]|;
      }
      var s := sheet;
      for row := 0 to |s|
        invariant |s| == |sheet|
        invariant forall k :: 0 <= k < row ==> s[k] == CellAdded(sheet[k], at)
        invariant forall k :: row <= k < |s| ==> s[k] == sheet[k]
      {
        s := s[row := CellAdded(s[row], at)];
      }
      assert s == WithColumn(sheet, at);
      assert Rectangular(s) by {
        forall k | 0 <= k < |s| ensures |s[k]| == |s[0]| {
          assert |s[k]| == |sheet[k]| + 1;
        }
      }
      ghost var before := sheet;
      sheet := s;
      r := ShiftSheet(Right, at, ColumnInserted(at), fuel);
      if PlainSheet(before) && fuel >= 1 {
        WithColumnPlain(before, at);
        SweepPlainRows(env, s, Right, at, ColumnInserted(at), fuel, 0);
      }
    }

    /** removeRow(index): an index outside the rows throws and changes nothing; otherwise the
        row goes and the sheet is swept upward from its index. */
    method RemoveRow(index: int, fuel: nat) returns (r: Outcome<()>)
      requires Valid()
      modifies this`sheet
      ensures Valid() && name == old(name)
      ensures (index < 0 || index >= |old(sheet)|) ==> r == Thrown("Invalid row index") && sheet == old(sheet)
      ensures 0 <= index < |old(sheet)| ==>
                var s := SweepRows(env, old(sheet)[..index] + old(sheet)[index + 1..], Up, index, RowRemoved(index), fuel, 0);
                sheet == s.grid && r == s.out && |sheet| == |old(sheet)| - 1 &&
                (|sheet| > 0 ==> |sheet[0]| == |old(sheet)[0]|)
      ensures 0 <= index < |old(sheet)| && PlainSheet(old(sheet)) && fuel >= 1 ==>
                r == Done(()) && sheet == old(sheet)[..index] + old(sheet)[index + 1..]
    {
      if index < 0 || index >= |sheet| {
        return Thrown("Invalid row index");
      }
      ghost var before := sheet;
      sheet := sheet[..index] + sheet[index + 1..];
      assert Valid() by {
        forall k | 0 <= k < |sheet| ensures |sheet[k]| == |before[0]| {
          assert sheet[k] in before;
        }
      }
      r := ShiftSheet(Up, index, RowRemoved(index), fuel);
      if PlainSheet(before) && fuel >= 1 {
        WithoutRowPlain(before, index);
        SweepPlainRows(env, before[..index] + before[index + 1..], Up, index, RowRemoved(index), fuel, 0);
      }
    }

    /** removeColumn(index): a negative index throws, reading the width of a sheet without
        rows throws, an index outside the columns throws, each without changing anything;
        otherwise every row loses the cell at that index and the sheet is swept leftward. */
    method RemoveColumn(index: int, fuel: nat) returns (r: Outcome<()>)
      requires Valid()
      modifies this`sheet
      ensures Valid() && name == old(name)
      ensures index < 0 ==> r == Thrown("Invalid column index") && sheet == old(sheet)
      ensures 0 <= index && |old(sheet)| == 0 ==> r == Thrown(TYPE_ERROR) && sheet == old(sheet)
      ensures |old(sheet)| > 0 && index >= |old(sheet)[0]| ==> r == Thrown("Invalid column index") && sheet == old(sheet)
      ensures |old(sheet)| > 0 && 0 <= index < |old(sheet)[0]| ==>
                var s := SweepRows(env, WithoutColumn(old(sheet), index), Left, index, ColumnRemoved(index), fuel, 0);
                sheet == s.grid && r == s.out && |sheet| == |old(sheet)| && |sheet[0]| == |old(sheet)[0]| - 1
      ensures |old(sheet)| > 0 && 0 <= index < |old(sheet)[0]| && PlainSheet(old(sheet)) && fuel >= 1 ==>
                r == Done(()) && sheet == WithoutColumn(old(sheet), index)
    {
      if index < 0 {
        return Thrown("Invalid column index");
      }
      if |sheet| == 0 {
        return Thrown(TYPE_ERROR);
      }
      if index >= |sheet[0]| {
        return Thrown("Invalid column index");
      }
      var s := sheet;
      for row := 0 to |s|
        invariant |s| == |sheet|
        invariant forall k :: 0 <= k < row ==> s[k] == CellRemoved(sheet[k], index)
        invariant forall k :: row <= k < |s| ==> s[k] == sheet[k]
      {
        s := s[row := CellRemoved(s[row], index)];
      }
      assert s == WithoutColumn(sheet, index);
      assert Rectangular(s) by {
        forall k | 0 <= k < |s| ensures |s[k]| == |s[0]| {
          assert |s[k]| == |sheet[k]| - 1;
        }
      }
      ghost var before := sheet;
      sheet := s;
      r := ShiftSheet(Left, index, ColumnRemoved(index), fuel);
      if PlainSheet(before) && fuel >= 1 {
        WithoutColumnPlain(before, index);
        SweepPlainRows(env, s, Left, index, ColumnRemoved(index), fuel, 0);
      }
    }

    /** getData: the buffers, row by row. */
    method GetData() returns (output: seq<seq<string>>)
      requires Valid()
      ensures output == Data(sheet)
    {
      output := [];
      for r := 0 to |sheet|
        invariant output == Data(sheet)[..r]
      {
        var row: seq<string> := [];
        for c := 0 to |sheet[0]|
          invariant row == Data(sheet)[r][..c]
        {
          row := row + [sheet[r][c].buffer];
        }
        assert row == Data(sheet)[r];
        assert Data(sheet)[..r + 1] == Data(sheet)[..r] + [Data(sheet)[r]];
        output := output + [row];
      }
      assert Data(sheet)[..|sheet|] == Data(sheet);
    }
  }

  /** A row of n fresh cells. */
  function EmptyRow(n: nat): (row: seq<Cell>)
    ensures |row| == n && forall c :: 0 <= c < n ==> row[c] == EmptyCell
  {
    seq(n, _ => EmptyCell)
  }
}
