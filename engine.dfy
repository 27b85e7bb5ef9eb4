/** The recalculation engine of a page (the private methods of SpreadSheetPageModel):
    reference lookup, formula evaluation (every REF call, then every SUM call, then every
    AVG call), dependency registration behind its cycle guard, and the propagation of a
    change to the dependents of a cell.

    The source mutates its cells in place and lets exceptions unwind through the mutations.
    Here the grid is a value: every operation takes the grid and returns the grid it leaves
    behind together with its outcome, so an exception keeps the effects that preceded it.
    The cell an operation holds on to is named by its position, which no operation of this
    module moves. */
module Engine {
  import opened Wrappers
  import opened Text
  import opened Coordinates
  import opened Cells
  import opened Formulas

  /** The sheet: rows of cells. */
  type Grid = seq<seq<Cell>>

  /** The foreign code the engine calls: mathjs' evaluate followed by String() (None when it
      throws), JavaScript's Number() applied to a display (None for NaN) and the text
      JavaScript gives a number. */
  datatype Env = Env(evaluate: string -> Option<string>, toNumber: string -> Option<real>, show: real -> string)

  /** The grid an operation leaves behind and how the operation ended. */
  datatype St<+T> = St(grid: Grid, out: Outcome<T>)

  /** What a method call on the `undefined` that an out-of-range array access yields throws. */
  const TYPE_ERROR: string := "TypeError: cannot read properties of undefined"

  predicate SameShape(g: Grid, h: Grid)
  {
    |g| == |h| && forall r :: 0 <= r < |g| ==> |g[r]| == |h[r]|
  }

  predicate Defined(g: Grid, row: int, col: int)
  {
    0 <= row < |g| && 0 <= col < |g[row]|
  }

  /** Every row as long as the first: the shape every page keeps. */
  predicate Rectangular(g: Grid)
  {
    forall r :: 0 <= r < |g| ==> |g[r]| == |g[0]|
  }

  /** The grid with the cell at (row, col) replaced. */
  function Update(g: Grid, row: int, col: int, c: Cell): (h: Grid)
    requires Defined(g, row, col)
    ensures SameShape(g, h) && h[row][col] == c
    ensures forall r, k :: Defined(g, r, k) && (r != row || k != col) ==> h[r][k] == g[r][k]
  {
    g[row := g[row][col := c]]
  }

  // ---------------------------------------------------------------------------------------
  // getCellFromReference

  /** getCellFromReference up to the array access: the zero-based (row, column) a reference
      names, or what it throws. The bounds check compares with `>`, so row −1 (from row
      number 0) and the row or column just past the sheet get through; reading the column
      count throws on a sheet without rows. */
  function Locate(g: Grid, ref: string): (r: Outcome<(int, int)>)
    ensures r.Done? <==> RowColFromReference(ref).Some? && |g| > 0 &&
                         RowColFromReference(ref).value.1 <= |g[0]| && RowColFromReference(ref).value.0 <= |g|
    ensures r.Done? ==> r.value == RowColFromReference(ref).value && r.value.0 >= -1 && r.value.1 >= 0
    ensures !r.Stuck?
  {
    match RowColFromReference(ref)
    case None => Thrown("Invalid row or col reference given")
    case Some((row, col)) =>
      RowColBounds(ref);
      if |g| == 0 then Thrown(TYPE_ERROR)
      else if col > |g[0]| || row > |g| then Thrown("Reference out of bounds!")
      else Done((row, col))
  }

  /** A parsed reference has a row of at least −1 and a non-negative column. */
  lemma RowColBounds(ref: string)
    requires RowColFromReference(ref).Some?
    ensures RowColFromReference(ref).value.0 >= -1 && RowColFromReference(ref).value.1 >= 0
  {
    FirstRunIs(ref, Letters);
    var letters := FirstRun(ref, Letters).value;
    assert forall i :: 0 <= i < |letters| ==> IsLetter(letters[i]);
  }

  /** The cell a reference names, for a caller that goes on to call a method of it. */
  function CellAt(g: Grid, ref: string): (r: Outcome<Cell>)
    ensures !r.Stuck?
  {
    var p :- Locate(g, ref);
    if Defined(g, p.0, p.1) then Done(g[p.0][p.1]) else Thrown(TYPE_ERROR)
  }

  // ---------------------------------------------------------------------------------------
  // validDependency

  /** validDependency(fromCell, toCell): false when `to` already lists `from` as a dependent;
      otherwise the check recurses into the dependents of `from` but discards what the
      recursive calls return, so it is true unless one of them throws or never ends. */
  function ValidDependency(g: Grid, from: string, to: string, fuel: nat): Outcome<bool>
    decreases fuel, 0
  {
    if fuel == 0 then Stuck
    else
      var target :- CellAt(g, to);
      if from in target.deps then Done(false)
      else
        var source :- CellAt(g, from);
        var walked :- Walk(g, source.deps, to, fuel - 1);
        Done(true)
  }

  /** The forEach of validDependency over the dependents of `from`. */
  function Walk(g: Grid, deps: seq<string>, to: string, fuel: nat): Outcome<()>
    decreases fuel, |deps|
  {
    if deps == [] then Done(())
    else
      var ignored :- ValidDependency(g, deps[0], to, fuel);
      Walk(g, deps[1..], to, fuel)
  }

  // ---------------------------------------------------------------------------------------
  // The mutually recursive operations. Each takes fuel; running out of it stands for the
  // source's endless loops and call-stack exhaustion.

  /** setValue(cellReference, buffer): the cell is read first, so a row outside the sheet
      throws a TypeError before anything else happens (a column one past the end reads
      undefined, which only fails at setBuffer). A buffer starting with '=' is evaluated
      without its '=' and stored with the evaluated text, any other buffer is stored as it
      is; then the dependents are updated. evaluateExpression catches everything itself, so
      the catch of setValue is only reached by the TypeError of a missing cell, which its
      own setBuffer('!ERR') on that missing cell throws again. */
  function SetValue(env: Env, g: Grid, ref: string, buffer: string, fuel: nat): (r: St<()>)
    decreases fuel, 0
    ensures SameShape(g, r.grid)
  {
    if fuel == 0 then St(g, Stuck)
    else
      match Locate(g, ref)
      case Thrown(m) => St(g, Thrown(m))
      case Stuck => St(g, Stuck)
      case Done((row, col)) =>
        if !(0 <= row < |g|) then St(g, Thrown(TYPE_ERROR))
        else if StartsWith(buffer, '=') then
          var ev := Evaluate(env, g, ref, buffer[1..], fuel - 1);
          if ev.out.Stuck? then St(ev.grid, Stuck)
          else if !Defined(ev.grid, row, col) then St(ev.grid, Thrown(TYPE_ERROR))
          else
            var h := Update(ev.grid, row, col, SetBuffer(ev.grid[row][col], buffer, Some(ev.out.value), env.evaluate));
            UpdateReferences(env, h, row, col, fuel - 1)
        else if Defined(g, row, col) then
          var h := Update(g, row, col, SetBuffer(g[row][col], buffer, None, env.evaluate));
          UpdateReferences(env, h, row, col, fuel - 1)
        else St(g, Thrown(TYPE_ERROR))
  }

  /** updateReferences(cell): for each dependent of the cell at (row, col), in order, its
      buffer is evaluated again and then its own dependents are updated, depth first. */
  function UpdateReferences(env: Env, g: Grid, row: int, col: int, fuel: nat): (r: St<()>)
    decreases fuel, 0
    ensures SameShape(g, r.grid)
  {
    if fuel == 0 then St(g, Stuck)
    else if !Defined(g, row, col) then St(g, Thrown(TYPE_ERROR))
    else UpdateEach(env, g, g[row][col].deps, fuel - 1)
  }

  /** The forEach of updateReferences over a snapshot of the dependents. */
  function UpdateEach(env: Env, g: Grid, deps: seq<string>, fuel: nat): (r: St<()>)
    decreases fuel, |deps| + 1
    ensures SameShape(g, r.grid)
  {
    if deps == [] then St(g, Done(()))
    else
      match CellAt(g, deps[0])
      case Thrown(m) => St(g, Thrown(m))
      case Stuck => St(g, Stuck)
      case Done(cell) =>
        var h := UpdateReferenceHelper(env, g, deps[0], cell.buffer, fuel);
        if !h.out.Done? then h
        else
          match Locate(h.grid, deps[0])
          case Thrown(m) => St(h.grid, Thrown(m))
          case Stuck => St(h.grid, Stuck)
          case Done((row, col)) =>
            var u := UpdateReferences(env, h.grid, row, col, fuel);
            if !u.out.Done? then u else UpdateEach(env, u.grid, deps[1..], fuel)
  }

  /** updateReferenceHelper(cellReference, buffer): stores the buffer like setValue, but a
      failed evaluation is rethrown instead of stored, and the dependents are not updated. */
  function UpdateReferenceHelper(env: Env, g: Grid, ref: string, buffer: string, fuel: nat): (r: St<()>)
    decreases fuel, 1
    ensures SameShape(g, r.grid)
  {
    if fuel == 0 then St(g, Stuck)
    else
      match Locate(g, ref)
      case Thrown(m) => St(g, Thrown(m))
      case Stuck => St(g, Stuck)
      case Done((row, col)) => StoreBuffer(env, g, ref, row, col, buffer, fuel)
  }

  /** What updateReferenceHelper does once `ref` has been located at (row, col): the cell is
      read first, as in setValue; a failed store is rethrown as "Invalid Expression" followed
      by the error's text. */
  function StoreBuffer(env: Env, g: Grid, ref: string, row: int, col: int, buffer: string, fuel: nat): (r: St<()>)
    decreases fuel, 0
    ensures SameShape(g, r.grid)
  {
    if fuel == 0 then St(g, Stuck)
    else if !(0 <= row < |g|) then St(g, Thrown(TYPE_ERROR))
    else if StartsWith(buffer, '=') then
      var ev := Evaluate(env, g, ref, buffer[1..], fuel - 1);
      if ev.out.Stuck? then St(ev.grid, Stuck)
      else if ev.out.Done? && Defined(ev.grid, row, col) then
        St(Update(ev.grid, row, col, SetBuffer(ev.grid[row][col], buffer, Some(ev.out.value), env.evaluate)), Done(()))
      else St(ev.grid, Thrown("Invalid Expression " + TYPE_ERROR))
    else if Defined(g, row, col) then
      St(Update(g, row, col, SetBuffer(g[row][col], buffer, None, env.evaluate)), Done(()))
    else St(g, Thrown(TYPE_ERROR))
  }

  /** evaluateExpression(originCell, input): rewrites the REF calls until none is left, then
      the SUM calls, then the AVG calls; whatever is thrown on the way makes the result the
      error text. */
  function Evaluate(env: Env, g: Grid, origin: string, input: string, fuel: nat): (r: St<string>)
    decreases fuel, 0
    ensures SameShape(g, r.grid)
    ensures !r.out.Thrown?
  {
    if fuel == 0 then St(g, Stuck)
    else
      var a := Repeat(env, g, origin, input, REF, fuel - 1);
      match a.out
      case Stuck => St(a.grid, Stuck)
      case Thrown(_) => St(a.grid, Done(ERR))
      case Done(afterRefs) =>
        var b := Repeat(env, a.grid, origin, afterRefs, SUM, fuel - 1);
        match b.out
        case Stuck => St(b.grid, Stuck)
        case Thrown(_) => St(b.grid, Done(ERR))
        case Done(afterSums) =>
          var c := Repeat(env, b.grid, origin, afterSums, AVG, fuel - 1);
          match c.out
          case Stuck => St(c.grid, Stuck)
          case Thrown(_) => St(c.grid, Done(ERR))
          case Done(afterAvgs) => St(c.grid, Done(afterAvgs))
  }

  /** while (input.includes(NAME)) input = evaluate<NAME>Expressions(originCell, input) */
  function Repeat(env: Env, g: Grid, origin: string, input: string, k: Call, fuel: nat): (r: St<string>)
    decreases fuel, 0
    ensures SameShape(g, r.grid)
  {
    if !Contains(input, Name(k)) then St(g, Done(input))
    else if fuel == 0 then St(g, Stuck)
    else
      var s := Replace(env, g, origin, input, k, 0, fuel - 1);
      match s.out
      case Done(t) => Repeat(env, s.grid, origin, t, k, fuel - 1)
      case Thrown(m) => St(s.grid, Thrown(m))
      case Stuck => St(s.grid, Stuck)
  }

  /** input.replace(/NAME\(([^)]+)\)/g, callback) from position `from` on: every match, left
      to right, is replaced by what the callback returns for its argument. */
  function Replace(env: Env, g: Grid, origin: string, s: string, k: Call, from: nat, fuel: nat): (r: St<string>)
    requires from <= |s|
    decreases fuel, |s| - from
    ensures SameShape(g, r.grid)
  {
    match NextCall(s, Name(k), from)
    case None => St(g, Done(s[from..]))
    case Some((i, j)) =>
      var v := Callback(env, g, origin, k, s[i + |Name(k)| + 1..j], fuel);
      match v.out
      case Thrown(m) => St(v.grid, Thrown(m))
      case Stuck => St(v.grid, Stuck)
      case Done(text) =>
        var rest := Replace(env, v.grid, origin, s, k, j + 1, fuel);
        match rest.out
        case Done(t) => St(rest.grid, Done(s[from..i] + text + t))
        case Thrown(m) => St(rest.grid, Thrown(m))
        case Stuck => St(rest.grid, Stuck)
  }

  /** The replacement callbacks: REF registers the origin as a dependent of the referenced
      cell and yields that cell's display; SUM and AVG yield sumCells and averageCells. */
  function Callback(env: Env, g: Grid, origin: string, k: Call, arg: string, fuel: nat): (r: St<string>)
    decreases fuel, 0
    ensures SameShape(g, r.grid)
  {
    if fuel == 0 then St(g, Stuck)
    else
      match k
      case REF =>
        var a := AddDependency(env, g, arg, origin, fuel - 1);
        if !a.out.Done? then St(a.grid, a.out.PropagateFailure())
        else
          (match CellAt(a.grid, arg)
           case Done(c) => St(a.grid, Done(c.display))
           case Thrown(m) => St(a.grid, Thrown(m))
           case Stuck => St(a.grid, Stuck))
      case SUM => SumCells(env, g, origin, arg, fuel - 1)
      case AVG => AverageCells(env, g, origin, arg, fuel - 1)
  }

  /** sumCells(originCell, range): the text of the sum of the cells the argument names, or
      the error text as soon as one of them does not display a number. */
  function SumCells(env: Env, g: Grid, origin: string, range: string, fuel: nat): (r: St<string>)
    decreases fuel, 0
    ensures SameShape(g, r.grid)
  {
    if fuel == 0 then St(g, Stuck)
    else
      match ArgumentCells(range)
      case Thrown(m) => St(g, Thrown(m))
      case Stuck => St(g, Stuck)
      case Done(cells) =>
        var a := Accumulate(env, g, origin, cells, 0.0, fuel - 1);
        match a.out
        case Done(None) => St(a.grid, Done(ERR))
        case Done(Some(sum)) => St(a.grid, Done(env.show(sum)))
        case Thrown(m) => St(a.grid, Thrown(m))
        case Stuck => St(a.grid, Stuck)
  }

  /** averageCells(originCell, range): the text of the mean of the cells the argument names
      (0 / 0 = NaN for none); a cell that does not display a number throws. */
  function AverageCells(env: Env, g: Grid, origin: string, range: string, fuel: nat): (r: St<string>)
    decreases fuel, 0
    ensures SameShape(g, r.grid)
  {
    if fuel == 0 then St(g, Stuck)
    else
      match ArgumentCells(range)
      case Thrown(m) => St(g, Thrown(m))
      case Stuck => St(g, Stuck)
      case Done(cells) =>
        var a := Accumulate(env, g, origin, cells, 0.0, fuel - 1);
        match a.out
        case Done(None) => St(a.grid, Thrown("Cell is not a Number"))
        case Done(Some(sum)) =>
          St(a.grid, Done(if |cells| == 0 then "NaN" else env.show(sum / (|cells| as real))))
        case Thrown(m) => St(a.grid, Thrown(m))
        case Stuck => St(a.grid, Stuck)
  }

  /** The for-of loop shared by sumCells and averageCells: each cell in turn is visited and
      its number added; None at the first display that is not a number, where both loops
      stop. */
  function Accumulate(env: Env, g: Grid, origin: string, cells: seq<string>, sum: real, fuel: nat): (r: St<Option<real>>)
    decreases fuel, |cells| + 1
    ensures SameShape(g, r.grid)
  {
    if cells == [] then St(g, Done(Some(sum)))
    else
      var t := Visit(env, g, origin, cells[0], fuel);
      match t.out
      case Done(Some(v)) => Accumulate(env, t.grid, origin, cells[1..], sum + v, fuel)
      case _ => t
  }

  /** One turn of that loop: the cell gets the origin as a dependent, then its display is
      read as a number (None for NaN). */
  function Visit(env: Env, g: Grid, origin: string, cell: string, fuel: nat): (r: St<Option<real>>)
    decreases fuel, 1
    ensures SameShape(g, r.grid)
  {
    var a := AddDependency(env, g, cell, origin, fuel);
    if !a.out.Done? then St(a.grid, a.out.PropagateFailure())
    else
      match CellAt(a.grid, cell)
      case Thrown(m) => St(a.grid, Thrown(m))
      case Stuck => St(a.grid, Stuck)
      case Done(c) => St(a.grid, Done(env.toNumber(c.display)))
  }

  /** addDependency(fromCell, toCell): when the guard accepts, `to` is added to the
      dependents of `from`; when it rejects, `from` (the referenced cell) is set to the
      error text. */
  function AddDependency(env: Env, g: Grid, from: string, to: string, fuel: nat): (r: St<()>)
    decreases fuel, 0
    ensures SameShape(g, r.grid)
  {
    if fuel == 0 then St(g, Stuck)
    else
      match ValidDependency(g, from, to, fuel)
      case Thrown(m) => St(g, Thrown(m))
      case Stuck => St(g, Stuck)
      case Done(false) => SetValue(env, g, from, ERR, fuel - 1)
      case Done(true) =>
        match Locate(g, from)
        case Thrown(m) => St(g, Thrown(m))
        case Stuck => St(g, Stuck)
        case Done((row, col)) =>
          if Defined(g, row, col) then St(Update(g, row, col, Cells.AddDependency(g[row][col], to)), Done(()))
          else St(g, Thrown(TYPE_ERROR))
  }
}
