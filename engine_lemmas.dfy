/** What the recalculation engine does on the inputs its callers give it: lookups of
    reference names, the verdicts of the cycle guard, the registration of dependents, plain
    writes, formulas with and without calls, SUM and AVG over their cells, and the update
    of a dependent after a change. */
module EngineLemmas {
  import opened Wrappers
  import opened Text
  import opened Coordinates
  import opened Cells
  import opened Formulas
  import opened Engine

  // ---------------------------------------------------------------------------------------
  // getCellFromReference

  /** The reference name of a cell of the sheet finds that cell. */
  lemma LocateRefName(g: Grid, row: nat, col: nat)
    requires Rectangular(g) && Defined(g, row, col)
    ensures Locate(g, RefName(row, col)) == Done((row, col))
    ensures CellAt(g, RefName(row, col)) == Done(g[row][col])
  {
    RowColOfRefName(row, col);
  }

  /** updateReferenceHelper on a cell's own name stores the buffer at that cell. */
  lemma HelperAtRefName(env: Env, g: Grid, row: nat, col: nat, buffer: string, fuel: nat)
    requires Rectangular(g) && Defined(g, row, col)
    ensures UpdateReferenceHelper(env, g, RefName(row, col), buffer, fuel) ==
              StoreBuffer(env, g, RefName(row, col), row, col, buffer, fuel)
  {
    LocateRefName(g, row, col);
  }

  /** Row number 0 gets through the bounds check as row −1; reading its cell then throws. */
  lemma RowNumberZero(g: Grid, col: nat)
    requires |g| > 0 && col < |g[0]|
    ensures Locate(g, ColumnName(col) + NatToString(0)) == Done((-1, col))
    ensures CellAt(g, ColumnName(col) + NatToString(0)) == Thrown(TYPE_ERROR)
  {
    ParseName(col, 0);
  }

  /** setValue reads its cell before anything else: with row number 0, whatever the buffer,
      it throws the TypeError at once and the sheet is left as it was. */
  lemma SetValueRowZero(env: Env, g: Grid, col: nat, buffer: string, fuel: nat)
    requires fuel >= 1 && |g| > 0 && col < |g[0]|
    ensures SetValue(env, g, ColumnName(col) + NatToString(0), buffer, fuel) == St(g, Thrown(TYPE_ERROR))
  {
    RowNumberZero(g, col);
  }

  /** The row just past the last one also gets through the bounds check and throws when
      read; the row after it fails the check. */
  lemma RowsPastTheEnd(g: Grid, col: nat)
    requires |g| > 0 && col < |g[0]|
    ensures Locate(g, RefName(|g|, col)) == Done((|g|, col))
    ensures CellAt(g, RefName(|g|, col)) == Thrown(TYPE_ERROR)
    ensures Locate(g, RefName(|g| + 1, col)) == Thrown("Reference out of bounds!")
  {
    RowColOfRefName(|g|, col);
    RowColOfRefName(|g| + 1, col);
  }

  /** The lookup depends on the shape of the sheet only. */
  lemma LocateShape(g: Grid, h: Grid, ref: string)
    requires SameShape(g, h)
    ensures Locate(g, ref) == Locate(h, ref)
  {
  }

  // ---------------------------------------------------------------------------------------
  // validDependency

  /** The guard rejects exactly when `to` already lists `from` among its dependents; it
      looks no further, whatever the recursion into the dependents of `from` finds. */
  lemma ValidDependencyRejects(g: Grid, from: string, to: string, fuel: nat)
    ensures ValidDependency(g, from, to, fuel) == Done(false) ==>
              CellAt(g, to).Done? && from in CellAt(g, to).value.deps
    ensures fuel > 0 && CellAt(g, to).Done? && from in CellAt(g, to).value.deps ==>
              ValidDependency(g, from, to, fuel) == Done(false)
  {
  }

  /** The recursion's verdicts are dropped: when `from`'s only dependent `mid` is already a
      dependent of `to`, the guard rejects `mid` and still accepts `from`. */
  lemma IndirectCycleAccepted(g: Grid, from: string, mid: string, to: string, fuel: nat)
    requires fuel >= 2
    requires CellAt(g, to).Done? && from !in CellAt(g, to).value.deps && mid in CellAt(g, to).value.deps
    requires CellAt(g, from).Done? && CellAt(g, from).value.deps == [mid]
    ensures ValidDependency(g, mid, to, fuel - 1) == Done(false)
    ensures ValidDependency(g, from, to, fuel) == Done(true)
  {
    var deps := CellAt(g, from).value.deps;
    assert deps[0] == mid && deps[1..] == [];
    assert Walk(g, deps, to, fuel - 1) == Done(());
  }

  /** With no dependents of its own, `from` is accepted unless `to` lists it. */
  lemma LeafAccepted(g: Grid, from: string, to: string, fuel: nat)
    requires fuel >= 1
    requires CellAt(g, to).Done? && from !in CellAt(g, to).value.deps
    requires CellAt(g, from).Done? && CellAt(g, from).value.deps == []
    ensures ValidDependency(g, from, to, fuel) == Done(true)
  {
  }

  // ---------------------------------------------------------------------------------------
  // addDependency

  /** An accepted dependency changes one thing: `to` joins the dependents of `from`. */
  lemma AddDependencyAccepted(env: Env, g: Grid, from: string, to: string, fuel: nat, row: int, col: int)
    requires fuel > 0 && ValidDependency(g, from, to, fuel) == Done(true)
    requires Locate(g, from) == Done((row, col))
    ensures Defined(g, row, col)
    ensures var r := Engine.AddDependency(env, g, from, to, fuel);
            r.out == Done(()) && SameShape(g, r.grid) &&
            r.grid[row][col].buffer == g[row][col].buffer && r.grid[row][col].display == g[row][col].display &&
            (forall y :: y in r.grid[row][col].deps <==> y in g[row][col].deps || y == to) &&
            g[row][col].deps <= r.grid[row][col].deps &&
            forall r', k :: Defined(g, r', k) && (r' != row || k != col) ==> r.grid[r'][k] == g[r'][k]
  {
  }

  /** A rejected dependency adds no edge; instead the referenced cell `from` is set to the
      error text, which, when nothing depends on it, is all that changes. */
  lemma AddDependencyRejected(env: Env, g: Grid, from: string, to: string, fuel: nat, row: int, col: int)
    requires fuel >= 3 && ValidDependency(g, from, to, fuel) == Done(false)
    requires Locate(g, from) == Done((row, col)) && Defined(g, row, col) && g[row][col].deps == []
    ensures Engine.AddDependency(env, g, from, to, fuel) == St(Update(g, row, col, Cell(ERR, ERR, [])), Done(()))
  {
    SetPlainValue(env, g, from, ERR, fuel - 1, row, col);
  }

  // ---------------------------------------------------------------------------------------
  // setValue

  /** A buffer that does not start with '=' is stored verbatim as buffer and display; when
      nothing depends on the cell, nothing else changes. */
  lemma SetPlainValue(env: Env, g: Grid, ref: string, b: string, fuel: nat, row: int, col: int)
    requires fuel >= 2 && !StartsWith(b, '=')
    requires Locate(g, ref) == Done((row, col)) && Defined(g, row, col) && g[row][col].deps == []
    ensures SetValue(env, g, ref, b, fuel) == St(Update(g, row, col, Cell(b, b, [])), Done(()))
  {
    var c := SetBuffer(g[row][col], b, None, env.evaluate);
    assert c == Cell(b, b, []);
    var h: Grid := Update(g, row, col, c);
    assert UpdateReferences(env, h, row, col, fuel - 1) == St(h, Done(()));
  }

  /** A text in which evaluateExpression finds no call: it holds none of REF, SUM and AVG. */
  predicate NoCalls(t: string)
  {
    !Contains(t, "REF") && !Contains(t, "SUM") && !Contains(t, "AVG")
  }

  /** A text without REF, SUM or AVG comes out of evaluateExpression unchanged, and the
      sheet is untouched. */
  lemma EvaluateWithoutCalls(env: Env, g: Grid, origin: string, input: string, fuel: nat)
    requires fuel >= 1
    requires NoCalls(input)
    ensures Evaluate(env, g, origin, input, fuel) == St(g, Done(input))
  {
    assert Name(REF) == "REF" && Name(SUM) == "SUM" && Name(AVG) == "AVG";
  }

  /** A formula without calls, such as "=1+2" or "=abc+def": the buffer is stored and the
      display is computed from the text after '='; when nothing depends on the cell,
      nothing else changes. */
  lemma SetFormulaWithoutCalls(env: Env, g: Grid, ref: string, e: string, fuel: nat, row: int, col: int)
    requires fuel >= 3
    requires NoCalls(e)
    requires Locate(g, ref) == Done((row, col)) && Defined(g, row, col) && g[row][col].deps == []
    ensures SetValue(env, g, ref, "=" + e, fuel) ==
              St(Update(g, row, col, Cell("=" + e, EvaluatedDisplay(e, env.evaluate), [])), Done(()))
  {
    var c := Cell("=" + e, EvaluatedDisplay(e, env.evaluate), []);
    var h: Grid := Update(g, row, col, c);
    assert Evaluate(env, g, ref, ("=" + e)[1..], fuel - 1) == St(g, Done(e)) by {
      assert ("=" + e)[1..] == e;
      EvaluateWithoutCalls(env, g, ref, e, fuel - 1);
    }
    assert SetBuffer(g[row][col], "=" + e, Some(e), env.evaluate) == c;
    assert UpdateReferences(env, h, row, col, fuel - 1) == St(h, Done(()));
  }

  // ---------------------------------------------------------------------------------------
  // evaluateRef

  /** In NAME(x), with x non-empty and free of ')', the one call spans the whole text. */
  lemma WholeCall(name: string, x: string)
    requires |x| > 0 && ')' !in x
    ensures var s := name + "(" + x + ")";
            NextCall(s, name, 0) == Some((0, |s| - 1)) && NextCall(s, name, |s|) == None &&
            s[|name| + 1..|s| - 1] == x && Contains(s, name)
  {
    var s := name + "(" + x + ")";
    assert s[0..|name| + 1] == name + "(";
    assert s[|name| + 1..|s| - 1] == x;
    assert forall m :: |name| + 1 <= m < |s| - 1 ==> s[m] == x[m - |name| - 1];
    assert s[|s| - 1] == ')';
    assert CloseParen(s, |name| + 1) == Some(|s| - 1);
    assert CallAt(s, name, 0) == Some(|s| - 1);
    assert s[0..|name|] == name;
    assert OccursAt(s, name, 0);
  }

  /** With the origin listing no dependents, the guard accepts every cell whose dependents
      are at most the origin itself. */
  lemma GuardAcceptsReference(g: Grid, x: string, origin: string, fuel: nat)
    requires fuel >= 2
    requires CellAt(g, origin).Done? && CellAt(g, origin).value.deps == []
    requires CellAt(g, x).Done? && forall d :: d in CellAt(g, x).value.deps ==> d == origin
    ensures ValidDependency(g, x, origin, fuel) == Done(true)
  {
    LeafAccepted(g, origin, origin, fuel - 1);
    WalkToSelf(g, CellAt(g, x).value.deps, origin, fuel - 1);
  }

  lemma {:induction false} WalkToSelf(g: Grid, deps: seq<string>, origin: string, fuel: nat)
    requires ValidDependency(g, origin, origin, fuel) == Done(true)
    requires forall d :: d in deps ==> d == origin
    ensures Walk(g, deps, origin, fuel) == Done(())
    decreases |deps|
  {
    if deps != [] {
      assert deps[0] in deps;
      assert forall d :: d in deps[1..] ==> d in deps;
      WalkToSelf(g, deps[1..], origin, fuel);
    }
  }

  /** REF(x), once the guard accepts x for the origin, registers the origin as a dependent
      of x and is replaced by x's display. */
  lemma CallbackRef(env: Env, g: Grid, origin: string, x: string, fuel: nat, row: int, col: int)
    requires fuel >= 2 && ValidDependency(g, x, origin, fuel - 1) == Done(true)
    requires Locate(g, x) == Done((row, col)) && Defined(g, row, col)
    ensures Callback(env, g, origin, REF, x, fuel) ==
              St(Update(g, row, col, Cells.AddDependency(g[row][col], origin)), Done(g[row][col].display))
  {
    var h: Grid := Update(g, row, col, Cells.AddDependency(g[row][col], origin));
    assert Engine.AddDependency(env, g, x, origin, fuel - 1) == St(h, Done(()));
    LocateShape(g, h, x);
    assert CellAt(h, x) == Done(h[row][col]);
  }

  /** A text made of one call is replaced by what its callback yields. */
  lemma ReplaceWholeCall(env: Env, g: Grid, origin: string, k: Call, x: string, fuel: nat, h: Grid, t: string)
    requires |x| > 0 && ')' !in x
    requires Callback(env, g, origin, k, x, fuel) == St(h, Done(t))
    ensures Replace(env, g, origin, Name(k) + "(" + x + ")", k, 0, fuel) == St(h, Done(t))
  {
    var s := Name(k) + "(" + x + ")";
    var last := |s| - 1;
    assert NextCall(s, Name(k), 0) == Some((0, last)) && NextCall(s, Name(k), last + 1) == None &&
           s[0 + |Name(k)| + 1..last] == x by {
      WholeCall(Name(k), x);
    }
    var rest := Replace(env, h, origin, s, k, last + 1, fuel);
    assert rest == St(h, Done([])) by {
      assert s[last + 1..] == [];
    }
    assert s[0..0] + t + [] == t;
  }

  /** ... and when that holds no further call of the same name, the loop stops there. */
  lemma RepeatWholeCall(env: Env, g: Grid, origin: string, k: Call, x: string, fuel: nat, h: Grid, t: string)
    requires fuel >= 1 && |x| > 0 && ')' !in x && !Contains(t, Name(k))
    requires Callback(env, g, origin, k, x, fuel - 1) == St(h, Done(t))
    ensures Repeat(env, g, origin, Name(k) + "(" + x + ")", k, fuel) == St(h, Done(t))
  {
    assert Contains(Name(k) + "(" + x + ")", Name(k)) by {
      WholeCall(Name(k), x);
    }
    ReplaceWholeCall(env, g, origin, k, x, fuel - 1, h, t);
  }

  /** ... and when the callback throws, so does the loop. */
  lemma RepeatWholeCallThrows(env: Env, g: Grid, origin: string, k: Call, x: string, fuel: nat, h: Grid, m: string)
    requires fuel >= 1 && |x| > 0 && ')' !in x
    requires Callback(env, g, origin, k, x, fuel - 1) == St(h, Thrown(m))
    ensures Repeat(env, g, origin, Name(k) + "(" + x + ")", k, fuel) == St(h, Thrown(m))
  {
    var s := Name(k) + "(" + x + ")";
    var last := |s| - 1;
    assert Contains(s, Name(k)) && NextCall(s, Name(k), 0) == Some((0, last)) &&
           s[0 + |Name(k)| + 1..last] == x by {
      WholeCall(Name(k), x);
    }
    assert Replace(env, g, origin, s, k, 0, fuel - 1) == St(h, Thrown(m));
  }

  /** =REF(x), once the guard accepts x for the origin: the formula's text is the display of
      x, provided that display holds no further call; x gains the origin as a dependent and
      nothing else changes. */
  lemma EvaluateRef(env: Env, g: Grid, origin: string, x: string, fuel: nat, row: int, col: int)
    requires fuel >= 4 && |x| > 0 && ')' !in x && ValidDependency(g, x, origin, fuel - 3) == Done(true)
    requires Locate(g, x) == Done((row, col)) && Defined(g, row, col)
    requires NoCalls(g[row][col].display)
    ensures Evaluate(env, g, origin, "REF(" + x + ")", fuel) ==
              St(Update(g, row, col, Cells.AddDependency(g[row][col], origin)), Done(g[row][col].display))
  {
    var t := g[row][col].display;
    var h: Grid := Update(g, row, col, Cells.AddDependency(g[row][col], origin));
    assert Name(REF) == "REF" && Name(SUM) == "SUM" && Name(AVG) == "AVG";
    CallbackRef(env, g, origin, x, fuel - 2, row, col);
    RepeatWholeCall(env, g, origin, REF, x, fuel - 1, h, t);
    assert Name(REF) + "(" + x + ")" == "REF(" + x + ")";
    assert Repeat(env, g, origin, "REF(" + x + ")", REF, fuel - 1) == St(h, Done(t));
    assert Repeat(env, h, origin, t, SUM, fuel - 1) == St(h, Done(t));
    assert Repeat(env, h, origin, t, AVG, fuel - 1) == St(h, Done(t));
  }

  /** ... and when x already lists the origin, the sheet is left as it is. */
  lemma EvaluateRegisteredRef(env: Env, g: Grid, origin: string, x: string, fuel: nat, row: int, col: int)
    requires fuel >= 4 && |x| > 0 && ')' !in x && ValidDependency(g, x, origin, fuel - 3) == Done(true)
    requires Locate(g, x) == Done((row, col)) && Defined(g, row, col)
    requires NoCalls(g[row][col].display) && origin in g[row][col].deps
    ensures Evaluate(env, g, origin, "REF(" + x + ")", fuel) == St(g, Done(g[row][col].display))
  {
    EvaluateRef(env, g, origin, x, fuel, row, col);
    UpdateSame(g, row, col);
  }

  // ---------------------------------------------------------------------------------------
  // updateReferences

  /** A reference name is not empty and holds no ')'. */
  lemma RefNameShape(row: nat, col: nat)
    ensures |RefName(row, col)| > 0 && ')' !in RefName(row, col)
  {
    var p, q := ColumnName(col), NatToString(row + 1);
    var s := p + q;
    forall i | 0 <= i < |s|
      ensures s[i] != ')'
    {
      if i < |p| {
        assert s[i] == p[i];
      } else {
        assert s[i] == q[i - |p|];
      }
    }
  }

  /** Putting back the cell that is already there leaves the sheet as it is. */
  lemma UpdateSame(g: Grid, row: int, col: int)
    requires Defined(g, row, col)
    ensures Update(g, row, col, g[row][col]) == g
  {
    assert g[row][col := g[row][col]] == g[row];
  }

  /** =REF(a) evaluated for a dependent that a already lists: the display of a, with the
      sheet left as it is. */
  lemma EvaluateListedRef(env: Env, g: Grid, row: nat, col: nat, r2: nat, c2: nat, fuel: nat)
    requires fuel >= 5 && Rectangular(g) && Defined(g, row, col) && Defined(g, r2, c2) && (row, col) != (r2, c2)
    requires g[row][col].deps == [RefName(r2, c2)] && g[r2][c2].deps == []
    requires NoCalls(g[row][col].display)
    ensures Evaluate(env, g, RefName(r2, c2), "REF(" + RefName(row, col) + ")", fuel) == St(g, Done(g[row][col].display))
  {
    var a, d := RefName(row, col), RefName(r2, c2);
    RefNameShape(row, col);
    LocateRefName(g, row, col);
    LocateRefName(g, r2, c2);
    GuardAcceptsReference(g, a, d, fuel - 3);
    assert d in g[row][col].deps;
    EvaluateRegisteredRef(env, g, d, a, fuel, row, col);
  }

  /** updateReferenceHelper stores a formula whose evaluation leaves the sheet as it is,
      with the display setBuffer computes from the evaluated text. */
  lemma StoreEvaluated(env: Env, g: Grid, ref: string, row: nat, col: nat, buffer: string, fuel: nat, t: string)
    requires fuel >= 1 && Defined(g, row, col) && StartsWith(buffer, '=')
    requires Evaluate(env, g, ref, buffer[1..], fuel - 1) == St(g, Done(t))
    ensures StoreBuffer(env, g, ref, row, col, buffer, fuel) ==
              St(Update(g, row, col, g[row][col].(buffer := buffer, display := EvaluatedDisplay(t, env.evaluate))), Done(()))
  {
  }

  /** updateReferenceHelper on a dependent holding =REF(a), where a already lists it: the
      dependent shows a's display as setBuffer computes it, and a is left as it is. */
  lemma RefreshRefDependent(env: Env, g: Grid, row: nat, col: nat, r2: nat, c2: nat, buffer: string, fuel: nat)
    requires fuel >= 6 && Rectangular(g) && Defined(g, row, col) && Defined(g, r2, c2) && (row, col) != (r2, c2)
    requires g[row][col].deps == [RefName(r2, c2)] && g[r2][c2].deps == []
    requires NoCalls(g[row][col].display)
    requires buffer == "=REF(" + RefName(row, col) + ")"
    ensures StoreBuffer(env, g, RefName(r2, c2), r2, c2, buffer, fuel) ==
              St(Update(g, r2, c2, Cell(buffer, EvaluatedDisplay(g[row][col].display, env.evaluate), [])), Done(()))
  {
    var t := g[row][col].display;
    assert Evaluate(env, g, RefName(r2, c2), buffer[1..], fuel - 1) == St(g, Done(t)) by {
      assert buffer[1..] == "REF(" + RefName(row, col) + ")";
      EvaluateListedRef(env, g, row, col, r2, c2, fuel - 1);
    }
    StoreEvaluated(env, g, RefName(r2, c2), r2, c2, buffer, fuel, t);
  }

  /** setValue with a plain text stores it and goes on to the cell's dependents. */
  lemma SetPlainStep(env: Env, g: Grid, ref: string, b: string, fuel: nat, row: int, col: int)
    requires fuel >= 2 && !StartsWith(b, '=')
    requires Locate(g, ref) == Done((row, col)) && Defined(g, row, col)
    ensures SetValue(env, g, ref, b, fuel) ==
              UpdateEach(env, Update(g, row, col, g[row][col].(buffer := b, display := b)), g[row][col].deps, fuel - 2)
  {
    var h: Grid := Update(g, row, col, g[row][col].(buffer := b, display := b));
    assert SetBuffer(g[row][col], b, None, env.evaluate) == g[row][col].(buffer := b, display := b);
    assert UpdateReferences(env, h, row, col, fuel - 1) == UpdateEach(env, h, g[row][col].deps, fuel - 2);
  }

  /** The loop of updateReferences over one dependent without dependents of its own: the
      dependent is stored again, and that is all. */
  lemma UpdateOneDependent(env: Env, g: Grid, d: string, row: int, col: int, fuel: nat, h: Grid)
    requires fuel >= 1 && Locate(g, d) == Done((row, col)) && Defined(g, row, col)
    requires UpdateReferenceHelper(env, g, d, g[row][col].buffer, fuel) == St(h, Done(()))
    requires h[row][col].deps == []
    ensures UpdateEach(env, g, [d], fuel) == St(h, Done(()))
  {
    assert CellAt(g, d) == Done(g[row][col]);
    LocateShape(g, h, d);
    assert UpdateReferences(env, h, row, col, fuel) == St(h, Done(()));
    assert [d][1..] == [];
  }

  /** The loop of updateReferences over one dependent: the dependent is stored again, and
      then its own dependents, as they stand after the store, are updated. */
  lemma UpdateOneThenOn(env: Env, g: Grid, d: string, row: int, col: int, fuel: nat, h: Grid)
    requires fuel >= 1 && Locate(g, d) == Done((row, col)) && Defined(g, row, col)
    requires UpdateReferenceHelper(env, g, d, g[row][col].buffer, fuel) == St(h, Done(()))
    ensures Defined(h, row, col)
    ensures UpdateEach(env, g, [d], fuel) == UpdateEach(env, h, h[row][col].deps, fuel - 1)
  {
    assert CellAt(g, d) == Done(g[row][col]);
    LocateShape(g, h, d);
    var u := UpdateReferences(env, h, row, col, fuel);
    assert u == UpdateEach(env, h, h[row][col].deps, fuel - 1);
    if u.out.Done? {
      var v: () := u.out.value;
      assert v == ();
      assert UpdateEach(env, u.grid, [], fuel) == u;
    }
    assert [d][1..] == [];
  }

  /** The preconditions shared by the two lemmas below: cell (row, col) lists one dependent,
      the cell at (r2, c2), whose buffer is =REF of the first cell's name, and which lists
      none; the new plain text b holds no call. */
  predicate RefDependent(g: Grid, row: nat, col: nat, r2: nat, c2: nat, b: string)
  {
    Rectangular(g) && Defined(g, row, col) && Defined(g, r2, c2) && (row, col) != (r2, c2) &&
    !StartsWith(b, '=') && NoCalls(b) &&
    g[row][col].deps == [RefName(r2, c2)] &&
    g[r2][c2].buffer == "=REF(" + RefName(row, col) + ")" && g[r2][c2].deps == []
  }

  /** setValue on such a cell: the cell is stored, then its dependent, in that order. */
  lemma SetValueThenDependent(env: Env, g: Grid, row: nat, col: nat, r2: nat, c2: nat, b: string, fuel: nat)
    requires fuel >= 8 && RefDependent(g, row, col, r2, c2, b)
    ensures var g1 := Update(g, row, col, g[row][col].(buffer := b, display := b));
            SetValue(env, g, RefName(row, col), b, fuel) ==
              St(Update(g1, r2, c2, Cell(g[r2][c2].buffer, EvaluatedDisplay(b, env.evaluate), [])), Done(()))
  {
    var d, buffer := RefName(r2, c2), g[r2][c2].buffer;
    var g1 := Update(g, row, col, g[row][col].(buffer := b, display := b));
    var g2 := Update(g1, r2, c2, Cell(buffer, EvaluatedDisplay(b, env.evaluate), []));
    assert SetValue(env, g, RefName(row, col), b, fuel) == UpdateEach(env, g1, [d], fuel - 2) by {
      LocateRefName(g, row, col);
      SetPlainStep(env, g, RefName(row, col), b, fuel, row, col);
    }
    assert UpdateReferenceHelper(env, g1, d, buffer, fuel - 2) == St(g2, Done(())) by {
      assert Rectangular(g1) && g1[row][col].display == b && g1[row][col].deps == [d];
      assert g1[r2][c2] == g[r2][c2];
      HelperAtRefName(env, g1, r2, c2, buffer, fuel - 2);
      RefreshRefDependent(env, g1, row, col, r2, c2, buffer, fuel - 2);
    }
    assert UpdateEach(env, g1, [d], fuel - 2) == St(g2, Done(())) by {
      assert g1[r2][c2].buffer == buffer && g2[r2][c2].deps == [];
      LocateRefName(g1, r2, c2);
      UpdateOneDependent(env, g1, d, r2, c2, fuel - 2, g2);
    }
  }

  /** setValue with a plain text on a cell whose one dependent holds =REF(cell): the cell
      takes the text, and the dependent is evaluated again and shows the new text (as
      setBuffer computes it); no other cell changes. */
  lemma SetValueRefreshesDependent(env: Env, g: Grid, row: nat, col: nat, r2: nat, c2: nat, b: string, fuel: nat)
    requires fuel >= 8 && RefDependent(g, row, col, r2, c2, b)
    ensures var r := SetValue(env, g, RefName(row, col), b, fuel);
            r.out == Done(()) && SameShape(g, r.grid) &&
            r.grid[row][col] == Cell(b, b, [RefName(r2, c2)]) &&
            r.grid[r2][c2] == Cell(g[r2][c2].buffer, EvaluatedDisplay(b, env.evaluate), []) &&
            forall i, j :: Defined(g, i, j) && (i != row || j != col) && (i != r2 || j != c2) ==> r.grid[i][j] == g[i][j]
  {
    SetValueThenDependent(env, g, row, col, r2, c2, b, fuel);
  }

  // ---------------------------------------------------------------------------------------
  // Chains of references

  /** The reference name of a pair of coordinates. */
  function NameOf(p: (nat, nat)): string
  {
    RefName(p.0, p.1)
  }

  /** Distinct cells, all on the sheet. */
  predicate Placed(g: Grid, cs: seq<(nat, nat)>)
  {
    (forall i :: 0 <= i < |cs| ==> Defined(g, cs[i].0, cs[i].1)) &&
    (forall i, j :: 0 <= i < j < |cs| ==> cs[i] != cs[j])
  }

  /** A chain of references down the sheet: each cell of `cs` lists the next one as its one
      dependent, the last lists none, every cell past the first holds =REF of the one before,
      and no cell appears twice. */
  ghost predicate RefChain(g: Grid, cs: seq<(nat, nat)>)
  {
    Rectangular(g) && |cs| > 0 && Placed(g, cs) &&
    (forall i, j :: 0 <= i < j < |cs| && j == i + 1 ==>
       g[cs[i].0][cs[i].1].deps == [NameOf(cs[j])] &&
       g[cs[j].0][cs[j].1].buffer == "=REF(" + NameOf(cs[i]) + ")") &&
    g[cs[|cs| - 1].0][cs[|cs| - 1].1].deps == []
  }

  /** What the k-th cell of a chain whose first cell shows b ends up showing: setBuffer's
      evaluated display, applied k times. */
  function Shown(env: Env, b: string, k: nat): string
  {
    if k == 0 then b else EvaluatedDisplay(Shown(env, b, k - 1), env.evaluate)
  }

  /** A chain stays a chain when one of its cells changes its display, or the first changes
      its buffer. */
  lemma ChainKeeps(g: Grid, cs: seq<(nat, nat)>, row: nat, col: nat, c: Cell)
    requires RefChain(g, cs) && Defined(g, row, col) && c.deps == g[row][col].deps
    requires c.buffer == g[row][col].buffer || (row, col) == cs[0]
    ensures RefChain(Update(g, row, col, c), cs)
  {
    var h: Grid := Update(g, row, col, c);
    forall i | 1 <= i < |cs|
      ensures h[cs[i].0][cs[i].1].buffer == g[cs[i].0][cs[i].1].buffer
    {
      assert cs[i] != cs[0];
    }
  }

  /** When `from` lists one dependent `mid` and the walk from `mid` finishes, the guard
      accepts `from` unless `to` lists it, whatever the walk decided. */
  lemma AcceptedVia(g: Grid, from: string, mid: string, to: string, fuel: nat)
    requires fuel >= 1
    requires CellAt(g, to).Done? && from !in CellAt(g, to).value.deps
    requires CellAt(g, from).Done? && CellAt(g, from).value.deps == [mid]
    requires ValidDependency(g, mid, to, fuel - 1).Done?
    ensures ValidDependency(g, from, to, fuel) == Done(true)
  {
    var deps := CellAt(g, from).value.deps;
    assert deps[0] == mid && deps[1..] == [];
    assert Walk(g, deps, to, fuel - 1) == Done(());
  }

  /** Inside a chain the guard accepts each cell for the next one: the walk from the next
      cell reaches the one after it, which the next cell already lists, and the rejection is
      dropped. */
  lemma ChainGuard(g: Grid, cs: seq<(nat, nat)>, i: nat, fuel: nat)
    requires RefChain(g, cs) && 1 <= i < |cs| && fuel >= 3
    ensures ValidDependency(g, NameOf(cs[i - 1]), NameOf(cs[i]), fuel) == Done(true)
  {
    var prev, here := cs[i - 1], cs[i];
    var n := NameOf(here);
    LocateRefName(g, prev.0, prev.1);
    LocateRefName(g, here.0, here.1);
    if i < |cs| - 1 {
      var next := cs[i + 1];
      LocateRefName(g, next.0, next.1);
      RefNameDistinct(here.0, here.1, next.0, next.1);
      RefNameDistinct(prev.0, prev.1, next.0, next.1);
      ValidDependencyRejects(g, NameOf(next), n, fuel - 2);
      AcceptedVia(g, n, NameOf(next), n, fuel - 1);
    } else {
      LeafAccepted(g, n, n, fuel - 1);
    }
    AcceptedVia(g, NameOf(prev), n, n, fuel);
  }

  /** The text after the '=' of =REF(x). */
  lemma RefFormulaBody(x: string)
    ensures ("=REF(" + x + ")")[1..] == "REF(" + x + ")"
  {
  }

  /** updateReferenceHelper on a cell holding =REF(x), where x already lists the cell and the
      guard accepts x for it: the cell keeps its buffer and shows what setBuffer makes of x's
      display; nothing else changes. */
  lemma StoreListedRef(env: Env, g: Grid, row: nat, col: nat, pr: nat, pc: nat, fuel: nat)
    requires fuel >= 5 && Rectangular(g) && Defined(g, row, col) && Defined(g, pr, pc)
    requires g[row][col].buffer == "=REF(" + RefName(pr, pc) + ")" && RefName(row, col) in g[pr][pc].deps
    requires NoCalls(g[pr][pc].display)
    requires ValidDependency(g, RefName(pr, pc), RefName(row, col), fuel - 4) == Done(true)
    ensures UpdateReferenceHelper(env, g, RefName(row, col), g[row][col].buffer, fuel) ==
              St(Update(g, row, col, g[row][col].(display := EvaluatedDisplay(g[pr][pc].display, env.evaluate))), Done(()))
  {
    var buffer, t := g[row][col].buffer, g[pr][pc].display;
    assert Evaluate(env, g, RefName(row, col), buffer[1..], fuel - 1) == St(g, Done(t)) by {
      RefNameShape(pr, pc);
      LocateRefName(g, pr, pc);
      RefFormulaBody(RefName(pr, pc));
      EvaluateRegisteredRef(env, g, RefName(row, col), RefName(pr, pc), fuel - 1, pr, pc);
    }
    StoreEvaluated(env, g, RefName(row, col), row, col, buffer, fuel, t);
    HelperAtRefName(env, g, row, col, buffer, fuel);
  }

  /** ... which is what happens to each cell of a chain past the first. */
  lemma ChainStore(env: Env, g: Grid, cs: seq<(nat, nat)>, i: nat, t: string, fuel: nat)
    requires RefChain(g, cs) && 1 <= i < |cs| && fuel >= 7
    requires g[cs[i - 1].0][cs[i - 1].1].display == t && NoCalls(t)
    ensures var row, col := cs[i].0, cs[i].1;
            UpdateReferenceHelper(env, g, NameOf(cs[i]), g[row][col].buffer, fuel) ==
              St(Update(g, row, col, g[row][col].(display := EvaluatedDisplay(t, env.evaluate))), Done(()))
  {
    var row, col := cs[i].0, cs[i].1;
    var pr, pc := cs[i - 1].0, cs[i - 1].1;
    ChainGuard(g, cs, i, fuel - 4);
    assert g[pr][pc].deps == [NameOf(cs[i])];
    StoreListedRef(env, g, row, col, pr, pc, fuel);
  }

  /** The sheet once the cells of `cs` from the i-th on have been stored again in order, in
      a chain whose first cell shows b: the j-th shows Shown(b, j). */
  function RefreshedGrid(env: Env, g: Grid, cs: seq<(nat, nat)>, i: nat, b: string): Grid
    decreases |cs| - i
  {
    if i >= |cs| || !Defined(g, cs[i].0, cs[i].1) then g
    else
      var row, col := cs[i].0, cs[i].1;
      RefreshedGrid(env, Update(g, row, col, g[row][col].(display := Shown(env, b, i))), cs, i + 1, b)
  }

  /** How a sheet looks once the cells of `cs` from the i-th on have been refreshed in a
      chain whose first cell shows b: the j-th shows Shown(b, j), and every other cell is as
      it was. */
  ghost predicate Refreshed(env: Env, g: Grid, r: Grid, cs: seq<(nat, nat)>, i: nat, b: string)
  {
    i <= |cs| && SameShape(g, r) &&
    (forall j :: i <= j < |cs| && Defined(g, cs[j].0, cs[j].1) ==>
       r[cs[j].0][cs[j].1] == g[cs[j].0][cs[j].1].(display := Shown(env, b, j))) &&
    forall p, q :: Defined(g, p, q) && (p, q) !in cs[i..] ==> r[p][q] == g[p][q]
  }

  /** RefreshedGrid changes the cells it names, in that way, and no other. */
  lemma {:induction false} RefreshedGridShows(env: Env, g: Grid, cs: seq<(nat, nat)>, i: nat, b: string)
    requires Placed(g, cs) && i <= |cs|
    ensures Refreshed(env, g, RefreshedGrid(env, g, cs, i, b), cs, i, b)
    decreases |cs| - i
  {
    if i == |cs| {
      assert cs[i..] == [];
    } else {
      var row, col := cs[i].0, cs[i].1;
      var h := Update(g, row, col, g[row][col].(display := Shown(env, b, i)));
      assert Placed(h, cs);
      RefreshedGridShows(env, h, cs, i + 1, b);
      var k := RefreshedGrid(env, h, cs, i + 1, b);
      forall j | i <= j < |cs| && Defined(g, cs[j].0, cs[j].1)
        ensures k[cs[j].0][cs[j].1] == g[cs[j].0][cs[j].1].(display := Shown(env, b, j))
      {
        if j == i {
          assert (row, col) !in cs[i + 1..];
        } else {
          assert cs[j] != cs[i];
        }
      }
      forall p, q | Defined(g, p, q) && (p, q) !in cs[i..]
        ensures k[p][q] == g[p][q]
      {
        assert (p, q) !in cs[i + 1..];
        assert (p, q) != cs[i];
      }
    }
  }

  /** The loop of updateReferences over one cell of a chain: the cell is stored again and
      then its own dependents are updated. */
  lemma ChainLink(env: Env, g: Grid, cs: seq<(nat, nat)>, i: nat, t: string, fuel: nat)
    requires RefChain(g, cs) && 1 <= i < |cs| && fuel >= 7
    requires g[cs[i - 1].0][cs[i - 1].1].display == t && NoCalls(t)
    ensures var row, col := cs[i].0, cs[i].1;
            var h := Update(g, row, col, g[row][col].(display := EvaluatedDisplay(t, env.evaluate)));
            UpdateEach(env, g, [NameOf(cs[i])], fuel) == UpdateEach(env, h, g[row][col].deps, fuel - 1)
  {
    var row, col := cs[i].0, cs[i].1;
    var d := NameOf(cs[i]);
    var h := Update(g, row, col, g[row][col].(display := EvaluatedDisplay(t, env.evaluate)));
    ChainStore(env, g, cs, i, t, fuel);
    LocateRefName(g, row, col);
    UpdateOneThenOn(env, g, d, row, col, fuel, h);
  }

  /** A chain whose first cell shows b, refreshed up to its (i-1)-th cell, where every text
      shown before the last cell calls no function. */
  ghost predicate ChainFrom(env: Env, g: Grid, cs: seq<(nat, nat)>, i: nat, b: string)
  {
    RefChain(g, cs) && 1 <= i < |cs| &&
    g[cs[i - 1].0][cs[i - 1].1].display == Shown(env, b, i - 1) &&
    forall k :: 0 <= k < |cs| - 1 ==> NoCalls(Shown(env, b, k))
  }

  /** Refreshing the i-th cell of a chain moves the refreshed part on by one cell. */
  lemma ChainMoves(env: Env, g: Grid, cs: seq<(nat, nat)>, i: nat, b: string)
    requires ChainFrom(env, g, cs, i, b) && i < |cs| - 1
    ensures ChainFrom(env, Update(g, cs[i].0, cs[i].1, g[cs[i].0][cs[i].1].(display := Shown(env, b, i))), cs, i + 1, b)
  {
    ChainKeeps(g, cs, cs[i].0, cs[i].1, g[cs[i].0][cs[i].1].(display := Shown(env, b, i)));
  }

  /** One turn of updateReferences down a chain whose first cell shows b: the i-th cell is
      stored again showing Shown(b, i), and the loop goes on with its dependents. */
  lemma ChainTurn(env: Env, g: Grid, cs: seq<(nat, nat)>, i: nat, b: string, fuel: nat)
    requires ChainFrom(env, g, cs, i, b) && fuel >= 7
    ensures var row, col := cs[i].0, cs[i].1;
            var h := Update(g, row, col, g[row][col].(display := Shown(env, b, i)));
            UpdateEach(env, g, [NameOf(cs[i])], fuel) == UpdateEach(env, h, g[row][col].deps, fuel - 1)
  {
    var row, col := cs[i].0, cs[i].1;
    var h := Update(g, row, col, g[row][col].(display := Shown(env, b, i)));
    assert NoCalls(Shown(env, b, i - 1));
    assert Shown(env, b, i) == EvaluatedDisplay(Shown(env, b, i - 1), env.evaluate);
    ChainLink(env, g, cs, i, Shown(env, b, i - 1), fuel);
  }

  /** Refreshing the i-th cell of a chain is the first step of refreshing the chain from
      there on; its dependents are the next cell, or none at the end. */
  lemma ChainUnfolds(env: Env, g: Grid, cs: seq<(nat, nat)>, i: nat, b: string)
    requires ChainFrom(env, g, cs, i, b)
    ensures var row, col := cs[i].0, cs[i].1;
            var h := Update(g, row, col, g[row][col].(display := Shown(env, b, i)));
            RefreshedGrid(env, g, cs, i, b) == RefreshedGrid(env, h, cs, i + 1, b) &&
            (i == |cs| - 1 ==> g[row][col].deps == []) &&
            (i < |cs| - 1 ==> g[row][col].deps == [NameOf(cs[i + 1])])
  {
    assert Defined(g, cs[i].0, cs[i].1);
    if i < |cs| - 1 {
      assert g[cs[i].0][cs[i].1].deps == [NameOf(cs[i + 1])];
    }
  }

  /** From any grid in which the chain is refreshed up to its (j-1)-th cell, updateReferences
      from its j-th cell refreshes the rest, given enough fuel. */
  ghost predicate RefreshesFrom(env: Env, cs: seq<(nat, nat)>, j: nat, b: string)
  {
    forall g: Grid {:trigger ChainFrom(env, g, cs, j, b)} | ChainFrom(env, g, cs, j, b) ::
      forall fuel: nat | fuel >= |cs| - j + 6 ::
        UpdateEach(env, g, [NameOf(cs[j])], fuel) == St(RefreshedGrid(env, g, cs, j, b), Done(()))
  }

  /** The induction step of RefreshesFromAll: if the chain is refreshed from its (j+1)-th
      cell on, it is refreshed from its j-th. */
  lemma ChainStep(env: Env, g: Grid, cs: seq<(nat, nat)>, j: nat, b: string, fuel: nat)
    requires ChainFrom(env, g, cs, j, b) && fuel >= |cs| - j + 6
    requires j < |cs| - 1 ==> RefreshesFrom(env, cs, j + 1, b)
    ensures UpdateEach(env, g, [NameOf(cs[j])], fuel) == St(RefreshedGrid(env, g, cs, j, b), Done(()))
  {
    var h := Update(g, cs[j].0, cs[j].1, g[cs[j].0][cs[j].1].(display := Shown(env, b, j)));
    ChainTurn(env, g, cs, j, b, fuel);
    ChainUnfolds(env, g, cs, j, b);
    if j == |cs| - 1 {
      assert UpdateEach(env, h, [], fuel - 1) == St(h, Done(()));
      assert RefreshedGrid(env, h, cs, j + 1, b) == h;
    } else {
      ChainMoves(env, g, cs, j, b);
      assert UpdateEach(env, h, [NameOf(cs[j + 1])], fuel - 1) == St(RefreshedGrid(env, h, cs, j + 1, b), Done(()));
    }
  }

  lemma {:induction false} RefreshesFromAll(env: Env, cs: seq<(nat, nat)>, j: nat, b: string)
    requires 1 <= j < |cs|
    ensures RefreshesFrom(env, cs, j, b)
    decreases |cs| - j
  {
    if j < |cs| - 1 {
      RefreshesFromAll(env, cs, j + 1, b);
    }
    forall g: Grid | ChainFrom(env, g, cs, j, b)
      ensures forall fuel: nat | fuel >= |cs| - j + 6 ::
        UpdateEach(env, g, [NameOf(cs[j])], fuel) == St(RefreshedGrid(env, g, cs, j, b), Done(()))
    {
      forall fuel: nat | fuel >= |cs| - j + 6
        ensures UpdateEach(env, g, [NameOf(cs[j])], fuel) == St(RefreshedGrid(env, g, cs, j, b), Done(()))
      {
        ChainStep(env, g, cs, j, b, fuel);
      }
    }
  }

  /** updateReferences down a chain whose first cell shows b, from its i-th cell on: those
      cells are stored again in order, the j-th showing Shown(b, j), and the loop finishes. */
  lemma ChainRefresh(env: Env, g: Grid, cs: seq<(nat, nat)>, i: nat, b: string, fuel: nat)
    requires ChainFrom(env, g, cs, i, b) && fuel >= |cs| - i + 6
    ensures UpdateEach(env, g, [NameOf(cs[i])], fuel) == St(RefreshedGrid(env, g, cs, i, b), Done(()))
  {
    RefreshesFromAll(env, cs, i, b);
  }

  /** After the first cell of a chain takes a plain text, updateReferences over its dependents
      refreshes the rest of the chain. */
  lemma ChainRuns(env: Env, g: Grid, cs: seq<(nat, nat)>, b: string, fuel: nat)
    requires RefChain(g, cs) && fuel >= |cs| + 5
    requires forall k :: 0 <= k < |cs| - 1 ==> NoCalls(Shown(env, b, k))
    ensures var row, col := cs[0].0, cs[0].1;
            var g1 := Update(g, row, col, g[row][col].(buffer := b, display := b));
            UpdateEach(env, g1, g[row][col].deps, fuel) == St(RefreshedGrid(env, g1, cs, 1, b), Done(()))
  {
    var row, col := cs[0].0, cs[0].1;
    var g1: Grid := Update(g, row, col, g[row][col].(buffer := b, display := b));
    ChainStarts(env, g, cs, b);
    if |cs| == 1 {
      assert UpdateEach(env, g1, [], fuel) == St(g1, Done(()));
    } else {
      ChainRefresh(env, g1, cs, 1, b, fuel);
    }
  }

  /** Storing a plain text in the first cell of a chain starts refreshing the chain. */
  lemma ChainStarts(env: Env, g: Grid, cs: seq<(nat, nat)>, b: string)
    requires RefChain(g, cs)
    requires forall k :: 0 <= k < |cs| - 1 ==> NoCalls(Shown(env, b, k))
    ensures var row, col := cs[0].0, cs[0].1;
            var g1 := Update(g, row, col, g[row][col].(buffer := b, display := b));
            (|cs| == 1 ==> g[row][col].deps == [] && RefreshedGrid(env, g1, cs, 1, b) == g1) &&
            (|cs| > 1 ==> g[row][col].deps == [NameOf(cs[1])] && ChainFrom(env, g1, cs, 1, b))
  {
    var row, col := cs[0].0, cs[0].1;
    var c := g[row][col].(buffer := b, display := b);
    var g1: Grid := Update(g, row, col, c);
    if |cs| > 1 {
      ChainKeeps(g, cs, row, col, c);
      assert g1[row][col].display == Shown(env, b, 0);
      assert g[row][col].deps == [NameOf(cs[1])];
    }
  }

  /** What setValue with the plain text b on the first cell of a chain leaves: the cell takes
      the text, every later cell shows what setBuffer makes of the display of the one before,
      buffers and dependents stay, and no cell outside the chain changes. */
  ghost predicate ChainSet(env: Env, g: Grid, cs: seq<(nat, nat)>, b: string, r: Grid)
    requires RefChain(g, cs)
  {
    SameShape(g, r) &&
    r[cs[0].0][cs[0].1] == g[cs[0].0][cs[0].1].(buffer := b, display := b) &&
    (forall j :: 1 <= j < |cs| ==>
       r[cs[j].0][cs[j].1] == g[cs[j].0][cs[j].1].(display := Shown(env, b, j))) &&
    forall p, q :: Defined(g, p, q) && (p, q) !in cs ==> r[p][q] == g[p][q]
  }

  /** Storing b in the first cell of a chain and refreshing the rest gives ChainSet. */
  lemma RefreshedChainSet(env: Env, g: Grid, cs: seq<(nat, nat)>, b: string)
    requires RefChain(g, cs)
    ensures var row, col := cs[0].0, cs[0].1;
            var g1 := Update(g, row, col, g[row][col].(buffer := b, display := b));
            ChainSet(env, g, cs, b, RefreshedGrid(env, g1, cs, 1, b))
  {
    var row, col := cs[0].0, cs[0].1;
    var c := g[row][col].(buffer := b, display := b);
    var g1 := Update(g, row, col, c);
    var r := RefreshedGrid(env, g1, cs, 1, b);
    assert Placed(g1, cs);
    RefreshedGridShows(env, g1, cs, 1, b);
    assert r[row][col] == c by {
      assert (row, col) !in cs[1..];
    }
    forall j | 1 <= j < |cs|
      ensures r[cs[j].0][cs[j].1] == g[cs[j].0][cs[j].1].(display := Shown(env, b, j))
    {
      assert cs[j] != cs[0];
    }
    forall p, q | Defined(g, p, q) && (p, q) !in cs
      ensures r[p][q] == g[p][q]
    {
      assert (p, q) !in cs[1..];
      assert (p, q) != cs[0];
    }
  }

  /** setValue with a plain text on the first cell of a chain of references: the cell takes
      the text, and every cell down the chain is evaluated again, in order, each showing what
      setBuffer makes of the display of the one before; buffers and dependents stay, and no
      cell outside the chain changes. */
  lemma SetValueRefreshesChain(env: Env, g: Grid, cs: seq<(nat, nat)>, ref: string, b: string, fuel: nat)
    requires RefChain(g, cs) && Locate(g, ref) == Done((cs[0].0, cs[0].1))
    requires !StartsWith(b, '=') && fuel >= |cs| + 7
    requires forall k :: 0 <= k < |cs| - 1 ==> NoCalls(Shown(env, b, k))
    ensures var r := SetValue(env, g, ref, b, fuel);
            r.out == Done(()) && ChainSet(env, g, cs, b, r.grid)
  {
    SetValueChainStep(env, g, cs, ref, b, fuel);
    ChainRunsSet(env, g, cs, b, fuel - 2, SetValue(env, g, ref, b, fuel));
  }

  /** setValue with a plain text on the first cell of a chain stores it there and goes on
      with updateReferences over that cell's dependents. */
  lemma SetValueChainStep(env: Env, g: Grid, cs: seq<(nat, nat)>, ref: string, b: string, fuel: nat)
    requires RefChain(g, cs) && Locate(g, ref) == Done((cs[0].0, cs[0].1))
    requires !StartsWith(b, '=') && fuel >= 2
    ensures var row, col := cs[0].0, cs[0].1;
            var g1 := Update(g, row, col, g[row][col].(buffer := b, display := b));
            SetValue(env, g, ref, b, fuel) == UpdateEach(env, g1, g[row][col].deps, fuel - 2)
  {
    assert Defined(g, cs[0].0, cs[0].1);
    SetPlainStep(env, g, ref, b, fuel, cs[0].0, cs[0].1);
  }

  /** updateReferences over the dependents of the first cell of a chain, once that cell has
      taken the plain text b, finishes and leaves ChainSet. */
  lemma ChainRunsSet(env: Env, g: Grid, cs: seq<(nat, nat)>, b: string, fuel: nat, u: St<()>)
    requires RefChain(g, cs) && fuel >= |cs| + 5
    requires forall k :: 0 <= k < |cs| - 1 ==> NoCalls(Shown(env, b, k))
    requires var row, col := cs[0].0, cs[0].1;
             u == UpdateEach(env, Update(g, row, col, g[row][col].(buffer := b, display := b)), g[row][col].deps, fuel)
    ensures u.out == Done(()) && ChainSet(env, g, cs, b, u.grid)
  {
    ChainRuns(env, g, cs, b, fuel);
    RefreshedChainSet(env, g, cs, b);
  }

  /** The chain of the page tests: A1 shows "2", C1 holds =REF(A1) and C3 holds =REF(C1);
      setting A1 to "5", with an evaluator that reads "5" as itself, shows "5" in C1 and C3. */
  lemma ChainOfThree(env: Env, g: Grid, fuel: nat)
    requires fuel >= 10 && env.evaluate("5") == Some("5")
    requires Rectangular(g) && |g| >= 3 && |g[0]| >= 3
    requires g[0][0].deps == ["C1"]
    requires g[0][2] == Cell("=REF(A1)", "2", ["C3"]) && g[2][2] == Cell("=REF(C1)", "2", [])
    ensures var r := SetValue(env, g, "A1", "5", fuel);
            r.out == Done(()) && r.grid[0][0].display == "5" && r.grid[0][2].display == "5" &&
            r.grid[2][2].display == "5"
  {
    var cs: seq<(nat, nat)> := [(0, 0), (0, 2), (2, 2)];
    ThreeCellChain(g);
    LocateA1(g);
    FiveShowsFive(env);
    var r := SetValue(env, g, "A1", "5", fuel);
    SetValueRefreshesChain(env, g, cs, "A1", "5", fuel);
    assert r.grid[cs[0].0][cs[0].1].display == "5";
    assert r.grid[cs[1].0][cs[1].1].display == Shown(env, "5", 1);
    assert r.grid[cs[2].0][cs[2].1].display == Shown(env, "5", 2);
  }

  /** The three cells of ChainOfThree form a chain that "A1" names the head of. */
  lemma ThreeCellChain(g: Grid)
    requires Rectangular(g) && |g| >= 3 && |g[0]| >= 3
    requires g[0][0].deps == ["C1"]
    requires g[0][2] == Cell("=REF(A1)", "2", ["C3"]) && g[2][2] == Cell("=REF(C1)", "2", [])
    ensures RefChain(g, [(0, 0), (0, 2), (2, 2)])
  {
    assert ColumnName(0) == "A" && ColumnName(2) == "C";
    assert NatToString(1) == "1" && NatToString(3) == "3";
    assert NameOf((0, 0)) == "A1" && NameOf((0, 2)) == "C1" && NameOf((2, 2)) == "C3";
  }

  /** "A1" names the top left cell. */
  lemma LocateA1(g: Grid)
    requires Rectangular(g) && Defined(g, 0, 0)
    ensures Locate(g, "A1") == Done((0, 0))
  {
    assert RefName(0, 0) == "A1" by {
      assert ColumnName(0) == "A" && NatToString(1) == "1";
    }
    LocateRefName(g, 0, 0);
  }

  /** With an evaluator that reads "5" as itself, "5" stays "5" all down a chain, and it
      calls no function. */
  lemma FiveShowsFive(env: Env)
    requires env.evaluate("5") == Some("5")
    ensures Shown(env, "5", 1) == "5" && Shown(env, "5", 2) == "5"
    ensures forall k :: 0 <= k < 2 ==> NoCalls(Shown(env, "5", k))
  {
    assert EvaluatedDisplay("5", env.evaluate) == "5" by {
      assert "5"[1..] == [];
      assert Split([], '+') == [[]];
      assert Split("5", '+')[0] == "5";
      assert !IsWord("5");
      assert !IsConcatenation("5");
    }
    assert Shown(env, "5", 0) == "5";
    assert NoCalls("5") by {
      AbsentChar("5", "REF", 0);
      AbsentChar("5", "SUM", 0);
      AbsentChar("5", "AVG", 0);
    }
  }

  // ---------------------------------------------------------------------------------------
  // sumCells and averageCells

  /** The cells a SUM or AVG reads, in a sheet where nothing has registered yet: the origin
      and every listed cell exist, the origin has no dependents, no listed cell is the
      origin, and each listed cell has no dependent but the origin. */
  predicate Quiet(g: Grid, origin: string, cells: seq<string>)
  {
    CellAt(g, origin).Done? && CellAt(g, origin).value.deps == [] &&
    forall c :: c in cells ==>
      CellAt(g, c).Done? && Locate(g, c) != Locate(g, origin) &&
      forall d :: d in CellAt(g, c).value.deps ==> d == origin
  }

  /** From g to h only dependents were registered, and only `origin`: every cell keeps its
      buffer, its display and its dependents. */
  ghost predicate OnlyGains(g: Grid, h: Grid, origin: string)
  {
    SameShape(g, h) &&
    forall row, col :: Defined(g, row, col) ==>
      h[row][col].buffer == g[row][col].buffer && h[row][col].display == g[row][col].display &&
      g[row][col].deps <= h[row][col].deps &&
      forall y :: y in h[row][col].deps ==> y in g[row][col].deps || y == origin
  }

  /** The reference definition of the for-of loop: the displays of the cells read as
      numbers and added to `sum`, or None at the first that is not a number. */
  function Total(env: Env, g: Grid, cells: seq<string>, sum: real): Option<real>
  {
    if cells == [] then Some(sum)
    else
      match CellAt(g, cells[0])
      case Done(c) =>
        (match env.toNumber(c.display)
         case Some(v) => Total(env, g, cells[1..], sum + v)
         case None => None)
      case _ => None
  }

  /** The loop gives up exactly when some listed cell does not display a number. */
  lemma {:induction false} TotalFails(env: Env, g: Grid, cells: seq<string>, sum: real)
    requires forall c :: c in cells ==> CellAt(g, c).Done?
    ensures Total(env, g, cells, sum).None? <==>
              exists c :: c in cells && env.toNumber(CellAt(g, c).value.display).None?
    decreases |cells|
  {
    if cells != [] {
      assert cells[0] in cells;
      assert forall c :: c in cells[1..] ==> c in cells;
      assert forall c :: c in cells ==> c == cells[0] || c in cells[1..];
      var n := env.toNumber(CellAt(g, cells[0]).value.display);
      if n.None? {
        assert Total(env, g, cells, sum) == None;
      } else {
        assert Total(env, g, cells, sum) == Total(env, g, cells[1..], sum + n.value);
        TotalFails(env, g, cells[1..], sum + n.value);
      }
    }
  }

  /** What OnlyGains means for a cell looked up by name. */
  lemma CellAtGains(g: Grid, h: Grid, origin: string, c: string)
    requires OnlyGains(g, h, origin)
    ensures CellAt(h, c).Done? <==> CellAt(g, c).Done?
    ensures CellAt(g, c).Done? ==>
              CellAt(h, c).value.display == CellAt(g, c).value.display &&
              CellAt(h, c).value.buffer == CellAt(g, c).value.buffer &&
              CellAt(g, c).value.deps <= CellAt(h, c).value.deps
  {
    LocateShape(g, h, c);
  }

  lemma OnlyGainsTransitive(g: Grid, h: Grid, k: Grid, origin: string)
    requires OnlyGains(g, h, origin) && OnlyGains(h, k, origin)
    ensures OnlyGains(g, k, origin)
  {
    forall row, col | Defined(g, row, col)
      ensures g[row][col].deps <= k[row][col].deps
    {
      assert Defined(h, row, col);
    }
  }

  /** Total reads displays only. */
  lemma {:induction false} TotalDisplays(env: Env, g: Grid, h: Grid, origin: string, cells: seq<string>, sum: real)
    requires OnlyGains(g, h, origin)
    ensures Total(env, g, cells, sum) == Total(env, h, cells, sum)
    decreases |cells|
  {
    if cells != [] {
      CellAtGains(g, h, origin, cells[0]);
      if CellAt(g, cells[0]).Done? {
        var v := env.toNumber(CellAt(g, cells[0]).value.display);
        if v.Some? {
          TotalDisplays(env, g, h, origin, cells[1..], sum + v.value);
        }
      }
    }
  }

  /** The sheet after the origin is added to the dependents of the cell `x` names. */
  function Registered(g: Grid, x: string, origin: string): Grid
    requires CellAt(g, x).Done?
  {
    var p := Locate(g, x).value;
    Update(g, p.0, p.1, Cells.AddDependency(g[p.0][p.1], origin))
  }

  /** Visiting a cell whose dependents are at most the origin, for an origin without
      dependents, registers the origin with it and reads its display. */
  lemma VisitAccepted(env: Env, g: Grid, origin: string, x: string, fuel: nat)
    requires fuel >= 2 && CellAt(g, origin).Done? && CellAt(g, origin).value.deps == []
    requires CellAt(g, x).Done? && forall d :: d in CellAt(g, x).value.deps ==> d == origin
    ensures Visit(env, g, origin, x, fuel) ==
              St(Registered(g, x, origin), Done(env.toNumber(CellAt(g, x).value.display)))
  {
    GuardAcceptsReference(g, x, origin, fuel);
    var h := Registered(g, x, origin);
    assert Engine.AddDependency(env, g, x, origin, fuel) == St(h, Done(()));
    LocateShape(g, h, x);
  }

  /** Registering the origin with the first of the quiet cells keeps the rest quiet and
      changes nothing but that cell's dependents. */
  lemma RegisteredQuiet(g: Grid, origin: string, cells: seq<string>)
    requires cells != [] && Quiet(g, origin, cells)
    ensures var h := Registered(g, cells[0], origin);
            Quiet(h, origin, cells[1..]) && OnlyGains(g, h, origin) &&
            CellAt(h, cells[0]).Done? && origin in CellAt(h, cells[0]).value.deps
  {
    var x := cells[0];
    assert x in cells;
    var h := Registered(g, x, origin);
    LocateShape(g, h, origin);
    LocateShape(g, h, x);
    forall c | c in cells[1..]
      ensures CellAt(h, c).Done? && Locate(h, c) != Locate(h, origin)
      ensures forall d :: d in CellAt(h, c).value.deps ==> d == origin
    {
      assert c in cells;
      LocateShape(g, h, c);
    }
  }

  /** Visiting the first of the quiet cells registers the origin with it, reads its display
      and keeps the sheet quiet for the rest. */
  lemma VisitQuiet(env: Env, g: Grid, origin: string, cells: seq<string>, fuel: nat)
    requires fuel >= 2 && cells != [] && Quiet(g, origin, cells)
    ensures var t := Visit(env, g, origin, cells[0], fuel);
            t.out == Done(env.toNumber(CellAt(g, cells[0]).value.display)) &&
            Quiet(t.grid, origin, cells[1..]) && OnlyGains(g, t.grid, origin) &&
            CellAt(t.grid, cells[0]).Done? && origin in CellAt(t.grid, cells[0]).value.deps
  {
    assert cells[0] in cells;
    VisitAccepted(env, g, origin, cells[0], fuel);
    RegisteredQuiet(g, origin, cells);
  }

  /** One turn of the loop over quiet cells: the sheet it leaves, still quiet for the rest
      and with the origin registered with the first cell, the number it reads, and what the
      whole loop then comes to. */
  lemma AccumulateHead(env: Env, g: Grid, origin: string, cells: seq<string>, sum: real, fuel: nat)
      returns (h: Grid, n: Option<real>)
    requires fuel >= 2 && cells != [] && Quiet(g, origin, cells)
    ensures CellAt(g, cells[0]).Done? && n == env.toNumber(CellAt(g, cells[0]).value.display)
    ensures Quiet(h, origin, cells[1..]) && OnlyGains(g, h, origin)
    ensures CellAt(h, cells[0]).Done? && origin in CellAt(h, cells[0]).value.deps
    ensures Accumulate(env, g, origin, cells, sum, fuel) ==
              if n.Some? then Accumulate(env, h, origin, cells[1..], sum + n.value, fuel)
              else St(h, Done(None))
  {
    var t := Visit(env, g, origin, cells[0], fuel);
    VisitQuiet(env, g, origin, cells, fuel);
    h, n := t.grid, env.toNumber(CellAt(g, cells[0]).value.display);
  }

  /** The loop over quiet cells yields Total ... */
  lemma {:induction false} AccumulateTotal(env: Env, g: Grid, origin: string, cells: seq<string>, sum: real, fuel: nat)
    requires fuel >= 2 && Quiet(g, origin, cells)
    ensures Accumulate(env, g, origin, cells, sum, fuel).out == Done(Total(env, g, cells, sum))
    decreases |cells|
  {
    if cells != [] {
      var h, n := AccumulateHead(env, g, origin, cells, sum, fuel);
      if n.Some? {
        TotalDisplays(env, g, h, origin, cells[1..], sum + n.value);
        AccumulateTotal(env, h, origin, cells[1..], sum + n.value, fuel);
      }
    }
  }

  /** ... changes nothing but the dependents, adding only the origin ... */
  lemma {:induction false} AccumulateGains(env: Env, g: Grid, origin: string, cells: seq<string>, sum: real, fuel: nat)
    requires fuel >= 2 && Quiet(g, origin, cells)
    ensures OnlyGains(g, Accumulate(env, g, origin, cells, sum, fuel).grid, origin)
    decreases |cells|
  {
    if cells != [] {
      var h, n := AccumulateHead(env, g, origin, cells, sum, fuel);
      if n.Some? {
        AccumulateGains(env, h, origin, cells[1..], sum + n.value, fuel);
        OnlyGainsTransitive(g, h, Accumulate(env, h, origin, cells[1..], sum + n.value, fuel).grid, origin);
      }
    }
  }

  /** ... and, when every cell displays a number, registers the origin with all of them. */
  lemma {:induction false} AccumulateRegisters(env: Env, g: Grid, origin: string, cells: seq<string>, sum: real, fuel: nat)
    requires fuel >= 2 && Quiet(g, origin, cells) && Total(env, g, cells, sum).Some?
    ensures var k := Accumulate(env, g, origin, cells, sum, fuel).grid;
            forall c :: c in cells ==> CellAt(k, c).Done? && origin in CellAt(k, c).value.deps
    decreases |cells|
  {
    if cells != [] {
      var x := cells[0];
      var h, n := AccumulateHead(env, g, origin, cells, sum, fuel);
      TotalDisplays(env, g, h, origin, cells[1..], sum + n.value);
      AccumulateRegisters(env, h, origin, cells[1..], sum + n.value, fuel);
      AccumulateGains(env, h, origin, cells[1..], sum + n.value, fuel);
      CellAtGains(h, Accumulate(env, h, origin, cells[1..], sum + n.value, fuel).grid, origin, x);
      assert forall c :: c in cells ==> c == x || c in cells[1..];
    }
  }


  /** sumCells over quiet cells: the text of their total, or the error text when one of them
      does not display a number. */
  lemma SumQuiet(env: Env, g: Grid, origin: string, range: string, cells: seq<string>, fuel: nat)
    requires fuel >= 3 && ArgumentCells(range) == Done(cells) && Quiet(g, origin, cells)
    ensures Total(env, g, cells, 0.0).None? ==> SumCells(env, g, origin, range, fuel).out == Done(ERR)
    ensures Total(env, g, cells, 0.0).Some? ==>
              SumCells(env, g, origin, range, fuel).out == Done(env.show(Total(env, g, cells, 0.0).value))
  {
    AccumulateTotal(env, g, origin, cells, 0.0, fuel - 1);
    var a := Accumulate(env, g, origin, cells, 0.0, fuel - 1);
    var t := Total(env, g, cells, 0.0);
    if t.None? {
      assert a.out == Done(None);
    } else {
      assert a.out == Done(Some(t.value));
    }
  }

  /** averageCells over quiet cells: the text of their mean (NaN for no cells), or the
      exception "Cell is not a Number" when one of them does not display a number. */
  lemma AverageQuiet(env: Env, g: Grid, origin: string, range: string, cells: seq<string>, fuel: nat)
    requires fuel >= 3 && ArgumentCells(range) == Done(cells) && Quiet(g, origin, cells)
    ensures Total(env, g, cells, 0.0).None? ==>
              AverageCells(env, g, origin, range, fuel).out == Thrown("Cell is not a Number")
    ensures Total(env, g, cells, 0.0).Some? ==>
              AverageCells(env, g, origin, range, fuel).out ==
                Done(if |cells| == 0 then "NaN" else env.show(Total(env, g, cells, 0.0).value / (|cells| as real)))
  {
    AccumulateTotal(env, g, origin, cells, 0.0, fuel - 1);
    var a := Accumulate(env, g, origin, cells, 0.0, fuel - 1);
    var t := Total(env, g, cells, 0.0);
    if t.None? {
      assert a.out == Done(None);
    } else {
      assert a.out == Done(Some(t.value));
    }
  }

  /** Either function, over quiet cells, changes nothing but the dependents of those cells,
      which gain at most the origin. */
  lemma RangeCallGains(env: Env, g: Grid, origin: string, range: string, cells: seq<string>, fuel: nat)
    requires fuel >= 3 && ArgumentCells(range) == Done(cells) && Quiet(g, origin, cells)
    ensures OnlyGains(g, SumCells(env, g, origin, range, fuel).grid, origin)
    ensures OnlyGains(g, AverageCells(env, g, origin, range, fuel).grid, origin)
  {
    var a := Accumulate(env, g, origin, cells, 0.0, fuel - 1);
    AccumulateGains(env, g, origin, cells, 0.0, fuel - 1);
    assert SumCells(env, g, origin, range, fuel).grid == a.grid;
    assert AverageCells(env, g, origin, range, fuel).grid == a.grid;
  }

  /** The number texts of the environment hold no function name. */
  ghost predicate PlainNumbers(env: Env)
  {
    forall v :: !Contains(env.show(v), "SUM") && !Contains(env.show(v), "AVG")
  }

  /** The error text holds no function name. */
  lemma ErrorTextPlain()
    ensures NoCalls(ERR)
  {
    var err, ref, sum, avg := ERR, "REF", "SUM", "AVG";
    assert 'F' !in err && 'S' !in err && 'A' !in err;
    AbsentChar(err, ref, 2);
    AbsentChar(err, sum, 0);
    AbsentChar(err, avg, 0);
  }

  /** A formula made of one SUM call whose callback yields a text free of SUM and AVG
      evaluates to that text. */
  lemma EvaluateSumCall(env: Env, g: Grid, origin: string, x: string, fuel: nat, h: Grid, t: string)
    requires fuel >= 3 && |x| > 0 && ')' !in x && !Contains("SUM(" + x + ")", "REF")
    requires SumCells(env, g, origin, x, fuel - 3) == St(h, Done(t))
    requires !Contains(t, "SUM") && !Contains(t, "AVG")
    ensures Evaluate(env, g, origin, "SUM(" + x + ")", fuel) == St(h, Done(t))
  {
    var input := "SUM(" + x + ")";
    assert Name(REF) == "REF" && Name(SUM) == "SUM" && Name(AVG) == "AVG";
    assert Callback(env, g, origin, SUM, x, fuel - 2) == St(h, Done(t));
    RepeatWholeCall(env, g, origin, SUM, x, fuel - 1, h, t);
    assert Name(SUM) + "(" + x + ")" == input;
    assert Repeat(env, g, origin, input, REF, fuel - 1) == St(g, Done(input));
    assert Repeat(env, g, origin, input, SUM, fuel - 1) == St(h, Done(t));
    assert Repeat(env, h, origin, t, AVG, fuel - 1) == St(h, Done(t));
  }

  /** The text =SUM shows for quiet cells: their total, or the error text. */
  function SumResult(env: Env, g: Grid, cells: seq<string>): string
  {
    match Total(env, g, cells, 0.0)
    case None => ERR
    case Some(v) => env.show(v)
  }

  /** sumCells over quiet cells, at any fuel of at least 3: it yields SumResult, a text free
      of function names, and registers at most the origin. */
  lemma SumCallResult(env: Env, g: Grid, origin: string, range: string, cells: seq<string>, fuel: nat)
    requires fuel >= 3 && ArgumentCells(range) == Done(cells) && Quiet(g, origin, cells) && PlainNumbers(env)
    ensures var r := SumCells(env, g, origin, range, fuel);
            r == St(r.grid, Done(SumResult(env, g, cells))) && OnlyGains(g, r.grid, origin)
    ensures !Contains(SumResult(env, g, cells), "SUM") && !Contains(SumResult(env, g, cells), "AVG")
  {
    SumQuiet(env, g, origin, range, cells, fuel);
    RangeCallGains(env, g, origin, range, cells, fuel);
    ErrorTextPlain();
  }

  /** =SUM(x) over quiet cells: the formula's text is the text of their total, or the error
      text when one of them does not display a number; the cells gain the origin as a
      dependent and nothing else changes. */
  lemma EvaluateSum(env: Env, g: Grid, origin: string, x: string, cells: seq<string>, fuel: nat)
    requires fuel >= 6 && |x| > 0 && ')' !in x && !Contains("SUM(" + x + ")", "REF") && PlainNumbers(env)
    requires ArgumentCells(x) == Done(cells) && Quiet(g, origin, cells)
    ensures OnlyGains(g, Evaluate(env, g, origin, "SUM(" + x + ")", fuel).grid, origin)
    ensures Total(env, g, cells, 0.0).None? ==> Evaluate(env, g, origin, "SUM(" + x + ")", fuel).out == Done(ERR)
    ensures Total(env, g, cells, 0.0).Some? ==>
              Evaluate(env, g, origin, "SUM(" + x + ")", fuel).out == Done(env.show(Total(env, g, cells, 0.0).value))
  {
    SumCallResult(env, g, origin, x, cells, fuel - 3);
    EvaluateSumCall(env, g, origin, x, fuel, SumCells(env, g, origin, x, fuel - 3).grid, SumResult(env, g, cells));
  }


  /** A formula made of one AVG call evaluates to what its callback yields, provided that
      holds no further AVG, or to the error text when the callback throws. */
  lemma EvaluateAverageCall(env: Env, g: Grid, origin: string, x: string, fuel: nat, h: Grid, o: Outcome<string>)
    requires fuel >= 3 && |x| > 0 && ')' !in x
    requires var input := "AVG(" + x + ")"; !Contains(input, "REF") && !Contains(input, "SUM")
    requires AverageCells(env, g, origin, x, fuel - 3) == St(h, o)
    requires o.Done? || o.Thrown?
    requires o.Done? ==> !Contains(o.value, "AVG")
    ensures Evaluate(env, g, origin, "AVG(" + x + ")", fuel) == St(h, Done(if o.Thrown? then ERR else o.value))
  {
    var input := "AVG(" + x + ")";
    assert Name(REF) == "REF" && Name(SUM) == "SUM" && Name(AVG) == "AVG";
    assert Name(AVG) + "(" + x + ")" == input;
    assert Callback(env, g, origin, AVG, x, fuel - 2) == St(h, o);
    if o.Thrown? {
      RepeatWholeCallThrows(env, g, origin, AVG, x, fuel - 1, h, o.message);
    } else {
      RepeatWholeCall(env, g, origin, AVG, x, fuel - 1, h, o.value);
    }
    assert Repeat(env, g, origin, input, REF, fuel - 1) == St(g, Done(input));
    assert Repeat(env, g, origin, input, SUM, fuel - 1) == St(g, Done(input));
  }

  /** What averageCells gives quiet cells: the text of their mean (NaN for none), or the
      exception a cell that does not display a number raises. */
  function AverageOutcome(env: Env, g: Grid, cells: seq<string>): Outcome<string>
  {
    match Total(env, g, cells, 0.0)
    case None => Thrown("Cell is not a Number")
    case Some(v) => Done(if |cells| == 0 then "NaN" else env.show(v / (|cells| as real)))
  }

  /** averageCells over quiet cells, at any fuel of at least 3: it yields AverageOutcome,
      whose text holds no AVG, and registers at most the origin. */
  lemma AverageCallResult(env: Env, g: Grid, origin: string, range: string, cells: seq<string>, fuel: nat)
    requires fuel >= 3 && ArgumentCells(range) == Done(cells) && Quiet(g, origin, cells) && PlainNumbers(env)
    ensures var r := AverageCells(env, g, origin, range, fuel);
            r == St(r.grid, AverageOutcome(env, g, cells)) && OnlyGains(g, r.grid, origin)
    ensures AverageOutcome(env, g, cells).Done? ==> !Contains(AverageOutcome(env, g, cells).value, "AVG")
  {
    AverageQuiet(env, g, origin, range, cells, fuel);
    RangeCallGains(env, g, origin, range, cells, fuel);
    if Total(env, g, cells, 0.0).Some? && |cells| == 0 {
      var nan := "NaN";
      AbsentChar(nan, "AVG", 0);
    }
  }

  /** =AVG(x) over quiet cells: the formula's text is the text of their mean (NaN for no
      cells), or the error text when one of them does not display a number, since the
      exception averageCells throws is caught; the cells gain the origin as a dependent and
      nothing else changes. */
  lemma EvaluateAverage(env: Env, g: Grid, origin: string, x: string, cells: seq<string>, fuel: nat)
    requires fuel >= 6 && |x| > 0 && ')' !in x && PlainNumbers(env)
    requires var input := "AVG(" + x + ")"; !Contains(input, "REF") && !Contains(input, "SUM")
    requires ArgumentCells(x) == Done(cells) && Quiet(g, origin, cells)
    ensures OnlyGains(g, Evaluate(env, g, origin, "AVG(" + x + ")", fuel).grid, origin)
    ensures Total(env, g, cells, 0.0).None? ==> Evaluate(env, g, origin, "AVG(" + x + ")", fuel).out == Done(ERR)
    ensures Total(env, g, cells, 0.0).Some? ==>
              Evaluate(env, g, origin, "AVG(" + x + ")", fuel).out ==
                Done(if |cells| == 0 then "NaN" else env.show(Total(env, g, cells, 0.0).value / (|cells| as real)))
  {
    var o := AverageOutcome(env, g, cells);
    AverageCallResult(env, g, origin, x, cells, fuel - 3);
    EvaluateAverageCall(env, g, origin, x, fuel, AverageCells(env, g, origin, x, fuel - 3).grid, o);
    if Total(env, g, cells, 0.0).None? {
      assert o.Thrown?;
    } else {
      assert o.Done?;
    }
  }
}
