/**
 * `processSpreadsheet`: visit the cells in row-major order, leave integers,
 * empty cells and sentinels alone, refuse anything else that does not start
 * with `=`, and resolve the formulas; the first failure ends the run.
 */
module Driver {
  import opened Wrappers
  import opened Integers
  import opened Cells
  import opened Resolution

  /** The status of a run and the grid it leaves behind. */
  datatype Run = Run(ok: bool, grid: Grid)

  /** Content the driver refuses: not terminal, and not a formula. */
  predicate IsGarbage(s: string)
  {
    !IsTerminal(s) && s[0] != '='
  }

  /** Where the visit is: a row, and a column within it (or the end). */
  predicate ValidCursor(g: Grid, row: nat, col: nat)
  {
    row <= |g| && (row < |g| ==> col <= |g[row]|)
  }

  /** The run from cell (row, col) on. */
  function DriveFrom(g: Grid, row: nat, col: nat): (r: Run)
    requires ValidCursor(g, row, col)
    ensures SameShape(g, r.grid)
    decreases |g| - row, if row < |g| then |g[row]| - col else 0
  {
    if row == |g| then Run(true, g)
    else if col == |g[row]| then DriveFrom(g, row + 1, 0)
    else
      var s := g[row][col];
      if IsTerminal(s) then DriveFrom(g, row, col + 1)
      else if s[0] != '=' then Run(false, g)
      else
        var o := Resolve(g, {}, Pos(row, col));
        if !o.ok then Run(false, o.grid)
        else DriveFrom(o.grid, row, col + 1)
  }

  function Drive(g: Grid): (r: Run)
    ensures SameShape(g, r.grid)
  {
    DriveFrom(g, 0, 0)
  }

  lemma {:induction false} DriveFromKeepsTerminal(g: Grid, row: nat, col: nat)
    requires ValidCursor(g, row, col)
    ensures KeepsTerminal(g, DriveFrom(g, row, col).grid, {})
    decreases |g| - row, if row < |g| then |g[row]| - col else 0
  {
    if row == |g| {
    } else if col == |g[row]| {
      DriveFromKeepsTerminal(g, row + 1, 0);
    } else {
      var s := g[row][col];
      if IsTerminal(s) {
        DriveFromKeepsTerminal(g, row, col + 1);
      } else if s[0] != '=' {
      } else {
        var o := Resolve(g, {}, Pos(row, col));
        if o.ok {
          DriveFromKeepsTerminal(o.grid, row, col + 1);
          KeepsTerminalTrans(g, o.grid, DriveFrom(o.grid, row, col + 1).grid, {});
        }
      }
    }
  }

  /** A run, whether it succeeds or not, keeps the shape of the grid and never
      overwrites an integer, an empty cell or a sentinel. */
  lemma DriveKeepsTerminal(g: Grid)
    ensures KeepsTerminal(g, Drive(g).grid, {})
  {
    DriveFromKeepsTerminal(g, 0, 0);
  }

  /** Every cell the visit has passed is terminal. */
  predicate TerminalBefore(g: Grid, row: nat, col: nat)
  {
    forall r, c :: 0 <= r < |g| && 0 <= c < |g[r]| && (r < row || (r == row && c < col)) ==>
      IsTerminal(g[r][c])
  }

  lemma {:induction false} DriveFromResolvesAll(g: Grid, row: nat, col: nat)
    requires ValidCursor(g, row, col) && TerminalBefore(g, row, col)
    ensures DriveFrom(g, row, col).ok ==> AllTerminal(DriveFrom(g, row, col).grid)
    decreases |g| - row, if row < |g| then |g[row]| - col else 0
  {
    if row == |g| {
    } else if col == |g[row]| {
      DriveFromResolvesAll(g, row + 1, 0);
    } else {
      var s := g[row][col];
      if IsTerminal(s) {
        DriveFromResolvesAll(g, row, col + 1);
      } else if s[0] != '=' {
      } else {
        var o := Resolve(g, {}, Pos(row, col));
        if o.ok {
          assert IsTerminal(o.grid[row][col]);
          DriveFromResolvesAll(o.grid, row, col + 1);
        }
      }
    }
  }

  /** A run that succeeds leaves only integers, empty cells and sentinels. */
  lemma DriveResolvesAll(g: Grid)
    ensures Drive(g).ok ==> AllTerminal(Drive(g).grid)
  {
    DriveFromResolvesAll(g, 0, 0);
  }

  lemma {:induction false} DriveFromSettled(g: Grid, row: nat, col: nat)
    requires ValidCursor(g, row, col) && AllTerminal(g)
    ensures DriveFrom(g, row, col) == Run(true, g)
    decreases |g| - row, if row < |g| then |g[row]| - col else 0
  {
    if row < |g| {
      if col == |g[row]| {
        DriveFromSettled(g, row + 1, 0);
      } else {
        DriveFromSettled(g, row, col + 1);
      }
    }
  }

  /** A grid holding only integers, empty cells and sentinels is left as it is,
      and the run succeeds. */
  lemma DriveSettled(g: Grid)
    requires AllTerminal(g)
    ensures Drive(g) == Run(true, g)
  {
    DriveFromSettled(g, 0, 0);
  }

  /** Running the engine on its own successful output changes nothing. */
  lemma DriveIdempotent(g: Grid)
    requires Drive(g).ok
    ensures Drive(Drive(g).grid) == Run(true, Drive(g).grid)
  {
    DriveResolvesAll(g);
    DriveSettled(Drive(g).grid);
  }

  lemma {:induction false} DriveFromStopsAtGarbage(g: Grid, row: nat, col: nat, p: Pos)
    requires ValidCursor(g, row, col) && InGrid(g, p)
    requires row < p.row || (row == p.row && col <= p.col)
    requires forall r, c :: 0 <= r < |g| && 0 <= c < |g[r]| && (r < p.row || (r == p.row && c < p.col)) ==>
      IsTerminal(g[r][c])
    requires IsGarbage(Cell(g, p))
    ensures DriveFrom(g, row, col) == Run(false, g)
    decreases |g| - row, if row < |g| then |g[row]| - col else 0
  {
    if col == |g[row]| {
      DriveFromStopsAtGarbage(g, row + 1, 0, p);
    } else if (row, col) != (p.row, p.col) {
      DriveFromStopsAtGarbage(g, row, col + 1, p);
    }
  }

  /** When the first cell that is not terminal is neither an integer nor a
      formula, the run fails there and changes nothing. */
  lemma DriveStopsAtGarbage(g: Grid, p: Pos)
    requires InGrid(g, p) && IsGarbage(Cell(g, p))
    requires forall r, c :: 0 <= r < |g| && 0 <= c < |g[r]| && (r < p.row || (r == p.row && c < p.col)) ==>
      IsTerminal(g[r][c])
    ensures Drive(g) == Run(false, g)
  {
    DriveFromStopsAtGarbage(g, 0, 0, p);
  }

  /** From any cursor up to a formula whose resolution fails, with every cell
      before that formula terminal, the visit fails with the grid it left. */
  lemma {:induction false} DriveFromStopsAtFailure(g: Grid, row: nat, col: nat, p: Pos)
    requires ValidCursor(g, row, col) && InGrid(g, p)
    requires row < p.row || (row == p.row && col <= p.col)
    requires TerminalBefore(g, p.row, p.col)
    requires !IsTerminal(Cell(g, p)) && Cell(g, p)[0] == '=' && !Resolve(g, {}, p).ok
    ensures DriveFrom(g, row, col) == Run(false, Resolve(g, {}, p).grid)
    decreases |g| - row, if row < |g| then |g[row]| - col else 0
  {
    if col == |g[row]| {
      assert DriveFrom(g, row, col) == DriveFrom(g, row + 1, 0);
      DriveFromStopsAtFailure(g, row + 1, 0, p);
    } else if (row, col) != (p.row, p.col) {
      assert IsTerminal(g[row][col]);
      assert DriveFrom(g, row, col) == DriveFrom(g, row, col + 1);
      DriveFromStopsAtFailure(g, row, col + 1, p);
    } else {
      assert row == p.row && col == p.col;
      FailureHere(g, p);
    }
  }

  /** The visit that reaches a formula whose resolution fails ends there. */
  lemma FailureHere(g: Grid, p: Pos)
    requires InGrid(g, p) && !IsTerminal(Cell(g, p)) && Cell(g, p)[0] == '=' && !Resolve(g, {}, p).ok
    ensures DriveFrom(g, p.row, p.col) == Run(false, Resolve(g, {}, p).grid)
  {
  }

  /** When the first cell that is not terminal is a formula that cannot be
      resolved, the run fails at once with the grid that resolution left. */
  lemma DriveStopsAtFailure(g: Grid, p: Pos)
    requires InGrid(g, p) && !IsTerminal(Cell(g, p)) && Cell(g, p)[0] == '='
    requires TerminalBefore(g, p.row, p.col)
    requires !Resolve(g, {}, p).ok
    ensures Drive(g) == Run(false, Resolve(g, {}, p).grid)
  {
    DriveFromStopsAtFailure(g, 0, 0, p);
  }

  /** The run over the row `1 =5-` fails at the malformed formula and leaves
      the grid as it was. */
  lemma MalformedFormulaExample(g: Grid)
    requires |g| == 1 && |g[0]| == 2 && g[0][0] == "1" && g[0][1] == "=5-"
    ensures Drive(g) == Run(false, g)
  {
    var p := Pos(0, 1);
    assert Resolve(g, {}, p) == Outcome(false, g, {}) by {
      assert Cell(g, p)[|Cell(g, p)| - 1] == '-';
      TrailingOperatorFails(g, {}, p);
    }
    assert TerminalBefore(g, 0, 1) by {
      DigitLiteral('1');
      assert IsInt(g[0][0]);
    }
    assert !IsTerminal(Cell(g, p)) by {
      assert !IsDigit(Cell(g, p)[0]);
    }
    DriveStopsAtFailure(g, p);
  }

  /** The run over the grid `1 =5-3 / 2` writes `2` into the formula cell and
      succeeds. */
  lemma FormulaNoReferenceExample()
    ensures Drive([["1", "=5-3"], ["2"]]) == Run(true, [["1", "2"], ["2"]])
  {
    var g := [["1", "=5-3"], ["2"]];
    var h := [["1", "2"], ["2"]];
    assert StringToInt("1") == Some(1) && StringToInt("2") == Some(2);
    assert StringToInt("=5-3") == None by {
      assert !IsDigit("=5-3"[0]);
    }
    assert Resolve(g, {}, Pos(0, 1)) == Outcome(true, h, {}) by {
      SubtractionExample(g, Pos(0, 1));
      assert g[0][1 := "2"] == h[0];
      assert Update(g, Pos(0, 1), "2") == h;
    }
    assert DriveFrom(g, 0, 0) == DriveFrom(g, 0, 1);
    assert DriveFrom(g, 0, 1) == DriveFrom(h, 0, 2);
    assert DriveFrom(h, 0, 2) == DriveFrom(h, 1, 1);
    assert DriveFrom(h, 1, 1) == Run(true, h);
  }

  /** The run over the single row `=B1 =A1` marks both cells of the cycle
      `#ERROR` and succeeds. */
  lemma CircularReferenceExample(g: Grid)
    requires |g| == 1 && g[0] == ["=B1", "=A1"]
    ensures Drive(g) == Run(true, [[Error, Error]])
  {
    var e := [[Error, Error]];
    assert StringToInt("=B1") == None by { assert !IsDigit("=B1"[0]); }
    CycleExample(g);
    SentinelsAreNotIntegers();
    assert DriveFrom(g, 0, 0) == DriveFrom(e, 0, 1);
    assert DriveFrom(e, 0, 1) == DriveFrom(e, 0, 2);
    assert DriveFrom(e, 0, 2) == DriveFrom(e, 1, 0);
  }
}
