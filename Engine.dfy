/**
 * The engine as the source runs it: the grid is overwritten in place and the
 * in-progress set is a piece of state that `processFormula` inserts into and
 * erases from. Each method is proved to do what the functions of `Resolution`
 * and `Driver` describe.
 */
module Engine {
  import opened Wrappers
  import opened Tokenizer
  import opened Integers
  import opened References
  import opened Arithmetic
  import opened Cells
  import opened Resolution
  import opened Driver

  class Spreadsheet {
    /** The grid; formulas are overwritten by their values. */
    var cells: Grid
    /** The cells whose formulas are being resolved (`callStack`). */
    var callStack: set<Pos>

    constructor (g: Grid)
      ensures cells == g && callStack == {}
    {
      cells := g;
      callStack := {};
    }

    /** `processSpreadsheet`: the row-major visit. */
    method ProcessSpreadsheet() returns (ok: bool)
      requires callStack == {}
      modifies this
      ensures Run(ok, cells) == Drive(old(cells))
      ensures callStack == {}
    {
      var row := 0;
      ghost var goal := Drive(old(cells));
      while row < |cells|
        invariant row <= |cells| == |old(cells)| && callStack == {}
        invariant ValidCursor(cells, row, 0) && DriveFrom(cells, row, 0) == goal
        decreases |old(cells)| - row
      {
        var column := 0;
        while column < |cells[row]|
          invariant row < |cells| == |old(cells)| && column <= |cells[row]| && callStack == {}
          invariant ValidCursor(cells, row, column) && DriveFrom(cells, row, column) == goal
        {
          ok := ProcessCell(row, column);
          if !ok {
            return false;
          }
          column := column + 1;
        }
        assert DriveFrom(cells, row, column) == DriveFrom(cells, row + 1, 0);
        row := row + 1;
      }
      return true;
    }

    /** The body of the visit for one cell: a formula is resolved, other
        content is left alone, and anything else stops the visit. */
    method ProcessCell(row: nat, column: nat) returns (ok: bool)
      requires row < |cells| && column < |cells[row]| && callStack == {}
      modifies this
      ensures callStack == {}
      ensures ok ==> && SameShape(old(cells), cells)
                     && DriveFrom(old(cells), row, column) == DriveFrom(cells, row, column + 1)
      ensures !ok ==> DriveFrom(old(cells), row, column) == Run(false, cells)
    {
      var s := cells[row][column];
      // An integer, an empty cell or a sentinel needs no work
      if IsTerminal(s) {
        return true;
      }
      // Only a formula is left as valid content
      if s[0] != '=' {
        return false;
      }
      ok := ProcessFormula(row, column);
    }

    /** `processFormula` for the cell at (row, col). */
    method ProcessFormula(row: nat, col: nat) returns (ok: bool)
      requires InGrid(cells, Pos(row, col)) && cells[row][col] != ""
      modifies this
      ensures Outcome(ok, cells, callStack) == Resolve(old(cells), old(callStack), Pos(row, col))
      decreases |Positions(cells) - callStack|, 0
    {
      var p := Pos(row, col);
      var tokens := Tokenize(cells[row][col][1..], Operators);

      // A circular reference
      if p in callStack {
        cells := Update(cells, p, Error);
        callStack := callStack - {p};
        return true;
      }

      callStack := callStack + {p};
      PushShrinks(cells, old(callStack), p);
      ok := EvaluateFormula(row, col, tokens);
    }

    /** The rest of `processFormula`, once (row, col) is in progress: check the
        shape of the formula, read its first operand and reduce the operations. */
    method EvaluateFormula(row: nat, col: nat, tokens: seq<string>) returns (ok: bool)
      requires InGrid(cells, Pos(row, col)) && cells[row][col] != "" && Pos(row, col) in callStack
      requires tokens == FormulaTokens(cells[row][col])
      modifies this
      ensures Outcome(ok, cells, callStack) == Evaluate(old(cells), old(callStack), Pos(row, col))
      decreases |Positions(cells) - callStack|, 6
    {
      var p := Pos(row, col);
      ghost var start, pushed := cells, callStack;

      // There is always an odd number of tokens: operand (operator operand)*
      if |tokens| % 2 == 0 {
        callStack := callStack - {p};
        return false;
      }

      var stop, first := ReadOperand(row, col, tokens[0]);
      if stop.Some? {
        return stop.value;
      }
      assert Operand(start, pushed, p, tokens[0]) == Continue(first, cells, callStack);
      SameShapePositions(start, cells);
      ok := ReduceOperations(row, col, tokens, first);
    }

    /** An operand of the formula at (row, col): `stringToInt`, and when that
        fails, the `formulaToInt` lambda. */
    method ReadOperand(row: nat, col: nat, tok: string) returns (stop: Option<bool>, value: int)
      requires InGrid(cells, Pos(row, col)) && Pos(row, col) in callStack
      modifies this
      ensures match Operand(old(cells), old(callStack), Pos(row, col), tok)
        case Continue(v, g, s) => stop == None && value == v && cells == g && callStack == s
        case Return(o) => stop == Some(o.ok) && cells == o.grid && callStack == o.stack
      decreases |Positions(cells) - callStack|, 3
    {
      var literal := StringToInt(tok);
      if literal.Some? {
        return None, literal.value;
      }
      stop, value := FormulaToInt(row, col, tok);
    }

    /** The loop of `processFormula` over the operators, from the pending first
        operand `first` on: `result` holds the finished terms and `last` the
        pending one. */
    method ReduceOperations(row: nat, col: nat, tokens: seq<string>, first: int) returns (ok: bool)
      requires InGrid(cells, Pos(row, col)) && Pos(row, col) in callStack
      requires |tokens| % 2 == 1
      modifies this
      ensures Outcome(ok, cells, callStack) == Operations(old(cells), old(callStack), Pos(row, col), tokens, 1, Acc(0, first))
      decreases |Positions(cells) - callStack|, 5
    {
      var p := Pos(row, col);
      ghost var g0, s0 := cells, callStack;
      ghost var goal := Operations(g0, s0, p, tokens, 1, Acc(0, first));
      var result := 0;
      var last := first;
      var i := 1;
      while i + 1 < |tokens|
        invariant 1 <= i <= |tokens|
        invariant InGrid(cells, p) && callStack == s0 && SameShape(g0, cells)
        invariant goal == Operations(cells, callStack, p, tokens, i, Acc(result, last))
        decreases |tokens| - i
      {
        SameShapePositions(g0, cells);
        var stop;
        stop, result, last := Operation(row, col, tokens, i, result, last, goal);
        if stop.Some? {
          return stop.value;
        }
        i := i + 2;
      }
      OperationsDone(cells, callStack, p, tokens, i, Acc(result, last));
      ok := StoreTotal(row, col, result, last);
    }

    /** The end of `processFormula`: flush the pending term, write the total
        into the cell as text and leave the in-progress set. */
    method StoreTotal(row: nat, col: nat, result: int, last: int) returns (ok: bool)
      requires InGrid(cells, Pos(row, col))
      modifies this
      ensures ok && cells == Update(old(cells), Pos(row, col), IntToString(Total(Acc(result, last))))
      ensures callStack == old(callStack) - {Pos(row, col)}
    {
      // Add the last pending term
      var total := Wrap32(result + last);
      cells := Update(cells, Pos(row, col), IntToString(total));
      callStack := callStack - {Pos(row, col)};
      return true;
    }

    /** One turn of that loop: read the operand after operator `tokens[i]` and
        apply the operator, or stop with the status `processFormula` returns. */
    method Operation(row: nat, col: nat, tokens: seq<string>, i: nat, result: int, last: int, ghost goal: Outcome)
      returns (stop: Option<bool>, result': int, last': int)
      requires InGrid(cells, Pos(row, col)) && Pos(row, col) in callStack
      requires 1 <= i && i + 1 < |tokens|
      requires goal == Operations(cells, callStack, Pos(row, col), tokens, i, Acc(result, last))
      modifies this
      ensures stop.Some? ==> Outcome(stop.value, cells, callStack) == goal
      ensures stop.None? ==>
        && InGrid(cells, Pos(row, col)) && callStack == old(callStack) && SameShape(old(cells), cells)
        && goal == Operations(cells, callStack, Pos(row, col), tokens, i + 2, Acc(result', last'))
      decreases |Positions(cells) - callStack|, 4
    {
      var p := Pos(row, col);
      ghost var g0, s0 := cells, callStack;
      OperationsStep(cells, callStack, p, tokens, i, Acc(result, last));
      var value;
      stop, value := ReadOperand(row, col, tokens[i + 1]);
      if stop.Some? {
        return stop, 0, 0;
      }
      assert Operand(g0, s0, p, tokens[i + 1]) == Continue(value, cells, callStack);
      var known;
      known, result', last' := Combine(tokens[i], result, last, value);
      if !known {
        callStack := callStack - {p};
        return Some(false), 0, 0;
      }
    }

    /** One operator applied to the accumulator: `*` and `/` fold into the
        pending term, `+` and `-` flush it; any other token is refused. */
    static method Combine(op: string, result: int, last: int, value: int)
      returns (known: bool, result': int, last': int)
      ensures known == ParseOp(op).Some?
      ensures known ==> Acc(result', last') == Apply(ParseOp(op).value, Acc(result, last), value)
    {
      known := true;
      result', last' := result, last;
      if op == "*" {
        last' := Wrap32(last * value);
      } else if op == "/" {
        last' := Wrap32(TruncDiv(last, value));
      } else if op == "+" {
        result' := Wrap32(result + last);
        last' := value;
      } else if op == "-" {
        result' := Wrap32(result + last);
        last' := Wrap32(-value);
      } else {
        known := false;
      }
    }

    /** The `formulaToInt` lambda: `stop` is its optional status, `value` the
        operand it read when it did not stop. */
    method FormulaToInt(row: nat, col: nat, tok: string) returns (stop: Option<bool>, value: int)
      requires InGrid(cells, Pos(row, col)) && Pos(row, col) in callStack
      modifies this
      ensures match ReferenceStep(old(cells), old(callStack), Pos(row, col), tok)
        case Continue(v, g, s) => stop == None && value == v && cells == g && callStack == s
        case Return(o) => stop == Some(o.ok) && cells == o.grid && callStack == o.stack
      decreases |Positions(cells) - callStack|, 2
    {
      var p := Pos(row, col);
      value := 0;
      var r, c := RefToRowCol(tok);
      // References must be well formed and name a cell that is there
      if r < 0 || c < 0 {
        if cells[row][col] == Nan {
          cells := Update(cells, p, Nan);
          callStack := callStack - {p};
          return Some(true), value;
        }
        callStack := callStack - {p};
        return Some(false), value;
      } else if r >= |cells| || c >= |cells[r]| || cells[r][c] == "" {
        cells := Update(cells, p, Nan);
        callStack := callStack - {p};
        return Some(true), value;
      }
      var tmp := StringToInt(cells[r][c]);
      if tmp.Some? {
        return None, tmp.value;
      }
      stop, value := ResolveReference(row, col, r, c);
    }

    /** The part of `formulaToInt` for a referenced cell that is not an
        integer: resolve it, then read it or pass on its sentinel. */
    method ResolveReference(row: nat, col: nat, r: nat, c: nat) returns (stop: Option<bool>, value: int)
      requires InGrid(cells, Pos(row, col)) && Pos(row, col) in callStack
      requires InGrid(cells, Pos(r, c)) && cells[r][c] != "" && !IsInt(cells[r][c])
      modifies this
      ensures match ReferencedFormula(old(cells), old(callStack), Pos(row, col), Pos(r, c))
        case Continue(v, g, s) => stop == None && value == v && cells == g && callStack == s
        case Return(o) => stop == Some(o.ok) && cells == o.grid && callStack == o.stack
      decreases |Positions(cells) - callStack|, 1
    {
      var p := Pos(row, col);
      value := 0;
      // Resolve the referenced cell first
      var done := ProcessFormula(r, c);
      if !done {
        callStack := callStack - {p};
        return Some(false), value;
      }
      // Pass on the referenced cell's #ERROR or #NAN
      var entry := StringToInt(cells[r][c]);
      if entry.None? {
        cells := Update(cells, p, cells[r][c]);
        callStack := callStack - {p};
        return Some(true), value;
      }
      return None, entry.value;
    }
  }
}
