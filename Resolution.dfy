/**
 * `processFormula` as a function of the grid and of the in-progress set
 * (the source keeps that set in a function-local `static`; here it is passed in
 * and handed back). Resolving a cell may resolve the cells it refers to first,
 * overwriting them, so the grid and the set are threaded through every step.
 *
 * Three functions follow the source's shape: `Resolve` is the function itself,
 * `ReferenceStep` is its `formulaToInt` lambda, and `Operations` is its loop over
 * the operators. `Operand` is the `stringToInt`-then-`formulaToInt` pattern the
 * source writes out twice.
 */
module Resolution {
  import opened Wrappers
  import opened Tokenizer
  import opened Integers
  import opened References
  import opened Arithmetic
  import opened Cells

  /** How a resolution ends: its status, the grid, and the in-progress set. */
  datatype Outcome = Outcome(ok: bool, grid: Grid, stack: set<Pos>)

  /** An operand either gives a value and resolution goes on, or ends it
      (`formulaToInt` returning `nullopt`, or `true`/`false`). */
  datatype Step = Continue(value: int, grid: Grid, stack: set<Pos>) | Return(outcome: Outcome)

  function StepGrid(st: Step): Grid
  {
    match st
    case Continue(_, g, _) => g
    case Return(o) => o.grid
  }

  /** The formula text after `=`, cut at the four operators. */
  function FormulaTokens(s: string): (tokens: seq<string>)
    requires s != ""
    ensures |tokens| % 2 == 1 <==> |s| > 1 && s[|s| - 1] !in Operators
  {
    TokensParity(s[1..], Operators);
    Tokens(s[1..], Operators)
  }

  /** The ending of a resolution of `p` begun with in-progress set `stack`
      (which already holds `p`): the set never gains anything and loses `p`, and
      unless the cell became `#ERROR` through a cycle, it loses exactly `p`. */
  predicate ProperEnding(o: Outcome, stack: set<Pos>, p: Pos)
  {
    && o.stack <= stack - {p}
    && (o.ok ==> InGrid(o.grid, p) && IsResolved(Cell(o.grid, p)))
    && (o.ok && InGrid(o.grid, p) && Cell(o.grid, p) != Error ==> o.stack == stack - {p})
    && (!o.ok ==> o.stack == stack - {p})
  }

  function Resolve(g: Grid, stack: set<Pos>, p: Pos): (o: Outcome)
    requires InGrid(g, p) && Cell(g, p) != ""
    ensures KeepsTerminal(g, o.grid, stack + {p})
    ensures ProperEnding(o, stack, p)
    ensures p in stack ==> o == Outcome(true, Update(g, p, Error), stack - {p})
    decreases |Positions(g) - stack|, 0, 0
  {
    if p in stack then
      // A circular reference
      var marked := Update(g, p, Error);
      assert Cell(marked, p) == Error && IsResolved(Error);
      Outcome(true, marked, stack - {p})
    else
      PushShrinks(g, stack, p);
      Evaluate(g, stack + {p}, p)
  }

  /** The rest of `processFormula`, once `p` has joined the in-progress set. */
  function Evaluate(g: Grid, stack: set<Pos>, p: Pos): (o: Outcome)
    requires InGrid(g, p) && Cell(g, p) != "" && p in stack
    ensures KeepsTerminal(g, o.grid, stack)
    ensures ProperEnding(o, stack, p)
    // An even number of tokens is a malformed formula: fail, grid untouched
    ensures |FormulaTokens(Cell(g, p))| % 2 == 0 ==> o == Outcome(false, g, stack - {p})
    decreases |Positions(g) - stack|, 3, 0
  {
    var tokens := FormulaTokens(Cell(g, p));
    // A formula is an operand followed by operator-operand pairs
    if |tokens| % 2 == 0 then
      Outcome(false, g, stack - {p})
    else
      match Operand(g, stack, p, tokens[0])
      case Return(o) => o
      case Continue(v, g', s') =>
        SameShapePositions(g, g');
        var o := Operations(g', s', p, tokens, 1, Acc(0, v));
        KeepsTerminalTrans(g, g', o.grid, stack);
        o
  }

  /** A formula with an even number of tokens fails at once: the grid is left
      as it was and the cell leaves the in-progress set. */
  lemma EvenTokensFail(g: Grid, stack: set<Pos>, p: Pos)
    requires InGrid(g, p) && Cell(g, p) != "" && p !in stack
    requires |FormulaTokens(Cell(g, p))| % 2 == 0
    ensures Resolve(g, stack, p) == Outcome(false, g, stack)
  {
    ResolveFresh(g, stack, p);
    assert stack + {p} - {p} == stack;
  }

  /** A formula that ends in an operator, such as `=5-`, is malformed. */
  lemma TrailingOperatorFails(g: Grid, stack: set<Pos>, p: Pos)
    requires InGrid(g, p) && p !in stack
    requires |Cell(g, p)| > 1 && Cell(g, p)[|Cell(g, p)| - 1] in Operators
    ensures Resolve(g, stack, p) == Outcome(false, g, stack)
  {
    EvenTokensFail(g, stack, p);
  }

  /** An operand token: an integer literal, or else a reference. */
  function Operand(g: Grid, stack: set<Pos>, p: Pos, tok: string): (st: Step)
    requires InGrid(g, p) && p in stack
    ensures KeepsTerminal(g, StepGrid(st), stack)
    ensures st.Continue? ==> st.stack == stack && IsInt32(st.value)
    ensures st.Return? ==> ProperEnding(st.outcome, stack, p)
    // An integer literal is its own value and changes nothing
    ensures StringToInt(tok).Some? ==> st == Continue(StringToInt(tok).value, g, stack)
    decreases |Positions(g) - stack|, 1, 1
  {
    var literal := StringToInt(tok);
    if literal.Some? then Continue(literal.value, g, stack)
    else ReferenceStep(g, stack, p, tok)
  }

  /** The `formulaToInt` lambda: decode a reference and read, or first resolve,
      the cell it names. */
  function ReferenceStep(g: Grid, stack: set<Pos>, p: Pos, tok: string): (st: Step)
    requires InGrid(g, p) && p in stack
    ensures KeepsTerminal(g, StepGrid(st), stack)
    ensures st.Continue? ==> st.stack == stack && IsInt32(st.value)
    ensures st.Return? ==> ProperEnding(st.outcome, stack, p)
    // The value read is the integer the referenced cell holds, once resolved
    ensures var (r, c) := DecodeRef(tok);
      st.Continue? ==> 0 <= r < |st.grid| && 0 <= c < |st.grid[r]| && StringToInt(st.grid[r][c]) == Some(st.value)
    // An invalid reference leaves the grid alone, and succeeds only in a `#NAN` cell
    ensures var (r, c) := DecodeRef(tok);
      r < 0 || c < 0 ==> st == Return(Outcome(Cell(g, p) == Nan, g, stack - {p}))
    // A reference outside the grid or to an empty cell makes the cell `#NAN`
    ensures var (r, c) := DecodeRef(tok);
      r >= 0 && c >= 0 && (r >= |g| || c >= |g[r]| || g[r][c] == "") ==>
        st == Return(Outcome(true, Update(g, p, Nan), stack - {p}))
    // A reference to a cell holding an integer reads it and changes nothing
    ensures var (r, c) := DecodeRef(tok);
      0 <= r < |g| && 0 <= c < |g[r]| && StringToInt(g[r][c]).Some? ==>
        st == Continue(StringToInt(g[r][c]).value, g, stack)
    decreases |Positions(g) - stack|, 1, 0
  {
    var (r, c) := DecodeRef(tok);
    if r < 0 || c < 0 then
      if Cell(g, p) == Nan then
        UpdateSame(g, p);
        Return(Outcome(true, Update(g, p, Nan), stack - {p}))
      else Return(Outcome(false, g, stack - {p}))
    else if r >= |g| || c >= |g[r]| || g[r][c] == "" then
      Return(Outcome(true, Update(g, p, Nan), stack - {p}))
    else
      var value := StringToInt(g[r][c]);
      if value.Some? then Continue(value.value, g, stack)
      else ReferencedFormula(g, stack, p, Pos(r, c))
  }

  /** A reference to a cell that does not hold an integer: resolve that cell
      first, then read it, or pass on the `#ERROR` or `#NAN` it ends up with. */
  function ReferencedFormula(g: Grid, stack: set<Pos>, p: Pos, q: Pos): (st: Step)
    requires InGrid(g, p) && p in stack && InGrid(g, q) && Cell(g, q) != "" && !IsInt(Cell(g, q))
    ensures KeepsTerminal(g, StepGrid(st), stack)
    ensures st.Continue? ==> st.stack == stack && IsInt32(st.value)
    ensures st.Return? ==> ProperEnding(st.outcome, stack, p)
    decreases |Positions(g) - stack|, 0, 2
  {
    var o := Resolve(g, stack, q);
    ResolveSentinel(g, stack, q);
    KeepsTerminalRestore(g, o.grid, stack, q);
    if !o.ok then Return(Outcome(false, o.grid, o.stack - {p}))
    else
      SentinelsAreNotIntegers();
      var entry := StringToInt(Cell(o.grid, q));
      if entry.None? then
        // Pass on the referenced cell's #ERROR or #NAN
        PassOnEnding(g, stack, p, q, o);
        Return(Outcome(true, Update(o.grid, p, Cell(o.grid, q)), o.stack - {p}))
      else
        Continue(entry.value, o.grid, o.stack)
  }

  /** What a reference to a formula cell `q` gives, in terms of how `q` was
      resolved: its integer is the value read, a sentinel it ended with is copied
      into `p` with nothing else changed, and a failure to resolve it fails `p`. */
  lemma ReferencedResult(g: Grid, stack: set<Pos>, p: Pos, q: Pos)
    requires InGrid(g, p) && p in stack && InGrid(g, q) && Cell(g, q) != "" && !IsInt(Cell(g, q))
    ensures var o, st := Resolve(g, stack, q), ReferencedFormula(g, stack, p, q);
      && (st.Continue? ==> o.ok && st.grid == o.grid && st.stack == o.stack && StringToInt(Cell(o.grid, q)) == Some(st.value))
      && (o.ok && IsSentinel(Cell(o.grid, q)) ==> st == Return(Outcome(true, Update(o.grid, p, Cell(o.grid, q)), o.stack - {p})))
      && (!o.ok ==> st == Return(Outcome(false, o.grid, o.stack - {p})))
  {
    SentinelsAreNotIntegers();
  }

  /** Copying the sentinel a referenced cell resolved to into `p` ends the
      resolution of `p` properly. */
  lemma PassOnEnding(g: Grid, stack: set<Pos>, p: Pos, q: Pos, o: Outcome)
    requires InGrid(g, p) && p in stack && InGrid(g, q)
    requires KeepsTerminal(g, o.grid, stack) && ProperEnding(o, stack, q)
    requires q in stack ==> o.stack == stack - {q} && Cell(o.grid, q) == Error
    requires o.ok && StringToInt(Cell(o.grid, q)).None?
    ensures KeepsTerminal(g, Update(o.grid, p, Cell(o.grid, q)), stack)
    ensures ProperEnding(Outcome(true, Update(o.grid, p, Cell(o.grid, q)), o.stack - {p}), stack, p)
  {
    var h := Update(o.grid, p, Cell(o.grid, q));
    KeepsTerminalUpdate(g, o.grid, stack, p, Cell(o.grid, q));
    assert Cell(h, p) == Cell(o.grid, q);
  }

  /** The loop over the operators: `i` is the position of the next operator and
      `acc` holds `result` and `last`. */
  function Operations(g: Grid, stack: set<Pos>, p: Pos, tokens: seq<string>, i: nat, acc: Acc): (o: Outcome)
    requires InGrid(g, p) && p in stack
    requires 1 <= i <= |tokens|
    ensures KeepsTerminal(g, o.grid, stack)
    ensures ProperEnding(o, stack, p)
    decreases |Positions(g) - stack|, 2, |tokens| - i
  {
    if i + 1 >= |tokens| then
      var result := Total(acc);
      IntToStringRoundTrip(result);
      Outcome(true, Update(g, p, IntToString(result)), stack - {p})
    else
      match Operand(g, stack, p, tokens[i + 1])
      case Return(o) => o
      case Continue(v, g', s') =>
        match ParseOp(tokens[i])
        case None => Outcome(false, g', s' - {p})
        case Some(op) =>
          SameShapePositions(g, g');
          var o := Operations(g', s', p, tokens, i + 2, Apply(op, acc, v));
          KeepsTerminalTrans(g, g', o.grid, stack);
          o
  }

  /** The loop over the operators ends by flushing the pending term and
      writing the total into the cell. */
  lemma OperationsDone(g: Grid, stack: set<Pos>, p: Pos, tokens: seq<string>, i: nat, acc: Acc)
    requires InGrid(g, p) && p in stack
    requires 1 <= i <= |tokens| && i + 1 >= |tokens|
    ensures Operations(g, stack, p, tokens, i, acc) ==
      Outcome(true, Update(g, p, IntToString(Total(acc))), stack - {p})
  {
  }

  /** One turn of the loop over the operators, unfolded. */
  lemma OperationsStep(g: Grid, stack: set<Pos>, p: Pos, tokens: seq<string>, i: nat, acc: Acc)
    requires InGrid(g, p) && p in stack
    requires 1 <= i && i + 1 < |tokens|
    ensures match Operand(g, stack, p, tokens[i + 1])
      case Return(o) => Operations(g, stack, p, tokens, i, acc) == o
      case Continue(v, g', s') =>
        InGrid(g', p) && p in s' &&
        Operations(g, stack, p, tokens, i, acc) ==
          match ParseOp(tokens[i])
          case None => Outcome(false, g', s' - {p})
          case Some(op) => Operations(g', s', p, tokens, i + 2, Apply(op, acc, v))
  {
  }

  /** An operand that gives `v` without changing anything: the integer literal
      `v`, or a reference to a cell of the grid that holds the integer `v`. */
  predicate ReadsValue(g: Grid, tok: string, v: int)
  {
    || StringToInt(tok) == Some(v)
    || (StringToInt(tok) == None &&
        var (r, c) := DecodeRef(tok);
        0 <= r < |g| && 0 <= c < |g[r]| && StringToInt(g[r][c]) == Some(v))
  }

  /** Such an operand is read as `v`, with the grid and the set unchanged. */
  lemma ReadsValueOperand(g: Grid, stack: set<Pos>, p: Pos, tok: string, v: int)
    requires InGrid(g, p) && p in stack && ReadsValue(g, tok, v)
    ensures Operand(g, stack, p, tok) == Continue(v, g, stack)
  {
    if StringToInt(tok) == None {
      assert Operand(g, stack, p, tok) == ReferenceStep(g, stack, p, tok);
    }
  }

  /** From token `i` on, the tokens are the operators `ops`, each followed by an
      operand that reads as `vals[j]` (the tokens after those may be anything). */
  predicate ValuePairs(g: Grid, tokens: seq<string>, i: nat, ops: seq<Op>, vals: seq<int>)
    decreases |ops|
  {
    && |ops| == |vals| && i + 2 * |ops| <= |tokens|
    && (ops != [] ==>
          && ParseOp(tokens[i]) == Some(ops[0]) && ReadsValue(g, tokens[i + 1], vals[0])
          && ValuePairs(g, tokens, i + 2, ops[1..], vals[1..]))
  }

  /** An operator followed by an operand that reads as `v` is applied to the
      accumulator. */
  lemma ValueStep(g: Grid, stack: set<Pos>, p: Pos, tokens: seq<string>, i: nat, acc: Acc, op: Op, v: int)
    requires InGrid(g, p) && p in stack && 1 <= i && i + 1 < |tokens|
    requires ParseOp(tokens[i]) == Some(op) && ReadsValue(g, tokens[i + 1], v)
    ensures Operations(g, stack, p, tokens, i, acc) == Operations(g, stack, p, tokens, i + 2, Apply(op, acc, v))
  {
    ReadsValueOperand(g, stack, p, tokens[i + 1], v);
  }

  /** A missing reference as the next operand ends the loop with `#NAN`. */
  lemma MissingStep(g: Grid, stack: set<Pos>, p: Pos, tokens: seq<string>, i: nat, acc: Acc)
    requires InGrid(g, p) && p in stack && 1 <= i && i + 1 < |tokens|
    requires StringToInt(tokens[i + 1]) == None && IsMissing(g, DecodeRef(tokens[i + 1]))
    ensures Operations(g, stack, p, tokens, i, acc) == Outcome(true, Update(g, p, Nan), stack - {p})
  {
    assert Operand(g, stack, p, tokens[i + 1]) == ReferenceStep(g, stack, p, tokens[i + 1]);
  }

  /** Over operands that all read as integers without changing anything, the
      loop over the operators computes the precedence reduction `Fold` and writes
      its total into the cell. */
  lemma {:induction false} ValueOperations(g: Grid, stack: set<Pos>, p: Pos, tokens: seq<string>, i: nat,
                                           acc: Acc, ops: seq<Op>, vals: seq<int>)
    requires InGrid(g, p) && p in stack && 1 <= i
    requires ValuePairs(g, tokens, i, ops, vals) && |tokens| == i + 2 * |ops|
    ensures Operations(g, stack, p, tokens, i, acc) ==
      Outcome(true, Update(g, p, IntToString(Total(Fold(acc, ops, vals)))), stack - {p})
    decreases |ops|, 1
  {
    if ops == [] {
      assert Fold(acc, ops, vals) == acc;
      OperationsDone(g, stack, p, tokens, i, acc);
    } else {
      ValueOperationsNext(g, stack, p, tokens, i, acc, ops, vals);
    }
  }

  /** The inductive step of `ValueOperations`: apply the first pair, then
      the rest. */
  lemma {:induction false} ValueOperationsNext(g: Grid, stack: set<Pos>, p: Pos, tokens: seq<string>, i: nat,
                                               acc: Acc, ops: seq<Op>, vals: seq<int>)
    requires InGrid(g, p) && p in stack && 1 <= i && ops != []
    requires ValuePairs(g, tokens, i, ops, vals) && |tokens| == i + 2 * |ops|
    ensures Operations(g, stack, p, tokens, i, acc) ==
      Outcome(true, Update(g, p, IntToString(Total(Fold(acc, ops, vals)))), stack - {p})
    decreases |ops|, 0
  {
    var next := Apply(ops[0], acc, vals[0]);
    assert Fold(acc, ops, vals) == Fold(next, ops[1..], vals[1..]);
    assert Operations(g, stack, p, tokens, i, acc) == Operations(g, stack, p, tokens, i + 2, next) by {
      ValueStep(g, stack, p, tokens, i, acc, ops[0], vals[0]);
    }
    ValueOperations(g, stack, p, tokens, i + 2, next, ops[1..], vals[1..]);
  }

  /** A formula of odd length whose first operand reads as `first` goes on to
      the loop over the operators with that value pending. */
  lemma ValueFirst(g: Grid, stack: set<Pos>, p: Pos, first: int)
    requires InGrid(g, p) && Cell(g, p) != "" && p in stack
    requires var tokens := FormulaTokens(Cell(g, p));
      |tokens| % 2 == 1 && ReadsValue(g, tokens[0], first)
    ensures Evaluate(g, stack, p) == Operations(g, stack, p, FormulaTokens(Cell(g, p)), 1, Acc(0, first))
  {
    ReadsValueOperand(g, stack, p, FormulaTokens(Cell(g, p))[0], first);
  }

  /** A formula whose operands are integer literals or references to cells
      holding integers resolves to the sum of its terms, each term the
      left-to-right chain of `*` and `/`, wrapped to 32 bits: the resolver
      computes `Reduce`, so it obeys the precedence theorem. */
  lemma ValueFormula(g: Grid, p: Pos, first: int, ops: seq<Op>, vals: seq<int>)
    requires InGrid(g, p) && Cell(g, p) != ""
    requires var tokens := FormulaTokens(Cell(g, p));
      |tokens| == 1 + 2 * |ops| && ReadsValue(g, tokens[0], first) && ValuePairs(g, tokens, 1, ops, vals)
    ensures Resolve(g, {}, p) == Outcome(true, Update(g, p, IntToString(Reduce(first, ops, vals))), {})
    ensures Resolve(g, {}, p) == Outcome(true, Update(g, p, IntToString(Wrap32(Sum(Terms(first, ops, vals))))), {})
  {
    var tokens := FormulaTokens(Cell(g, p));
    var o := Outcome(true, Update(g, p, IntToString(Reduce(first, ops, vals))), {});
    assert Resolve(g, {}, p) == Evaluate(g, {p}, p) by {
      assert {} + {p} == {p};
      ResolveFresh(g, {}, p);
    }
    assert Evaluate(g, {p}, p) == Operations(g, {p}, p, tokens, 1, Acc(0, first)) by {
      ValueFirst(g, {p}, p, first);
    }
    assert Operations(g, {p}, p, tokens, 1, Acc(0, first)) == o by {
      ValueOperations(g, {p}, p, tokens, 1, Acc(0, first), ops, vals);
      assert {p} - {p} == {};
    }
    ReduceIsSumOfTerms(first, ops, vals);
  }

  /** `=5-3*2*2+9/3` resolves to `-4`: `*` and `/` bind tighter than `+` and `-`. */
  lemma PrecedenceExample(g: Grid, p: Pos)
    requires InGrid(g, p) && Cell(g, p) == "=5-3*2*2+9/3"
    ensures Resolve(g, {}, p) == Outcome(true, Update(g, p, "-4"), {})
  {
    PrecedenceTokens(Cell(g, p));
    PrecedenceFromTokens(g, p);
  }

  lemma PrecedenceFromTokens(g: Grid, p: Pos)
    requires InGrid(g, p) && Cell(g, p) != ""
    requires FormulaTokens(Cell(g, p)) == ["5", "-", "3", "*", "2", "*", "2", "+", "9", "/", "3"]
    ensures Resolve(g, {}, p) == Outcome(true, Update(g, p, "-4"), {})
  {
    var ops, vals := [Sub, Mul, Mul, Add, Div], [3, 2, 2, 9, 3];
    PrecedencePairs(g, FormulaTokens(Cell(g, p)), ops, vals);
    ValueFormula(g, p, 5, ops, vals);
    PrecedenceValue();
  }

  /** The text `=5-3*2*2+9/3` splits into its eleven one-character tokens. */
  lemma PrecedenceTokens(s: string)
    requires s == "=5-3*2*2+9/3"
    ensures FormulaTokens(s) == ["5", "-", "3", "*", "2", "*", "2", "+", "9", "/", "3"]
  {
    var t := s[1..];
    assert t == "5-3*2*2+9/3";
    var ts := FormulaTokens(s);
    assert |ts| == 11 && forall k :: 0 <= k < 11 ==> ts[k] == [t[k]] by {
      PrecedenceOperands(t);
      OneCharTokens(t, Operators, 0);
    }
    forall k | 0 <= k < 11
      ensures ts[k] == ["5", "-", "3", "*", "2", "*", "2", "+", "9", "/", "3"][k]
    {
      assert ts[k] == [t[k]];
    }
  }

  lemma PrecedenceOperands(t: string)
    requires t == "5-3*2*2+9/3"
    ensures OneCharOperands(t, Operators, 0)
  {
    assert OneCharOperands(t, Operators, 10);
    assert OneCharOperands(t, Operators, 8);
    assert OneCharOperands(t, Operators, 6);
    assert OneCharOperands(t, Operators, 4);
    assert OneCharOperands(t, Operators, 2);
  }

  /** From `from` on, one character that is not a delimiter, then alternately
      one delimiter and one character that is not, up to the end. */
  predicate OneCharOperands(s: string, del: string, from: nat)
    decreases |s| - from
  {
    && from < |s| && s[from] !in del
    && (from + 1 < |s| ==> s[from + 1] in del && OneCharOperands(s, del, from + 2))
  }

  /** Such a string splits into one token per character. */
  lemma {:induction false} OneCharTokens(s: string, del: string, from: nat)
    requires OneCharOperands(s, del, from)
    ensures |TokensFrom(s, del, from)| == |s| - from
    ensures forall k :: 0 <= k < |s| - from ==> TokensFrom(s, del, from)[k] == [s[from + k]]
    decreases |s| - from
  {
    if from + 1 == |s| {
      assert FindFirstOf(s, del, from + 1) == None;
      assert s[from..] == [s[from]];
    } else {
      var rest := TokensFrom(s, del, from + 2);
      assert TokensFrom(s, del, from) == [[s[from]], [s[from + 1]]] + rest by {
        CharThenOperator(s, del, from);
      }
      OneCharTokens(s, del, from + 2);
      forall k | 2 <= k < |s| - from
        ensures TokensFrom(s, del, from)[k] == [s[from + k]]
      {
        assert rest[k - 2] == [s[from + 2 + (k - 2)]];
      }
    }
  }

  /** A character that is no delimiter followed by one that is gives those two
      tokens, then the tokens after them. */
  lemma CharThenOperator(s: string, del: string, from: nat)
    requires from + 1 < |s| && s[from] !in del && s[from + 1] in del
    ensures TokensFrom(s, del, from) == [[s[from]], [s[from + 1]]] + TokensFrom(s, del, from + 2)
  {
    assert FindFirstOf(s, del, from) == Some(from + 1);
    assert s[from..from + 1] == [s[from]];
  }

  lemma PrecedencePairs(g: Grid, tokens: seq<string>, ops: seq<Op>, vals: seq<int>)
    requires tokens == ["5", "-", "3", "*", "2", "*", "2", "+", "9", "/", "3"]
    requires ops == [Sub, Mul, Mul, Add, Div] && vals == [3, 2, 2, 9, 3]
    ensures |tokens| == 11 && StringToInt(tokens[0]) == Some(5)
    ensures ValuePairs(g, tokens, 1, ops, vals)
  {
    PrecedenceLiterals();
    forall j | 0 <= j < |ops|
      ensures ParseOp(tokens[1 + 2 * j]) == Some(ops[j]) && StringToInt(tokens[2 + 2 * j]) == Some(vals[j])
    {
      if j == 0 {} else if j == 1 {} else if j == 2 {} else if j == 3 {} else {}
    }
    PairsFromIndexes(g, tokens, 1, ops, vals);
  }

  /** `ValuePairs` holds when each operator and integer literal is in place. */
  lemma {:induction false} PairsFromIndexes(g: Grid, tokens: seq<string>, i: nat, ops: seq<Op>, vals: seq<int>)
    requires |ops| == |vals| && i + 2 * |ops| <= |tokens|
    requires forall j :: 0 <= j < |ops| ==>
      ParseOp(tokens[i + 2 * j]) == Some(ops[j]) && StringToInt(tokens[i + 1 + 2 * j]) == Some(vals[j])
    ensures ValuePairs(g, tokens, i, ops, vals)
    decreases |ops|
  {
    if ops != [] {
      assert ParseOp(tokens[i + 2 * 0]) == Some(ops[0]);
      forall j | 0 <= j < |ops| - 1
        ensures ParseOp(tokens[i + 2 + 2 * j]) == Some(ops[1..][j])
        ensures StringToInt(tokens[i + 2 + 1 + 2 * j]) == Some(vals[1..][j])
      {
        assert ParseOp(tokens[i + 2 * (j + 1)]) == Some(ops[j + 1]);
        assert StringToInt(tokens[i + 1 + 2 * (j + 1)]) == Some(vals[j + 1]);
      }
      PairsFromIndexes(g, tokens, i + 2, ops[1..], vals[1..]);
    }
  }

  lemma PrecedenceValue()
    ensures IntToString(Reduce(5, [Sub, Mul, Mul, Add, Div], [3, 2, 2, 9, 3])) == "-4"
  {
    ReduceExamples();
    PrecedenceLiterals();
  }

  lemma PrecedenceLiterals()
    ensures StringToInt("5") == Some(5) && StringToInt("3") == Some(3)
    ensures StringToInt("2") == Some(2) && StringToInt("9") == Some(9)
    ensures ParseOp("-") == Some(Sub) && ParseOp("*") == Some(Mul)
    ensures ParseOp("+") == Some(Add) && ParseOp("/") == Some(Div)
    ensures IntToString(-4) == "-4"
  {
    DigitLiteral('5');
    DigitLiteral('3');
    DigitLiteral('2');
    DigitLiteral('9');
  }

  /** An operand that is a reference outside the grid, or to an empty cell,
      ends the loop over the operators with `#NAN` in the cell, whatever tokens
      follow it, once the operands before it read as integers. */
  lemma {:induction false} MissingOperand(g: Grid, stack: set<Pos>, p: Pos, tokens: seq<string>, i: nat,
                                          acc: Acc, ops: seq<Op>, vals: seq<int>, tok: string)
    requires InGrid(g, p) && p in stack && 1 <= i
    requires ValuePairs(g, tokens, i, ops, vals) && i + 2 * |ops| + 1 < |tokens| && tokens[i + 2 * |ops| + 1] == tok
    requires StringToInt(tok) == None && IsMissing(g, DecodeRef(tok))
    ensures Operations(g, stack, p, tokens, i, acc) == Outcome(true, Update(g, p, Nan), stack - {p})
    decreases |ops|, 1
  {
    if ops == [] {
      MissingStep(g, stack, p, tokens, i, acc);
    } else {
      MissingOperandNext(g, stack, p, tokens, i, acc, ops, vals, tok);
    }
  }

  /** The inductive step of `MissingOperand`: apply the first pair, then go on. */
  lemma {:induction false} MissingOperandNext(g: Grid, stack: set<Pos>, p: Pos, tokens: seq<string>, i: nat,
                                              acc: Acc, ops: seq<Op>, vals: seq<int>, tok: string)
    requires InGrid(g, p) && p in stack && 1 <= i && ops != []
    requires ValuePairs(g, tokens, i, ops, vals) && i + 2 * |ops| + 1 < |tokens| && tokens[i + 2 * |ops| + 1] == tok
    requires StringToInt(tok) == None && IsMissing(g, DecodeRef(tok))
    ensures Operations(g, stack, p, tokens, i, acc) == Outcome(true, Update(g, p, Nan), stack - {p})
    decreases |ops|, 0
  {
    var next := Apply(ops[0], acc, vals[0]);
    assert ValuePairs(g, tokens, i + 2, ops[1..], vals[1..]);
    assert tokens[i + 2 + 2 * |ops[1..]| + 1] == tok by {
      assert i + 2 + 2 * |ops[1..]| + 1 == i + 2 * |ops| + 1;
    }
    MissingOperand(g, stack, p, tokens, i + 2, next, ops[1..], vals[1..], tok);
    ValueStep(g, stack, p, tokens, i, acc, ops[0], vals[0]);
  }

  /** A decoded reference that names a place outside the grid, or an empty cell. */
  predicate IsMissing(g: Grid, rc: (int, int))
  {
    var (r, c) := rc;
    r >= 0 && c >= 0 && (r >= |g| || c >= |g[r]| || g[r][c] == "")
  }

  /** A formula with a missing reference after operands that read as integers
      resolves to `#NAN`, whatever comes after that reference. */
  lemma MissingReferenceAt(g: Grid, p: Pos, first: int, ops: seq<Op>, vals: seq<int>)
    requires InGrid(g, p) && Cell(g, p) != ""
    requires var tokens := FormulaTokens(Cell(g, p));
      && |tokens| % 2 == 1 && ReadsValue(g, tokens[0], first)
      && ValuePairs(g, tokens, 1, ops, vals) && 2 * |ops| + 2 < |tokens|
      && StringToInt(tokens[2 * |ops| + 2]) == None && IsMissing(g, DecodeRef(tokens[2 * |ops| + 2]))
    ensures Resolve(g, {}, p) == Outcome(true, Update(g, p, Nan), {})
  {
    var tokens := FormulaTokens(Cell(g, p));
    assert Resolve(g, {}, p) == Evaluate(g, {p}, p) by {
      assert {} + {p} == {p};
      ResolveFresh(g, {}, p);
    }
    assert Evaluate(g, {p}, p) == Operations(g, {p}, p, tokens, 1, Acc(0, first)) by {
      ValueFirst(g, {p}, p, first);
    }
    assert Operations(g, {p}, p, tokens, 1, Acc(0, first)) == Outcome(true, Update(g, p, Nan), {}) by {
      MissingOperand(g, {p}, p, tokens, 1, Acc(0, first), ops, vals, tokens[2 * |ops| + 2]);
      assert {p} - {p} == {};
    }
  }

  /** A cell that already holds a sentinel is left as it is: resolving `#NAN`
      succeeds and resolving `#ERROR` fails, and neither touches the grid. */
  lemma ResolveSentinel(g: Grid, stack: set<Pos>, p: Pos)
    requires InGrid(g, p) && Cell(g, p) != ""
    ensures p !in stack && IsSentinel(Cell(g, p)) ==>
      Resolve(g, stack, p) == Outcome(Cell(g, p) == Nan, g, stack)
    decreases |Positions(g) - stack|, 0, 1
  {
    if p !in stack && IsSentinel(Cell(g, p)) {
      var s := stack + {p};
      PushShrinks(g, stack, p);
      assert Resolve(g, stack, p) == Evaluate(g, s, p);
      SentinelEvaluates(g, s, p);
      assert s - {p} == stack;
      if Cell(g, p) == Nan {
        UpdateSame(g, p);
      }
    }
  }

  /** The sentinel's one token is read as an invalid reference: `#NAN` stays,
      `#ERROR` fails. */
  lemma SentinelEvaluates(g: Grid, stack: set<Pos>, p: Pos)
    requires InGrid(g, p) && p in stack && IsSentinel(Cell(g, p))
    ensures Evaluate(g, stack, p) ==
      if Cell(g, p) == Nan then Outcome(true, Update(g, p, Nan), stack - {p})
      else Outcome(false, g, stack - {p})
    decreases |Positions(g) - stack|, 3, 1
  {
    var t := Cell(g, p)[1..];
    var o := if Cell(g, p) == Nan then Outcome(true, Update(g, p, Nan), stack - {p})
      else Outcome(false, g, stack - {p});
    SentinelFormulas(g, p);
    var tokens := FormulaTokens(Cell(g, p));
    assert tokens == [t];
    InvalidOperand(g, stack, p, t);
  }

  /** A token that is neither an integer nor a reference ends the formula: the
      cell keeps `#NAN` and succeeds, or otherwise fails untouched. */
  lemma InvalidOperand(g: Grid, stack: set<Pos>, p: Pos, tok: string)
    requires InGrid(g, p) && p in stack
    requires StringToInt(tok) == None && DecodeRef(tok) == (-1, -1)
    ensures Operand(g, stack, p, tok) ==
      if Cell(g, p) == Nan then Return(Outcome(true, Update(g, p, Nan), stack - {p}))
      else Return(Outcome(false, g, stack - {p}))
    decreases |Positions(g) - stack|, 1, 2
  {
    assert Operand(g, stack, p, tok) == ReferenceStep(g, stack, p, tok);
  }

  /** A cell holding `#NAN` or `#ERROR` reads as a formula of one token, `NAN` or
      `ERROR`: a word of capitals, so neither an integer nor a reference. */
  lemma SentinelFormulas(g: Grid, p: Pos)
    requires InGrid(g, p) && IsSentinel(Cell(g, p))
    ensures FormulaTokens(Cell(g, p)) == [Cell(g, p)[1..]]
    ensures StringToInt(Cell(g, p)[1..]) == None && DecodeRef(Cell(g, p)[1..]) == (-1, -1)
  {
    var t := Cell(g, p)[1..];
    assert t == if Cell(g, p) == Nan then "NAN" else "ERROR";
    assert AllUpper(t);
    SingleToken(t);
    CapitalWord(t);
  }

  /** A word of capitals has no digit, so it is no integer, and no row follows
      its letters, so it is no reference. */
  lemma CapitalWord(w: string)
    requires w != "" && AllUpper(w)
    ensures StringToInt(w) == None && DecodeRef(w) == (-1, -1)
  {
    assert !IsDigit(w[|w| - 1]);
    DecodeLettersOnly(w);
  }

  lemma SingleToken(s: string)
    requires s != "" && forall i :: 0 <= i < |s| ==> s[i] !in Operators
    ensures Tokens(s, Operators) == [s]
  {
    FindFirstOfNone(s, Operators, 0);
    assert s[0..] == s;
  }

  /** A formula without references: `=5-3` resolves to `2`. */
  lemma SubtractionExample(g: Grid, p: Pos)
    requires InGrid(g, p) && Cell(g, p) == "=5-3"
    ensures Resolve(g, {}, p) == Outcome(true, Update(g, p, "2"), {})
  {
    SubtractionTokens(Cell(g, p));
    SubtractionEvaluates(g, p);
    assert {} + {p} == {p};
    ResolveFresh(g, {}, p);
  }

  lemma SubtractionEvaluates(g: Grid, p: Pos)
    requires InGrid(g, p) && Cell(g, p) != "" && FormulaTokens(Cell(g, p)) == ["5", "-", "3"]
    ensures Evaluate(g, {p}, p) == Outcome(true, Update(g, p, "2"), {})
  {
    var tokens := FormulaTokens(Cell(g, p));
    assert |tokens| % 2 == 1 && tokens[0] == "5";
    SubtractionOperations(g, p);
  }

  lemma SubtractionTokens(s: string)
    requires s == "=5-3"
    ensures FormulaTokens(s) == ["5", "-", "3"]
  {
    assert s[1..] == "5-3";
    TokensExamples();
  }

  lemma SubtractionLiterals()
    ensures StringToInt("5") == Some(5) && StringToInt("3") == Some(3)
    ensures ParseOp("-") == Some(Sub) && IntToString(2) == "2"
  {
  }

  lemma SubtractionOperations(g: Grid, p: Pos)
    requires InGrid(g, p)
    ensures Operand(g, {p}, p, "5") == Continue(5, g, {p})
    ensures Operations(g, {p}, p, ["5", "-", "3"], 1, Acc(0, 5)) == Outcome(true, Update(g, p, "2"), {})
  {
    var stack, tokens := {p}, ["5", "-", "3"];
    SubtractionLiterals();
    assert Operand(g, stack, p, tokens[2]) == Continue(3, g, stack);
    OperationsStep(g, stack, p, tokens, 1, Acc(0, 5));
    assert Apply(Sub, Acc(0, 5), 3) == Acc(5, -3);
    OperationsDone(g, stack, p, tokens, 3, Acc(5, -3));
    assert Total(Acc(5, -3)) == 2;
  }

  /** A formula over integer cells: in the row `2 3 =A1+B1`, the formula reads
      both cells and resolves to `5`. */
  lemma ReferenceSumExample(g: Grid)
    requires |g| == 1 && g[0] == ["2", "3", "=A1+B1"]
    ensures Resolve(g, {}, Pos(0, 2)) == Outcome(true, [["2", "3", "5"]], {})
  {
    var p := Pos(0, 2);
    assert FormulaTokens(Cell(g, p)) == ["A1", "+", "B1"] by {
      ReferenceSumTokens(Cell(g, p));
    }
    assert Resolve(g, {}, p) == Outcome(true, Update(g, p, "5"), {}) by {
      DigitLiteral('2');
      DigitLiteral('3');
      ReferenceSumReads(g, FormulaTokens(Cell(g, p)), 2, 3);
      ValueFormula(g, p, 2, [Add], [3]);
      ReferenceSumValue();
    }
    assert Update(g, p, "5") == [["2", "3", "5"]] by {
      assert g[0][2 := "5"] == ["2", "3", "5"];
    }
  }

  lemma ReferenceSumTokens(s: string)
    requires s == "=A1+B1"
    ensures FormulaTokens(s) == ["A1", "+", "B1"]
  {
    var t := s[1..];
    assert t == "A1+B1";
    assert FindFirstOf(t, Operators, 0) == Some(2) by {
      assert FindFirstOf(t, Operators, 2) == Some(2);
      assert FindFirstOf(t, Operators, 1) == Some(2);
    }
    assert TokensFrom(t, Operators, 3) == ["B1"] by {
      assert FindFirstOf(t, Operators, 5) == None;
      assert FindFirstOf(t, Operators, 4) == None;
      assert FindFirstOf(t, Operators, 3) == None;
      assert t[3..] == "B1";
    }
    assert t[0..2] == "A1";
  }

  /** `A1` and `B1` read the integers of the first two cells of row 0. */
  lemma ReferenceSumReads(g: Grid, tokens: seq<string>, a: int, b: int)
    requires |g| >= 1 && |g[0]| >= 2 && StringToInt(g[0][0]) == Some(a) && StringToInt(g[0][1]) == Some(b)
    requires |tokens| == 3 && tokens[0] == "A1" && tokens[1] == "+" && tokens[2] == "B1"
    ensures ReadsValue(g, tokens[0], a) && ValuePairs(g, tokens, 1, [Add], [b])
  {
    assert ReadsValue(g, tokens[0], a) by {
      RowOneReads(g, tokens[0], a);
    }
    assert ReadsValue(g, tokens[2], b) by {
      RowOneReads(g, tokens[2], b);
    }
    assert ParseOp(tokens[1]) == Some(Add) by {
      PlusOperator(tokens[1]);
    }
    assert ValuePairs(g, tokens, 3, [Add][1..], [b][1..]);
  }

  lemma PlusOperator(t: string)
    requires t == "+"
    ensures ParseOp(t) == Some(Add)
  {
  }

  /** A capital followed by `1` reads the integer in that column of row 0. */
  lemma RowOneReads(g: Grid, tok: string, v: int)
    requires |tok| == 2 && IsUpper(tok[0]) && tok[1] == '1'
    requires |g| >= 1 && LetterValue(tok[0]) - 1 < |g[0]| && StringToInt(g[0][LetterValue(tok[0]) - 1]) == Some(v)
    ensures ReadsValue(g, tok, v)
  {
    RowOneReference(tok);
  }

  lemma ReferenceSumValue()
    ensures IntToString(Reduce(2, [Add], [3])) == "5"
  {
    assert Fold(Acc(0, 2), [Add], [3]) == Fold(Acc(2, 3), [], []);
    assert IntToString(5) == "5";
  }

  /** A formula of one letter and one digit, such as `=B1`, is not an integer
      and is one token. */
  lemma ShortReferenceTokens(s: string)
    requires |s| == 3 && s[0] == '=' && IsUpper(s[1]) && IsDigit(s[2])
    ensures s != "" && !IsInt(s) && FormulaTokens(s) == [s[1..]]
  {
    var r := s[1..];
    assert r[0] == s[1] && r[1] == s[2];
    SingleToken(r);
    assert !IsDigit(s[0]);
  }

  /** A reference to row 1 is not an integer and names row 0 of its column. */
  lemma RowOneReference(r: string)
    requires |r| == 2 && IsUpper(r[0]) && r[1] == '1'
    ensures StringToInt(r) == None && DecodeRef(r) == (0, LetterValue(r[0]) - 1)
  {
    assert StringToInt(r) == None by {
      assert !IsDigit(r[0]) && !IsSpace(r[0]) && !IsSign(r[0]);
    }
    assert DecodeRef(r) == (0, LetterValue(r[0]) - 1) by {
      var letters := [r[0]];
      SingleLetterColumn(r[0]);
      OneIsOne();
      assert r == letters + "1";
      DecodeOne(letters, "1", 1, LetterValue(r[0]));
    }
  }

  /** A formula that is one reference the decoder rejects, such as `=A0`
      (row 0 decodes to row -1), leaves the grid as it was and fails, unless
      the cell is `#NAN`. */
  lemma InvalidReference(g: Grid, p: Pos, tok: string)
    requires InGrid(g, p) && Cell(g, p) != "" && FormulaTokens(Cell(g, p)) == [tok]
    requires StringToInt(tok) == None && (DecodeRef(tok).0 < 0 || DecodeRef(tok).1 < 0)
    ensures Resolve(g, {}, p) == Outcome(Cell(g, p) == Nan, g, {})
  {
    var o := Outcome(Cell(g, p) == Nan, g, {});
    assert Operand(g, {p}, p, tok) == Return(o) by {
      assert Operand(g, {p}, p, tok) == ReferenceStep(g, {p}, p, tok);
      assert {p} - {p} == {};
    }
    SingleOperandStops(g, {p}, p, tok, o);
    assert {} + {p} == {p};
    ResolveFresh(g, {}, p);
  }

  /** `=A0` fails the run and leaves the grid as it was. */
  lemma RowZeroFormula(g: Grid, p: Pos)
    requires InGrid(g, p) && Cell(g, p) == "=A0"
    ensures Resolve(g, {}, p) == Outcome(false, g, {})
  {
    var s := Cell(g, p);
    ShortReferenceTokens(s);
    RowZeroReference(s[1..]);
    InvalidReference(g, p, s[1..]);
  }

  lemma RowZeroReference(r: string)
    requires r == "A0"
    ensures StringToInt(r) == None && DecodeRef(r) == (-1, 0)
  {
    assert !IsDigit(r[0]) && !IsSpace(r[0]) && !IsSign(r[0]);
    DecodeRowZero();
  }

  lemma SingleLetterColumn(c: char)
    requires IsUpper(c)
    ensures AllUpper([c]) && ColumnNumber([c]) == LetterValue(c)
  {
    assert [c][..0] == "";
  }

  lemma OneIsOne()
    ensures AllDigits("1") && DecimalValue("1") == 1
  {
  }


  /** A cell that is not in progress is evaluated with it pushed. */
  lemma ResolveFresh(g: Grid, stack: set<Pos>, p: Pos)
    requires InGrid(g, p) && Cell(g, p) != "" && p !in stack
    ensures Resolve(g, stack, p) == Evaluate(g, stack + {p}, p)
  {
  }

  /** A formula of one operand that ends the resolution ends it as that
      operand does. */
  lemma SingleOperandStops(g: Grid, stack: set<Pos>, p: Pos, tok: string, o: Outcome)
    requires InGrid(g, p) && Cell(g, p) != "" && p in stack
    requires FormulaTokens(Cell(g, p)) == [tok] && Operand(g, stack, p, tok) == Return(o)
    ensures Evaluate(g, stack, p) == o
  {
    var tokens := FormulaTokens(Cell(g, p));
    assert |tokens| % 2 == 1 && tokens[0] == tok;
  }

  /** An operand that names a formula cell resolves that cell. */
  lemma FormulaOperand(g: Grid, stack: set<Pos>, p: Pos, tok: string, q: Pos)
    requires InGrid(g, p) && p in stack && InGrid(g, q)
    requires StringToInt(tok) == None && DecodeRef(tok) == (q.row as int, q.col as int)
    requires Cell(g, q) != "" && !IsInt(Cell(g, q))
    ensures Operand(g, stack, p, tok) == ReferencedFormula(g, stack, p, q)
  {
    assert Operand(g, stack, p, tok) == ReferenceStep(g, stack, p, tok);
  }

  /** Two formula cells `a` and `b` whose formulas are each one reference to
      the other. */
  predicate MutualPair(g: Grid, a: Pos, b: Pos, ta: string, tb: string)
  {
    && InGrid(g, a) && InGrid(g, b) && a != b
    && Cell(g, a) != "" && !IsInt(Cell(g, a)) && Cell(g, b) != "" && !IsInt(Cell(g, b))
    && FormulaTokens(Cell(g, a)) == [tb] && FormulaTokens(Cell(g, b)) == [ta]
    && StringToInt(ta) == None && DecodeRef(ta) == (a.row as int, a.col as int)
    && StringToInt(tb) == None && DecodeRef(tb) == (b.row as int, b.col as int)
  }

  /** Inside the cycle: `b`, resolved while `a` is in progress, reaches `a`
      again, which becomes `#ERROR`, and copies that `#ERROR`. */
  lemma CycleBack(g: Grid, a: Pos, b: Pos, ta: string, tb: string)
    requires MutualPair(g, a, b, ta, tb)
    ensures Operand(g, {a, b}, b, ta) ==
      Return(Outcome(true, Update(Update(g, a, Error), b, Error), {}))
  {
    FormulaOperand(g, {a, b}, b, ta, a);
    CycleClosed(g, a, b);
  }

  /** `a` is reached again while in progress: it becomes `#ERROR`, and `b`
      copies that. */
  lemma CycleClosed(g: Grid, a: Pos, b: Pos)
    requires InGrid(g, a) && InGrid(g, b) && a != b
    requires Cell(g, a) != "" && !IsInt(Cell(g, a))
    ensures ReferencedFormula(g, {a, b}, b, a) ==
      Return(Outcome(true, Update(Update(g, a, Error), b, Error), {}))
  {
    var o := Resolve(g, {a, b}, a);
    assert {a, b} - {a} == {b} && {b} - {b} == {};
    assert o == Outcome(true, Update(g, a, Error), {b});
    assert Cell(o.grid, a) == Error;
    SentinelsAreNotIntegers();
    assert StringToInt(Cell(o.grid, a)) == None;
    assert ReferencedFormula(g, {a, b}, b, a) ==
      Return(Outcome(true, Update(o.grid, b, Cell(o.grid, a)), o.stack - {b}));
  }


  /** `b`, resolved while `a` is in progress, ends as `#ERROR` together with
      `a`, and the in-progress set ends empty. */
  lemma CycleInner(g: Grid, a: Pos, b: Pos, ta: string, tb: string)
    requires MutualPair(g, a, b, ta, tb)
    ensures Resolve(g, {a}, b) == Outcome(true, Update(Update(g, a, Error), b, Error), {})
  {
    CycleBack(g, a, b, ta, tb);
    assert {a} + {b} == {a, b};
    SingleOperandStops(g, {a, b}, b, ta, Outcome(true, Update(Update(g, a, Error), b, Error), {}));
    ResolveFresh(g, {a}, b);
  }

  /** Back in `a`: `b` ended as `#ERROR`, which `a` copies. */
  lemma CycleForward(g: Grid, a: Pos, b: Pos, ta: string, tb: string)
    requires MutualPair(g, a, b, ta, tb)
    ensures Operand(g, {a}, a, tb) ==
      Return(Outcome(true, Update(Update(g, a, Error), b, Error), {}))
  {
    FormulaOperand(g, {a}, a, tb, b);
    CycleInner(g, a, b, ta, tb);
    CopyError(g, a, b);
  }

  /** `b` ended as `#ERROR` with `a`, and `a` copies that `#ERROR`. */
  lemma CopyError(g: Grid, a: Pos, b: Pos)
    requires InGrid(g, a) && InGrid(g, b) && a != b && Cell(g, b) != "" && !IsInt(Cell(g, b))
    requires Resolve(g, {a}, b) == Outcome(true, Update(Update(g, a, Error), b, Error), {})
    ensures ReferencedFormula(g, {a}, a, b) ==
      Return(Outcome(true, Update(Update(g, a, Error), b, Error), {}))
  {
    var e := Update(Update(g, a, Error), b, Error);
    SentinelsAreNotIntegers();
    assert Cell(e, b) == Error && Cell(e, a) == Error;
    assert StringToInt(Cell(e, b)) == None;
    UpdateSame(e, a);
    assert {} - {a} == {};
  }

  /** Two cells that refer to each other: resolving the first turns both into
      `#ERROR`, succeeds, and leaves the in-progress set empty. */
  lemma MutualReference(g: Grid, a: Pos, b: Pos, ta: string, tb: string)
    requires MutualPair(g, a, b, ta, tb)
    ensures Resolve(g, {}, a) == Outcome(true, Update(Update(g, a, Error), b, Error), {})
  {
    CycleForward(g, a, b, ta, tb);
    assert InGrid(g, a) && Cell(g, a) != "" && FormulaTokens(Cell(g, a)) == [tb];
    assert {} + {a} == {a};
    SingleOperandStops(g, {a}, a, tb, Outcome(true, Update(Update(g, a, Error), b, Error), {}));
    ResolveFresh(g, {}, a);
  }

  /** `=B1` and `=A1` side by side refer to each other. */
  lemma CyclePair(g: Grid)
    requires |g| == 1 && g[0] == ["=B1", "=A1"]
    ensures MutualPair(g, Pos(0, 0), Pos(0, 1), g[0][1][1..], g[0][0][1..])
  {
    var sa, sb := g[0][0], g[0][1];
    ShortReferenceTokens(sa);
    ShortReferenceTokens(sb);
    RowOneReference(sa[1..]);
    RowOneReference(sb[1..]);
  }

  /** The cycle `A1 = B1`, `B1 = A1` in one row: both cells become `#ERROR`. */
  lemma CycleExample(g: Grid)
    requires |g| == 1 && g[0] == ["=B1", "=A1"]
    ensures Resolve(g, {}, Pos(0, 0)) == Outcome(true, [[Error, Error]], {})
  {
    CyclePair(g);
    MutualReference(g, Pos(0, 0), Pos(0, 1), g[0][1][1..], g[0][0][1..]);
    BothErrors(g);
  }

  lemma BothErrors(g: Grid)
    requires |g| == 1 && |g[0]| == 2
    ensures Update(Update(g, Pos(0, 0), Error), Pos(0, 1), Error) == [[Error, Error]]
  {
    assert g[0][0 := Error][1 := Error] == [Error, Error];
  }

  /** A formula whose first operand is a reference outside the grid, or to an
      empty cell, makes its cell `#NAN`, whatever follows that operand. */
  lemma MissingReference(g: Grid, p: Pos, tok: string)
    requires InGrid(g, p) && Cell(g, p) != ""
    requires var tokens := FormulaTokens(Cell(g, p)); |tokens| % 2 == 1 && tokens[0] == tok
    requires StringToInt(tok) == None && IsMissing(g, DecodeRef(tok))
    ensures Resolve(g, {}, p) == Outcome(true, Update(g, p, Nan), {})
  {
    assert Evaluate(g, {p}, p) == Outcome(true, Update(g, p, Nan), {}) by {
      assert Operand(g, {p}, p, tok) == ReferenceStep(g, {p}, p, tok);
      assert {p} - {p} == {};
    }
    assert {} + {p} == {p};
    ResolveFresh(g, {}, p);
  }

  /** A formula that is one reference to a sentinel cell resolves that cell as
      a formula: a `#NAN` cell stays `#NAN` and the referring cell becomes
      `#NAN`, while an `#ERROR` cell fails the resolution. */
  lemma SentinelReference(g: Grid, p: Pos, q: Pos, tok: string)
    requires InGrid(g, p) && Cell(g, p) != "" && FormulaTokens(Cell(g, p)) == [tok]
    requires InGrid(g, q) && p != q && IsSentinel(Cell(g, q))
    requires StringToInt(tok) == None && DecodeRef(tok) == (q.row as int, q.col as int)
    ensures Resolve(g, {}, p) ==
      if Cell(g, q) == Nan then Outcome(true, Update(g, p, Nan), {})
      else Outcome(false, g, {})
  {
    SentinelsAreNotIntegers();
    FormulaOperand(g, {p}, p, tok, q);
    ResolveSentinel(g, {p}, q);
    var o := if Cell(g, q) == Nan then Outcome(true, Update(g, p, Nan), {}) else Outcome(false, g, {});
    assert {p} - {p} == {};
    assert Operand(g, {p}, p, tok) == Return(o);
    assert {} + {p} == {p};
    SingleOperandStops(g, {p}, p, tok, o);
    ResolveFresh(g, {}, p);
  }
}
