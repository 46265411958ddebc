# Console-Spreadsheet: the formula-resolution engine

The console spreadsheet reads a tab-separated file into a ragged grid of cell strings
and then resolves it in place. A cell holds one of:

- an integer (anything `std::stoi` reads completely);
- nothing;
- one of the two sentinels, `#ERROR` and `#NAN`;
- a formula, `=` followed by integer literals and cell references (`A1`, `BA11`)
  joined by `+ - * /`.

`processSpreadsheet` visits the cells in row-major order. It resolves each formula and
stops at the first cell that is none of these, or at the first formula it cannot make
sense of. Resolving a formula follows its references, and resolves a referenced formula
first, overwriting that cell with its value. A reference that closes a cycle turns the
cell into `#ERROR`. A reference that points outside the grid, or at an empty cell, turns
it into `#NAN`. A referenced formula that ends as `#ERROR` or `#NAN` passes its
sentinel on. The operators follow the usual precedence, with `*` and `/` binding tighter, and
are evaluated left to right.

The model has the following parts:

- `Tokenizer`: the delimiter tokenizer, as a loop (`Tokenize`) proved against a
  recursive specification (`Tokens`). Its lemmas show that the tokens concatenate back
  to the input, that they alternate between runs and single delimiters, and when their
  count is odd.
- `Integers`: `stoi`-with-full-consumption as a function (`StringToInt`) over a
  32-bit `int`. `std::to_string` is `IntToString`. A lemma proves that the two round-trip.
- `References`: `refToRowCol` as a loop (`RefToRowCol`) proved against `DecodeRef`,
  with lemmas on what references decode to and on the injectivity of the column letters.
- `Arithmetic`: the source's operator loop as a fold over an accumulator
  `(result, last)`, with explicit 32-bit wrap-around and truncating division. The fold
  is proved equal to an independent reference: split the formula into additive terms
  (products), then sum the terms.
- `Cells`: the grid, positions and the kinds of cell content.
- `Resolution`: `processFormula` and its `formulaToInt` lambda as mutually recursive
  functions.
  - The in-progress set (a function-local `static std::set` in the source) is threaded
    through them explicitly.
  - They terminate because a new resolution always adds a position to the set, so the
    number of grid positions outside the set shrinks.
  - Their contracts state that a resolution never overwrites an integer, an empty cell
    or a sentinel other than the cells it is resolving. They also state that a
    successful resolution leaves the cell holding an integer or a sentinel. The
    in-progress set loses exactly that cell, except after a success that leaves the
    cell `#ERROR` through a cycle, where it loses at least that cell.
  - A formula with an even number of tokens (`=5-`) fails with the grid unchanged.
  - A formula whose operands are integer literals or references to integer cells
    resolves to the wrapped sum of its products, the usual precedence.
- `Driver`: `processSpreadsheet` as a function (`Drive`), with lemmas:
  - a successful run leaves every cell terminal;
  - a run over an already resolved grid changes nothing, so running twice is the same
    as running once;
  - a garbage cell stops the run with the grid unchanged when no formula precedes it;
  - a formula whose resolution fails stops the run with the grid that resolution left,
    when no formula precedes it.
- `Engine`: the imperative source as a class `Spreadsheet`.
  - It has the mutable grid `cells` and the in-progress set `callStack`.
  - Its methods follow the source's statements: `ProcessSpreadsheet`'s nested loops,
    `ProcessFormula`, the `formulaToInt` lambda as `FormulaToInt`, and the operator loop
    `ReduceOperations`.
  - Each method is proved to leave exactly the state that the corresponding
    `Resolution` or `Driver` function computes.
- `Lines`: the split of one input line into the cells of a row, which tokenizes on tabs
  and then erases the tab tokens. Its lemmas show that no cell holds a tab, and that the
  cells joined by tabs give back the line, up to a final tab.

Behaviours of the source that the model keeps as they are:

- Resolving a formula strips its first character without checking it. A garbage cell
  such as `xA1` that is only reached through a reference is therefore resolved as if it
  were `=A1`. The driver itself refuses such a cell when it visits it first.
- A reference with row `0` (`A0`) decodes to row `-1`. The invalid-reference branch
  therefore handles it like any other malformed reference (`DecodeRowZero`): the
  formula `=A0` fails with the grid unchanged (`RowZeroFormula`).
- The `#NAN` test inside `formulaToInt` (src/Spreadsheet.cpp:121-125) is reached when a
  formula refers to a `#NAN` cell: that cell is "resolved" as the formula `NAN`.
  - A reference to a `#NAN` cell therefore gives `#NAN`.
  - A reference to an `#ERROR` cell makes the whole run fail. This holds whether the
    `#ERROR` was in the input or came from a cycle resolved earlier in the same run
    (`SentinelEvaluates`, `SentinelReference`).
- Tokenizing on the four operators puts an operator token at every odd index, so the
  unknown-operator branch (src/Spreadsheet.cpp:191-195) is never taken
  (`OperatorTokensParse`). It is still modelled.
- A unary minus (`=-5`) gives an empty first token. An empty token decodes to no
  reference, so the formula is refused.

## Model

| member | source | states |
|---|---|---|
| Tokenizer.FindFirstOf | src/Spreadsheet.cpp:210-216 | `find_first_of` from a position: the index found lies in the searched range |
| Tokenizer.FindFirstOfFinds | src/Spreadsheet.cpp:210-216 | the index found holds a delimiter and nothing before it does; no result means no delimiter in the rest |
| Tokenizer.FindFirstOfNone | src/Spreadsheet.cpp:216 | a rest without delimiters gives no result |
| Tokenizer.TokensFrom | src/Spreadsheet.cpp:209-223 | the tokens of the rest from a position: none exactly when the rest is empty |
| Tokenizer.Tokens | src/Spreadsheet.cpp:207-226 | `tokenize`: no token exactly for the empty string |
| Tokenizer.Tokenize | src/Spreadsheet.cpp:207-226 | the loop returns exactly the specified token sequence `Tokens(str, del)` |
| Tokenizer.ConcatTokensFrom | src/Spreadsheet.cpp:207-226 | the tokens from a position concatenate to the rest of the string |
| Tokenizer.ConcatTokens | src/Spreadsheet.cpp:206-226 | tokenizing loses and adds no character: the tokens concatenate back to the input |
| Tokenizer.AlternatingFrom | src/Spreadsheet.cpp:212-223 | the tokens from any position alternate between delimiter-free runs and single delimiters |
| Tokenizer.TokensAlternate | src/Spreadsheet.cpp:206-226 | tokens at even indexes hold no delimiter; tokens at odd indexes are exactly one delimiter |
| Tokenizer.ParityFrom | src/Spreadsheet.cpp:212-223 | the token count from a position is odd iff that rest is non-empty and does not end in a delimiter |
| Tokenizer.TokensParity | src/Spreadsheet.cpp:109-114 | the token count is odd iff the string is non-empty and does not end in a delimiter, which is what the parity check at 110 tests |
| Tokenizer.TokensExamples | src/Spreadsheet.cpp:207-226 | `5-3` gives `5`,`-`,`3`; `-5` starts with an empty token; `5-` ends with the operator; the empty string gives no token |
| Integers.SkipSpaces | src/Spreadsheet.cpp:80 | the leading-whitespace skip of `stoi` stays within the string |
| Integers.StringToInt | src/Spreadsheet.cpp:76-90 | a string that converts gives a 32-bit value and ends in a digit |
| Integers.SignedValue | src/Spreadsheet.cpp:80-88 | a signed digit run converts only to a 32-bit value; an out-of-range one is rejected |
| Integers.NatToDecimal | src/Spreadsheet.cpp:200 | the decimal text `to_string` writes for a natural number is a non-empty run of digits that starts with `0` exactly when the number is 0, and is then `0` |
| Integers.IntToString | src/Spreadsheet.cpp:200 | `std::to_string` writes the canonical form: a non-negative value as digits without a leading zero or a sign, a negative one as `-` followed by digits without a leading zero |
| Integers.DecimalRoundTrip | src/Spreadsheet.cpp:200 | the decimal digits written for a natural number read back as that number |
| Integers.StringToIntAccepts | src/Spreadsheet.cpp:76-90 | whitespace, an optional sign and digits convert to the signed value when it fits in 32 bits, and are rejected otherwise |
| Integers.SkipSpacesAndSign | src/Spreadsheet.cpp:80 | leading whitespace is skipped and the sign is read before the digits |
| Integers.StringToIntOnly | src/Spreadsheet.cpp:76-90 | the converse: every string that converts is whitespace, an optional sign and a non-empty digit run, and its value is the signed value of those digits |
| Integers.SkippedAreSpaces | src/Spreadsheet.cpp:80 | every character that `stoi` skips before the number is whitespace |
| Integers.DigitLiteral | src/Spreadsheet.cpp:76-90 | a single digit converts to its value |
| Integers.StringToIntDigits | src/Spreadsheet.cpp:76-90 | a digit string up to `INT_MAX` converts to its decimal value |
| Integers.IntToStringRoundTrip | src/Spreadsheet.cpp:148 | every 32-bit value written by `to_string` reads back through `stringToInt` as itself, so a resolved cell is an integer cell |
| Integers.NotIntegers | unit-tests/Tests.cpp:82-100 | `3.4`, `d`, the empty string and the two sentinels are not integers |
| Integers.OverflowIsNotInteger | unit-tests/Tests.cpp:102-110 | `9999999999999` overflows and is not an integer |
| Integers.SignedExamples | src/Spreadsheet.cpp:80 | ` -12` reads as -12 and `+7` as 7 |
| References.LetterRunEnd | src/Spreadsheet.cpp:231 | the run of capital letters ends within the string |
| References.ColumnNumber | src/Spreadsheet.cpp:231-233 | the column accumulated over a run of capitals is at least the run's length |
| References.DecodeRef | src/Spreadsheet.cpp:229-243 | a reference decodes to (-1, -1), or to a column of at least 0 and a row whose successor is 32-bit, and then it starts with a capital |
| References.RefToRowCol | src/Spreadsheet.cpp:229-243 | the loop returns exactly `DecodeRef(ref)` |
| References.ColumnNumberPositive | src/Spreadsheet.cpp:231-237 | a non-empty run of capitals gives a column number of at least 1, so `col > 0` tests for letters |
| References.ColumnNumberInjective | src/Spreadsheet.cpp:232 | the bijective base-26 column numbering: different letter runs give different columns |
| References.RunEndOverLetters | src/Spreadsheet.cpp:231 | the letter loop stops exactly at the first non-capital |
| References.DecodeLettersThenRow | src/Spreadsheet.cpp:229-243 | letters followed by a convertible rest decode to (rest - 1, column - 1), and to (-1, -1) when the rest does not convert |
| References.DecodeWithoutLetters | src/Spreadsheet.cpp:237-241 | a reference that does not start with a capital decodes to (-1, -1) |
| References.DecodeOne | src/Spreadsheet.cpp:229-243 | letters then a decimal row decode to the 0-based (row, column) |
| References.DecodeFirstCellExample | src/Spreadsheet.cpp:238 | `A1` is (0, 0) |
| References.DecodeLastLetterExample | src/Spreadsheet.cpp:232 | `Z9` is (8, 25) |
| References.DecodeRowZero | src/Spreadsheet.cpp:238 | `A0` decodes to row -1, column 0 |
| References.DecodeTwoLetterExample | src/Spreadsheet.cpp:232 | `BA11` is (10, 52) |
| References.DecodeInvalidExamples | src/Spreadsheet.cpp:237-241 | `1`, `a1` and `A` are not references |
| References.DecodeLettersOnly | src/Spreadsheet.cpp:235-240 | letters with no row are not a reference |
| Arithmetic.Wrap32 | src/Spreadsheet.cpp:182-190 | the 32-bit wrap of a result is a 32-bit value and leaves 32-bit values alone |
| Arithmetic.TruncDiv | src/Spreadsheet.cpp:184 | division by zero gives 0 in the model; the quotient is never larger in magnitude than the dividend |
| Arithmetic.QuotientAtMost | src/Spreadsheet.cpp:184 | the quotient of natural numbers is at most the dividend |
| Arithmetic.ParseOp | src/Spreadsheet.cpp:181-195 | an operator token parses exactly when it is one of the four operator characters |
| Arithmetic.Apply | src/Spreadsheet.cpp:181-190 | `*` and `/` leave the running result alone; every step keeps the result and the last value 32-bit |
| Arithmetic.Total | src/Spreadsheet.cpp:198 | the final addition gives a 32-bit value, the exact sum when that fits |
| Arithmetic.Fold | src/Spreadsheet.cpp:168-196 | the loop over the operator/operand pairs keeps the result 32-bit |
| Arithmetic.Reduce | src/Spreadsheet.cpp:158-198 | the value a formula of literals computes is 32-bit |
| Arithmetic.WrapShift | src/Spreadsheet.cpp:182-198 | wrapping ignores multiples of 2^32 |
| Arithmetic.WrapAddWrap | src/Spreadsheet.cpp:186-198 | wrapping after every addition is the same as wrapping once at the end |
| Arithmetic.TruncDivSpec | src/Spreadsheet.cpp:184 | C++ integer division: the remainder is smaller than the divisor and has the dividend's sign |
| Arithmetic.TruncDivTimes | src/Spreadsheet.cpp:184 | the quotient truncates toward zero: quotient times divisor is the dividend's magnitude rounded down, with the dividend's sign |
| Arithmetic.TruncDivExamples | src/Spreadsheet.cpp:184 | -7/2 is -3, 7/-2 is -3, 9/3 is 3 |
| Arithmetic.OperatorTokensParse | src/Spreadsheet.cpp:181-195 | every odd-index token of a formula is one of the four operators, so the unknown-operator branch is not taken |
| Arithmetic.TermEnd | src/Spreadsheet.cpp:181-184 | the leading run of `*` and `/` ends at the first `+` or `-` |
| Arithmetic.Terms | src/Spreadsheet.cpp:178-190 | a formula has at least one additive term |
| Arithmetic.FoldIsSumOfTerms | src/Spreadsheet.cpp:168-198 | the accumulator loop from any state ends with the accumulated result plus the remaining terms |
| Arithmetic.SumFromWraps | src/Spreadsheet.cpp:186-198 | adding the terms one by one with wrap-around is the wrapped sum |
| Arithmetic.ReduceIsSumOfTerms | src/Spreadsheet.cpp:158-198 | the operator loop computes the wrapped sum of the products between `+` and `-`: the usual precedence (`ValueFormula` shows that the resolver computes this value) |
| Arithmetic.ReduceExamples | unit-tests/Tests.cpp:112-125 | `5-3` is 2, `5-3*2*2+9/3` is -4, `5-3+1+5` is 8 |
| Cells.Update | src/Spreadsheet.cpp:101 | overwriting a cell keeps the grid's shape |
| Cells.UpdateSame | src/Spreadsheet.cpp:150 | writing a cell's own content back changes nothing |
| Cells.SameShapePositions | src/Spreadsheet.cpp:129-131 | grids of the same shape have the same positions |
| Cells.PushShrinks | src/Spreadsheet.cpp:107 | adding a new position to the in-progress set shrinks the positions left outside it: the recursion's measure |
| Cells.KeepsTerminalTrans | src/Spreadsheet.cpp:143 | keeping terminal cells composes over successive steps |
| Cells.KeepsTerminalRestore | src/Spreadsheet.cpp:143 | a nested resolution of `q` keeps the terminal cells outside the set when `q` itself was not terminal |
| Cells.KeepsTerminalUpdate | src/Spreadsheet.cpp:150 | overwriting a cell that is being resolved keeps every other terminal cell |
| Cells.SentinelsAreNotIntegers | src/Spreadsheet.cpp:42-46 | `#ERROR` and `#NAN` are not integers |
| Resolution.FormulaTokens | src/Spreadsheet.cpp:93 | the token count of a formula is odd exactly when it has a body that does not end in an operator |
| Resolution.Resolve | src/Spreadsheet.cpp:92-107 | `processFormula`: a cell already in progress becomes `#ERROR` and leaves the set; otherwise the resolution keeps every other terminal cell and ends properly (the set loses the cell, a success leaves an integer or a sentinel) |
| Resolution.Evaluate | src/Spreadsheet.cpp:109-203 | after the push: an even number of tokens fails with the grid unchanged and the cell popped; otherwise it keeps the terminal cells outside the set and ends properly |
| Resolution.EvenTokensFail | src/Spreadsheet.cpp:107-114 | resolving a formula with an even number of tokens fails, leaves the grid unchanged and the set as it was before the push |
| Resolution.TrailingOperatorFails | src/Spreadsheet.cpp:107-114 | a formula ending in an operator, such as `=5-`, fails with the grid and the set unchanged (with `Tokenizer.TokensParity`) |
| Resolution.Operand | src/Spreadsheet.cpp:159-176 | an integer literal is its own value and changes nothing; an operand that goes on gives a 32-bit value and leaves the set unchanged; one that stops ends the resolution properly |
| Resolution.ReferenceStep | src/Spreadsheet.cpp:117-156 | `formulaToInt`: an invalid reference leaves the grid alone and succeeds only in a `#NAN` cell; a reference outside the grid or to an empty cell makes the cell `#NAN` and pops it; a value it reads is the 32-bit integer the referenced cell holds, and a reference to an in-grid integer cell reads exactly that integer without changing anything; it keeps terminal cells, and when it stops the resolution ends properly |
| Resolution.ReferencedFormula | src/Spreadsheet.cpp:138-155 | resolving the referenced cell first keeps terminal cells and gives a 32-bit value, or ends the resolution properly |
| Resolution.ReferencedResult | src/Spreadsheet.cpp:142-155 | after the nested resolution: a value read is the integer the referenced cell now holds; a referenced `#ERROR` or `#NAN` is copied into the cell, which leaves the set; a failure is passed on with the cell popped |
| Resolution.PassOnEnding | src/Spreadsheet.cpp:148-153 | copying the referenced `#ERROR` or `#NAN` into the cell ends its resolution properly |
| Resolution.Operations | src/Spreadsheet.cpp:167-203 | the operator loop keeps terminal cells and ends properly |
| Resolution.ReadsValueOperand | src/Spreadsheet.cpp:159-165 | an operand that is the integer literal `v`, or a reference to an in-grid cell holding the integer `v`, is read as `v` with the grid and the set unchanged |
| Resolution.ValueStep | src/Spreadsheet.cpp:168-195 | an operator followed by such an operand applies the operator to the accumulator and moves on two tokens |
| Resolution.ValueOperations | src/Spreadsheet.cpp:167-203 | over operator/operand pairs whose operands read as integers (literals or references to integer cells), the loop writes the text of `Total(Fold(...))` into the cell and pops it: the resolver computes the arithmetic fold |
| Resolution.ValueFormula | src/Spreadsheet.cpp:92-203 | a formula whose operands are literals or references to integer cells resolves to the wrapped sum of its products, the usual precedence, and leaves the set empty |
| Resolution.PrecedenceExample | unit-tests/Tests.cpp:112-125 | the cell `=5-3*2*2+9/3` resolves to `-4` |
| Resolution.OneCharTokens | src/Spreadsheet.cpp:207-226 | a string of one-character operands separated by single delimiters tokenizes into its characters |
| Resolution.ReferenceSumExample | src/Spreadsheet.cpp:129-203 | in the row `2 3 =A1+B1`, the formula reads both integer cells and resolves to `5` |
| Resolution.MissingOperand | src/Spreadsheet.cpp:168-176 | after any number of operator/operand pairs whose operands read as integers, a missing reference ends the loop with `#NAN`, whatever tokens follow |
| Resolution.MissingReferenceAt | src/Spreadsheet.cpp:168-176 | a formula whose operands read as integers, with a missing reference at any operand position after the first resolves to `#NAN` and leaves the set empty |
| Resolution.ResolveSentinel | src/Spreadsheet.cpp:117-128 | resolving a sentinel cell that is not in progress succeeds for `#NAN` and fails for `#ERROR`, without changing the grid |
| Resolution.SentinelEvaluates | src/Spreadsheet.cpp:117-128 | the formula body of a sentinel is an invalid reference: `#NAN` stays `#NAN`, `#ERROR` fails |
| Resolution.InvalidOperand | src/Spreadsheet.cpp:120-128 | a token that is neither integer nor reference stops with `#NAN` if the cell is `#NAN`, and fails otherwise |
| Resolution.SentinelFormulas | src/Spreadsheet.cpp:93 | a sentinel without its first character is one token, neither integer nor reference |
| Resolution.CapitalWord | src/Spreadsheet.cpp:229-243 | a word of capitals alone is neither an integer nor a reference |
| Resolution.SingleToken | src/Spreadsheet.cpp:93 | a string without operators is one token |
| Resolution.MissingReference | src/Spreadsheet.cpp:129-136 | a formula whose first operand is a reference outside the grid or to an empty cell becomes `#NAN`, whatever follows, succeeds, and leaves the set empty |
| Resolution.InvalidReference | src/Spreadsheet.cpp:120-128 | a one-token formula that is neither integer nor reference leaves the grid unchanged and succeeds only in a `#NAN` cell |
| Resolution.RowZeroFormula | src/Spreadsheet.cpp:120-128 | the formula `=A0` names row -1, so its resolution fails with the grid unchanged |
| Resolution.RowZeroReference | src/Spreadsheet.cpp:235-238 | `A0` is not an integer and decodes to row -1 |
| Resolution.SentinelReference | src/Spreadsheet.cpp:117-153 | a one-reference formula naming a sentinel cell becomes `#NAN` when that cell is `#NAN`, and fails with the grid unchanged when it is `#ERROR` |
| Resolution.CycleClosed | src/Spreadsheet.cpp:98-104 | reaching a cell that is in progress marks it `#ERROR`; the referring cell copies that `#ERROR` and both leave the set |
| Resolution.CycleInner | src/Spreadsheet.cpp:142-153 | in a two-cell cycle, the second cell resolved ends as `#ERROR` together with the first |
| Resolution.CopyError | src/Spreadsheet.cpp:147-153 | a referenced cell that ends as `#ERROR` is copied into the referring cell |
| Resolution.MutualReference | src/Spreadsheet.cpp:98-153 | two cells that refer to each other both become `#ERROR`; the resolution succeeds and the set ends empty |
| Resolution.RowOneReference | src/Spreadsheet.cpp:229-243 | a capital letter followed by `1` is not an integer and names row 0 of that letter's column |
| Resolution.ShortReferenceTokens | src/Spreadsheet.cpp:93 | a formula `=` capital digit is not an integer and is one token |
| Resolution.CyclePair | src/Spreadsheet.cpp:93-128 | `=B1` and `=A1` side by side refer to each other |
| Resolution.CycleExample | src/Spreadsheet.cpp:98-153 | in the row `=B1 =A1`, resolving `A1` turns both cells into `#ERROR` |
| Resolution.SubtractionEvaluates | src/Spreadsheet.cpp:158-203 | the tokens `5`, `-`, `3` evaluate to `2`, written into the cell |
| Resolution.SubtractionExample | unit-tests/Tests.cpp:112-125 | the cell `=5-3` resolves to `2` and leaves the in-progress set empty |
| Driver.DriveFrom | src/Spreadsheet.cpp:39-61 | the visit from a cell keeps the grid's shape |
| Driver.Drive | src/Spreadsheet.cpp:37-64 | `processSpreadsheet` keeps the grid's shape |
| Driver.DriveFromKeepsTerminal | src/Spreadsheet.cpp:39-61 | the visit from any cell keeps the shape and every terminal cell |
| Driver.DriveKeepsTerminal | src/Spreadsheet.cpp:37-64 | a run, successful or not, never overwrites an integer, an empty cell or a sentinel |
| Driver.DriveFromResolvesAll | src/Spreadsheet.cpp:39-61 | when the visit succeeds, all cells are terminal |
| Driver.DriveResolvesAll | src/Spreadsheet.cpp:37-64 | a successful run leaves only integers, empty cells and sentinels |
| Driver.DriveFromSettled | src/Spreadsheet.cpp:42-48 | over a grid of terminal cells the visit succeeds and changes nothing |
| Driver.DriveSettled | unit-tests/Tests.cpp:71-80 | a grid of integers, empty cells and sentinels is left unchanged |
| Driver.DriveIdempotent | src/Spreadsheet.cpp:37-64 | running again after a successful run changes nothing |
| Driver.DriveFromStopsAtGarbage | src/Spreadsheet.cpp:51-54 | from any cursor up to a garbage cell that no formula precedes (every earlier cell is terminal), the visit fails with the grid unchanged |
| Driver.DriveStopsAtGarbage | unit-tests/Tests.cpp:82-110 | a grid whose first non-terminal cell is garbage, so that no formula precedes it, fails with the grid unchanged |
| Driver.DriveFromStopsAtFailure | src/Spreadsheet.cpp:56-58 | from any cursor up to a formula whose resolution fails, with no formula before it, the visit fails with the grid that resolution left |
| Driver.DriveStopsAtFailure | src/Spreadsheet.cpp:37-64 | a grid whose first non-terminal cell is a formula that fails to resolve makes the run fail with the grid that resolution left |
| Driver.MalformedFormulaExample | src/Spreadsheet.cpp:56-58 | the run over the row `1 =5-` fails with the grid unchanged |
| Driver.FormulaNoReferenceExample | unit-tests/Tests.cpp:112-125 | the run over `1 =5-3` / `2` succeeds and leaves `1 2` / `2` |
| Driver.CircularReferenceExample | src/Spreadsheet.cpp:37-64 | the run over the row `=B1 =A1` succeeds and leaves `#ERROR #ERROR` |
| Engine.Spreadsheet.constructor | src/Spreadsheet.cpp:96 | the engine starts on the given grid with an empty in-progress set |
| Engine.Spreadsheet.ProcessSpreadsheet | src/Spreadsheet.cpp:37-64 | the nested loops leave the status and the grid of `Drive` |
| Engine.Spreadsheet.ProcessCell | src/Spreadsheet.cpp:42-58 | one visited cell: on success the rest of the run is unchanged; on failure the run ends here |
| Engine.Spreadsheet.ProcessFormula | src/Spreadsheet.cpp:92-107 | leaves the status, grid and in-progress set of `Resolve` |
| Engine.Spreadsheet.EvaluateFormula | src/Spreadsheet.cpp:109-165 | leaves the status, grid and set of `Evaluate` |
| Engine.Spreadsheet.ReadOperand | src/Spreadsheet.cpp:159-165 | reads a literal or calls `formulaToInt` exactly as `Operand` |
| Engine.Spreadsheet.ReduceOperations | src/Spreadsheet.cpp:167-203 | the operator loop leaves the state of `Operations` |
| Engine.Spreadsheet.StoreTotal | src/Spreadsheet.cpp:197-202 | writes the wrapped total into the cell and pops it from the set |
| Engine.Spreadsheet.Operation | src/Spreadsheet.cpp:169-195 | one loop iteration either ends the resolution as `Operations` does or continues it from the next operator |
| Engine.Spreadsheet.Combine | src/Spreadsheet.cpp:181-195 | the if-chain on the operator is `Apply` for the four operators and reports an unknown one |
| Engine.Spreadsheet.FormulaToInt | src/Spreadsheet.cpp:117-156 | the lambda leaves the value, grid and set of `ReferenceStep` |
| Engine.Spreadsheet.ResolveReference | src/Spreadsheet.cpp:138-155 | the recursive resolution of a referenced cell leaves the state of `ReferencedFormula` |
| Lines.LineCells | src/Spreadsheet.cpp:27-28 | the row read from a line holds no tab |
| Lines.Without | src/Spreadsheet.cpp:28 | erase-remove leaves no copy of the removed token and never adds one |
| Lines.CellsFrom | src/Spreadsheet.cpp:27-28 | the cells from a position never include a tab token |
| Lines.SplitLine | src/Spreadsheet.cpp:27-28 | the row read from a line is its tab tokens without the tab tokens |
| Lines.WithoutKeeps | src/Spreadsheet.cpp:28 | erase-remove keeps exactly the tokens other than the tab |
| Lines.WithoutAppend | src/Spreadsheet.cpp:28 | erase-remove distributes over concatenation |
| Lines.CellsStep | src/Spreadsheet.cpp:27-28 | the run before the first tab is a cell and the tab is dropped |
| Lines.CellsLast | src/Spreadsheet.cpp:27-28 | the text after the last tab is the last cell |
| Lines.CellsFromTabFree | src/Spreadsheet.cpp:27-28 | no cell from any position holds a tab |
| Lines.CellsFromJoin | src/Spreadsheet.cpp:27-28 | the cells from a position joined by tabs give the rest of the line, up to a final tab |
| Lines.LineCellsJoin | src/Spreadsheet.cpp:27-28 | no cell holds a tab, and the cells joined by tabs plus the dropped final tab are the line |
| Lines.TabIsNoCell | src/Spreadsheet.cpp:28 | a tab is never a cell |
| Lines.TwoCellsExample | unit-tests/Tests.cpp:58-69 | `1<TAB>5` gives the cells `1` and `5` |
| Lines.OneCellExample | unit-tests/Tests.cpp:58-69 | `6` is one cell |
| Lines.EmptyFirstCellExample | unit-tests/Tests.cpp:58-69 | a line starting with a tab has an empty first cell |

## Left out

- Reading the file (`fileToSpreadsheet`'s `ifstream`/`getline` loop), `printSpreadsheet`,
  src/Main.cpp and every message written to `std::cerr` are I/O. Only the split of one
  line into cells is modelled (`Lines`).
- Signed overflow in `result += last`, `*` and unary `-` is undefined behaviour in C++.
  The model takes the two's complement wrap-around that common compilers produce
  (`Wrap32`). A result therefore always reads back as an integer.
- `INT_MIN / -1` is undefined behaviour in C++ as well, and on x86 the division traps
  and ends the program. The model wraps the quotient `2^31` to `INT_MIN` instead.
- Division by zero is undefined behaviour in C++. The model gives 0 there, so the
  computed value of such a formula is a placeholder.
- `refToRowCol` accumulates the column in a `size_t` and narrows `col - 1` to `int`.
  The model uses unbounded integers. A run of seven or more letters, which the source
  can narrow to an unrelated or negative column, names a column of at least 321272406
  in the model, beyond any row shorter than that.
- `refToRowCol` computes `row.value() - 1` in `int`, which overflows for the row
  `-2147483648`. The model subtracts without wrapping, so such a reference counts as
  malformed. Wrapped to `INT_MAX`, the source would find it outside the grid instead.
- `std::stoi` is modelled for the C locale: whitespace is space and `\t`..`\r`, an
  optional sign, then decimal digits. Hexadecimal and other bases are not involved.
- The in-progress set is a function-local `static` in the source and lives for the
  whole program. In the model it is the field `callStack` of one `Spreadsheet`, and an
  explicit parameter in `Resolution`.
- The erase-remove idiom on the token vector is modelled as the value `Without`, not as
  in-place compaction of a vector.
- `Tokenizer.Tokenize` works on `seq<char>`, with the delimiters as a string of
  characters.
  The `size_t` arithmetic of `pos - prev != npos` is modelled by its meaning: whether a
  delimiter was found.
