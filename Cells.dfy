/**
 * The spreadsheet itself: a ragged grid of cell strings, indexed 0-based by
 * (row, column), and the kinds of cell content the engine distinguishes.
 */
module Cells {
  import opened Integers

  type Grid = seq<seq<string>>

  /** A cell coordinate; the in-progress set holds these. */
  datatype Pos = Pos(row: nat, col: nat)

  const Error: string := "#ERROR"
  const Nan: string := "#NAN"

  predicate InGrid(g: Grid, p: Pos)
  {
    p.row < |g| && p.col < |g[p.row]|
  }

  function Cell(g: Grid, p: Pos): string
    requires InGrid(g, p)
  {
    g[p.row][p.col]
  }

  /** The grid with the cell at `p` overwritten. */
  function Update(g: Grid, p: Pos, s: string): (h: Grid)
    requires InGrid(g, p)
    ensures |h| == |g| && forall r :: 0 <= r < |g| ==> |h[r]| == |g[r]|
  {
    g[p.row := g[p.row][p.col := s]]
  }

  /** Writing a cell's own content back changes nothing. */
  lemma UpdateSame(g: Grid, p: Pos)
    requires InGrid(g, p)
    ensures Update(g, p, Cell(g, p)) == g
  {
    assert g[p.row][p.col := Cell(g, p)] == g[p.row];
  }

  /** Same number of rows, and each row of the same length. */
  predicate SameShape(g: Grid, h: Grid)
  {
    |g| == |h| && forall r :: 0 <= r < |g| ==> |g[r]| == |h[r]|
  }

  function Positions(g: Grid): set<Pos>
  {
    set r: nat, c: nat | r < |g| && c < |g[r]| :: Pos(r, c)
  }

  predicate IsSentinel(s: string)
  {
    s == Error || s == Nan
  }

  /** Content the engine never processes: an integer, an empty cell or a sentinel. */
  predicate IsTerminal(s: string)
  {
    IsInt(s) || s == "" || IsSentinel(s)
  }

  /** What a resolved formula cell holds: an integer or a sentinel. */
  predicate IsResolved(s: string)
  {
    IsInt(s) || IsSentinel(s)
  }

  predicate AllTerminal(g: Grid)
  {
    forall r, c :: 0 <= r < |g| && 0 <= c < |g[r]| ==> IsTerminal(g[r][c])
  }

  /** `h` has the shape of `g`, and every terminal cell of `g` outside `except`
      still holds what it held. */
  predicate KeepsTerminal(g: Grid, h: Grid, except: set<Pos>)
  {
    SameShape(g, h) &&
    forall r, c :: 0 <= r < |g| && 0 <= c < |g[r]| && Pos(r, c) !in except && IsTerminal(g[r][c]) ==>
      h[r][c] == g[r][c]
  }

  lemma SameShapePositions(g: Grid, h: Grid)
    requires SameShape(g, h)
    ensures Positions(g) == Positions(h)
  {
    forall p | p in Positions(g) ensures p in Positions(h) {
      assert InGrid(h, p);
    }
    forall p | p in Positions(h) ensures p in Positions(g) {
      assert InGrid(g, p);
    }
  }

  /** Adding a grid cell that is not yet in progress leaves fewer cells to add. */
  lemma PushShrinks(g: Grid, stack: set<Pos>, p: Pos)
    requires InGrid(g, p) && p !in stack
    ensures |Positions(g) - (stack + {p})| < |Positions(g) - stack|
  {
    var rest := Positions(g) - stack;
    assert p in rest;
    assert Positions(g) - (stack + {p}) == rest - {p};
  }

  lemma KeepsTerminalTrans(g: Grid, h: Grid, k: Grid, except: set<Pos>)
    requires KeepsTerminal(g, h, except) && KeepsTerminal(h, k, except)
    ensures KeepsTerminal(g, k, except)
  {
  }

  /** A cell exempted from `KeepsTerminal` that kept its content, or was never
      terminal, need not be exempted. */
  lemma KeepsTerminalRestore(g: Grid, h: Grid, except: set<Pos>, q: Pos)
    requires KeepsTerminal(g, h, except + {q}) && InGrid(g, q)
    requires q !in except && IsTerminal(Cell(g, q)) ==> Cell(h, q) == Cell(g, q)
    ensures KeepsTerminal(g, h, except)
  {
  }

  /** Overwriting an exempted cell keeps `KeepsTerminal`. */
  lemma KeepsTerminalUpdate(g: Grid, h: Grid, except: set<Pos>, p: Pos, s: string)
    requires KeepsTerminal(g, h, except) && InGrid(h, p) && p in except
    ensures KeepsTerminal(g, Update(h, p, s), except)
  {
  }

  lemma SentinelsAreNotIntegers()
    ensures !IsInt(Error) && !IsInt(Nan)
  {
    NotIntegers();
  }
}
