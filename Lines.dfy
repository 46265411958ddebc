/** The split of one line of the input file into the cells of a row: the line
    is tokenized on tabs and the tab tokens are then dropped. */
module Lines {
  import opened Wrappers
  import opened Tokenizer

  const Tab: string := "\t"

  /** `ts` without the tokens equal to `x`, the others kept in order: the
      erase-remove step. */
  function Without(ts: seq<string>, x: string): (r: seq<string>)
    ensures x !in r && |r| <= |ts|
  {
    if ts == [] then []
    else (if ts[0] == x then [] else [ts[0]]) + Without(ts[1..], x)
  }

  /** The cells of one line. */
  function LineCells(line: string): (cells: seq<string>)
    ensures forall i :: 0 <= i < |cells| ==> TabFree(cells[i])
  {
    CellsFromTabFree(line, 0);
    assert CellsFrom(line, 0) == Without(Tokens(line, Tab), Tab);
    Without(Tokens(line, Tab), Tab)
  }

  /** The row read from one line of the file. */
  method SplitLine(line: string) returns (cells: seq<string>)
    ensures cells == LineCells(line)
  {
    var tokens := Tokenize(line, Tab);
    cells := Without(tokens, Tab);
  }

  predicate TabFree(c: string)
  {
    forall j :: 0 <= j < |c| ==> c[j] != '\t'
  }

  /** The cells glued back together with one tab between neighbours. */
  function JoinTabs(cells: seq<string>): string
  {
    if cells == [] then ""
    else if |cells| == 1 then cells[0]
    else cells[0] + Tab + JoinTabs(cells[1..])
  }

  /** The tab that ends `s[from..]`, if any: the split drops it. */
  function TrailingTab(s: string, from: nat): string
  {
    if from < |s| && s[|s| - 1] == '\t' then Tab else ""
  }

  /** Exactly the tokens other than `x` survive. */
  lemma {:induction false} WithoutKeeps(ts: seq<string>, x: string, t: string)
    ensures t in Without(ts, x) <==> t in ts && t != x
  {
    if ts != [] {
      WithoutKeeps(ts[1..], x, t);
      assert ts == [ts[0]] + ts[1..];
    }
  }

  lemma {:induction false} WithoutAppend(a: seq<string>, b: seq<string>, x: string)
    ensures Without(a + b, x) == Without(a, x) + Without(b, x)
  {
    if a != [] {
      assert (a + b)[1..] == a[1..] + b;
      WithoutAppend(a[1..], b, x);
    } else {
      assert a + b == b;
    }
  }

  /** The cells of `s[from..]`. */
  function CellsFrom(s: string, from: nat): (cells: seq<string>)
    requires from <= |s|
    ensures Tab !in cells
  {
    Without(TokensFrom(s, Tab, from), Tab)
  }

  lemma RunTabFree(s: string, i: nat, j: nat)
    requires i <= j <= |s| && forall k :: i <= k < j ==> s[k] !in Tab
    ensures TabFree(s[i..j]) && s[i..j] != Tab
  {
    forall m | 0 <= m < j - i
      ensures s[i..j][m] != '\t'
    {
      assert s[i..j][m] == s[i + m];
    }
    assert |Tab| == 1 && Tab[0] == '\t';
  }

  /** One step of the split: the run before the first tab becomes a cell,
      and the tab itself is dropped. */
  lemma CellsStep(s: string, from: nat, k: nat)
    requires from <= k < |s| && FindFirstOf(s, Tab, from) == Some(k)
    ensures s[k] == '\t' && TabFree(s[from..k])
    ensures CellsFrom(s, from) == [s[from..k]] + CellsFrom(s, k + 1)
  {
    FindFirstOfFinds(s, Tab, from);
    RunTabFree(s, from, k);
    var run := s[from..k];
    assert [s[k]] == Tab;
    assert TokensFrom(s, Tab, from) == [run, Tab] + TokensFrom(s, Tab, k + 1);
    WithoutAppend([run, Tab], TokensFrom(s, Tab, k + 1), Tab);
    assert Without([run, Tab], Tab) == [run] by {
      assert [run, Tab][1..] == [Tab];
      assert [Tab][1..] == [];
    }
  }

  /** The last step: what is left after the last tab is one cell. */
  lemma CellsLast(s: string, from: nat)
    requires from < |s| && FindFirstOf(s, Tab, from) == None
    ensures TabFree(s[from..]) && CellsFrom(s, from) == [s[from..]]
  {
    FindFirstOfFinds(s, Tab, from);
    RunTabFree(s, from, |s|);
    assert s[from..|s|] == s[from..];
    assert TokensFrom(s, Tab, from) == [s[from..]];
    assert [s[from..]][1..] == [];
    assert Without([s[from..]], Tab) == [s[from..]] + Without([], Tab);
  }

  lemma JoinCons(run: string, rest: seq<string>)
    requires rest != []
    ensures JoinTabs([run] + rest) == run + Tab + JoinTabs(rest)
  {
    assert ([run] + rest)[1..] == rest;
  }

  lemma SplitAtTab(s: string, from: nat, k: nat)
    requires from <= k < |s| && s[k] == '\t'
    ensures s[from..] == s[from..k] + Tab + s[k + 1..]
  {
    assert s[from..] == s[from..k] + s[k..];
    assert s[k..] == [s[k]] + s[k + 1..];
  }

  /** No cell of `s[from..]` holds a tab. */
  lemma {:induction false} CellsFromTabFree(s: string, from: nat)
    requires from <= |s|
    ensures forall i :: 0 <= i < |CellsFrom(s, from)| ==> TabFree(CellsFrom(s, from)[i])
    decreases |s| - from
  {
    if from == |s| {
      assert TokensFrom(s, Tab, from) == [];
    } else {
      match FindFirstOf(s, Tab, from)
      case None =>
        CellsLast(s, from);
      case Some(k) =>
        CellsStep(s, from, k);
        CellsFromTabFree(s, k + 1);
        var cells, rest := CellsFrom(s, from), CellsFrom(s, k + 1);
        forall i | 0 <= i < |cells|
          ensures TabFree(cells[i])
        {
          if i > 0 {
            assert cells[i] == rest[i - 1];
          }
        }
    }
  }

  /** The last cell glued back is the text after the last tab. */
  lemma JoinLast(s: string, from: nat)
    requires from < |s| && FindFirstOf(s, Tab, from) == None
    ensures JoinTabs(CellsFrom(s, from)) + TrailingTab(s, from) == s[from..]
  {
    CellsLast(s, from);
    assert s[|s| - 1] == s[from..][|s| - 1 - from];
  }

  /** One cell and its tab glued in front of the cells that follow. */
  lemma JoinStep(s: string, from: nat, k: nat)
    requires from <= k && k + 1 < |s| && FindFirstOf(s, Tab, from) == Some(k)
    requires JoinTabs(CellsFrom(s, k + 1)) + TrailingTab(s, k + 1) == s[k + 1..]
    requires CellsFrom(s, k + 1) != []
    ensures JoinTabs(CellsFrom(s, from)) + TrailingTab(s, from) == s[from..]
  {
    CellsStep(s, from, k);
    var run, rest := s[from..k], CellsFrom(s, k + 1);
    SplitAtTab(s, from, k);
    JoinCons(run, rest);
    calc {
      JoinTabs(CellsFrom(s, from)) + TrailingTab(s, from);
      JoinTabs([run] + rest) + TrailingTab(s, k + 1);
      run + Tab + (JoinTabs(rest) + TrailingTab(s, k + 1));
      run + Tab + s[k + 1..];
    }
  }

  /** A line that ends in a tab: the last cell is the run before it, and the
      tab is dropped. */
  lemma JoinFinalTab(s: string, from: nat)
    requires from < |s| && FindFirstOf(s, Tab, from) == Some(|s| - 1)
    ensures JoinTabs(CellsFrom(s, from)) + TrailingTab(s, from) == s[from..]
  {
    var k := |s| - 1;
    CellsStep(s, from, k);
    SplitAtTab(s, from, k);
    assert CellsFrom(s, k + 1) == [] by {
      assert TokensFrom(s, Tab, k + 1) == [];
    }
    assert CellsFrom(s, from) == [s[from..k]];
    assert TrailingTab(s, from) == Tab;
  }

  /** The cells of `s[from..]` glued back with tabs give the text, up to a
      final tab, which the split drops. */
  lemma {:induction false} CellsFromJoin(s: string, from: nat)
    requires from <= |s|
    ensures from < |s| ==> CellsFrom(s, from) != []
    ensures JoinTabs(CellsFrom(s, from)) + TrailingTab(s, from) == s[from..]
    decreases |s| - from
  {
    if from == |s| {
      assert TokensFrom(s, Tab, from) == [];
      assert CellsFrom(s, from) == [];
    } else {
      match FindFirstOf(s, Tab, from)
      case None =>
        CellsLast(s, from);
        JoinLast(s, from);
      case Some(k) =>
        CellsStep(s, from, k);
        CellsFromJoin(s, k + 1);
        if k + 1 < |s| {
          JoinStep(s, from, k);
        } else {
          JoinFinalTab(s, from);
        }
    }
  }

  /** A line is its cells joined by tabs, plus the final tab the split drops;
      no cell holds a tab. */
  lemma LineCellsJoin(line: string)
    ensures var cells := LineCells(line);
      && (forall i :: 0 <= i < |cells| ==> TabFree(cells[i]))
      && JoinTabs(cells) + TrailingTab(line, 0) == line
  {
    CellsFromTabFree(line, 0);
    CellsFromJoin(line, 0);
  }

  /** A tab is never a cell. */
  lemma TabIsNoCell(line: string)
    ensures Tab !in LineCells(line)
  {
    WithoutKeeps(Tokens(line, Tab), Tab, Tab);
  }

  /** The rows of the three-line file `1\t5`, `6`, `\t=A1+A2`. */
  lemma TwoCellsExample()
    ensures LineCells("1\t5") == ["1", "5"]
  {
    var s := "1\t5";
    assert FindFirstOf(s, Tab, 0) == Some(1);
    assert FindFirstOf(s, Tab, 2) == None;
    CellsStep(s, 0, 1);
    CellsLast(s, 2);
    assert s[0..1] == "1" && s[2..] == "5";
  }

  lemma OneCellExample()
    ensures LineCells("6") == ["6"]
  {
    assert FindFirstOf("6", Tab, 0) == None;
    CellsLast("6", 0);
    assert "6"[0..] == "6";
  }

  /** A line that starts with a tab has an empty first cell. */
  lemma EmptyFirstCellExample()
    ensures LineCells("\t=A1+A2") == ["", "=A1+A2"]
  {
    var s := "\t=A1+A2";
    assert FindFirstOf(s, Tab, 0) == Some(0);
    FindFirstOfNone(s, Tab, 1);
    CellsStep(s, 0, 0);
    CellsLast(s, 1);
    assert s[0..0] == "" && s[1..] == "=A1+A2";
  }
}
