/**
 * The expression splitter of the spreadsheet engine (`tokenize`): a string is
 * cut at every character of a delimiter set, each delimiter is kept as a token
 * of its own, and a trailing empty run is dropped.
 */
module Tokenizer {
  import opened Wrappers

  /** The first index at or after `from` whose character is one of `del`
      (`std::string::find_first_of`); `None` stands for `npos`. */
  function FindFirstOf(s: string, del: string, from: nat): (r: Option<nat>)
    requires from <= |s|
    ensures r.Some? ==> from <= r.value < |s|
    decreases |s| - from
  {
    if from == |s| then None
    else if s[from] in del then Some(from)
    else FindFirstOf(s, del, from + 1)
  }

  /** `find_first_of` finds the first delimiter at or after `from`, and
      `npos` means there is none. */
  lemma {:induction false} FindFirstOfFinds(s: string, del: string, from: nat)
    requires from <= |s|
    ensures var r := FindFirstOf(s, del, from);
      && (r.Some? ==> s[r.value] in del && forall k :: from <= k < r.value ==> s[k] !in del)
      && (r.None? ==> forall k :: from <= k < |s| ==> s[k] !in del)
    decreases |s| - from
  {
    if from < |s| && s[from] !in del {
      FindFirstOfFinds(s, del, from + 1);
    }
  }

  lemma {:induction false} FindFirstOfNone(s: string, del: string, from: nat)
    requires from <= |s| && forall k :: from <= k < |s| ==> s[k] !in del
    ensures FindFirstOf(s, del, from) == None
    decreases |s| - from
  {
    if from < |s| {
      FindFirstOfNone(s, del, from + 1);
    }
  }

  /** The tokens of `s[from..]`: the run before the next delimiter, the delimiter,
      and so on; the last run is kept only when it is not empty. */
  function TokensFrom(s: string, del: string, from: nat): (ts: seq<string>)
    requires from <= |s|
    ensures ts == [] <==> from == |s|
    decreases |s| - from
  {
    match FindFirstOf(s, del, from)
    case None => if from < |s| then [s[from..]] else []
    case Some(k) => [s[from..k], [s[k]]] + TokensFrom(s, del, k + 1)
  }

  function Tokens(s: string, del: string): (ts: seq<string>)
    ensures ts == [] <==> s == ""
  {
    TokensFrom(s, del, 0)
  }

  /** The tokens glued back together. */
  function Concat(ts: seq<string>): string
  {
    if ts == [] then "" else ts[0] + Concat(ts[1..])
  }

  /** Odd positions hold one delimiter each; even positions hold a run free of
      delimiters, possibly empty. */
  predicate Alternating(ts: seq<string>, del: string)
  {
    forall i :: 0 <= i < |ts| ==>
      if i % 2 == 1 then |ts[i]| == 1 && ts[i][0] in del
      else forall j :: 0 <= j < |ts[i]| ==> ts[i][j] !in del
  }

  lemma TokensFromNext(s: string, del: string, from: nat, k: nat)
    requires from <= |s| && FindFirstOf(s, del, from) == Some(k)
    ensures from <= k < |s|
    ensures TokensFrom(s, del, from) == [s[from..k], [s[k]]] + TokensFrom(s, del, k + 1)
  {
  }

  lemma TokensFromLast(s: string, del: string, from: nat)
    requires from <= |s| && FindFirstOf(s, del, from) == None
    ensures TokensFrom(s, del, from) == if from < |s| then [s[from..]] else []
  {
  }

  /** `tokenize`, step by step as the source does it: `prev` is the start of the
      current run and `pos` the next delimiter at or after it. */
  method Tokenize(str: string, del: string) returns (tokens: seq<string>)
    ensures tokens == Tokens(str, del)
  {
    tokens := [];
    var prev := 0;
    var pos := FindFirstOf(str, del, 0);
    while pos.Some?
      invariant prev <= |str|
      invariant pos == FindFirstOf(str, del, prev)
      invariant tokens + TokensFrom(str, del, prev) == Tokens(str, del)
      decreases |str| - prev
    {
      var k := pos.value;
      TokensFromNext(str, del, prev, k);
      var pair := [str[prev..k], [str[k]]];
      assert tokens + TokensFrom(str, del, prev) == (tokens + pair) + TokensFrom(str, del, k + 1);
      tokens := tokens + pair;
      prev := k + 1;
      pos := FindFirstOf(str, del, prev);
    }
    TokensFromLast(str, del, prev);
    // Push back the last token if it is not empty
    if prev < |str| {
      tokens := tokens + [str[prev..]];
    }
  }

  lemma ConcatTwoPlus(a: string, b: string, rest: seq<string>)
    ensures Concat([a, b] + rest) == a + b + Concat(rest)
  {
    assert ([a, b] + rest)[1..] == [b] + rest;
    assert ([b] + rest)[1..] == rest;
  }

  /** Gluing the tokens of `s[from..]` back together gives `s[from..]`. */
  lemma {:induction false} ConcatTokensFrom(s: string, del: string, from: nat)
    requires from <= |s|
    ensures Concat(TokensFrom(s, del, from)) == s[from..]
    decreases |s| - from
  {
    match FindFirstOf(s, del, from)
    case None =>
      if from < |s| {
        assert Concat([s[from..]]) == s[from..] + Concat([]);
      }
    case Some(k) =>
      var rest := TokensFrom(s, del, k + 1);
      assert TokensFrom(s, del, from) == [s[from..k], [s[k]]] + rest;
      calc {
        Concat(TokensFrom(s, del, from));
        { ConcatTwoPlus(s[from..k], [s[k]], rest); }
        s[from..k] + [s[k]] + Concat(rest);
        { ConcatTokensFrom(s, del, k + 1); }
        s[from..k] + [s[k]] + s[k + 1..];
        s[from..];
      }
  }

  /** Tokenizing loses and adds nothing: the tokens spell the input. */
  lemma ConcatTokens(s: string, del: string)
    ensures Concat(Tokens(s, del)) == s
  {
    ConcatTokensFrom(s, del, 0);
  }

  lemma {:induction false} AlternatingFrom(s: string, del: string, from: nat)
    requires from <= |s|
    ensures Alternating(TokensFrom(s, del, from), del)
    decreases |s| - from
  {
    FindFirstOfFinds(s, del, from);
    match FindFirstOf(s, del, from)
    case None =>
    case Some(k) =>
      AlternatingFrom(s, del, k + 1);
      var rest := TokensFrom(s, del, k + 1);
      AlternatingCons(s[from..k], [s[k]], rest, del);
  }

  lemma AlternatingCons(run: string, d: string, rest: seq<string>, del: string)
    requires forall j :: 0 <= j < |run| ==> run[j] !in del
    requires |d| == 1 && d[0] in del
    requires Alternating(rest, del)
    ensures Alternating([run, d] + rest, del)
  {
    var ts := [run, d] + rest;
    forall i | 2 <= i < |ts|
      ensures ts[i] == rest[i - 2] && i % 2 == (i - 2) % 2
    {
    }
  }

  /** Delimiters sit at the odd positions, one character each; the runs at the
      even positions hold no delimiter. */
  lemma TokensAlternate(s: string, del: string)
    ensures Alternating(Tokens(s, del), del)
  {
    AlternatingFrom(s, del, 0);
  }

  lemma {:induction false} ParityFrom(s: string, del: string, from: nat)
    requires from <= |s|
    ensures |TokensFrom(s, del, from)| % 2 == 1 <==> from < |s| && s[|s| - 1] !in del
    decreases |s| - from
  {
    FindFirstOfFinds(s, del, from);
    match FindFirstOf(s, del, from)
    case None =>
      TokensFromLast(s, del, from);
    case Some(k) =>
      TokensFromNext(s, del, from, k);
      ParityFrom(s, del, k + 1);
      assert |TokensFrom(s, del, from)| == 2 + |TokensFrom(s, del, k + 1)|;
  }

  /** The token count is odd exactly when the input is not empty and does not
      end in a delimiter. */
  lemma TokensParity(s: string, del: string)
    ensures |Tokens(s, del)| % 2 == 1 <==> s != "" && s[|s| - 1] !in del
  {
    ParityFrom(s, del, 0);
  }

  lemma TokensExamples()
    ensures Tokens("5-3", "+-/*") == ["5", "-", "3"]
    ensures Tokens("-5", "+-/*") == ["", "-", "5"]
    ensures Tokens("5-", "+-/*") == ["5", "-"]
    ensures Tokens("", "+-/*") == []
  {
    assert FindFirstOf("5-3", "+-/*", 0) == Some(1);
    assert FindFirstOf("5-3", "+-/*", 2) == None;
    assert TokensFrom("5-3", "+-/*", 2) == ["3"];
    assert "5-3"[0..1] == "5";
    assert FindFirstOf("-5", "+-/*", 0) == Some(0);
    assert FindFirstOf("-5", "+-/*", 1) == None;
    assert FindFirstOf("5-", "+-/*", 0) == Some(1);
    assert TokensFrom("5-", "+-/*", 2) == [];
    assert "5-"[0..1] == "5";
  }
}
