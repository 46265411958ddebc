/**
 * The arithmetic of a formula: 32-bit `int` operations as the engine performs
 * them, and the precedence reduction of `processFormula`, which keeps a running
 * `result` and a pending `last` term so that `*` and `/` bind tighter than `+`
 * and `-`.
 */
module Arithmetic {
  import opened Wrappers
  import opened Integers
  import opened Tokenizer

  const Modulus: int := 0x1_0000_0000

  /** Two's complement wrap-around of an `int` result. */
  function Wrap32(x: int): (r: int)
    ensures IsInt32(r)
    ensures IsInt32(x) ==> r == x
  {
    (x - IntMin) % Modulus + IntMin
  }

  /** The remainder of Euclidean division is the only one in range. */
  lemma ModUnique(y: int, q: int, r: int)
    requires 0 <= r < Modulus && y == q * Modulus + r
    ensures y % Modulus == r
  {
  }

  /** Adding a multiple of 2^32 does not change the wrapped value. */
  lemma WrapShift(x: int, k: int)
    ensures Wrap32(x + k * Modulus) == Wrap32(x)
  {
    var y := x - IntMin;
    ModUnique(y + k * Modulus, y / Modulus + k, y % Modulus);
  }

  /** Wrapping an intermediate sum does not change the wrapped total. */
  lemma WrapAddWrap(a: int, b: int)
    ensures Wrap32(Wrap32(a) + b) == Wrap32(a + b)
  {
    var y := a - IntMin;
    var k := y / Modulus;
    assert Wrap32(a) == a - k * Modulus;
    WrapShift(a + b, -k);
  }

  function Abs(x: int): nat
  {
    if x < 0 then -x else x
  }

  /** C++ integer division: the quotient is truncated toward zero. A zero
      divisor is undefined behaviour in C++; the model answers 0. */
  function TruncDiv(a: int, b: int): (q: int)
    ensures b == 0 ==> q == 0
    ensures Abs(q) <= Abs(a)
  {
    if b == 0 then 0
    else
      QuotientAtMost(Abs(a), Abs(b));
      var q := Abs(a) / Abs(b);
      if (a < 0) == (b < 0) then q else -q
  }

  lemma QuotientAtMost(x: nat, y: nat)
    requires y >= 1
    ensures x / y <= x
  {
    var q := x / y;
    TimesAtLeast(y, q);
    assert x == y * q + x % y;
  }

  lemma {:induction false} TimesAtLeast(y: nat, q: nat)
    requires y >= 1
    ensures y * q >= q
    decreases y
  {
    if y > 1 {
      TimesAtLeast(y - 1, q);
      assert y * q == (y - 1) * q + q;
    }
  }

  /** What C++ promises of `/` and `%`: `(a / b) * b + a % b == a`, with a
      remainder smaller than the divisor and of the dividend's sign. */
  lemma TruncDivSpec(a: int, b: int)
    requires b != 0
    ensures var rem := a - TruncDiv(a, b) * b;
            Abs(rem) < Abs(b) && (rem == 0 || (rem < 0 <==> a < 0))
  {
    var q := Abs(a) / Abs(b);
    var m := Abs(a) % Abs(b);
    assert Abs(a) == q * Abs(b) + m && 0 <= m < Abs(b);
    TruncDivTimes(a, b);
  }

  /** The truncated quotient times the divisor is the magnitude's multiple,
      carrying the dividend's sign. */
  lemma TruncDivTimes(a: int, b: int)
    requires b != 0
    ensures var p := (Abs(a) / Abs(b)) * Abs(b);
            TruncDiv(a, b) * b == if a < 0 then -p else p
  {
    var q := Abs(a) / Abs(b);
    if b < 0 {
      assert q * b == -(q * Abs(b));
      assert -q * b == q * Abs(b);
    } else {
      assert -q * b == -(q * Abs(b));
    }
  }

  lemma TruncDivExamples()
    ensures TruncDiv(-7, 2) == -3 && TruncDiv(7, -2) == -3 && TruncDiv(9, 3) == 3
  {
  }

  datatype Op = Add | Sub | Mul | Div

  /** The operator a one-character token stands for. */
  function ParseOp(tok: string): (r: Option<Op>)
    ensures r.Some? <==> |tok| == 1 && tok[0] in Operators
  {
    if tok == "*" then Some(Mul)
    else if tok == "/" then Some(Div)
    else if tok == "+" then Some(Add)
    else if tok == "-" then Some(Sub)
    else None
  }

  const Operators: string := "+-/*"

  /** Every token the formula splitter puts at an odd position is one of the
      four operators, so the engine's "invalid operator" branch never runs. */
  lemma OperatorTokensParse(s: string, i: nat)
    requires i < |Tokens(s, Operators)| && i % 2 == 1
    ensures ParseOp(Tokens(s, Operators)[i]).Some?
  {
    TokensAlternate(s, Operators);
    var t := Tokens(s, Operators)[i];
    assert |t| == 1 && t[0] in Operators;
    assert t == [t[0]];
  }

  /** The running state of the reduction: the sum of the finished terms and the
      pending term. */
  datatype Acc = Acc(result: int, last: int)

  /** One operator and its right operand: `*` and `/` fold into the pending term,
      `+` and `-` flush it into the result and start a new one. */
  function Apply(op: Op, acc: Acc, v: int): (a: Acc)
    ensures IsMulDiv(op) ==> a.result == acc.result
    ensures IsInt32(acc.result) ==> IsInt32(a.result)
    ensures IsInt32(v) && IsInt32(acc.last) ==> IsInt32(a.last)
  {
    match op
    case Mul => Acc(acc.result, Wrap32(acc.last * v))
    case Div => Acc(acc.result, Wrap32(TruncDiv(acc.last, v)))
    case Add => Acc(Wrap32(acc.result + acc.last), v)
    case Sub => Acc(Wrap32(acc.result + acc.last), Wrap32(-v))
  }

  /** The final flush of the pending term. */
  function Total(acc: Acc): (t: int)
    ensures IsInt32(t)
    ensures IsInt32(acc.result + acc.last) ==> t == acc.result + acc.last
  {
    Wrap32(acc.result + acc.last)
  }

  function Fold(acc: Acc, ops: seq<Op>, vals: seq<int>): (r: Acc)
    requires |ops| == |vals|
    ensures IsInt32(acc.result) ==> IsInt32(r.result)
    decreases |ops|
  {
    if ops == [] then acc else Fold(Apply(ops[0], acc, vals[0]), ops[1..], vals[1..])
  }

  /** `v0 op1 v1 ... opn vn` reduced the way the engine reduces it. */
  function Reduce(first: int, ops: seq<Op>, vals: seq<int>): (r: int)
    requires |ops| == |vals|
    ensures IsInt32(r)
  {
    Total(Fold(Acc(0, first), ops, vals))
  }

  // An independent reading of precedence: the formula is a sum of terms, each
  // term a left-to-right chain of products and quotients.

  predicate IsMulDiv(op: Op)
  {
    op == Mul || op == Div
  }

  /** The length of the leading run of `*` and `/`. */
  function TermEnd(ops: seq<Op>): (k: nat)
    ensures k <= |ops|
    ensures forall j :: 0 <= j < k ==> IsMulDiv(ops[j])
    ensures k < |ops| ==> !IsMulDiv(ops[k])
  {
    if ops == [] || !IsMulDiv(ops[0]) then 0 else 1 + TermEnd(ops[1..])
  }

  function Product(v: int, ops: seq<Op>, vals: seq<int>): int
    requires |ops| == |vals| && forall j :: 0 <= j < |ops| ==> IsMulDiv(ops[j])
    decreases |ops|
  {
    if ops == [] then v
    else
      var next := if ops[0] == Mul then Wrap32(v * vals[0]) else Wrap32(TruncDiv(v, vals[0]));
      Product(next, ops[1..], vals[1..])
  }

  /** The value a term starts with: the operand after `+`, or its negation after `-`. */
  function Lead(op: Op, v: int): int
  {
    if op == Sub then Wrap32(-v) else v
  }

  function Terms(first: int, ops: seq<Op>, vals: seq<int>): (ts: seq<int>)
    requires |ops| == |vals|
    ensures ts != []
    decreases |ops|
  {
    var k := TermEnd(ops);
    [Product(first, ops[..k], vals[..k])] +
      (if k == |ops| then [] else Terms(Lead(ops[k], vals[k]), ops[k + 1..], vals[k + 1..]))
  }

  function Sum(ts: seq<int>): int
  {
    if ts == [] then 0 else ts[0] + Sum(ts[1..])
  }

  /** Folding `*` or `/` into the first term leaves the list of terms unchanged. */
  lemma TermsAfterMulDiv(first: int, ops: seq<Op>, vals: seq<int>)
    requires |ops| == |vals| && ops != [] && IsMulDiv(ops[0])
    ensures Terms(first, ops, vals) == Terms(Apply(ops[0], Acc(0, first), vals[0]).last, ops[1..], vals[1..])
  {
    var next := Apply(ops[0], Acc(0, first), vals[0]).last;
    var k := TermEnd(ops);
    var ops', vals' := ops[1..], vals[1..];
    assert TermEnd(ops') == k - 1;
    ProductFirst(first, ops, vals, k);
    if k < |ops| {
      assert ops'[k - 1] == ops[k] && vals'[k - 1] == vals[k];
      assert ops'[k..] == ops[k + 1..];
      assert vals'[k..] == vals[k + 1..];
    }
  }

  lemma ProductFirst(first: int, ops: seq<Op>, vals: seq<int>, k: nat)
    requires |ops| == |vals| && 0 < k <= |ops|
    requires forall j :: 0 <= j < k ==> IsMulDiv(ops[j])
    ensures Product(first, ops[..k], vals[..k]) ==
      Product(Apply(ops[0], Acc(0, first), vals[0]).last, ops[1..][..k - 1], vals[1..][..k - 1])
  {
    assert ops[..k][1..] == ops[1..][..k - 1];
    assert vals[..k][1..] == vals[1..][..k - 1];
  }

  /** The wrapped running sum of a list of terms. */
  function SumFrom(acc: int, ts: seq<int>): int
    decreases |ts|
  {
    if ts == [] then acc else SumFrom(Wrap32(acc + ts[0]), ts[1..])
  }

  lemma {:induction false} FoldIsSumOfTerms(acc: Acc, ops: seq<Op>, vals: seq<int>)
    requires |ops| == |vals|
    ensures Total(Fold(acc, ops, vals)) == SumFrom(acc.result, Terms(acc.last, ops, vals))
    decreases |ops|
  {
    if ops == [] {
      assert Terms(acc.last, ops, vals) == [acc.last];
    } else {
      var next := Apply(ops[0], acc, vals[0]);
      assert Fold(acc, ops, vals) == Fold(next, ops[1..], vals[1..]);
      FoldIsSumOfTerms(next, ops[1..], vals[1..]);
      if IsMulDiv(ops[0]) {
        TermsAfterMulDiv(acc.last, ops, vals);
      } else {
        var rest := Terms(next.last, ops[1..], vals[1..]);
        assert SumFrom(acc.result, Terms(acc.last, ops, vals)) == SumFrom(next.result, rest) by {
          TermsAfterAddSub(acc.last, ops, vals);
          assert ([acc.last] + rest)[1..] == rest;
        }
      }
    }
  }

  /** A `+` or `-` closes the first term, which is then just the pending value. */
  lemma TermsAfterAddSub(first: int, ops: seq<Op>, vals: seq<int>)
    requires |ops| == |vals| && ops != [] && !IsMulDiv(ops[0])
    ensures Terms(first, ops, vals) == [first] + Terms(Lead(ops[0], vals[0]), ops[1..], vals[1..])
  {
    assert TermEnd(ops) == 0;
    assert ops[..0] == [] && vals[..0] == [];
  }

  lemma {:induction false} SumFromWraps(acc: int, ts: seq<int>)
    requires IsInt32(acc)
    ensures SumFrom(acc, ts) == Wrap32(acc + Sum(ts))
    decreases |ts|
  {
    if ts != [] {
      SumFromWraps(Wrap32(acc + ts[0]), ts[1..]);
      WrapAddWrap(acc + ts[0], Sum(ts[1..]));
    }
  }

  /** The reduction computes the sum of the terms (wrapped to 32 bits), each term
      the left-to-right chain of `*` and `/` that starts at `+`, `-` or the
      first operand. */
  lemma ReduceIsSumOfTerms(first: int, ops: seq<Op>, vals: seq<int>)
    requires |ops| == |vals|
    ensures Reduce(first, ops, vals) == Wrap32(Sum(Terms(first, ops, vals)))
  {
    FoldIsSumOfTerms(Acc(0, first), ops, vals);
    SumFromWraps(0, Terms(first, ops, vals));
  }

  /** `5-3` is 2, `5-3*2*2+9/3` is -4 and `5-3+1+5` is 8. */
  lemma ReduceExamples()
    ensures Reduce(5, [Sub], [3]) == 2
    ensures Reduce(5, [Sub, Mul, Mul, Add, Div], [3, 2, 2, 9, 3]) == -4
    ensures Reduce(5, [Sub, Add, Add], [3, 1, 5]) == 8
  {
    var ops, vals := [Sub, Mul, Mul, Add, Div], [3, 2, 2, 9, 3];
    assert Fold(Acc(0, 5), ops, vals) == Fold(Acc(5, -3), ops[1..], vals[1..]);
    assert Fold(Acc(5, -3), ops[1..], vals[1..]) == Fold(Acc(5, -6), ops[2..], vals[2..]);
    assert Fold(Acc(5, -6), ops[2..], vals[2..]) == Fold(Acc(5, -12), ops[3..], vals[3..]);
    assert Fold(Acc(5, -12), ops[3..], vals[3..]) == Fold(Acc(-7, 9), ops[4..], vals[4..]);
    assert Fold(Acc(-7, 9), ops[4..], vals[4..]) == Acc(-7, 3);
    var ops', vals' := [Sub, Add, Add], [3, 1, 5];
    assert Fold(Acc(0, 5), ops', vals') == Fold(Acc(5, -3), ops'[1..], vals'[1..]);
    assert Fold(Acc(5, -3), ops'[1..], vals'[1..]) == Fold(Acc(2, 1), ops'[2..], vals'[2..]);
    assert Fold(Acc(2, 1), ops'[2..], vals'[2..]) == Acc(3, 5);
  }
}
