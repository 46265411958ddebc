/**
 * Cell references (`refToRowCol`): a run of upper-case letters naming the
 * column in bijective base 26 (A = 1, ..., Z = 26, AA = 27), then an integer
 * naming the row, both turned into 0-based indices. Anything else decodes to
 * the invalid pair (-1, -1).
 */
module References {
  import opened Wrappers
  import opened Integers

  predicate IsUpper(c: char)
  {
    'A' <= c <= 'Z'
  }

  predicate AllUpper(s: string)
  {
    forall i :: 0 <= i < |s| ==> IsUpper(s[i])
  }

  function LetterValue(c: char): int
  {
    c as int - 'A' as int + 1
  }

  /** The column number of a run of letters, accumulated as `col * 26 + letter`. */
  function ColumnNumber(letters: string): (n: int)
    ensures AllUpper(letters) ==> n >= |letters|
  {
    if letters == "" then 0
    else 26 * ColumnNumber(letters[..|letters| - 1]) + LetterValue(letters[|letters| - 1])
  }

  /** The end of the run of upper-case letters that starts at `from`. */
  function LetterRunEnd(s: string, from: nat): (k: nat)
    requires from <= |s|
    ensures from <= k <= |s|
    decreases |s| - from
  {
    if from < |s| && IsUpper(s[from]) then LetterRunEnd(s, from + 1) else from
  }

  /** The decoded (row, column), 0-based, or (-1, -1). */
  function DecodeRef(ref: string): (rc: (int, int))
    ensures rc == (-1, -1) || (rc.1 >= 0 && IsInt32(rc.0 + 1) && ref != "" && IsUpper(ref[0]))
  {
    var n := LetterRunEnd(ref, 0);
    var col := ColumnNumber(ref[..n]);
    var row := StringToInt(ref[n..]);
    if col > 0 && row.Some? then (row.value - 1, col - 1) else (-1, -1)
  }

  /** `refToRowCol`, with its letter loop. */
  method RefToRowCol(ref: string) returns (row: int, col: int)
    ensures (row, col) == DecodeRef(ref)
  {
    var pos := 0;
    var c := 0;
    while pos < |ref| && IsUpper(ref[pos])
      invariant pos <= |ref| && AllUpper(ref[..pos])
      invariant LetterRunEnd(ref, pos) == LetterRunEnd(ref, 0)
      invariant c == ColumnNumber(ref[..pos])
    {
      assert ref[..pos + 1][..pos] == ref[..pos];
      c := c * 26 + LetterValue(ref[pos]);
      pos := pos + 1;
    }
    var r := StringToInt(ref[pos..]);
    if c > 0 && r.Some? {
      row, col := r.value - 1, c - 1;
    } else {
      row, col := -1, -1;
    }
  }

  /** A non-empty run of letters numbers a column from 1 upwards. */
  lemma {:induction false} ColumnNumberPositive(letters: string)
    requires AllUpper(letters) && letters != ""
    ensures ColumnNumber(letters) >= 1
    decreases |letters|
  {
    var init := letters[..|letters| - 1];
    assert AllUpper(init);
    if init != "" {
      ColumnNumberPositive(init);
    }
  }

  /** Bijective base 26 is unambiguous: two letter runs that number the same
      column are the same run. */
  lemma {:induction false} ColumnNumberInjective(a: string, b: string)
    requires AllUpper(a) && AllUpper(b)
    requires ColumnNumber(a) == ColumnNumber(b)
    ensures a == b
    decreases |a|
  {
    if a != "" {
      ColumnNumberPositive(a);
    }
    if b != "" {
      ColumnNumberPositive(b);
    }
    if a != "" && b != "" {
      var a', b' := a[..|a| - 1], b[..|b| - 1];
      assert AllUpper(a') && AllUpper(b');
      if a' != "" {
        ColumnNumberPositive(a');
      }
      if b' != "" {
        ColumnNumberPositive(b');
      }
      var x, y := LetterValue(a[|a| - 1]), LetterValue(b[|b| - 1]);
      assert 1 <= x <= 26 && 1 <= y <= 26 by {
        assert IsUpper(a[|a| - 1]) && IsUpper(b[|b| - 1]);
      }
      LastDigit(ColumnNumber(a'), ColumnNumber(b'), x, y);
      ColumnNumberInjective(a', b');
      assert a == a' + [a[|a| - 1]] && b == b' + [b[|b| - 1]];
    }
  }

  /** A digit in 1..26 and the number before it are fixed by `26 * p + x`. */
  lemma LastDigit(p: int, q: int, x: int, y: int)
    requires 1 <= x <= 26 && 1 <= y <= 26
    requires 26 * p + x == 26 * q + y
    ensures p == q && x == y
  {
  }

  lemma {:induction false} RunEndOverLetters(s: string, n: nat, from: nat)
    requires n <= |s| && from <= n && AllUpper(s[..n])
    requires n < |s| ==> !IsUpper(s[n])
    ensures LetterRunEnd(s, from) == n
    decreases n - from
  {
    if from < n {
      assert s[from] == s[..n][from];
      RunEndOverLetters(s, n, from + 1);
    }
  }

  /** Letters followed by a suffix that does not start with a letter: the column
      is the letters' number less one and the row is the suffix's integer less
      one, or the pair is invalid when the suffix is not an integer. */
  lemma DecodeLettersThenRow(letters: string, rest: string)
    requires letters != "" && AllUpper(letters)
    requires rest != "" ==> !IsUpper(rest[0])
    ensures StringToInt(rest).Some? ==>
      DecodeRef(letters + rest) == (StringToInt(rest).value - 1, ColumnNumber(letters) - 1)
    ensures StringToInt(rest).None? ==> DecodeRef(letters + rest) == (-1, -1)
  {
    var s := letters + rest;
    assert s[..|letters|] == letters;
    RunEndOverLetters(s, |letters|, 0);
    var n := LetterRunEnd(s, 0);
    assert s[..n] == letters;
    assert s[n..] == rest;
    ColumnNumberPositive(letters);
    assert ColumnNumber(s[..n]) > 0;
    assert StringToInt(s[n..]) == StringToInt(rest);
  }

  /** A reference that does not start with an upper-case letter is invalid. */
  lemma DecodeWithoutLetters(ref: string)
    requires ref == "" || !IsUpper(ref[0])
    ensures DecodeRef(ref) == (-1, -1)
  {
    assert ref[..0] == "";
  }

  /** `A1` is the top-left cell. */
  lemma DecodeFirstCellExample()
    ensures DecodeRef("A1") == (0, 0)
  {
    assert ColumnNumber("A") == 1 && DecimalValue("1") == 1;
    assert "A" + "1" == "A1";
    DecodeOne("A", "1", 1, 1);
  }

  /** `Z9`: the last single letter is column 26. */
  lemma DecodeLastLetterExample()
    ensures DecodeRef("Z9") == (8, 25)
  {
    assert ColumnNumber("Z") == 26 && DecimalValue("9") == 9;
    assert "Z" + "9" == "Z9";
    DecodeOne("Z", "9", 9, 26);
  }

  /** Row 0 is not rejected: `A0` decodes to row -1 and column 0. */
  lemma DecodeRowZero()
    ensures DecodeRef("A0") == (-1, 0)
  {
    assert ColumnNumber("A") == 1 && DecimalValue("0") == 0;
    assert "A" + "0" == "A0";
    DecodeOne("A", "0", 0, 1);
  }

  /** Two letters: `BA` is 2 * 26 + 1 = 53. */
  lemma DecodeTwoLetterExample()
    ensures DecodeRef("BA11") == (10, 52)
  {
    assert ColumnNumber("BA") == 53 by { assert "BA"[..1] == "B"; }
    assert DecimalValue("11") == 11 by { assert "11"[..1] == "1"; }
    DecodeOne("BA", "11", 11, 53);
    assert "BA" + "11" == "BA11";
  }

  lemma DecodeOne(letters: string, digits: string, row: nat, col: nat)
    requires letters != "" && AllUpper(letters) && ColumnNumber(letters) == col
    requires digits != "" && AllDigits(digits) && DecimalValue(digits) == row && row <= IntMax
    ensures DecodeRef(letters + digits) == (row - 1, col - 1)
  {
    assert StringToInt(digits) == Some(row) by {
      StringToIntDigits(digits);
    }
    assert DecodeRef(letters + digits) == (row - 1, col - 1) by {
      assert !IsUpper(digits[0]) by {
        assert IsDigit(digits[0]);
      }
      DecodeLettersThenRow(letters, digits);
    }
  }

  /** Tokens that are not references: no leading capital, or no row after the
      capitals. */
  lemma DecodeInvalidExamples()
    ensures DecodeRef("1") == (-1, -1)
    ensures DecodeRef("a1") == (-1, -1)
    ensures DecodeRef("A") == (-1, -1)
  {
    DecodeWithoutLetters("1");
    DecodeWithoutLetters("a1");
    DecodeLettersOnly("A");
  }

  /** A run of capitals with nothing after it names no row. */
  lemma DecodeLettersOnly(letters: string)
    requires letters != "" && AllUpper(letters)
    ensures DecodeRef(letters) == (-1, -1)
  {
    DecodeLettersThenRow(letters, "");
    assert letters + "" == letters;
    assert StringToInt("") == None;
  }
}
