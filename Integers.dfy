/**
 * Integer literals of the spreadsheet engine: `stringToInt` (a cell or an
 * operand is an integer only when `std::stoi` reads all of it and the value
 * fits a 32-bit `int`) and the decimal text `std::to_string` writes back.
 */
module Integers {
  import opened Wrappers

  const IntMin: int := -0x8000_0000
  const IntMax: int := 0x7fff_ffff

  predicate IsInt32(n: int)
  {
    IntMin <= n <= IntMax
  }

  /** The leading white space `std::stoi` skips (the C locale's `isspace`). */
  predicate IsSpace(c: char)
  {
    c == ' ' || '\t' <= c <= '\r'
  }

  predicate AllSpaces(w: string)
  {
    forall i :: 0 <= i < |w| ==> IsSpace(w[i])
  }

  predicate IsSignText(sign: string)
  {
    sign == "" || sign == "+" || sign == "-"
  }

  predicate IsSign(c: char)
  {
    c == '+' || c == '-'
  }

  predicate IsDigit(c: char)
  {
    '0' <= c <= '9'
  }

  predicate AllDigits(d: string)
  {
    forall i :: 0 <= i < |d| ==> IsDigit(d[i])
  }

  function DigitValue(c: char): nat
    requires IsDigit(c)
  {
    c as int - '0' as int
  }

  function DigitChar(n: nat): char
    requires n < 10
  {
    ('0' as int + n) as char
  }

  /** The value of a run of decimal digits, most significant first. */
  function DecimalValue(d: string): nat
    requires AllDigits(d)
  {
    if d == "" then 0 else 10 * DecimalValue(d[..|d| - 1]) + DigitValue(d[|d| - 1])
  }

  /** The index of the first character at or after `from` that is not white space. */
  function SkipSpaces(s: string, from: nat): (k: nat)
    requires from <= |s|
    ensures from <= k <= |s|
    decreases |s| - from
  {
    if from < |s| && IsSpace(s[from]) then SkipSpaces(s, from + 1) else from
  }

  /** `stringToInt`: white space, an optional sign and at least one digit, with
      nothing after the digits, and a value that fits `int`. */
  function StringToInt(s: string): (r: Option<int>)
    ensures r.Some? ==> IsInt32(r.value)
    ensures r.Some? ==> s != "" && IsDigit(s[|s| - 1])
  {
    var w := SkipSpaces(s, 0);
    var start := if w < |s| && IsSign(s[w]) then w + 1 else w;
    SignedValue(w < |s| && s[w] == '-', s[start..])
  }

  /** What `std::stoi` makes of the text after the sign, when that text must be
      read whole: a non-empty run of digits whose signed value fits `int`. */
  function SignedValue(negative: bool, digits: string): (r: Option<int>)
    ensures r.Some? ==> IsInt32(r.value) && digits != "" && IsDigit(digits[|digits| - 1])
  {
    if digits == "" || !AllDigits(digits) then None
    else
      var magnitude := DecimalValue(digits);
      var v: int := if negative then -(magnitude as int) else magnitude;
      if IsInt32(v) then Some(v) else None
  }

  predicate IsInt(s: string)
  {
    StringToInt(s).Some?
  }

  /** The digits of `n`, most significant first, without leading zeros. */
  function NatToDecimal(n: nat): (d: string)
    ensures d != "" && AllDigits(d)
    ensures d[0] == '0' <==> n == 0
    ensures n == 0 ==> d == "0"
  {
    if n < 10 then [DigitChar(n)] else NatToDecimal(n / 10) + [DigitChar(n % 10)]
  }

  /** `std::to_string` of an `int`. */
  function IntToString(n: int): (s: string)
    ensures s != ""
    // A non-negative value is written as its digits alone, without leading zeros
    ensures n >= 0 ==> AllDigits(s) && (|s| > 1 ==> s[0] != '0')
    // A negative value is written as `-` then digits that do not start with `0`
    ensures n < 0 ==> |s| > 1 && s[0] == '-' && AllDigits(s[1..]) && s[1] != '0'
  {
    if n < 0 then "-" + NatToDecimal(-n) else NatToDecimal(n)
  }

  lemma {:induction false} DecimalRoundTrip(n: nat)
    ensures DecimalValue(NatToDecimal(n)) == n
  {
    var d := NatToDecimal(n);
    if n >= 10 {
      DecimalRoundTrip(n / 10);
      assert d[..|d| - 1] == NatToDecimal(n / 10);
    }
  }

  /** Whatever white space and sign precede a run of digits, `stringToInt`
      reads the signed value of the digits, or rejects it when it does not fit. */
  lemma StringToIntAccepts(w: string, sign: string, d: string)
    requires AllSpaces(w) && IsSignText(sign)
    requires d != "" && AllDigits(d)
    ensures var v: int := if sign == "-" then -(DecimalValue(d) as int) else DecimalValue(d);
            StringToInt(w + sign + d) == if IsInt32(v) then Some(v) else None
  {
    SkipSpacesAndSign(w, sign, d);
    var v: int := if sign == "-" then -(DecimalValue(d) as int) else DecimalValue(d);
    assert SignedValue(sign == "-", d) == if IsInt32(v) then Some(v) else None;
  }

  /** `stringToInt` skips exactly the white space and the sign in front of
      the digits. */
  lemma SkipSpacesAndSign(w: string, sign: string, d: string)
    requires AllSpaces(w) && IsSignText(sign)
    requires d != "" && AllDigits(d)
    ensures StringToInt(w + sign + d) == SignedValue(sign == "-", d)
  {
    var s := w + sign + d;
    assert s[|w|] == if sign == "" then d[0] else sign[0];
    assert s[..|w|] == w;
    SkipAll(s, w, 0);
    assert s[|w| + |sign|..] == d;
  }

  /** The converse of `StringToIntAccepts`: `stringToInt` accepts nothing but
      white space, an optional sign and a non-empty run of digits, read whole. */
  lemma StringToIntOnly(s: string)
    requires StringToInt(s).Some?
    ensures exists w, sign, d :: && s == w + sign + d && AllSpaces(w) && IsSignText(sign) && d != "" && AllDigits(d)
                                 && StringToInt(s) == SignedValue(sign == "-", d)
  {
    var k := SkipSpaces(s, 0);
    var start := if k < |s| && IsSign(s[k]) then k + 1 else k;
    var w, sign, d := s[..k], s[k..start], s[start..];
    SkippedAreSpaces(s, 0);
    assert AllSpaces(w);
    assert s == w + sign + d;
    SkipSpacesAndSign(w, sign, d);
  }

  /** `SkipSpaces` passes over white space only. */
  lemma {:induction false} SkippedAreSpaces(s: string, from: nat)
    requires from <= |s|
    ensures forall i :: from <= i < SkipSpaces(s, from) ==> IsSpace(s[i])
    decreases |s| - from
  {
    if from < |s| && IsSpace(s[from]) {
      SkippedAreSpaces(s, from + 1);
    }
  }

  /** A bare run of digits reads as its value when that fits. */
  lemma StringToIntDigits(d: string)
    requires d != "" && AllDigits(d) && DecimalValue(d) <= IntMax
    ensures StringToInt(d) == Some(DecimalValue(d))
  {
    calc {
      StringToInt(d);
      { assert d == "" + "" + d; }
      StringToInt("" + "" + d);
      { StringToIntAccepts("", "", d); }
      Some(DecimalValue(d));
    }
  }

  /** A single digit reads as its value. */
  lemma DigitLiteral(c: char)
    requires IsDigit(c)
    ensures StringToInt([c]) == Some(DigitValue(c))
  {
    assert [c][..0] == "";
    StringToIntDigits([c]);
  }

  lemma {:induction false} SkipAll(s: string, w: string, from: nat)
    requires |w| <= |s| && w == s[..|w|] && from <= |w|
    requires AllSpaces(w)
    requires |w| < |s| ==> !IsSpace(s[|w|])
    ensures SkipSpaces(s, from) == |w|
    decreases |w| - from
  {
    if from < |w| {
      assert IsSpace(s[from]) by { assert s[from] == w[from]; }
      SkipAll(s, w, from + 1);
    }
  }

  /** The decimal text written for a result is read back as the same integer. */
  lemma IntToStringRoundTrip(n: int)
    requires IsInt32(n)
    ensures StringToInt(IntToString(n)) == Some(n)
  {
    var m: nat := if n < 0 then -n else n;
    var sign := if n < 0 then "-" else "";
    calc {
      StringToInt(IntToString(n));
      { assert IntToString(n) == "" + sign + NatToDecimal(m); }
      StringToInt("" + sign + NatToDecimal(m));
      { StringToIntAccepts("", sign, NatToDecimal(m)); DecimalRoundTrip(m); }
      Some(n);
    }
  }

  /** Inputs the engine rejects as cells, and the two sentinels, are not integers. */
  lemma NotIntegers()
    ensures StringToInt("3.4") == None
    ensures StringToInt("d") == None
    ensures StringToInt("") == None
    ensures StringToInt("#ERROR") == None && StringToInt("#NAN") == None
  {
    assert !IsDigit("3.4"[1]);
  }

  function Pow10(n: nat): nat
  {
    if n == 0 then 1 else 10 * Pow10(n - 1)
  }

  /** A run of digits that does not start with `0` is at least 10 to the power
      of its length less one. */
  lemma {:induction false} LeadingDigitBound(d: string)
    requires d != "" && AllDigits(d) && d[0] != '0'
    ensures DecimalValue(d) >= Pow10(|d| - 1)
  {
    if |d| > 1 {
      var init := d[..|d| - 1];
      assert init[0] == d[0];
      LeadingDigitBound(init);
    } else {
      assert DigitValue(d[0]) >= 1;
    }
  }

  /** A literal too wide for a 32-bit `int` is not an integer either. */
  lemma OverflowIsNotInteger()
    ensures StringToInt("9999999999999") == None
  {
    var d := "9999999999999";
    assert DecimalValue(d) > IntMax by {
      LeadingDigitBound(d);
      assert Pow10(4) == 10_000 by {
        assert Pow10(2) == 100;
      }
      assert Pow10(8) == 100_000_000 by {
        assert Pow10(6) == 1_000_000;
      }
      assert Pow10(12) == 1_000_000_000_000 by {
        assert Pow10(10) == 10_000_000_000;
      }
    }
    assert StringToInt(d) == None by {
      StringToIntAccepts("", "", d);
      assert "" + "" + d == d;
    }
  }

  /** White space and a sign in front of the digits are accepted. */
  lemma SignedExamples()
    ensures StringToInt(" -12") == Some(-12)
    ensures StringToInt("+7") == Some(7)
  {
    StringToIntAccepts(" ", "-", "12");
    assert " " + "-" + "12" == " -12";
    assert DecimalValue("12") == 12 by { assert "12"[..1] == "1"; }
    StringToIntAccepts("", "+", "7");
    assert "" + "+" + "7" == "+7";
  }
}
