/**
  Decimal rendering of the line number. With `std::cout` in its default
  formatting state (decimal base, no `showpos`, the classic locale without
  digit grouping, no pending width), an `int` is printed as an optional
  minus sign followed by the digits of its magnitude, without leading
  zeros; `ParseInt` is the inverse that accepts exactly those numerals.
 */
module Decimal {

  import opened Options

  /** The range of the C++ `int` that carries the line number. */
  newtype int32 = x: int | -0x8000_0000 <= x < 0x8000_0000

  predicate IsDigit(c: char)
  {
    '0' <= c <= '9'
  }

  predicate AllDigits(s: string)
  {
    forall i :: 0 <= i < |s| ==> IsDigit(s[i])
  }

  /** A non-empty digit string without a leading zero, except "0" itself. */
  predicate Canonical(s: string)
  {
    |s| > 0 && AllDigits(s) && (s[0] == '0' ==> |s| == 1)
  }

  function DigitChar(d: nat): (c: char)
    requires d < 10
    ensures IsDigit(c)
    ensures c as int - '0' as int == d
  {
    ('0' as int + d) as char
  }

  function DigitValue(c: char): (d: nat)
    requires IsDigit(c)
    ensures d < 10
    ensures DigitChar(d) == c
  {
    c as int - '0' as int
  }

  /** The decimal numeral of `n`, most significant digit first. */
  function NatToString(n: nat): (s: string)
    ensures Canonical(s)
    ensures s[0] == '0' <==> n == 0
    decreases n
  {
    if n < 10 then [DigitChar(n)]
    else NatToString(n / 10) + [DigitChar(n % 10)]
  }

  /** The value of a digit string (the empty string reads as 0). */
  function ParseNat(s: string): (n: nat)
    requires AllDigits(s)
    decreases |s|
  {
    if s == [] then 0
    else 10 * ParseNat(s[..|s| - 1]) + DigitValue(s[|s| - 1])
  }

  /** What `std::cout << line` writes for an `int` under the default formatting state. */
  function IntToString(n: int): (s: string)
    ensures |s| > 0
    ensures s[0] == '-' <==> n < 0
    ensures ' ' !in s && ':' !in s && '\n' !in s
  {
    if n < 0 then "-" + NatToString(-n) else NatToString(n)
  }

  /** Reads back a numeral in exactly the form `IntToString` produces. */
  function ParseInt(s: string): (r: Option<int>)
  {
    if |s| > 0 && s[0] == '-' then
      if Canonical(s[1..]) && s[1..] != "0" then Some(0 - ParseNat(s[1..]) as int) else None
    else if Canonical(s) then Some(ParseNat(s))
    else None
  }

  lemma {:induction false} ParseNatOfNatToString(n: nat)
    ensures ParseNat(NatToString(n)) == n
    decreases n
  {
    var s := NatToString(n);
    if n < 10 {
      assert s[..|s| - 1] == [];
    } else {
      ParseNatOfNatToString(n / 10);
      assert s[..|s| - 1] == NatToString(n / 10);
    }
  }

  lemma {:induction false} NatToStringOfParseNat(s: string)
    requires Canonical(s)
    ensures NatToString(ParseNat(s)) == s
    decreases |s|
  {
    var init := s[..|s| - 1];
    var d := DigitValue(s[|s| - 1]);
    if |s| == 1 {
      assert init == [];
      assert [DigitChar(d)] == s;
    } else {
      assert init[0] == s[0];
      NatToStringOfParseNat(init);
      var k := ParseNat(init);
      assert k != 0;
      var n := 10 * k + d;
      assert n / 10 == k && n % 10 == d;
      assert NatToString(n) == init + [s[|s| - 1]];
      assert init + [s[|s| - 1]] == s;
    }
  }

  /** Every `int` can be read back from its rendering. */
  lemma IntRoundTrip(n: int)
    ensures ParseInt(IntToString(n)) == Some(n)
  {
    var s := IntToString(n);
    if n < 0 {
      assert s[1..] == NatToString(-n);
      ParseNatOfNatToString(-n);
    } else {
      ParseNatOfNatToString(n);
    }
  }

  /** Every numeral the parser accepts is the rendering of the value it reads. */
  lemma ParseIntIsCanonical(s: string)
    ensures ParseInt(s).Some? ==> IntToString(ParseInt(s).value) == s
  {
    if |s| > 0 && s[0] == '-' {
      if Canonical(s[1..]) && s[1..] != "0" {
        NatToStringOfParseNat(s[1..]);
        assert ParseNat(s[1..]) != 0;
        assert "-" + s[1..] == s;
      }
    } else if Canonical(s) {
      NatToStringOfParseNat(s);
    }
  }

  /** Distinct line numbers are rendered differently. */
  lemma IntToStringInjective(a: int, b: int)
    ensures IntToString(a) == IntToString(b) <==> a == b
  {
    IntRoundTrip(a);
    IntRoundTrip(b);
  }

}
