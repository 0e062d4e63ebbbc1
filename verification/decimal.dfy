/**
  Decimal text of integers, as JavaScript renders an integral `number` below 10^21 when it
  is interpolated into a template string or a JSX text node (`String(n)`), together with
  a parser that is its inverse. The parser exists to state what the rendering means:
  the text determines the number.
 */
module Decimal {
  import opened Wrappers

  predicate IsDigit(c: char) {
    '0' <= c <= '9'
  }

  predicate AllDigits(s: string) {
    forall i :: 0 <= i < |s| ==> IsDigit(s[i])
  }

  function DigitValue(c: char): (d: nat)
    requires IsDigit(c)
    ensures d < 10
  {
    c as int - '0' as int
  }

  function DigitChar(d: nat): (c: char)
    requires d < 10
    ensures IsDigit(c) && DigitValue(c) == d
  {
    ('0' as int + d) as char
  }

  /** Canonical decimal text of a natural number: digits only, no leading zero. */
  function NatToString(n: nat): (s: string)
    ensures |s| > 0 && AllDigits(s)
    ensures |s| > 1 ==> s[0] != '0'
    ensures n < 10 <==> |s| == 1
    decreases n
  {
    if n < 10 then [DigitChar(n)]
    else NatToString(n / 10) + [DigitChar(n % 10)]
  }

  /** The number a non-empty string of digits denotes. */
  function ParseNat(s: string): nat
    requires |s| > 0 && AllDigits(s)
    decreases |s|
  {
    if |s| == 1 then DigitValue(s[0])
    else ParseNat(s[..|s| - 1]) * 10 + DigitValue(s[|s| - 1])
  }

  /** Decimal text of an integer: a minus sign before the digits when negative. */
  function IntToString(i: int): (s: string)
    ensures |s| > 0
    ensures i < 0 <==> s[0] == '-'
    ensures forall k :: 0 <= k < |s| ==> s[k] != ' '
  {
    if i < 0 then "-" + NatToString(-i) else NatToString(i)
  }

  /** Reads back an optionally signed decimal integer; `None` for anything else. */
  function ParseInt(s: string): Option<int> {
    if |s| > 1 && s[0] == '-' && AllDigits(s[1..]) then Some(-(ParseNat(s[1..]) as int))
    else if |s| > 0 && AllDigits(s) then Some(ParseNat(s))
    else None
  }

  /** Parsing the rendered text of a natural number gives the number back. */
  lemma {:induction false} ParseNatOfNatToString(n: nat)
    ensures ParseNat(NatToString(n)) == n
    decreases n
  {
    if n >= 10 {
      var prefix := NatToString(n / 10);
      var s := NatToString(n);
      assert s == prefix + [DigitChar(n % 10)];
      assert s[..|s| - 1] == prefix;
      ParseNatOfNatToString(n / 10);
    }
  }

  /** Parsing the rendered text of an integer gives the integer back. */
  lemma ParseIntOfIntToString(i: int)
    ensures ParseInt(IntToString(i)) == Some(i)
  {
    var s := IntToString(i);
    if i < 0 {
      var digits := NatToString(-i);
      assert s == "-" + digits;
      assert s[1..] == digits;
      assert |s| > 1 && s[0] == '-' && AllDigits(s[1..]);
      ParseNatOfNatToString(-i);
    } else {
      assert s == NatToString(i);
      assert IsDigit(s[0]);
      ParseNatOfNatToString(i);
    }
  }

  /** Two integers render to the same text exactly when they are equal. */
  lemma IntToStringInjective(a: int, b: int)
    ensures IntToString(a) == IntToString(b) <==> a == b
  {
    if IntToString(a) == IntToString(b) {
      ParseIntOfIntToString(a);
      ParseIntOfIntToString(b);
    }
  }
}
