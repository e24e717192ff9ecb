/** The `{}` rendering of integers (Rust's `Display` for `i32`, `u32` and
    `usize`): an optional minus sign followed by the shortest decimal digits.
    Its partner is the parser `ParseInt`, and the two round-trip. */
module Decimal {

  predicate IsDigit(c: char) {
    '0' <= c <= '9'
  }

  predicate AllDigits(s: string) {
    forall i :: 0 <= i < |s| ==> IsDigit(s[i])
  }

  /** The shape of an integer's text: digits, possibly after one leading '-'. */
  predicate IsIntText(s: string) {
    if |s| > 0 && s[0] == '-' then |s| > 1 && AllDigits(s[1..]) else |s| > 0 && AllDigits(s)
  }

  function DigitChar(v: nat): (c: char)
    requires v < 10
    ensures IsDigit(c)
  {
    ('0' as int + v) as char
  }

  function DigitValue(c: char): (v: nat)
    requires IsDigit(c)
    ensures v < 10 && DigitChar(v) == c
  {
    c as int - '0' as int
  }

  /** Decimal digits of n, most significant first, without leading zeros. */
  function NatToString(n: nat): (s: string)
    ensures |s| >= 1 && AllDigits(s)
    ensures |s| > 1 ==> s[0] != '0'
    decreases n
  {
    if n < 10 then [DigitChar(n)] else NatToString(n / 10) + [DigitChar(n % 10)]
  }

  /** Rust's `{}` of a signed integer. */
  function IntToString(n: int): (s: string)
    ensures IsIntText(s)
    ensures s[0] == '-' <==> n < 0
  {
    if n < 0 then "-" + NatToString(-n) else NatToString(n)
  }

  function ParseNat(s: string): nat
    requires AllDigits(s)
  {
    if s == [] then 0 else ParseNat(s[..|s| - 1]) * 10 + DigitValue(s[|s| - 1])
  }

  function ParseInt(s: string): int
    requires IsIntText(s)
  {
    if s[0] == '-' then -(ParseNat(s[1..]) as int) else ParseNat(s)
  }

  lemma {:induction false} ParseNatToString(n: nat)
    ensures ParseNat(NatToString(n)) == n
    decreases n
  {
    var s := NatToString(n);
    if n >= 10 {
      ParseNatToString(n / 10);
      assert s[..|s| - 1] == NatToString(n / 10);
    }
  }

  /** Parsing the text of any integer gives that integer back. */
  lemma ParseIntToString(n: int)
    ensures ParseInt(IntToString(n)) == n
  {
    var s := IntToString(n);
    if n < 0 {
      ParseNatToString(-n);
      assert s[1..] == NatToString(-n);
    } else {
      ParseNatToString(n);
    }
  }

  /** Distinct integers are rendered as distinct texts. */
  lemma IntToStringInjective(a: int, b: int)
    requires IntToString(a) == IntToString(b)
    ensures a == b
  {
    ParseIntToString(a);
    ParseIntToString(b);
  }

  /** The index of the first non-digit of s at or after i (|s| if none). */
  function DigitsEnd(s: string, i: nat): (j: nat)
    requires i <= |s|
    ensures i <= j <= |s|
    decreases |s| - i
  {
    if i == |s| || !IsDigit(s[i]) then i else DigitsEnd(s, i + 1)
  }

  lemma {:induction false} DigitsEndOfIntText(a: string, rest: string, i: nat)
    requires IsIntText(a) && 1 <= i <= |a|
    requires |rest| > 0 && !IsDigit(rest[0])
    ensures DigitsEnd(a + rest, i) == |a|
    decreases |a| - i
  {
    var s := a + rest;
    if i < |a| {
      assert s[i] == a[1..][i - 1];
      DigitsEndOfIntText(a, rest, i + 1);
    } else {
      assert s[i] == rest[0];
    }
  }

  /** When an integer's text is followed by text that does not start with a
      digit, the integer's text ends exactly there: the split of `a + rest`
      is unique. */
  lemma IntTextSplit(a1: string, rest1: string, a2: string, rest2: string)
    requires IsIntText(a1) && IsIntText(a2)
    requires |rest1| > 0 && !IsDigit(rest1[0])
    requires |rest2| > 0 && !IsDigit(rest2[0])
    requires a1 + rest1 == a2 + rest2
    ensures a1 == a2 && rest1 == rest2
  {
    var s := a1 + rest1;
    DigitsEndOfIntText(a1, rest1, 1);
    DigitsEndOfIntText(a2, rest2, 1);
    assert a1 == s[..|a1|] == a2;
    assert rest1 == s[|a1|..] == rest2;
  }
}
