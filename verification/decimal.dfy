/** Python's `str()` of an integer, the decimal text that the selector labels
    embed, together with the parser that inverts it. */
module Decimal {

  predicate IsDigit(c: char)
  {
    '0' <= c <= '9'
  }

  /** The value of a decimal digit character. */
  function DigitValue(c: char): (d: nat)
    requires IsDigit(c)
    ensures d < 10
  {
    c as int - '0' as int
  }

  /** The character of a decimal digit. */
  function DigitChar(d: nat): (c: char)
    requires d < 10
    ensures IsDigit(c) && DigitValue(c) == d
  {
    ('0' as int + d) as char
  }

  predicate AllDigits(s: string)
  {
    forall i :: 0 <= i < |s| ==> IsDigit(s[i])
  }

  /** The text `str(n)` prints for a non-negative integer: no sign, no leading zeros. */
  function NatStr(n: nat): (s: string)
    ensures |s| >= 1 && AllDigits(s)
    ensures |s| > 1 ==> s[0] != '0'
    decreases n
  {
    if n < 10 then [DigitChar(n)] else NatStr(n / 10) + [DigitChar(n % 10)]
  }

  /** The text of an integer in the form `str(x)` prints it. */
  predicate IsIntText(s: string)
  {
    || (|s| >= 1 && AllDigits(s))
    || (|s| >= 2 && s[0] == '-' && AllDigits(s[1..]))
  }

  /** `str(x)` for any integer: a minus sign before the magnitude when negative. */
  function Str(x: int): (s: string)
    ensures IsIntText(s)
    ensures forall i :: 0 <= i < |s| ==> s[i] == '-' || IsDigit(s[i])
  {
    if x < 0 then "-" + NatStr(-x) else NatStr(x)
  }

  /** `int(s)` on a string of digits. */
  function ParseNat(s: string): nat
    requires AllDigits(s)
  {
    if s == [] then 0 else ParseNat(s[..|s| - 1]) * 10 + DigitValue(s[|s| - 1])
  }

  /** `int(s)` on the text of an integer. */
  function ParseInt(s: string): int
    requires IsIntText(s)
  {
    if s[0] == '-' then var m: int := ParseNat(s[1..]); -m else ParseNat(s)
  }

  lemma {:induction false} NatStrRoundTrip(n: nat)
    ensures ParseNat(NatStr(n)) == n
    decreases n
  {
    if n >= 10 {
      NatStrRoundTrip(n / 10);
      var s := NatStr(n / 10);
      assert (s + [DigitChar(n % 10)])[..|s|] == s;
    }
  }

  /** Parsing what `str()` printed gives the integer back. */
  lemma StrRoundTrip(x: int)
    ensures ParseInt(Str(x)) == x
  {
    if x < 0 {
      NatStrRoundTrip(-x);
      assert Str(x)[1..] == NatStr(-x);
    } else {
      NatStrRoundTrip(x);
    }
  }

  /** Two integers print the same text exactly when they are equal. */
  lemma StrInjective(x: int, y: int)
    ensures Str(x) == Str(y) <==> x == y
  {
    StrRoundTrip(x);
    StrRoundTrip(y);
  }
}
