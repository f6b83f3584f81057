/** Base-10 digit strings, as the regular expression `\d` and JavaScript's
    `parseInt(text, 10)` read them: ASCII digits only, any number of
    leading zeros, and an unbounded value. */
module Decimal {

  predicate IsDigit(c: char) {
    '0' <= c <= '9'
  }

  /** `^\d*$`: every character is a digit (the empty string included). */
  predicate AllDigits(s: string) {
    forall i :: 0 <= i < |s| ==> IsDigit(s[i])
  }

  /** `^\d+$`: one or more digits and nothing else. */
  predicate IsDigits(s: string) {
    |s| > 0 && AllDigits(s)
  }

  /** The base-10 value of a digit string. */
  function DecimalValue(s: string): (n: nat)
    requires AllDigits(s)
    decreases |s|
  {
    if |s| == 0 then 0
    else DecimalValue(s[..|s| - 1]) * 10 + (s[|s| - 1] as int - '0' as int)
  }

  /** The character of a single digit. */
  function DigitChar(d: nat): (c: char)
    requires d < 10
    ensures IsDigit(c) && c as int - '0' as int == d
  {
    ('0' as int + d) as char
  }

  /** The shortest base-10 text of `n` (no leading zeros), as JavaScript's
      `String(n)` writes a non-negative integer. Reading it back gives `n`. */
  function NatToDigits(n: nat): (s: string)
    ensures IsDigits(s)
    ensures DecimalValue(s) == n
    ensures s[0] == '0' <==> n == 0
    decreases n
  {
    if n < 10 then [DigitChar(n)]
    else
      var high := NatToDigits(n / 10);
      var s := high + [DigitChar(n % 10)];
      assert s[..|s| - 1] == high && s[0] == high[0];
      s
  }
}
