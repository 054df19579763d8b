/** Decimal text of a non-negative row index, as Python's `str` writes an
    int: the digits most significant first, with no leading zero. It gives
    a row its display name when the table has no `label` column, and it
    forms the session-state key `cluster_{id + 1}`. */
module Decimal {

  /** The character of one decimal digit. */
  function Digit(d: nat): (ch: char)
    requires d < 10
    ensures '0' <= ch <= '9'
  {
    ('0' as int + d) as char
  }

  /** The value of a digit character (0 for any other character). */
  function DigitValue(ch: char): nat
  {
    if '0' <= ch <= '9' then ch as int - '0' as int else 0
  }

  /** `str(n)` for a non-negative int n. */
  function DecimalString(n: nat): (s: string)
    ensures 1 <= |s|
    ensures forall k :: 0 <= k < |s| ==> '0' <= s[k] <= '9'
    ensures |s| > 1 ==> s[0] != '0'
    decreases n
  {
    if n < 10 then [Digit(n)] else DecimalString(n / 10) + [Digit(n % 10)]
  }

  /** The number a string of decimal digits denotes, as `int(s)` reads it. */
  function DecimalValue(s: string): nat
    decreases |s|
  {
    if |s| == 0 then 0 else DecimalValue(s[..|s| - 1]) * 10 + DigitValue(s[|s| - 1])
  }

  /** Reading back the decimal text of n gives n. */
  lemma {:induction false} DecimalRoundTrip(n: nat)
    ensures DecimalValue(DecimalString(n)) == n
    decreases n
  {
    var s := DecimalString(n);
    if n < 10 {
      assert s[..|s| - 1] == [];
    } else {
      assert s[..|s| - 1] == DecimalString(n / 10);
      DecimalRoundTrip(n / 10);
    }
  }

  /** Distinct indices have distinct decimal texts. */
  lemma DecimalStringInjective(a: nat, b: nat)
    ensures DecimalString(a) == DecimalString(b) ==> a == b
  {
    DecimalRoundTrip(a);
    DecimalRoundTrip(b);
  }

  /** Non-empty digit text with no leading zero denotes at least 1 when it is longer than one digit. */
  lemma {:induction false} LeadingDigitPositive(s: string)
    requires 1 <= |s| && forall k :: 0 <= k < |s| ==> '0' <= s[k] <= '9'
    requires s[0] != '0'
    ensures 1 <= DecimalValue(s)
    decreases |s|
  {
    if |s| > 1 {
      var prefix := s[..|s| - 1];
      assert prefix[0] == s[0];
      LeadingDigitPositive(prefix);
    }
  }

  /** `str` is the only canonical spelling: digit text with no leading zero that reads back as n is `str(n)`. */
  lemma {:induction false} CanonicalDecimalUnique(s: string, n: nat)
    requires 1 <= |s| && forall k :: 0 <= k < |s| ==> '0' <= s[k] <= '9'
    requires |s| > 1 ==> s[0] != '0'
    requires DecimalValue(s) == n
    ensures s == DecimalString(n)
    decreases |s|
  {
    var prefix := s[..|s| - 1];
    if |s| == 1 {
      assert DecimalValue(prefix) == 0;
      assert s == [Digit(n)];
    } else {
      assert prefix[0] == s[0];
      LeadingDigitPositive(prefix);
      assert n / 10 == DecimalValue(prefix) && n % 10 == DigitValue(s[|s| - 1]);
      CanonicalDecimalUnique(prefix, n / 10);
      assert s == prefix + [s[|s| - 1]];
    }
  }
}
