/** Decimal digit strings: `parseInt(s, 10)` on a run of ASCII digits and
    `String(n)` on a non-negative integer. */
module Decimal {

  predicate IsDigit(c: char) {
    '0' <= c <= '9'
  }

  predicate AllDigits(s: string) {
    forall i :: 0 <= i < |s| ==> IsDigit(s[i])
  }

  /** A digit string as `String(n)` writes it: non-empty, and no leading zero
      unless it is "0". */
  predicate Canonical(s: string) {
    |s| > 0 && AllDigits(s) && (s[0] == '0' ==> |s| == 1)
  }

  function DigitValue(c: char): nat
    requires IsDigit(c)
  {
    c as int - '0' as int
  }

  function DigitChar(d: nat): (c: char)
    requires d < 10
    ensures IsDigit(c) && DigitValue(c) == d
  {
    ('0' as int + d) as char
  }

  /** `parseInt(s, 10)` on a string of digits (the empty string has value 0). */
  function Value(s: string): nat
    requires AllDigits(s)
  {
    if s == [] then 0 else Value(s[..|s| - 1]) * 10 + DigitValue(s[|s| - 1])
  }

  /** `String(n)` for a non-negative integer. */
  function Show(n: nat): (s: string)
    ensures Canonical(s)
    ensures s[0] == '0' ==> n == 0
  {
    if n < 10 then [DigitChar(n)] else Show(n / 10) + [DigitChar(n % 10)]
  }

  /** `String(i)` for any integer. */
  function ShowInt(i: int): string {
    if i < 0 then "-" + Show(-i) else Show(i)
  }

  /** Reading back what `Show` writes gives the number. */
  lemma {:induction false} ValueShow(n: nat)
    ensures Value(Show(n)) == n
  {
    if n >= 10 {
      ValueShow(n / 10);
      var s := Show(n);
      assert s[..|s| - 1] == Show(n / 10);
    }
  }

  /** A digit string with a non-zero first digit has a positive value. */
  lemma {:induction false} ValuePositive(s: string)
    requires |s| > 0 && AllDigits(s) && s[0] != '0'
    ensures Value(s) > 0
  {
    if |s| > 1 {
      ValuePositive(s[..|s| - 1]);
    }
  }

  /** Writing out the value of a canonical digit string gives back the string. */
  lemma {:induction false} ShowValue(s: string)
    requires Canonical(s)
    ensures Show(Value(s)) == s
  {
    if |s| == 1 {
      assert [DigitChar(DigitValue(s[0]))] == s;
    } else {
      var init := s[..|s| - 1];
      ValuePositive(init);
      ShowValue(init);
      assert init + [s[|s| - 1]] == s;
    }
  }
}
