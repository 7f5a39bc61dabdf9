/** Decimal printing of natural numbers and its inverse. */
module Decimal {
  const DIGITS: string := "0123456789"

  predicate IsDigit(c: char) {
    '0' <= c <= '9'
  }

  predicate AllDigits(s: string) {
    forall i :: 0 <= i < |s| ==> IsDigit(s[i])
  }

  function DigitValue(c: char): (v: nat)
    requires IsDigit(c)
    ensures v < 10 && DIGITS[v] == c
  {
    c as int - '0' as int
  }

  function Print(n: nat): (s: string)
    ensures s != [] && AllDigits(s)
    ensures s[0] == '0' <==> n == 0
    ensures n == 0 ==> s == "0"
  {
    if n < 10 then [DIGITS[n]] else Print(n / 10) + [DIGITS[n % 10]]
  }

  function Parse(s: string): nat
    requires AllDigits(s)
  {
    if s == [] then 0 else 10 * Parse(s[..|s| - 1]) + DigitValue(s[|s| - 1])
  }

  lemma {:induction false} ParsePrint(n: nat)
    ensures Parse(Print(n)) == n
  {
    if n < 10 {
      assert DigitValue(DIGITS[n]) == n;
    } else {
      var s := Print(n);
      assert s[..|s| - 1] == Print(n / 10);
      assert DigitValue(DIGITS[n % 10]) == n % 10;
      ParsePrint(n / 10);
    }
  }

  lemma PrintInjective(m: nat, n: nat)
    requires Print(m) == Print(n)
    ensures m == n
  {
    ParsePrint(m);
    ParsePrint(n);
  }

  // Digit text without a leading zero is the printed form of its value.
  lemma {:induction false} PrintParse(s: string)
    requires s != [] && AllDigits(s)
    requires s[0] != '0' || s == "0"
    ensures Print(Parse(s)) == s
  {
    var front, last := s[..|s| - 1], s[|s| - 1];
    if front == [] {
      assert s == [last];
    } else {
      assert front[0] == s[0];
      PrintParse(front);
      assert Parse(front) != 0;
      assert Parse(s) / 10 == Parse(front) && Parse(s) % 10 == DigitValue(last);
      assert s == front + [last];
    }
  }
}
