/** Decimal numerals, as `std::to_string` and `printf("%lu")` write them. */
module Decimal {

  predicate IsDigit(c: char) { '0' <= c <= '9' }

  predicate AllDigits(s: string) { forall i :: 0 <= i < |s| ==> IsDigit(s[i]) }

  function DigitChar(d: nat): char
    requires d < 10
  {
    "0123456789"[d]
  }

  function DigitValue(c: char): nat
    requires IsDigit(c)
  {
    c as int - '0' as int
  }

  function Digits(n: nat): (s: string)
    ensures s != ""
  {
    if n < 10 then [DigitChar(n)] else Digits(n / 10) + [DigitChar(n % 10)]
  }

  /** The number a text of digits stands for; 0 for the empty one. */
  function Value(s: string): nat
    requires AllDigits(s)
  {
    if s == "" then 0 else 10 * Value(s[..|s| - 1]) + DigitValue(s[|s| - 1])
  }

  lemma {:induction false} DigitsAreDigits(n: nat)
    ensures AllDigits(Digits(n)) && Value(Digits(n)) == n
  {
    hide Value, DigitValue, DigitChar, IsDigit;
    CharOfDigit(n % 10);
    if n >= 10 {
      DigitsAreDigits(n / 10);
      ValueSnoc(Digits(n / 10), DigitChar(n % 10));
    } else {
      ValueOfNothing();
      ValueSnoc("", DigitChar(n));
      assert "" + [DigitChar(n)] == [DigitChar(n)];
    }
  }

  /** A number is written digit by digit, the units last; the digits are the bytes from 48 on. */
  lemma TensAndUnits(n: nat, d: nat)
    requires d < 10
    ensures Digits(d) == [(48 + d) as char]
    ensures n > 0 ==> Digits(10 * n + d) == Digits(n) + [(48 + d) as char]
  {
    hide DigitChar;
    var m := 10 * n + d;
    assert DigitChar(d) == (48 + d) as char by { CharCode(d); }
    assert m / 10 == n && m % 10 == d;
  }

  lemma CharCode(d: nat)
    requires d < 10
    ensures DigitChar(d) == (48 + d) as char
  {}

  lemma CharOfDigit(d: nat)
    requires d < 10
    ensures IsDigit(DigitChar(d)) && DigitValue(DigitChar(d)) == d
  {}

  lemma ValueOfNothing()
    ensures Value("") == 0
  {}

  /** One more digit at the end. */
  lemma ValueSnoc(s: string, c: char)
    requires AllDigits(s) && IsDigit(c)
    ensures AllDigits(s + [c]) && Value(s + [c]) == 10 * Value(s) + DigitValue(c)
  {
    assert (s + [c])[..|s|] == s;
  }

  /** How many characters at the front of `s` are digits. */
  function DigitRun(s: string): (n: nat)
    ensures n <= |s|
  {
    if s != "" && IsDigit(s[0]) then 1 + DigitRun(s[1..]) else 0
  }

  lemma {:induction false} DigitRunIs(s: string, n: nat)
    requires n <= |s| && AllDigits(s[..n]) && (n < |s| ==> !IsDigit(s[n]))
    ensures DigitRun(s) == n
  {
    if n > 0 {
      assert IsDigit(s[..n][0]);
      assert s[1..][..n - 1] == s[..n][1..];
      DigitRunIs(s[1..], n - 1);
    }
  }

  lemma {:induction false} DigitRunDigits(s: string)
    ensures AllDigits(s[..DigitRun(s)])
    ensures DigitRun(s) < |s| ==> !IsDigit(s[DigitRun(s)])
  {
    if s != "" && IsDigit(s[0]) {
      DigitRunDigits(s[1..]);
      var n := DigitRun(s[1..]);
      var front := s[..n + 1];
      forall i | 0 <= i < |front| ensures IsDigit(front[i]) {
        if i > 0 { assert front[i] == s[1..][..n][i - 1]; }
      }
    }
  }
}
