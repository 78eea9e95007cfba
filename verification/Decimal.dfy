/** Decimal rendering of natural numbers, most significant digit first and without padding. */
module Decimal {

  function DigitChar(d: nat): char
    requires d < 10
  {
    ('0' as int + d) as char
  }

  predicate IsDigit(c: char) {
    '0' <= c <= '9'
  }

  function Digits(n: nat): (s: string)
    ensures s != [] && forall c | c in s :: IsDigit(c)
  {
    if n < 10 then [DigitChar(n)] else Digits(n / 10) + [DigitChar(n % 10)]
  }

  /** Reads digits back. */
  function Value(s: string): nat
    requires forall c | c in s :: IsDigit(c)
  {
    if s == [] then 0
    else
      assert IsDigit(s[|s| - 1]);
      10 * Value(s[..|s| - 1]) + (s[|s| - 1] as int - '0' as int)
  }

  lemma {:induction false} ValueOfDigits(n: nat)
    ensures Value(Digits(n)) == n
  {
    if n >= 10 {
      ValueOfDigits(n / 10);
      assert Digits(n)[..|Digits(n)| - 1] == Digits(n / 10);
    }
  }

  lemma DigitsInjective(m: nat, n: nat)
    requires Digits(m) == Digits(n)
    ensures m == n
  {
    ValueOfDigits(m);
    ValueOfDigits(n);
  }

  /** Reading: nothing is 0, and each digit more counts one, after ten times what is before it. */
  lemma ValueOfNone()
    ensures Value("") == 0
  {
  }

  lemma ValueOfSnoc(s: string, c: char)
    requires (forall i | 0 <= i < |s| :: IsDigit(s[i])) && IsDigit(c)
    ensures Value(s + [c]) == 10 * Value(s) + (c as int - '0' as int)
  {
    assert (s + [c])[..|s|] == s;
  }

  /** A numeral without a leading zero, unless it is "0". */
  predicate IsNumeral(s: string) {
    && s != "" && (forall i | 0 <= i < |s| :: '0' <= s[i] <= '9')
    && (s[0] == '0' ==> s == "0")
  }

  predicate Reads(s: string, n: nat) {
    IsNumeral(s) && Value(s) == n
  }

  lemma {:induction false} DigitsAreNumeral(n: nat)
    ensures IsNumeral(Digits(n)) && (n > 0 ==> Digits(n)[0] != '0')
  {
    if n >= 10 {
      DigitsAreNumeral(n / 10);
    }
  }

  lemma {:induction false} NumeralValuePositive(s: string)
    requires IsNumeral(s) && s != "0"
    ensures Value(s) > 0
  {
    var n := |s| - 1;
    assert s == s[..n] + [s[n]];
    if n > 0 {
      NumeralValuePositive(s[..n]);
    }
  }

  /** The rendering of a number is the one numeral that reads as it. */
  lemma {:induction false} DigitsIsTheNumeral(s: string)
    requires IsNumeral(s)
    ensures Digits(Value(s)) == s
  {
    var n := |s| - 1;
    assert s == s[..n] + [s[n]];
    if n > 0 {
      NumeralValuePositive(s[..n]);
      DigitsIsTheNumeral(s[..n]);
    } else {
      assert s[..n] == "";
    }
  }

  lemma DigitsOfReading(s: string, n: nat)
    requires Reads(s, n)
    ensures Digits(n) == s
  {
    DigitsIsTheNumeral(s);
  }
}
