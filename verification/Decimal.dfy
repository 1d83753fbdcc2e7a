/** Invariant-culture decimal text. */
module Decimal {

  function DigitChar(d: nat): (c: char)
    requires d < 10
  {
    '0' + d as char
  }

  predicate IsDigit(c: char) {
    '0' <= c <= '9'
  }

  function DigitValue(c: char): nat
    requires IsDigit(c)
  {
    (c - '0') as nat
  }

  /** The decimal digits of n, without leading zeros. */
  function Digits(n: nat): (s: string)
    ensures s != [] && forall i :: 0 <= i < |s| ==> IsDigit(s[i])
  {
    if n < 10 then [DigitChar(n)] else Digits(n / 10) + [DigitChar(n % 10)]
  }

  function Value(s: string): nat
    requires forall i :: 0 <= i < |s| ==> IsDigit(s[i])
  {
    if s == [] then 0 else 10 * Value(s[..|s| - 1]) + DigitValue(s[|s| - 1])
  }

  /** The ten digits. */
  lemma DigitNames(c: char, d: nat)
    requires d < 10
    ensures IsDigit(c) <==> c in "0123456789"
    ensures IsDigit(c) && DigitValue(c) == d <==> c == "0123456789"[d]
  {
    var names := "0123456789";
    assert names[d] == '0' + d as char;
    if IsDigit(c) {
      assert names[(c - '0') as nat] == c;
    }
  }

  /** The meaning of a digit by its place: each further one makes the number ten times as large. */
  lemma ValueByPlace(s: string, c: char)
    requires IsDigit(c) && forall i :: 0 <= i < |s| ==> IsDigit(s[i])
    ensures Value([]) == 0
    ensures Value(s + [c]) == 10 * Value(s) + DigitValue(c)
  {
    assert (s + [c])[..|s|] == s;
  }

  /** No leading zeros. */
  lemma {:induction false} LeadingDigit(n: nat)
    ensures Digits(n)[0] == '0' <==> n == 0
  {
    if n >= 10 {
      LeadingDigit(n / 10);
    }
  }

  lemma {:induction false} ValueOfDigits(n: nat)
    ensures Value(Digits(n)) == n
  {
    if n >= 10 {
      ValueOfDigits(n / 10);
      assert Digits(n)[..|Digits(n)| - 1] == Digits(n / 10);
    }
  }

  /** Signed text: a minus sign in front of the digits of a negative number. */
  function IntText(z: int): (s: string)
    ensures s != [] && forall i :: 0 <= i < |s| ==> IsDigit(s[i]) || s[i] == '-'
  {
    if z < 0 then "-" + Digits(-z) else Digits(z)
  }

  lemma NegativeText(z: int)
    requires z < 0
    ensures IntText(z)[0] == '-' && IntText(z)[1..] == Digits(-z)
  {
  }

  lemma NaturalText(n: nat)
    ensures IntText(n) == Digits(n) && IntText(n)[0] != '-'
  {
  }

  lemma IntTextInjective(y: int, z: int)
    requires IntText(y) == IntText(z)
    ensures y == z
  {
    hide IntText, Digits, Value;
    if y < 0 { NegativeText(y); ValueOfDigits(-y); } else { NaturalText(y); ValueOfDigits(y); }
    if z < 0 { NegativeText(z); ValueOfDigits(-z); } else { NaturalText(z); ValueOfDigits(z); }
  }
}
