/** Decimal numerals: the reference that the integer formatter and the file names are held against. */
module Decimal {
  import opened Powers

  predicate IsDigit(c: char) {
    '0' <= c <= '9'
  }

  function DigitValue(c: char): (d: nat)
    requires IsDigit(c)
    ensures d < 10
  {
    c as int - '0' as int
  }

  function Digit(d: nat): (c: char)
    requires d < 10
    ensures IsDigit(c) && DigitValue(c) == d
  {
    ('0' as int + d) as char
  }

  predicate IsNumeral(s: string) {
    forall k :: 0 <= k < |s| ==> IsDigit(s[k])
  }

  /** The shortest decimal numeral of `n`. */
  function Numeral(n: nat): (s: string)
    ensures |s| >= 1 && IsNumeral(s)
  {
    if n < 10 then [Digit(n)] else Numeral(n / 10) + [Digit(n % 10)]
  }

  function Value(s: string): nat
    requires IsNumeral(s)
  {
    if s == "" then 0 else Value(s[..|s| - 1]) * 10 + DigitValue(s[|s| - 1])
  }

  lemma ValueLast(s: string, c: char)
    requires IsNumeral(s) && IsDigit(c)
    ensures IsNumeral(s + [c]) && Value(s + [c]) == Value(s) * 10 + DigitValue(c)
  {
    assert (s + [c])[..|s|] == s;
  }

  lemma {:induction false} ValueOfNumeral(n: nat)
    ensures Value(Numeral(n)) == n
  {
    if n < 10 {
      ValueLast("", Digit(n));
      assert "" + [Digit(n)] == [Digit(n)];
    } else {
      ValueOfNumeral(n / 10);
      ValueLast(Numeral(n / 10), Digit(n % 10));
    }
  }

  lemma NumeralInjective(m: nat, n: nat)
    requires Numeral(m) == Numeral(n)
    ensures m == n
  {
    ValueOfNumeral(m);
    ValueOfNumeral(n);
  }

  /** Only 0 has a numeral that starts with '0'. */
  lemma {:induction false} NoLeadingZero(n: nat)
    ensures Numeral(n)[0] == '0' <==> n == 0
  {
    if n >= 10 {
      NoLeadingZero(n / 10);
    }
  }

  /** The numeral of `n` has `k` digits exactly when n lies between two powers of ten. */
  lemma {:induction false} NumeralLength(n: nat, k: nat)
    requires k >= 1
    ensures |Numeral(n)| == k <==> (k == 1 || Pow10(k - 1) <= n) && n < Pow10(k)
  {
    if k == 1 {
      assert Pow10(1) == 10;
    } else if n >= 10 {
      NumeralLength(n / 10, k - 1);
      assert n == 10 * (n / 10) + n % 10;
      assert k > 2 ==> (Pow10(k - 1) <= n <==> Pow10(k - 2) <= n / 10);
      assert k == 2 ==> Pow10(k - 1) == 10 * Pow10(0);
      assert n < Pow10(k) <==> n / 10 < Pow10(k - 1);
    } else {
      assert Pow10(k - 1) == 10 * Pow10(k - 2);
    }
  }
}
