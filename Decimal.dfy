/** Decimal digits, as StringBuilder.append(int) prints an int. */
module Decimal {
  predicate IsDigit(c: char) {
    '0' <= c <= '9'
  }

  function DigitChar(n: int): (c: char)
    requires 0 <= n <= 9
    ensures IsDigit(c)
  {
    (('0' as int) + n) as char
  }

  function DigitValue(c: char): (n: int)
    requires IsDigit(c)
    ensures 0 <= n <= 9 && DigitChar(n) == c
  {
    (c as int) - ('0' as int)
  }

  predicate AllDigits(s: string) {
    forall i :: 0 <= i < |s| ==> IsDigit(s[i])
  }

  /** The number a string of digits spells, most significant digit first; the empty string spells 0. */
  function DigitsValue(s: string): (n: nat)
    requires AllDigits(s)
  {
    if s == [] then 0 else 10 * DigitsValue(s[..|s| - 1]) + DigitValue(s[|s| - 1])
  }

  /** Appending the digit e to a text multiplies its value by ten and adds e. */
  lemma DigitsValueAppend(s: string, e: int)
    requires AllDigits(s) && 0 <= e <= 9
    ensures AllDigits(s + [DigitChar(e)]) && DigitsValue(s + [DigitChar(e)]) == 10 * DigitsValue(s) + e
  {
    assert (s + [DigitChar(e)])[..|s|] == s;
  }

  function Pow10(k: nat): (p: nat)
    ensures p >= 1
  {
    if k == 0 then 1 else 10 * Pow10(k - 1)
  }

  /** The decimal digits of a natural number, most significant first, without leading zeros. */
  function NatText(n: nat): (s: string)
    ensures 1 <= |s| && (n >= 10 ==> 2 <= |s|)
    ensures IsDigit(s[0])
  {
    if n < 10 then [DigitChar(n)] else NatText(n / 10) + [DigitChar(n % 10)]
  }

  /** Reading the text of n back gives n, and the text has no leading zero. */
  lemma {:induction false} NatTextValue(n: nat)
    ensures AllDigits(NatText(n)) && DigitsValue(NatText(n)) == n
    ensures n != 0 ==> NatText(n)[0] != '0'
  {
    if n < 10 {
      assert DigitValue(DigitChar(n)) == n;
      assert [DigitChar(n)][..0] == [];
    } else {
      NatTextValue(n / 10);
      DigitsValueAppend(NatText(n / 10), n % 10);
    }
  }

  /** StringBuilder.append(int): a minus sign for negative numbers, then the digits. */
  function IntText(i: int): (s: string)
    ensures 1 <= |s| && (i <= -10 ==> 3 <= |s|)
    ensures i < 0 <==> s[0] == '-'
  {
    if i < 0 then "-" + NatText(-i) else NatText(i)
  }

  /** The four digits of 0..9999, leading zeros included. */
  function Digits4(n: int): string
    requires 0 <= n <= 9999
  {
    var r := n % 1000 % 100;
    [DigitChar(n / 1000), DigitChar(n % 1000 / 100), DigitChar(r / 10), DigitChar(r % 10)]
  }

  /** The two digits of 0..99, leading zero included. */
  function Digits2(n: int): string
    requires 0 <= n <= 99
  {
    [DigitChar(n / 10), DigitChar(n % 10)]
  }

  /** Appending a digit e to the number m appends its character to the text. */
  lemma NatTextStep(m: nat, e: int)
    requires 1 <= m && 0 <= e <= 9
    ensures NatText(10 * m + e) == NatText(m) + [DigitChar(e)]
  {
    assert (10 * m + e) / 10 == m && (10 * m + e) % 10 == e;
  }

  lemma NatTextOfTwoDigits(a: int, b: int)
    requires 1 <= a <= 9 && 0 <= b <= 9
    ensures NatText(10 * a + b) == [DigitChar(a), DigitChar(b)]
  {
    NatTextStep(a, b);
  }

  lemma NatTextOfThreeDigits(ab: int, a: int, b: int, c: int)
    requires 1 <= a <= 9 && 0 <= b <= 9 && 0 <= c <= 9 && ab == 10 * a + b
    ensures NatText(10 * ab + c) == [DigitChar(a), DigitChar(b), DigitChar(c)]
  {
    NatTextOfTwoDigits(a, b);
    NatTextStep(ab, c);
  }

  /** A number with the digits a, b, c, e (a not zero) is printed as exactly those four digits. */
  lemma NatTextOfFourDigits(abc: int, ab: int, a: int, b: int, c: int, e: int)
    requires 1 <= a <= 9 && 0 <= b <= 9 && 0 <= c <= 9 && 0 <= e <= 9
    requires ab == 10 * a + b && abc == 10 * ab + c
    ensures NatText(10 * abc + e) == [DigitChar(a), DigitChar(b), DigitChar(c), DigitChar(e)]
  {
    NatTextOfThreeDigits(ab, a, b, c);
    NatTextStep(abc, e);
  }

  /** Digits4 takes a number apart into the digits it is made of. */
  lemma Digits4Decompose(n: int)
    requires 0 <= n <= 9999
    ensures var r := n % 1000 % 100;
      n == 10 * (10 * (10 * (n / 1000) + n % 1000 / 100) + r / 10) + r % 10
      && 0 <= n / 1000 <= 9 && 0 <= n % 1000 / 100 <= 9
  {
  }

  /** Conversely, the four digits of the number with digits a, b, c, e are a, b, c and e. */
  lemma Digits4Compose(a: int, b: int, c: int, e: int)
    requires 0 <= a <= 9 && 0 <= b <= 9 && 0 <= c <= 9 && 0 <= e <= 9
    ensures Digits4(1000 * a + 100 * b + 10 * c + e) == [DigitChar(a), DigitChar(b), DigitChar(c), DigitChar(e)]
  {
    var n := 1000 * a + 100 * b + 10 * c + e;
    assert n / 1000 == a && n % 1000 == 100 * b + 10 * c + e;
    assert (100 * b + 10 * c + e) / 100 == b && (100 * b + 10 * c + e) % 100 == 10 * c + e;
    assert (10 * c + e) / 10 == c && (10 * c + e) % 10 == e;
  }

  /** Reading the four digits back gives the number. */
  lemma Digits4Value(n: int)
    requires 0 <= n <= 9999
    ensures var t := Digits4(n);
      DigitValue(t[0]) * 1000 + DigitValue(t[1]) * 100 + DigitValue(t[2]) * 10 + DigitValue(t[3]) == n
  {
    Digits4Decompose(n);
  }

  /** Reading the two digits back gives the number. */
  lemma Digits2Value(n: int)
    requires 0 <= n <= 99
    ensures DigitValue(Digits2(n)[0]) * 10 + DigitValue(Digits2(n)[1]) == n
  {
  }

  /** The month or day field of ISO text: "-0" and one digit below 10, "-" and two digits above. */
  lemma TwoDigitField(n: int)
    requires 1 <= n <= 31
    ensures (if n < 10 then "-0" else "-") + IntText(n) == ['-'] + Digits2(n)
  {
    if n < 10 {
      assert IntText(n) == [DigitChar(n)];
      assert Digits2(n) == [DigitChar(0), DigitChar(n)];
    } else {
      NatTextOfTwoDigits(n / 10, n % 10);
    }
  }

  /** The year field of ISO text for a year 0..9999: its four digits. */
  lemma YearField(y: int)
    requires 0 <= y <= 9999
    ensures y < 1000 ==> IntText(y + 10000)[1..] == Digits4(y)
    ensures 1000 <= y ==> IntText(y) == Digits4(y)
  {
    if y < 1000 {
      PaddedYearField(y);
    } else {
      Digits4Decompose(y);
      var r := y % 1000 % 100;
      NatTextOfFourDigits(10 * (10 * (y / 1000) + y % 1000 / 100) + r / 10, 10 * (y / 1000) + y % 1000 / 100,
        y / 1000, y % 1000 / 100, r / 10, r % 10);
    }
  }

  /** A year below 1000 is printed after 10000 is added, so that its leading zeros appear. */
  lemma PaddedYearField(y: int)
    requires 0 <= y < 1000
    ensures IntText(y + 10000)[1..] == Digits4(y)
  {
    Digits4Decompose(y);
    var r := y % 1000 % 100;
    var a, b, c, e := y / 1000, y % 1000 / 100, r / 10, r % 10;
    var ab, abc := 10 + a, 10 * (10 + a) + b;
    NatTextOfFourDigits(abc, ab, 1, a, b, c);
    var m := 10 * abc + c;
    NatTextStep(m, e);
    assert 10 * m + e == y + 10000;
  }
}
