/** Decimal numerals as output streams print them and the parsers read them. */
module Decimal {
  predicate IsDigit(c: char) {
    '0' <= c <= '9'
  }

  function DigitValue(c: char): int {
    c as int - '0' as int
  }

  function DigitChar(d: int): (c: char)
    requires 0 <= d < 10
    ensures IsDigit(c) && DigitValue(c) == d
  {
    ('0' as int + d) as char
  }

  /** How a stream prints a non-negative integer. */
  function Digits(n: nat): (s: string)
    ensures |s| > 0 && forall i :: 0 <= i < |s| ==> IsDigit(s[i])
  {
    if n < 10 then [DigitChar(n)] else Digits(n / 10) + [DigitChar(n % 10)]
  }

  function Printed(n: int): string {
    if n < 0 then "-" + Digits(-n) else Digits(n)
  }

  /** The value read digit by digit, starting from an accumulator. */
  function ReadDigits(acc: int, s: string): int
    decreases |s|
  {
    if s == [] then acc else ReadDigits(acc * 10 + DigitValue(s[0]), s[1..])
  }

  lemma {:induction false} ReadDigitsAppend(acc: int, s: string, c: char)
    ensures ReadDigits(acc, s + [c]) == ReadDigits(acc, s) * 10 + DigitValue(c)
    decreases |s|
  {
    if s == [] {
      assert ([] + [c])[1..] == [];
    } else {
      assert (s + [c])[1..] == s[1..] + [c];
      ReadDigitsAppend(acc * 10 + DigitValue(s[0]), s[1..], c);
    }
  }

  /** Reading a printed number gives it back. */
  lemma {:induction false} ReadPrinted(n: nat)
    ensures ReadDigits(0, Digits(n)) == n
    ensures n > 0 ==> Digits(n)[0] != '0'
    decreases n
  {
    if n < 10 {
      assert [DigitChar(n)][1..] == [];
    } else {
      ReadPrinted(n / 10);
      ReadDigitsAppend(0, Digits(n / 10), DigitChar(n % 10));
    }
  }

  /** Reading on never makes the value smaller, so no part of a numeral reads
      as more than the whole. */
  lemma {:induction false} ReadDigitsGrows(acc: nat, s: string, k: nat)
    requires k <= |s| && forall i :: 0 <= i < |s| ==> IsDigit(s[i])
    ensures 0 <= ReadDigits(acc, s[..k]) <= ReadDigits(acc, s)
    decreases |s|
  {
    if k == 0 {
      AtLeast(acc, s);
    } else {
      assert s[..k][1..] == s[1..][..k - 1];
      ReadDigitsGrows(acc * 10 + DigitValue(s[0]), s[1..], k - 1);
    }
  }

  lemma {:induction false} AtLeast(acc: nat, s: string)
    requires forall i :: 0 <= i < |s| ==> IsDigit(s[i])
    ensures ReadDigits(acc, s) >= acc
    decreases |s|
  {
    if s == [] {
    } else {
      AtLeast(acc * 10 + DigitValue(s[0]), s[1..]);
    }
  }
}
