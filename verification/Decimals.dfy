/** Decimal digits and the numbers they stand for. */
module Decimals {

  predicate IsDigit(c: char) {
    '0' <= c <= '9'
  }

  predicate AllDigits(s: string) {
    forall i :: 0 <= i < |s| ==> IsDigit(s[i])
  }

  /** The value of a run of decimal digits. */
  function Decimal(digits: string): int {
    if digits == [] then 0 else Decimal(digits[..|digits| - 1]) * 10 + (digits[|digits| - 1] as int - '0' as int)
  }

  function Digit(n: nat): char
    requires n < 10
  {
    (n + '0' as int) as char
  }

  function Pow10(k: nat): nat {
    if k == 0 then 1 else 10 * Pow10(k - 1)
  }

  /** The last `width` digits of a number, with leading zeros. */
  function Padded(n: nat, width: nat): (s: string)
    ensures |s| == width
    decreases width, n
  {
    if width == 0 then "" else Padded(n / 10, width - 1) + [Digit(n % 10)]
  }

  lemma {:induction false} PaddedRoundTrip(n: nat, width: nat)
    requires n < Pow10(width)
    ensures AllDigits(Padded(n, width)) && Decimal(Padded(n, width)) == n
    decreases width, n
  {
    if width > 0 {
      PaddedRoundTrip(n / 10, width - 1);
      assert Padded(n, width)[..width - 1] == Padded(n / 10, width - 1);
    }
  }

  lemma {:induction false} DecimalRoundTrip(s: string)
    requires AllDigits(s)
    ensures 0 <= Decimal(s) < Pow10(|s|) && Padded(Decimal(s), |s|) == s
    decreases |s|
  {
    if s != [] {
      var front, last := s[..|s| - 1], s[|s| - 1];
      DecimalRoundTrip(front);
      var n := Decimal(s);
      assert IsDigit(last);
      assert n / 10 == Decimal(front) && n % 10 == last as int - '0' as int;
      assert s == front + [last];
    }
  }

  function Digits(n: nat): string {
    if n < 10 then [Digit(n)] else Digits(n / 10) + [Digit(n % 10)]
  }

  lemma {:induction false} DigitsRoundTrip(n: nat)
    ensures Digits(n) != [] && AllDigits(Digits(n)) && Decimal(Digits(n)) == n
  {
    if n < 10 {
      assert Digits(n)[..0] == [];
    } else {
      DigitsRoundTrip(n / 10);
      assert Digits(n)[..|Digits(n)| - 1] == Digits(n / 10);
    }
  }
}
