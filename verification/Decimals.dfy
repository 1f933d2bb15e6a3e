/** Decimal numerals, and how many digits they have. */
module Decimals {

  function Decimal(n: nat): (s: string)
    ensures |s| >= 1
  {
    if n < 10 then [('0' as int + n) as char] else Decimal(n / 10) + [('0' as int + n % 10) as char]
  }

  function Digits(n: nat): nat {
    |Decimal(n)|
  }

  lemma {:induction false} DigitsMonotone(a: nat, b: nat)
    requires a <= b
    ensures Digits(a) <= Digits(b)
  {
    if b >= 10 && a >= 10 {
      DigitsMonotone(a / 10, b / 10);
    }
  }

  lemma {:induction false} DigitsBelow(n: nat)
    ensures n >= 10 ==> Digits(n) < n
    ensures Digits(n) == 1 || Digits(n) <= n
  {
    if n >= 10 {
      DigitsBelow(n / 10);
    }
  }

  lemma {:induction false} DecimalAscii(n: nat)
    ensures forall c :: c in Decimal(n) ==> c as int < 0x80
  {
    if n >= 10 {
      DecimalAscii(n / 10);
    }
  }

  /** One less has at most one digit less. */
  lemma {:induction false} DigitsBefore(n: nat)
    requires n > 0
    ensures Digits(n) <= Digits(n - 1) + 1
  {
    if n >= 20 {
      if n % 10 == 0 {
        DigitsBefore(n / 10);
      } else {
        assert (n - 1) / 10 == n / 10;
      }
    }
  }

  /** The number a text of digits denotes, most significant digit first. */
  function Value(digits: string): int {
    if digits == "" then 0
    else 10 * Value(digits[..|digits| - 1]) + (digits[|digits| - 1] as int - '0' as int)
  }

  /** The text is made of digits, denotes the number, and has no needless zero in front. */
  lemma {:induction false} DecimalIs(n: nat)
    ensures Value(Decimal(n)) == n && Decimal(n) != ""
    ensures forall i :: 0 <= i < |Decimal(n)| ==> '0' <= Decimal(n)[i] <= '9'
    ensures n > 0 ==> Decimal(n)[0] != '0'
  {
    var s := Decimal(n);
    if n < 10 {
      assert s[..0] == "";
    } else {
      DecimalIs(n / 10);
      assert s[..|s| - 1] == Decimal(n / 10);
    }
  }
}
