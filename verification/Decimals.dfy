/** Numbers in decimal, as the program prints them, and what they read back as. */
module Decimals {

  function Digit(n: nat): char
    requires n < 10
  {
    "0123456789"[n]
  }

  /** The last `width` decimal digits of `v`, with leading zeros. */
  function Padded(v: nat, width: nat): (s: string)
    ensures |s| == width
  {
    if width == 0 then "" else Padded(v / 10, width - 1) + [Digit(v % 10)]
  }

  function Decimal(n: nat): string {
    if n < 10 then [Digit(n)] else Decimal(n / 10) + [Digit(n % 10)]
  }

  function Signed(n: int): string {
    if n < 0 then "-" + Decimal(-n) else Decimal(n)
  }

  function DecimalValue(digits: string): int {
    if digits == "" then 0
    else DecimalValue(digits[..|digits| - 1]) * 10 + (digits[|digits| - 1] as int - '0' as int)
  }

  function PowerOfTen(n: nat): nat {
    if n == 0 then 1 else 10 * PowerOfTen(n - 1)
  }

  lemma {:induction false} PaddedValue(v: nat, width: nat)
    requires v < PowerOfTen(width)
    ensures DecimalValue(Padded(v, width)) == v
    decreases width
  {
    if width > 0 {
      PaddedValue(v / 10, width - 1);
      var s := Padded(v, width);
      assert s[..width - 1] == Padded(v / 10, width - 1);
      assert s[width - 1] as int - '0' as int == v % 10;
    }
  }

  predicate IsDigit(c: char) {
    '0' <= c <= '9'
  }

  /** A number is printed in digits that read back as it, without leading zeros. */
  lemma {:induction false} DecimalReadsBack(n: nat)
    ensures Decimal(n) != "" && DecimalValue(Decimal(n)) == n && forall c | c in Decimal(n) :: IsDigit(c)
    ensures n > 0 ==> Decimal(n)[0] != '0'
  {
    if n >= 10 {
      DecimalReadsBack(n / 10);
      var s := Decimal(n);
      assert s[..|s| - 1] == Decimal(n / 10) && s[|s| - 1] as int - '0' as int == n % 10;
    } else {
      assert Decimal(n)[..0] == "";
    }
  }

  function SignedValue(s: string): int {
    if s != "" && s[0] == '-' then -DecimalValue(s[1..]) else DecimalValue(s)
  }

  lemma SignedReadsBack(n: int)
    ensures SignedValue(Signed(n)) == n
  {
    DecimalReadsBack(if n < 0 then -n else n);
    assert n < 0 ==> Signed(n)[1..] == Decimal(-n);
    assert n >= 0 ==> Signed(n)[0] in Decimal(n);
  }
}
