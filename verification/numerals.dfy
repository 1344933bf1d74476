/** Rendering integers as text, as the decimal and hexadecimal placeholders of the
    fmt library do: base-10 with a leading `-` for negative numbers, and
    lower-case base-16 without prefix. Every rendering has a parser as its
    partner, so that distinct numbers are proved to render differently. */
module Numerals {

  /** Value of a digit character in bases up to 16, or -1 for a non-digit. */
  function DigitValue(c: char): int
  {
    if '0' <= c <= '9' then c as int - '0' as int
    else if 'a' <= c <= 'f' then c as int - 'a' as int + 10
    else -1
  }

  function DigitChar(d: nat): (c: char)
    requires d < 16
    ensures DigitValue(c) == d
  {
    if d < 10 then ('0' as int + d) as char else ('a' as int + d - 10) as char
  }

  predicate AllDigits(s: string, base: nat)
  {
    forall i :: 0 <= i < |s| ==> 0 <= DigitValue(s[i]) < base
  }

  /** Most-significant-first digits of `n`, without leading zeros. */
  function ToDigits(n: nat, base: nat): (s: string)
    requires 2 <= base <= 16
    ensures |s| >= 1 && AllDigits(s, base)
    ensures |s| == 1 <==> n < base
    ensures n > 0 ==> s[0] != '0'
    decreases n
  {
    if n < base then [DigitChar(n)]
    else
      DivStep(n, base);
      ToDigits(n / base, base) + [DigitChar(n % base)]
  }

  lemma DivStep(n: nat, base: nat)
    requires 2 <= base <= n
    ensures 0 < n / base < n && n % base < base
    ensures n == n / base * base + n % base
  {
  }

  function FromDigits(s: string, base: nat): nat
    requires 2 <= base <= 16
    requires AllDigits(s, base)
  {
    if |s| == 0 then 0
    else FromDigits(s[..|s| - 1], base) * base + DigitValue(s[|s| - 1])
  }

  lemma {:induction false} FromToDigits(n: nat, base: nat)
    requires 2 <= base <= 16
    ensures FromDigits(ToDigits(n, base), base) == n
    decreases n
  {
    var s := ToDigits(n, base);
    if n >= base {
      DivStep(n, base);
      FromToDigits(n / base, base);
      assert s[..|s| - 1] == ToDigits(n / base, base);
      assert DigitValue(s[|s| - 1]) == n % base;
    }
  }

  lemma ToDigitsInjective(a: nat, b: nat, base: nat)
    requires 2 <= base <= 16
    ensures ToDigits(a, base) == ToDigits(b, base) ==> a == b
  {
    FromToDigits(a, base);
    FromToDigits(b, base);
  }

  /** `fmt::format("{}", n)` for an integer `n`. */
  function Decimal(n: int): (s: string)
    ensures |s| >= 1
    ensures s[0] == '-' <==> n < 0
    ensures '0' <= s[|s| - 1] <= '9'
  {
    var digits := ToDigits(if n < 0 then -n else n, 10);
    assert 0 <= DigitValue(digits[|digits| - 1]) < 10;
    if n < 0 then "-" + ToDigits(-n, 10) else ToDigits(n, 10)
  }

  /** Inverse of `Decimal` on its image. */
  function ParseDecimal(s: string): int
    requires |s| >= 1
    requires s[0] == '-' ==> AllDigits(s[1..], 10)
    requires s[0] != '-' ==> AllDigits(s, 10)
  {
    if s[0] == '-' then -(FromDigits(s[1..], 10) as int) else FromDigits(s, 10)
  }

  lemma DecimalRoundTrip(n: int)
    ensures ParseDecimal(Decimal(n)) == n
  {
    if n < 0 {
      FromToDigits(-n, 10);
      assert Decimal(n)[1..] == ToDigits(-n, 10);
    } else {
      FromToDigits(n, 10);
    }
  }

  lemma DecimalInjective(a: int, b: int)
    ensures Decimal(a) == Decimal(b) ==> a == b
  {
    if Decimal(a) == Decimal(b) {
      DecimalRoundTrip(a);
      DecimalRoundTrip(b);
    }
  }

  /** fmt's lower-case hexadecimal rendering of `n`. */
  function Hex(n: nat): (s: string)
    ensures |s| >= 1 && AllDigits(s, 16)
    ensures |s| == 1 <==> n < 16
  {
    ToDigits(n, 16)
  }
}
