/**
 * Decimal digit strings as the job-control built-ins read them: `isdigit`
 * checks and the values `stoi`/`stol` give for all-digit strings, plus the
 * decimal rendering used when a number is printed.
 */
module Decimal {

  /** `numeric_limits<int>::max()` for the 32-bit `int` of the platform. */
  const IntMax: int := 2147483647
  /** The largest value `stol` returns on a 64-bit `long`. */
  const LongMax: int := 9223372036854775807

  predicate IsDigit(c: char) { '0' <= c <= '9' }

  predicate AllDigits(s: string) { forall i :: 0 <= i < |s| ==> IsDigit(s[i]) }

  function DigitValue(c: char): nat
    requires IsDigit(c)
  {
    (c as int) - ('0' as int)
  }

  function Pow10(n: nat): (p: nat)
    ensures p >= 1
  {
    if n == 0 then 1 else 10 * Pow10(n - 1)
  }

  /** The number an all-digit string denotes (leading zeros allowed), as `stoi`/`stol` read it. */
  function Value(s: string): nat
    requires AllDigits(s)
  {
    if s == [] then 0 else Value(s[..|s| - 1]) * 10 + DigitValue(s[|s| - 1])
  }

  /** A string of `k` digits denotes less than 10^k. */
  lemma {:induction false} ValueBound(s: string)
    requires AllDigits(s)
    ensures Value(s) < Pow10(|s|)
  {
    if s != [] {
      ValueBound(s[..|s| - 1]);
    }
  }

  lemma {:induction false} Pow10Split(a: nat, b: nat)
    ensures Pow10(a + b) == Pow10(a) * Pow10(b)
  {
    if a > 0 {
      Pow10Split(a - 1, b);
    }
  }

  lemma Pow10Values()
    ensures Pow10(2) == 100 && Pow10(10) == 10000000000
  {
    assert Pow10(2) == 100;
    assert Pow10(5) == 100000;
    assert Pow10(10) == Pow10(5) * 100000 by {
      Pow10Split(5, 5);
    }
  }

  lemma {:induction false} Pow10Monotone(a: nat, b: nat)
    requires a <= b
    ensures Pow10(a) <= Pow10(b)
    decreases b
  {
    if a < b {
      Pow10Monotone(a, b - 1);
    }
  }

  /** A digit string of at most ten characters, all `kill` lets through to `stol`, reads below 10^10 and so never overflows it. */
  lemma TenDigitsFitLong(s: string)
    requires AllDigits(s) && |s| <= 10
    ensures Value(s) < 10000000000 < LongMax
  {
    ValueBound(s);
    Pow10Monotone(|s|, 10);
    Pow10Values();
  }

  function DigitChar(d: nat): (c: char)
    requires d < 10
    ensures IsDigit(c) && DigitValue(c) == d
  {
    (('0' as int) + d) as char
  }

  /** The shortest decimal spelling of `n`: it reads back as `n` and starts with `0` only for 0 itself. */
  function ToDecimal(n: nat): (s: string)
    ensures s != [] && AllDigits(s) && Value(s) == n
    ensures s[0] == '0' <==> n == 0
  {
    if n < 10 then [DigitChar(n)]
    else
      var prefix := ToDecimal(n / 10);
      var s := prefix + [DigitChar(n % 10)];
      assert s[..|s| - 1] == prefix;
      s
  }

  /** A number below 10^k is spelled with at most k digits. */
  lemma {:induction false} ToDecimalLength(n: nat, k: nat)
    requires 1 <= k && n < Pow10(k)
    ensures |ToDecimal(n)| <= k
  {
    if n >= 10 {
      ToDecimalLength(n / 10, k - 1);
    }
  }

  /** How `cout << n` renders a signed integer. */
  function IntToString(i: int): (s: string)
  {
    if i < 0 then "-" + ToDecimal(-i) else ToDecimal(i)
  }
}
