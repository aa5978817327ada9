/**
 Decimal rendering of integers, as every f-string and every JSON number of the
 program produces it, together with the reader that undoes it.
 */
module Decimal {

  predicate IsDigit(c: char) { '0' <= c <= '9' }

  predicate AllDigits(s: string) { forall i :: 0 <= i < |s| ==> IsDigit(s[i]) }

  function Digit(d: int): (c: char)
    requires 0 <= d < 10
    ensures IsDigit(c)
  {
    (d + '0' as int) as char
  }

  function DigitValue(c: char): (d: int)
    requires IsDigit(c)
    ensures 0 <= d < 10 && Digit(d) == c
  {
    c as int - '0' as int
  }

  function PrintNat(n: nat): (s: string)
    ensures |s| >= 1 && AllDigits(s)
  {
    if n < 10 then [Digit(n)] else PrintNat(n / 10) + [Digit(n % 10)]
  }

  function PrintInt(n: int): string {
    if n < 0 then "-" + PrintNat(-n) else PrintNat(n)
  }

  /** The value of a run of digits, most significant digit first. */
  function ReadDigits(s: string): nat
    requires AllDigits(s)
  {
    if s == [] then 0 else ReadDigits(s[..|s| - 1]) * 10 + DigitValue(s[|s| - 1])
  }

  lemma {:induction false} ReadPrintedNat(n: nat)
    ensures ReadDigits(PrintNat(n)) == n
    ensures PrintNat(n)[0] == '0' ==> n == 0
    ensures n == 0 ==> PrintNat(n) == "0"
  {
    if n < 10 {
      assert PrintNat(n)[..0] == [];
      assert DigitValue(Digit(n)) == n;
    } else {
      ReadPrintedNat(n / 10);
      assert PrintNat(n)[..|PrintNat(n)| - 1] == PrintNat(n / 10);
    }
  }

  /** The integer a printed form stands for. */
  function ReadSigned(s: string): int
    requires s != [] && AllDigits(if s[0] == '-' then s[1..] else s)
  {
    if s[0] == '-' then 0 - ReadDigits(s[1..]) else ReadDigits(s)
  }

  lemma ReadPrintedSigned(n: int)
    ensures PrintInt(n) != [] && (PrintInt(n)[0] == '-' <==> n < 0)
    ensures AllDigits(if n < 0 then PrintInt(n)[1..] else PrintInt(n))
    ensures ReadSigned(PrintInt(n)) == n
  {
    if n < 0 {
      assert PrintInt(n)[1..] == PrintNat(-n);
      ReadPrintedNat(-n);
    } else {
      assert IsDigit(PrintNat(n)[0]);
      ReadPrintedNat(n);
    }
  }

  /** Positional notation: the last digit is the remainder by ten, and a sign precedes the digits. */
  lemma PrintedDigits(n: nat)
    ensures n < 10 ==> PrintNat(n) == ["0123456789"[n]]
    ensures n >= 10 ==> PrintNat(n) == PrintNat(n / 10) + ["0123456789"[n % 10]]
    ensures n > 0 ==> PrintInt(0 - n) == "-" + PrintInt(n)
  {
  }

  /** Two integers never print alike, so a printed time or offset names exactly one number. */
  lemma PrintIntInjective(m: int, n: int)
    requires PrintInt(m) == PrintInt(n)
    ensures m == n
  {
    ReadPrintedSigned(m);
    ReadPrintedSigned(n);
  }

  /** The number of digits a text starts with. */
  function DigitRun(s: string): (n: nat)
    ensures n <= |s| && AllDigits(s[..n])
    ensures n < |s| ==> !IsDigit(s[n])
  {
    if s == [] || !IsDigit(s[0]) then 0
    else
      var rest := DigitRun(s[1..]);
      assert s[..rest + 1] == [s[0]] + s[1..][..rest];
      rest + 1
  }

  lemma {:induction false} DigitRunOfPrefix(digits: string, rest: string)
    requires AllDigits(digits)
    requires rest == [] || !IsDigit(rest[0])
    ensures DigitRun(digits + rest) == |digits|
  {
    if digits == [] {
      assert digits + rest == rest;
    } else {
      assert (digits + rest)[1..] == digits[1..] + rest;
      DigitRunOfPrefix(digits[1..], rest);
    }
  }
}
