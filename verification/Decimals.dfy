/** Numbers in decimal, as texts write and read them. */
module Decimals {
  import opened Basics

  predicate IsDigit(c: char) { '0' <= c <= '9' }

  function DigitValue(c: char): int
    requires IsDigit(c)
  {
    c as int - '0' as int
  }

  function DigitChar(n: int): (c: char)
    requires 0 <= n < 10
    ensures IsDigit(c) && DigitValue(c) == n
  {
    '0' + n as char
  }

  /** The last w decimal digits of n. */
  function Digits(n: nat, w: nat): (s: string)
    ensures |s| == w
  {
    if w == 0 then "" else Digits(n / 10, w - 1) + [DigitChar(n % 10)]
  }

  predicate AllDigits(s: string) { forall i :: 0 <= i < |s| ==> IsDigit(s[i]) }

  function Number(s: string): nat
    requires AllDigits(s)
  {
    if s == "" then 0 else Number(s[..|s| - 1]) * 10 + DigitValue(s[|s| - 1])
  }

  function Pow10(n: nat): (p: nat)
    ensures p > 0
  {
    if n == 0 then 1 else 10 * Pow10(n - 1)
  }

  lemma {:induction false} DigitsNumber(n: nat, w: nat)
    requires n < Pow10(w)
    ensures AllDigits(Digits(n, w)) && Number(Digits(n, w)) == n
  {
    if w > 0 {
      DigitsNumber(n / 10, w - 1);
      var s := Digits(n, w);
      assert s[..|s| - 1] == Digits(n / 10, w - 1);
    }
  }

  /** How many digits follow from p on. */
  function DigitRun(s: string, p: nat): (n: nat)
    ensures p + n <= |s| || n == 0
    ensures forall i :: p <= i < p + n ==> i < |s| && IsDigit(s[i])
    decreases if p < |s| then |s| - p else 0
  {
    if p < |s| && IsDigit(s[p]) then 1 + DigitRun(s, p + 1) else 0
  }

  function Decimal(n: nat): string {
    if n < 10 then [DigitChar(n)] else Decimal(n / 10) + [DigitChar(n % 10)]
  }

  lemma {:induction false} RunOfDigits(s: string, p: nat, d: string)
    requires HasAt(s, p, d) && AllDigits(d) && !IsDigit(At(s, p + |d|))
    ensures DigitRun(s, p) == |d|
    decreases |d|
  {
    if d != "" {
      HasFirst(s, p, d);
      assert d == [d[0]] + d[1..];
      HasParts(s, p, [d[0]], d[1..]);
      RunOfDigits(s, p + 1, d[1..]);
    }
  }

  /** The character at i; a terminator at the end. */
  function At(s: string, i: nat): char { if i < |s| then s[i] else '\0' }
}
