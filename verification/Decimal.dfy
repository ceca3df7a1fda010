/** Decimal numbers, as `std::to_string` writes them. */
module Decimal {
  import opened Base

  predicate IsDigit(c: Byte) { '0' <= c <= '9' }

  function DigitOf(n: nat): (c: Byte)
    requires n < 10
    ensures IsDigit(c)
  {
    ('0' as int + n) as char
  }

  function DigitValue(c: Byte): nat
    requires IsDigit(c)
  {
    c as int - '0' as int
  }

  function Dec(n: nat): (s: Bytes)
    ensures s != []
  {
    if n < 10 then [DigitOf(n)] else Dec(n / 10) + [DigitOf(n % 10)]
  }

  predicate AllDigits(s: Bytes) { forall i :: 0 <= i < |s| ==> IsDigit(s[i]) }

  function DecValue(s: Bytes): nat
    requires AllDigits(s)
  {
    if s == [] then 0 else DecValue(s[..|s| - 1]) * 10 + DigitValue(s[|s| - 1])
  }

  /** Reading back what was written gives the number. */
  lemma {:induction false} DecBack(n: nat)
    ensures AllDigits(Dec(n)) && DecValue(Dec(n)) == n
  {
    if n >= 10 {
      DecBack(n / 10);
      assert Dec(n)[..|Dec(n)| - 1] == Dec(n / 10);
    }
  }

  /** Values of longer prefixes are at least as large. */
  lemma {:induction false} DecPrefix(s: Bytes, i: nat)
    requires AllDigits(s) && i <= |s|
    ensures DecValue(s[..i]) <= DecValue(s)
  {
    if i < |s| {
      DecPrefix(s[..|s| - 1], i);
      assert s[..|s| - 1][..i] == s[..i];
    } else {
      assert s[..i] == s;
    }
  }
}
