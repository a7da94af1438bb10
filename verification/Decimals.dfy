/** Numbers and their decimal digits. */
module Decimals {
  import opened Bytes
  import opened Seqs

  predicate IsDigit(c: byte) { 0x30 <= c <= 0x39 }

  /** A decimal number of any length. */
  function Decimal(digits: bytes): nat
    requires forall i :: 0 <= i < |digits| ==> IsDigit(digits[i])
  {
    if digits == [] then 0
    else
      var n := |digits| - 1;
      assert IsDigit(digits[n]);
      10 * Decimal(digits[..n]) + (digits[n] as int - 0x30)
  }

  /** Decimal digits without leading zeros. */
  function DigitsOf(n: nat): (d: bytes)
    ensures d != [] && forall i :: 0 <= i < |d| ==> IsDigit(d[i])
  {
    if n < 10 then [0x30 + n] else DigitsOf(n / 10) + [0x30 + n % 10]
  }

  lemma {:induction false} DecimalDigits(n: nat)
    ensures Decimal(DigitsOf(n)) == n
  {
    var d := DigitsOf(n);
    if n < 10 {
      assert d[..0] == [];
    } else {
      SnocParts(DigitsOf(n / 10), (0x30 + n % 10) as byte);
      DecimalDigits(n / 10);
    }
  }

  /** Different numbers have different digits. */
  lemma DigitsInjective(a: nat, b: nat)
    requires DigitsOf(a) == DigitsOf(b)
    ensures a == b
  {
    DecimalDigits(a);
    DecimalDigits(b);
  }
}
