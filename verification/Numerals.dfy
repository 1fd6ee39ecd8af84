/** Decimal numerals, as numbers are printed and written. */
module Numerals {
  function Numeral(n: nat): string {
    if n < 10 then [Digit(n)] else Numeral(n / 10) + [Digit(n % 10)]
  }

  function Digit(d: nat): (c: char)
    requires d < 10
    ensures c as int == '0' as int + d
  {
    "0123456789"[d]
  }

  lemma NumeralSnoc(n: nat, d: nat)
    requires n > 0 && d < 10
    ensures Numeral(10 * n + d) == Numeral(n) + [Digit(d)]
  {
    var m := 10 * n + d;
    assert m / 10 == n && m % 10 == d;
  }
}
