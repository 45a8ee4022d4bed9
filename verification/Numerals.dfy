/**
  Integers as decimal text, as `write!`, `BigInt.toString`, `String` and `str` print them.
 */
module Numerals {

  function DigitsText(n: nat): string {
    if n < 10 then [(0x30 + n) as char] else DigitsText(n / 10) + [(0x30 + n % 10) as char]
  }

  function IntegerText(i: int): string {
    if i < 0 then "-" + DigitsText(-i) else DigitsText(i)
  }
}
