/** QString::number and the integer parsers, as far as the library's own numerals need them. */
module Decimal {

  predicate IsDigit(c: char) {
    '0' <= c <= '9'
  }

  function Digit(n: nat): (c: char)
    requires n < 10
    ensures IsDigit(c) && DigitValue(c) == n
  {
    '0' + n as char
  }

  function DigitValue(c: char): nat
    requires IsDigit(c)
  {
    c as nat - '0' as nat
  }

  predicate AllDigits(s: string) {
    forall k :: 0 <= k < |s| ==> IsDigit(s[k])
  }

  function DigitsOf(n: nat): (s: string)
    ensures s != [] && AllDigits(s)
    decreases n
  {
    if n < 10 then [Digit(n)] else DigitsOf(n / 10) + [Digit(n % 10)]
  }

  function Number(n: int): (s: string)
    ensures s != []
    ensures forall k :: 0 <= k < |s| ==> s[k] == '-' || IsDigit(s[k])
  {
    if n < 0 then "-" + DigitsOf(-n) else DigitsOf(n)
  }

  function ValueOf(s: string): nat
    requires AllDigits(s)
  {
    if s == [] then 0 else 10 * ValueOf(s[..|s| - 1]) + DigitValue(s[|s| - 1])
  }

  /** `toInt`/`toLongLong`: 0 when the text is no numeral or the value does not fit. */
  function ToInteger(s: string, least: int, greatest: int): int
  {
    if s == [] then 0
    else if AllDigits(s) then
      if ValueOf(s) <= greatest then ValueOf(s) else 0
    else if s[0] == '-' && |s| > 1 && AllDigits(s[1..]) then
      if least <= 0 - ValueOf(s[1..]) then 0 - ValueOf(s[1..]) else 0
    else 0
  }

  lemma {:induction false} DigitsValue(n: nat)
    ensures AllDigits(DigitsOf(n)) && ValueOf(DigitsOf(n)) == n
    decreases n
  {
    if n < 10 {
      assert DigitsOf(n)[..0] == [];
    } else {
      DigitsValue(n / 10);
      var s := DigitsOf(n);
      assert s[..|s| - 1] == DigitsOf(n / 10) && s[|s| - 1] == Digit(n % 10);
    }
  }

  /** Printing and parsing an integer in range gives it back. */
  lemma {:induction false} NumberRoundTrip(n: int, least: int, greatest: int)
    requires least <= n <= greatest
    ensures ToInteger(Number(n), least, greatest) == n
  {
    if n < 0 {
      DigitsValue(-n);
      var s := Number(n);
      assert s[0] == '-' && s[1..] == DigitsOf(-n);
    } else {
      DigitsValue(n);
    }
  }
}
