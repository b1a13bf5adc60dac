/** Hexadecimal digits. */
module HexDigits {
  predicate IsHexDigit(c: char) {
    '0' <= c <= '9' || 'a' <= c <= 'f' || 'A' <= c <= 'F'
  }

  function DigitValue(c: char): (d: nat)
    requires IsHexDigit(c)
    ensures d < 16
  {
    if c <= '9' then c as int - '0' as int
    else if c >= 'a' then c as int - 'a' as int + 10
    else c as int - 'A' as int + 10
  }

  // Lower case.
  function Digit(d: nat): (c: char)
    requires d < 16
    ensures IsHexDigit(c) && DigitValue(c) == d && !('A' <= c <= 'F')
  {
    if d < 10 then '0' + d as char else 'a' + (d - 10) as char
  }

  // The digits in order, and their values in either case.
  lemma Alphabet(d: nat)
    requires d < 16
    ensures Digit(d) == "0123456789abcdef"[d]
    ensures IsHexDigit("0123456789abcdef"[d]) && DigitValue("0123456789abcdef"[d]) == d
    ensures IsHexDigit("0123456789ABCDEF"[d]) && DigitValue("0123456789ABCDEF"[d]) == d
  {
    assert d == 0 || d == 1 || d == 2 || d == 3 || d == 4 || d == 5 || d == 6 || d == 7
           || d == 8 || d == 9 || d == 10 || d == 11 || d == 12 || d == 13 || d == 14 || d == 15;
  }
}
