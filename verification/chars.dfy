/** Character classes used by the reading extractor. The model is restricted
    to ASCII: `\d` is the ten ASCII digits and upper-casing touches only
    `a`..`z`. */
module Chars {

  /** The characters the regular expression class `\d` matches in this model. */
  predicate IsDigit(c: char) {
    '0' <= c <= '9'
  }

  predicate AllDigits(s: string) {
    forall i :: 0 <= i < |s| ==> IsDigit(s[i])
  }

  /** `str.upper()` on one ASCII character: a lower-case letter becomes the
      capital at the same place in the alphabet, every other character is
      left alone. */
  function ToUpper(c: char): (u: char)
    ensures 'A' <= u <= 'Z' <==> ('A' <= c <= 'Z' || 'a' <= c <= 'z')
    ensures !('a' <= c <= 'z') ==> u == c
    ensures 'a' <= c <= 'z' ==> u as int - 'A' as int == c as int - 'a' as int
  {
    if 'a' <= c <= 'z' then (c as int - 32) as char else c
  }
}
