/** Character classes used by the regular expressions and string methods of the source. */
module Chars {

  /** ASCII decimal digit `0`..`9`. */
  predicate IsDigit(c: char)
  {
    '0' <= c <= '9'
  }

  /** Numeric value of an ASCII digit. */
  function DigitValue(c: char): (v: nat)
    requires IsDigit(c)
    ensures v <= 9
  {
    (c as int) - ('0' as int)
  }

  /** `A-Za-z`. */
  predicate IsAsciiLetter(c: char)
  {
    'A' <= c <= 'Z' || 'a' <= c <= 'z'
  }

  /** `A-Za-z0-9`. */
  predicate IsAsciiAlnum(c: char)
  {
    IsAsciiLetter(c) || IsDigit(c)
  }

  /**
   * Python's `str.isspace()` on one character, which is also what `\s`
   * matches in a `str` pattern and what `str.strip()` removes: the
   * characters of bidirectional class WS, B or S and of category Zs.
   */
  predicate IsSpace(c: char)
  {
    || '\t' <= c <= '\r'
    || '\U{1C}' <= c <= '\U{1F}'
    || c == ' '
    || c == '\U{85}'
    || c == '\U{A0}'
    || c == '\U{1680}'
    || '\U{2000}' <= c <= '\U{200A}'
    || c == '\U{2028}'
    || c == '\U{2029}'
    || c == '\U{202F}'
    || c == '\U{205F}'
    || c == '\U{3000}'
  }

  lemma AlnumIsNotSpace(c: char)
    requires IsAsciiAlnum(c)
    ensures !IsSpace(c)
  {
  }
}
