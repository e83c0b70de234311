// The characters of the C locale, as the laws about texts speak of them.
module Chars {
  import opened Text

  /** A byte as a char, which is signed. */
  function CharOf(c: Byte): int {
    if c <= 127 then c else c - 256
  }

  predicate IsDigit(c: Byte) {
    '0' as int <= c <= '9' as int
  }

  /** Space, tab, line feed, vertical tab, form feed and carriage return. */
  predicate IsSpace(c: Byte) {
    c in [' ' as int, 9, 10, 11, 12, 13]
  }

  predicate IsUpper(c: Byte) {
    'A' as int <= c <= 'Z' as int
  }

  predicate IsLower(c: Byte) {
    'a' as int <= c <= 'z' as int
  }

  /** The same byte, or the same letter in its other case. */
  predicate SameLetter(c: Byte, d: Byte) {
    c == d || (IsUpper(c) && d == c + 32) || (IsLower(c) && d == c - 32)
  }

  /** Two strings that differ in the case of letters only. */
  ghost predicate SameLetters(s: CString, t: CString) {
    |s| == |t| && forall k :: 0 <= k < |s| ==> SameLetter(s[k], t[k])
  }
}
