// Bytes and C strings.
module Text {

  type Byte = b: int | 0 <= b < 256

  /** A C string without its terminating NUL. */
  type CString = s: seq<Byte> | 0 !in s

  /** What a cursor at position i reads. No cursor may read past the terminating NUL. */
  function At(s: CString, i: nat): Byte
    requires i <= |s|
  {
    if i < |s| then s[i] else 0
  }

  /** A cursor that moves on by n, as a suffix of the string. */
  lemma SuffixOf(s: CString, i: nat, n: nat)
    requires i + n <= |s|
    ensures s[i..][n..] == s[i + n..]
  {
  }

  /** apr_tolower in the C locale. */
  function Lower(b: Byte): Byte {
    if 65 <= b <= 90 then b + 32 else b
  }

  /** The value of a byte as a `char`, which is signed. */
  function Signed(b: Byte): int {
    if b < 128 then b else b - 256
  }

  /** `memchr`; `strchr` on a C string. */
  method IndexOf(s: seq<Byte>, ch: Byte) returns (pos: int)
    ensures pos < 0 ==> ch !in s
    ensures pos >= 0 ==> pos < |s| && s[pos] == ch && ch !in s[..pos]
  {
    for i := 0 to |s|
      invariant ch !in s[..i]
    {
      if s[i] == ch {
        return i;
      }
    }
    return -1;
  }
}
