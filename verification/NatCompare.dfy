// Natural order: digit runs compare as numbers.
module NatCompare {
  import opened Text
  import opened Numbers
  import NumberText

  predicate Digit(c: Byte) {
    48 <= c <= 57
  }

  /** The next byte is a digit. */
  predicate StartsDigit(s: CString) {
    s != [] && Digit(s[0])
  }

  /** -1, 0 or 1, as x is less than, equal to or greater than y. */
  function Order(x: int, y: int): int {
    if x < y then -1 else if x > y then 1 else 0
  }

  /** The longest run of digits wins; among runs of one length the first difference, kept in bias. */
  function Right(a: CString, b: CString, bias: int): int {
    if !StartsDigit(a) && !StartsDigit(b) then bias
    else if !StartsDigit(a) then -1
    else if !StartsDigit(b) then 1
    else Right(a[1..], b[1..], if bias == 0 then Order(a[0], b[0]) else bias)
  }

  /** The first different digit wins. */
  function Left(a: CString, b: CString): int {
    if !StartsDigit(a) && !StartsDigit(b) then 0
    else if !StartsDigit(a) then -1
    else if !StartsDigit(b) then 1
    else if a[0] != b[0] then Order(a[0], b[0])
    else Left(a[1..], b[1..])
  }

  function Trim(s: CString): CString {
    s[NumberText.SkipSpace(s)..]
  }

  /** apr_toupper in the C locale. */
  function Upper(c: Byte): Byte {
    if 97 <= c <= 122 then c - 32 else c
  }

  /** The next byte, NUL at the end, folded or not, as a char. */
  function Weight(s: CString, fold: bool): int {
    Signed(if fold then Upper(At(s, 0)) else At(s, 0))
  }

  /** The two digit runs that start a and b. */
  function Runs(a: CString, b: CString): int {
    if StartsDigit(a) && StartsDigit(b) then
      if a[0] == ZERO || b[0] == ZERO then Left(a, b) else Right(a, b, 0)
    else 0
  }

  /** The natural order of two strings. */
  function Compare(a: CString, b: CString, fold: bool): int {
    var x, y := Trim(a), Trim(b);
    if Runs(x, y) != 0 then Runs(x, y)
    else if x == [] && y == [] then 0
    else if Weight(x, fold) != Weight(y, fold) then Order(Weight(x, fold), Weight(y, fold))
    else
      Zero(x, y, fold);
      Compare(x[1..], y[1..], fold)
  }

  /** Only the end of a string weighs zero. */
  lemma Zero(x: CString, y: CString, fold: bool)
    requires Weight(x, fold) == Weight(y, fold) && (x != [] || y != [])
    ensures x != [] && y != []
  {
  }

  lemma {:induction false} RightFlips(a: CString, b: CString, bias: int)
    ensures Right(b, a, -bias) == -Right(a, b, bias)
  {
    if StartsDigit(a) && StartsDigit(b) {
      RightFlips(a[1..], b[1..], if bias == 0 then Order(a[0], b[0]) else bias);
    }
  }

  lemma {:induction false} LeftFlips(a: CString, b: CString)
    ensures Left(b, a) == -Left(a, b)
  {
    if StartsDigit(a) && StartsDigit(b) {
      LeftFlips(a[1..], b[1..]);
    }
  }

  /** Swapping the arguments flips the sign, so that in particular a string equals itself. */
  lemma {:induction false} Antisymmetric(a: CString, b: CString, fold: bool)
    ensures Compare(b, a, fold) == -Compare(a, b, fold)
    decreases |a|
  {
    var x, y := Trim(a), Trim(b);
    RightFlips(x, y, 0);
    LeftFlips(x, y);
    assert Runs(y, x) == -Runs(x, y);
    if Runs(x, y) == 0 && (x != [] || y != []) && Weight(x, fold) == Weight(y, fold) {
      Zero(x, y, fold);
      Antisymmetric(x[1..], y[1..], fold);
    }
  }

  lemma Reflexive(a: CString, fold: bool)
    ensures Compare(a, a, fold) == 0
  {
    Antisymmetric(a, a, fold);
  }

  /** compare_right. */
  method CompareRight(a: CString, i: nat, b: CString, j: nat) returns (r: int)
    requires i <= |a| && j <= |b|
    ensures r == Right(a[i..], b[j..], 0)
  {
    var bias, k := 0, 0;
    while true
      invariant i + k <= |a| && j + k <= |b| && Right(a[i..], b[j..], 0) == Right(a[i + k..], b[j + k..], bias)
      decreases |a| - k
    {
      var c, d := At(a, i + k), At(b, j + k);
      if !Digit(c) && !Digit(d) {
        return bias;
      } else if !Digit(c) {
        return -1;
      } else if !Digit(d) {
        return 1;
      }
      if c < d {
        if bias == 0 {
          bias := -1;
        }
      } else if c > d {
        if bias == 0 {
          bias := 1;
        }
      }
      k := k + 1;
    }
  }

  /** compare_left. */
  method CompareLeft(a: CString, i: nat, b: CString, j: nat) returns (r: int)
    requires i <= |a| && j <= |b|
    ensures r == Left(a[i..], b[j..])
  {
    var k := 0;
    while true
      invariant i + k <= |a| && j + k <= |b| && Left(a[i..], b[j..]) == Left(a[i + k..], b[j + k..])
      decreases |a| - k
    {
      var c, d := At(a, i + k), At(b, j + k);
      if !Digit(c) && !Digit(d) {
        return 0;
      } else if !Digit(c) {
        return -1;
      } else if !Digit(d) {
        return 1;
      } else if c < d {
        return -1;
      } else if c > d {
        return 1;
      }
      k := k + 1;
    }
  }

  /** Skip white space. */
  method SkipBlanks(s: CString, i: nat) returns (j: nat)
    requires i <= |s|
    ensures i <= j <= |s| && s[j..] == Trim(s[i..])
  {
    hide Trim;
    j := i;
    while NumberText.Space(At(s, j))
      invariant i <= j <= |s| && Trim(s[j..]) == Trim(s[i..])
      decreases |s| - j
    {
      TrimNext(s, j);
      j := j + 1;
    }
    TrimStop(s[j..]);
  }

  lemma TrimStop(s: CString)
    requires s != [] ==> !NumberText.Space(s[0])
    ensures Trim(s) == s
  {
    NumberText.NoSpace(s);
  }

  lemma TrimNext(s: CString, j: nat)
    requires j < |s| && NumberText.Space(s[j])
    ensures Trim(s[j..]) == Trim(s[j + 1..])
  {
    var t := s[j..];
    assert t[1..] == s[j + 1..];
    assert t[1 + NumberText.SkipSpace(t[1..])..] == t[1..][NumberText.SkipSpace(t[1..])..];
  }

  /** strnatcmp0, which apr_strnatcmp calls with fold off and apr_strnatcasecmp with fold on. */
  method Strnatcmp0(a: CString, b: CString, fold: bool) returns (result: int)
    ensures result == Compare(a, b, fold)
  {
    hide Trim, Right, Left, Upper, Signed;
    var ai, bi := 0, 0;
    assert a[0..] == a && b[0..] == b;
    while true
      invariant ai <= |a| && bi <= |b| && Compare(a, b, fold) == Compare(a[ai..], b[bi..], fold)
      decreases |a| - ai
    {
      ai := SkipBlanks(a, ai);
      bi := SkipBlanks(b, bi);
      ghost var x, y := a[ai..], b[bi..];
      var ca, cb := At(a, ai), At(b, bi);
      if Digit(ca) && Digit(cb) {
        if ca == ZERO || cb == ZERO {
          result := CompareLeft(a, ai, b, bi);
        } else {
          result := CompareRight(a, ai, b, bi);
        }
        if result != 0 {
          return;
        }
      }
      if ca == 0 && cb == 0 {
        return 0;
      }
      var wa, wb := Signed(if fold then Upper(ca) else ca), Signed(if fold then Upper(cb) else cb);
      if wa < wb {
        return -1;
      } else if wa > wb {
        return 1;
      }
      Zero(x, y, fold);
      SuffixOf(a, ai, 1);
      SuffixOf(b, bi, 1);
      ai, bi := ai + 1, bi + 1;
    }
  }
}
