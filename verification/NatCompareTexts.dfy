// The natural order, told by the texts alone: white space, runs of digits, other characters, and the case of letters.
module NatCompareTexts {
  import opened Chars
  import opened Text
  import opened Numbers
  import opened NatCompare
  import opened NatCompareLaws
  import NumberText

  ghost predicate AllDigits(s: CString) {
    forall k :: 0 <= k < |s| ==> IsDigit(s[k])
  }

  /** What comes behind a run of digits. */
  predicate NoDigit(s: CString) {
    s == [] || !IsDigit(s[0])
  }

  /** -1, 0 or 1. */
  function Sign(x: int): int {
    if x < 0 then -1 else if x > 0 then 1 else 0
  }

  lemma {:induction false} RightSuffix(a: CString, b: CString, s: CString, t: CString, bias: int)
    requires AllDigits(a) && AllDigits(b) && NoDigit(s) && NoDigit(t)
    ensures Right(a + s, b + t, bias) == Right(a, b, bias)
  {
    if a != [] && b != [] {
      assert (a + s)[1..] == a[1..] + s && (b + t)[1..] == b[1..] + t;
      RightSuffix(a[1..], b[1..], s, t, if bias == 0 then Order(a[0], b[0]) else bias);
    }
  }

  lemma {:induction false} LeftSuffix(a: CString, b: CString, s: CString, t: CString)
    requires AllDigits(a) && AllDigits(b) && NoDigit(s) && NoDigit(t)
    ensures Left(a + s, b + t) == Left(a, b)
  {
    if a != [] && b != [] {
      assert (a + s)[1..] == a[1..] + s && (b + t)[1..] == b[1..] + t;
      LeftSuffix(a[1..], b[1..], s, t);
    }
  }

  lemma RunsSuffix(a: CString, b: CString, s: CString, t: CString)
    requires AllDigits(a) && AllDigits(b) && NoDigit(s) && NoDigit(t) && a != [] && b != []
    ensures Runs(a + s, b + t) == Runs(a, b)
  {
    hide Right, Left;
    RightSuffix(a, b, s, t, 0);
    LeftSuffix(a, b, s, t);
  }

  lemma RunsReflexive(a: CString)
    ensures Runs(a, a) == 0
  {
    RightFlips(a, a, 0);
    LeftFlips(a, a);
  }

  /** Texts whose first characters neither are white space nor start two runs that decide. */
  lemma CompareNext(a: CString, b: CString, fold: bool)
    requires a != [] && b != [] && !IsSpace(a[0]) && !IsSpace(b[0]) && Runs(a, b) == 0 && a[0] == b[0]
    ensures Compare(a, b, fold) == Compare(a[1..], b[1..], fold)
  {
    hide Runs;
    TrimStop(a);
    TrimStop(b);
  }

  /** An equal run of digits decides nothing; what follows does. */
  lemma {:induction false} EqualRuns(n: CString, s: CString, t: CString, fold: bool)
    requires AllDigits(n) && NoDigit(s) && NoDigit(t)
    ensures Compare(n + s, n + t, fold) == Compare(s, t, fold)
  {
    hide Compare, Runs;
    if n == [] {
      assert n + s == s && n + t == t;
    } else {
      RunsSuffix(n, n, s, t);
      RunsReflexive(n);
      CompareNext(n + s, n + t, fold);
      assert (n + s)[1..] == n[1..] + s && (n + t)[1..] == n[1..] + t;
      EqualRuns(n[1..], s, t, fold);
    }
  }

  /** Two different numbers decide, whatever follows them. */
  lemma DifferentNumbers(m: nat, n: nat, s: CString, t: CString, fold: bool)
    requires m != n && NoDigit(s) && NoDigit(t)
    ensures Compare(Decimal(m) + s, Decimal(n) + t, fold) == Sign(m - n)
  {
    hide Digits, Compare, Runs, NumberText.Value;
    var a, b := Digits(m, 10, false), Digits(n, 10, false);
    NumberText.ValueDigits(m, 10, false);
    NumberText.ValueDigits(n, 10, false);
    RunsOrder(a, b);
    RunsSuffix(a, b, s, t);
    CompareRuns(a + s, b + t, fold);
  }

  /** If a run has a leading zero, the two compare left-aligned: by their first different digit, else by length. */
  lemma ZeroRuns(a: CString, b: CString, k: nat, s: CString, t: CString, fold: bool)
    requires AllDigits(a) && AllDigits(b) && NoDigit(s) && NoDigit(t) && a != [] && b != []
    requires a[0] == '0' as int || b[0] == '0' as int
    requires k <= |a| && k < |b| && a[..k] == b[..k] && (k < |a| ==> a[k] < b[k])
    ensures Compare(a + s, b + t, fold) == -1 && Compare(b + t, a + s, fold) == 1
  {
    hide Compare, Runs;
    LeftFirst(a, b, k);
    RunsLeft(a, b);
    RunsSuffix(a, b, s, t);
    CompareRuns(a + s, b + t, fold);
    Antisymmetric(a + s, b + t, fold);
  }

  lemma RunsLeft(a: CString, b: CString)
    requires AllDigits(a) && AllDigits(b) && a != [] && b != [] && (a[0] == '0' as int || b[0] == '0' as int)
    ensures Runs(a, b) == Left(a, b)
  {
  }

  lemma {:induction false} LeftFirst(a: CString, b: CString, k: nat)
    requires AllDigits(a) && AllDigits(b)
    requires k <= |a| && k < |b| && a[..k] == b[..k] && (k < |a| ==> a[k] < b[k])
    ensures Left(a, b) == -1
  {
    if k > 0 {
      assert a[..k][0] == b[..k][0];
      assert a[1..][..k - 1] == a[..k][1..] && b[1..][..k - 1] == b[..k][1..];
      LeftFirst(a[1..], b[1..], k - 1);
    }
  }

  /** White space in front is skipped. */
  lemma SpaceSkipped(c: Byte, s: CString, t: CString, fold: bool)
    requires IsSpace(c)
    ensures Compare([c] + s, t, fold) == Compare(s, t, fold) && Compare(t, [c] + s, fold) == Compare(t, s, fold)
  {
    hide Trim, Runs, Weight;
    TrimNext([c] + s, 0);
    assert ([c] + s)[0..] == [c] + s && ([c] + s)[1..] == s;
  }

  /** Other characters decide if they differ; the end of a text is a character of value 0. */
  lemma OtherChars(c: Byte, s: CString, d: Byte, t: CString)
    requires c != 0 && d != 0 && !IsSpace(c) && !IsSpace(d) && !(IsDigit(c) && IsDigit(d))
    ensures Compare([c] + s, [d] + t, false) ==
      if c == d then Compare(s, t, false) else Sign(CharOf(c) - CharOf(d))
    ensures Compare([c] + s, [], false) == Sign(CharOf(c)) && Compare([], [d] + t, false) == Sign(-CharOf(d))
    ensures Compare([], [], false) == 0
  {
    hide Compare;
    CompareHeads(c, s, d, t, false);
    CompareEnd(c, s, false);
    CompareEnd(d, t, false);
    Antisymmetric([], [d] + t, false);
  }

  lemma CompareEnd(c: Byte, s: CString, fold: bool)
    requires c != 0 && !IsSpace(c)
    ensures Compare([c] + s, [], fold) == Order(Weight([c], fold), 0) && Compare([], [], fold) == 0
  {
    hide Trim, Right, Left, Upper, Signed;
    var x: CString := [c] + s;
    TrimStop(x);
    TrimStop([]);
    assert Runs(x, []) == 0;
    UpperZero(c);
  }

  lemma UpperZero(c: Byte)
    ensures Upper(0) == 0 && Signed(0) == 0 && (c != 0 ==> Signed(c) != 0 && Signed(Upper(c)) != 0)
  {
  }

  function CharAt(s: CString, k: nat): int {
    if k < |s| then CharOf(s[k]) else 0
  }

  ghost predicate OnlyOthers(s: CString) {
    forall k :: 0 <= k < |s| ==> !IsSpace(s[k]) && !IsDigit(s[k])
  }

  /** Texts without digits and white space compare by their first different char. */
  lemma {:induction false} FirstDifferent(a: CString, b: CString, k: nat)
    requires OnlyOthers(a) && OnlyOthers(b)
    requires k <= |a| && k <= |b| && a[..k] == b[..k] && (k < |a| && k < |b| ==> a[k] != b[k])
    ensures Compare(a, b, false) == Sign(CharAt(a, k) - CharAt(b, k))
  {
    hide Compare, Runs;
    if a != [] && b != [] {
      OtherChars(a[0], a[1..], b[0], b[1..]);
      assert a == [a[0]] + a[1..] && b == [b[0]] + b[1..];
      if k > 0 {
        assert a[..k][0] == b[..k][0];
        assert a[1..][..k - 1] == a[..k][1..] && b[1..][..k - 1] == b[..k][1..];
        FirstDifferent(a[1..], b[1..], k - 1);
      }
    } else if a != [] {
      OtherChars(a[0], a[1..], a[0], a[1..]);
      assert a == [a[0]] + a[1..];
    } else if b != [] {
      OtherChars(b[0], b[1..], b[0], b[1..]);
      assert b == [b[0]] + b[1..];
    } else {
      OtherChars('a' as int, [], 'a' as int, []);
    }
  }

  // The case of letters.

  lemma SameAt(s: CString, t: CString, k: nat)
    requires SameLetters(s, t) && k <= |s|
    ensures SameLetters(s[k..], t[k..])
    ensures k < |s| && (Digit(s[k]) || NumberText.Space(s[k])) ==> s[k] == t[k]
    ensures k < |s| && (Digit(t[k]) || NumberText.Space(t[k])) ==> s[k] == t[k]
    ensures k < |s| ==> Upper(s[k]) == Upper(t[k])
  {
    assert k < |s| ==> SameLetter(s[k], t[k]);
  }

  lemma {:induction false} SkipSame(s: CString, t: CString)
    requires SameLetters(s, t)
    ensures NumberText.SkipSpace(s) == NumberText.SkipSpace(t) && SameLetters(Trim(s), Trim(t))
  {
    hide SameLetters;
    SameLength(s, t);
    if s != [] && NumberText.Space(s[0]) {
      SameAt(s, t, 0);
      SameAt(s, t, 1);
      SkipSame(s[1..], t[1..]);
    } else if s != [] {
      SameAt(s, t, 0);
    }
    SameAt(s, t, NumberText.SkipSpace(s));
  }

  lemma SameLength(s: CString, t: CString)
    requires SameLetters(s, t)
    ensures |s| == |t|
  {
  }

  lemma {:induction false} RightSameLetters(s: CString, t: CString, u: CString, bias: int)
    requires SameLetters(s, t)
    ensures Right(s, u, bias) == Right(t, u, bias)
  {
    hide SameLetters;
    SameLength(s, t);
    if s != [] {
      SameAt(s, t, 0);
      if u != [] {
        SameAt(s, t, 1);
        RightSameLetters(s[1..], t[1..], u[1..], if bias == 0 then Order(s[0], u[0]) else bias);
      }
    }
  }

  lemma {:induction false} LeftSameLetters(s: CString, t: CString, u: CString)
    requires SameLetters(s, t)
    ensures Left(s, u) == Left(t, u)
  {
    hide SameLetters;
    SameLength(s, t);
    if s != [] {
      SameAt(s, t, 0);
      if u != [] {
        SameAt(s, t, 1);
        LeftSameLetters(s[1..], t[1..], u[1..]);
      }
    }
  }

  lemma HeadSame(s: CString, t: CString, u: CString)
    requires SameLetters(s, t)
    ensures Runs(s, u) == Runs(t, u) && Weight(s, true) == Weight(t, true)
  {
    hide SameLetters, Right, Left, Upper, Signed;
    SameLength(s, t);
    RightSameLetters(s, t, u, 0);
    LeftSameLetters(s, t, u);
    if s != [] {
      SameAt(s, t, 0);
    }
  }

  /** With fold the case of letters does not matter in either argument, and texts that differ in it only are equal. */
  lemma {:induction false} FoldExchange(s: CString, t: CString, u: CString)
    requires SameLetters(s, t)
    ensures Compare(s, u, true) == Compare(t, u, true) && Compare(u, s, true) == Compare(u, t, true)
    decreases |s|
  {
    hide SameLetters, Trim, Runs, Weight;
    SkipSame(s, t);
    HeadSame(Trim(s), Trim(t), Trim(u));
    SameLength(Trim(s), Trim(t));
    var x, y, z := Trim(s), Trim(t), Trim(u);
    if (x != [] || z != []) && Weight(x, true) == Weight(z, true) && Runs(x, z) == 0 {
      Zero(x, z, true);
      SameAt(x, y, 1);
      TrimShort(s);
      FoldExchange(x[1..], y[1..], z[1..]);
    }
    Antisymmetric(s, u, true);
    Antisymmetric(t, u, true);
  }

  lemma TrimShort(s: CString)
    ensures |Trim(s)| <= |s|
  {
  }

  lemma FoldEqual(s: CString, t: CString)
    requires SameLetters(s, t)
    ensures Compare(s, t, true) == 0
  {
    FoldExchange(s, t, t);
    Reflexive(t, true);
  }

  /** All letters in upper case. */
  function UpperText(s: CString): (t: CString)
    ensures |t| == |s|
  {
    if s == [] then [] else [if IsLower(s[0]) then s[0] - 32 else s[0]] + UpperText(s[1..])
  }

  lemma {:induction false} UpperAt(s: CString, k: nat)
    requires k < |s|
    ensures UpperText(s)[k] == if IsLower(s[k]) then s[k] - 32 else s[k]
  {
    if k > 0 {
      UpperAt(s[1..], k - 1);
    }
  }

  lemma UpperSame(s: CString)
    ensures SameLetters(s, UpperText(s)) && NoLower(UpperText(s))
  {
    forall k | 0 <= k < |s| ensures SameLetter(s[k], UpperText(s)[k]) && !IsLower(UpperText(s)[k]) {
      UpperAt(s, k);
    }
  }

  ghost predicate NoLower(s: CString) {
    forall k :: 0 <= k < |s| ==> !IsLower(s[k])
  }

  lemma NoLowerWeight(s: CString)
    requires NoLower(s)
    ensures Weight(s, true) == Weight(s, false) && NoLower(Trim(s)) && (s != [] ==> NoLower(s[1..]))
  {
  }

  /** Without lower case letters there is nothing to fold. */
  lemma {:induction false} NothingToFold(s: CString, t: CString)
    requires NoLower(s) && NoLower(t)
    ensures Compare(s, t, true) == Compare(s, t, false)
    decreases |s|
  {
    hide NoLower, Trim, Runs, Weight;
    var x, y := Trim(s), Trim(t);
    NoLowerWeight(s);
    NoLowerWeight(t);
    NoLowerWeight(x);
    NoLowerWeight(y);
    if (x != [] || y != []) && Weight(x, true) == Weight(y, true) && Runs(x, y) == 0 {
      Zero(x, y, true);
      TrimShort(s);
      NothingToFold(x[1..], y[1..]);
    }
  }

  /** With fold texts compare as the texts in upper case do without. */
  lemma FoldUpper(s: CString, t: CString)
    ensures Compare(s, t, true) == Compare(UpperText(s), UpperText(t), false)
  {
    hide Compare;
    UpperSame(s);
    UpperSame(t);
    FoldExchange(s, UpperText(s), t);
    FoldExchange(t, UpperText(t), UpperText(s));
    NothingToFold(UpperText(s), UpperText(t));
  }
}
