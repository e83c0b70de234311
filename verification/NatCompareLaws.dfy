// On decimal numerals the natural order is the order of the numbers.
module NatCompareLaws {
  import opened Text
  import opened Numbers
  import opened NatCompare
  import opened NumberText

  predicate Numeric(s: CString) {
    forall k :: 0 <= k < |s| ==> Digit(s[k])
  }

  lemma {:induction false} RightLonger(a: CString, b: CString, bias: int)
    requires Numeric(a) && Numeric(b) && |a| < |b|
    ensures Right(a, b, bias) == -1
  {
    if a != [] {
      RightLonger(a[1..], b[1..], if bias == 0 then Order(a[0], b[0]) else bias);
    }
  }

  /** The first difference of two texts of one length. */
  function Difference(a: CString, b: CString): int
    requires |a| == |b|
  {
    if a == [] then 0 else if a[0] != b[0] then Order(a[0], b[0]) else Difference(a[1..], b[1..])
  }

  lemma {:induction false} RightSame(a: CString, b: CString, bias: int)
    requires Numeric(a) && Numeric(b) && |a| == |b|
    ensures Right(a, b, bias) == if bias != 0 then bias else Difference(a, b)
  {
    if a != [] {
      RightSame(a[1..], b[1..], if bias == 0 then Order(a[0], b[0]) else bias);
    }
  }

  lemma {:induction false} DifferenceSnoc(a: CString, b: CString, x: Byte, y: Byte)
    requires |a| == |b| && x != 0 && y != 0
    ensures Difference(a + [x], b + [y]) == if Difference(a, b) != 0 then Difference(a, b) else Order(x, y)
  {
    if a != [] {
      assert (a + [x])[1..] == a[1..] + [x] && (b + [y])[1..] == b[1..] + [y];
      DifferenceSnoc(a[1..], b[1..], x, y);
    }
  }

  /** Texts of one length differ as their values do. */
  lemma {:induction false} DifferenceValue(a: CString, b: CString)
    requires Numeric(a) && Numeric(b) && |a| == |b|
    ensures Difference(a, b) == Order(Value(a, 10), Value(b, 10))
  {
    if a != [] {
      var n := |a| - 1;
      DifferenceValue(a[..n], b[..n]);
      DifferenceSnoc(a[..n], b[..n], a[n], b[n]);
      assert a == a[..n] + [a[n]] && b == b[..n] + [b[n]];
    }
  }

  lemma {:induction false} ValueBounds(s: CString)
    requires Numeric(s)
    ensures Value(s, 10) < Power10(|s|)
    ensures s != [] && s[0] != ZERO ==> Value(s, 10) >= Power10(|s| - 1)
  {
    if s != [] {
      ValueBounds(s[..|s| - 1]);
    }
  }

  lemma PowerMonotone(j: nat, k: nat)
    requires j <= k
    ensures Power10(j) <= Power10(k)
  {
  }

  /** Without leading zeros, more digits make a larger number. */
  lemma LongerValue(a: CString, b: CString)
    requires Numeric(a) && Numeric(b) && |a| < |b| && b[0] != ZERO
    ensures Value(a, 10) < Value(b, 10)
  {
    ValueBounds(a);
    ValueBounds(b);
    PowerMonotone(|a|, |b| - 1);
  }

  lemma RunsOrder(a: CString, b: CString)
    requires Numeric(a) && Numeric(b) && a != [] && b != []
    requires (a[0] == ZERO ==> a == [ZERO]) && (b[0] == ZERO ==> b == [ZERO])
    ensures Runs(a, b) == Order(Value(a, 10), Value(b, 10))
  {
    ValueZero(10);
    ValueBounds(a);
    ValueBounds(b);
    if a[0] != ZERO && b[0] != ZERO {
      if |a| == |b| {
        RightSame(a, b, 0);
        DifferenceValue(a, b);
      } else if |a| < |b| {
        RightLonger(a, b, 0);
        LongerValue(a, b);
      } else {
        RightFlips(b, a, 0);
        RightLonger(b, a, 0);
        LongerValue(b, a);
      }
    } else {
      PowerMonotone(0, |a| - 1);
      PowerMonotone(0, |b| - 1);
      assert Runs(a, b) == Left(a, b);
      if a[0] == ZERO && b[0] == ZERO {
        assert a[1..] == [] && b[1..] == [] && Left([], []) == 0;
      } else {
        assert Left(a, b) == Order(a[0], b[0]);
      }
    }
  }

  /** Numerals without sign. */
  lemma CompareDigits(m: nat, n: nat, fold: bool)
    ensures Compare(Digits(m, 10, false), Digits(n, 10, false), fold) == Order(m, n)
  {
    hide Digits, Value, Runs, Compare;
    var a, b := Digits(m, 10, false), Digits(n, 10, false);
    ValueDigits(m, 10, false);
    ValueDigits(n, 10, false);
    RunsOrder(a, b);
    if m == n {
      Reflexive(a, fold);
    } else {
      CompareRuns(a, b, fold);
    }
  }

  lemma CompareRuns(a: CString, b: CString, fold: bool)
    requires a != [] && !Space(a[0]) && b != [] && !Space(b[0]) && Runs(a, b) != 0
    ensures Compare(a, b, fold) == Runs(a, b)
  {
    hide Runs;
    TrimStop(a);
    TrimStop(b);
  }

  /** The first byte of each string is not a digit run or the like: it decides, or the rest does. */
  lemma CompareHeads(c: Byte, s: CString, d: Byte, t: CString, fold: bool)
    requires c != 0 && d != 0 && !Space(c) && !Space(d) && !(Digit(c) && Digit(d))
    ensures var w, v := Weight([c], fold), Weight([d], fold);
      Compare([c] + s, [d] + t, fold) == if w != v then Order(w, v) else Compare(s, t, fold)
  {
    hide Trim, Right, Left, Upper, Signed;
    var x: CString, y: CString := [c] + s, [d] + t;
    TrimStop(x);
    TrimStop(y);
    assert x[0] == c && y[0] == d && x[1..] == s && y[1..] == t;
    assert Runs(x, y) == 0;
  }

  lemma CompareSigns(s: CString, t: CString, fold: bool)
    requires t != [] && Digit(t[0])
    ensures Compare([MINUS] + s, t, fold) == -1
    ensures Compare([MINUS] + s, [MINUS] + t, fold) == Compare(s, t, fold)
  {
    hide Compare;
    assert t == [t[0]] + t[1..];
    CompareHeads(MINUS, s, t[0], t[1..], fold);
    CompareHeads(MINUS, s, MINUS, t, fold);
  }

  /** Decimal texts compare as their numbers do, except that two negative numbers compare the wrong way round. */
  lemma CompareDecimals(x: int, y: int, fold: bool)
    ensures Compare(Decimal(x), Decimal(y), fold) == if x < 0 && y < 0 then Order(y, x) else Order(x, y)
    ensures Compare(Decimal(x), Decimal(y), fold) == Order(x, y) <==> !(x < 0 && y < 0 && x != y)
  {
    hide Digits, Compare;
    var m, n := if x < 0 then -x else x, if y < 0 then -y else y;
    var a, b := Digits(m, 10, false), Digits(n, 10, false);
    ValueDigits(m, 10, false);
    ValueDigits(n, 10, false);
    CompareDigits(m, n, fold);
    if x < 0 {
      CompareSigns(a, b, fold);
    } else if y < 0 {
      CompareSigns(b, a, fold);
      Antisymmetric([MINUS] + b, a, fold);
    }
  }
}
