// The natural order is a total preorder: it can be sorted by.
module NatCompareOrder {
  import opened Text
  import opened Numbers
  import opened NatCompare
  import opened NatCompareLaws
  import opened NatCompareTexts

  /** Two results in a row, and the result of the first and the last: at most equal, and equal exactly if both are. */
  predicate Chained(r: int, s: int, t: int) {
    r <= 0 && s <= 0 ==> t <= 0 && (t == 0 <==> r == 0 && s == 0)
  }

  /** The run of digits at the start. */
  function RunOf(s: CString): (r: CString)
    ensures |r| <= |s| && s[..|r|] == r && NoDigit(s[|r|..]) && NatCompareTexts.AllDigits(r)
    ensures r != [] <==> StartsDigit(s)
  {
    if StartsDigit(s) then [s[0]] + RunOf(s[1..]) else []
  }

  lemma RunsOfRuns(s: CString, t: CString)
    requires StartsDigit(s) && StartsDigit(t)
    ensures Runs(s, t) == Runs(RunOf(s), RunOf(t))
  {
    hide Runs;
    var a, b := RunOf(s), RunOf(t);
    RunsSuffix(a, b, s[|a|..], t[|b|..]);
    assert s == a + s[|a|..] && t == b + t[|b|..];
  }

  lemma {:induction false} LeftChained(a: CString, b: CString, c: CString)
    ensures Chained(Left(a, b), Left(b, c), Left(a, c))
  {
    if StartsDigit(a) && StartsDigit(b) && StartsDigit(c) {
      LeftChained(a[1..], b[1..], c[1..]);
    }
  }

  /** Runs without leading zeros: the longer one is greater, and those of one length compare as texts. */
  lemma RightAs(a: CString, b: CString)
    requires NatCompareTexts.AllDigits(a) && NatCompareTexts.AllDigits(b)
    ensures Right(a, b, 0) == if |a| != |b| then Order(|a|, |b|) else Left(a, b)
  {
    if |a| < |b| {
      RightLonger(a, b, 0);
    } else if |a| > |b| {
      RightLonger(b, a, 0);
      RightFlips(b, a, 0);
    } else {
      RightSame(a, b, 0);
      LeftSame(a, b);
    }
  }

  lemma {:induction false} LeftSame(a: CString, b: CString)
    requires NatCompareTexts.AllDigits(a) && NatCompareTexts.AllDigits(b) && |a| == |b|
    ensures Left(a, b) == Difference(a, b)
  {
    if a != [] {
      LeftSame(a[1..], b[1..]);
    }
  }

  lemma RunsChained(a: CString, b: CString, c: CString)
    requires NatCompareTexts.AllDigits(a) && NatCompareTexts.AllDigits(b) && NatCompareTexts.AllDigits(c)
    requires a != [] && b != [] && c != []
    ensures Chained(Runs(a, b), Runs(b, c), Runs(a, c))
  {
    hide Right;
    LeftChained(a, b, c);
    RightAs(a, b);
    RightAs(b, c);
    RightAs(a, c);
  }

  /** What the heads of two texts decide. */
  function Heads(x: CString, y: CString, fold: bool): int {
    if Runs(x, y) != 0 then Runs(x, y) else Order(Weight(x, fold), Weight(y, fold))
  }

  lemma CompareByHeads(a: CString, b: CString, fold: bool)
    ensures var (x, y) := (Trim(a), Trim(b));
      && (Heads(x, y, fold) != 0 ==> Compare(a, b, fold) == Heads(x, y, fold))
      && (Heads(x, y, fold) == 0 ==> (x == [] <==> y == []))
      && (Heads(x, y, fold) == 0 ==> Compare(a, b, fold) == if x == [] then 0 else Compare(x[1..], y[1..], fold))
  {
    hide Trim, Runs, Weight;
    var x, y := Trim(a), Trim(b);
    if Heads(x, y, fold) == 0 && (x != [] || y != []) {
      Zero(x, y, fold);
    }
  }

  /** Digits and other characters never weigh the same, and no other character weighs between two digits. */
  lemma DigitWeight(x: CString, fold: bool)
    ensures StartsDigit(x) <==> 48 <= Weight(x, fold) <= 57
    ensures StartsDigit(x) ==> Weight(x, fold) == x[0]
  {
  }

  lemma EqualRunsWeigh(x: CString, y: CString, fold: bool)
    requires StartsDigit(x) && StartsDigit(y) && Runs(x, y) == 0
    ensures Weight(x, fold) == Weight(y, fold)
  {
    DigitWeight(x, fold);
    DigitWeight(y, fold);
    RunsOfRuns(x, y);
    RightAs(RunOf(x), RunOf(y));
  }

  lemma HeadsAs(x: CString, y: CString, fold: bool)
    ensures Heads(x, y, fold) ==
      if StartsDigit(x) && StartsDigit(y) then Runs(x, y) else Order(Weight(x, fold), Weight(y, fold))
  {
    hide Weight;
    if StartsDigit(x) && StartsDigit(y) && Runs(x, y) == 0 {
      EqualRunsWeigh(x, y, fold);
    }
  }

  lemma HeadsChained(x: CString, y: CString, z: CString, fold: bool)
    ensures Chained(Heads(x, y, fold), Heads(y, z, fold), Heads(x, z, fold))
  {
    hide Runs, Weight, Heads, RunOf;
    DigitWeight(x, fold);
    DigitWeight(y, fold);
    DigitWeight(z, fold);
    HeadsAs(x, y, fold);
    HeadsAs(y, z, fold);
    HeadsAs(x, z, fold);
    if StartsDigit(x) && StartsDigit(y) && StartsDigit(z) {
      RunsOfRuns(x, y);
      RunsOfRuns(y, z);
      RunsOfRuns(x, z);
      RunsChained(RunOf(x), RunOf(y), RunOf(z));
    }
  }

  /** The order is transitive; with Antisymmetric it is a total preorder. */
  lemma {:induction false} Transitive(a: CString, b: CString, c: CString, fold: bool)
    ensures Chained(Compare(a, b, fold), Compare(b, c, fold), Compare(a, c, fold))
    decreases |a|
  {
    hide Compare, Heads, Trim;
    CompareByHeads(a, b, fold);
    CompareByHeads(b, c, fold);
    CompareByHeads(a, c, fold);
    var x, y, z := Trim(a), Trim(b), Trim(c);
    HeadsChained(x, y, z, fold);
    if Heads(x, y, fold) == 0 && Heads(y, z, fold) == 0 && x != [] {
      TrimShort(a);
      Transitive(x[1..], y[1..], z[1..], fold);
    }
  }

  /** So texts that compare equal compare alike with every other one. */
  lemma EqualAlike(a: CString, b: CString, c: CString, fold: bool)
    requires Compare(a, b, fold) == 0
    ensures Compare(a, c, fold) == Compare(b, c, fold)
  {
    hide Compare;
    Antisymmetric(a, b, fold);
    Antisymmetric(b, c, fold);
    Antisymmetric(a, c, fold);
    Transitive(a, b, c, fold);
    Transitive(b, a, c, fold);
    Transitive(c, b, a, fold);
    Transitive(c, a, b, fold);
    Results(a, c, fold);
    Results(b, c, fold);
  }

  lemma {:induction false} Results(a: CString, b: CString, fold: bool)
    ensures Compare(a, b, fold) in {-1, 0, 1}
    decreases |a|
  {
    hide Right, Left, Trim, Weight;
    var x, y := Trim(a), Trim(b);
    RightResults(x, y, 0);
    LeftResults(x, y);
    if Runs(x, y) == 0 && (x != [] || y != []) && Weight(x, fold) == Weight(y, fold) {
      Zero(x, y, fold);
      TrimShort(a);
      Results(x[1..], y[1..], fold);
    }
  }

  lemma {:induction false} RightResults(a: CString, b: CString, bias: int)
    requires bias in {-1, 0, 1}
    ensures Right(a, b, bias) in {-1, 0, 1}
  {
    if StartsDigit(a) && StartsDigit(b) {
      RightResults(a[1..], b[1..], if bias == 0 then Order(a[0], b[0]) else bias);
    }
  }

  lemma {:induction false} LeftResults(a: CString, b: CString)
    ensures Left(a, b) in {-1, 0, 1}
  {
    if StartsDigit(a) && StartsDigit(b) {
      LeftResults(a[1..], b[1..]);
    }
  }
}
