// Numbers that do not fit: whether apr_strtoi64 reports them depends on the base.
module NumberRange {
  import opened Text
  import opened Numbers
  import opened NumberText

  const WORD: int := 0x1_0000_0000_0000_0000

  /** A numeral is read right: it has its value, or is reported to be out of range. */
  ghost predicate ReadRight(s: CString, base: int) {
    var r := Analyse(s, base);
    GoodBase(r.base) ==>
      var v := Sign(r.neg, Magnitude(s, base));
      CountUp(r.neg, s[r.from..][..Run(s[r.from..], r.base)], r.base) == if InRange(v) then Within(v) else Beyond
  }

  lemma Wrapped(x: int, k: int)
    requires InRange(x - k * WORD)
    ensures ToInt64(x) == x - k * WORD
  {
    assert x - INT64_MIN == (x - k * WORD - INT64_MIN) + k * WORD;
    assert ((x - k * WORD - INT64_MIN) + k * WORD) % WORD == (x - k * WORD - INT64_MIN) % WORD;
  }

  /** In base 2, and for positive numbers in base 3, the first digit too many is noticed. */
  lemma StepNoticed(neg: bool, base: nat, acc: int, c: nat)
    requires base == 2 || (base == 3 && !neg)
    requires c < base && InRange(acc) && (if neg then acc <= 0 else acc >= 0) && !InRange(acc * base + Sign(neg, c))
    ensures AddTo(neg, base, acc, c) == Beyond
  {
    var m := acc * base;
    if InRange(m) {
      Wrapped(m, 0);
      Wrapped(m + Sign(neg, c), if neg then -1 else 1);
    } else {
      Wrapped(m, if neg then -1 else 1);
    }
  }

  lemma {:induction false} CountNoticed(neg: bool, ds: CString, base: nat)
    requires (base == 2 || (base == 3 && !neg)) && AllDigits(ds, base) && !InRange(Sign(neg, Value(ds, base)))
    ensures CountUp(neg, ds, base) == Beyond
  {
    hide Value, DigitValue, AddTo;
    if ds == [] {
      ValueNone(base);
    } else {
      var i := |ds| - 1;
      SignNext(ds, 0, i, base, neg);
      assert ds[0..i] == ds[..i] && ds[0..i + 1] == ds;
      var acc := Sign(neg, Value(ds[..i], base));
      if InRange(acc) {
        CountExact(neg, ds[..i], base);
        StepNoticed(neg, base, acc, DigitValue(ds[i]));
      } else {
        CountNoticed(neg, ds[..i], base);
      }
    }
  }

  /** What the 64 bits hold after one digit more can look like a larger number. */
  lemma StepSlips(neg: bool, base: nat, a: nat)
    requires a + WORD <= a * base && (if neg then a * base <= WORD + WORD / 2 else a * base < WORD + WORD / 2)
    ensures AddTo(neg, base, Sign(neg, a), 0) == Within(Sign(neg, a * base - WORD))
  {
    hide ToInt64;
    var k := if neg then -1 else 1;
    assert Sign(neg, a) * base == Sign(neg, a * base);
    Wrapped(Sign(neg, a * base), k);
    Wrapped(Sign(neg, a * base - WORD), 0);
  }

  /** Where to find one. */
  lemma Slippery(base: nat, a: nat)
    requires if base == 3 then a == WORD / 2 else 4 <= base <= 36 && a == (WORD + base - 2) / (base - 1)
    ensures 0 < a && a + WORD <= a * base <= WORD + WORD / 2
    ensures base > 3 ==> a < WORD / 2 && a * base < WORD + WORD / 2
  {
    if base > 3 {
      var d := base - 1;
      CeilingOf(WORD, d, a);
      assert a * base == d * a + a;
      Scale(a, d);
      ThreeTimes(a, d);
    }
  }

  lemma ThreeTimes(a: nat, d: nat)
    requires d >= 3
    ensures 3 * a <= d * a
  {
  }

  lemma CeilingOf(n: nat, d: nat, a: nat)
    requires d > 0 && a == (n + d - 1) / d
    ensures n <= d * a < n + d
  {
    assert n + d - 1 == d * a + (n + d - 1) % d;
  }

  function Letter(d: nat): (c: Byte)
    requires d < 36
    ensures c != 0 && DigitValue(c) == d && (d > 0 ==> 49 <= c <= 122 && (c <= 57 || 97 <= c))
  {
    if d < 10 then 48 + d else 87 + d
  }

  lemma Divided(n: nat, b: nat)
    requires 2 <= b <= n
    ensures 0 < n / b < n && (n / b) * b + n % b == n
  {
  }

  /** A numeral for n. */
  lemma {:induction false} SpellOut(n: nat, b: nat) returns (ds: CString)
    requires 2 <= b <= 36
    ensures ds != [] && AllDigits(ds, b) && Value(ds, b) == n
    ensures n > 0 ==> 49 <= ds[0] <= 122 && (ds[0] <= 57 || 97 <= ds[0])
  {
    hide Value, DigitValue;
    if n < b {
      ds := [Letter(n)];
      ValueNone(b);
      NumeralSnoc([], Letter(n), b, 0, n);
      assert [] + ds == ds;
    } else {
      Divided(n, b);
      var front := SpellOut(n / b, b);
      ds := front + [Letter(n % b)];
      NumeralSnoc(front, Letter(n % b), b, n / b, n % b);
    }
  }

  /** A numeral is read as its digits say. */
  lemma AnalyseSpelled(ds: CString, base: nat, neg: bool) returns (s: CString)
    requires ds != [] && 2 <= base <= 36 && AllDigits(ds, base) && 49 <= ds[0] <= 122 && (ds[0] <= 57 || 97 <= ds[0])
    ensures var r := Analyse(s, base);
      r == Numeral(neg, r.from, base) && s[r.from..] == ds && Run(s[r.from..], base) == |ds|
  {
    hide Run, DigitValue;
    NoSpace(ds);
    assert ds[0..] == ds && ds + [] == ds;
    RunDigits(ds, [], base);
    if neg {
      s := [MINUS] + ds;
      AnalyseMinus(ds, base, base);
    } else {
      s := ds;
    }
  }

  /** In base 4 and above, and for negative numbers in base 3, there is a number too large that is not reported. */
  lemma Slips(base: nat, neg: bool) returns (s: CString)
    requires 3 <= base <= 36 && (base == 3 ==> neg)
    ensures Analyse(s, base).neg == neg && !ReadRight(s, base)
  {
    hide Value, Analyse, Run, AddTo, DigitValue;
    var a := if base == 3 then WORD / 2 else (WORD + base - 2) / (base - 1);
    Slippery(base, a);
    StepSlips(neg, base, a);
    var front := SpellOut(a, base);
    var ds := front + [ZERO];
    ZeroDigit();
    NumeralSnoc(front, ZERO, base, a, 0);
    s := AnalyseSpelled(ds, base, neg);
    CountExact(neg, front, base);
    CountNext(neg, ds, 0, |front|, base);
    assert ds[0..|front| + 1] == ds && ds[0..|front|] == front && ds[..|ds|] == ds;
  }

  lemma ZeroDigit()
    ensures DigitValue(ZERO) == 0
  {
  }

  lemma ReadsRight(s: CString, base: int)
    requires GoodBase(base) && (base == 2 || (base == 3 && !Analyse(s, base).neg))
    ensures ReadRight(s, base)
  {
    hide Value, DigitValue, Run, CountUp, Analyse;
    var r := Analyse(s, base);
    BaseKept(s, base);
    RunIsDigits(s[r.from..], base);
    var ds := s[r.from..][..Run(s[r.from..], base)];
    if InRange(Sign(r.neg, Value(ds, base))) {
      CountExact(r.neg, ds, base);
    } else {
      CountNoticed(r.neg, ds, base);
    }
  }

  lemma BaseKept(s: CString, base: int)
    requires GoodBase(base)
    ensures Analyse(s, base).base == base
  {
  }

  /**
   * apr_strtoi64 reports every number that does not fit exactly in base 2, and every positive one in base 2
   * and 3. In all other bases, 10 among them, it takes some of them for others that fit.
   */
  lemma RangeReported(base: int)
    requires GoodBase(base)
    ensures (forall s: CString :: ReadRight(s, base)) <==> base == 2
    ensures (forall s: CString :: !Analyse(s, base).neg ==> ReadRight(s, base)) <==> base <= 3
  {
    hide ReadRight, Analyse;
    forall s: CString | base == 2 || (base == 3 && !Analyse(s, base).neg) ensures ReadRight(s, base) {
      ReadsRight(s, base);
    }
    if base > 2 {
      var s := Slips(base, true);
    }
    if base > 3 {
      var s := Slips(base, false);
    }
  }

  function Zeros(k: nat): (s: CString)
    ensures |s| == k
  {
    seq(k, i => ZERO)
  }

  lemma {:induction false} TwentyOneZeros(k: nat)
    ensures AllDigits([50, 49] + Zeros(k), 10) && Value([50, 49] + Zeros(k), 10) == 21 * Power10(k)
  {
    hide DigitValue;
    if k == 0 {
      ValueNone(10);
      FirstDigits();
      NumeralSnoc([], 50, 10, 0, 2);
      NumeralSnoc([50], 49, 10, 2, 1);
      assert [50, 49] + Zeros(0) == [50] + [49] && [] + [50] == [50];
    } else {
      TwentyOneZeros(k - 1);
      ZeroDigit();
      NumeralSnoc([50, 49] + Zeros(k - 1), ZERO, 10, 21 * Power10(k - 1), 0);
      assert [50, 49] + Zeros(k) == [50, 49] + Zeros(k - 1) + [ZERO];
    }
  }

  lemma FirstDigits()
    ensures DigitValue(50) == 2 && DigitValue(49) == 1
  {
  }

  /** In base 10 one of them is 21 with 18 zeros, which comes out as another number. */
  method TwentyOne() returns (s: CString, value: int, errno: Errno, end: nat)
    ensures s == [50, 49] + Zeros(18) && Analyse(s, 10) == Numeral(false, 0, 10) && Run(s, 10) == |s|
    ensures Value(s, 10) == 21_000_000_000_000_000_000
    ensures value == 2_553_255_926_290_448_384 && errno == NoError && end == |s|
  {
    hide Value, Run, CountUp, Analyse, DigitValue, AddTo, AllDigits;
    s := [50, 49] + Zeros(18);
    TwentyOneCount(s);
    value, errno, end := Strtoi64(s, 10);
  }

  lemma Powers()
    ensures Power10(17) == 100_000_000_000_000_000 && Power10(18) == 1_000_000_000_000_000_000
  {
    assert Power10(3) == 1_000;
    assert Power10(5) == 100_000;
    assert Power10(7) == 10_000_000;
    assert Power10(9) == 1_000_000_000;
    assert Power10(11) == 100_000_000_000;
    assert Power10(13) == 10_000_000_000_000;
    assert Power10(15) == 1_000_000_000_000_000;
  }

  lemma TwentyOneCount(s: CString)
    requires s == [50, 49] + Zeros(18)
    ensures Analyse(s, 10) == Numeral(false, 0, 10) && Run(s, 10) == |s| && s[0..][..|s|] == s
    ensures Value(s, 10) == 21_000_000_000_000_000_000
    ensures CountUp(false, s, 10) == Within(2_553_255_926_290_448_384)
  {
    hide Value, Run, CountUp, DigitValue, AddTo, AllDigits;
    TwentyOneZeros(18);
    TwentyOneZeros(17);
    Powers();
    var front := [50, 49] + Zeros(17);
    assert s == front + [ZERO] && s + [] == s;
    RunDigits(s, [], 10);
    NoSpace(s);
    ZeroDigit();
    CountExact(false, front, 10);
    CountNext(false, s, 0, |front|, 10);
    assert s[0..|front|] == front && s[0..|front| + 1] == s;
    StepSlips(false, 10, 2_100_000_000_000_000_000);
  }
}
