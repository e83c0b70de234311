// Reading integers: apr_strtoi64, which undoes the printing routines.
module NumberText {
  import opened Text
  import opened Numbers

  const PLUS: Byte := 43

  datatype Errno = NoError | EINVAL | ERANGE

  predicate Space(c: Byte) {
    c == 32 || 9 <= c <= 13
  }

  /** The value of a digit, too large for any base if it is none. */
  function DigitValue(c: Byte): nat {
    if 48 <= c <= 57 then c - 48
    else if 65 <= c <= 90 then c - 55
    else if 97 <= c <= 122 then c - 87
    else 99
  }

  /** The number of digits at the start of s. */
  function Run(s: CString, base: nat): (n: nat)
    ensures n <= |s| && (n < |s| ==> DigitValue(s[n]) >= base)
    ensures forall k :: 0 <= k < n ==> DigitValue(s[k]) < base
  {
    if s == [] || DigitValue(s[0]) >= base then 0 else 1 + Run(s[1..], base)
  }

  /** The number that digits stand for. */
  function Value(ds: CString, base: nat): nat {
    if ds == [] then 0 else Value(ds[..|ds| - 1], base) * base + DigitValue(ds[|ds| - 1])
  }

  function SkipSpace(s: CString): (n: nat)
    ensures n <= |s| && (n < |s| ==> !Space(s[n]))
  {
    if s != [] && Space(s[0]) then 1 + SkipSpace(s[1..]) else 0
  }

  /** Where the digits start and in which base, for a text that starts with its sign or its first digit. */
  function Prefix(s: CString, base: int): (r: (nat, int))
    ensures r.0 <= |s|
  {
    if (base == 0 || base == 16) && |s| > 1 && s[0] == ZERO && (s[1] == 120 || s[1] == 88) then (2, 16)
    else if base == 0 then (0, if s != [] && s[0] == ZERO then 8 else 10)
    else (0, base)
  }

  predicate HasSign(s: CString) {
    s != [] && (s[0] == MINUS || s[0] == PLUS)
  }

  /** The parts of a numeral: its sign, the position of its digits, its base. */
  datatype Numeral = Numeral(neg: bool, from: nat, base: int)

  function Analyse(s: CString, base: int): (r: Numeral)
    ensures r.from <= |s|
  {
    var i := SkipSpace(s);
    var j := if HasSign(s[i..]) then i + 1 else i;
    var (k, b) := Prefix(s[j..], base);
    Numeral(i < |s| && s[i] == MINUS, j + k, b)
  }

  predicate GoodBase(base: int) {
    2 <= base <= 36
  }

  /** The magnitude of the numeral at the start of s. */
  function Magnitude(s: CString, base: int): nat
    requires GoodBase(Analyse(s, base).base)
  {
    var r := Analyse(s, base);
    Value(s[r.from..][..Run(s[r.from..], r.base)], r.base)
  }

  predicate InRange(v: int) {
    INT64_MIN <= v <= INT64_MAX
  }

  function Sign(neg: bool, m: int): int {
    if neg then -m else m
  }

  lemma PrefixAt(s: CString, i: nat, base: int)
    requires i <= |s|
    ensures Prefix(s[i..], base) ==
      if (base == 0 || base == 16) && At(s, i) == ZERO && (At(s, i + 1) == 120 || At(s, i + 1) == 88) then (2, 16)
      else (0, if base != 0 then base else if At(s, i) == ZERO then 8 else 10)
  {
  }

  /** The leading part of apr_strtoi64: white space, sign and base prefix. */
  method ReadPrefix(nptr: CString, base: int) returns (i: nat, neg: bool, base': int)
    ensures Analyse(nptr, base) == Numeral(neg, i, base')
    ensures i <= |nptr|
  {
    hide Prefix, HasSign;
    i := 0;
    assert nptr[0..] == nptr;
    SpaceNext(nptr, 0);
    while Space(At(nptr, i))
      invariant i <= |nptr| && SkipSpace(nptr) == i + SkipSpace(nptr[i..])
      decreases |nptr| - i
    {
      SpaceNext(nptr, i);
      i := i + 1;
    }
    SpaceNext(nptr, i);
    SignAt(nptr, i);
    neg, base' := false, base;
    if At(nptr, i) == MINUS {
      neg := true;
      i := i + 1;
    } else if At(nptr, i) == PLUS {
      i := i + 1;
    }
    PrefixAt(nptr, i, base);
    if (base == 0 || base == 16) && At(nptr, i) == ZERO && (At(nptr, i + 1) == 120 || At(nptr, i + 1) == 88) {
      i, base' := i + 2, 16;
    }
    if base' == 0 {
      base' := if At(nptr, i) == ZERO then 8 else 10;
    }
  }

  lemma SpaceNext(s: CString, i: nat)
    requires i <= |s|
    ensures Space(At(s, i)) ==> i < |s| && SkipSpace(s[i..]) == 1 + SkipSpace(s[i + 1..])
    ensures !Space(At(s, i)) ==> SkipSpace(s[i..]) == 0
  {
    if i < |s| {
      SuffixOf(s, i, 1);
    }
  }

  lemma SignAt(s: CString, i: nat)
    requires i <= |s|
    ensures HasSign(s[i..]) <==> At(s, i) == MINUS || At(s, i) == PLUS
  {
  }

  /** One more digit. */
  lemma ValueNext(s: CString, from: nat, i: nat, base: nat)
    requires from <= i < |s|
    ensures Value(s[from..i + 1], base) == Value(s[from..i], base) * base + DigitValue(s[i])
    ensures base > 0 ==> Value(s[from..i + 1], base) >= Value(s[from..i], base) * base >= Value(s[from..i], base)
  {
    var t := s[from..i + 1];
    assert t[..|t| - 1] == s[from..i];
    if base > 0 {
      assert Value(s[from..i], base) * base >= Value(s[from..i], base) * 1;
    }
  }

  lemma SignNext(s: CString, from: nat, i: nat, base: nat, neg: bool)
    requires from <= i < |s| && base >= 2
    ensures var v, w := Sign(neg, Value(s[from..i], base)), Sign(neg, Value(s[from..i + 1], base));
      && w == v * base + Sign(neg, DigitValue(s[i]))
      && (InRange(w) ==> InRange(v)) && (if neg then v <= 0 else v >= 0)
  {
    hide Value;
    ValueNext(s, from, i, base);
    var v := Value(s[from..i], base);
    assert (-v) * base == -(v * base);
  }

  lemma RunNext(s: CString, i: nat, base: nat)
    requires i <= |s|
    ensures i < |s| && DigitValue(s[i]) < base ==> Run(s[i..], base) == 1 + Run(s[i + 1..], base)
    ensures i == |s| || DigitValue(s[i]) >= base ==> Run(s[i..], base) == 0
  {
    if i < |s| {
      SuffixOf(s, i, 1);
    }
  }

  lemma Scale(a: int, base: int)
    requires base >= 1
    ensures a >= 0 ==> a * base >= a
    ensures a <= 0 ==> a * base <= a
  {
  }

  /** What apr_strtoi64 has of a number: its value so far, or the knowledge that it is too large. */
  datatype Count = Within(acc: int) | Beyond

  /** One digit more, on 64 bits: an overflow is noticed if the number seems to come nearer to zero. */
  function AddTo(neg: bool, base: int, acc: int, c: nat): Count {
    var x := ToInt64(acc * base);
    if neg then if x > acc || ToInt64(x - c) > acc then Beyond else Within(ToInt64(x - c))
    else if x < acc || ToInt64(x + c) < acc then Beyond else Within(ToInt64(x + c))
  }

  /** All digits. */
  function CountUp(neg: bool, ds: CString, base: int): (r: Count)
    ensures r.Within? ==> InRange(r.acc)
  {
    if ds == [] then Within(0)
    else match CountUp(neg, ds[..|ds| - 1], base)
      case Beyond => Beyond
      case Within(acc) => AddTo(neg, base, acc, DigitValue(ds[|ds| - 1]))
  }

  lemma CountNext(neg: bool, s: CString, from: nat, i: nat, base: int)
    requires from <= i < |s|
    ensures CountUp(neg, s[from..i + 1], base) ==
      match CountUp(neg, s[from..i], base)
      case Beyond => Beyond
      case Within(acc) => AddTo(neg, base, acc, DigitValue(s[i]))
  {
    var t := s[from..i + 1];
    assert t[..|t| - 1] == s[from..i] && t[|t| - 1] == s[i];
  }

  /** A number that fits is counted right. */
  lemma {:induction false} CountExact(neg: bool, ds: CString, base: nat)
    requires base >= 2 && AllDigits(ds, base) && InRange(Sign(neg, Value(ds, base)))
    ensures CountUp(neg, ds, base) == Within(Sign(neg, Value(ds, base)))
  {
    hide Value, DigitValue;
    if ds == [] {
      ValueNone(base);
    } else {
      var i := |ds| - 1;
      SignNext(ds, 0, i, base, neg);
      assert ds[0..i] == ds[..i] && ds[0..i + 1] == ds;
      CountExact(neg, ds[..i], base);
      AddExact(neg, base, Sign(neg, Value(ds[..i], base)), DigitValue(ds[i]));
    }
  }

  lemma AddExact(neg: bool, base: int, acc: int, c: nat)
    requires base >= 2 && (if neg then acc <= 0 else acc >= 0)
    requires InRange(acc) && InRange(acc * base + Sign(neg, c))
    ensures AddTo(neg, base, acc, c) == Within(acc * base + Sign(neg, c))
  {
    Scale(acc, base);
  }

  /** One digit of apr_strtoi64; any < 0 means that an overflow was noticed. */
  method AddDigit(neg: bool, base: int, c: nat, acc: int, val: int, any: int) returns (acc': int, val': int, any': int)
    requires any >= 0 ==> acc == val
    ensures any' == if any < 0 || AddTo(neg, base, acc, c) == Beyond then -1 else 1
    ensures any' == -1 ==> acc' == acc
    ensures any' == 1 ==> acc' == val' == AddTo(neg, base, acc, c).acc
  {
    hide ToInt64;
    acc', val', any' := acc, ToInt64(val * base), -1;
    if any < 0 {
    } else if neg {
      if val' <= acc {
        val' := ToInt64(val' - c);
        if val' <= acc {
          acc', any' := val', 1;
        }
      }
    } else {
      if val' >= acc {
        val' := ToInt64(val' + c);
        if val' >= acc {
          acc', any' := val', 1;
        }
      }
    }
  }

  /**
   * apr_strtoi64: white space, sign and prefix are skipped, and the digits are counted (CountUp). A number that
   * fits is found as it is; for one that does not, see NumberRange.
   */
  method Strtoi64(nptr: CString, base: int) returns (acc: int, errno: Errno, end: nat)
    ensures InRange(acc)
    ensures var r := Analyse(nptr, base);
      && (!GoodBase(r.base) ==> acc == 0 && errno == EINVAL && end == 0)
      && (GoodBase(r.base) ==>
        var n := Run(nptr[r.from..], r.base);
        var v, count := Sign(r.neg, Magnitude(nptr, base)), CountUp(r.neg, nptr[r.from..][..n], r.base);
        && (n == 0 ==> acc == 0 && errno == EINVAL && end == 0)
        && (n > 0 ==> end == r.from + n)
        && (n > 0 && count.Within? ==> acc == count.acc && errno == NoError)
        && (n > 0 && count.Beyond? ==> acc == (if r.neg then INT64_MIN else INT64_MAX) && errno == ERANGE)
        && (n > 0 && InRange(v) ==> acc == v && errno == NoError))
  {
    hide Analyse, Run, Value, InRange, ToInt64, CountUp, AddTo, DigitValue;
    RangeZero();
    var i, neg, b := ReadPrefix(nptr, base);
    if !GoodBase(b) {
      return 0, EINVAL, 0;
    }
    var val, any := 0, 0;
    acc := 0;
    ghost var from := i;
    assert nptr[from..from] == [];
    CountNone(neg, b);
    while DigitValue(At(nptr, i)) < b
      invariant from <= i <= |nptr| && Run(nptr[from..], b) == i - from + Run(nptr[i..], b)
      invariant (any == 0 <==> i == from) && InRange(acc) && (any >= 0 ==> acc == val) && (any == 0 ==> acc == 0)
      invariant CountUp(neg, nptr[from..i], b) == if any < 0 then Beyond else Within(acc)
      decreases |nptr| - i
    {
      NoDigitEnd(b);
      CountNext(neg, nptr, from, i, b);
      RunNext(nptr, i, b);
      acc, val, any := AddDigit(neg, b, DigitValue(At(nptr, i)), acc, val, any);
      i := i + 1;
    }
    RunNext(nptr, i, b);
    assert nptr[from..][..i - from] == nptr[from..i];
    RunIsDigits(nptr[from..], b);
    if InRange(Sign(neg, Value(nptr[from..i], b))) {
      CountExact(neg, nptr[from..i], b);
    }
    errno := NoError;
    if any < 0 {
      acc, errno := if neg then INT64_MIN else INT64_MAX, ERANGE;
    } else if any == 0 {
      errno := EINVAL;
    }
    end := if any != 0 then i else 0;
  }

  lemma NoDigitEnd(base: int)
    requires base <= 36
    ensures DigitValue(0) >= base
  {
  }

  lemma CountNone(neg: bool, base: int)
    ensures CountUp(neg, [], base) == Within(0)
  {
  }

  lemma RunIsDigits(s: CString, base: nat)
    ensures AllDigits(s[..Run(s, base)], base)
  {
  }

  lemma ValueNone(base: nat)
    ensures Value([], base) == 0 && AllDigits([], base)
  {
  }

  lemma RangeZero()
    ensures InRange(0) && InRange(INT64_MIN) && InRange(INT64_MAX)
  {
  }

  /** apr_strtoi64 finds the number v in base b and stops at position end. */
  ghost predicate Reads(s: CString, base: int, v: int, end: nat) {
    var r := Analyse(s, base);
    && GoodBase(r.base) && Run(s[r.from..], r.base) > 0
    && end == r.from + Run(s[r.from..], r.base) && v == Sign(r.neg, Magnitude(s, base))
  }

  predicate AllDigits(ds: CString, base: nat) {
    forall k :: 0 <= k < |ds| ==> DigitValue(ds[k]) < base
  }

  /** The text after a numeral starts with something else. */
  predicate NoDigit(rest: CString, base: nat) {
    rest != [] ==> DigitValue(rest[0]) >= base && rest[0] != 120 && rest[0] != 88
  }

  lemma {:induction false} RunDigits(ds: CString, rest: CString, base: nat)
    requires AllDigits(ds, base) && NoDigit(rest, base)
    ensures Run(ds + rest, base) == |ds|
  {
    if ds == [] {
      assert ds + rest == rest;
    } else {
      assert (ds + rest)[1..] == ds[1..] + rest;
      RunDigits(ds[1..], rest, base);
    }
  }

  lemma ValueSnoc(front: CString, c: Byte, base: nat)
    requires c != 0
    ensures Value(front + [c], base) == Value(front, base) * base + DigitValue(c)
  {
    assert (front + [c])[..|front|] == front;
  }

  lemma DigitFits(d: nat, upper: bool)
    requires d < 16
    ensures DigitValue(DigitChar(d, upper)) == d && (DigitChar(d, upper) == ZERO <==> d == 0)
  {
  }

  /** Numerals are unambiguous: their value is the number, and only zero starts with a zero. */
  lemma {:induction false} ValueDigits(n: nat, base: nat, upper: bool)
    requires 2 <= base <= 16
    ensures var ds := Digits(n, base, upper);
      Value(ds, base) == n && AllDigits(ds, base) && (ds[0] == ZERO <==> n == 0) && (n == 0 ==> ds == [ZERO])
  {
    hide Value, DigitValue, DigitChar, AllDigits;
    Quotient(n, base);
    DigitFits(n % base, upper);
    if n < base {
      assert n % base == n;
      ValueNone(base);
      NumeralSnoc([], DigitChar(n, upper), base, 0, n);
      assert Digits(n, base, upper) == [] + [DigitChar(n, upper)];
      DigitFits(0, upper);
    } else {
      ValueDigits(n / base, base, upper);
      NumeralSnoc(Digits(n / base, base, upper), DigitChar(n % base, upper), base, n / base, n % base);
    }
  }

  /** One more digit behind a numeral. */
  lemma NumeralSnoc(front: CString, c: Byte, base: nat, q: nat, d: nat)
    requires c != 0 && DigitValue(c) == d < base && Value(front, base) == q && AllDigits(front, base)
    ensures Value(front + [c], base) == base * q + d && AllDigits(front + [c], base)
  {
    hide DigitValue, Value;
    ValueSnoc(front, c, base);
  }

  lemma {:induction false} NoSpace(s: CString)
    requires s != [] ==> !Space(s[0])
    ensures SkipSpace(s) == 0
  {
  }

  lemma PrefixDigits(ds: CString, rest: CString, base: int)
    requires ds != [] && AllDigits(ds, 16) && (ds[0] == ZERO ==> ds == [ZERO])
    requires rest != [] ==> rest[0] != 120 && rest[0] != 88
    ensures Prefix(ds + rest, base) == (0, if base != 0 then base else if ds[0] == ZERO then 8 else 10)
    ensures !HasSign(ds + rest) && SkipSpace(ds + rest) == 0
  {
    var s: CString := ds + rest;
    assert s[0] == ds[0] && (|s| > 1 ==> s[1] == if |ds| > 1 then ds[1] else rest[0]);
  }

  /** Once the text is analysed, its digits tell the number. */
  lemma ReadsDigits(s: CString, base: int, r: Numeral, ds: CString, rest: CString)
    requires Analyse(s, base) == r && GoodBase(r.base) && s[r.from..] == ds + rest
    requires ds != [] && AllDigits(ds, r.base) && NoDigit(rest, r.base)
    ensures Reads(s, base, Sign(r.neg, Value(ds, r.base)), r.from + |ds|)
  {
    hide Analyse, Value;
    RunDigits(ds, rest, r.base);
    assert (ds + rest)[..|ds|] == ds;
  }

  /** Digits alone. */
  lemma ReadPlain(ds: CString, rest: CString, base: int, b: nat)
    requires ds != [] && 2 <= b <= 16 && AllDigits(ds, b) && NoDigit(rest, b) && (ds[0] == ZERO ==> ds == [ZERO])
    requires b == if base != 0 then base else if ds[0] == ZERO then 8 else 10
    ensures Analyse(ds + rest, base) == Numeral(false, 0, b) && Reads(ds + rest, base, Value(ds, b), |ds|)
  {
    hide SkipSpace, Run, Value, Prefix;
    var t := ds + rest;
    PrefixDigits(ds, rest, base);
    RunDigits(ds, rest, b);
    assert t[0..] == t && t[..|ds|] == ds;
  }

  lemma AnalyseMinus(t: CString, base: int, b: int)
    requires !HasSign(t) && Prefix(t, base) == (0, b)
    ensures Analyse([MINUS] + t, base) == Numeral(true, 1, b) && ([MINUS] + t)[1..] == t
  {
    var s: CString := [MINUS] + t;
    assert s[0..] == s && s[1..] == t && !Space(s[0]);
  }

  /** A minus sign and digits. */
  lemma ReadMinus(ds: CString, rest: CString, base: int, b: nat)
    requires ds != [] && 2 <= b <= 16 && AllDigits(ds, b) && NoDigit(rest, b) && (ds[0] == ZERO ==> ds == [ZERO])
    requires b == if base != 0 then base else if ds[0] == ZERO then 8 else 10
    ensures Reads([MINUS] + (ds + rest), base, Sign(true, Value(ds, b)), |ds| + 1)
  {
    hide SkipSpace, Run, Value, Prefix, Analyse, HasSign;
    var t := ds + rest;
    PrefixDigits(ds, rest, base);
    RunDigits(ds, rest, b);
    AnalyseMinus(t, base, b);
    assert t[..|ds|] == ds;
  }

  /** Printing in base 2 to 16 and reading gives the number back, whatever follows the numeral. */
  lemma ReadDigits(n: nat, base: nat, upper: bool, rest: CString)
    requires 2 <= base <= 16 && NoDigit(rest, base)
    ensures Reads(Digits(n, base, upper) + rest, base, n, |Digits(n, base, upper)|)
  {
    hide Digits, Reads, Value;
    var ds := Digits(n, base, upper);
    ValueDigits(n, base, upper);
    ReadPlain(ds, rest, base, base);
  }

  /** The decimal text of any integer, read in base 10 or with the base left open. */
  lemma ReadDecimal(n: int, base: int, rest: CString)
    requires (base == 10 || base == 0) && NoDigit(rest, 10)
    ensures Reads(Decimal(n) + rest, base, n, |Decimal(n)|)
  {
    hide Digits, Reads, Value;
    var m := if n < 0 then -n else n;
    var ds := Digits(m, 10, false);
    ValueDigits(m, 10, false);
    ValueZero(8);
    if n < 0 {
      ReadMinus(ds, rest, base, 10);
      assert Decimal(n) + rest == [MINUS] + (ds + rest);
    } else {
      ReadPlain(ds, rest, base, if base == 0 && n == 0 then 8 else 10);
    }
  }

  lemma ValueZero(base: nat)
    ensures Value([ZERO], base) == 0
  {
    assert [ZERO][..0] == [];
    ValueNone(base);
  }

  lemma AnalyseHex(t: CString, base: int)
    requires base == 16 || base == 0
    ensures var s: CString := [ZERO, 120] + t;
      Analyse(s, base) == Numeral(false, 2, 16) && s[2..] == t
  {
    var s: CString := [ZERO, 120] + t;
    NoSpace(s);
    assert s[0..] == s && s[2..] == t;
  }

  /** The prefix 0x, read in base 16 or with the base left open. */
  lemma ReadHex(n: nat, base: int, upper: bool, rest: CString)
    requires (base == 16 || base == 0) && NoDigit(rest, 16)
    ensures Reads([ZERO, 120] + (Digits(n, 16, upper) + rest), base, n, 2 + |Digits(n, 16, upper)|)
  {
    hide Digits, Analyse, Value, AllDigits, NoDigit;
    var ds := Digits(n, 16, upper);
    ValueDigits(n, 16, upper);
    AnalyseHex(ds + rest, base);
    HexReads([ZERO, 120] + (ds + rest), base, ds, rest);
  }

  lemma HexReads(s: CString, base: int, ds: CString, rest: CString)
    requires |s| >= 2 && Analyse(s, base) == Numeral(false, 2, 16) && s[2..] == ds + rest
    requires ds != [] && AllDigits(ds, 16) && NoDigit(rest, 16)
    ensures Reads(s, base, Value(ds, 16), 2 + |ds|)
  {
    hide Analyse, Value, Reads, AllDigits, NoDigit;
    ReadsDigits(s, base, Numeral(false, 2, 16), ds, rest);
  }

  /** What `%lld` prints, read by apr_strtoi64: no 64-bit number is lost, the most negative one included. */
  method PrintThenRead(num: int) returns (value: int, errno: Errno, text: CString, end: nat)
    requires INT64_MIN <= num <= INT64_MAX
    ensures value == num && errno == NoError && end == |text| && text == Decimal(num)
  {
    hide Digits, Reads, Run, Value, Analyse;
    var buf := new Byte[NUM_BUF_SIZE];
    var p, isNegative, len := Conv10Quad(num, false, buf, NUM_BUF_SIZE);
    assert buf[p..NUM_BUF_SIZE] == Digits(if num < 0 then -num else num, 10, false);
    text := buf[p..NUM_BUF_SIZE];
    if isNegative {
      text := [MINUS] + text;
    }
    assert text + [] == text;
    ReadDecimal(num, 10, []);
    ReadsRange(text, 10, num, |text|);
    value, errno, end := Strtoi64(text, 10);
  }

  lemma ReadsRange(s: CString, base: int, v: int, end: nat)
    requires Reads(s, base, v, end) && INT64_MIN <= v <= INT64_MAX
    ensures var r := Analyse(s, base);
      && GoodBase(r.base) && Run(s[r.from..], r.base) > 0
      && end == r.from + Run(s[r.from..], r.base) && v == Sign(r.neg, Magnitude(s, base)) && InRange(v)
  {
  }
}
