// What formatted numbers mean: how wide they are and what apr_strtoi64 makes of them.
module FormatterLaws {
  import opened Text
  import opened Numbers
  import opened Formatter
  import NumberText

  /** Nothing is cut off, and nothing beyond the width is added. */
  lemma FieldWidth(prefix: CString, body: CString, pad: Char, o: Options)
    ensures var n := |prefix + body|;
      |Padded(prefix, body, pad, o)| == match o.width case None => n case AtLeast(w) => if w > n then w else n
  {
  }

  lemma FillSnoc(ds: CString, k: nat)
    ensures ds + Fill(k + 1, ZERO) == ds + Fill(k, ZERO) + [ZERO]
  {
  }

  lemma TimesTen(v: nat, p: nat)
    ensures v * p * 10 == v * (10 * p)
  {
  }

  lemma {:induction false} ValueZerosBehind(ds: CString, k: nat)
    ensures NumberText.Value(ds + Fill(k, ZERO), 10) == NumberText.Value(ds, 10) * Power10(k)
  {
    if k == 0 {
      assert ds + Fill(k, ZERO) == ds;
    } else {
      hide NumberText.Value, Fill;
      ValueZerosBehind(ds, k - 1);
      NumberText.ValueSnoc(ds + Fill(k - 1, ZERO), ZERO, 10);
      FillSnoc(ds, k - 1);
      TimesTen(NumberText.Value(ds, 10), Power10(k - 1));
    }
  }

  lemma {:induction false} ValueZerosInFront(k: nat, ds: CString)
    ensures NumberText.Value(Fill(k, ZERO) + ds, 10) == NumberText.Value(ds, 10)
  {
    if ds == [] {
      assert Fill(k, ZERO) + ds == [] + Fill(k, ZERO);
      ValueZerosBehind([], k);
    } else {
      var front, last := ds[..|ds| - 1], ds[|ds| - 1];
      ValueZerosInFront(k, front);
      NumberText.ValueSnoc(Fill(k, ZERO) + front, last, 10);
      NumberText.ValueSnoc(front, last, 10);
      assert ds == front + [last] && Fill(k, ZERO) + ds == Fill(k, ZERO) + front + [last];
    }
  }

  lemma {:induction false} SkipFill(a: nat, t: CString)
    requires t != [] ==> !NumberText.Space(t[0])
    ensures NumberText.SkipSpace(Fill(a, BLANK) + t) == a
  {
    if a == 0 {
      assert Fill(a, BLANK) + t == t;
      NumberText.NoSpace(t);
    } else {
      SkipFill(a - 1, t);
      assert (Fill(a, BLANK) + t)[1..] == Fill(a - 1, BLANK) + t;
    }
  }

  lemma AnalyseField(a: nat, sign: CString, u: CString)
    requires sign == [] || sign == [MINUS] || sign == [PLUS_SIGN]
    requires u != [] && NumberText.DigitValue(u[0]) < 10
    ensures var s := Fill(a, BLANK) + (sign + u);
      && NumberText.Analyse(s, 10) == NumberText.Numeral(sign == [MINUS], a + |sign|, 10)
      && a + |sign| <= |s| && s[a + |sign|..] == u
  {
    hide NumberText.SkipSpace;
    var t := sign + u;
    var s := Fill(a, BLANK) + t;
    SkipFill(a, t);
    assert s[a..] == t && t[|sign|..] == u && s[a + |sign|..] == u;
  }

  lemma FirstDigit(ds: CString, rest: CString)
    requires ds != [] && NumberText.AllDigits(ds, 10)
    ensures ds + rest != [] && NumberText.DigitValue((ds + rest)[0]) < 10
  {
  }

  lemma FieldReads(s: CString, from: nat, neg: bool, ds: CString, rest: CString)
    requires from <= |s| && NumberText.Analyse(s, 10) == NumberText.Numeral(neg, from, 10) && s[from..] == ds + rest
    requires ds != [] && NumberText.AllDigits(ds, 10) && NumberText.NoDigit(rest, 10)
    ensures NumberText.Reads(s, 10, NumberText.Sign(neg, NumberText.Value(ds, 10)), from + |ds|)
  {
    hide NumberText.Analyse, NumberText.Value, NumberText.Reads, NumberText.AllDigits, NumberText.NoDigit;
    NumberText.ReadsDigits(s, 10, NumberText.Numeral(neg, from, 10), ds, rest);
  }

  /** Blanks, a sign, digits, and something else. */
  lemma ReadField(a: nat, sign: CString, ds: CString, rest: CString)
    requires sign == [] || sign == [MINUS] || sign == [PLUS_SIGN]
    requires ds != [] && NumberText.AllDigits(ds, 10) && NumberText.NoDigit(rest, 10)
    ensures NumberText.Reads(Fill(a, BLANK) + (sign + (ds + rest)), 10,
      NumberText.Sign(sign == [MINUS], NumberText.Value(ds, 10)), a + |sign| + |ds|)
  {
    hide Fill, NumberText.Analyse, NumberText.Value, NumberText.Reads, NumberText.AllDigits, NumberText.NoDigit;
    FirstDigit(ds, rest);
    AnalyseField(a, sign, ds + rest);
    FieldReads(Fill(a, BLANK) + (sign + (ds + rest)), a + |sign|, sign == [MINUS], ds, rest);
  }

  /** How many zeros a number directive puts behind the number: none, unless it is left-adjusted with the 0 flag. */
  function ZerosBehind(kind: Kind, size: Size, arg: int, o: Options): nat {
    var n := |Prefix(kind, size, arg, o) + Numeral(kind, size, arg, o)|;
    if o.zero && o.left && o.width.AtLeast? && o.width.n > n then o.width.n - n else 0
  }

  lemma FixedDigits(t: CString, precision: Limit)
    requires t != [] && NumberText.AllDigits(t, 10)
    ensures var u := Fixed(t, precision);
      u != [] && NumberText.AllDigits(u, 10) && NumberText.Value(u, 10) == NumberText.Value(t, 10)
  {
    hide NumberText.Value;
    if precision.AtLeast? {
      var k := |Fixed(t, precision)| - |t|;
      ValueZerosInFront(k, t);
    }
  }

  /** A padded number is blanks, its prefix, its digits perhaps with more zeros, and blanks. */
  lemma PaddedParts(prefix: CString, ds: CString, o: Options) returns (a: nat, mid: CString, rest: CString)
    requires ds != [] && NumberText.AllDigits(ds, 10)
    ensures var n := |prefix + ds|;
      var k: nat := if o.zero && o.left && o.width.AtLeast? && o.width.n > n then o.width.n - n else 0;
      && Padded(prefix, ds, if o.zero then ZERO else BLANK, o) == Fill(a, BLANK) + (prefix + (mid + rest))
      && mid != [] && NumberText.AllDigits(mid, 10) && NumberText.NoDigit(rest, 10)
      && NumberText.Value(mid, 10) == NumberText.Value(ds, 10) * Power10(k)
  {
    hide NumberText.Value;
    a, mid, rest := 0, ds, [];
    var n := |prefix + ds|;
    var k: nat := if o.width.AtLeast? && o.width.n > n then o.width.n - n else 0;
    assert Fill(0, BLANK) == [] && Fill(0, ZERO) == [];
    if k > 0 {
      if o.left && o.zero {
        mid := ds + Fill(k, ZERO);
        ValueZerosBehind(ds, k);
      } else if o.left {
        rest := Fill(k, BLANK);
      } else if o.zero {
        mid := Fill(k, ZERO) + ds;
        ValueZerosInFront(k, ds);
      } else {
        a := k;
      }
    }
    assert Padded(prefix, ds, if o.zero then ZERO else BLANK, o) == Fill(a, BLANK) + (prefix + (mid + rest));
  }

  lemma BlankPrefix(a: nat, u: CString)
    ensures Fill(a, BLANK) + ([BLANK] + u) == Fill(a + 1, BLANK) + ([] + u)
  {
  }

  lemma SignedProduct(v: int, m: nat, p: nat)
    requires m == if v < 0 then -v else v
    ensures NumberText.Sign(v < 0, m * p) == v * p
  {
  }

  /** apr_strtoi64 reads from a signed field the number printed, times ten for each zero behind it. */
  lemma ReadBack(size: Size, arg: int, o: Options) returns (end: nat)
    ensures var shown := Shown(Number(Signed, size, arg, o));
      NumberText.Reads(shown, 10, SignedArg(arg, size) * Power10(ZerosBehind(Signed, size, arg, o)), end)
  {
    hide NumberText.Reads, NumberText.Value, NumberText.AllDigits, NumberText.NoDigit, Digits, SignedArg, Fill, Fixed,
      Padded, Power10;
    var v := SignedArg(arg, size);
    var m := if v < 0 then -v else v;
    var prefix, ds := Prefix(Signed, size, arg, o), Numeral(Signed, size, arg, o);
    NumberText.ValueDigits(m, 10, false);
    FixedDigits(Digits(m, 10, false), o.precision);
    var a, mid, rest := PaddedParts(prefix, ds, o);
    SignedProduct(v, m, Power10(ZerosBehind(Signed, size, arg, o)));
    if prefix == [BLANK] {
      BlankPrefix(a, mid + rest);
      ReadField(a + 1, [], mid, rest);
      end := a + 1 + |mid|;
    } else {
      ReadField(a, prefix, mid, rest);
      end := a + |prefix| + |mid|;
    }
  }

  lemma Power10Positive(k: nat)
    ensures Power10(k) >= 1 && (k > 0 ==> Power10(k) >= 10)
  {
  }

  lemma TimesMore(v: int, p: nat)
    requires p >= 10
    ensures v * p == v <==> v == 0
  {
    if v > 0 {
      assert v * p >= v * 10;
    } else if v < 0 {
      assert v * p <= v * 10;
    }
  }

  /** A text is read as one number only. */
  lemma ReadsOnce(s: CString, base: int, v: int, end: nat, u: int, stop: nat)
    requires NumberText.Reads(s, base, v, end) && NumberText.Reads(s, base, u, stop)
    ensures v == u
  {
  }

  /** So apr_strtoi64 reads back the number just when no zero was put behind it, or it is zero. */
  lemma ReadBackExact(size: Size, arg: int, o: Options)
    ensures var v, k := SignedArg(arg, size), ZerosBehind(Signed, size, arg, o);
      v * Power10(k) == v <==> k == 0 || v == 0
    ensures var v, k := SignedArg(arg, size), ZerosBehind(Signed, size, arg, o);
      (exists end: nat :: NumberText.Reads(Shown(Number(Signed, size, arg, o)), 10, v, end)) <==> k == 0 || v == 0
  {
    hide SignedArg, ZerosBehind, Shown, NumberText.Reads, Power10;
    var v, k := SignedArg(arg, size), ZerosBehind(Signed, size, arg, o);
    var shown := Shown(Number(Signed, size, arg, o));
    Power10Positive(k);
    Power10Zero();
    if k > 0 {
      TimesMore(v, Power10(k));
    }
    var end := ReadBack(size, arg, o);
    if stop: nat :| NumberText.Reads(shown, 10, v, stop) {
      ReadsOnce(shown, 10, v, stop, v * Power10(k), end);
    }
  }

  lemma Power10Zero()
    ensures Power10(0) == 1
  {
  }
}
