// The numerals that apr_strtoi64 reads, written out: white space, sign, prefix, digits, and what follows them.
module NumeralTexts {
  import opened Chars
  import opened Text
  import opened NumberText

  /** The characters of the digits 0 to 35, in either case. */
  const Small := "0123456789abcdefghijklmnopqrstuvwxyz"
  const Large := "0123456789ABCDEFGHIJKLMNOPQRSTUVWXYZ"

  /** The character c stands for the digit d. */
  predicate Spells(c: Byte, d: nat) {
    d < |Small| == |Large| && (c == Small[d] as int || c == Large[d] as int)
  }

  /** The text ds spells these digits, all of them less than the base. */
  ghost predicate SpelledOut(ds: CString, vs: seq<nat>, base: int) {
    |ds| == |vs| && forall k :: 0 <= k < |ds| ==> Spells(ds[k], vs[k]) && vs[k] < base
  }

  /** The number that the digits are in that base, the most significant digit first. */
  function Amount(vs: seq<nat>, base: nat): nat {
    if vs == [] then 0 else Amount(vs[..|vs| - 1], base) * base + vs[|vs| - 1]
  }

  function SignedAmount(sign: CString, vs: seq<nat>, base: nat): int {
    if sign == ['-' as int] then 0 - Amount(vs, base) else Amount(vs, base)
  }

  predicate IsSign(sign: CString) {
    sign == [] || sign == ['+' as int] || sign == ['-' as int]
  }

  predicate IsPrefix(prefix: CString, base: int) {
    || prefix == []
    || ((base == 0 || base == 16) && |prefix| == 2 && prefix[0] == '0' as int
      && (prefix[1] == 'x' as int || prefix[1] == 'X' as int))
  }

  /** The base that counts: the prefix means 16, and with base 0 a leading zero means 8. */
  function RealBase(base: int, prefix: CString, ds: CString): int {
    if prefix != [] then 16
    else if base != 0 then base
    else if ds != [] && ds[0] == '0' as int then 8
    else 10
  }

  /** A text in its parts; none of them goes on in the next one. */
  datatype Parts = Parts(blanks: CString, sign: CString, prefix: CString, ds: CString, rest: CString)

  function Joined(p: Parts): CString {
    p.blanks + (p.sign + (p.prefix + (p.ds + p.rest)))
  }

  ghost predicate Readable(p: Parts, vs: seq<nat>, base: int) {
    var b := RealBase(base, p.prefix, p.ds);
    && (forall k :: 0 <= k < |p.blanks| ==> IsSpace(p.blanks[k]))
    && IsSign(p.sign) && IsPrefix(p.prefix, base) && SpelledOut(p.ds, vs, b)
    && (p.rest != [] ==>
      && (forall d: nat :: d < b ==> !Spells(p.rest[0], d))
      && (p.prefix == [] && p.ds == ['0' as int] && (base == 0 || base == 16) ==>
        p.rest[0] != 'x' as int && p.rest[0] != 'X' as int)
      && (p.prefix == [] && p.ds == [] && p.sign == [] ==>
        !IsSpace(p.rest[0]) && p.rest[0] != '+' as int && p.rest[0] != '-' as int))
  }

  lemma SmallAt(d: nat)
    requires d < 36
    ensures |Small| == 36 && Small[d] as int == if d < 10 then 48 + d else 87 + d
  {
  }

  lemma LargeAt(d: nat)
    requires d < 36
    ensures |Large| == 36 && Large[d] as int == if d < 10 then 48 + d else 55 + d
  {
  }

  lemma DigitSpelled(c: Byte, d: nat)
    requires d < 36
    ensures Spells(c, d) <==> DigitValue(c) == d
  {
    SmallAt(d);
    LargeAt(d);
  }

  /** A character that stands for no digit of the base. */
  lemma NotSpelled(c: Byte, b: int)
    requires b <= 36 && forall d: nat :: d < b ==> !Spells(c, d)
    ensures DigitValue(c) >= b
  {
    hide Spells;
    if DigitValue(c) < b {
      DigitSpelled(c, DigitValue(c));
    }
  }

  lemma SpelledDigit(c: Byte, d: nat)
    requires Spells(c, d)
    ensures d < 36 && DigitValue(c) == d
  {
    SmallAt(0);
    DigitSpelled(c, d);
  }

  lemma {:induction false} AmountValue(ds: CString, vs: seq<nat>, b: nat)
    requires SpelledOut(ds, vs, b)
    ensures Value(ds, b) == Amount(vs, b) && NumberText.AllDigits(ds, b)
  {
    hide Spells, DigitValue;
    if ds != [] {
      AmountValue(ds[..|ds| - 1], vs[..|vs| - 1], b);
      forall k | 0 <= k < |ds| ensures DigitValue(ds[k]) == vs[k] {
        SpelledDigit(ds[k], vs[k]);
      }
    }
  }

  lemma {:induction false} BlanksSkip(blanks: CString, t: CString)
    requires (forall k :: 0 <= k < |blanks| ==> IsSpace(blanks[k])) && (t != [] ==> !IsSpace(t[0]))
    ensures SkipSpace(blanks + t) == |blanks| && (blanks + t)[|blanks|..] == t
  {
    if blanks == [] {
      assert blanks + t == t;
    } else {
      assert (blanks + t)[1..] == blanks[1..] + t;
      BlanksSkip(blanks[1..], t);
    }
  }

  /** The digits and what follows, as apr_strtoi64 meets them behind the sign. */
  lemma PrefixRead(p: Parts, vs: seq<nat>, base: int)
    requires Readable(p, vs, base)
    ensures var t := p.prefix + (p.ds + p.rest);
      && Prefix(t, base) == (|p.prefix|, RealBase(base, p.prefix, p.ds)) && t[|p.prefix|..] == p.ds + p.rest
  {
    hide Spells, Amount;
    var t: CString := p.prefix + (p.ds + p.rest);
    forall k | 0 <= k < |p.ds| ensures DigitValue(p.ds[k]) == vs[k] < 36 {
      SpelledDigit(p.ds[k], vs[k]);
    }
    if p.prefix == [] {
      assert t == p.ds + p.rest;
      if p.ds == [] && p.rest != [] && (base == 0 || base == 16) {
        NotSpelled(p.rest[0], RealBase(base, [], []));
      }
    }
  }

  lemma AnalysedAs(p: Parts, vs: seq<nat>, base: int)
    requires Readable(p, vs, base)
    ensures var r := Analyse(Joined(p), base);
      && r == Numeral(p.sign == ['-' as int], |p.blanks| + |p.sign| + |p.prefix|, RealBase(base, p.prefix, p.ds))
      && Joined(p)[r.from..] == p.ds + p.rest
  {
    hide Prefix, SpelledOut, RealBase, SkipSpace, HasSign, Joined, IsPrefix, Analyse;
    var t: CString := p.sign + (p.prefix + (p.ds + p.rest));
    PrefixRead(p, vs, base);
    FirstOf(p, vs, base);
    BlanksSkip(p.blanks, t);
    JoinedAt(p);
    AnalyseAt(Joined(p), base, |p.blanks|, |p.sign|, |p.prefix|, RealBase(base, p.prefix, p.ds));
  }

  lemma AnalyseAt(s: CString, base: int, i: nat, j: nat, k: nat, b: int)
    requires SkipSpace(s) == i && i + j <= |s| && j == (if HasSign(s[i..]) then 1 else 0)
    requires Prefix(s[i + j..], base) == (k, b)
    ensures Analyse(s, base) == Numeral(s[i..] != [] && s[i..][0] == '-' as int, i + j + k, b)
  {
    hide SkipSpace, Prefix;
  }

  lemma JoinedAt(p: Parts)
    ensures var (s, i, j) := (Joined(p), |p.blanks|, |p.sign|);
      && s == p.blanks + (p.sign + (p.prefix + (p.ds + p.rest)))
      && s[i..] == p.sign + (p.prefix + (p.ds + p.rest))
      && s[i + j..] == p.prefix + (p.ds + p.rest)
      && s[i + j + |p.prefix|..] == p.ds + p.rest
  {
  }

  lemma FirstOf(p: Parts, vs: seq<nat>, base: int)
    requires Readable(p, vs, base)
    ensures var t := p.sign + (p.prefix + (p.ds + p.rest));
      && (t != [] ==> !IsSpace(t[0]))
      && (HasSign(t) <==> p.sign != [])
      && (t != [] && t[0] == '-' as int <==> p.sign == ['-' as int])
  {
    hide Spells, RealBase;
    if p.sign == [] && p.prefix == [] {
      assert p.sign + (p.prefix + (p.ds + p.rest)) == p.ds + p.rest;
      if p.ds != [] {
        SpelledDigit(p.ds[0], vs[0]);
      }
    }
  }

  predicate Fits64(v: int) {
    -0x8000_0000_0000_0000 <= v <= 0x7fff_ffff_ffff_ffff
  }

  /** What apr_strtoi64 makes of a numeral, in every base from 2 to 36, and of what is none. */
  method ReadNumeral(p: Parts, ghost vs: seq<nat>, base: int) returns (acc: int, errno: Errno, end: nat)
    requires Readable(p, vs, base)
    ensures var b := RealBase(base, p.prefix, p.ds);
      if b < 2 || b > 36 || p.ds == [] then acc == 0 && errno == EINVAL && end == 0
      else
        var v := SignedAmount(p.sign, vs, b);
        && end == |p.blanks| + |p.sign| + |p.prefix| + |p.ds|
        && (Fits64(v) ==> acc == v && errno == NoError)
        && (errno == NoError || errno == ERANGE)
        && (errno == ERANGE ==> acc == if p.sign == ['-' as int] then -0x8000_0000_0000_0000 else 0x7fff_ffff_ffff_ffff)
  {
    hide Readable, RealBase, Joined, Analyse, Value, Amount, Run, CountUp;
    AnalysedAs(p, vs, base);
    ghost var b := RealBase(base, p.prefix, p.ds);
    acc, errno, end := Strtoi64(Joined(p), base);
    if 2 <= b <= 36 {
      DigitsRead(p, vs, base);
    }
  }

  lemma DigitsRead(p: Parts, vs: seq<nat>, base: int)
    requires Readable(p, vs, base) && 2 <= RealBase(base, p.prefix, p.ds) <= 36
    ensures var b := RealBase(base, p.prefix, p.ds);
      Run(p.ds + p.rest, b) == |p.ds| && (p.ds + p.rest)[..|p.ds|] == p.ds && Value(p.ds, b) == Amount(vs, b)
  {
    hide RealBase, Value, Amount, Run, Spells;
    var b := RealBase(base, p.prefix, p.ds);
    AmountValue(p.ds, vs, b);
    if p.rest != [] {
      NotSpelled(p.rest[0], b);
    }
    RunOf(p.ds, p.rest, b);
  }

  lemma {:induction false} RunOf(ds: CString, rest: CString, b: nat)
    requires NumberText.AllDigits(ds, b) && (rest != [] ==> DigitValue(rest[0]) >= b)
    ensures Run(ds + rest, b) == |ds|
  {
    if ds == [] {
      assert ds + rest == rest;
    } else {
      assert (ds + rest)[1..] == ds[1..] + rest;
      RunOf(ds[1..], rest, b);
    }
  }
}
