// apr_strfsize: any size in four characters.
module SizeFormat {
  import opened Text
  import opened Bits
  import opened Numbers
  import opened Formatter
  import FormatMachine

  const DOT: Byte := 46

  /** Right-adjusted in three columns. */
  function Three(n: nat): (t: CString)
    requires n < 1000
    ensures |t| == 3
  {
    [if n >= 100 then ZERO + n / 100 else BLANK, if n >= 10 then ZERO + n / 10 % 10 else BLANK, ZERO + n % 10]
  }

  function UnitLetter(k: nat): Byte
    requires k <= 6
  {
    [BLANK, 75, 77, 71, 84, 80, 69][k]
  }

  /** The size in 1/1024 of the unit in which it is shown, if it is shown in a unit. */
  function Reduced(size: nat): nat {
    if size / 1024 >= 973 then Reduced(size / 1024) else size
  }

  function Level(size: nat): nat {
    if size / 1024 >= 973 then 1 + Level(size / 1024) else 1
  }

  /** A number of 1024ths, rounded to tenths, or to a whole number. */
  function Rounded(m: nat): nat {
    if m < 9 * 1024 + 973 then (10 * m + 512) / 1024 else 10 * ((m + 512) / 1024)
  }

  /** What apr_strfsize prints. */
  function SizeText(size: int): (t: CString)
    requires INT64_MIN <= size <= INT64_MAX
    ensures |t| == 4
  {
    if size < 0 then [BLANK, BLANK, MINUS, BLANK]
    else if size < 973 then Three(size) + [BLANK]
    else
      Limits(size);
      var v, unit := Rounded(Reduced(size)), UnitLetter(Level(size));
      if Reduced(size) < 9 * 1024 + 973 then [ZERO + v / 10, DOT, ZERO + v % 10, unit] else Three(v / 10) + [unit]
  }

  /** The unit letters suffice, and what is printed fits. */
  lemma Limits(size: nat)
    requires 973 <= size <= INT64_MAX
    ensures Level(size) <= 6 && 973 <= Reduced(size) < 973 * 1024
    ensures var m := Reduced(size); var v := Rounded(m);
      if m < 9 * 1024 + 973 then 10 <= v < 100 else 100 <= v <= 9730 && v % 10 == 0
  {
    assert Power1024(2) == 0x10_0000 && Power1024(4) == 0x10_0000 * Power1024(2)
      && Power1024(6) == 0x10_0000 * Power1024(4);
    LevelBound(size, 6);
  }

  function Power1024(k: nat): nat {
    if k == 0 then 1 else 1024 * Power1024(k - 1)
  }

  lemma {:induction false} LevelBound(size: nat, k: nat)
    requires 973 <= size < 973 * Power1024(k) && k >= 1
    ensures Level(size) <= k && 973 <= Reduced(size) < 973 * 1024
  {
    if size / 1024 >= 973 {
      assert k > 1 by { assert Power1024(1) == 1024 * Power1024(0); }
      LevelBound(size / 1024, k - 1);
    }
  }

  /** `%d` and `%3d`. */
  const D: Options := Options(false, false, false, false, false, None, None)
  const D3: Options := Options(false, false, false, false, false, AtLeast(3), None)

  lemma SmallDigits(n: nat)
    requires n < 1000
    ensures n < 10 ==> Digits(n, 10, false) == [ZERO + n]
    ensures 10 <= n < 100 ==> Digits(n, 10, false) == [ZERO + n / 10, ZERO + n % 10]
    ensures 100 <= n ==> Digits(n, 10, false) == [ZERO + n / 100, ZERO + n / 10 % 10, ZERO + n % 10]
  {
    if n >= 10 {
      SmallDigits(n / 10);
      assert n / 10 / 10 == n / 100;
    }
  }

  lemma ShownSmall(n: nat)
    requires n < 1000
    ensures n < 10 ==> Shown(Number(Signed, Int, n, D)) == [ZERO + n]
    ensures Shown(Number(Signed, Int, n, D3)) == Three(n)
  {
    hide Digits, Three, SignedArg;
    SmallDigits(n);
    SmallArg(n);
    PaddedSmall(n);
    var t := Digits(n, 10, false);
    assert Prefix(Signed, Int, n, D) == [] == Prefix(Signed, Int, n, D3);
    assert Numeral(Signed, Int, n, D) == t == Numeral(Signed, Int, n, D3);
    assert [] + t == t;
  }

  lemma SmallArg(n: nat)
    requires n < 1000
    ensures SignedArg(n, Int) == n
  {
  }

  lemma PaddedSmall(n: nat)
    requires n < 1000
    ensures Padded([], Digits(n, 10, false), BLANK, D3) == Three(n)
  {
    hide Digits;
    SmallDigits(n);
    assert [] + Digits(n, 10, false) == Digits(n, 10, false);
  }

  lemma OutputTwo(a: Directive, b: Directive)
    ensures Output([a, b]) == Shown(a) + Shown(b)
  {
    hide Shown;
    assert [a, b][1..] == [b] && [b][1..] == [];
    assert Output([b]) == Shown(b) + Output([]) == Shown(b);
  }

  lemma OutputFour(a: Directive, b: Directive, c: Directive, d: Directive)
    ensures Output([a, b, c, d]) == Shown(a) + Shown(b) + Shown(c) + Shown(d)
  {
    hide Shown;
    OutputTwo(c, d);
    assert [a, b, c, d][1..] == [b, c, d] && [b, c, d][1..] == [c, d];
  }

  /** apr_snprintf with room for four characters. */
  method PrintFour(buf: array<Byte>, ds: seq<Directive>)
    requires buf.Length >= 5 && |Output(ds)| == 4
    modifies buf
    ensures buf[..4] == Output(ds) && buf[4] == 0 && buf[5..] == old(buf[5..])
  {
    var n := FormatMachine.Snprintf(buf, 5, ds);
    assert Output(ds)[..4] == Output(ds);
  }

  /** The last step of apr_strfsize: the size is n units and remain 1024ths. */
  method PrintUnits(ghost size: nat, n: nat, remain: nat, unit: Char, buf: array<Byte>)
    requires 973 <= size <= INT64_MAX && Level(size) <= 6 && unit == UnitLetter(Level(size))
    requires Reduced(size) == 1024 * n + remain && remain < 1024 && n < 973 && buf.Length >= 5
    modifies buf
    ensures buf[..4] == SizeText(size) && buf[4] == 0 && buf[5..] == old(buf[5..])
  {
    hide Output, Shown, SizeText, Reduced, Level, UnitLetter;
    Limits(size);
    if n < 9 || (n == 9 && remain < 973) {
      var d := (remain * 5 + 256) / 512;
      var n' := n;
      if d >= 10 {
        n', d := n + 1, 0;
      }
      assert 10 * n' + d == Rounded(Reduced(size));
      TextTenths(size, n', d, unit);
      PrintFour(buf, [Number(Signed, Int, n', D), Plain(DOT), Number(Signed, Int, d, D), Plain(unit)]);
    } else {
      var n' := if remain >= 512 then n + 1 else n;
      assert 10 * n' == Rounded(Reduced(size));
      TextWhole(size, n', unit);
      PrintFour(buf, [Number(Signed, Int, n', D3), Plain(unit)]);
    }
  }

  /** apr_strfsize, which prints into a buffer of five bytes. */
  method Strfsize(size: int, buf: array<Byte>)
    requires INT64_MIN <= size <= INT64_MAX && buf.Length >= 5
    modifies buf
    ensures buf[..4] == SizeText(size) && buf[4] == 0 && buf[5..] == old(buf[5..])
  {
    hide Output, Shown, SizeText;
    if size < 0 {
      TextNegative(size);
      buf[0], buf[1], buf[2], buf[3], buf[4] := BLANK, BLANK, MINUS, BLANK, 0;
      assert buf[..4] == [BLANK, BLANK, MINUS, BLANK];
      return;
    }
    if size < 973 {
      TextSmall(size);
      PrintFour(buf, [Number(Signed, Int, size, D3), Plain(BLANK)]);
      return;
    }
    Limits(size);
    var ord := [75, 77, 71, 84, 80, 69];
    var o := 0;
    var n: nat := size;
    while true
      invariant n >= 973 && Reduced(size) == Reduced(n) && Level(size) == o + Level(n) && o >= 0
      invariant buf[..] == old(buf[..])
      decreases n
    {
      AndMask(n, 1023);
      var remain := And(n, 1023);
      n := n / 1024;
      if n >= 973 {
        o := o + 1;
        continue;
      }
      PrintUnits(size, n, remain, ord[o], buf);
      return;
    }
  }

  lemma TextNegative(size: int)
    requires INT64_MIN <= size < 0
    ensures SizeText(size) == [BLANK, BLANK, MINUS, BLANK]
  {
  }

  lemma TextSmall(size: nat)
    requires size < 973
    ensures Output([Number(Signed, Int, size, D3), Plain(BLANK)]) == SizeText(size)
  {
    ShownSmall(size);
    OutputTwo(Number(Signed, Int, size, D3), Plain(BLANK));
  }

  lemma TextTenths(size: nat, n: nat, d: nat, unit: Char)
    requires 973 <= size <= INT64_MAX && Level(size) <= 6 && unit == UnitLetter(Level(size))
    requires Reduced(size) < 9 * 1024 + 973 && d < 10 && 10 * n + d == Rounded(Reduced(size))
    ensures n < 10
    ensures Output([Number(Signed, Int, n, D), Plain(DOT), Number(Signed, Int, d, D), Plain(unit)]) == SizeText(size)
  {
    hide Output, Shown, Reduced, Level, UnitLetter, Rounded;
    Limits(size);
    ShownSmall(n);
    ShownSmall(d);
    ShownPlain(DOT);
    ShownPlain(unit);
    OutputFour(Number(Signed, Int, n, D), Plain(DOT), Number(Signed, Int, d, D), Plain(unit));
    assert (10 * n + d) / 10 == n && (10 * n + d) % 10 == d;
  }

  lemma ShownPlain(c: Char)
    ensures Shown(Plain(c)) == [c]
  {
  }

  lemma TextWhole(size: nat, n: nat, unit: Char)
    requires 973 <= size <= INT64_MAX && Level(size) <= 6 && unit == UnitLetter(Level(size))
    requires Reduced(size) >= 9 * 1024 + 973 && 10 * n == Rounded(Reduced(size))
    ensures n < 1000 && Output([Number(Signed, Int, n, D3), Plain(unit)]) == SizeText(size)
  {
    hide Output, Shown, Reduced, Level, UnitLetter, Rounded, Three;
    Limits(size);
    ShownSmall(n);
    ShownPlain(unit);
    OutputTwo(Number(Signed, Int, n, D3), Plain(unit));
  }

  // What the four characters mean.

  function Column(c: Byte): nat {
    if ZERO <= c <= 57 then c - ZERO else 0
  }

  function UnitIndex(c: Byte): nat {
    if c == 75 then 1 else if c == 77 then 2 else if c == 71 then 3
    else if c == 84 then 4 else if c == 80 then 5 else if c == 69 then 6 else 0
  }

  /** Ten times the number that a reader takes from the text, in bytes. */
  function Meaning(t: CString): nat
    requires |t| == 4
  {
    (if t[1] == DOT then 10 * Column(t[0]) + Column(t[2])
     else 1000 * Column(t[0]) + 100 * Column(t[1]) + 10 * Column(t[2])) * Power1024(UnitIndex(t[3]))
  }

  lemma MeaningOf(size: nat)
    requires size <= INT64_MAX
    ensures var t := SizeText(size);
      if size < 973 then t[1] != DOT && UnitIndex(t[3]) == 0 && Meaning(t) == 10 * size
      else
        && UnitIndex(t[3]) == Level(size) && Meaning(t) == Rounded(Reduced(size)) * Power1024(Level(size))
        && (t[1] == DOT <==> Reduced(size) < 9 * 1024 + 973) && (t[1] == DOT ==> t[0] != ZERO)
  {
    hide Power1024;
    if size >= 973 {
      Limits(size);
      UnitOf(Level(size));
      var v := Rounded(Reduced(size));
      if Reduced(size) >= 9 * 1024 + 973 {
        ThreeMeans(v / 10);
      }
    } else {
      ThreeMeans(size);
      PowerZero();
    }
  }

  lemma PowerZero()
    ensures Power1024(0) == 1
  {
  }

  lemma UnitOf(k: nat)
    requires k <= 6
    ensures UnitIndex(UnitLetter(k)) == k
  {
  }

  lemma ThreeMeans(n: nat)
    requires n < 1000
    ensures var t := Three(n);
      100 * Column(t[0]) + 10 * Column(t[1]) + Column(t[2]) == n && t[1] != DOT
  {
  }

  lemma {:induction false} ReducedBounds(size: nat)
    requires size >= 973
    ensures Level(size) >= 1
    ensures Reduced(size) * Power1024(Level(size) - 1) <= size < (Reduced(size) + 1) * Power1024(Level(size) - 1)
    ensures Power1024(Level(size)) == 1024 * Power1024(Level(size) - 1)
  {
    if size / 1024 >= 973 {
      ReducedBounds(size / 1024);
      Rescale(Reduced(size), Power1024(Level(size) - 2), size);
    }
  }

  lemma Rescale(m: nat, p: nat, size: nat)
    requires m * p <= size / 1024 < (m + 1) * p
    ensures m * (1024 * p) <= size < (m + 1) * (1024 * p)
  {
  }

  /** The error of the rounding, and that of leaving out what is below one 1024th. */
  lemma ErrorSum(g: int, m: int, v: nat, size: int, slack: int)
    requires slack >= 0 && -slack <= 1024 * g - 10 * m <= slack && m * v <= size < (m + 1) * v
    ensures -(slack + 10) * v <= g * (1024 * v) - 10 * size <= (slack + 10) * v
  {
    var e := 1024 * g - 10 * m;
    assert -slack * v <= e * v <= slack * v;
    assert g * (1024 * v) - 10 * size == e * v - 10 * (size - m * v);
  }

  /** What is shown differs from the size by at most 0.05 + 1/1024 unit with a decimal, and 0.5 + 1/1024 without. */
  lemma Error(size: nat)
    requires size <= INT64_MAX
    ensures var t := SizeText(size);
      var unit, error := Power1024(UnitIndex(t[3])), Meaning(t) - 10 * size;
      if UnitIndex(t[3]) == 0 then error == 0
      else if t[1] == DOT then -522 * unit <= 1024 * error <= 522 * unit
      else -5130 * unit <= 1024 * error <= 5130 * unit
  {
    hide SizeText, Meaning, Power1024, UnitIndex, Reduced, Level;
    MeaningOf(size);
    if size >= 973 {
      Limits(size);
      ReducedBounds(size);
      var m, v := Reduced(size), Power1024(Level(size) - 1);
      ErrorSum(Rounded(m), m, v, size, if m < 9 * 1024 + 973 then 512 else 5120);
    }
  }

  lemma RoundedMonotone(m: nat, n: nat)
    requires m <= n
    ensures Rounded(m) <= Rounded(n)
    ensures m >= 973 ==> Rounded(m) >= 10
    ensures n < 973 * 1024 ==> Rounded(n) <= 9730
  {
  }

  /** Ten times the size that is shown, unit by unit. */
  function Displayed(size: nat): nat {
    1024 * if size / 1024 >= 973 then Displayed(size / 1024) else Rounded(size)
  }

  lemma {:induction false} DisplayedAs(size: nat)
    ensures Displayed(size) == Rounded(Reduced(size)) * Power1024(Level(size))
  {
    hide Rounded;
    var g, p := Rounded(Reduced(size)), Power1024(Level(size) - 1);
    if size / 1024 >= 973 {
      DisplayedAs(size / 1024);
      assert 1024 * (g * p) == g * (1024 * p);
    } else {
      PowerZero();
    }
  }

  lemma {:induction false} DisplayedMonotone(s: nat, t: nat)
    requires 973 <= s <= t
    ensures 10240 <= Displayed(s) <= Displayed(t)
    decreases t
  {
    RoundedMonotone(s, t);
    if t / 1024 >= 973 {
      DisplayedMonotone(if s / 1024 >= 973 then s / 1024 else t / 1024, t / 1024);
      RoundedMonotone(s, s);
    }
  }

  /** A larger size is never shown as a smaller one. */
  lemma Monotone(s: nat, t: nat)
    requires s <= t <= INT64_MAX
    ensures Meaning(SizeText(s)) <= Meaning(SizeText(t))
  {
    hide SizeText, Meaning, Displayed;
    MeaningOf(s);
    MeaningOf(t);
    if t >= 973 {
      DisplayedAs(t);
      if s >= 973 {
        DisplayedAs(s);
        DisplayedMonotone(s, t);
      } else {
        DisplayedMonotone(t, t);
      }
    }
  }

  /** How large the sizes are that are shown in a unit. */
  lemma {:induction false} LevelAt(size: nat, k: nat)
    requires k >= 1 && (k > 1 ==> 973 * Power1024(k - 1) <= size) && size < 973 * Power1024(k)
    ensures Level(size) == k
  {
    if k > 1 {
      LevelAt(size / 1024, k - 1);
      assert Power1024(k - 1) >= 1 by { PowerPositive(k - 1); }
    }
  }

  lemma PowerPositive(k: nat)
    ensures Power1024(k) >= 1
  {
  }

  /** The letter of the unit, for every size. */
  lemma LetterWritten(size: nat)
    requires 973 <= size <= INT64_MAX
    ensures SizeText(size)[3] ==
      if size < 973 * 0x400 then 'K' as int
      else if size < 973 * 0x10_0000 then 'M' as int
      else if size < 973 * 0x4000_0000 then 'G' as int
      else if size < 973 * 0x100_0000_0000 then 'T' as int
      else if size < 973 * 0x4_0000_0000_0000 then 'P' as int
      else 'E' as int
  {
    hide Reduced, Rounded, Power1024;
    Limits(size);
    Powers();
    LevelAt(size,
      if size < 973 * 0x400 then 1 else if size < 973 * 0x10_0000 then 2 else if size < 973 * 0x4000_0000 then 3
      else if size < 973 * 0x100_0000_0000 then 4 else if size < 973 * 0x4_0000_0000_0000 then 5 else 6);
  }

  lemma Powers()
    ensures Power1024(1) == 0x400 && Power1024(2) == 0x10_0000 && Power1024(3) == 0x4000_0000
    ensures Power1024(4) == 0x100_0000_0000 && Power1024(5) == 0x4_0000_0000_0000
    ensures Power1024(6) == 0x1000_0000_0000_0000
  {
  }

  /** A number at the right of three columns. */
  predicate InColumns(t: CString, n: nat) {
    var d := Decimal(n);
    |t| == 3 && |d| <= 3 && t[3 - |d|..] == d && forall k :: 0 <= k < 3 - |d| ==> t[k] == ' ' as int
  }

  lemma ThreeColumns(n: nat)
    requires n < 1000
    ensures InColumns(Three(n), n)
  {
    hide Digits;
    SmallDigits(n);
  }

  /** The whole text, for every size: an error sign, a number of bytes, tenths of a unit, or units. */
  lemma SizeWritten(size: int)
    requires INT64_MIN <= size <= INT64_MAX
    ensures var t := SizeText(size);
      if size < 0 then t == [' ' as int, ' ' as int, '-' as int, ' ' as int]
      else if size < 973 then InColumns(t[..3], size) && t[3] == ' ' as int
      else if t[1] == '.' as int then '1' as int <= t[0] <= '9' as int && '0' as int <= t[2] <= '9' as int
      else exists n :: 10 <= n <= 973 && InColumns(t[..3], n)
  {
    hide Three, InColumns, Reduced, Rounded, Level, UnitLetter;
    if 0 <= size < 973 {
      ThreeColumns(size);
      assert SizeText(size)[..3] == Three(size);
    } else if size >= 973 {
      Limits(size);
      var v := Rounded(Reduced(size));
      if Reduced(size) >= 9 * 1024 + 973 {
        ThreeColumns(v / 10);
        ThreeMeans(v / 10);
        var t := SizeText(size);
        assert t[..3] == Three(v / 10) && t[..3][1] == t[1];
      } else {
        assert 1 <= v / 10 <= 9 && SizeText(size)[1] == DOT;
      }
    }
  }
}
