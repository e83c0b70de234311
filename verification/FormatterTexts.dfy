// Which text a directive prints, written out: the number in its size, the sign, zeros and blanks around it.
module FormatterTexts {
  import opened Text
  import opened Numbers
  import opened Formatter
  import opened FormatMachine
  import NumberText

  /** No flag, no width, no precision. */
  const Simple: Options := Options(false, false, false, false, false, None, None)

  /** v is a number of that size; 16, 32 or 64 bits, with or without sign. */
  predicate FitsSigned(v: int, size: Size) {
    match size
    case Quad => -0x8000_0000_0000_0000 <= v <= 0x7fff_ffff_ffff_ffff
    case Int => -0x8000_0000 <= v <= 0x7fff_ffff
    case Short => -0x8000 <= v <= 0x7fff
  }

  predicate FitsUnsigned(v: int, size: Size) {
    match size
    case Quad => 0 <= v <= 0xffff_ffff_ffff_ffff
    case Int => 0 <= v <= 0xffff_ffff
    case Short => 0 <= v <= 0xffff
  }

  /** Arguments that the size cannot tell apart. */
  predicate Alike(a: int, b: int, size: Size) {
    match size
    case Quad => (a - b) % 0x1_0000_0000_0000_0000 == 0
    case Int => (a - b) % 0x1_0000_0000 == 0
    case Short => (a - b) % 0x1_0000 == 0
  }

  lemma ArgsFit(v: int, size: Size)
    ensures FitsSigned(v, size) ==> SignedArg(v, size) == v
    ensures FitsUnsigned(v, size) ==> UnsignedArg(v, size) == v
  {
  }

  lemma ArgsAlike(a: int, b: int, size: Size)
    requires Alike(a, b, size)
    ensures a % Modulus(size) == b % Modulus(size)
  {
    var m := Modulus(size);
    var k := (a - b) / m;
    assert a == b + k * m;
    match size {
      case Quad => assert (b + k * (UINT64_MAX + 1)) % (UINT64_MAX + 1) == b % (UINT64_MAX + 1);
      case Int => assert (b + k * (UINT32_MAX + 1)) % (UINT32_MAX + 1) == b % (UINT32_MAX + 1);
      case Short => assert (b + k * 0x1_0000) % 0x1_0000 == b % 0x1_0000;
    }
  }

  /** `%d` prints every number of its size in decimal. */
  lemma SignedText(v: int, size: Size)
    requires FitsSigned(v, size)
    ensures Output([Number(Signed, size, v, Simple)]) == Decimal(v)
  {
    ArgsFit(v, size);
    OutputOne(Number(Signed, size, v, Simple));
    assert [] + Decimal(v) == Decimal(v);
  }

  /** `%u`, `%o`, `%x` and `%X` print every number of their size in base 10, 8 and 16, with letters of their case. */
  lemma UnsignedText(v: int, size: Size)
    requires FitsUnsigned(v, size)
    ensures Output([Number(Unsigned, size, v, Simple)]) == Digits(v, 10, false)
    ensures Output([Number(Octal, size, v, Simple)]) == Digits(v, 8, false)
    ensures Output([Number(Hex, size, v, Simple)]) == Digits(v, 16, false)
    ensures Output([Number(UpperHex, size, v, Simple)]) == Digits(v, 16, true)
  {
    hide Digits;
    ArgsFit(v, size);
    OutputOne(Number(Unsigned, size, v, Simple));
    OutputOne(Number(Octal, size, v, Simple));
    OutputOne(Number(Hex, size, v, Simple));
    OutputOne(Number(UpperHex, size, v, Simple));
  }

  /** Of a larger argument only the low bits count, whatever the flags. */
  lemma LowBits(kind: Kind, size: Size, a: int, b: int, o: Options)
    requires Alike(a, b, size)
    ensures Output([Number(kind, size, a, o)]) == Output([Number(kind, size, b, o)])
  {
    hide Modulus;
    ArgsAlike(a, b, size);
    OutputOne(Number(kind, size, a, o));
    OutputOne(Number(kind, size, b, o));
  }

  /** The digits that are printed, before precision and width. */
  function DigitsOf(kind: Kind, v: int): CString {
    match kind
    case Signed => Digits(if v < 0 then -v else v, 10, false)
    case Unsigned => Digits(if v < 0 then 0 else v, 10, false)
    case Octal => Digits(if v < 0 then 0 else v, 8, false)
    case Hex => Digits(if v < 0 then 0 else v, 16, false)
    case UpperHex => Digits(if v < 0 then 0 else v, 16, true)
  }

  /** The character in front: the sign, or what a flag asks for in its place. */
  function SignOf(kind: Kind, v: int, o: Options): CString {
    if kind != Signed then []
    else if v < 0 then ['-' as int]
    else if o.plus then ['+' as int]
    else if o.blank then [' ' as int]
    else []
  }

  /** At least as many digits as the precision asks for, but no more than the number buffer holds. */
  function BodyOf(kind: Kind, v: int, o: Options): (t: CString)
    ensures t != []
  {
    var ds := DigitsOf(kind, v);
    var p := match o.precision case None => 0 case AtLeast(p) => if p < 511 then p else 511;
    var t: CString := Fill(p - |ds|, '0' as int) + ds;
    assert ds != [];
    if kind == Octal && o.alt && t[0] != '0' as int then ['0' as int] + t else t
  }

  predicate All(t: CString, i: nat, j: nat, c: Byte)
    requires j <= |t|
  {
    forall k :: i <= k < j ==> t[k] == c
  }

  /**
   * A text in a field: as wide as the width asks for, at the left or at the right; zeros go between the
   * character in front and the rest, or behind everything.
   */
  ghost predicate InField(t: CString, front: CString, body: CString, zero: bool, o: Options) {
    var n, w := |front| + |body|, match o.width case None => 0 case AtLeast(w) => w;
    && |t| == (if w > n then w else n)
    && (o.left ==> t[..n] == front + body && All(t, n, |t|, if zero then '0' as int else ' ' as int))
    && (!o.left && !zero ==> t[|t| - n..] == front + body && All(t, 0, |t| - n, ' ' as int))
    && (!o.left && zero ==>
      t[..|front|] == front && t[|t| - |body|..] == body && All(t, |front|, |t| - |body|, '0' as int))
  }

  /** Every number directive, with any flags, width and precision. */
  lemma NumberField(kind: Kind, size: Size, v: int, o: Options)
    requires if kind == Signed then FitsSigned(v, size) else FitsUnsigned(v, size)
    ensures InField(Output([Number(kind, size, v, o)]), SignOf(kind, v, o), BodyOf(kind, v, o), o.zero, o)
  {
    hide SignedArg, UnsignedArg, Digits, Padded, InField, Fill;
    ArgsFit(v, size);
    OutputOne(Number(kind, size, v, o));
    var front, body := SignOf(kind, v, o), BodyOf(kind, v, o);
    assert Prefix(kind, size, v, o) == front;
    assert Numeral(kind, size, v, o) == body by { BodyText(kind, size, v, o); }
    PaddedField(front, body, o.zero, o);
  }

  lemma BodyText(kind: Kind, size: Size, v: int, o: Options)
    requires if kind == Signed then FitsSigned(v, size) else FitsUnsigned(v, size)
    ensures Numeral(kind, size, v, o) == BodyOf(kind, v, o)
  {
    hide SignedArg, UnsignedArg, Digits;
    ArgsFit(v, size);
    var ds := DigitsOf(kind, v);
    assert Fill(0 - |ds|, ZERO) == [] && [] + ds == ds;
  }

  lemma PaddedField(front: CString, body: CString, zero: bool, o: Options)
    ensures InField(Padded(front, body, if zero then ZERO else BLANK, o), front, body, zero, o)
  {
    var pad: Byte := if zero then ZERO else BLANK;
    var t := Padded(front, body, pad, o);
    match o.width {
      case None => assert t == front + body;
      case AtLeast(w) =>
        var fill := Fill(w - |front + body|, pad);
        if o.left {
          assert t == front + body + fill;
        } else if zero {
          assert t == front + fill + body;
        } else {
          assert t == fill + (front + body);
        }
    }
  }

  /** Every string directive: the precision cuts it, and zeros are never put in. */
  lemma StringField(s: CString, o: Options)
    ensures var u := match o.precision case None => s case AtLeast(p) => if p < |s| then s[..p] else s;
      InField(Output([Chars(s, o)]), [], u, false, o)
  {
    hide Padded, InField;
    OutputOne(Chars(s, o));
    PaddedField([], Clipped(s, o.precision), false, o);
  }

  /** The digits of a base, in the case asked for. */
  function Alphabet(upper: bool): string {
    if upper then "0123456789ABCDEF" else "0123456789abcdef"
  }

  /** A numeral is made of these, the last digit being the remainder. */
  lemma NumeralText(n: nat, base: nat, upper: bool)
    requires 2 <= base <= 16
    ensures |Alphabet(upper)| == 16
    ensures Digits(n, base, upper) ==
      (if n < base then [] else Digits(n / base, base, upper)) + [Alphabet(upper)[n % base] as int]
  {
    Quotient(n, base);
    Letters(n % base, upper);
  }

  lemma Letters(d: nat, upper: bool)
    requires d < 16
    ensures DigitChar(d, upper) == Alphabet(upper)[d] as int
  {
    if upper {
      assert Alphabet(true) == "0123456789ABCDEF";
    } else {
      assert Alphabet(false) == "0123456789abcdef";
    }
  }

  /** What apr_snprintf prints for a 64-bit number, apr_strtoi64 reads as that number. */
  method PrintThenReadQuad(v: int) returns (value: int, errno: NumberText.Errno, end: nat)
    requires FitsSigned(v, Quad)
    ensures value == v && errno == NumberText.NoError && end == |Decimal(v)|
  {
    hide Output, Decimal, NumberText.Reads, NumberText.Run, NumberText.Analyse, NumberText.Value, NumberText.CountUp;
    SignedText(v, Quad);
    DecimalFits(v);
    var buf := new Byte[100];
    var r := Snprintf(buf, 100, [Number(Signed, Quad, v, Simple)]);
    var text := buf[..r];
    assert text == Decimal(v) && text + [] == text;
    NumberText.ReadDecimal(v, 10, []);
    NumberText.ReadsRange(text, 10, v, |text|);
    value, errno, end := NumberText.Strtoi64(text, 10);
  }

  lemma DecimalFits(v: int)
    requires FitsSigned(v, Quad)
    ensures |Decimal(v)| <= 65
  {
    hide Digits;
    DigitsFit(if v < 0 then -v else v, 10, false);
  }
}
