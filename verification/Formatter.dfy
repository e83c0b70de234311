// The integer and padding part of apr_vformatter: what a list of directives prints.
module Formatter {
  import opened Text
  import opened Numbers

  const BLANK: Byte := 32
  const PLUS_SIGN: Byte := 43

  /** The argument sizes q, none or l, and h. */
  datatype Size = Quad | Int | Short

  datatype Kind = Signed | Unsigned | Octal | Hex | UpperHex

  /** The flags, width and precision of a directive. */
  datatype Options = Options(left: bool, plus: bool, blank: bool, alt: bool, zero: bool, width: Limit, precision: Limit)

  datatype Limit = None | AtLeast(n: nat)

  type Char = c: Byte | c != 0 witness 32

  /** One step of a format: a byte of the format itself, a number or a string. */
  datatype Directive =
    | Plain(c: Char)
    | Number(kind: Kind, size: Size, arg: int, o: Options)
    | Chars(s: CString, o: Options)

  function Modulus(size: Size): (m: int)
    ensures m > 0
  {
    match size case Quad => UINT64_MAX + 1 case Int => UINT32_MAX + 1 case Short => 0x1_0000
  }

  /** The argument as an unsigned integer of its size. */
  function UnsignedArg(arg: int, size: Size): (v: nat)
    ensures v <= UINT64_MAX && (size != Quad ==> v <= UINT32_MAX)
  {
    arg % Modulus(size)
  }

  /** The argument as a signed integer of its size. */
  function SignedArg(arg: int, size: Size): (v: int)
    ensures INT64_MIN <= v <= INT64_MAX && (size != Quad ==> INT32_MIN <= v <= INT32_MAX)
  {
    var v := arg % Modulus(size);
    if 2 * v < Modulus(size) then v else v - Modulus(size)
  }

  function Fill(n: int, c: Byte): (t: CString)
    requires c != 0
    ensures |t| == if n > 0 then n else 0
    ensures forall k :: 0 <= k < |t| ==> t[k] == c
  {
    seq(if n > 0 then n else 0, _ => c)
  }

  /** FIX_PRECISION: leading zeros up to the precision, within the number buffer. */
  function Fixed(t: CString, precision: Limit): CString {
    match precision
    case None => t
    case AtLeast(p) => Fill((if p + 1 < NUM_BUF_SIZE then p else NUM_BUF_SIZE - 1) - |t|, ZERO) + t
  }

  /** The digits of a number, precision and alternate form applied. */
  function Numeral(kind: Kind, size: Size, arg: int, o: Options): CString {
    match kind
    case Signed =>
      var v := SignedArg(arg, size);
      Fixed(Digits(if v < 0 then -v else v, 10, false), o.precision)
    case Unsigned => Fixed(Digits(UnsignedArg(arg, size), 10, false), o.precision)
    case Octal =>
      var t := Fixed(Digits(UnsignedArg(arg, size), 8, false), o.precision);
      if o.alt && t[0] != ZERO then [ZERO] + t else t
    case Hex => Fixed(Digits(UnsignedArg(arg, size), 16, false), o.precision)
    case UpperHex => Fixed(Digits(UnsignedArg(arg, size), 16, true), o.precision)
  }

  function Prefix(kind: Kind, size: Size, arg: int, o: Options): (t: CString)
    ensures |t| <= 1
  {
    if kind != Signed then []
    else if SignedArg(arg, size) < 0 then [MINUS]
    else if o.plus then [PLUS_SIGN]
    else if o.blank then [BLANK]
    else []
  }

  /** A string of which at most precision bytes are printed. */
  function Clipped(s: CString, precision: Limit): CString {
    match precision
    case None => s
    case AtLeast(p) => if p < |s| then s[..p] else s
  }

  /** Padding up to the width. Zeros go behind the prefix, unless the text is left-adjusted. */
  function Padded(prefix: CString, body: CString, pad: Byte, o: Options): CString
    requires pad != 0
  {
    var text := prefix + body;
    match o.width
    case None => text
    case AtLeast(w) =>
      var fill := Fill(w - |text|, pad);
      if o.left then text + fill
      else if pad == ZERO then prefix + fill + body
      else fill + text
  }

  /** What a directive prints. */
  function Shown(d: Directive): CString {
    match d
    case Plain(c) => [c]
    case Chars(s, o) => Padded([], Clipped(s, o.precision), BLANK, o)
    case Number(kind, size, arg, o) =>
      Padded(Prefix(kind, size, arg, o), Numeral(kind, size, arg, o), if o.zero then ZERO else BLANK, o)
  }

  /** What a format prints. */
  function Output(ds: seq<Directive>): CString {
    if ds == [] then [] else Shown(ds[0]) + Output(ds[1..])
  }

  /** The number buffer holds text at its end. */
  ghost predicate AtEnd(buf: array<Byte>, s: nat, text: CString)
    reads buf
  {
    buf.Length == NUM_BUF_SIZE && s + |text| == NUM_BUF_SIZE && forall k :: 0 <= k < |text| ==> buf[s + k] == text[k]
  }

  /** PREFIX and its like: one byte in front. */
  method PushFront(buf: array<Byte>, s: nat, c: Char, ghost text: CString) returns (s': nat)
    requires AtEnd(buf, s, text) && s > 0
    modifies buf
    ensures s' == s - 1 && AtEnd(buf, s', [c] + text)
  {
    s' := s - 1;
    buf[s'] := c;
  }

  lemma FillNext(n: nat, c: Char, t: CString)
    ensures [c] + (Fill(n, c) + t) == Fill(n + 1, c) + t
  {
  }

  /** FIX_PRECISION. */
  method FixPrecision(buf: array<Byte>, s: nat, precision: Limit, ghost text: CString) returns (s': nat)
    requires AtEnd(buf, s, text)
    modifies buf
    ensures AtEnd(buf, s', Fixed(text, precision))
  {
    s' := s;
    if precision.AtLeast? {
      var p := if precision.n + 1 < NUM_BUF_SIZE then precision.n else NUM_BUF_SIZE - 1;
      var len := NUM_BUF_SIZE - s;
      ghost var n := 0;
      assert Fill(0, ZERO) + text == text;
      while len < p
        invariant len == |text| + n == NUM_BUF_SIZE - s' && (n > 0 ==> len <= p)
        invariant AtEnd(buf, s', Fill(n, ZERO) + text)
      {
        FillNext(n, ZERO, text);
        s' := PushFront(buf, s', ZERO, Fill(n, ZERO) + text);
        n := n + 1;
        len := len + 1;
      }
    }
  }

  /** The digits of the argument: the switch over the conversion, without precision and prefix. */
  method ConvertDigits(kind: Kind, size: Size, arg: int, buf: array<Byte>)
    returns (s: nat, isNegative: bool, ghost text: CString)
    requires buf.Length == NUM_BUF_SIZE
    modifies buf
    ensures AtEnd(buf, s, text) && text != [] && |text| <= 64
    ensures isNegative <==> kind == Signed && SignedArg(arg, size) < 0
    ensures text == match kind
      case Signed => Digits(if SignedArg(arg, size) < 0 then -SignedArg(arg, size) else SignedArg(arg, size), 10, false)
      case Unsigned => Digits(UnsignedArg(arg, size), 10, false)
      case Octal => Digits(UnsignedArg(arg, size), 8, false)
      case Hex => Digits(UnsignedArg(arg, size), 16, false)
      case UpperHex => Digits(UnsignedArg(arg, size), 16, true)
  {
    hide Digits, ToInt32, ToInt64, SignedArg, UnsignedArg;
    var len;
    isNegative := false;
    match kind {
      case Signed =>
        var v := SignedArg(arg, size);
        if size == Quad {
          s, isNegative, len := Conv10Quad(v, false, buf, NUM_BUF_SIZE);
        } else {
          s, isNegative, len := Conv10(v, false, buf, NUM_BUF_SIZE);
        }
        text := Digits(if v < 0 then -v else v, 10, false);
        DigitsFit(if v < 0 then -v else v, 10, false);
      case Unsigned =>
        var v := UnsignedArg(arg, size);
        if size == Quad {
          UnsignedQuad(v);
          s, isNegative, len := Conv10Quad(ToInt64(v), true, buf, NUM_BUF_SIZE);
        } else {
          UnsignedWrap(ToInt32(v), UINT32_MAX + 1);
          s, isNegative, len := Conv10(ToInt32(v), true, buf, NUM_BUF_SIZE);
        }
        text := Digits(v, 10, false);
        DigitsFit(v, 10, false);
      case _ =>
        var v := UnsignedArg(arg, size);
        var nbits := if kind == Octal then 3 else 4;
        if size == Quad {
          s, len := ConvP2Quad(v, nbits, kind == UpperHex, buf, NUM_BUF_SIZE);
        } else {
          s, len := ConvP2(v, nbits, kind == UpperHex, buf, NUM_BUF_SIZE);
        }
        text := Digits(v, Base(nbits), kind == UpperHex);
        DigitsFit(v, Base(nbits), kind == UpperHex);
    }
  }

  lemma UnsignedQuad(v: nat)
    requires v <= UINT64_MAX
    ensures ToInt64(v) % (UINT64_MAX + 1) == v
  {
    UnsignedWrap(ToInt64(v), UINT64_MAX + 1);
  }

  /** A number directive up to its prefix, as the conversion switch leaves it. */
  method Convert(kind: Kind, size: Size, arg: int, o: Options, buf: array<Byte>) returns (s: nat, prefixed: bool)
    requires buf.Length == NUM_BUF_SIZE
    modifies buf
    ensures AtEnd(buf, s, Prefix(kind, size, arg, o) + Numeral(kind, size, arg, o))
    ensures prefixed <==> Prefix(kind, size, arg, o) != []
  {
    hide Digits, SignedArg, UnsignedArg, AtEnd;
    var isNegative;
    ghost var text;
    s, isNegative, text := ConvertDigits(kind, size, arg, buf);
    s := FixPrecision(buf, s, o.precision, text);
    text := Fixed(text, o.precision);
    if kind == Octal && o.alt && buf[s] != ZERO {
      s := PushFront(buf, s, ZERO, text);
      text := [ZERO] + text;
    }
    assert text == Numeral(kind, size, arg, o);
    assert [] + text == text;
    prefixed := false;
    if kind == Signed && (isNegative || o.plus || o.blank) {
      var c := if isNegative then MINUS else if o.plus then PLUS_SIGN else BLANK;
      s := PushFront(buf, s, c, text);
      prefixed := true;
    }
  }
}
