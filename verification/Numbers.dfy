// Printing integers backwards into a fixed buffer, in bases 2 to 16.
module Numbers {
  import opened Text
  import opened Bits

  const NUM_BUF_SIZE: nat := 512

  const INT32_MIN: int := -0x8000_0000
  const INT32_MAX: int := 0x7fff_ffff
  const UINT32_MAX: int := 0xffff_ffff
  const INT64_MIN: int := -0x8000_0000_0000_0000
  const INT64_MAX: int := 0x7fff_ffff_ffff_ffff
  const UINT64_MAX: int := 0xffff_ffff_ffff_ffff

  const ZERO: Byte := 48
  const MINUS: Byte := 45

  /** Conversion to a 32-bit signed integer. */
  function ToInt32(x: int): (r: int)
    ensures INT32_MIN <= r <= INT32_MAX && (INT32_MIN <= x <= INT32_MAX ==> r == x)
    ensures 0 <= x <= UINT32_MAX ==> r == if x <= INT32_MAX then x else x - 0x1_0000_0000
  {
    (x - INT32_MIN) % 0x1_0000_0000 + INT32_MIN
  }

  /** Conversion to a 64-bit signed integer. */
  function ToInt64(x: int): (r: int)
    ensures INT64_MIN <= r <= INT64_MAX && (INT64_MIN <= x <= INT64_MAX ==> r == x)
  {
    (x - INT64_MIN) % 0x1_0000_0000_0000_0000 + INT64_MIN
  }

  /** A digit of a base up to 16. */
  function DigitChar(d: nat, upper: bool): (c: Byte)
    requires d < 16
    ensures c != 0
  {
    if d < 10 then ZERO + d else if upper then 55 + d else 87 + d
  }

  /** Dividing by a base of 2 to 16, case by case. */
  lemma Quotient(n: nat, base: nat)
    requires 2 <= base <= 16
    ensures 2 * (n / base) <= n && (n < base <==> n / base == 0) && (n >= base ==> n / base < n)
    ensures n == base * (n / base) + n % base && 0 <= n % base < base
  {
    if base == 2 {
    } else if base == 3 {
    } else if base == 4 {
    } else if base == 5 {
    } else if base == 6 {
    } else if base == 7 {
    } else if base == 8 {
    } else if base == 9 {
    } else if base == 10 {
    } else if base == 11 {
    } else if base == 12 {
    } else if base == 13 {
    } else if base == 14 {
    } else if base == 15 {
    }
  }

  /** The canonical numeral of n: no leading zero, and one digit for zero. */
  function Digits(n: nat, base: nat, upper: bool): (t: CString)
    requires 2 <= base <= 16
    ensures t != []
  {
    Quotient(n, base);
    (if n < base then [] else Digits(n / base, base, upper)) + [DigitChar(n % base, upper)]
  }

  /** A signed decimal numeral. */
  function Decimal(n: int): (t: CString)
    ensures t != []
  {
    if n < 0 then [MINUS] + Digits(-n, 10, false) else Digits(n, 10, false)
  }

  function Power10(k: nat): nat {
    if k == 0 then 1 else 10 * Power10(k - 1)
  }

  function Two(k: nat): nat {
    if k == 0 then 1 else 2 * Two(k - 1)
  }

  lemma TwoShift(k: nat)
    ensures Two(k + 8) == 256 * Two(k)
  {
    assert Two(k + 8) == 4 * Two(k + 6) && Two(k + 6) == 4 * Two(k + 4) && Two(k + 4) == 4 * Two(k + 2);
  }

  lemma {:induction false} DigitsLength(n: nat, base: nat, upper: bool, k: nat)
    requires 2 <= base <= 16 && n < Two(k) && k > 0
    ensures |Digits(n, base, upper)| <= k
  {
    if n >= base {
      Quotient(n, base);
      DigitsLength(n / base, base, upper, k - 1);
    }
  }

  /** No 64-bit number needs more than 64 digits. */
  lemma DigitsFit(n: nat, base: nat, upper: bool)
    requires 2 <= base <= 16 && n <= UINT64_MAX
    ensures |Digits(n, base, upper)| <= 64
  {
    for k := 0 to 8
      invariant Two(8 * k) == [1, 0x100, 0x1_0000, 0x100_0000, 0x1_0000_0000, 0x100_0000_0000, 0x1_0000_0000_0000,
        0x100_0000_0000_0000, UINT64_MAX + 1][k]
    {
      TwoShift(8 * k);
    }
    DigitsLength(n, base, upper, 64);
  }

  /** The text between two positions of a buffer, and nothing else changed. */
  twostate predicate Put(buf: array<Byte>, p: nat, end: nat, text: CString)
    reads buf
  {
    && p <= end <= buf.Length && end - p == |text|
    && (forall k :: 0 <= k < |text| ==> buf[p + k] == text[k])
    && (forall k :: 0 <= k < buf.Length && !(p <= k < end) ==> buf[k] == old(buf[k]))
  }

  /** The last digit and the others. */
  lemma DigitsStep(m: nat, base: nat, upper: bool, tail: CString)
    requires 2 <= base <= 16
    ensures Digits(m, base, upper) + tail ==
      (if m / base == 0 then [] else Digits(m / base, base, upper)) + ([DigitChar(m % base, upper)] + tail)
    ensures |Digits(m, base, upper)| == 1 + if m / base == 0 then 0 else |Digits(m / base, base, upper)|
  {
    hide DigitChar;
    Quotient(m, base);
    Regroup(if m < base then [] else Digits(m / base, base, upper), DigitChar(m % base, upper), tail);
  }

  lemma Regroup(front: CString, last: Byte, tail: CString)
    ensures front + [last] + tail == front + ([last] + tail)
  {
  }

  /** The digit loop of conv_10 and conv_10_quad. */
  method PutDigits(buf: array<Byte>, bufEnd: nat, magnitude: nat) returns (p: nat)
    requires 64 <= bufEnd <= buf.Length && magnitude <= UINT64_MAX
    modifies buf
    ensures Put(buf, p, bufEnd, Digits(magnitude, 10, false))
  {
    hide Digits;
    DigitsFit(magnitude, 10, false);
    p := bufEnd;
    var m: nat := magnitude;
    ghost var tail: CString := [];
    while true
      invariant p <= bufEnd && bufEnd - p == |tail| && |tail| + |Digits(m, 10, false)| <= 64
      invariant Digits(magnitude, 10, false) == Digits(m, 10, false) + tail
      invariant Put(buf, p, bufEnd, tail)
      decreases m
    {
      DigitsStep(m, 10, false, tail);
      var newMagnitude := m / 10;
      p := p - 1;
      buf[p] := m - newMagnitude * 10 + ZERO;
      tail := [DigitChar(m % 10, false)] + tail;
      m := newMagnitude;
      if m == 0 {
        return;
      }
    }
  }

  /** Conversion to an unsigned integer of modulus m. */
  lemma UnsignedWrap(x: int, m: int)
    requires m > 0 && -m <= x < m
    ensures x % m == if x < 0 then x + m else x
  {
    DivModUnique(x, m, if x < 0 then -1 else 0, if x < 0 then x + m else x);
  }

  /** conv_10. */
  method Conv10(num: int, isUnsigned: bool, buf: array<Byte>, bufEnd: nat) returns (p: nat, isNegative: bool, len: nat)
    requires INT32_MIN <= num <= INT32_MAX && 64 <= bufEnd <= buf.Length
    modifies buf
    ensures isNegative == (!isUnsigned && num < 0)
    ensures var m := if isUnsigned then num % 0x1_0000_0000 else if num < 0 then -num else num;
      Put(buf, p, bufEnd, Digits(m, 10, false))
    ensures len == bufEnd - p
  {
    hide Digits;
    UnsignedWrap(num, 0x1_0000_0000);
    var magnitude := num % 0x1_0000_0000;
    if isUnsigned {
      isNegative := false;
    } else {
      isNegative := num < 0;
      if isNegative {
        var t := num + 1;
        UnsignedWrap(-t, 0x1_0000_0000);
        magnitude := (-t) % 0x1_0000_0000 + 1;
      }
    }
    p := PutDigits(buf, bufEnd, magnitude);
    len := bufEnd - p;
  }

  /** conv_10_quad: small numbers go to the 32-bit version. */
  method Conv10Quad(num: int, isUnsigned: bool, buf: array<Byte>, bufEnd: nat)
    returns (p: nat, isNegative: bool, len: nat)
    requires INT64_MIN <= num <= INT64_MAX && 64 <= bufEnd <= buf.Length
    modifies buf
    ensures isNegative == (!isUnsigned && num < 0)
    ensures var m := if isUnsigned then num % (UINT64_MAX + 1) else if num < 0 then -num else num;
      Put(buf, p, bufEnd, Digits(m, 10, false))
    ensures len == bufEnd - p
  {
    hide Digits, ToInt32;
    UnsignedWrap(num, UINT64_MAX + 1);
    UnsignedWrap(ToInt32(num), 0x1_0000_0000);
    var magnitude := num % (UINT64_MAX + 1);
    if (magnitude <= UINT32_MAX && isUnsigned) || (INT32_MIN <= num <= INT32_MAX && !isUnsigned) {
      p, isNegative, len := Conv10(ToInt32(num), isUnsigned, buf, bufEnd);
      return;
    }
    if isUnsigned {
      isNegative := false;
    } else {
      isNegative := num < 0;
      if isNegative {
        var t := num + 1;
        UnsignedWrap(-t, UINT64_MAX + 1);
        magnitude := (-t) % (UINT64_MAX + 1) + 1;
      }
    }
    p := PutDigits(buf, bufEnd, magnitude);
    len := bufEnd - p;
  }

  /** The base that nbits bits a digit make. */
  function Base(nbits: nat): (b: nat)
    requires 1 <= nbits <= 4
    ensures 2 <= b <= 16 && IsMask(b - 1)
  {
    assert IsMask(1) && IsMask(3) && IsMask(7);
    match nbits case 1 => 2 case 2 => 4 case 3 => 8 case 4 => 16
  }

  /** The digit loop of conv_p2 and conv_p2_quad. */
  method PutBits(buf: array<Byte>, bufEnd: nat, number: nat, nbits: nat, upper: bool) returns (p: nat)
    requires 64 <= bufEnd <= buf.Length && number <= UINT64_MAX && 1 <= nbits <= 4
    modifies buf
    ensures Put(buf, p, bufEnd, Digits(number, Base(nbits), upper))
  {
    hide Digits;
    var mask := Base(nbits) - 1;
    DigitsFit(number, mask + 1, upper);
    p := bufEnd;
    var num: nat := number;
    ghost var tail: CString := [];
    while true
      invariant p <= bufEnd && bufEnd - p == |tail| && |tail| + |Digits(num, mask + 1, upper)| <= 64
      invariant Digits(number, mask + 1, upper) == Digits(num, mask + 1, upper) + tail
      invariant Put(buf, p, bufEnd, tail)
      decreases num
    {
      DigitsStep(num, mask + 1, upper, tail);
      Quotient(num, mask + 1);
      AndMask(num, mask);
      p := p - 1;
      buf[p] := DigitChar(And(num, mask), upper);
      tail := [DigitChar(num % (mask + 1), upper)] + tail;
      num := num / (mask + 1);
      if num == 0 {
        return;
      }
    }
  }

  /** conv_p2. */
  method ConvP2(num: nat, nbits: nat, upper: bool, buf: array<Byte>, bufEnd: nat) returns (p: nat, len: nat)
    requires num <= UINT32_MAX && 1 <= nbits <= 4 && 64 <= bufEnd <= buf.Length
    modifies buf
    ensures Put(buf, p, bufEnd, Digits(num, Base(nbits), upper)) && len == bufEnd - p
  {
    p := PutBits(buf, bufEnd, num, nbits, upper);
    len := bufEnd - p;
  }

  /** conv_p2_quad. */
  method ConvP2Quad(num: nat, nbits: nat, upper: bool, buf: array<Byte>, bufEnd: nat) returns (p: nat, len: nat)
    requires num <= UINT64_MAX && 1 <= nbits <= 4 && 64 <= bufEnd <= buf.Length
    modifies buf
    ensures Put(buf, p, bufEnd, Digits(num, Base(nbits), upper)) && len == bufEnd - p
  {
    if num <= UINT32_MAX {
      p, len := ConvP2(num, nbits, upper, buf, bufEnd);
      return;
    }
    p := PutBits(buf, bufEnd, num, nbits, upper);
    len := bufEnd - p;
  }

  /** A 32-bit number has at most ten decimal digits. */
  lemma TenDigits(n: nat)
    requires n <= INT32_MAX
    ensures |Digits(n, 10, false)| <= 10
  {
    var a, b, c := n / 1000, n / 1_000_000, n / 1_000_000_000;
    ThreeDigits(n);
    ThreeDigits(a);
    ThreeDigits(b);
  }

  lemma ThreeDigits(n: nat)
    ensures n < 10 ==> |Digits(n, 10, false)| == 1
    ensures |Digits(n, 10, false)| <= 3 + if n < 1000 then 0 else |Digits(n / 1000, 10, false)|
  {
    DigitsStep(n, 10, false, []);
    DigitsStep(n / 10, 10, false, []);
    DigitsStep(n / 100, 10, false, []);
    assert n / 10 / 10 == n / 100 && n / 100 / 10 == n / 1000;
  }

  /** apr_itoa. The result is the position of the text in its buffer, which ends in a NUL. */
  method Itoa(n: int) returns (buf: array<Byte>, start: nat)
    requires INT32_MIN < n <= INT32_MAX
    ensures fresh(buf) && buf.Length == 14 && start < 14
    ensures buf[start..13] == Decimal(n) && buf[13] == 0
  {
    hide Digits;
    buf := new Byte[14];
    start := 13;
    var negative := n < 0;
    var m: nat := if n < 0 then -n else n;
    TenDigits(m);
    buf[start] := 0;
    ghost var tail: CString := [];
    while true
      invariant start <= 13 && 13 - start == |tail| && |tail| + |Digits(m, 10, false)| <= 10
      invariant Digits(if n < 0 then -n else n, 10, false) == Digits(m, 10, false) + tail
      invariant buf[start..13] == tail && buf[13] == 0
      decreases m
    {
      DigitsStep(m, 10, false, tail);
      start := start - 1;
      buf[start] := ZERO + m % 10;
      assert buf[start..13] == [DigitChar(m % 10, false)] + tail;
      tail := [DigitChar(m % 10, false)] + tail;
      m := m / 10;
      if m == 0 {
        break;
      }
    }
    if negative {
      start := start - 1;
      buf[start] := MINUS;
      assert buf[start..13] == [MINUS] + tail;
    }
  }
}
