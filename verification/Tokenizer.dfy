// Splitting a command line into an argv array.
module Tokenizer {
  import opened Text

  const SPACE: Byte := 32
  const TAB: Byte := 9
  const DQUOTE: Byte := 34
  const SQUOTE: Byte := 39
  const BACKSLASH: Byte := 92

  predicate White(c: Byte) {
    c == SPACE || c == TAB
  }

  /** The bytes that a backslash keeps from ending a token. */
  predicate Special(c: Byte) {
    White(c) || c == DQUOTE || c == SQUOTE
  }

  datatype Quote = Bare | Single | Double

  predicate Ends(c: Byte, q: Quote) {
    match q
    case Bare => White(c)
    case Double => c == DQUOTE
    case Single => c == SQUOTE
  }

  function QuoteOf(s: CString): Quote {
    if s == [] then Bare else if s[0] == DQUOTE then Double else if s[0] == SQUOTE then Single else Bare
  }

  function SkipWhite(s: CString): (t: CString)
    ensures |t| <= |s| && (t == [] || !White(t[0]))
  {
    if s != [] && White(s[0]) then SkipWhite(s[1..]) else s
  }

  /** Where the token that starts s ends. */
  function TokenEnd(s: CString, q: Quote): (n: nat)
    ensures n <= |s| && (n < |s| ==> Ends(s[n], q))
  {
    if s == [] then 0
    else if s[0] == BACKSLASH && |s| > 1 && Special(s[1]) then 2 + TokenEnd(s[2..], q)
    else if Ends(s[0], q) then 0
    else 1 + TokenEnd(s[1..], q)
  }

  /** The text without the backslashes that escape. */
  function Clean(s: CString, escaped: bool): (t: CString)
    ensures |t| <= |s|
  {
    if s == [] then []
    else if !escaped && s[0] == BACKSLASH then Clean(s[1..], true)
    else [s[0]] + Clean(s[1..], false)
  }

  /** What is left of s after its quotation mark, if it has one. */
  function Opened(s: CString): CString {
    if QuoteOf(s) == Bare then s else s[1..]
  }

  function FirstToken(s: CString): CString {
    Clean(Opened(s)[..TokenEnd(Opened(s), QuoteOf(s))], false)
  }

  /** What is left of s after its first token and the byte that ends it. */
  function Remaining(s: CString): (t: CString)
    requires s != []
    ensures |t| < |s|
  {
    var n := TokenEnd(Opened(s), QuoteOf(s));
    if n < |Opened(s)| then Opened(s)[n + 1..] else []
  }

  /** The arguments of a command line. */
  function Tokens(s: CString): seq<CString>
    decreases |s|
  {
    var t := SkipWhite(s);
    if t == [] then [] else [FirstToken(t)] + Tokens(Remaining(t))
  }

  /** SKIP_WHITESPACE. */
  method SkipWhitespace(s: CString, i: nat) returns (j: nat)
    requires i <= |s|
    ensures i <= j <= |s| && s[j..] == SkipWhite(s[i..])
  {
    j := i;
    while White(At(s, j))
      invariant i <= j <= |s| && SkipWhite(s[i..]) == SkipWhite(s[j..])
      decreases |s| - j
    {
      SuffixOf(s, j, 1);
      j := j + 1;
    }
  }

  /** CHECK_QUOTATION. */
  method CheckQuotation(s: CString, i: nat) returns (j: nat, q: Quote)
    requires i <= |s|
    ensures i <= j <= |s| && q == QuoteOf(s[i..]) && s[j..] == Opened(s[i..])
  {
    j, q := i, Bare;
    if At(s, i) == DQUOTE {
      j, q := i + 1, Double;
    } else if At(s, i) == SQUOTE {
      j, q := i + 1, Single;
    }
  }

  /** DETERMINE_NEXTSTRING. */
  method DetermineNext(s: CString, i: nat, q: Quote) returns (j: nat)
    requires i <= |s|
    ensures i <= j <= |s| && j == i + TokenEnd(s[i..], q)
  {
    hide TokenEnd, Ends;
    j := i;
    while At(s, j) != 0
      invariant i <= j <= |s| && i + TokenEnd(s[i..], q) == j + TokenEnd(s[j..], q)
      decreases |s| - j
    {
      TokenEndStep(s, j, q);
      if At(s, j) == BACKSLASH && Special(At(s, j + 1)) {
        j := j + 2;
      } else if Ends(At(s, j), q) {
        return;
      } else {
        j := j + 1;
      }
    }
    TokenEndStep(s, j, q);
  }

  lemma TokenEndStep(s: CString, j: nat, q: Quote)
    requires j <= |s|
    ensures j == |s| ==> TokenEnd(s[j..], q) == 0
    ensures j < |s| ==>
      var pair := s[j] == BACKSLASH && j + 1 < |s| && Special(s[j + 1]);
      TokenEnd(s[j..], q) == if pair then 2 + TokenEnd(s[j + 2..], q) else if Ends(s[j], q) then 0
        else 1 + TokenEnd(s[j + 1..], q)
  {
    if j < |s| {
      SuffixOf(s, j, 1);
      if j + 1 < |s| {
        SuffixOf(s, j, 2);
      }
    }
  }

  /** A buffer that holds a C string, with its NUL. */
  ghost predicate Buffer(a: array<Byte>, s: CString)
    reads a
  {
    |s| < a.Length && a[..|s|] == s && a[|s|] == 0
  }

  /** apr_cpystrn of the text from position i on. The result tells where the NUL went. */
  method Cpystrn(dst: array<Byte>, src: CString, i: nat, size: nat) returns (d: nat)
    requires i <= |src| && size <= dst.Length
    modifies dst
    ensures size == 0 ==> d == 0 && dst[..] == old(dst[..])
    ensures size > 0 ==>
      && d == (if |src| - i < size then |src| - i else size - 1)
      && Buffer(dst, src[i..i + d]) && dst[d + 1..] == old(dst[d + 1..])
  {
    d := 0;
    if size == 0 {
      return;
    }
    while d < size - 1
      invariant d <= size - 1 && i + d <= |src|
      invariant forall k :: 0 <= k < d ==> dst[k] == src[i + k]
      invariant forall k :: d <= k < dst.Length ==> dst[k] == old(dst[k])
    {
      dst[d] := At(src, i + d);
      if dst[d] == 0 {
        assert i + d == |src|;
        return;
      }
      d := d + 1;
    }
    dst[d] := 0;
  }

  lemma CleanNext(s: CString, i: nat, escaped: bool, done: CString)
    requires i < |s|
    ensures !escaped && s[i] == BACKSLASH ==> done + Clean(s[i..], escaped) == done + Clean(s[i + 1..], true)
    ensures escaped || s[i] != BACKSLASH ==> done + Clean(s[i..], escaped) == done + [s[i]] + Clean(s[i + 1..], false)
  {
    assert s[i..][1..] == s[i + 1..];
  }

  /** REMOVE_ESCAPE_CHARS, in place. */
  method RemoveEscapeChars(a: array<Byte>, ghost s: CString)
    requires Buffer(a, s)
    modifies a
    ensures Buffer(a, Clean(s, false))
  {
    hide Clean;
    var escaped, cleaned, dirty := false, 0, 0;
    ghost var done: CString := [];
    assert s[0..] == s && done + Clean(s, false) == Clean(s, false);
    assert forall k :: 0 <= k < |s| ==> a[..|s|][k] == s[k];
    while a[dirty] != 0
      invariant cleaned == |done| <= dirty <= |s| && (escaped ==> cleaned < dirty)
      invariant a[|s|] == 0 && forall k :: dirty <= k < |s| ==> a[k] == s[k]
      invariant forall k :: 0 <= k < cleaned ==> a[k] == done[k]
      invariant done + Clean(s[dirty..], escaped) == Clean(s, false)
      decreases |s| - dirty
    {
      CleanNext(s, dirty, escaped, done);
      if !escaped && a[dirty] == BACKSLASH {
        escaped := true;
      } else {
        escaped := false;
        done := done + [a[dirty]];
        a[cleaned] := a[dirty];
        cleaned := cleaned + 1;
      }
      dirty := dirty + 1;
    }
    a[cleaned] := 0;
    assert a[..cleaned] == done;
  }

  lemma SkipWhiteTwice(s: CString)
    ensures SkipWhite(SkipWhite(s)) == SkipWhite(s) && Tokens(SkipWhite(s)) == Tokens(s)
  {
  }

  /** The next token, between its quotation marks if it has any, goes from position ct to position j. */
  ghost predicate TokenSpan(s: CString, cp: nat, ct: nat, j: nat)
    requires cp <= ct <= j <= |s|
  {
    && SkipWhite(s[cp..]) == s[cp..] && s[ct..] == Opened(s[cp..])
    && j - ct == TokenEnd(s[ct..], QuoteOf(s[cp..]))
  }

  /** What is left of s after the byte that ends the token. */
  function Behind(s: CString, j: nat): CString {
    if j < |s| then s[j + 1..] else []
  }

  /** The token between two cursors, as the two passes find it. */
  lemma TokenAt(s: CString, cp: nat, ct: nat, j: nat)
    requires cp < |s| && cp <= ct <= j <= |s| && TokenSpan(s, cp, ct, j)
    ensures Tokens(s[cp..]) == [Clean(s[ct..j], false)] + Tokens(Behind(s, j))
  {
    hide SkipWhite, TokenEnd, Opened, Clean;
    assert s[ct..][..j - ct] == s[ct..j];
    if j < |s| {
      SuffixOf(s, ct, j - ct + 1);
    }
  }

  /** The first pass: one slot for each token and one for the terminating null. */
  method CountArguments(s: CString, cp: nat) returns (numargs: nat)
    requires cp <= |s| && s[cp..] == SkipWhite(s)
    ensures numargs == |Tokens(s)| + 1
  {
    hide SkipWhite, TokenEnd, Opened, Clean, QuoteOf, Tokens;
    numargs := 1;
    var ct := cp;
    SkipWhiteTwice(s);
    while At(s, ct) != 0
      invariant ct <= |s| && SkipWhite(s[ct..]) == s[ct..]
      invariant numargs + |Tokens(s[ct..])| == |Tokens(s)| + 1
      decreases |s| - ct
    {
      ghost var start := ct;
      var q;
      ct, q := CheckQuotation(s, ct);
      ghost var open := ct;
      ct := DetermineNext(s, ct, q);
      TokenAt(s, start, open, ct);
      if At(s, ct) != 0 {
        ct := ct + 1;
      }
      numargs := numargs + 1;
      SkipWhiteTwice(s[ct..]);
      ct := SkipWhitespace(s, ct);
    }
    NoTokens();
  }

  lemma NoTokens()
    ensures Tokens([]) == []
  {
  }

  /** Copy the bytes between two cursors into a buffer of their own, and unescape them there. */
  method CopyToken(s: CString, from: nat, to: nat) returns (arg: array<Byte>)
    requires from <= to <= |s|
    ensures fresh(arg) && Buffer(arg, Clean(s[from..to], false))
  {
    arg := new Byte[to + 1 - from];
    var d := Cpystrn(arg, s, from, to + 1 - from);
    RemoveEscapeChars(arg, s[from..to]);
  }

  /** One turn of the second pass. */
  method NextArgument(s: CString, i: nat) returns (arg: array<Byte>, cp: nat)
    requires i <= |s| && Tokens(s[i..]) != []
    ensures fresh(arg) && Buffer(arg, Tokens(s[i..])[0]) && i < cp <= |s| + 1
    ensures Tokens(s[i..])[1..] == if cp <= |s| then Tokens(s[cp..]) else []
  {
    hide SkipWhite, TokenEnd, Opened, Clean, QuoteOf, Tokens;
    SkipWhiteTwice(s[i..]);
    NoTokens();
    cp := SkipWhitespace(s, i);
    ghost var start := cp;
    var q;
    cp, q := CheckQuotation(s, cp);
    var ct := cp;
    cp := DetermineNext(s, cp, q);
    TokenAt(s, start, ct, cp);
    arg := CopyToken(s, ct, cp);
    cp := cp + 1;
  }

  /** apr_tokenize_to_argv. */
  method TokenizeToArgv(s: CString) returns (argv: array<array?<Byte>>)
    ensures argv.Length == |Tokens(s)| + 1 && argv[|Tokens(s)|] == null
    ensures forall i :: 0 <= i < |Tokens(s)| ==> argv[i] != null && Buffer(argv[i], Tokens(s)[i])
    ensures forall i, j :: 0 <= i < j < |Tokens(s)| ==> argv[i] != argv[j]
  {
    hide *;
    assert s[0..] == s;
    var cp := SkipWhitespace(s, 0);
    var numargs := CountArguments(s, cp);
    SkipWhiteTwice(s);
    argv := new array?<Byte>[numargs];
    ghost var all := Tokens(s);
    for argnum := 0 to numargs - 1
      invariant fresh(argv) && cp <= |s| + 1
      // Only after the last token may the cursor be past the NUL.
      invariant cp == |s| + 1 ==> argnum == numargs - 1
      invariant all[argnum..] == if cp <= |s| then Tokens(s[cp..]) else []
      invariant forall i :: 0 <= i < argnum ==> argv[i] != null && fresh(argv[i]) && Buffer(argv[i], all[i])
      invariant forall i, j :: 0 <= i < j < argnum ==> argv[i] != argv[j]
    {
      argv[argnum], cp := NextArgument(s, cp);
    }
    argv[numargs - 1] := null;
  }

  // Writing arguments so that they are read back.

  type Letter = b: Byte | b != 0 witness 1

  /** A byte of an argument, written as it is or behind a backslash. */
  datatype Glyph = Raw(c: Letter) | Kept(c: Letter)

  function GlyphText(g: Glyph): CString {
    match g case Raw(c) => [c] case Kept(c) => ['\\' as int, c]
  }

  function Written(gs: seq<Glyph>): CString {
    if gs == [] then [] else GlyphText(gs[0]) + Written(gs[1..])
  }

  /** The argument that is meant. */
  function Meant(gs: seq<Glyph>): CString {
    if gs == [] then [] else [gs[0].c] + Meant(gs[1..])
  }

  /** A byte that needs no backslash: neither a backslash itself nor what ends the argument. */
  predicate NoNeed(c: Byte, q: Quote) {
    && c != '\\' as int
    && match q
       case Double => c != '"' as int
       case Single => c != '\'' as int
       case Bare => c != ' ' as int && c != '\t' as int
  }

  /** All bytes that need a backslash have one. */
  ghost predicate Readable(gs: seq<Glyph>, q: Quote) {
    forall k :: 0 <= k < |gs| && gs[k].Raw? ==> NoNeed(gs[k].c, q)
  }

  function Mark(q: Quote): CString {
    match q case Bare => [] case Single => ['\'' as int] case Double => ['"' as int]
  }

  /** The last byte of the argument is a backslash. */
  predicate EndsInBackslash(a: CString) {
    a != [] && a[|a| - 1] == BACKSLASH
  }

  lemma CleanOne(c: Byte, tail: CString)
    requires c != 0
    ensures Clean([BACKSLASH, c] + tail, false) == [c] + Clean(tail, false)
    ensures c != BACKSLASH ==> Clean([c] + tail, false) == [c] + Clean(tail, false)
  {
    assert ([BACKSLASH, c] + tail)[1..] == [c] + tail && ([c] + tail)[1..] == tail;
  }

  lemma {:induction false} LineNext(gs: seq<Glyph>, rest: CString)
    requires gs != []
    ensures Written(gs) + rest == GlyphText(gs[0]) + (Written(gs[1..]) + rest)
    ensures |Written(gs)| == |Written(gs[1..])| + |GlyphText(gs[0])|
  {
  }

  /** Unescaping gives the argument back, in front of anything. */
  lemma {:induction false} CleanWritten(gs: seq<Glyph>, q: Quote, rest: CString)
    requires Readable(gs, q)
    ensures Clean(Written(gs) + rest, false) == Meant(gs) + Clean(rest, false)
  {
    hide Clean, Written, Meant, GlyphText;
    if gs == [] {
      LineNone(rest);
      MeantNone(Clean(rest, false));
    } else {
      ReadableTail(gs, q);
      CleanWritten(gs[1..], q, rest);
      CleanGlyph(gs[0], q, Written(gs[1..]) + rest);
      LineNext(gs, rest);
      MeantNext(gs, Clean(rest, false));
    }
  }

  lemma ReadableTail(gs: seq<Glyph>, q: Quote)
    requires gs != [] && Readable(gs, q)
    ensures Readable(gs[1..], q) && (gs[0].Raw? ==> NoNeed(gs[0].c, q))
  {
  }

  lemma CleanGlyph(g: Glyph, q: Quote, tail: CString)
    requires g.Raw? ==> NoNeed(g.c, q)
    ensures Clean(GlyphText(g) + tail, false) == [g.c] + Clean(tail, false)
  {
    hide Clean;
    CleanOne(g.c, tail);
  }

  lemma {:induction false} MeantNext(gs: seq<Glyph>, rest: CString)
    requires gs != []
    ensures Meant(gs) + rest == [gs[0].c] + (Meant(gs[1..]) + rest)
  {
  }

  lemma MeantNone(rest: CString)
    ensures Meant([]) + rest == rest
  {
  }

  lemma LineNone(rest: CString)
    ensures Written([]) + rest == rest
  {
  }

  lemma {:induction false} EndPair(x: Byte, tail: CString, q: Quote)
    requires Special(x)
    ensures TokenEnd([BACKSLASH, x] + tail, q) == 2 + TokenEnd(tail, q)
  {
    assert ([BACKSLASH, x] + tail)[2..] == tail;
  }

  lemma EndOne(c: Byte, tail: CString, q: Quote)
    requires c != 0 && !Ends(c, q) && (c == BACKSLASH && tail != [] ==> !Special(tail[0]))
    ensures TokenEnd([c] + tail, q) == 1 + TokenEnd(tail, q)
  {
    assert ([c] + tail)[1..] == tail;
  }

  lemma {:induction false} BackslashTail(gs: seq<Glyph>)
    requires gs != []
    ensures EndsInBackslash(Meant(gs)) <==> if |gs| == 1 then gs[0].c == BACKSLASH else EndsInBackslash(Meant(gs[1..]))
    ensures !EndsInBackslash(Meant([])) && Written([]) == []
  {
  }

  /** Nothing but an escaped backslash can change how the next byte is read. */
  lemma GlyphEnd(g: Glyph, tail: CString, q: Quote)
    requires g != Kept(BACKSLASH) && (g.Raw? ==> NoNeed(g.c, q))
    ensures TokenEnd(GlyphText(g) + tail, q) == |GlyphText(g)| + TokenEnd(tail, q)
  {
    hide TokenEnd;
    if g.Raw? {
      EndOne(g.c, tail, q);
    } else if Special(g.c) {
      EndPair(g.c, tail, q);
    } else {
      assert [BACKSLASH, g.c] + tail == [BACKSLASH] + ([g.c] + tail);
      EndOne(BACKSLASH, [g.c] + tail, q);
      EndOne(g.c, tail, q);
    }
  }

  /** The byte behind an argument ends the token, unless a backslash of the argument comes right before it. */
  lemma {:induction false} WrittenEnd(gs: seq<Glyph>, q: Quote, rest: CString)
    requires Readable(gs, q) && rest != [] && Ends(rest[0], q)
    ensures var n := TokenEnd(Written(gs) + rest, q);
      if EndsInBackslash(Meant(gs)) then n > |Written(gs)| else n == |Written(gs)|
    decreases |gs|, 1
  {
    if gs == [] {
      LineNone(rest);
    } else {
      hide TokenEnd, Written, Meant, EndsInBackslash, GlyphText;
      if gs[0] == Kept(BACKSLASH) {
        WrittenBackslash(gs, q, rest);
      } else {
        LineNext(gs, rest);
        BackslashTail(gs);
        WrittenEnd(gs[1..], q, rest);
        GlyphEnd(gs[0], Written(gs[1..]) + rest, q);
      }
    }
  }

  lemma {:induction false} WrittenBackslash(gs: seq<Glyph>, q: Quote, rest: CString)
    requires Readable(gs, q) && gs != [] && gs[0] == Kept(BACKSLASH) && rest != [] && Ends(rest[0], q)
    ensures var n := TokenEnd(Written(gs) + rest, q);
      if EndsInBackslash(Meant(gs)) then n > |Written(gs)| else n == |Written(gs)|
    decreases |gs|, 0
  {
    hide TokenEnd, Written, Meant, EndsInBackslash;
    LineNext(gs, rest);
    BackslashTail(gs);
    var b, tail: CString := gs[1..], Written(gs[1..]) + rest;
    assert [BACKSLASH, BACKSLASH] + tail == [BACKSLASH] + ([BACKSLASH] + tail);
    EndOne(BACKSLASH, [BACKSLASH] + tail, q);
    BehindBackslash(b, q, rest);
    WrittenEnd(b, q, rest);
    if b != [] {
      BackslashTail(b);
      WrittenEnd(b[1..], q, rest);
    }
  }

  /** After a backslash that stands for itself. */
  lemma {:induction false} BehindBackslash(gs: seq<Glyph>, q: Quote, rest: CString)
    requires rest != [] && Ends(rest[0], q)
    ensures var n := TokenEnd([BACKSLASH] + (Written(gs) + rest), q);
      if gs == [] then n == 2 + TokenEnd(rest[1..], q)
      else if gs[0].Raw? && Special(gs[0].c) then
        n == 2 + TokenEnd(Written(gs[1..]) + rest, q) && |Written(gs)| == 1 + |Written(gs[1..])|
      else n == 1 + TokenEnd(Written(gs) + rest, q)
  {
    hide TokenEnd, Written;
    LineNone(rest);
    if gs == [] {
      assert [BACKSLASH] + (Written(gs) + rest) == [BACKSLASH, rest[0]] + rest[1..];
      EndPair(rest[0], rest[1..], q);
    } else {
      LineNext(gs, rest);
      if gs[0].Raw? && Special(gs[0].c) {
        assert [BACKSLASH] + (Written(gs) + rest) == [BACKSLASH, gs[0].c] + (Written(gs[1..]) + rest);
        EndPair(gs[0].c, Written(gs[1..]) + rest, q);
      } else {
        EndOne(BACKSLASH, Written(gs) + rest, q);
      }
    }
  }

  /** The text of the token, unescaped. */
  lemma {:induction false} LineCut(gs: seq<Glyph>, q: Quote, rest: CString, n: nat)
    requires Readable(gs, q) && rest != [] && rest[0] != BACKSLASH && |Written(gs)| <= n <= |Written(gs) + rest|
    ensures var s := Written(gs) + rest;
      && (n == |Written(gs)| ==> Clean(s[..n], false) == Meant(gs) && s[n + 1..] == rest[1..])
      && (n > |Written(gs)| ==> Clean(s[..n], false) != Meant(gs))
  {
    var more: CString := rest[..n - |Written(gs)|];
    assert (Written(gs) + rest)[..n] == Written(gs) + more;
    CleanWritten(gs, q, more);
    assert more != [] ==> more[0] == rest[0];
  }

  /** The first token of a line that starts with an argument, which something ends. */
  lemma {:induction false} FirstArgument(s: CString, gs: seq<Glyph>, q: Quote, rest: CString)
    requires s != [] && !White(s[0]) && QuoteOf(s) == q && Opened(s) == Written(gs) + rest
    requires Readable(gs, q) && rest != [] && Ends(rest[0], q)
    ensures Tokens(s) != []
    ensures Tokens(s)[0] == Meant(gs) <==> !EndsInBackslash(Meant(gs))
    ensures !EndsInBackslash(Meant(gs)) ==> Tokens(s) == [Meant(gs)] + Tokens(rest[1..])
  {
    hide TokenEnd, Written, Meant, Readable, Clean, Opened, QuoteOf, EndsInBackslash;
    WrittenEnd(gs, q, rest);
    LineCut(gs, q, rest, TokenEnd(Opened(s), q));
    assert Tokens(s) == [FirstToken(s)] + Tokens(Remaining(s));
  }

  /** An argument between quotation marks. */
  function Quoted(gs: seq<Glyph>, q: Quote): CString {
    Mark(q) + Written(gs) + Mark(q)
  }

  /** The first token of a line that starts with a quoted argument. */
  lemma {:induction false} QuotedFirst(gs: seq<Glyph>, q: Quote, rest: CString)
    requires q != Bare && Readable(gs, q)
    ensures var s := Quoted(gs, q) + rest;
      && Tokens(s) != []
      && (Tokens(s)[0] == Meant(gs) <==> !EndsInBackslash(Meant(gs)))
      && (!EndsInBackslash(Meant(gs)) ==> Tokens(s) == [Meant(gs)] + Tokens(rest))
  {
    hide Written, Meant, Readable, Tokens, EndsInBackslash;
    var s: CString := Quoted(gs, q) + rest;
    var close: CString := Mark(q) + rest;
    assert s == Mark(q) + (Written(gs) + close) && s[1..] == Written(gs) + close && close[1..] == rest;
    FirstArgument(s, gs, q, close);
  }

  lemma SpaceSkipped(s: CString)
    ensures Tokens([SPACE] + s) == Tokens(s) && Tokens([TAB] + s) == Tokens(s)
  {
    hide Tokens;
    assert ([SPACE] + s)[1..] == s && ([TAB] + s)[1..] == s;
    SkipWhiteTwice([SPACE] + s);
    SkipWhiteTwice([TAB] + s);
    SkipWhiteTwice(s);
  }

  /** The usual way to quote: a backslash before every backslash and quotation mark. */
  function Escape(a: CString, q: Quote): seq<Glyph> {
    if a == [] then [] else [if NoNeed(a[0], q) then Raw(a[0]) else Kept(a[0])] + Escape(a[1..], q)
  }

  lemma {:induction false} EscapeMeant(a: CString, q: Quote)
    ensures Meant(Escape(a, q)) == a && Readable(Escape(a, q), q)
  {
    if a != [] {
      EscapeMeant(a[1..], q);
      var g := if NoNeed(a[0], q) then Raw(a[0]) else Kept(a[0]);
      assert Escape(a, q) == [g] + Escape(a[1..], q) && a == [a[0]] + a[1..];
      assert forall k :: 0 < k < |Escape(a, q)| ==> Escape(a, q)[k] == Escape(a[1..], q)[k - 1];
    }
  }

  /** A command line for a list of arguments, all of them quoted. */
  function CommandLine(args: seq<CString>, q: Quote): CString {
    if args == [] then []
    else if |args| == 1 then Quoted(Escape(args[0], q), q)
    else Quoted(Escape(args[0], q), q) + [' ' as int] + CommandLine(args[1..], q)
  }

  /** The first argument and the rest of the line. */
  lemma LineFirst(args: seq<CString>, q: Quote) returns (rest: CString)
    requires args != []
    ensures CommandLine(args, q) == Quoted(Escape(args[0], q), q) + rest
    ensures Tokens(rest) == Tokens(CommandLine(args[1..], q))
  {
    hide Tokens, Quoted, Escape;
    if |args| == 1 {
      rest := [];
      assert args[1..] == [];
      assert Quoted(Escape(args[0], q), q) + rest == Quoted(Escape(args[0], q), q);
    } else {
      rest := [SPACE] + CommandLine(args[1..], q);
      SpaceSkipped(CommandLine(args[1..], q));
    }
  }

  /** No argument ends in a backslash. */
  ghost predicate Quotable(args: seq<CString>) {
    forall i :: 0 <= i < |args| ==> !EndsInBackslash(args[i])
  }

  lemma QuotableTail(args: seq<CString>)
    requires args != []
    ensures Quotable(args) <==> !EndsInBackslash(args[0]) && Quotable(args[1..])
  {
    assert args == [args[0]] + args[1..];
  }

  /** Quoting and tokenizing gives the arguments back exactly when none of them ends in a backslash. */
  lemma {:induction false} QuoteTokenize(args: seq<CString>, q: Quote)
    requires q != Bare
    ensures Tokens(CommandLine(args, q)) == args <==> Quotable(args)
  {
    if args != [] {
      hide Tokens, Quoted, CommandLine, EndsInBackslash, Quotable, Escape, Meant, Readable;
      var rest := LineFirst(args, q);
      EscapeMeant(args[0], q);
      QuotedFirst(Escape(args[0], q), q, rest);
      QuoteTokenize(args[1..], q);
      ListStep(args, Tokens(CommandLine(args, q)), Tokens(rest));
      QuotableTail(args);
    }
  }

  lemma ListStep(args: seq<CString>, all: seq<CString>, rest: seq<CString>)
    requires args != [] && all != [] && (all[0] == args[0] ==> all == [args[0]] + rest)
    ensures all == args <==> all[0] == args[0] && rest == args[1..]
  {
    assert all == [all[0]] + all[1..] && args == [args[0]] + args[1..];
  }
}
