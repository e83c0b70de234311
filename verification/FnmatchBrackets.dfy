// What the text of a pattern means, character by character: brackets, wildcards and escapes.
module FnmatchBrackets {
  import opened Chars
  import opened Text
  import opened Fnmatch

  /** Upper case letters become lower case ones. */
  function Folded(c: Byte): Byte {
    if IsUpper(c) then c + 32 else c
  }

  /** One byte may be matched by a wildcard: not a slash with PATHNAME, nor a leading period with PERIOD. */
  predicate Open1(c: Byte, lead: bool, f: Flags) {
    !(f.pathname && c == '/' as int) && !(f.period && lead && c == '.' as int)
  }

  /** What is said of the bytes behind the first one. */
  ghost predicate RestAccepted(rest: CString, s: CString, f: Flags)
    requires s != []
  {
    Accepts(rest, s[1..], f.pathname && s[0] == '/' as int, f)
  }

  /** `?` takes one byte. */
  lemma QuestionText(rest: CString, s: CString, lead: bool, f: Flags)
    ensures Accepts(['?' as int] + rest, s, lead, f) <==> s != [] && Open1(s[0], lead, f) && RestAccepted(rest, s, f)
  {
    var p: CString := ['?' as int] + rest;
    assert p[1..] == rest;
    AcceptsAny(p, s, lead, f);
  }

  /** `*` takes everything, but no slash with PATHNAME, and with PERIOD nothing that starts with a leading period. */
  lemma StarText(s: CString, lead: bool, f: Flags)
    ensures Accepts(['*' as int], s, lead, f) <==>
      (f.pathname ==> '/' as int !in s) && !(f.period && lead && s != [] && s[0] == '.' as int)
  {
    var p: CString := ['*' as int];
    AcceptsStarLast(p, s, lead, f);
  }

  /** A star takes any run without a slash that leaves something the rest of the pattern accepts; without PERIOD. */
  lemma StarTextRest(rest: CString, s: CString, lead: bool, f: Flags)
    requires !f.period && rest != [] && rest[0] != '*' as int
    ensures Accepts(['*' as int] + rest, s, lead, f) <==>
      exists k: nat :: k <= |s| && (f.pathname ==> '/' as int !in s[..k]) && Accepts(rest, s[k..], lead, f)
  {
    var p: CString := ['*' as int] + rest;
    hide Parse;
    assert p[1..] == rest;
    ParseStars(p, 1, f.noescape);
    var ts := [Star] + Parse(rest, f.noescape);
    assert ts[0] == Star && !Hidden(s, lead, f) && Parse(p, f.noescape) == ts;
    assert Matches(ts, s, lead, f) <==> exists k: nat :: k <= |s| && Skips(ts, s, lead, f, k);
    if k: nat :| k <= |s| && Skips(ts, s, lead, f, k) {
      SkipText(rest, s, k, lead, f);
    }
    if k: nat :| k <= |s| && (f.pathname ==> '/' as int !in s[..k]) && Accepts(rest, s[k..], lead, f) {
      SkipText(rest, s, k, lead, f);
    }
  }

  lemma SkipText(rest: CString, s: CString, k: nat, lead: bool, f: Flags)
    requires !f.period && k <= |s|
    ensures Skips([Star] + Parse(rest, f.noescape), s, lead, f, k) <==>
      (f.pathname ==> '/' as int !in s[..k]) && Accepts(rest, s[k..], lead, f)
  {
    hide Parse, Matches;
    var ts := [Star] + Parse(rest, f.noescape);
    assert ts[1..] == Parse(rest, f.noescape) && After(ts[1..], f) == f;
    LeadIrrelevant(ts[1..], s[k..], f);
  }

  /** Any other byte takes itself, with CASE_BLIND also the same letter in its other case. */
  lemma LiteralText(c: Byte, rest: CString, s: CString, lead: bool, f: Flags)
    requires c != 0 && c != '?' as int && c != '*' as int && c != '[' as int && (c == '\\' as int ==> f.noescape)
    ensures Accepts([c] + rest, s, lead, f) <==>
      s != [] && (s[0] == c || (f.caseBlind && SameLetter(c, s[0]))) && RestAccepted(rest, s, f)
  {
    var p: CString := [c] + rest;
    assert p[1..] == rest;
    AcceptsLit(p, s, lead, f);
  }

  /** An escaped byte takes itself, whatever it is. */
  lemma EscapedText(c: Byte, rest: CString, s: CString, lead: bool, f: Flags)
    requires c != 0 && !f.noescape
    ensures Accepts(['\\' as int, c] + rest, s, lead, f) <==>
      s != [] && (s[0] == c || (f.caseBlind && SameLetter(c, s[0]))) && RestAccepted(rest, s, f)
  {
    var p: CString := ['\\' as int, c] + rest;
    assert p[2..] == rest;
    AcceptsLit(p, s, lead, f);
  }

  /** A byte in a bracket, as it is or behind a backslash. */
  datatype Mark = Raw(c: Byte) | Escaped(c: Byte)

  /** What a bracket lists, as it is written. */
  datatype Piece = Single(m: Mark) | Span(lo: Mark, hi: Mark)

  function MarkText(m: Mark): seq<Byte> {
    match m case Raw(c) => [c] case Escaped(c) => ['\\' as int, c]
  }

  function PieceText(x: Piece): seq<Byte> {
    match x case Single(m) => MarkText(m) case Span(lo, hi) => MarkText(lo) + ['-' as int] + MarkText(hi)
  }

  function BodyText(ps: seq<Piece>): seq<Byte> {
    if ps == [] then [] else PieceText(ps[0]) + BodyText(ps[1..])
  }

  /** A byte that needs no backslash, or has one. */
  predicate GoodMark(m: Mark, noescape: bool) {
    m.c != 0 && if m.Escaped? then !noescape else m.c != '\\' as int || noescape
  }

  /** A bracket ends in front of an unescaped `]`, and a dash makes a range. */
  predicate GoodPiece(x: Piece, noescape: bool) {
    match x
    case Single(m) => GoodMark(m, noescape) && m != Raw(']' as int)
    case Span(lo, hi) =>
      GoodMark(lo, noescape) && GoodMark(hi, noescape) && lo != Raw(']' as int) && hi != Raw(']' as int)
  }

  function FirstMark(x: Piece): Mark {
    match x case Single(m) => m case Span(lo, _) => lo
  }

  /** A list of pieces that reads as it is meant: behind the first one a dash stands for itself only at the end. */
  ghost predicate GoodBody(ps: seq<Piece>, noescape: bool) {
    && (forall k :: 0 <= k < |ps| ==> GoodPiece(ps[k], noescape))
    && (forall k :: 1 <= k < |ps| && FirstMark(ps[k]) == Raw('-' as int) ==>
      k == |ps| - 1 && ps[k] == Single(Raw('-' as int)))
  }

  /** A piece lists a byte: it is the byte, or both ends and all between, in char order; CASE_BLIND adds to that. */
  predicate PieceLists(x: Piece, c: Byte, fold: bool) {
    match x
    case Single(m) => m.c == c || (fold && SameLetter(m.c, c))
    case Span(lo, hi) =>
      CharOf(lo.c) <= CharOf(c) <= CharOf(hi.c) || (fold && Folded(lo.c) <= Folded(c) <= Folded(hi.c))
  }

  predicate BodyLists(ps: seq<Piece>, c: Byte, fold: bool) {
    exists k :: 0 <= k < |ps| && PieceLists(ps[k], c, fold)
  }

  function ItemOf(x: Piece): Item {
    match x case Single(m) => One(m.c) case Span(lo, hi) => Range(lo.c, hi.c)
  }

  function ItemsOf(ps: seq<Piece>): (items: seq<Item>)
    ensures |items| == |ps| && forall k :: 0 <= k < |ps| ==> items[k] == ItemOf(ps[k])
  {
    seq(|ps|, k requires 0 <= k < |ps| => ItemOf(ps[k]))
  }

  /** A well-written piece is read as the item it stands for. */
  lemma PieceScanned(x: Piece, tail: CString, noescape: bool)
    requires GoodPiece(x, noescape) && 0 !in PieceText(x)
    requires tail != [] && (tail[0] != '-' as int || |tail| == 1 || tail[1] == ']' as int)
    ensures var p: CString := PieceText(x) + tail;
      && p[0] != CLOSE && ItemSize(p, noescape) == |PieceText(x)| && ItemAt(p, noescape) == ItemOf(x)
      && p[|PieceText(x)|..] == tail
  {
  }

  /** A bracket is read up to its end as the items that its pieces stand for. */
  lemma {:induction false} BodyScanned(ps: seq<Piece>, rest: CString, noescape: bool)
    requires GoodBody(ps, noescape)
    ensures 0 !in BodyText(ps)
    ensures ScanItems(BodyText(ps) + [']' as int] + rest, noescape) == Closed(ItemsOf(ps), |BodyText(ps)| + 1)
  {
    hide ItemSize, ItemAt, GoodBody, GoodPiece, PieceText, ScanItems;
    if ps == [] {
      ScanEnd(rest, noescape);
      assert BodyText(ps) + [']' as int] + rest == [']' as int] + rest;
    } else {
      GoodTail(ps, noescape);
      BodyScanned(ps[1..], rest, noescape);
      NextStart(ps, rest, noescape);
      PieceStep(ps[0], BodyText(ps[1..]) + [']' as int] + rest, noescape);
      assert BodyText(ps) + [']' as int] + rest == PieceText(ps[0]) + (BodyText(ps[1..]) + [']' as int] + rest);
      assert [ItemOf(ps[0])] + ItemsOf(ps[1..]) == ItemsOf(ps);
    }
  }

  lemma ScanEnd(rest: CString, noescape: bool)
    ensures ScanItems([']' as int] + rest, noescape) == Closed([], 1)
  {
  }

  lemma GoodTail(ps: seq<Piece>, noescape: bool)
    requires GoodBody(ps, noescape) && ps != []
    ensures GoodPiece(ps[0], noescape) && GoodBody(ps[1..], noescape)
  {
    hide GoodPiece;
  }

  lemma PieceStep(x: Piece, tail: CString, noescape: bool)
    requires GoodPiece(x, noescape) && 0 !in PieceText(x)
    requires tail != [] && (tail[0] != '-' as int || |tail| == 1 || tail[1] == ']' as int)
    ensures ScanItems(PieceText(x) + tail, noescape) == Listed(ItemOf(x), |PieceText(x)|, ScanItems(tail, noescape))
  {
    hide ItemSize, ItemAt, GoodPiece, PieceText;
    PieceScanned(x, tail, noescape);
    PieceSome(x);
  }

  lemma PieceSome(x: Piece)
    ensures PieceText(x) != []
  {
  }

  /** What follows the first piece does not start with a dash, except the last one. */
  lemma NextStart(ps: seq<Piece>, rest: CString, noescape: bool)
    requires GoodBody(ps, noescape) && ps != []
    ensures var tail := BodyText(ps[1..]) + [']' as int] + rest;
      tail != [] && (tail[0] != '-' as int || (|tail| > 1 && tail[1] == ']' as int))
    ensures 0 !in PieceText(ps[0])
  {
    if |ps| > 1 {
      assert ps[1..][0] == ps[1];
      if FirstMark(ps[1]) == Raw('-' as int) {
        assert ps[1..] == [Single(Raw('-' as int))] && ps[1..][1..] == [];
        assert BodyText(ps[1..]) == ['-' as int];
      }
    }
  }

  /** A bracket with these pieces, negated by `!` or `^` or not. */
  function BracketText(mark: seq<Byte>, ps: seq<Piece>): seq<Byte> {
    ['[' as int] + mark + BodyText(ps) + [']' as int]
  }

  /** The text of the bracket does not start with a mark by accident. */
  predicate GoodStart(mark: seq<Byte>, ps: seq<Piece>) {
    if mark == [] then ps == [] || FirstMark(ps[0]) !in [Raw('!' as int), Raw('^' as int)]
    else mark == ['!' as int] || mark == ['^' as int]
  }

  lemma BracketParsed(mark: seq<Byte>, ps: seq<Piece>, rest: CString, noescape: bool)
    requires GoodBody(ps, noescape) && GoodStart(mark, ps)
    ensures 0 !in BracketText(mark, ps)
    ensures Parse(BracketText(mark, ps) + rest, noescape) == [Class(mark != [], ItemsOf(ps))] + Parse(rest, noescape)
  {
    hide GoodBody, ScanItems, BodyText, Parse;
    BodyScanned(ps, rest, noescape);
    StartMark(ps, rest, noescape);
    var body := BodyText(ps) + [']' as int] + rest;
    assert BracketText(mark, ps) + rest == ['[' as int] + mark + body;
    ClassParsed(mark, body, ItemsOf(ps), |BodyText(ps)| + 1, noescape);
    assert body[|BodyText(ps)| + 1..] == rest;
  }

  lemma ClassParsed(mark: seq<Byte>, body: CString, items: seq<Item>, size: nat, noescape: bool)
    requires mark == ['!' as int] || mark == ['^' as int] || (mark == [] && !Negated(body))
    requires ScanItems(body, noescape) == Closed(items, size)
    ensures Parse(['[' as int] + mark + body, noescape) == [Class(mark != [], items)] + Parse(body[size..], noescape)
  {
    hide ScanItems;
    var p: CString := ['[' as int] + mark + body;
    assert p[1..] == mark + body;
    if mark == [] {
      assert p[1..] == body;
    } else {
      assert p[2..] == body;
    }
  }

  lemma StartMark(ps: seq<Piece>, rest: CString, noescape: bool)
    requires GoodBody(ps, noescape)
    ensures var body := BodyText(ps) + [']' as int] + rest;
      GoodStart([], ps) && 0 !in body ==> !Negated(body)
  {
  }

  lemma ListsItems(ps: seq<Piece>, c: Byte, f: Flags)
    ensures InItems(ItemsOf(ps), c, f) <==> BodyLists(ps, c, f.caseBlind)
  {
    hide PieceLists, InItem;
    forall k | 0 <= k < |ps| ensures InItem(ItemsOf(ps)[k], c, f) <==> PieceLists(ps[k], c, f.caseBlind) {
      ListsItem(ps[k], c, f);
    }
  }

  lemma ListsItem(x: Piece, c: Byte, f: Flags)
    ensures InItem(ItemOf(x), c, f) <==> PieceLists(x, c, f.caseBlind)
  {
  }

  /**
   * A bracket takes one byte, if its pieces list it; a negated one, if they do not. Neither takes a slash
   * with PATHNAME or a leading period with PERIOD.
   */
  lemma BracketMeaning(mark: seq<Byte>, ps: seq<Piece>, rest: CString, s: CString, lead: bool, f: Flags)
    requires GoodBody(ps, f.noescape) && GoodStart(mark, ps)
    ensures 0 !in BracketText(mark, ps)
    ensures Accepts(BracketText(mark, ps) + rest, s, lead, f) <==>
      && s != [] && Open1(s[0], lead, f) && RestAccepted(rest, s, f)
      && (BodyLists(ps, s[0], f.caseBlind) <==> mark == [])
  {
    hide GoodBody, GoodStart, BodyLists, InItems, Parse, BracketText;
    BracketParsed(mark, ps, rest, f.noescape);
    ClassMeaning(mark != [], ItemsOf(ps), rest, s, lead, f);
    if s != [] {
      ListsItems(ps, s[0], f);
    }
  }

  lemma ClassMeaning(negate: bool, items: seq<Item>, rest: CString, s: CString, lead: bool, f: Flags)
    ensures Matches([Class(negate, items)] + Parse(rest, f.noescape), s, lead, f) <==>
      s != [] && Open1(s[0], lead, f) && RestAccepted(rest, s, f) && InItems(items, s[0], f) != negate
  {
    hide InItems, Parse;
    var ts := [Class(negate, items)] + Parse(rest, f.noescape);
    assert ts[0] == Class(negate, items) && ts[1..] == Parse(rest, f.noescape);
    assert Matches(ts, s, lead, f) <==> Plain(s, lead, f) && InItems(items, s[0], f) != negate && Next(ts, s, f);
  }

  /** `[lo-hi]`: exactly the strings of one byte from lo to hi, both included. */
  lemma RangeText(lo: Byte, hi: Byte, s: CString)
    requires 0 < lo < 128 && 0 < hi < 128
    requires lo !in [']' as int, '\\' as int, '!' as int, '^' as int] && hi !in [']' as int, '\\' as int]
    ensures Accepts(['[' as int, lo, '-' as int, hi, ']' as int], s, true, Flags(false, false, false, false)) <==>
      |s| == 1 && lo <= s[0] <= hi
  {
    var f, ps := Flags(false, false, false, false), [Span(Raw(lo), Raw(hi))];
    BracketMeaning([], ps, [], s, true, f);
    assert ps[1..] == [];
    assert BodyText(ps) == [lo, '-' as int, hi];
    assert BracketText([], ps) + [] == ['[' as int, lo, '-' as int, hi, ']' as int];
    if s != [] {
      assert BodyLists(ps, s[0], false) <==> PieceLists(ps[0], s[0], false);
      AcceptsNone(s[1..], false, f);
    }
  }

  function Singles(cs: CString): (ps: seq<Piece>)
    ensures |ps| == |cs| && forall k :: 0 <= k < |cs| ==> ps[k] == Single(Raw(cs[k]))
  {
    seq(|cs|, k requires 0 <= k < |cs| => Single(Raw(cs[k])))
  }

  lemma {:induction false} SinglesText(cs: CString)
    ensures BodyText(Singles(cs)) == cs
  {
    if cs != [] {
      assert Singles(cs)[1..] == Singles(cs[1..]);
      SinglesText(cs[1..]);
    }
  }

  /** `[c1..cn]`: exactly the strings of one of these bytes; `[!c1..cn]` and `[^c1..cn]`: those of one other byte. */
  lemma ListText(cs: CString, mark: Byte, s: CString)
    requires forall k :: 0 <= k < |cs| ==> cs[k] !in [']' as int, '\\' as int, '-' as int, '!' as int, '^' as int]
    requires mark == '!' as int || mark == '^' as int
    ensures var f := Flags(false, false, false, false);
      && (Accepts(['[' as int] + cs + [']' as int], s, true, f) <==> |s| == 1 && s[0] in cs)
      && (Accepts(['[' as int, mark] + cs + [']' as int], s, true, f) <==> |s| == 1 && s[0] !in cs)
  {
    hide GoodBody, GoodStart, BodyLists, Accepts, BracketText;
    var f, ps := Flags(false, false, false, false), Singles(cs);
    SinglesGood(cs, mark);
    BracketMeaning([], ps, [], s, true, f);
    BracketMeaning([mark], ps, [], s, true, f);
    assert BracketText([], ps) + [] == ['[' as int] + cs + [']' as int];
    assert BracketText([mark], ps) + [] == ['[' as int, mark] + cs + [']' as int];
    if s != [] {
      AcceptsNone(s[1..], false, f);
      SinglesList(cs, s[0]);
    }
  }

  lemma SinglesGood(cs: CString, mark: Byte)
    requires forall k :: 0 <= k < |cs| ==> cs[k] !in [']' as int, '\\' as int, '-' as int, '!' as int, '^' as int]
    requires mark == '!' as int || mark == '^' as int
    ensures var ps := Singles(cs); GoodBody(ps, false) && GoodStart([], ps) && GoodStart([mark], ps)
    ensures BracketText([], Singles(cs)) == ['[' as int] + cs + [']' as int]
    ensures BracketText([mark], Singles(cs)) == ['[' as int, mark] + cs + [']' as int]
  {
    SinglesText(cs);
  }

  lemma SinglesList(cs: CString, c: Byte)
    ensures BodyLists(Singles(cs), c, false) <==> c in cs
  {
    if c in cs {
      var k :| 0 <= k < |cs| && cs[k] == c;
      assert PieceLists(Singles(cs)[k], c, false);
    }
  }
}
