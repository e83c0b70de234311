// CASE_BLIND: for which patterns the case of letters in the string does not matter.
module FnmatchCase {
  import opened Chars
  import opened Text
  import opened Fnmatch
  import opened FnmatchBrackets

  /** A range that has some letter in one case only, even with CASE_BLIND: it starts or ends among the letters. */
  predicate Uneven(lo: Byte, hi: Byte) {
    var l, h := CharOf(lo), CharOf(hi);
    if l < 0 then 'A' as int <= h < 'z' as int
    else l <= 'Z' as int < h && (h < 'z' as int || l > 'A' as int)
  }

  /** The items list both cases of a letter or none. */
  ghost predicate EvenItems(items: seq<Item>, f: Flags) {
    forall c: Byte :: IsUpper(c) ==> (InItems(items, c, f) <==> InItems(items, c + 32, f))
  }

  /** Every bracket does. */
  ghost predicate Even(ts: seq<Token>, f: Flags) {
    forall i :: 0 <= i < |ts| && ts[i].Class? ==> EvenItems(ts[i].items, f)
  }

  lemma ItemExchange(item: Item, c: Byte, d: Byte, f: Flags)
    requires f.caseBlind && SameLetter(c, d) && (item.Range? ==> !Uneven(item.lo, item.hi))
    ensures InItem(item, c, f) <==> InItem(item, d, f)
  {
  }

  /** Brackets without uneven ranges do. */
  lemma EvenRanges(items: seq<Item>, f: Flags)
    requires f.caseBlind && forall k :: 0 <= k < |items| && items[k].Range? ==> !Uneven(items[k].lo, items[k].hi)
    ensures EvenItems(items, f)
  {
    hide InItem, Uneven;
    forall c: Byte | IsUpper(c) ensures InItems(items, c, f) <==> InItems(items, c + 32, f) {
      forall k | 0 <= k < |items| ensures InItem(items[k], c, f) <==> InItem(items[k], c + 32, f) {
        ItemExchange(items[k], c, c + 32, f);
      }
    }
  }

  lemma ItemsExchange(items: seq<Item>, c: Byte, d: Byte, f: Flags)
    requires EvenItems(items, f) && SameLetter(c, d)
    ensures InItems(items, c, f) <==> InItems(items, d, f)
  {
    hide InItems;
    if IsUpper(c) {
      assert InItems(items, c, f) <==> InItems(items, c + 32, f);
    } else if IsUpper(d) {
      assert InItems(items, d, f) <==> InItems(items, d + 32, f);
    }
  }

  lemma {:induction false} TokensExchange(ts: seq<Token>, s: CString, t: CString, lead: bool, f: Flags)
    requires f.caseBlind && Even(ts, f) && SameLetters(s, t)
    ensures Matches(ts, s, lead, f) <==> Matches(ts, t, lead, f)
  {
    hide InItems, EvenItems, Even;
    if ts != [] {
      EvenTail(ts, f);
      EvenSame(ts[1..], f, After(ts[1..], f));
      if ts[0].Star? {
        forall k: nat | k <= |s| ensures Skips(ts, s, lead, f, k) <==> Skips(ts, t, lead, f, k) {
          SameRun(s, t, k);
          TokensExchange(ts[1..], s[k..], t[k..], lead && k == 0, After(ts[1..], f));
        }
      } else if s != [] {
        SameRun(s, t, 1);
        TokensExchange(ts[1..], s[1..], t[1..], f.pathname && s[0] == SLASH, f);
        assert Next(ts, s, f) <==> Next(ts, t, f);
        if ts[0].Class? {
          ItemsExchange(ts[0].items, s[0], t[0], f);
        }
      }
    }
  }

  lemma EvenTail(ts: seq<Token>, f: Flags)
    requires Even(ts, f) && ts != []
    ensures Even(ts[1..], f) && (ts[0].Class? ==> EvenItems(ts[0].items, f))
  {
    hide EvenItems;
    assert forall i :: 0 <= i < |ts[1..]| ==> ts[1..][i] == ts[i + 1];
  }

  lemma EvenSame(ts: seq<Token>, f: Flags, g: Flags)
    requires Even(ts, f) && g == f.(period := g.period)
    ensures Even(ts, g)
  {
    hide EvenItems;
    forall i | 0 <= i < |ts| && ts[i].Class? ensures EvenItems(ts[i].items, g) {
      ItemsSame(ts[i].items, f, g);
    }
  }

  lemma ItemsSame(items: seq<Item>, f: Flags, g: Flags)
    requires EvenItems(items, f) && g == f.(period := g.period)
    ensures EvenItems(items, g)
  {
    hide InItems;
    forall c: Byte ensures InItems(items, c, g) <==> InItems(items, c, f) {
      InItemsPeriod(items, c, f, g);
    }
  }

  lemma InItemsPeriod(items: seq<Item>, c: Byte, f: Flags, g: Flags)
    requires g == f.(period := g.period)
    ensures InItems(items, c, g) <==> InItems(items, c, f)
  {
    forall k | 0 <= k < |items| ensures InItem(items[k], c, g) <==> InItem(items[k], c, f) {
    }
  }

  lemma SameRun(s: CString, t: CString, k: nat)
    requires SameLetters(s, t) && k <= |s|
    ensures SameLetters(s[k..], t[k..]) && (SLASH in s[..k] <==> SLASH in t[..k])
    ensures s != [] ==> (s[0] == SLASH <==> t[0] == SLASH) && (s[0] == DOT <==> t[0] == DOT)
  {
    forall i | 0 <= i < k ensures s[i] == SLASH <==> t[i] == SLASH {
    }
    if SLASH in s[..k] {
      var i :| 0 <= i < k && s[..k][i] == SLASH;
      assert t[..k][i] == SLASH;
    }
    if SLASH in t[..k] {
      var i :| 0 <= i < k && t[..k][i] == SLASH;
      assert s[..k][i] == SLASH;
    }
  }

  /** With CASE_BLIND the case of letters in the string does not matter, if all brackets are even. */
  lemma CaseExchange(p: CString, s: CString, t: CString, lead: bool, f: Flags)
    requires f.caseBlind && Even(Parse(p, f.noescape), f) && SameLetters(s, t)
    ensures Accepts(p, s, lead, f) <==> Accepts(p, t, lead, f)
  {
    hide Even, Parse;
    TokensExchange(Parse(p, f.noescape), s, t, lead, f);
  }

  /** A letter that an uneven range has in one case only. */
  lemma UnevenLetter(lo: Byte, hi: Byte) returns (c: Byte, d: Byte)
    requires Uneven(lo, hi)
    ensures SameLetter(c, d) && c != 0 && d != 0 && Open1(c, true, Flags(false, true, true, true))
    ensures Open1(d, true, Flags(false, true, true, true))
    ensures PieceLists(Span(Raw(lo), Raw(hi)), c, true) && !PieceLists(Span(Raw(lo), Raw(hi)), d, true)
  {
    var l, h := CharOf(lo), CharOf(hi);
    if l < 0 {
      c := if h <= 'Z' as int then hi else 'Z' as int;
      d := c + 32;
    } else if h < 'z' as int {
      c, d := 'Z' as int, 'z' as int;
    } else {
      c, d := 'a' as int, 'A' as int;
    }
  }

  /** A bracket of one range treats both cases alike exactly if the range is not uneven; `[A-_]` is. */
  lemma RangeExchange(lo: Byte, hi: Byte, noescape: bool)
    requires GoodPiece(Span(Raw(lo), Raw(hi)), noescape) && GoodStart([], [Span(Raw(lo), Raw(hi))])
    ensures 0 !in BracketText([], [Span(Raw(lo), Raw(hi))])
    ensures var f := Flags(noescape, true, true, true);
      var p: CString := BracketText([], [Span(Raw(lo), Raw(hi))]);
      (forall s: CString, t: CString :: SameLetters(s, t) ==> (Accepts(p, s, true, f) <==> Accepts(p, t, true, f)))
        <==> !Uneven(lo, hi)
    ensures Uneven('A' as int, '_' as int)
  {
    hide Uneven, PieceLists, Accepts, Even, Parse, BracketText;
    var f, ps := Flags(noescape, true, true, true), [Span(Raw(lo), Raw(hi))];
    BracketParsed([], ps, [], noescape);
    var p: CString := BracketText([], ps);
    NothingParsed(noescape);
    assert p + [] == p;
    assert ItemsOf(ps) == [Range(lo, hi)];
    assert Parse(p, noescape) == [Class(false, [Range(lo, hi)])];
    UnevenExample();
    if Uneven(lo, hi) {
      var c, d := UnevenLetter(lo, hi);
      OneLetter(ps, c, f);
      OneLetter(ps, d, f);
      assert SameLetters([c], [d]);
    } else {
      RangeEven(lo, hi, f);
      forall s: CString, t: CString | SameLetters(s, t) ensures Accepts(p, s, true, f) <==> Accepts(p, t, true, f) {
        CaseExchange(p, s, t, true, f);
      }
    }
  }

  /** The tokens that take a byte. */
  function Size(ts: seq<Token>): nat {
    if ts == [] then 0 else (if ts[0].Star? then 0 else 1) + Size(ts[1..])
  }

  lemma {:induction false} AtLeastSize(ts: seq<Token>, s: CString, lead: bool, f: Flags)
    requires Matches(ts, s, lead, f)
    ensures |s| >= Size(ts)
    decreases |ts|
  {
    if ts != [] {
      if ts[0].Star? {
        var k: nat :| k <= |s| && Skips(ts, s, lead, f, k);
        AtLeastSize(ts[1..], s[k..], lead && k == 0, After(ts[1..], f));
      } else {
        assert Next(ts, s, f);
        AtLeastSize(ts[1..], s[1..], f.pathname && s[0] == SLASH, f);
      }
    }
  }

  lemma WholeRest(ts: seq<Token>, s: CString, lead: bool, f: Flags)
    requires ts != [] && ts[0].Star? && !f.period && Matches(ts[1..], s, true, f)
    ensures Matches(ts, s, lead, f)
  {
    assert s[0..] == s && s[..0] == [] && After(ts[1..], f) == f;
    LeadIrrelevant(ts[1..], s, f);
    assert Skips(ts, s, lead, f, 0);
  }

  lemma WholeString(ts: seq<Token>, s: CString, lead: bool, f: Flags)
    requires ts != [] && ts[0].Star? && Matches(ts, s, lead, f) && |s| == Size(ts)
    ensures Matches(ts[1..], s, lead, After(ts[1..], f))
  {
    var k: nat :| k <= |s| && Skips(ts, s, lead, f, k);
    assert s[0..] == s;
    AtLeastSize(ts[1..], s[k..], lead && k == 0, After(ts[1..], f));
  }

  lemma StarNothing(ts: seq<Token>, s: CString, lead: bool, f: Flags)
    requires ts != [] && ts[0].Star? && !Hidden(s, lead, f) && Matches(ts[1..], s, lead, After(ts[1..], f))
    ensures Matches(ts, s, lead, f)
  {
    assert s[0..] == s && s[..0] == [];
    assert Skips(ts, s, lead, f, 0);
  }

  /** A pattern that accepts anything accepts a string for which no star takes a byte. */
  lemma {:induction false} Shortest(ts: seq<Token>, s: CString, lead: bool, f: Flags) returns (t: CString)
    requires Matches(ts, s, lead, f) && !f.period
    ensures Matches(ts, t, true, f) && |t| == Size(ts)
    decreases |ts|
  {
    hide InItems, Size;
    SizeStep(ts);
    if ts == [] {
      t := [];
    } else if ts[0].Star? {
      var k: nat :| k <= |s| && Skips(ts, s, lead, f, k);
      t := Shortest(ts[1..], s[k..], lead && k == 0, f);
      WholeRest(ts, t, true, f);
    } else {
      assert Next(ts, s, f);
      var rest := Shortest(ts[1..], s[1..], f.pathname && s[0] == SLASH, f);
      LeadIrrelevant(ts[1..], rest, f);
      t := [s[0]] + rest;
      assert t[1..] == rest && Next(ts, t, f);
    }
  }

  lemma SizeStep(ts: seq<Token>)
    ensures Size([]) == 0
    ensures ts != [] ==> Size(ts) == (if ts[0].Star? then 0 else 1) + Size(ts[1..])
  {
  }

  /** In such a string the bracket at position i takes byte number Size(ts[..i]), and could take any that it accepts. */
  lemma {:induction false} Place(ts: seq<Token>, i: nat, s: CString, c: Byte, lead: bool, f: Flags)
    requires Matches(ts, s, lead, f) && |s| == Size(ts) && c != 0 && c != SLASH && c != DOT
    requires i < |ts| && ts[i].Class?
    ensures Size(ts[..i]) < |s|
    ensures Matches(ts, s[Size(ts[..i]) := c], lead, f) <==> InItems(ts[i].items, c, f) != ts[i].negate
    decreases |ts|, 1
  {
    hide InItems, Size;
    SizeStep(ts);
    SizeStep(ts[..i]);
    var n := Size(ts[..i]);
    if i == 0 {
      assert ts[..0] == [] && Next(ts, s, f);
      var t := s[0 := c];
      assert t[1..] == s[1..];
      assert Next(ts, t, f);
    } else {
      assert ts[..i][1..] == ts[1..][..i - 1];
      if ts[0].Star? {
        PlaceStar(ts, i, s, c, lead, f);
      } else {
        assert Next(ts, s, f);
        Place(ts[1..], i - 1, s[1..], c, f.pathname && s[0] == SLASH, f);
        var t := s[n := c];
        assert t[0] == s[0] && t[1..] == s[1..][n - 1 := c];
        assert Next(ts, t, f) <==> Matches(ts[1..], t[1..], f.pathname && s[0] == SLASH, f);
      }
    }
  }

  lemma {:induction false} PlaceStar(ts: seq<Token>, i: nat, s: CString, c: Byte, lead: bool, f: Flags)
    requires Matches(ts, s, lead, f) && |s| == Size(ts) && c != 0 && c != SLASH && c != DOT
    requires 0 < i < |ts| && ts[i].Class? && ts[0].Star?
    ensures Size(ts[..i]) < |s|
    ensures Matches(ts, s[Size(ts[..i]) := c], lead, f) <==> InItems(ts[i].items, c, f) != ts[i].negate
    decreases |ts|, 0
  {
    hide InItems, Size;
    SizeStep(ts);
    SizeStep(ts[..i]);
    assert ts[..i][1..] == ts[1..][..i - 1];
    var n, g := Size(ts[..i]), After(ts[1..], f);
    WholeString(ts, s, lead, f);
    Place(ts[1..], i - 1, s, c, lead, g);
    InItemsPeriod(ts[i].items, c, f, g);
    var t := s[n := c];
    assert !Hidden(s, lead, f) && !Hidden(t, lead, f);
    if Matches(ts, t, lead, f) {
      WholeString(ts, t, lead, f);
    }
    if Matches(ts[1..], t, lead, g) {
      StarNothing(ts, t, lead, f);
    }
  }

  lemma UnevenToken(ts: seq<Token>, i: nat, s: CString, f: Flags) returns (u: CString, v: CString)
    requires Matches(ts, s, true, f) && |s| == Size(ts) && i < |ts| && ts[i].Class? && !EvenItems(ts[i].items, f)
    ensures SameLetters(u, v) && Matches(ts, u, true, f) != Matches(ts, v, true, f)
  {
    hide InItems, Matches, Size;
    var c: Byte :| IsUpper(c) && !(InItems(ts[i].items, c, f) <==> InItems(ts[i].items, c + 32, f));
    Place(ts, i, s, c, true, f);
    Place(ts, i, s, c + 32, true, f);
    var n := Size(ts[..i]);
    u, v := s[n := c], s[n := c + 32];
  }

  /**
   * For every pattern that accepts anything, with PERIOD anything for which no star takes a byte: CASE_BLIND makes the
   * case of letters in the string indifferent exactly if every bracket lists both cases of a letter or none.
   */
  lemma CaseExact(p: CString, any: CString, f: Flags)
    requires f.caseBlind && Accepts(p, any, true, f) && (f.period ==> |any| == Size(Parse(p, f.noescape)))
    ensures
      (forall s: CString, t: CString :: SameLetters(s, t) ==> (Accepts(p, s, true, f) <==> Accepts(p, t, true, f)))
        <==> Even(Parse(p, f.noescape), f)
  {
    hide Parse, EvenItems, Matches, SameLetters, Size;
    var ts := Parse(p, f.noescape);
    if Even(ts, f) {
      forall s: CString, t: CString | SameLetters(s, t) ensures Accepts(p, s, true, f) <==> Accepts(p, t, true, f) {
        TokensExchange(ts, s, t, true, f);
      }
    } else {
      var i :| 0 <= i < |ts| && ts[i].Class? && !EvenItems(ts[i].items, f);
      var short := any;
      if !f.period {
        short := Shortest(ts, any, true, f);
      }
      var u, v := UnevenToken(ts, i, short, f);
      assert Accepts(p, u, true, f) != Accepts(p, v, true, f);
    }
  }

  lemma NothingParsed(noescape: bool)
    ensures Parse([], noescape) == []
  {
  }

  lemma RangeEven(lo: Byte, hi: Byte, f: Flags)
    requires f.caseBlind && !Uneven(lo, hi)
    ensures Even([Class(false, [Range(lo, hi)])], f)
  {
    hide EvenItems, Uneven;
    EvenRanges([Range(lo, hi)], f);
  }

  lemma UnevenExample()
    ensures Uneven('A' as int, '_' as int)
  {
  }

  lemma OneLetter(ps: seq<Piece>, c: Byte, f: Flags)
    requires |ps| == 1 && GoodBody(ps, f.noescape) && GoodStart([], ps) && c != 0 && Open1(c, true, f) && f.caseBlind
    ensures 0 !in BracketText([], ps) && (Accepts(BracketText([], ps), [c], true, f) <==> PieceLists(ps[0], c, true))
  {
    BracketMeaning([], ps, [], [c], true, f);
    assert BracketText([], ps) + [] == BracketText([], ps);
    assert [c][1..] == [];
    AcceptsNone([], f.pathname && c == '/' as int, f);
    assert BodyLists(ps, c, true) <==> PieceLists(ps[0], c, true);
  }

  /** The failing input: with CASE_BLIND `[A-_]` accepts `Z` and rejects `z`. */
  lemma CaseKept()
    ensures var f := Flags(false, false, false, true);
      var p := ['[' as int, 'A' as int, '-' as int, '_' as int, ']' as int];
      Accepts(p, ['Z' as int], true, f) && !Accepts(p, ['z' as int], true, f)
  {
    hide Accepts;
    var f, ps := Flags(false, false, false, true), [Span(Raw('A' as int), Raw('_' as int))];
    OneLetter(ps, 'Z' as int, f);
    OneLetter(ps, 'z' as int, f);
    assert ps[1..] == [] && BodyText(ps) == ['A' as int, '-' as int, '_' as int];
    assert BracketText([], ps) == ['[' as int, 'A' as int, '-' as int, '_' as int, ']' as int];
  }
}
