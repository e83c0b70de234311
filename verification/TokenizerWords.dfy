// Command lines of words, quoted or not, with any blanks between them.
module TokenizerWords {
  import opened Text
  import opened Tokenizer
  import opened TokenizerLaws

  /** A word as it is written, between quotation marks or bare. */
  datatype Word = Word(glyphs: seq<Glyph>, style: Quote)

  /** All bytes that need a backslash have one; a bare word is not empty and does not start with a quotation mark. */
  ghost predicate GoodWord(w: Word) {
    && Readable(w.glyphs, w.style)
    && (w.style == Bare ==> w.glyphs != [] && w.glyphs[0] != Raw('"' as int) && w.glyphs[0] != Raw('\'' as int))
  }

  /** A word and the blanks in front of it. */
  datatype Entry = Entry(gap: CString, word: Word)

  ghost predicate Blanks(s: CString) {
    forall k :: 0 <= k < |s| ==> s[k] == ' ' as int || s[k] == '\t' as int
  }

  function WordsLine(entries: seq<Entry>, end: CString): CString {
    if entries == [] then end
    else entries[0].gap + Quoted(entries[0].word.glyphs, entries[0].word.style) + WordsLine(entries[1..], end)
  }

  /** A blank comes between a bare word and the next one. */
  ghost predicate Separate(entries: seq<Entry>, end: CString) {
    && Blanks(end)
    && forall k :: 0 <= k < |entries| ==>
      && Blanks(entries[k].gap)
      && GoodWord(entries[k].word)
      && (k > 0 && entries[k - 1].word.style == Bare ==> entries[k].gap != [])
  }

  /** No word ends in a backslash, except a bare one at the very end of the line. */
  ghost predicate Sound(entries: seq<Entry>, end: CString) {
    forall k :: 0 <= k < |entries| && EndsInBackslash(Meant(entries[k].word.glyphs)) ==>
      k == |entries| - 1 && entries[k].word.style == Bare && end == []
  }

  function Texts(entries: seq<Entry>): (texts: seq<CString>)
    ensures |texts| == |entries| && forall k :: 0 <= k < |texts| ==> texts[k] == Meant(entries[k].word.glyphs)
  {
    seq(|entries|, k requires 0 <= k < |entries| => Meant(entries[k].word.glyphs))
  }

  lemma {:induction false} BlanksSkipped(gap: CString, s: CString)
    requires Blanks(gap)
    ensures Tokens(gap + s) == Tokens(s)
  {
    hide Tokens;
    if gap == [] {
      assert gap + s == s;
    } else {
      assert gap + s == [gap[0]] + (gap[1..] + s);
      BlanksSkipped(gap[1..], s);
      SpaceSkipped(gap[1..] + s);
    }
  }

  /** A bare word does not start like a blank or a quotation. */
  lemma BareStart(gs: seq<Glyph>, rest: CString)
    requires GoodWord(Word(gs, Bare))
    ensures var s := Written(gs) + rest; s != [] && !White(s[0]) && QuoteOf(s) == Bare && Opened(s) == s
  {
  }

  lemma BareFirst(gs: seq<Glyph>, rest: CString)
    requires GoodWord(Word(gs, Bare)) && rest != [] && White(rest[0])
    ensures var s := Quoted(gs, Bare) + rest;
      && Tokens(s) != []
      && (Tokens(s)[0] == Meant(gs) <==> !EndsInBackslash(Meant(gs)))
      && (!EndsInBackslash(Meant(gs)) ==> Tokens(s) == [Meant(gs)] + Tokens(rest))
  {
    hide Written, Meant, Tokens, EndsInBackslash, Readable;
    BareStart(gs, rest);
    assert Quoted(gs, Bare) == Written(gs);
    FirstArgument(Written(gs) + rest, gs, Bare, rest);
    assert rest == [rest[0]] + rest[1..];
    SpaceSkipped(rest[1..]);
  }

  lemma BareLast(gs: seq<Glyph>)
    requires GoodWord(Word(gs, Bare))
    ensures Tokens(Quoted(gs, Bare)) == [Meant(gs)]
  {
    hide TokenEnd, Written, Meant, Clean, Readable;
    BareStart(gs, []);
    var s := Written(gs);
    assert Quoted(gs, Bare) == s == s + [];
    EndOfLast(gs, Bare);
    NoTokens();
    assert Tokens(s) == [FirstToken(s)] + Tokens(Remaining(s));
  }

  /** The first word of a line. */
  lemma WordFirst(entries: seq<Entry>, end: CString)
    requires entries != [] && Separate(entries, end)
    ensures var (a, tail) := (Meant(entries[0].word.glyphs), entries[1..]);
      var ts := Tokens(WordsLine(entries, end));
      && ts != []
      && (ts[0] == a <==> !EndsInBackslash(a) || (tail == [] && end == [] && entries[0].word.style == Bare))
      && (ts[0] == a ==> ts == [a] + Tokens(WordsLine(tail, end)))
  {
    hide Tokens, Quoted, EndsInBackslash, Meant, Written, GoodWord;
    var (gs, q, rest) := (entries[0].word.glyphs, entries[0].word.style, WordsLine(entries[1..], end));
    BlanksSkipped(entries[0].gap, Quoted(gs, q) + rest);
    assert WordsLine(entries, end) == entries[0].gap + (Quoted(gs, q) + rest);
    GoodReadable(entries[0].word);
    if q != Bare {
      QuotedFirst(gs, q, rest);
    } else if rest == [] {
      BareLast(gs);
      NoTokens();
      assert Quoted(gs, q) + rest == Quoted(gs, q);
      AtEnd(entries[1..], end);
    } else {
      BareRest(entries, end);
      BareFirst(gs, rest);
    }
  }

  lemma GoodReadable(w: Word)
    requires GoodWord(w)
    ensures Readable(w.glyphs, w.style)
  {
  }

  lemma AtEnd(entries: seq<Entry>, end: CString)
    requires Separate(entries, end) && WordsLine(entries, end) == []
    ensures entries == [] && end == []
  {
  }

  lemma BareRest(entries: seq<Entry>, end: CString)
    requires entries != [] && Separate(entries, end) && entries[0].word.style == Bare
    ensures var rest := WordsLine(entries[1..], end); rest != [] ==> White(rest[0]) && (|entries| > 1 || end != [])
  {
    if |entries| > 1 {
      assert entries[1..][0] == entries[1] && entries[1].gap != [];
    }
  }

  lemma SeparateTail(entries: seq<Entry>, end: CString)
    requires entries != []
    ensures Separate(entries, end) ==> Separate(entries[1..], end)
    ensures Texts(entries) == [Meant(entries[0].word.glyphs)] + Texts(entries[1..])
    ensures var last := |entries| == 1 && entries[0].word.style == Bare && end == [];
      Sound(entries, end) <==> Sound(entries[1..], end) && (EndsInBackslash(Meant(entries[0].word.glyphs)) ==> last)
  {
    hide EndsInBackslash;
    assert entries == [entries[0]] + entries[1..];
  }

  /**
   * Words written with the backslashes that they need, quoted or bare, and with any blanks between them: what they
   * mean are the tokens of the line exactly if none ends in a backslash, except a bare one at the very end.
   */
  lemma {:induction false} WordsTokens(entries: seq<Entry>, end: CString)
    requires Separate(entries, end)
    ensures Tokens(WordsLine(entries, end)) == Texts(entries) <==> Sound(entries, end)
  {
    hide Tokens, Quoted, EndsInBackslash, Separate, Sound;
    SeparateNone(end);
    if entries == [] {
      BlanksSkipped(end, []);
      assert end + [] == end;
      NoTokens();
    } else {
      SeparateTail(entries, end);
      WordFirst(entries, end);
      WordsTokens(entries[1..], end);
      var ts := Tokens(WordsLine(entries, end));
      assert ts == Texts(entries) ==> ts[1..] == Texts(entries[1..]);
    }
  }

  lemma SeparateNone(end: CString)
    ensures Sound([], end) && (forall es :: Separate(es, end) ==> Blanks(end))
  {
  }

  // Words without anything special.

  /** No blank and no backslash, and no quotation mark at the start. */
  ghost predicate PlainWord(a: CString) {
    && a != [] && a[0] != '"' as int && a[0] != '\'' as int
    && forall k :: 0 <= k < |a| ==> a[k] != ' ' as int && a[k] != '\t' as int && a[k] != '\\' as int
  }

  function AsIs(a: CString): (gs: seq<Glyph>)
    ensures |gs| == |a| && forall k :: 0 <= k < |gs| ==> gs[k] == Raw(a[k])
  {
    seq(|a|, k requires 0 <= k < |a| => Raw(a[k]))
  }

  lemma {:induction false} AsIsWritten(a: CString)
    ensures Written(AsIs(a)) == a && Meant(AsIs(a)) == a
  {
    if a != [] {
      AsIsWritten(a[1..]);
      assert AsIs(a)[1..] == AsIs(a[1..]) && a == [a[0]] + a[1..];
    }
  }

  /** Words and what stands in front of, between and behind them. */
  function PlainLine(words: seq<CString>, gaps: seq<CString>): CString
    requires |gaps| == |words| + 1
  {
    if words == [] then gaps[0] else gaps[0] + words[0] + PlainLine(words[1..], gaps[1..])
  }

  function Entries(words: seq<CString>, gaps: seq<CString>): (es: seq<Entry>)
    requires |gaps| == |words| + 1
    ensures |es| == |words| && forall k :: 0 <= k < |es| ==> es[k] == Entry(gaps[k], Word(AsIs(words[k]), Bare))
  {
    seq(|words|, k requires 0 <= k < |words| => Entry(gaps[k], Word(AsIs(words[k]), Bare)))
  }

  lemma {:induction false} PlainEntries(words: seq<CString>, gaps: seq<CString>)
    requires |gaps| == |words| + 1 && forall k :: 0 <= k < |words| ==> PlainWord(words[k])
    ensures PlainLine(words, gaps) == WordsLine(Entries(words, gaps), gaps[|words|])
  {
    hide PlainWord, Written;
    if words != [] {
      PlainGood(words[0]);
      PlainEntries(words[1..], gaps[1..]);
      assert Entries(words, gaps)[1..] == Entries(words[1..], gaps[1..]);
    }
  }

  lemma PlainGood(a: CString)
    requires PlainWord(a)
    ensures GoodWord(Word(AsIs(a), Bare)) && Quoted(AsIs(a), Bare) == a && Meant(AsIs(a)) == a && !EndsInBackslash(a)
  {
    AsIsWritten(a);
  }

  /** Plain words with any runs of blanks in front, between and behind are the tokens of their line. */
  lemma PlainTokens(words: seq<CString>, gaps: seq<CString>)
    requires |gaps| == |words| + 1 && forall k :: 0 <= k < |words| ==> PlainWord(words[k])
    requires forall k :: 0 <= k < |gaps| ==> Blanks(gaps[k]) && (0 < k < |words| ==> gaps[k] != [])
    ensures Tokens(PlainLine(words, gaps)) == words
  {
    hide PlainWord, EndsInBackslash, Tokens, WordsLine, PlainLine, Meant, GoodWord;
    var entries, end := Entries(words, gaps), gaps[|words|];
    PlainEntries(words, gaps);
    forall k | 0 <= k < |words|
      ensures GoodWord(entries[k].word) && Meant(entries[k].word.glyphs) == words[k] && !EndsInBackslash(words[k])
    {
      PlainGood(words[k]);
    }
    WordsTokens(entries, end);
    assert Texts(entries) == words;
  }
}
