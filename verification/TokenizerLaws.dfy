// Which lists of arguments some command line gives.
module TokenizerLaws {
  import opened Text
  import opened Tokenizer

  /** A token that something ends has no backslash before its end. */
  lemma {:induction false} NoBackslashBefore(s: CString, q: Quote)
    ensures var n := TokenEnd(s, q); 0 < n < |s| ==> s[n - 1] != BACKSLASH
  {
    if s != [] {
      if s[0] == BACKSLASH && |s| > 1 && Special(s[1]) {
        NoBackslashBefore(s[2..], q);
      } else if !Ends(s[0], q) {
        NoBackslashBefore(s[1..], q);
      }
    }
  }

  lemma {:induction false} CleanLast(s: CString, escaped: bool)
    requires s != [] && s[|s| - 1] != BACKSLASH
    ensures Clean(s, escaped) != [] && Clean(s, escaped)[|Clean(s, escaped)| - 1] == s[|s| - 1]
  {
    if |s| > 1 {
      CleanLast(s[1..], !escaped && s[0] == BACKSLASH);
    }
  }

  lemma FirstTokenEnd(s: CString)
    requires s != [] && TokenEnd(Opened(s), QuoteOf(s)) < |Opened(s)|
    ensures !EndsInBackslash(FirstToken(s))
  {
    var n := TokenEnd(Opened(s), QuoteOf(s));
    NoBackslashBefore(Opened(s), QuoteOf(s));
    if n > 0 {
      CleanLast(Opened(s)[..n], false);
    }
  }

  /** None but the last argument of a command line ends in a backslash, whatever the line. */
  lemma {:induction false} OnlyLast(s: CString, i: nat)
    requires i + 1 < |Tokens(s)|
    ensures !EndsInBackslash(Tokens(s)[i])
    decreases |s|
  {
    hide FirstToken, TokenEnd;
    var t := SkipWhite(s);
    if i == 0 {
      NoTokens();
      FirstTokenEnd(t);
    } else {
      OnlyLast(Remaining(t), i - 1);
    }
  }

  /** A token that would go on to the end of s, if more followed, does so if nothing follows. */
  lemma {:induction false} EndOfAll(s: CString, u: CString, q: Quote)
    requires TokenEnd(s + u, q) >= |s|
    ensures TokenEnd(s, q) == |s|
  {
    if s != [] {
      assert (s + u)[1..] == s[1..] + u;
      if s[0] == BACKSLASH && |s| > 1 && Special(s[1]) {
        assert (s + u)[2..] == s[2..] + u;
        EndOfAll(s[2..], u, q);
      } else if |s| > 1 {
        EndOfAll(s[1..], u, q);
      } else {
        assert s[1..] == [];
      }
    }
  }

  /** The last argument without what ends it: nothing in it can end the token. */
  lemma EndOfLast(gs: seq<Glyph>, q: Quote)
    requires Readable(gs, q)
    ensures TokenEnd(Written(gs), q) == |Written(gs)| && Clean(Written(gs)[..|Written(gs)|], false) == Meant(gs)
  {
    hide TokenEnd, Written, Meant, Readable, Clean;
    var close: CString := if q == Bare then [SPACE] else Mark(q);
    WrittenEnd(gs, q, close);
    EndOfAll(Written(gs), close, q);
    assert Written(gs)[..|Written(gs)|] == Written(gs) == Written(gs) + [];
    CleanWritten(gs, q, []);
    CleanNone();
    assert Meant(gs) + [] == Meant(gs);
  }

  lemma CleanNone()
    ensures Clean([], false) == []
  {
  }

  /** The last argument without its closing quotation mark. */
  lemma OpenQuote(a: CString)
    ensures Tokens([DQUOTE] + Written(Escape(a, Double))) == [a]
  {
    hide TokenEnd, Written, Escape, Clean;
    var s: CString := [DQUOTE] + Written(Escape(a, Double));
    assert s[1..] == Written(Escape(a, Double));
    EscapeMeant(a, Double);
    EndOfLast(Escape(a, Double), Double);
    NoTokens();
    assert Tokens(s) == [FirstToken(s)] + Tokens(Remaining(s));
  }

  /** A command line for a list of arguments: all of them quoted, but the last mark is not closed. */
  function OpenLine(args: seq<CString>): CString {
    if args == [] then []
    else if |args| == 1 then [DQUOTE] + Written(Escape(args[0], Double))
    else Quoted(Escape(args[0], Double), Double) + [SPACE] + OpenLine(args[1..])
  }

  /** No argument before the last one ends in a backslash. */
  ghost predicate Expressible(args: seq<CString>) {
    forall i :: 0 <= i < |args| - 1 ==> !EndsInBackslash(args[i])
  }

  lemma {:induction false} OpenLineTokens(args: seq<CString>)
    requires Expressible(args)
    ensures Tokens(OpenLine(args)) == args
  {
    hide Tokens, Quoted, EndsInBackslash, Escape, Readable, Meant, Written;
    if args == [] {
      NoTokens();
    } else if |args| == 1 {
      OpenQuote(args[0]);
    } else {
      var rest: CString := [SPACE] + OpenLine(args[1..]);
      assert forall i :: 0 <= i < |args| - 2 ==> args[1..][i] == args[i + 1];
      OpenLineTokens(args[1..]);
      SpaceSkipped(OpenLine(args[1..]));
      EscapeMeant(args[0], Double);
      QuotedFirst(Escape(args[0], Double), Double, rest);
      var first := Quoted(Escape(args[0], Double), Double);
      assert first + [SPACE] + OpenLine(args[1..]) == first + rest;
      assert args == [args[0]] + args[1..];
    }
  }

  /** Some command line gives these arguments exactly if none of them but the last ends in a backslash. */
  lemma SomeLine(args: seq<CString>)
    ensures (exists s: CString :: Tokens(s) == args) <==> Expressible(args)
  {
    if Expressible(args) {
      OpenLineTokens(args);
    }
    if s: CString :| Tokens(s) == args {
      forall i | 0 <= i < |args| - 1 ensures !EndsInBackslash(args[i]) {
        OnlyLast(s, i);
      }
    }
  }
}
