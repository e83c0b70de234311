// When PERIOD protects every leading period: the language that the flag promises, against that of apr_fnmatch.
module FnmatchPeriod {
  import opened Text
  import opened Fnmatch
  import opened FnmatchLaws

  /** The language with PERIOD in force everywhere, whatever a star is followed by. */
  ghost predicate Strict(ts: seq<Token>, s: CString, lead: bool, f: Flags)
    decreases |ts|, 1
  {
    if ts == [] then s == []
    else match ts[0]
      case Never => false
      case Any => Plain(s, lead, f) && StrictNext(ts, s, f)
      case Class(negate, items) => Plain(s, lead, f) && InItems(items, s[0], f) != negate && StrictNext(ts, s, f)
      case Lit(c, _) => s != [] && Same(c, s[0], f) && StrictNext(ts, s, f)
      case Star => !Hidden(s, lead, f) && exists k: nat :: k <= |s| && StrictSkips(ts, s, lead, f, k)
  }

  ghost predicate StrictNext(ts: seq<Token>, s: CString, f: Flags)
    requires ts != [] && s != []
    decreases |ts|, 0
  {
    Strict(ts[1..], s[1..], f.pathname && s[0] == SLASH, f)
  }

  ghost predicate StrictSkips(ts: seq<Token>, s: CString, lead: bool, f: Flags, k: nat)
    requires ts != [] && k <= |s|
    decreases |ts|, 0
  {
    Run(s, k, f) && Strict(ts[1..], s[k..], lead && k == 0, f)
  }

  /** A bracket expression accepts byte c, which is no slash. */
  predicate Takes(t: Token, c: Byte, f: Flags) {
    t.Class? && c != 0 && c != SLASH && InItems(t.items, c, f) != t.negate
  }

  /** The token can match a period without naming it. */
  predicate Dotty(t: Token, f: Flags) {
    t.Any? || t.Star? || Takes(t, DOT, f)
  }

  /** The token can match something; period tells that a period is not allowed. */
  ghost predicate Possible(t: Token, period: bool, f: Flags) {
    !t.Never? && (t.Class? ==> exists c: Byte :: Takes(t, c, f) && !(period && c == DOT))
  }

  predicate IsSlash(t: Token) {
    t.Lit? && t.c == SLASH
  }

  /** Some slash of the pattern is followed by a token that can match a period without naming it. */
  ghost predicate Bare(ts: seq<Token>, f: Flags) {
    exists i :: 0 <= i < |ts| - 1 && IsSlash(ts[i]) && Dotty(ts[i + 1], f)
  }

  /** Every token can match something when PERIOD is off. */
  ghost predicate AllPossible(ts: seq<Token>, f: Flags) {
    forall i :: 0 <= i < |ts| ==> Possible(ts[i], false, f)
  }

  /**
   * PERIOD fails to protect: a star that is neither last nor in front of a plain slash is reached, and after it
   * comes a slash and then a token that can match a period without naming it.
   */
  ghost predicate Exposed(ts: seq<Token>, lead: bool, f: Flags)
    decreases |ts|
  {
    ts != [] && match ts[0]
      case Never => false
      case Any => Exposed(ts[1..], false, f)
      case Class(_, _) => Possible(ts[0], lead, f) && Exposed(ts[1..], false, f)
      case Lit(c, _) => Exposed(ts[1..], c == SLASH, f)
      case Star =>
        if ts[1..] != [] && ts[1] == Lit(SLASH, false) then Exposed(ts[1..], false, f)
        else Bare(ts[1..], f) && AllPossible(ts[1..], f)
  }

  lemma SameSlash(c: Byte, test: Byte, f: Flags)
    requires Same(c, test, f)
    ensures c == SLASH <==> test == SLASH
  {
  }

  /** Without PERIOD there is nothing to protect, and without PATHNAME nothing behind the start of the string. */
  lemma {:induction false} StrictAlways(ts: seq<Token>, s: CString, lead: bool, f: Flags)
    requires !f.period || (!f.pathname && !Hidden(s, lead, f))
    ensures Strict(ts, s, lead, f) <==> Matches(ts, s, lead, f.(period := false))
  {
    var f' := f.(period := false);
    if ts != [] && ts[0].Star? {
      forall k: nat | k <= |s|
        ensures StrictSkips(ts, s, lead, f, k) <==> Skips(ts, s, lead, f', k)
      {
        assert s[0..] == s;
        StrictAlways(ts[1..], s[k..], lead && k == 0, f);
      }
    } else if ts != [] && s != [] {
      StrictAlways(ts[1..], s[1..], f.pathname && s[0] == SLASH, f);
      assert StrictNext(ts, s, f) <==> Next(ts, s, f');
    }
  }

  /** What is in the strict language is accepted. */
  lemma {:induction false} StrictMatches(ts: seq<Token>, s: CString, lead: bool, f: Flags)
    requires Strict(ts, s, lead, f)
    ensures Matches(ts, s, lead, f)
  {
    if ts != [] && ts[0].Star? {
      var k: nat :| k <= |s| && StrictSkips(ts, s, lead, f, k);
      StrictMatches(ts[1..], s[k..], lead && k == 0, f);
      if After(ts[1..], f) != f {
        PeriodRestricts(ts[1..], s[k..], lead && k == 0, f);
      }
      assert Skips(ts, s, lead, f, k);
    } else if ts != [] {
      assert StrictNext(ts, s, f);
      StrictMatches(ts[1..], s[1..], f.pathname && s[0] == SLASH, f);
      assert Next(ts, s, f);
    }
  }

  /** What can be matched at all shows that every token can match something. */
  lemma {:induction false} MatchPossible(ts: seq<Token>, s: CString, lead: bool, f: Flags)
    requires Matches(ts, s, lead, f) && f.pathname && !f.period
    ensures AllPossible(ts, f)
  {
    if ts != [] {
      if ts[0].Star? {
        var k: nat :| k <= |s| && Skips(ts, s, lead, f, k);
        MatchPossible(ts[1..], s[k..], lead && k == 0, f);
      } else {
        assert Next(ts, s, f);
        MatchPossible(ts[1..], s[1..], f.pathname && s[0] == SLASH, f);
        assert ts[0].Class? ==> Takes(ts[0], s[0], f);
      }
      assert forall i :: 0 < i < |ts| ==> ts[i] == ts[1..][i - 1];
    }
  }

  /** Only at a period that the pattern does not name does PERIOD make a difference. */
  lemma {:induction false} WhereDifferent(ts: seq<Token>, s: CString, lead: bool, f: Flags)
    requires Matches(ts, s, lead, f.(period := false)) && !Strict(ts, s, lead, f) && f.pathname && f.period
    ensures (Hidden(s, lead, f) && ts != [] && Dotty(ts[0], f)) || Bare(ts, f)
  {
    var f' := f.(period := false);
    if ts != [] {
      if ts[0].Star? {
        if !Hidden(s, lead, f) {
          var k: nat :| k <= |s| && Skips(ts, s, lead, f', k);
          assert s[0..] == s && !StrictSkips(ts, s, lead, f, k);
          WhereDifferent(ts[1..], s[k..], lead && k == 0, f);
          BareMore(ts, f);
        }
      } else if ts[0].Lit? || !Hidden(s, lead, f) {
        SameItems(ts[0], f);
        assert Next(ts, s, f') && !StrictNext(ts, s, f);
        WhereDifferent(ts[1..], s[1..], s[0] == SLASH, f);
        BareMore(ts, f);
      } else {
        SameItems(ts[0], f);
      }
    }
  }

  lemma SameItems(t: Token, f: Flags)
    ensures t.Lit? ==> forall c: Byte :: Same(t.c, c, f) == Same(t.c, c, f.(period := false))
    ensures t.Class? ==> forall c: Byte :: InItems(t.items, c, f) == InItems(t.items, c, f.(period := false))
  {
    forall c: Byte | t.Class? ensures InItems(t.items, c, f) == InItems(t.items, c, f.(period := false)) {
      assert forall k :: 0 <= k < |t.items| ==> InItem(t.items[k], c, f) == InItem(t.items[k], c, f.(period := false));
    }
  }

  lemma BareMore(ts: seq<Token>, f: Flags)
    requires ts != []
    ensures Bare(ts[1..], f) ==> Bare(ts, f)
    ensures IsSlash(ts[0]) && ts[1..] != [] && Dotty(ts[1], f) ==> Bare(ts, f)
  {
    if Bare(ts[1..], f) {
      var i :| 0 <= i < |ts[1..]| - 1 && IsSlash(ts[1..][i]) && Dotty(ts[1..][i + 1], f);
      assert IsSlash(ts[i + 1]) && Dotty(ts[i + 2], f);
    }
  }

  /** If a string is accepted against the strict language, the pattern is exposed. */
  lemma {:induction false} DifferentExposed(ts: seq<Token>, s: CString, lead: bool, f: Flags)
    requires Matches(ts, s, lead, f) && !Strict(ts, s, lead, f) && f.pathname && f.period
    ensures Exposed(ts, lead, f)
  {
    if ts != [] {
      if ts[0].Star? {
        var k: nat :| k <= |s| && Skips(ts, s, lead, f, k);
        assert s[0..] == s && !StrictSkips(ts, s, lead, f, k);
        if ts[1..] != [] && ts[1] == Lit(SLASH, false) {
          DifferentExposed(ts[1..], s[k..], lead && k == 0, f);
        } else {
          var f' := f.(period := false);
          WhereDifferent(ts[1..], s[k..], lead && k == 0, f);
          MatchPossible(ts[1..], s[k..], lead && k == 0, f');
          PossibleBoth(ts[1..], f);
        }
      } else {
        assert Next(ts, s, f) && !StrictNext(ts, s, f);
        DifferentExposed(ts[1..], s[1..], s[0] == SLASH, f);
        assert ts[0].Class? ==> Takes(ts[0], s[0], f) && !(lead && s[0] == DOT);
      }
    }
  }

  lemma PossibleBoth(ts: seq<Token>, f: Flags)
    ensures AllPossible(ts, f) <==> AllPossible(ts, f.(period := false))
  {
    forall i | 0 <= i < |ts| ensures Possible(ts[i], false, f) <==> Possible(ts[i], false, f.(period := false)) {
      SameItems(ts[i], f);
      assert forall c: Byte :: Takes(ts[i], c, f) <==> Takes(ts[i], c, f.(period := false));
    }
  }

  /** With one of PERIOD and PATHNAME alone the two languages are the same. */
  lemma {:induction false} StrictSame(ts: seq<Token>, s: CString, lead: bool, f: Flags)
    requires !f.period || !f.pathname
    ensures Strict(ts, s, lead, f) <==> Matches(ts, s, lead, f)
  {
    if ts != [] && ts[0].Star? {
      if !Hidden(s, lead, f) {
        forall k: nat | k <= |s|
          ensures StrictSkips(ts, s, lead, f, k) <==> Skips(ts, s, lead, f, k)
        {
          assert s[0..] == s;
          StrictAlways(ts[1..], s[k..], lead && k == 0, f);
        }
      }
    } else if ts != [] && s != [] {
      StrictSame(ts[1..], s[1..], f.pathname && s[0] == SLASH, f);
      assert StrictNext(ts, s, f) <==> Next(ts, s, f);
    }
  }

  /** A byte for each token; a period behind a slash, where the token allows it and dots tells so. */
  ghost function Filling(t: Token, behind: bool, dots: bool, f: Flags): (s: CString)
    requires Possible(t, behind && !dots, f)
  {
    if behind && dots && Dotty(t, f) then [DOT]
    else match t
      case Lit(c, _) => if c == 0 then [] else [c]
      case Class(_, _) =>
        var c: Byte :| Takes(t, c, f) && !(behind && !dots && c == DOT);
        [c]
      case _ => [97]
  }

  /** A string that matches the tokens with PERIOD off and has a period wherever it can behind a slash. */
  ghost function Dots(ts: seq<Token>, behind: bool, f: Flags): (s: CString)
    requires AllPossible(ts, f)
  {
    if ts == [] then []
    else
      assert Possible(ts[0], false, f);
      assert forall i :: 0 <= i < |ts| - 1 ==> ts[1..][i] == ts[i + 1];
      Filling(ts[0], behind, true, f) + Dots(ts[1..], IsSlash(ts[0]), f)
  }

  /** No literal token is a NUL. */
  ghost predicate NoNul(ts: seq<Token>) {
    forall i :: 0 <= i < |ts| ==> !ts[i].Lit? || ts[i].c != 0
  }

  lemma {:induction false} ParseNoNul(p: CString, noescape: bool)
    ensures NoNul(Parse(p, noescape))
    decreases |p|
  {
    if p == [] {
    } else if p[0] == OPEN {
      var q: CString := if Negated(p[1..]) then p[2..] else p[1..];
      var scan := ScanItems(q, noescape);
      if scan.Closed? {
        ParseNoNul(q[scan.size..], noescape);
      }
    } else if p[0] == BACKSLASH && !noescape {
      if |p| > 1 {
        ParseNoNul(p[2..], noescape);
      }
    } else {
      ParseNoNul(p[1..], noescape);
      assert [] + Parse(p[1..], noescape) == Parse(p[1..], noescape);
    }
  }

  /** One token and its byte. */
  lemma FillingMatches(ts: seq<Token>, behind: bool, dots: bool, rest: CString, lead: bool, f: Flags)
    requires ts != [] && Possible(ts[0], behind && !dots, f) && f.pathname && NoNul(ts)
    requires !f.period || (!dots && lead == behind)
    ensures var c := Filling(ts[0], behind, dots, f);
      && |c| == 1 && (IsSlash(ts[0]) <==> c[0] == SLASH)
      && (!ts[0].Star? ==> (Matches(ts, c + rest, lead, f) <==> Matches(ts[1..], rest, IsSlash(ts[0]), f)))
      && (!ts[0].Star? ==> (Strict(ts, c + rest, lead, f) <==> Strict(ts[1..], rest, IsSlash(ts[0]), f)))
  {
    var c := Filling(ts[0], behind, dots, f);
    var s := c + rest;
    assert ts[0].Lit? ==> ts[0].c != 0;
    assert s[0] == c[0] && s[1..] == rest;
    if !ts[0].Star? {
      assert Next(ts, s, f) <==> Matches(ts[1..], rest, IsSlash(ts[0]), f);
      assert StrictNext(ts, s, f) <==> Strict(ts[1..], rest, IsSlash(ts[0]), f);
    }
  }

  /** A star takes one byte that is no slash. */
  lemma StarOne(ts: seq<Token>, c: Byte, rest: CString, lead: bool, f: Flags)
    requires ts != [] && ts[0].Star? && c != 0 && c != SLASH && !Hidden([c] + rest, lead, f)
    requires Matches(ts[1..], rest, false, After(ts[1..], f))
    ensures Matches(ts, [c] + rest, lead, f)
  {
    var s := [c] + rest;
    assert s[1..] == rest && s[..1] == [c];
    assert Skips(ts, s, lead, f, 1);
  }

  lemma {:induction false} DotsMatch(ts: seq<Token>, behind: bool, lead: bool, f: Flags)
    requires AllPossible(ts, f) && f.pathname && !f.period && NoNul(ts)
    ensures Matches(ts, Dots(ts, behind, f), lead, f)
  {
    if ts != [] {
      assert forall i :: 0 <= i < |ts| - 1 ==> ts[1..][i] == ts[i + 1];
      var rest := Dots(ts[1..], IsSlash(ts[0]), f);
      assert Possible(ts[0], false, f) && Possible(ts[0], behind && false, f);
      FillingMatches(ts, behind, true, rest, lead, f);
      if ts[0].Star? {
        DotsMatch(ts[1..], IsSlash(ts[0]), false, f);
        StarOne(ts, Filling(ts[0], behind, true, f)[0], rest, lead, f);
        assert Filling(ts[0], behind, true, f) == [Filling(ts[0], behind, true, f)[0]];
      } else {
        DotsMatch(ts[1..], IsSlash(ts[0]), IsSlash(ts[0]), f);
      }
    }
  }

  /** The number of tokens before the first slash. */
  function UpToSlash(ts: seq<Token>): (n: nat)
    ensures n <= |ts| && (n < |ts| ==> IsSlash(ts[n]))
  {
    if ts == [] || IsSlash(ts[0]) then 0 else 1 + UpToSlash(ts[1..])
  }

  /** Slash goes with slash: the first of the pattern matches the first of the string. */
  lemma {:induction false} SlashBySlash(ts: seq<Token>, x: CString, w: CString, lead: bool, f: Flags)
    requires f.pathname && SLASH !in x && Strict(ts, x + [SLASH] + w, lead, f)
    ensures UpToSlash(ts) < |ts| && Strict(ts[UpToSlash(ts) + 1..], w, true, f)
  {
    var s := x + [SLASH] + w;
    assert forall m: nat :: |x| < m <= |s| ==> s[..m][|x|] == SLASH;
    if ts[0].Star? {
      var k: nat :| k <= |s| && StrictSkips(ts, s, lead, f, k);
      assert s[k..] == x[k..] + [SLASH] + w;
      SlashBySlash(ts[1..], x[k..], w, lead && k == 0, f);
    } else {
      assert StrictNext(ts, s, f);
      if IsSlash(ts[0]) {
        SameSlash(SLASH, s[0], f);
        assert x == [] && s[1..] == w;
      } else {
        if ts[0].Lit? {
          SameSlash(ts[0].c, s[0], f);
        }
        assert x != [] && s[1..] == x[1..] + [SLASH] + w;
        SlashBySlash(ts[1..], x[1..], w, f.pathname && s[0] == SLASH, f);
      }
    }
  }

  /** The string of periods up to its first slash, and behind it. */
  lemma {:induction false} DotsSlash(ts: seq<Token>, behind: bool, f: Flags) returns (x: CString)
    requires AllPossible(ts, f) && NoNul(ts) && f.pathname && UpToSlash(ts) < |ts|
    ensures SLASH !in x && AllPossible(ts[UpToSlash(ts) + 1..], f)
    ensures Dots(ts, behind, f) == x + [SLASH] + Dots(ts[UpToSlash(ts) + 1..], true, f)
  {
    assert forall i :: 0 <= i < |ts| - 1 ==> ts[1..][i] == ts[i + 1];
    assert Possible(ts[0], false, f);
    var c := Filling(ts[0], behind, true, f);
    assert c != [] && (IsSlash(ts[0]) <==> c[0] == SLASH) && |c| == 1;
    if IsSlash(ts[0]) {
      x := [];
    } else {
      var y := DotsSlash(ts[1..], false, f);
      x := c + y;
      assert ts[1..][UpToSlash(ts[1..]) + 1..] == ts[UpToSlash(ts) + 1..];
      assert c + (y + [SLASH] + Dots(ts[UpToSlash(ts) + 1..], true, f))
        == x + [SLASH] + Dots(ts[UpToSlash(ts) + 1..], true, f);
    }
  }

  /** The first exposed slash is the first one, or comes behind it. */
  lemma BareLater(ts: seq<Token>, f: Flags)
    requires Bare(ts, f)
    ensures UpToSlash(ts) < |ts|
    ensures var rest := ts[UpToSlash(ts) + 1..]; (rest != [] && Dotty(rest[0], f)) || Bare(rest, f)
  {
    var i :| 0 <= i < |ts| - 1 && IsSlash(ts[i]) && Dotty(ts[i + 1], f);
    UpToFirst(ts, i);
    var n := UpToSlash(ts);
    var rest := ts[n + 1..];
    if i > n {
      assert IsSlash(rest[i - n - 1]) && Dotty(rest[i - n], f);
    }
  }

  lemma {:induction false} UpToFirst(ts: seq<Token>, i: nat)
    requires i < |ts| && IsSlash(ts[i])
    ensures UpToSlash(ts) <= i
  {
    if i > 0 && !IsSlash(ts[0]) {
      UpToFirst(ts[1..], i - 1);
    }
  }

  /** No string with those periods is in the strict language, whatever comes before its first slash. */
  lemma {:induction false} DotsNotStrict(ts: seq<Token>, x: CString, w: CString, lead: bool, f: Flags)
    requires Bare(ts, f) && AllPossible(ts, Off(f)) && NoNul(ts) && f.pathname && f.period && SLASH !in x
    requires UpToSlash(ts) < |ts| && AllPossible(ts[UpToSlash(ts) + 1..], Off(f))
    requires w == Dots(ts[UpToSlash(ts) + 1..], true, Off(f))
    ensures !Strict(ts, x + [SLASH] + w, lead, f)
    decreases |ts|
  {
    BareLater(ts, f);
    var rest := ts[UpToSlash(ts) + 1..];
    if rest != [] && Dotty(rest[0], f) {
      SameItems(rest[0], f);
      assert Possible(rest[0], false, Off(f));
      assert w[0] == DOT && Hidden(w, true, f);
    } else {
      BareLater(rest, f);
      var y := DotsSlash(rest, true, Off(f));
      DotsNotStrict(rest, y, Dots(rest[UpToSlash(rest) + 1..], true, Off(f)), true, f);
    }
    assert !Strict(rest, w, true, f);
    if Strict(ts, x + [SLASH] + w, lead, f) {
      SlashBySlash(ts, x, w, lead, f);
    }
  }

  function Off(f: Flags): Flags {
    f.(period := false)
  }

  /** A string that an exposed pattern accepts though it has a leading period that the pattern does not name. */
  ghost function Slipping(ts: seq<Token>, lead: bool, f: Flags): (s: CString)
    requires Exposed(ts, lead, f)
    decreases |ts|
  {
    if ts[0].Star? then
      if ts[1..] != [] && ts[1] == Lit(SLASH, false) then [97] + Slipping(ts[1..], false, f)
      else assert AllPossible(ts[1..], Off(f)) by { PossibleBoth(ts[1..], f); } [97] + Dots(ts[1..], false, Off(f))
    else Filling(ts[0], lead, false, f) + Slipping(ts[1..], IsSlash(ts[0]), f)
  }

  /** So the two languages differ there. */
  lemma {:induction false} ExposedDiffers(ts: seq<Token>, lead: bool, f: Flags)
    requires Exposed(ts, lead, f) && f.pathname && f.period && NoNul(ts)
    ensures Matches(ts, Slipping(ts, lead, f), lead, f) && !Strict(ts, Slipping(ts, lead, f), lead, f)
  {
    if !ts[0].Star? {
      ExposedDiffers(ts[1..], IsSlash(ts[0]), f);
      FillingMatches(ts, lead, false, Slipping(ts[1..], IsSlash(ts[0]), f), lead, f);
    } else if ts[1..] != [] && ts[1] == Lit(SLASH, false) {
      var rest := Slipping(ts[1..], false, f);
      ExposedDiffers(ts[1..], false, f);
      StarOne(ts, 97, rest, lead, f);
      StarBeforeSlash(ts, rest, lead, f);
    } else {
      PossibleBoth(ts[1..], f);
      var rest := Dots(ts[1..], false, Off(f));
      DotsMatch(ts[1..], false, false, Off(f));
      StarOne(ts, 97, rest, lead, f);
      StarBeforeDots(ts, lead, f);
    }
  }

  /** A star in front of a slash can take no more and no less than what is before the first slash. */
  lemma StarBeforeSlash(ts: seq<Token>, rest: CString, lead: bool, f: Flags)
    requires |ts| > 1 && ts[0].Star? && ts[1] == Lit(SLASH, false) && f.pathname
    requires rest != [] && rest[0] == SLASH && !Strict(ts[1..], rest, false, f)
    ensures !Strict(ts, [97] + rest, lead, f)
  {
    var s := [97] + rest;
    assert s[0..] == s && s[1..] == rest;
    forall k: nat | k <= |s| ensures !StrictSkips(ts, s, lead, f, k) {
      assert k > 1 ==> s[..k][1] == SLASH;
      assert k == 0 ==> !Same(SLASH, s[0], f);
    }
  }

  lemma StarBeforeDots(ts: seq<Token>, lead: bool, f: Flags)
    requires ts != [] && ts[0].Star? && f.pathname && f.period && NoNul(ts)
    requires Bare(ts[1..], f) && AllPossible(ts[1..], Off(f))
    ensures !Strict(ts, [97] + Dots(ts[1..], false, Off(f)), lead, f)
  {
    hide Strict, Dots;
    var r := ts[1..];
    BareLater(r, f);
    var x := DotsSlash(r, false, Off(f));
    var w := Dots(r[UpToSlash(r) + 1..], true, Off(f));
    var y: CString := [97] + x;
    assert [97] + Dots(r, false, Off(f)) == y + [SLASH] + w;
    StarBeforeDot(ts, y, w, lead, f);
  }

  lemma StarBeforeDot(ts: seq<Token>, y: CString, w: CString, lead: bool, f: Flags)
    requires ts != [] && ts[0].Star? && f.pathname && f.period && NoNul(ts) && SLASH !in y
    requires Bare(ts[1..], f) && AllPossible(ts[1..], Off(f))
    requires var r := ts[1..];
      UpToSlash(r) < |r| && AllPossible(r[UpToSlash(r) + 1..], Off(f)) && w == Dots(r[UpToSlash(r) + 1..], true, Off(f))
    ensures !Strict(ts, y + [SLASH] + w, lead, f)
  {
    hide Dots, Bare, AllPossible;
    var s := y + [SLASH] + w;
    forall k: nat | k <= |s| ensures !StrictSkips(ts, s, lead, f, k) {
      if k <= |y| {
        assert s[k..] == y[k..] + [SLASH] + w;
        DotsNotStrict(ts[1..], y[k..], w, lead && k == 0, f);
      } else {
        assert s[..k][|y|] == SLASH;
      }
    }
  }

  /** PERIOD protects every leading period exactly if the pattern is not exposed. */
  lemma PeriodKept(p: CString, f: Flags)
    ensures (forall s: CString :: Accepts(p, s, true, f) <==> Strict(Parse(p, f.noescape), s, true, f))
      <==> !(f.period && f.pathname && Exposed(Parse(p, f.noescape), true, f))
  {
    var ts := Parse(p, f.noescape);
    if f.period && f.pathname && Exposed(ts, true, f) {
      ParseNoNul(p, f.noescape);
      ExposedDiffers(ts, true, f);
      assert Accepts(p, Slipping(ts, true, f), true, f);
    } else {
      forall s: CString ensures Accepts(p, s, true, f) <==> Strict(ts, s, true, f) {
        if !f.period || !f.pathname {
          StrictSame(ts, s, true, f);
        } else {
          if Strict(ts, s, true, f) {
            StrictMatches(ts, s, true, f);
          } else if Matches(ts, s, true, f) {
            DifferentExposed(ts, s, true, f);
          }
        }
      }
    }
  }

  /** Every star is the last token or stands in front of a plain slash. */
  predicate StarsBounded(ts: seq<Token>) {
    forall i :: 0 <= i < |ts| && ts[i].Star? ==> i + 1 == |ts| || ts[i + 1] == Lit(SLASH, false)
  }

  /** Such a pattern is not exposed. */
  lemma {:induction false} BoundedNotExposed(ts: seq<Token>, lead: bool, f: Flags)
    requires StarsBounded(ts)
    ensures !Exposed(ts, lead, f)
  {
    if ts != [] {
      assert forall i :: 0 <= i < |ts| - 1 ==> ts[1..][i] == ts[i + 1];
      BoundedNotExposed(ts[1..], false, f);
      BoundedNotExposed(ts[1..], true, f);
    }
  }
}
