// What follows from the language of a pattern: PERIOD, repeated stars, and patterns without glob characters.
module FnmatchLaws {
  import opened Text
  import opened Fnmatch

  /** PERIOD only takes matches away. */
  lemma {:induction false} PeriodRestricts(ts: seq<Token>, s: CString, lead: bool, f: Flags)
    requires Matches(ts, s, lead, f)
    ensures Matches(ts, s, lead, f.(period := false))
  {
    var f' := f.(period := false);
    if ts != [] {
      if ts[0].Star? {
        var k: nat :| k <= |s| && Skips(ts, s, lead, f, k);
        PeriodRestricts(ts[1..], s[k..], lead && k == 0, After(ts[1..], f));
        assert Skips(ts, s, lead, f', k);
      } else {
        assert Next(ts, s, f);
        PeriodRestricts(ts[1..], s[1..], f.pathname && s[0] == SLASH, f);
        assert Next(ts, s, f');
      }
    }
  }

  /** Position j is one where PERIOD protects a period, in a string that itself may start at such a position. */
  predicate Protected(s: CString, j: nat, lead: bool, f: Flags)
    requires j <= |s|
  {
    if j == 0 then lead else f.pathname && s[j - 1] == SLASH
  }

  ghost predicate NoLeadingPeriod(s: CString, lead: bool, f: Flags) {
    forall j :: 0 <= j < |s| && Protected(s, j, lead, f) ==> s[j] != DOT
  }

  /** A string with no leading period matches with PERIOD just when it matches without. */
  lemma {:induction false} PeriodHarmless(ts: seq<Token>, s: CString, lead: bool, f: Flags)
    requires NoLeadingPeriod(s, lead, f)
    ensures Matches(ts, s, lead, f) <==> Matches(ts, s, lead, f.(period := false))
  {
    var f' := f.(period := false);
    assert s != [] ==> Protected(s, 0, lead, f) == lead;
    if ts != [] && ts[0].Star? {
      forall k: nat | k <= |s|
        ensures Skips(ts, s, lead, f, k) <==> Skips(ts, s, lead, f', k)
      {
        PeriodHarmless(ts[1..], s[k..], k == 0 && lead, f);
      }
    } else if ts != [] && s != [] {
      PeriodHarmless(ts[1..], s[1..], f.pathname && s[0] == SLASH, f);
      assert Next(ts, s, f) <==> Next(ts, s, f');
    }
  }

  lemma StarTakes(ts: seq<Token>, s: CString, lead: bool, f: Flags) returns (k: nat)
    requires ts != [] && ts[0].Star? && Matches(ts, s, lead, f)
    ensures k <= |s| && Skips(ts, s, lead, f, k)
  {
    k :| k <= |s| && Skips(ts, s, lead, f, k);
  }

  /** Two stars in a row match what one star matches. */
  lemma StarStar(rest: seq<Token>, s: CString, lead: bool, f: Flags)
    requires !f.period
    ensures Matches([Star, Star] + rest, s, lead, f) <==> Matches([Star] + rest, s, lead, f)
  {
    var two, one := [Star, Star] + rest, [Star] + rest;
    assert two[1..] == one && one[1..] == rest;
    if Matches(two, s, lead, f) {
      var k := StarTakes(two, s, lead, f);
      var n := StarTakes(one, s[k..], lead && k == 0, f);
      assert s[k..][n..] == s[k + n..] && s[..k + n] == s[..k] + s[k..][..n];
      if lead {
        LeadIrrelevant(rest, s[k + n..], f);
      }
      assert Skips(one, s, lead, f, k + n);
    }
    if Matches(one, s, lead, f) {
      assert s[0..] == s && s[..0] == [];
      assert Skips(two, s, lead, f, 0);
    }
  }

  /** A leading period is matched by a period of the pattern, escaped or not, and by nothing else. */
  lemma LeadingPeriod(p: CString, s: CString, f: Flags)
    requires f.period && At(s, 0) == DOT && Accepts(p, s, true, f)
    ensures p != [] && Literal(p, f.noescape).0 == DOT && p[0] != QUESTION && p[0] != STAR && p[0] != OPEN
  {
    if p == [] {
    } else if p[0] == QUESTION {
      AcceptsAny(p, s, true, f);
    } else if p[0] == STAR {
      HiddenStar(p, s, true, f);
    } else if p[0] == OPEN {
      AcceptsClass(p, s, true, f, -1);
    } else {
      AcceptsLit(p, s, true, f);
    }
  }

  /** The same does not hold after a slash: a star in front of anything but a plain slash switches PERIOD off. */
  lemma LaterPeriodLost()
    ensures var f := Flags(false, true, true, false);
      && Accepts([STAR, BACKSLASH, SLASH, QUESTION], [SLASH, DOT], true, f)     // *\/? and /.
      && !Accepts([STAR, SLASH, QUESTION], [SLASH, DOT], true, f)              // */?  and /.
    // *a/? and xa/.
    ensures Accepts([STAR, 97, SLASH, QUESTION], [120, 97, SLASH, DOT], true, Flags(false, true, true, false))
  {
    EscapedSlash();
    OtherLiteral();
  }

  lemma EscapedSlash()
    ensures var f := Flags(false, true, true, false);
      && Accepts([STAR, BACKSLASH, SLASH, QUESTION], [SLASH, DOT], true, f)
      && !Accepts([STAR, SLASH, QUESTION], [SLASH, DOT], true, f)
  {
    var f := Flags(false, true, true, false);
    var f', s: CString := f.(period := false), [SLASH, DOT];
    var p: CString, q: CString := [STAR, BACKSLASH, SLASH, QUESTION], [STAR, SLASH, QUESTION];
    AcceptsStarSkips(p, 1, s, true, f);
    AcceptsLit(p[1..], s[0..], true, f');
    AcceptsAny(p[3..], s[1..], true, f');
    AcceptsNone(s[2..], false, f');
    assert p[1..][2..] == p[3..] && p[3..][1..] == [] && s[1..][1..] == s[2..] == [] && s[0..] == s;
    assert Accepts(p[1..], s[0..], true, f');
    AcceptsStarSlash(q, 1, s, 0, true, f);
    AcceptsLit(q[1..], s[0..], true, f);
    AcceptsAny(q[2..], s[1..], true, f);
    assert q[1..][1..] == q[2..];
  }

  lemma OtherLiteral()
    ensures Accepts([STAR, 97, SLASH, QUESTION], [120, 97, SLASH, DOT], true, Flags(false, true, true, false))
  {
    var f := Flags(false, true, true, false);
    var f', p: CString, s: CString := f.(period := false), [STAR, 97, SLASH, QUESTION], [120, 97, SLASH, DOT];
    AcceptsStarSkips(p, 1, s, true, f);
    AcceptsLit(p[1..], s[1..], true, f');
    AcceptsLit(p[2..], s[2..], false, f');
    AcceptsAny(p[3..], s[3..], true, f');
    AcceptsNone(s[4..], false, f');
    assert p[1..][1..] == p[2..] && p[2..][1..] == p[3..] && p[3..][1..] == [];
    assert s[1..][1..] == s[2..] && s[2..][1..] == s[3..] && s[3..][1..] == s[4..] == [];
    assert Run(s, 1, f') && Accepts(p[1..], s[1..], true, f');
  }

  /** An empty negated bracket expression consumes a byte, although the header says it does not. */
  lemma EmptyNegation(s: CString, mark: Byte, f: Flags)
    requires mark == BANG || mark == CARET
    ensures Accepts([OPEN, mark, CLOSE], s, true, f) <==> |s| == 1 && Plain(s, true, f)
  {
    var p: CString := [OPEN, mark, CLOSE];
    assert p[1..][1..] == [CLOSE] == p[2..];
    assert ScanItems(p[2..], f.noescape) == Closed([], 1);
    if s != [] {
      assert !InItems([], s[0], f);
      assert p[3..] == [];
    }
    AcceptsClass(p, s, true, f, 2);
    if s != [] {
      AcceptsNone(s[1..], Lead(s, 1, f), f);
    }
  }

  /** What apr_fnmatch_test looks for; inBracket tells that there was a bracket before. */
  predicate HasGlob(p: CString, inBracket: bool) {
    if p == [] then false
    else if p[0] == QUESTION || p[0] == STAR then true
    else if p[0] == BACKSLASH then |p| > 1 && HasGlob(p[2..], inBracket)
    else if p[0] == OPEN then HasGlob(p[1..], true)
    else (p[0] == CLOSE && inBracket) || HasGlob(p[1..], inBracket)
  }

  /** A byte that no backslash escapes. */
  predicate Free(p: CString, i: nat)
    requires i <= |p|
  {
    i == 0 || !(p[i - 1] == '\\' as int && Free(p, i - 1))
  }

  /** An unescaped byte that makes a glob: a wildcard, or the `]` of a bracket that is open already or opened before. */
  ghost predicate GlobAt(p: CString, i: nat, inBracket: bool)
    requires i < |p|
  {
    && Free(p, i)
    && (p[i] == '?' as int || p[i] == '*' as int || (p[i] == ']' as int &&
      (inBracket || exists j :: 0 <= j < i && Free(p, j) && p[j] == '[' as int)))
  }

  lemma {:induction false} FreeShift(p: CString, n: nat, i: nat)
    requires n + i <= |p| && (n == 1 || n == 2) && (n == 2 <==> p[0] == '\\' as int)
    ensures Free(p, n + i) <==> Free(p[n..], i)
  {
    if i > 0 {
      FreeShift(p, n, i - 1);
    } else {
      assert n == 2 ==> !Free(p, 1);
    }
  }

  lemma GlobShift(p: CString, n: nat, i: nat, inBracket: bool)
    requires n + i < |p| && (n == 1 || n == 2) && (n == 2 <==> p[0] == '\\' as int)
    ensures GlobAt(p, n + i, inBracket) <==> GlobAt(p[n..], i, inBracket || p[0] == '[' as int)
  {
    forall j: nat | j <= i ensures Free(p, n + j) <==> Free(p[n..], j) {
      FreeShift(p, n, j);
    }
    assert p[n..][i] == p[n + i];
    if j :| 0 <= j < i && Free(p[n..], j) && p[n..][j] == '[' as int {
      assert Free(p, n + j) && p[n + j] == '[' as int;
    }
    if j :| 0 <= j < n + i && Free(p, j) && p[j] == '[' as int && p[0] != '[' as int {
      assert n == 2 ==> !Free(p, 1);
      assert Free(p[n..], j - n) && p[n..][j - n] == '[' as int;
    }
  }

  /** What apr_fnmatch_test looks for, told by positions. */
  lemma {:induction false} GlobText(p: CString, inBracket: bool)
    ensures HasGlob(p, inBracket) <==> exists i: nat :: i < |p| && GlobAt(p, i, inBracket)
  {
    if p != [] {
      var n := if p[0] == '\\' as int then 2 else 1;
      if n <= |p| {
        var open := inBracket || p[0] == '[' as int;
        GlobText(p[n..], open);
        if i: nat :| i < |p[n..]| && GlobAt(p[n..], i, open) {
          GlobShift(p, n, i, inBracket);
          assert GlobAt(p, n + i, inBracket);
        }
        if i: nat :| i < |p| && GlobAt(p, i, inBracket) {
          assert n == 2 ==> !Free(p, 1);
          if i >= n {
            GlobShift(p, n, i - n, inBracket);
          }
        }
        assert GlobAt(p, 0, inBracket) <==> p[0] in ['?' as int, '*' as int] || (p[0] == ']' as int && inBracket);
      } else {
        assert !GlobAt(p, 0, inBracket);
      }
    }
  }

  /** apr_fnmatch_test. */
  method FnmatchTest(pattern: CString) returns (glob: bool)
    ensures glob <==> HasGlob(pattern, false)
  {
    var nesting, i := 0, 0;
    assert pattern[0..] == pattern;
    while i < |pattern|
      invariant i <= |pattern| && nesting >= 0
      invariant HasGlob(pattern, false) <==> HasGlob(pattern[i..], nesting > 0)
    {
      if i + 1 < |pattern| {
        SuffixOf(pattern, i, 2);
      }
      SuffixOf(pattern, i, 1);
      var c := pattern[i];
      if c == QUESTION || c == STAR {
        return true;
      } else if c == BACKSLASH {
        i := i + 1;
        if i == |pattern| {
          return false;
        }
      } else if c == OPEN {
        nesting := nesting + 1;
      } else if c == CLOSE {
        if nesting > 0 {
          return true;
        }
      }
      i := i + 1;
    }
    return false;
  }

  /** The pattern without its escapes. */
  function Unescape(p: CString): CString {
    if p == [] then []
    else if p[0] == BACKSLASH && |p| > 1 then [p[1]] + Unescape(p[2..])
    else [p[0]] + Unescape(p[1..])
  }

  /** An unescaped bracket. */
  predicate HasOpen(p: CString) {
    if p == [] then false
    else if p[0] == OPEN then true
    else if p[0] == BACKSLASH && |p| > 1 then HasOpen(p[2..])
    else HasOpen(p[1..])
  }

  /** The two scanners agree on escapes: with no glob in sight, a bracket is never closed. */
  lemma {:induction false} NeverClosed(p: CString)
    requires !HasGlob(p, true)
    ensures ScanItems(p, false).Unclosed?
  {
    if p != [] && ItemSize(p, false) > 0 {
      ItemHasNoGlob(p);
      NeverClosed(p[ItemSize(p, false)..]);
    }
  }

  lemma ItemHasNoGlob(p: CString)
    requires p != [] && !HasGlob(p, true) && ItemSize(p, false) > 0
    ensures !HasGlob(p[ItemSize(p, false)..], true)
  {
    var a := if p[0] == BACKSLASH then 2 else 1;
    var q := p[a..];
    assert !HasGlob(q, true);
    if q != [] && q[0] == DASH {
      assert !HasGlob(q[1..], true) && q[1..] == p[a + 1..];
      if |q| > 1 {
        assert q[1..][1..] == p[a + 2..];
        if |q| > 2 {
          assert q[1..][2..] == p[a + 3..];
        }
      }
    }
  }

  /** If apr_fnmatch_test reports no glob, apr_fnmatch without flags accepts the unescaped pattern at most. */
  lemma {:induction false} NoGlob(p: CString, s: CString, lead: bool)
    requires !HasGlob(p, false)
    ensures Accepts(p, s, lead, Flags(false, false, false, false)) <==> s == Unescape(p) && !HasOpen(p)
  {
    var f := Flags(false, false, false, false);
    if p == [] {
      AcceptsNone(s, lead, f);
    } else if p[0] == OPEN {
      var q: CString := if Negated(p[1..]) then p[2..] else p[1..];
      assert !HasGlob(p[1..], true);
      assert Negated(p[1..]) ==> p[1..][1..] == p[2..];
      NeverClosed(q);
      AcceptsClass(p, s, lead, f, -1);
    } else {
      AcceptsLit(p, s, lead, f);
      var (c, n) := Literal(p, false);
      if s != [] {
        NoGlob(p[n..], s[1..], Lead(s, 1, f));
        assert s == [s[0]] + s[1..];
      }
    }
  }
}
