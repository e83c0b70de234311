// Glob patterns: apr_fnmatch against the language of the tokens of a pattern.
module Fnmatch {
  import opened Text

  const STAR: Byte := 42
  const QUESTION: Byte := 63
  const OPEN: Byte := 91
  const CLOSE: Byte := 93
  const BACKSLASH: Byte := 92
  const SLASH: Byte := 47
  const DOT: Byte := 46
  const DASH: Byte := 45
  const BANG: Byte := 33
  const CARET: Byte := 94

  datatype Flags = Flags(noescape: bool, pathname: bool, period: bool, caseBlind: bool)

  /** What a bracket expression lists. */
  datatype Item = One(c: Byte) | Range(lo: Byte, hi: Byte)

  datatype Token =
    | Any
    | Star
    | Class(negate: bool, items: seq<Item>)
    | Never                                 // a bracket expression without its end
    | Lit(c: Byte, escaped: bool)

  /** The items of a bracket expression up to its `]`, and how many bytes they and the `]` take. */
  datatype Scan = Unclosed | Closed(items: seq<Item>, size: nat)

  function Listed(item: Item, size: nat, rest: Scan): Scan {
    match rest
    case Unclosed => Unclosed
    case Closed(items, n) => Closed([item] + items, size + n)
  }

  /** The length of the item at the start of p, 0 if the pattern ends in it. */
  function ItemSize(p: CString, noescape: bool): (n: nat)
    requires p != []
    ensures n <= |p|
  {
    var a := if p[0] == BACKSLASH && !noescape then 1 else 0;
    if a == |p| then 0
    else if a + 2 < |p| && p[a + 1] == DASH && p[a + 2] != CLOSE then
      var b := if p[a + 2] == BACKSLASH && !noescape then a + 3 else a + 2;
      if b == |p| then 0 else b + 1
    else a + 1
  }

  function ItemAt(p: CString, noescape: bool): Item
    requires p != [] && ItemSize(p, noescape) > 0
  {
    var a := if p[0] == BACKSLASH && !noescape then 1 else 0;
    if ItemSize(p, noescape) > a + 1 then Range(p[a], p[ItemSize(p, noescape) - 1]) else One(p[a])
  }

  function ScanItems(p: CString, noescape: bool): (r: Scan)
    ensures r.Closed? ==> 0 < r.size <= |p| && p[r.size - 1] == CLOSE
  {
    if p == [] then Unclosed
    else if p[0] == CLOSE then Closed([], 1)
    else if ItemSize(p, noescape) == 0 then Unclosed
    else Listed(ItemAt(p, noescape), ItemSize(p, noescape), ScanItems(p[ItemSize(p, noescape)..], noescape))
  }

  /** Whether a bracket expression is negated, after its `[`. */
  predicate Negated(p: CString) {
    p != [] && (p[0] == BANG || p[0] == CARET)
  }

  /** The tokens of a pattern; noescape is the flag. Several stars in a row are one. */
  function Parse(p: CString, noescape: bool): seq<Token> {
    if p == [] then []
    else if p[0] == QUESTION then [Any] + Parse(p[1..], noescape)
    else if p[0] == STAR then (if At(p, 1) == STAR then [] else [Star]) + Parse(p[1..], noescape)
    else if p[0] == OPEN then
      var q := if Negated(p[1..]) then p[2..] else p[1..];
      match ScanItems(q, noescape)
      case Unclosed => [Never]
      case Closed(items, size) => [Class(Negated(p[1..]), items)] + Parse(q[size..], noescape)
    else if p[0] == BACKSLASH && !noescape then
      if |p| == 1 then [Lit(BACKSLASH, true)] else [Lit(p[1], true)] + Parse(p[2..], noescape)
    else [Lit(p[0], false)] + Parse(p[1..], noescape)
  }

  predicate InItem(item: Item, test: Byte, f: Flags) {
    match item
    case One(c) => c == test || (f.caseBlind && Lower(c) == Lower(test))
    case Range(lo, hi) =>
      || Signed(lo) <= Signed(test) <= Signed(hi)
      || (f.caseBlind && Lower(lo) <= Lower(test) <= Lower(hi))
  }

  predicate InItems(items: seq<Item>, test: Byte, f: Flags) {
    exists k :: 0 <= k < |items| && InItem(items[k], test, f)
  }

  predicate Same(c: Byte, test: Byte, f: Flags) {
    if f.caseBlind then Lower(c) == Lower(test) else c == test
  }

  /** The next byte is a period that PERIOD protects; lead tells whether it would be a leading one. */
  predicate Hidden(s: CString, lead: bool, f: Flags) {
    f.period && lead && At(s, 0) == DOT
  }

  /** The next byte can be matched by `?` or a bracket expression. */
  predicate Plain(s: CString, lead: bool, f: Flags): (r: bool)
    ensures r ==> s != []
  {
    s != [] && !(f.pathname && s[0] == SLASH) && !Hidden(s, lead, f)
  }

  /** A star can match the first k bytes. */
  predicate Run(s: CString, k: nat, f: Flags) {
    k <= |s| && (f.pathname ==> SLASH !in s[..k])
  }

  /** After a star PERIOD stays in force only up to a plain slash. */
  function After(ts: seq<Token>, f: Flags): Flags {
    if f.pathname && ts != [] && ts[0] == Lit(SLASH, false) then f else f.(period := false)
  }

  /** The language of a list of tokens. */
  ghost predicate Matches(ts: seq<Token>, s: CString, lead: bool, f: Flags)
    decreases |ts|, 1
  {
    if ts == [] then s == []
    else match ts[0]
      case Never => false
      case Any => Plain(s, lead, f) && Next(ts, s, f)
      case Class(negate, items) => Plain(s, lead, f) && InItems(items, s[0], f) != negate && Next(ts, s, f)
      case Lit(c, _) => s != [] && Same(c, s[0], f) && Next(ts, s, f)
      case Star => !Hidden(s, lead, f) && exists k: nat :: k <= |s| && Skips(ts, s, lead, f, k)
  }

  /** The first token takes one byte. */
  ghost predicate Next(ts: seq<Token>, s: CString, f: Flags)
    requires ts != [] && s != []
    decreases |ts|, 0
  {
    Matches(ts[1..], s[1..], f.pathname && s[0] == SLASH, f)
  }

  /** The first token, a star, takes k bytes. */
  ghost predicate Skips(ts: seq<Token>, s: CString, lead: bool, f: Flags, k: nat)
    requires ts != [] && k <= |s|
    decreases |ts|, 0
  {
    Run(s, k, f) && Matches(ts[1..], s[k..], lead && k == 0, After(ts[1..], f))
  }

  /** What a scan finds when it has already found items in the first n bytes. */
  function Joined(items: seq<Item>, n: nat, rest: Scan): Scan {
    match rest
    case Unclosed => Unclosed
    case Closed(more, size) => Closed(items + more, n + size)
  }

  lemma ScanStep(p: CString, i: nat, items: seq<Item>, n: nat, f: Flags)
    requires i < |p| && p[i] != CLOSE && ItemSize(p[i..], f.noescape) > 0
    ensures var size := ItemSize(p[i..], f.noescape);
      && i + size <= |p|
      && Joined(items, n, ScanItems(p[i..], f.noescape))
        == Joined(items + [ItemAt(p[i..], f.noescape)], n + size, ScanItems(p[i + size..], f.noescape))
  {
    hide ItemSize, ItemAt;
    var size, item := ItemSize(p[i..], f.noescape), ItemAt(p[i..], f.noescape);
    assert p[i..][size..] == p[i + size..];
    var rest := ScanItems(p[i + size..], f.noescape);
    if rest.Closed? {
      assert items + ([item] + rest.items) == items + [item] + rest.items;
    }
  }

  lemma ScanStop(p: CString, i: nat, items: seq<Item>, n: nat, f: Flags)
    requires i <= |p|
    ensures i < |p| && p[i] == CLOSE ==> Joined(items, n, ScanItems(p[i..], f.noescape)) == Closed(items, n + 1)
    ensures i == |p| || (p[i] != CLOSE && ItemSize(p[i..], f.noescape) == 0) ==>
      Joined(items, n, ScanItems(p[i..], f.noescape)) == Unclosed
    ensures Joined([], 0, ScanItems(p[i..], f.noescape)) == ScanItems(p[i..], f.noescape)
  {
    assert items + [] == items;
    if ScanItems(p[i..], f.noescape).Closed? {
      assert [] + ScanItems(p[i..], f.noescape).items == ScanItems(p[i..], f.noescape).items;
    }
  }

  lemma InItemsNext(items: seq<Item>, item: Item, test: Byte, f: Flags)
    ensures InItems(items + [item], test, f) <==> InItems(items, test, f) || InItem(item, test, f)
  {
    if InItems(items, test, f) {
      var k :| 0 <= k < |items| && InItem(items[k], test, f);
      assert (items + [item])[k] == items[k];
    }
    assert (items + [item])[|items|] == item;
  }

  /** One item of rangematch: where the next one starts, or nothing if the pattern ends first. */
  method RangeItem(p: CString, i: nat, test: Byte, f: Flags) returns (next: int, hit: bool)
    requires i < |p| && p[i] != CLOSE
    ensures next < 0 <==> ItemSize(p[i..], f.noescape) == 0
    ensures next >= 0 ==>
      next == i + ItemSize(p[i..], f.noescape) && (hit <==> InItem(ItemAt(p[i..], f.noescape), test, f))
  {
    next := i + 1;
    var c := At(p, i);
    if c == BACKSLASH && !f.noescape {
      c := At(p, next);
      next := next + 1;
    }
    if c == 0 {
      return -1, false;
    }
    var c2 := if At(p, next) == DASH then At(p, next + 1) else 0;
    if At(p, next) == DASH && c2 != 0 && c2 != CLOSE {
      next := next + 2;
      if c2 == BACKSLASH && !f.noescape {
        c2 := At(p, next);
        next := next + 1;
      }
      if c2 == 0 {
        return -1, false;
      }
      hit := (Signed(c) <= Signed(test) <= Signed(c2))
        || (f.caseBlind && Lower(c) <= Lower(test) <= Lower(c2));
    } else {
      hit := c == test || (f.caseBlind && Lower(c) == Lower(test));
    }
  }

  /** rangematch: the position after the bracket expression if it matches test. */
  method Rangematch(p: CString, test: Byte, f: Flags) returns (next: int)
    ensures var neg := Negated(p);
      var scan := ScanItems(if neg then p[1..] else p, f.noescape);
      && (next >= 0 <==> scan.Closed? && InItems(scan.items, test, f) != neg)
      && (next >= 0 ==> next == scan.size + if neg then 1 else 0)
  {
    hide ScanItems, Joined, ItemSize, ItemAt, InItems, InItem;
    var negate := At(p, 0) == BANG || At(p, 0) == CARET;
    var i := if negate then 1 else 0;
    var ok := false;
    ghost var from, done, scan := i, [], ScanItems(p[i..], f.noescape);
    assert p[0..] == p;
    InItemsNone(test, f);
    ScanStop(p, i, [], 0, f);
    while At(p, i) != CLOSE
      invariant from <= i <= |p| && Joined(done, i - from, ScanItems(p[i..], f.noescape)) == scan
      invariant ok <==> InItems(done, test, f)
      decreases |p| - i
    {
      ScanStop(p, i, done, i - from, f);
      if i == |p| {
        return -1;
      }
      var n, hit := RangeItem(p, i, test, f);
      if n < 0 {
        return -1;
      }
      ScanStep(p, i, done, i - from, f);
      InItemsNext(done, ItemAt(p[i..], f.noescape), test, f);
      done := done + [ItemAt(p[i..], f.noescape)];
      ok := ok || hit;
      i := n;
    }
    ScanStop(p, i, done, i - from, f);
    next := if ok == negate then -1 else i + 1;
  }

  lemma InItemsNone(test: Byte, f: Flags)
    ensures !InItems([], test, f)
  {
  }

  /** Whether position j of the string is one where PERIOD protects a period. */
  predicate Lead(s: CString, j: nat, f: Flags)
    requires j <= |s|
  {
    j == 0 || (f.pathname && s[j - 1] == SLASH)
  }

  /** Without PERIOD it does not matter where a string starts. */
  lemma {:induction false} LeadIrrelevant(ts: seq<Token>, s: CString, f: Flags)
    requires !f.period
    ensures Matches(ts, s, true, f) == Matches(ts, s, false, f)
  {
    if ts != [] && ts[0].Star? {
      forall k: nat | k <= |s|
        ensures Skips(ts, s, true, f, k) == Skips(ts, s, false, f, k)
      {
        LeadIrrelevant(ts[1..], s[k..], f);
      }
    }
  }

  /** A pattern that does not start with a star needs at least one byte. */
  lemma NeverEmpty(p: CString, lead: bool, f: Flags)
    requires p != [] && p[0] != STAR
    ensures Parse(p, f.noescape) != [] && !Parse(p, f.noescape)[0].Star? && !Accepts(p, [], lead, f)
  {
  }

  lemma {:induction false} ParseStars(p: CString, n: nat, noescape: bool)
    requires 0 < n <= |p| && (forall k :: 0 <= k < n ==> p[k] == STAR) && At(p, n) != STAR
    ensures Parse(p, noescape) == [Star] + Parse(p[n..], noescape)
  {
    if n > 1 {
      assert p[1..][n - 1..] == p[n..];
      ParseStars(p[1..], n - 1, noescape);
    }
  }

  /** A star at the end of the pattern. */
  lemma StarLast(s: CString, lead: bool, f: Flags)
    ensures Matches([Star], s, lead, f) <==> !Hidden(s, lead, f) && (f.pathname ==> SLASH !in s)
  {
    forall k: nat | k <= |s|
      ensures Skips([Star], s, lead, f, k) <==> Run(s, k, f) && k == |s|
    {
      assert [Star][1..] == [] && (s[k..] == [] <==> k == |s|);
    }
    assert s[..|s|] == s;
    assert Skips([Star], s, lead, f, |s|) <==> Run(s, |s|, f);
  }

  /** A star before a slash: no match is lost by going straight to the first slash. */
  lemma StarSlash(rest: seq<Token>, s: CString, k: int, lead: bool, f: Flags)
    requires f.pathname && rest != [] && rest[0] == Lit(SLASH, false)
    requires k < 0 ==> SLASH !in s
    requires k >= 0 ==> k < |s| && s[k] == SLASH && SLASH !in s[..k]
    ensures Matches([Star] + rest, s, lead, f) <==>
      !Hidden(s, lead, f) && k >= 0 && Matches(rest, s[k..], lead && k == 0, f)
  {
    var ts := [Star] + rest;
    assert ts[1..] == rest;
    forall n: nat | n <= |s| && Skips(ts, s, lead, f, n)
      ensures n == k
    {
      assert Matches(rest, s[n..], lead && n == 0, f);
      assert s[n..] != [] && s[n] == SLASH;
    }
    if k >= 0 {
      assert Skips(ts, s, lead, f, k) <==> Matches(rest, s[k..], lead && k == 0, f);
    }
  }

  /** A star anywhere else: PERIOD is off for what follows. */
  lemma StarSkips(rest: seq<Token>, s: CString, lead: bool, f: Flags)
    requires rest != [] && !(f.pathname && rest[0] == Lit(SLASH, false))
    ensures var f' := f.(period := false);
      Matches([Star] + rest, s, lead, f) <==>
      !Hidden(s, lead, f) && exists k: nat :: k <= |s| && Run(s, k, f) && Matches(rest, s[k..], true, f')
  {
    var ts, f' := [Star] + rest, f.(period := false);
    assert ts[1..] == rest;
    forall k: nat | k <= |s|
      ensures Skips(ts, s, lead, f, k) <==> Run(s, k, f) && Matches(rest, s[k..], true, f')
    {
      LeadIrrelevant(rest, s[k..], f');
    }
  }

  /** The general case of `*`: try the rest of the pattern at every position the star can reach. */
  method StarSearch(p: CString, s: CString, f: Flags) returns (ok: bool)
    requires p != [] && p[0] != STAR && !f.period
    ensures ok <==> exists k: nat :: k <= |s| && Run(s, k, f) && Accepts(p, s[k..], true, f)
    decreases |p|, 3
  {
    hide Accepts;
    var j := 0;
    while j < |s|
      invariant j <= |s| && Run(s, j, f)
      invariant forall k: nat :: k < j ==> !Accepts(p, s[k..], true, f)
    {
      ok := Fnmatch(p, s[j..], f);
      if ok {
        return true;
      }
      if s[j] == SLASH && f.pathname {
        assert forall k: nat :: j < k <= |s| ==> s[..k][j] == SLASH;
        return false;
      }
      j := j + 1;
    }
    NeverEmpty(p, true, f);
    assert s[|s|..] == [];
    return false;
  }

  /** The string is in the language of the pattern. */
  ghost predicate Accepts(p: CString, s: CString, lead: bool, f: Flags) {
    Matches(Parse(p, f.noescape), s, lead, f)
  }

  lemma AcceptsNone(s: CString, lead: bool, f: Flags)
    ensures Accepts([], s, lead, f) <==> s == []
  {
  }

  lemma AcceptsAny(p: CString, s: CString, lead: bool, f: Flags)
    requires p != [] && p[0] == QUESTION
    ensures Accepts(p, s, lead, f) <==> Plain(s, lead, f) && Accepts(p[1..], s[1..], Lead(s, 1, f), f)
  {
    var ts := Parse(p, f.noescape);
    assert ts[0] == Any && ts[1..] == Parse(p[1..], f.noescape);
    if Plain(s, lead, f) {
      assert Next(ts, s, f) == Accepts(p[1..], s[1..], Lead(s, 1, f), f);
    }
  }

  /** A literal byte, escaped or not, and how many bytes of the pattern it takes. */
  function Literal(p: CString, noescape: bool): (r: (Byte, nat))
    requires p != []
    ensures 0 < r.1 <= |p| && r.0 != 0
  {
    if p[0] == BACKSLASH && !noescape && |p| > 1 then (p[1], 2) else (p[0], 1)
  }

  lemma AcceptsLit(p: CString, s: CString, lead: bool, f: Flags)
    requires p != [] && p[0] != QUESTION && p[0] != STAR && p[0] != OPEN
    ensures var (c, n) := Literal(p, f.noescape);
      && !Same(c, 0, f)
      && (Accepts(p, s, lead, f) <==> s != [] && Same(c, s[0], f) && Accepts(p[n..], s[1..], Lead(s, 1, f), f))
  {
    var (c, n) := Literal(p, f.noescape);
    var ts, rest := Parse(p, f.noescape), Parse(p[n..], f.noescape);
    assert ts[0].Lit? && ts[0].c == c && ts[1..] == rest;
    if s != [] {
      assert Next(ts, s, f) == Accepts(p[n..], s[1..], Lead(s, 1, f), f);
    }
  }

  lemma AcceptsClass(p: CString, s: CString, lead: bool, f: Flags, next: int)
    requires p != [] && p[0] == OPEN
    requires Plain(s, lead, f) ==>
      var neg := Negated(p[1..]);
      var scan := ScanItems(if neg then p[2..] else p[1..], f.noescape);
      && (next >= 0 <==> scan.Closed? && InItems(scan.items, s[0], f) != neg)
      && (next >= 0 ==> next == scan.size + if neg then 1 else 0)
    ensures Plain(s, lead, f) && next >= 0 ==> 1 + next <= |p|
    ensures Accepts(p, s, lead, f) <==>
      Plain(s, lead, f) && next >= 0 && Accepts(p[1 + next..], s[1..], Lead(s, 1, f), f)
  {
    var neg, ts := Negated(p[1..]), Parse(p, f.noescape);
    var q := if neg then p[2..] else p[1..];
    var scan := ScanItems(q, f.noescape);
    if scan.Closed? {
      assert ts[0] == Class(neg, scan.items) && ts[1..] == Parse(q[scan.size..], f.noescape);
      if Plain(s, lead, f) && next >= 0 {
        assert q[scan.size..] == p[1 + next..];
        assert Next(ts, s, f) == Accepts(p[1 + next..], s[1..], Lead(s, 1, f), f);
      }
    } else {
      assert ts == [Never];
    }
  }

  lemma AcceptsStarLast(p: CString, s: CString, lead: bool, f: Flags)
    requires p != [] && forall k :: 0 <= k < |p| ==> p[k] == STAR
    ensures Accepts(p, s, lead, f) <==> !Hidden(s, lead, f) && (f.pathname ==> SLASH !in s)
  {
    ParseStars(p, |p|, f.noescape);
    assert [Star] + Parse(p[|p|..], f.noescape) == [Star];
    StarLast(s, lead, f);
  }

  lemma AcceptsStarSlash(p: CString, n: nat, s: CString, k: int, lead: bool, f: Flags)
    requires 0 < n < |p| && (forall k :: 0 <= k < n ==> p[k] == STAR) && p[n] == SLASH && f.pathname
    requires k < 0 ==> SLASH !in s
    requires k >= 0 ==> k < |s| && s[k] == SLASH && SLASH !in s[..k]
    ensures Accepts(p, s, lead, f) <==>
      !Hidden(s, lead, f) && k >= 0 && Accepts(p[n..], s[k..], lead && k == 0, f)
  {
    ParseStars(p, n, f.noescape);
    StarSlash(Parse(p[n..], f.noescape), s, k, lead, f);
  }

  lemma AcceptsStarSkips(p: CString, n: nat, s: CString, lead: bool, f: Flags)
    requires 0 < n < |p| && (forall k :: 0 <= k < n ==> p[k] == STAR) && p[n] != STAR && !(f.pathname && p[n] == SLASH)
    ensures var f' := f.(period := false);
      Accepts(p, s, lead, f) <==>
      !Hidden(s, lead, f) && exists k: nat :: k <= |s| && Run(s, k, f') && Accepts(p[n..], s[k..], true, f')
  {
    ParseStars(p, n, f.noescape);
    NeverEmpty(p[n..], lead, f);
    StarSkips(Parse(p[n..], f.noescape), s, lead, f);
  }

  /** The case `*` of apr_fnmatch: it either decides the match or goes on after the star. */
  method StarCase(p: CString, s: CString, lead: bool, f: Flags) returns (decided: bool, ok: bool, n: nat, k: nat)
    requires p != [] && p[0] == STAR
    ensures decided ==> (ok <==> Accepts(p, s, lead, f))
    ensures !decided ==> 0 < n <= |p| && k <= |s| && (k > 0 ==> f.pathname && s[k - 1] != SLASH)
    ensures !decided ==> (Accepts(p, s, lead, f) <==> Accepts(p[n..], s[k..], lead && k == 0, f))
    decreases |p|, 1
  {
    hide Accepts, Hidden;
    decided, ok, n, k := true, false, 1, 0;
    while At(p, n) == STAR
      invariant n <= |p| && forall m :: 0 <= m < n ==> p[m] == STAR
      decreases |p| - n
    {
      n := n + 1;
    }
    if Hidden(s, lead, f) {
      HiddenStar(p, s, lead, f);
      return;
    }
    var c := At(p, n);
    if c == 0 {
      AcceptsStarLast(p, s, lead, f);
      if f.pathname {
        var pos := IndexOf(s, SLASH);
        ok := pos < 0;
      } else {
        ok := true;
      }
    } else if c == SLASH && f.pathname {
      var pos := IndexOf(s, SLASH);
      AcceptsStarSlash(p, n, s, pos, lead, f);
      if pos >= 0 {
        decided, k := false, pos;
        assert k > 0 ==> s[..k][k - 1] == s[k - 1];
      }
    } else {
      AcceptsStarSkips(p, n, s, lead, f);
      ok := StarSearch(p[n..], s, f.(period := false));
    }
  }

  lemma {:induction false} HiddenStar(p: CString, s: CString, lead: bool, f: Flags)
    requires p != [] && p[0] == STAR && Hidden(s, lead, f)
    ensures !Accepts(p, s, lead, f)
  {
    if At(p, 1) == STAR {
      HiddenStar(p[1..], s, lead, f);
      assert [] + Parse(p[1..], f.noescape) == Parse(p[1..], f.noescape);
    } else {
      assert Parse(p, f.noescape)[0] == Star;
    }
  }

  /** The cases of apr_fnmatch in which n bytes of the pattern match one byte of the string. */
  method ByteCase(p: CString, s: CString, lead: bool, f: Flags) returns (ok: bool, n: nat)
    requires p != [] && p[0] != STAR
    ensures !ok ==> !Accepts(p, s, lead, f)
    ensures ok ==> 0 < n <= |p| && s != [] && (Accepts(p, s, lead, f) <==> Accepts(p[n..], s[1..], Lead(s, 1, f), f))
  {
    hide Accepts, Hidden, Plain, ScanItems, InItems, Same;
    var c := p[0];
    n := 1;
    if c == QUESTION {
      AcceptsAny(p, s, lead, f);
      ok := Plain(s, lead, f);
    } else if c == OPEN {
      if !Plain(s, lead, f) {
        AcceptsClass(p, s, lead, f, -1);
        return false, n;
      }
      var next := Rangematch(p[1..], s[0], f);
      AcceptsClass(p, s, lead, f, next);
      if next < 0 {
        return false, n;
      }
      ok, n := true, 1 + next;
    } else {
      AcceptsLit(p, s, lead, f);
      if c == BACKSLASH && !f.noescape {
        c := At(p, n);
        n := n + 1;
        if c == 0 {
          c := BACKSLASH;
          n := n - 1;
        }
      }
      ok := Same(c, At(s, 0), f);
    }
  }

  /** apr_fnmatch. */
  method Fnmatch(pattern: CString, str: CString, flags: Flags) returns (ok: bool)
    ensures ok <==> Accepts(pattern, str, true, flags)
    decreases |pattern|, 2
  {
    hide Accepts;
    var i: nat, j: nat := 0, 0;
    assert pattern[0..] == pattern && str[0..] == str;
    while i < |pattern|
      invariant i <= |pattern| && j <= |str|
      invariant Accepts(pattern, str, true, flags) <==> Accepts(pattern[i..], str[j..], Lead(str, j, flags), flags)
      decreases |pattern| - i
    {
      var n, k;
      if At(pattern, i) == STAR {
        var decided;
        decided, ok, n, k := StarCase(pattern[i..], str[j..], Lead(str, j, flags), flags);
        if decided {
          return;
        }
      } else {
        ok, n := ByteCase(pattern[i..], str[j..], Lead(str, j, flags), flags);
        if !ok {
          return;
        }
        k := 1;
      }
      SuffixOf(pattern, i, n);
      SuffixOf(str, j, k);
      i, j := i + n, j + k;
    }
    AcceptsNone(str[j..], Lead(str, j, flags), flags);
    return j == |str|;
  }
}
