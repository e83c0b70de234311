// The lines of a text.
module Lines {
  import opened Text

  const LF: Byte := 10

  /** The length of the first line, with its line feed if it has one. */
  function FirstLine(s: seq<Byte>): (n: nat)
    ensures n <= |s| && (s != [] ==> n > 0)
  {
    if s == [] then 0 else if s[0] == '\n' as int then 1 else 1 + FirstLine(s[1..])
  }

  /** A text as its lines. */
  function LinesOf(s: seq<Byte>): seq<seq<Byte>> {
    if s == [] then [] else [s[..FirstLine(s)]] + LinesOf(s[FirstLine(s)..])
  }

  lemma {:induction false} FirstLineAt(s: seq<Byte>, n: nat)
    requires n <= |s| && LF !in s[..n]
    ensures if n < |s| && s[n] == LF then FirstLine(s) == n + 1 else FirstLine(s) >= n
  {
    if n > 0 {
      assert s[0] == s[..n][0] && s[1..][..n - 1] == s[..n][1..];
      FirstLineAt(s[1..], n - 1);
    }
  }

  lemma {:induction false} FirstLineEnds(s: seq<Byte>)
    ensures FirstLine(s) == |s| || s[FirstLine(s) - 1] == LF
  {
    if s != [] && s[0] != LF {
      FirstLineEnds(s[1..]);
    }
  }

  /** No line is longer than this. */
  ghost predicate Short(s: seq<Byte>, maxbytes: int) {
    forall i :: 0 <= i < |LinesOf(s)| ==> |LinesOf(s)[i]| <= maxbytes
  }

  /** What one call moves is the first line, or all there is. */
  lemma NextLine(rope: seq<Byte>, line: seq<Byte>, rest: seq<Byte>, found: bool, ended: bool, maxbytes: int)
    requires rope == line + rest && (ended ==> rest == []) && maxbytes > 0
    requires if found then line != [] && line[|line| - 1] == LF && LF !in line[..|line| - 1]
      else LF !in line && (ended || |line| >= maxbytes)
    requires Short(rope, maxbytes)
    ensures LinesOf(rope) == (if line == [] then [] else [line]) + LinesOf(rest) && Short(rest, maxbytes)
    ensures line == rope[..FirstLine(rope)]
  {
    if rope != [] {
      var n := FirstLine(rope);
      assert LinesOf(rope)[0] == rope[..n];
      assert forall i :: 0 <= i < |LinesOf(rope[n..])| ==> LinesOf(rope)[i + 1] == LinesOf(rope[n..])[i];
      if found {
        assert rope[..|line| - 1] == line[..|line| - 1] && rope[|line| - 1] == LF;
        FirstLineAt(rope, |line| - 1);
      } else {
        assert rope[..|line|] == line;
        FirstLineEnds(rope);
        FirstLineAt(rope, |line|);
        assert forall i :: 0 <= i < |line| ==> rope[i] == line[i] != LF;
      }
      assert rope[..|line|] == line && rope[|line|..] == rest;
    }
  }
}
