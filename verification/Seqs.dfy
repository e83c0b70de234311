// Sequences of sequences, as chains of a table and buckets of a brigade are.
module Seqs {

  function Flatten<T>(ss: seq<seq<T>>): seq<T> {
    if ss == [] then [] else ss[0] + Flatten(ss[1..])
  }

  lemma FlattenIn<T>(ss: seq<seq<T>>, i: nat, x: T)
    requires i < |ss| && x in ss[i]
    ensures x in Flatten(ss)
  {
    if i > 0 {
      FlattenIn(ss[1..], i - 1, x);
    }
  }

  lemma FlattenFrom<T>(ss: seq<seq<T>>, x: T) returns (i: nat)
    requires x in Flatten(ss)
    ensures i < |ss| && x in ss[i]
  {
    if x in ss[0] {
      i := 0;
    } else {
      i := FlattenFrom(ss[1..], x);
      i := i + 1;
    }
  }

  ghost predicate NoDup<T>(s: seq<T>) {
    forall i, j :: 0 <= i < j < |s| ==> s[i] != s[j]
  }

  lemma SplicePair<T>(s: seq<T>, i: nat, a: T, b: T)
    requires i < |s|
    ensures s[i := a][..i + 1] + [b] + s[i := a][i + 1..] == s[..i] + [a, b] + s[i + 1..]
  {
  }

  lemma FlattenConcat<T>(a: seq<seq<T>>, b: seq<seq<T>>)
    ensures Flatten(a + b) == Flatten(a) + Flatten(b)
  {
    if a == [] {
      assert a + b == b;
    } else {
      assert (a + b)[0] == a[0] && (a + b)[1..] == a[1..] + b;
      FlattenConcat(a[1..], b);
    }
  }

  lemma SameFront<T>(s: seq<T>, t: seq<T>, end: seq<T>)
    requires s + end == t + end
    ensures s == t
  {
    assert |s + end| == |t + end|;
    assert s == (s + end)[..|s|] && t == (t + end)[..|t|];
  }
}
