// APR rings: circular doubly linked lists whose head, the sentinel, is linked in like an element.
module Rings {
  import opened Seqs
  import opened Buckets

  ghost function NextOf(r: seq<Bucket>, i: nat): Bucket
    requires i < |r|
  {
    if i + 1 < |r| then r[i + 1] else r[0]
  }

  ghost function PrevOf(r: seq<Bucket>, i: nat): Bucket
    requires i < |r|
  {
    if i > 0 then r[i - 1] else r[|r| - 1]
  }

  /** r is a full turn of a ring; next and prev are inverse and closed. */
  ghost predicate Cyclic(r: seq<Bucket>)
    reads r`next, r`prev
  {
    r != [] && NoDup(r) && NextBut(r, -1) && PrevBut(r, -1)
  }

  ghost predicate NextBut(r: seq<Bucket>, m: int)
    reads r`next, r`prev
  {
    forall i {:trigger r[i].next} :: 0 <= i < |r| && i != m ==> r[i].next == NextOf(r, i)
  }

  ghost predicate PrevBut(r: seq<Bucket>, m: int)
    reads r`next, r`prev
  {
    forall i {:trigger r[i].prev} :: 0 <= i < |r| && i != m ==> r[i].prev == PrevOf(r, i)
  }

  /** seg is linked from end to end, whatever its ends point at outside. */
  ghost predicate Segment(seg: seq<Bucket>)
    reads seg`next, seg`prev
  {
    seg != [] && NoDup(seg) && NextBut(seg, |seg| - 1) && PrevBut(seg, 0)
  }

  /** Nothing in both. */
  ghost predicate Disjoint(a: seq<Bucket>, b: seq<Bucket>) {
    forall i, j :: 0 <= i < |a| && 0 <= j < |b| ==> a[i] != b[j]
  }

  /** The ring r with seg put in before position p; p == |r| is before the sentinel r[0]. */
  ghost function Insert(r: seq<Bucket>, p: nat, seg: seq<Bucket>): seq<Bucket>
    requires 0 < p <= |r|
  {
    r[..p] + seg + r[p..]
  }

  lemma InsertCyclic(r: seq<Bucket>, p: nat, seg: seq<Bucket>)
    requires r != [] && NoDup(r) && 0 < p <= |r| && Segment(seg) && Disjoint(r, seg)
    requires NextBut(r, p - 1) && PrevBut(r, if p == |r| then 0 else p)
    requires r[p - 1].next == seg[0] && seg[0].prev == r[p - 1]
    requires seg[|seg| - 1].next == NextOf(r, p - 1) && NextOf(r, p - 1).prev == seg[|seg| - 1]
    ensures Cyclic(Insert(r, p, seg))
  {
    var n, t := |seg|, Insert(r, p, seg);
    forall i | 0 <= i < |t|
      ensures t[i].next == NextOf(t, i) && t[i].prev == PrevOf(t, i)
    {
      if i < p {
        assert t[i] == r[i];
      } else if i < p + n {
        assert t[i] == seg[i - p];
      } else {
        assert t[i] == r[i - n];
      }
    }
  }

  /** APR_RING_SPLICE_BEFORE. */
  method SpliceBefore(lep: Bucket, ep1: Bucket, epN: Bucket, ghost r: seq<Bucket>, ghost k: nat, ghost seg: seq<Bucket>)
    requires Cyclic(r) && k < |r| && lep == r[k]
    requires Segment(seg) && ep1 == seg[0] && epN == seg[|seg| - 1] && Disjoint(r, seg)
    modifies lep`prev, lep.prev`next, ep1`prev, epN`next
    ensures Cyclic(Insert(r, if k == 0 then |r| else k, seg))
  {
    epN.next := lep;
    ep1.prev := lep.prev;
    lep.prev.next := ep1;
    lep.prev := epN;
    InsertCyclic(r, if k == 0 then |r| else k, seg);
  }

  /** APR_RING_SPLICE_AFTER. */
  method SpliceAfter(lep: Bucket, ep1: Bucket, epN: Bucket, ghost r: seq<Bucket>, ghost k: nat, ghost seg: seq<Bucket>)
    requires Cyclic(r) && k < |r| && lep == r[k]
    requires Segment(seg) && ep1 == seg[0] && epN == seg[|seg| - 1] && Disjoint(r, seg)
    modifies lep`next, lep.next`prev, ep1`prev, epN`next
    ensures Cyclic(Insert(r, k + 1, seg))
  {
    ep1.prev := lep;
    epN.next := lep.next;
    lep.next.prev := epN;
    lep.next := ep1;
    InsertCyclic(r, k + 1, seg);
  }

  /** The ring r without positions a to b - 1. */
  ghost function Delete(r: seq<Bucket>, a: nat, b: nat): seq<Bucket>
    requires 0 < a <= b <= |r|
  {
    r[..a] + r[b..]
  }

  lemma DeleteCyclic(r: seq<Bucket>, a: nat, b: nat)
    requires r != [] && NoDup(r) && 0 < a < b <= |r|
    requires NextBut(r, a - 1) && PrevBut(r, if b == |r| then 0 else b)
    requires r[a - 1].next == NextOf(r, b - 1) && NextOf(r, b - 1).prev == r[a - 1]
    ensures Cyclic(Delete(r, a, b)) && Segment(r[a..b]) && Disjoint(Delete(r, a, b), r[a..b])
  {
    var t := Delete(r, a, b);
    forall i | 0 <= i < |t|
      ensures t[i].next == NextOf(t, i) && t[i].prev == PrevOf(t, i)
    {
      if i < a {
        assert t[i] == r[i];
      } else {
        assert t[i] == r[i + (b - a)];
      }
    }
    var seg := r[a..b];
    forall i | 0 <= i < |seg|
      ensures i < |seg| - 1 ==> seg[i].next == NextOf(seg, i)
      ensures 0 < i ==> seg[i].prev == PrevOf(seg, i)
    {
      assert seg[i] == r[a + i];
    }
  }

  /** APR_RING_UNSPLICE. */
  method Unsplice(ep1: Bucket, epN: Bucket, ghost r: seq<Bucket>, ghost a: nat, ghost b: nat)
    requires Cyclic(r) && 0 < a < b <= |r| && ep1 == r[a] && epN == r[b - 1]
    modifies ep1.prev`next, epN.next`prev
    ensures Cyclic(Delete(r, a, b)) && Segment(r[a..b]) && Disjoint(Delete(r, a, b), r[a..b])
  {
    ep1.prev.next := epN.next;
    epN.next.prev := ep1.prev;
    DeleteCyclic(r, a, b);
  }

  /** APR_RING_INIT and APR_RING_ELEM_INIT: a ring of its own. */
  method Init(hp: Bucket)
    modifies hp`next, hp`prev
    ensures Cyclic([hp])
  {
    hp.next := hp;
    hp.prev := hp;
  }

  /** APR_RING_EMPTY. */
  method Empty(hp: Bucket, ghost r: seq<Bucket>) returns (empty: bool)
    requires Cyclic(r) && hp == r[0]
    ensures empty <==> |r| == 1
  {
    assert r[0].next == NextOf(r, 0);
    empty := hp.next == hp;
  }

  /** APR_RING_CONCAT. */
  method Concat(h1: Bucket, h2: Bucket, ghost r1: seq<Bucket>, ghost r2: seq<Bucket>)
    requires Cyclic(r1) && Cyclic(r2) && Disjoint(r1, r2) && h1 == r1[0] && h2 == r2[0]
    modifies r1`next, r1`prev, r2`next, r2`prev
    ensures Cyclic(r1 + r2[1..]) && Cyclic([h2])
  {
    var empty := Empty(h2, r2);
    ghost var t := r1 + r2[1..];
    if !empty {
      JoinAt(h1, h2, r1, r2, false);
      assert Insert(r1, |r1|, r2[1..]) == t;
      Init(h2);
    } else {
      assert t == r1 && r2 == [h2];
    }
  }

  /** The elements of r2 but its head go in behind the head of r1, or before it. */
  method JoinAt(h1: Bucket, h2: Bucket, ghost r1: seq<Bucket>, ghost r2: seq<Bucket>, front: bool)
    requires Cyclic(r1) && Cyclic(r2) && Disjoint(r1, r2) && h1 == r1[0] && h2 == r2[0] && |r2| > 1
    modifies r1`next, r1`prev, r2`next, r2`prev
    ensures Cyclic(Insert(r1, if front then 1 else |r1|, r2[1..]))
  {
    hide Insert;
    ghost var n := |r2|;
    assert r2[1..n] == r2[1..];
    assert r2[0].next == r2[1..][0] && r2[0].prev == r2[1..][n - 2];
    if front {
      SpliceAfter(h1, h2.next, h2.prev, r1, 0, r2[1..]);
    } else {
      SpliceBefore(h1, h2.next, h2.prev, r1, 0, r2[1..]);
    }
  }

  /** APR_RING_PREPEND. */
  method Prepend(h1: Bucket, h2: Bucket, ghost r1: seq<Bucket>, ghost r2: seq<Bucket>)
    requires Cyclic(r1) && Cyclic(r2) && Disjoint(r1, r2) && h1 == r1[0] && h2 == r2[0]
    modifies r1`next, r1`prev, r2`next, r2`prev
    ensures Cyclic([h1] + r2[1..] + r1[1..]) && Cyclic([h2])
  {
    var empty := Empty(h2, r2);
    ghost var t := [h1] + r2[1..] + r1[1..];
    if !empty {
      JoinAt(h1, h2, r1, r2, true);
      assert Insert(r1, 1, r2[1..]) == t;
      Init(h2);
    } else {
      assert t == r1 && r2 == [h2];
    }
  }
}
