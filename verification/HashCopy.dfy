// Copying a table: new entries in the same chains, in the same order.
module HashCopy {
  import opened Bits
  import opened HashTables
  import opened HashMerge
  import opened Seqs

  /** The first k chains of b hold the keys of those of a in the same order, and the others are still empty. */
  ghost predicate Copied(a: seq<seq<Link>>, b: seq<seq<Link>>, k: nat)
    requires k <= |a| == |b|
  {
    && (forall i :: 0 <= i < k ==> KeySeq(b[i]) == KeySeq(a[i]))
    && (forall i :: k <= i < |b| ==> b[i] == [])
  }

  /** The same with the first m links of chain k. */
  ghost predicate Copying(a: seq<seq<Link>>, b: seq<seq<Link>>, k: nat, m: nat)
    requires k < |a| == |b| && m <= |a[k]|
  {
    && (forall i :: 0 <= i < k ==> KeySeq(b[i]) == KeySeq(a[i]))
    && KeySeq(b[k]) == KeySeq(a[k][..m])
    && (forall i :: k < i < |b| ==> b[i] == [])
  }

  lemma CopyingStart(a: seq<seq<Link>>, b: seq<seq<Link>>, k: nat)
    requires k < |a| == |b| && Copied(a, b, k)
    ensures Copying(a, b, k, 0) && b[k] == []
  {
  }

  lemma CopyingEnd(a: seq<seq<Link>>, b: seq<seq<Link>>, k: nat)
    requires k < |a| == |b| && Copying(a, b, k, |a[k]|)
    ensures Copied(a, b, k + 1)
  {
    assert a[k][..|a[k]|] == a[k];
  }

  lemma CopyingNext(a: seq<seq<Link>>, b: seq<seq<Link>>, k: nat, m: nat, l: Link)
    requires k < |a| == |b| && m < |a[k]| && Copying(a, b, k, m) && l.key == a[k][m].key
    ensures |b[k]| == m && Copying(a, b[k := b[k] + [l]], k, m + 1)
  {
    KeySeqNext(a[k], m);
    assert |KeySeq(b[k])| == |b[k]| && |KeySeq(a[k][..m])| == m;
    assert KeySeq(b[k] + [l]) == KeySeq(b[k]) + [l.key];
  }

  /** The keys of chain k belong there. */
  lemma ChainSlot(t: HashTable, k: nat, m: nat)
    requires t.Core() && k <= t.max && m < |t.g.order[k]|
    ensures t.Bucket(t.g.order[k][m].key) == k
  {
    hide Slot, Hash, IsMask;
    LayoutAt(t.g.order, t.g.cells, t.hashFunc, t.max, k, m);
  }

  /** One more entry at the end of chain k. */
  method CopyEntry(res: HashTable, key: Key, hash: Word, val: Pointer, k: nat, prev: Entry?) returns (e: Entry)
    requires res.Core() && key !in res.g.cells && hash == Hash(res.hashFunc, key)
    requires k == res.Bucket(key) && k < |res.g.order|
    requires prev == if res.g.order[k] == [] then null else res.g.order[k][|res.g.order[k]| - 1].node
    modifies res`count, res`g, res.buckets, res.g.nodes
    ensures res.Core() && fresh(e) && res.g.nodes == old(res.g.nodes) + {e}
    ensures res.g.order == old(res.g.order[k := res.g.order[k] + [Link(e, key)]])
    ensures Values(res.g.cells) == old(Values(res.g.cells))[key := val]
  {
    hide Slot, Hash, IsMask, Values, Layout, Sound, Entries, Chains, FreeList, HashTable.Built;
    e := new Entry.Of(hash, key, val, null);
    ghost var g, j := res.g, |res.g.order[k]|;
    ValuesUpdate(g.cells, key, Cell(val, j));
    res.Attach(e, k, prev, j);
    assert res.g == Appended(g, k, Link(e, key), val);
  }

  /** One turn of the inner loop of apr_hash_copy. */
  method CopyLink(res: HashTable, orig: HashTable, k: nat, iter: Entry, prev: Entry?, ghost rest: seq<Link>,
                  ghost m: nat, ghost done: nat)
    returns (e: Entry)
    requires orig.Core() && res.Core() && res.hashFunc == orig.hashFunc && res.max == orig.max && Apart(res, orig)
    requires k <= orig.max && |res.g.order| == |orig.g.order| == orig.max + 1
    requires m <= |orig.g.order[k]| && rest == orig.g.order[k][m..] && Walk(orig, done, k + 1, iter, rest)
    requires Copying(orig.g.order, res.g.order, k, m)
    requires prev == if res.g.order[k] == [] then null else res.g.order[k][|res.g.order[k]| - 1].node
    requires done <= |Flatten(orig.g.order)|
    requires Values(res.g.cells) == Restrict(Values(orig.g.cells), KeysOf(Flatten(orig.g.order)[..done]))
    modifies res`count, res`g, res.buckets, res.g.nodes
    ensures orig.Core() && res.Core() && Apart(res, orig) && fresh(res.g.nodes - old(res.g.nodes))
    ensures |res.g.order| == |orig.g.order| && m < |orig.g.order[k]| && Copying(orig.g.order, res.g.order, k, m + 1)
    ensures res.g.order[k] != [] && e == res.g.order[k][|res.g.order[k]| - 1].node
    ensures done < |Flatten(orig.g.order)| && rest != [] && Walk(orig, done + 1, k + 1, iter.next, rest[1..])
    ensures Values(res.g.cells) == Restrict(Values(orig.g.cells), KeysOf(Flatten(orig.g.order)[..done + 1]))
  {
    hide IsMask, Values, Hash, Slot, Flatten, KeysOf, Restrict, Walk, Linked, Copied, Copying, HashTable.Built,
      DistinctKeys, KeySeq;
    ghost var all, was := Flatten(orig.g.order), res.g.order;
    OrigKeys(orig);
    WalkNext(orig, done, k + 1, iter, rest);
    ChainSlot(orig, k, m);
    NewKey(all, done);
    KeysOfNext(all, done);
    ValuesKeys(res.g.cells);
    RestrictNext(Values(orig.g.cells), KeysOf(all[..done]), iter.key);
    ghost var key := iter.key;
    WalkNode(orig, done, k + 1, iter, rest);
    e := CopyEntry(res, iter.key, iter.hash, iter.val, k, prev);
    CopyingNext(orig.g.order, was, k, m, Link(e, key));
  }

  lemma WalkNode(t: HashTable, done: nat, k: nat, iter: Entry, rest: seq<Link>)
    requires Walk(t, done, k, iter, rest)
    ensures iter in t.g.nodes
  {
  }

  lemma OrigKeys(orig: HashTable)
    requires orig.Core()
    ensures DistinctKeys(Flatten(orig.g.order)) && KeysOf(Flatten(orig.g.order)) == Values(orig.g.cells).Keys
  {
    hide Flatten, DistinctKeys, KeysOf;
    FlattenCount(orig.g, orig.hashFunc, orig.max);
    ValuesKeys(orig.g.cells);
  }

  /** Chain k of apr_hash_copy. */
  method CopyChain(res: HashTable, orig: HashTable, k: nat, ghost done: nat) returns (ghost done': nat)
    requires orig.Core() && res.Core() && res.hashFunc == orig.hashFunc && res.max == orig.max && Apart(res, orig)
    requires k <= orig.max && |res.g.order| == |orig.g.order| == orig.max + 1
    requires Walk(orig, done, k, null, []) && done <= |Flatten(orig.g.order)|
    requires Copied(orig.g.order, res.g.order, k)
    requires Values(res.g.cells) == Restrict(Values(orig.g.cells), KeysOf(Flatten(orig.g.order)[..done]))
    modifies res`count, res`g, res.buckets, res.g.nodes
    ensures orig.Core() && res.Core() && Apart(res, orig) && fresh(res.g.nodes - old(res.g.nodes))
    ensures |res.g.order| == |orig.g.order| && Copied(orig.g.order, res.g.order, k + 1)
    ensures Walk(orig, done', k + 1, null, []) && done' <= |Flatten(orig.g.order)|
    ensures Values(res.g.cells) == Restrict(Values(orig.g.cells), KeysOf(Flatten(orig.g.order)[..done']))
  {
    hide IsMask, Values, Hash, Slot, Flatten, KeysOf, Restrict, Walk, Copied, Copying, HashTable.Built;
    WalkOpen(orig, done, k);
    CopyingStart(orig.g.order, res.g.order, k);
    ghost var chain := orig.g.order[k];
    var iter := orig.buckets[k];
    ghost var rest := chain;
    var prev: Entry? := null;
    done' := done;
    ghost var m := 0;
    while iter != null
      invariant orig.Core() && res.Core() && Apart(res, orig) && fresh(res.g.nodes - old(res.g.nodes))
      invariant m <= |chain| && rest == chain[m..] && Walk(orig, done', k + 1, iter, rest)
      invariant |res.g.order| == |orig.g.order| && Copying(orig.g.order, res.g.order, k, m)
      invariant prev == if res.g.order[k] == [] then null else res.g.order[k][|res.g.order[k]| - 1].node
      invariant done' <= |Flatten(orig.g.order)|
      invariant Values(res.g.cells) == Restrict(Values(orig.g.cells), KeysOf(Flatten(orig.g.order)[..done']))
      decreases |rest|
    {
      prev := CopyLink(res, orig, k, iter, prev, rest, m, done');
      iter, rest := iter.next, rest[1..];
      done', m := done' + 1, m + 1;
    }
    WalkNone(orig, done', k + 1, rest);
    CopyingEnd(orig.g.order, res.g.order, k);
  }

  lemma WalkNone(t: HashTable, done: nat, k: nat, rest: seq<Link>)
    requires Walk(t, done, k, null, rest)
    ensures rest == []
  {
  }

  /** apr_hash_copy: the same map, the same order of iteration, and nothing shared with the original. */
  method Copy(orig: HashTable) returns (res: HashTable)
    requires orig.Valid()
    ensures fresh(res) && fresh(res.buckets) && fresh(res.g.nodes) && fresh(res.cursor)
    ensures res.Valid() && res.hashFunc == orig.hashFunc && res.max == orig.max && res.free == null
    ensures res.Model() == orig.Model() && res.count == orig.count
    ensures KeySeq(Flatten(res.g.order)) == KeySeq(Flatten(orig.g.order))
  {
    hide IsMask, Values, Hash, Slot, Flatten, KeysOf, Restrict, Walk, Copied, KeySeq, HashTable.Built;
    Masked(orig);
    res := new HashTable.Sized(orig.hashFunc, orig.max);
    CopyStart(orig, res);
    CopyAll(res, orig);
  }

  /** The outer loop of apr_hash_copy. */
  method CopyAll(res: HashTable, orig: HashTable)
    requires orig.Core() && res.Core() && res.hashFunc == orig.hashFunc && res.max == orig.max && Apart(res, orig)
    requires |res.g.order| == |orig.g.order| == orig.max + 1
    requires Walk(orig, 0, 0, null, []) && Copied(orig.g.order, res.g.order, 0)
    requires Values(res.g.cells) == Restrict(Values(orig.g.cells), KeysOf(Flatten(orig.g.order)[..0]))
    modifies res`count, res`g, res.buckets, res.g.nodes
    ensures res.Core() && fresh(res.g.nodes - old(res.g.nodes))
    ensures res.Model() == orig.Model() && res.count == orig.count
    ensures KeySeq(Flatten(res.g.order)) == KeySeq(Flatten(orig.g.order))
  {
    hide IsMask, Values, Hash, Slot, Flatten, KeysOf, Restrict, Walk, Copied, KeySeq, HashTable.Built;
    ghost var done: nat := 0;
    for k := 0 to orig.max + 1
      invariant orig.Core() && res.Core() && Apart(res, orig) && fresh(res.g.nodes - old(res.g.nodes))
      invariant |res.g.order| == |orig.g.order| == orig.max + 1 && Copied(orig.g.order, res.g.order, k)
      invariant Walk(orig, done, k, null, []) && done <= |Flatten(orig.g.order)|
      invariant Values(res.g.cells) == Restrict(Values(orig.g.cells), KeysOf(Flatten(orig.g.order)[..done]))
    {
      done := CopyChain(res, orig, k, done);
    }
    CopyDone(orig, res, done);
  }

  lemma Masked(t: HashTable)
    requires t.Core()
    ensures IsMask(t.max) && |t.g.order| == t.max + 1
  {
  }

  lemma CopyStart(orig: HashTable, res: HashTable)
    requires orig.Core() && res.g.cells == map[] && |res.g.order| == |orig.g.order|
    requires forall i :: 0 <= i < |res.g.order| ==> res.g.order[i] == []
    ensures Copied(orig.g.order, res.g.order, 0) && Walk(orig, 0, 0, null, [])
    ensures Values(res.g.cells) == Restrict(Values(orig.g.cells), KeysOf(Flatten(orig.g.order)[..0]))
  {
    WalkStart(orig);
    KeysOfNone(Flatten(orig.g.order));
    RestrictEnds(Values(orig.g.cells));
    ValuesNone();
  }

  lemma CopyDone(orig: HashTable, res: HashTable, done: nat)
    requires orig.Core() && res.Core() && |res.g.order| == |orig.g.order| == orig.max + 1
    requires Copied(orig.g.order, res.g.order, orig.max + 1) && Walk(orig, done, orig.max + 1, null, [])
    requires done <= |Flatten(orig.g.order)|
    requires Values(res.g.cells) == Restrict(Values(orig.g.cells), KeysOf(Flatten(orig.g.order)[..done]))
    ensures res.Model() == orig.Model() && res.count == orig.count
    ensures KeySeq(Flatten(res.g.order)) == KeySeq(Flatten(orig.g.order))
  {
    hide IsMask, Values, Hash, Slot, Flatten, KeysOf, Restrict, KeySeq, HashTable.Built;
    WalkEnd(orig, done, orig.max + 1);
    ghost var all := Flatten(orig.g.order);
    assert all[..done] == all;
    OrigKeys(orig);
    RestrictEnds(Values(orig.g.cells));
    ValuesKeys(orig.g.cells);
    ValuesKeys(res.g.cells);
    KeySeqFlatten(orig.g.order, res.g.order);
  }

  lemma {:induction false} KeySeqFlatten(a: seq<seq<Link>>, b: seq<seq<Link>>)
    requires |a| == |b| && forall i :: 0 <= i < |a| ==> KeySeq(b[i]) == KeySeq(a[i])
    ensures KeySeq(Flatten(b)) == KeySeq(Flatten(a))
  {
    if a != [] {
      KeySeqFlatten(a[1..], b[1..]);
      KeySeqConcat(a[0], Flatten(a[1..]));
      KeySeqConcat(b[0], Flatten(b[1..]));
    }
  }

  lemma KeySeqConcat(s: seq<Link>, t: seq<Link>)
    ensures KeySeq(s + t) == KeySeq(s) + KeySeq(t)
  {
  }
}
