// Merging two tables into a third.
module HashMerge {
  import opened Bits
  import opened HashTables
  import opened Seqs

  /** A nested loop over the chains of t stands before the entry iter, with rest left in the open chain. */
  ghost predicate Walk(t: HashTable, done: nat, k: nat, iter: Entry?, rest: seq<Link>)
    reads t, t.buckets, t.g.nodes
  {
    && k <= |t.g.order| && done <= |Flatten(t.g.order)|
    && Linked(iter, rest, t.g.nodes)
    && (forall i :: 0 <= i < |rest| ==> Holds(rest[i], t.hashFunc, t.g.cells))
    && Flatten(t.g.order)[done..] == rest + Flatten(t.g.order[k..])
  }

  lemma WalkStart(t: HashTable)
    requires t.Core()
    ensures Walk(t, 0, 0, null, [])
  {
    assert t.g.order[0..] == t.g.order;
  }

  lemma WalkOpen(t: HashTable, done: nat, k: nat)
    requires t.Core() && Walk(t, done, k, null, []) && k <= t.max
    ensures k < t.buckets.Length && k < |t.g.order| && Walk(t, done, k + 1, t.buckets[k], t.g.order[k])
  {
    hide Slot, Hash, IsMask, Layout, FreeList;
    assert t.g.order[k..] == [t.g.order[k]] + t.g.order[k + 1..];
  }

  lemma WalkNext(t: HashTable, done: nat, k: nat, iter: Entry, rest: seq<Link>)
    requires t.Core() && Walk(t, done, k, iter, rest)
    ensures rest != [] && done < |Flatten(t.g.order)| && Flatten(t.g.order)[done] == rest[0]
    ensures iter.key == rest[0].key && iter.hash == Hash(t.hashFunc, iter.key)
    ensures iter.key in Values(t.g.cells) && iter.val == Values(t.g.cells)[iter.key]
    ensures Walk(t, done + 1, k, iter.next, rest[1..])
  {
    hide Slot, Hash, IsMask, Layout, FreeList, Flatten;
    var all := Flatten(t.g.order);
    assert rest[0] == all[done..][0];
    assert all[done + 1..] == all[done..][1..] == rest[1..] + Flatten(t.g.order[k..]);
  }

  lemma WalkEnd(t: HashTable, done: nat, k: nat)
    requires t.Core() && Walk(t, done, k, null, []) && k == t.max + 1
    ensures done == |Flatten(t.g.order)|
  {
    assert t.g.order[k..] == [];
  }

  /** The merger callback; without one the overlay's value wins. */
  datatype Merger = NoMerger | Merger(f: (Key, Pointer, Pointer) -> Pointer)

  /** The value of a key that both tables hold. */
  function Merged(m: Merger, k: Key, overlay: Pointer, base: Pointer): Pointer {
    match m
    case NoMerger => overlay
    case Merger(f) => f(k, overlay, base)
  }

  /** What merging two maps should give. */
  ghost function Union(B: map<Key, Pointer>, O: map<Key, Pointer>, m: Merger): map<Key, Pointer> {
    map k | k in B.Keys + O.Keys ::
      if k !in O then B[k] else if k in B then Merged(m, k, O[k], B[k]) else O[k]
  }

  /**
   * The keys of both; what only one holds keeps its value, and what both hold has what the callback makes of the key,
   * the overlay's value and the base's value, in that order, or the overlay's value if there is no callback.
   */
  ghost predicate MergedBy(all: map<Key, Pointer>, O: map<Key, Pointer>, B: map<Key, Pointer>, m: Merger) {
    && all.Keys == O.Keys + B.Keys
    && (forall k :: k in O && k !in B ==> all[k] == O[k])
    && (forall k :: k in B && k !in O ==> all[k] == B[k])
    && (forall k :: k in O && k in B ==> all[k] == if m.Merger? then m.f(k, O[k], B[k]) else O[k])
  }

  lemma UnionMerges(B: map<Key, Pointer>, O: map<Key, Pointer>, m: Merger)
    ensures MergedBy(Union(B, O, m), O, B, m)
  {
  }

  ghost function Restrict(M: map<Key, Pointer>, ks: set<Key>): map<Key, Pointer> {
    map k | k in M && k in ks :: M[k]
  }

  lemma UnionNone(B: map<Key, Pointer>, O: map<Key, Pointer>, m: Merger)
    ensures Union(B, Restrict(O, {}), m) == B
  {
  }

  lemma UnionNext(B: map<Key, Pointer>, O: map<Key, Pointer>, m: Merger, ks: set<Key>, k: Key)
    requires k in O && k !in ks
    ensures var u := Union(B, Restrict(O, ks), m);
      && (k in u <==> k in B) && (k in B ==> u[k] == B[k])
      && Union(B, Restrict(O, ks + {k}), m) == u[k := if k in B then Merged(m, k, O[k], B[k]) else O[k]]
  {
    hide Merged;
  }

  lemma UnionAll(B: map<Key, Pointer>, O: map<Key, Pointer>, m: Merger)
    ensures Union(B, Restrict(O, O.Keys), m) == Union(B, O, m)
  {
    assert Restrict(O, O.Keys) == O;
  }

  lemma RestrictNext(M: map<Key, Pointer>, ks: set<Key>, k: Key)
    requires k in M && k !in ks
    ensures k !in Restrict(M, ks) && Restrict(M, ks + {k}) == Restrict(M, ks)[k := M[k]]
  {
  }

  lemma RestrictEnds(M: map<Key, Pointer>)
    ensures Restrict(M, {}) == map[] && Restrict(M, M.Keys) == M
  {
  }

  /** A union is no larger than its parts together. */
  lemma UnionSize(B: map<Key, Pointer>, O: map<Key, Pointer>, m: Merger)
    ensures |Union(B, O, m)| <= |B| + |O|
  {
    hide Merged;
    var u := Union(B, O, m);
    assert u.Keys == B.Keys + O.Keys;
    assert |u.Keys| == |u| && |B.Keys| == |B| && |O.Keys| == |O|;
    assert B.Keys + O.Keys == B.Keys + (O.Keys - B.Keys);
    SubsetSize(O.Keys - B.Keys, O.Keys);
  }

  lemma SubsetSize<T>(a: set<T>, b: set<T>)
    requires a <= b
    ensures |a| <= |b|
  {
    assert b == a + (b - a);
  }

  /** new_vals[j], put in front of chain i. */
  method Push(res: HashTable, key: Key, hash: Word, val: Pointer, j: nat, capacity: nat)
    requires res.Built() && key !in res.g.cells && hash == Hash(res.hashFunc, key)
    requires j < capacity
    modifies res`g, res.buckets
    ensures res.Built() && fresh(res.g.nodes - old(res.g.nodes))
    ensures Values(res.g.cells) == old(Values(res.g.cells))[key := val]
    ensures |res.g.cells| == old(|res.g.cells|) + 1
  {
    hide IsMask, Values, Layout, InFront, Hash, And;
    var i := And(hash, res.max);
    var e := new Entry.Of(hash, key, val, res.buckets[i]);
    ghost var l := Link(e, key);
    ghost var owned := res.g.(nodes := res.g.nodes + {e});
    assert e !in res.g.nodes;
    res.buckets[i] := e;
    PushChains(owned, res.hashFunc, res.max, l, res.buckets[..], i);
    ValuesInFront(res.g.cells, res.hashFunc, res.max, key, val);
    res.g := Prepended(owned, res.hashFunc, res.max, l, val);
  }

  /** The inner loop over one chain of base; every key met is new to the result. */
  method AddChain(res: HashTable, base: HashTable, k: nat, j: nat, capacity: nat, ghost done: nat)
    returns (j': nat, ghost done': nat)
    requires base.Core() && res.Built() && res.hashFunc == base.hashFunc && Apart(res, base)
    requires k <= base.max && Walk(base, done, k, null, []) && capacity >= |base.g.cells|
    requires done <= |Flatten(base.g.order)|
    requires Values(res.g.cells) == Restrict(Values(base.g.cells), KeysOf(Flatten(base.g.order)[..done]))
    requires |res.g.cells| == j == done
    modifies res`g, res.buckets
    ensures res.Built() && Apart(res, base) && Walk(base, done', k + 1, null, [])
    ensures done' <= |Flatten(base.g.order)|
    ensures Values(res.g.cells) == Restrict(Values(base.g.cells), KeysOf(Flatten(base.g.order)[..done']))
    ensures |res.g.cells| == j' == done' && fresh(res.g.nodes - old(res.g.nodes))
  {
    hide IsMask, Values, Hash, Slot, Layout, Sound, Entries, Chains, FreeList, Flatten, KeysOf, Restrict, Walk, Linked;
    WalkOpen(base, done, k);
    ghost var all := Flatten(base.g.order);
    FlattenCount(base.g, base.hashFunc, base.max);
    ValuesKeys(base.g.cells);
    var iter := base.buckets[k];
    ghost var rest := base.g.order[k];
    j', done' := j, done;
    while iter != null
      invariant res.Built() && Apart(res, base) && Walk(base, done', k + 1, iter, rest)
      invariant done' <= |all| && Values(res.g.cells) == Restrict(Values(base.g.cells), KeysOf(all[..done']))
      invariant |res.g.cells| == j' == done' && fresh(res.g.nodes - old(res.g.nodes))
      decreases |rest|
    {
      WalkNext(base, done', k + 1, iter, rest);
      NewKey(all, done');
      KeysOfNext(all, done');
      ValuesKeys(res.g.cells);
      RestrictNext(Values(base.g.cells), KeysOf(all[..done']), iter.key);
      Push(res, iter.key, iter.hash, iter.val, j', capacity);
      iter, rest := iter.next, rest[1..];
      j', done' := j' + 1, done' + 1;
    }
    WalkShut(base, done', k + 1, rest);
  }

  /** Two tables that share no memory. */
  ghost predicate Apart(a: HashTable, b: HashTable)
    reads a, b
  {
    a != b && a.buckets != b.buckets && a.g.nodes !! b.g.nodes
  }

  lemma NewKey(all: seq<Link>, n: nat)
    requires DistinctKeys(all) && n < |all|
    ensures all[n].key !in KeysOf(all[..n]) && all[n].key in KeysOf(all)
  {
  }

  lemma WalkShut(t: HashTable, done: nat, k: nat, rest: seq<Link>)
    requires Walk(t, done, k, null, rest)
    ensures Walk(t, done, k, null, [])
  {
    assert rest == [];
  }

  /** The hash function of t and f agree on the keys of t. */
  ghost predicate Agreeing(t: HashTable, f: Key -> Word)
    reads t`g
  {
    forall k :: k in Values(t.g.cells) ==> Hash(t.hashFunc, k) == Hash(f, k)
  }

  lemma AgreeAt(t: HashTable, f: Key -> Word, k: Key)
    requires Agreeing(t, f) && k in Values(t.g.cells)
    ensures Hash(t.hashFunc, k) == Hash(f, k)
  {
  }

  /** The search of apr_hash_merge, which compares keys only. */
  method FindKey(res: HashTable, i: nat, key: Key) returns (ent: Entry?)
    requires res.Built() && i == res.Bucket(key)
    ensures ent == null <==> key !in Values(res.g.cells)
    ensures ent != null ==>
      && key in res.g.cells && Located(res.g.order, res.g.cells, res.hashFunc, res.max, key)
      && ent == res.g.order[i][res.g.cells[key].pos].node && ent.val == Values(res.g.cells)[key] && ent in res.g.nodes
  {
    hide IsMask, Slot, Hash;
    ghost var j := 0;
    ghost var chain := res.g.order[i];
    ent := res.buckets[i];
    while ent != null && ent.key != key
      invariant j <= |chain| && ent == NodeAt(chain, j)
      invariant forall m :: 0 <= m < j ==> chain[m].key != key
      decreases |chain| - j
    {
      EntryAt(res.g, res.hashFunc, res.max, i, j);
      assert ent == chain[j].node;
      ent := ent.next;
      j := j + 1;
    }
    assert key in res.g.cells ==> Located(res.g.order, res.g.cells, res.hashFunc, res.max, key);
    if ent != null {
      EntryAt(res.g, res.hashFunc, res.max, i, j);
      LayoutAt(res.g.order, res.g.cells, res.hashFunc, res.max, i, j);
    }
  }

  /** One entry of the overlay. */
  method MergeEntry(res: HashTable, key: Key, hash: Word, val: Pointer, m: Merger, j: nat, capacity: nat)
    returns (j': nat)
    requires res.Core() && hash == Hash(res.hashFunc, key) && j < capacity && j == |res.g.cells|
    modifies res`g, res`count, res.buckets, res.g.nodes`val
    ensures res.Core() && fresh(res.g.nodes - old(res.g.nodes)) && j' == |res.g.cells| <= j + 1
    ensures Values(res.g.cells) == old(Values(res.g.cells)[key :=
      if key in Values(res.g.cells) then Merged(m, key, val, Values(res.g.cells)[key]) else val])
  {
    hide IsMask, Values, Hash, And, Layout, Sound, Entries, Chains, FreeList, Merged, Located;
    var i := And(hash, res.max);
    var ent := FindKey(res, i, key);
    j' := j;
    if ent != null {
      var v := Merged(m, key, val, ent.val);
      ValuesUpdate(res.g.cells, key, res.g.cells[key].(val := v));
      res.Overwrite(ent, key, v);
    } else {
      ValuesKeys(res.g.cells);
      Push(res, key, hash, val, j, capacity);
      res.count := res.count + 1;
      j' := j + 1;
    }
  }

  /** The inner loop over one chain of the overlay. */
  method MergeChain(res: HashTable, overlay: HashTable, k: nat, m: Merger, j: nat, capacity: nat,
                    ghost B: map<Key, Pointer>, ghost done: nat)
    returns (j': nat, ghost done': nat)
    requires overlay.Core() && res.Core() && Agreeing(overlay, res.hashFunc) && Apart(res, overlay)
    requires k <= overlay.max && Walk(overlay, done, k, null, []) && capacity == |B| + |overlay.g.cells|
    requires done <= |Flatten(overlay.g.order)|
    requires Values(res.g.cells) ==
      Union(B, Restrict(Values(overlay.g.cells), KeysOf(Flatten(overlay.g.order)[..done])), m)
    requires |res.g.cells| == j <= |B| + done
    modifies res`g, res`count, res.buckets, res.g.nodes
    ensures res.Core() && Apart(res, overlay) && overlay.Core() && Walk(overlay, done', k + 1, null, [])
    ensures done' <= |Flatten(overlay.g.order)|
    ensures Values(res.g.cells) ==
      Union(B, Restrict(Values(overlay.g.cells), KeysOf(Flatten(overlay.g.order)[..done'])), m)
    ensures |res.g.cells| == j' <= |B| + done' && fresh(res.g.nodes - old(res.g.nodes))
  {
    hide IsMask, Values, Hash, Slot, Layout, Sound, Entries, Chains, FreeList, Flatten, KeysOf, Restrict, Walk, Linked,
      Union, Merged, Agreeing;
    WalkOpen(overlay, done, k);
    ghost var all, O := Flatten(overlay.g.order), Values(overlay.g.cells);
    FlattenCount(overlay.g, overlay.hashFunc, overlay.max);
    ValuesKeys(overlay.g.cells);
    var iter := overlay.buckets[k];
    ghost var rest := overlay.g.order[k];
    j', done' := j, done;
    while iter != null
      invariant res.Core() && Apart(res, overlay) && overlay.Core() && Walk(overlay, done', k + 1, iter, rest)
      invariant done' <= |all| && Values(res.g.cells) == Union(B, Restrict(O, KeysOf(all[..done'])), m)
      invariant |res.g.cells| == j' <= |B| + done' && fresh(res.g.nodes - old(res.g.nodes))
      decreases |rest|
    {
      WalkNext(overlay, done', k + 1, iter, rest);
      NewKey(all, done');
      KeysOfNext(all, done');
      UnionNext(B, O, m, KeysOf(all[..done']), iter.key);
      AgreeAt(overlay, res.hashFunc, iter.key);
      j' := MergeEntry(res, iter.key, iter.hash, iter.val, m, j', capacity);
      iter, rest := iter.next, rest[1..];
      done' := done' + 1;
    }
    WalkShut(overlay, done', k + 1, rest);
  }

  /** apr_hash_merge. Doubling once, when the larger array is too small for both, always suffices. */
  method Merge(overlay: HashTable, base: HashTable, m: Merger) returns (res: HashTable)
    requires overlay.Valid() && base.Valid() && Agreeing(overlay, base.hashFunc)
    requires base.count + overlay.count <= base.max || base.max < 0x7fff_ffff
    requires base.count + overlay.count <= overlay.max || overlay.max < 0x7fff_ffff
    ensures fresh(res) && fresh(res.buckets) && fresh(res.g.nodes) && fresh(res.cursor)
    ensures res.Valid() && res.hashFunc == base.hashFunc
    ensures res.Model() == Union(base.Model(), overlay.Model(), m) && res.count == |res.Model()|
    ensures MergedBy(res.Model(), overlay.Model(), base.Model(), m)
  {
    hide IsMask, Values, Hash, Slot, Layout, Sound, Entries, Chains, FreeList, Flatten, KeysOf, Restrict, Walk, Union,
      Merged, MergedBy;
    var max := if overlay.max > base.max then overlay.max else base.max;
    if base.count + overlay.count > max {
      MaskDouble(max);
      max := max * 2 + 1;
    }
    var capacity := base.count + overlay.count;
    ghost var B, O := Values(base.g.cells), Values(overlay.g.cells);
    var j;
    res, j := CopyBase(base, max, capacity);
    ValuesKeys(base.g.cells);
    j := MergeAll(res, overlay, m, j, capacity, B);
    UnionSize(B, O, m);
    UnionMerges(B, O, m);
    ValuesKeys(overlay.g.cells);
    ValuesKeys(res.g.cells);
  }

  /** The first half of apr_hash_merge: a table of size max with the entries of base. */
  method CopyBase(base: HashTable, max: nat, capacity: nat) returns (res: HashTable, j: nat)
    requires base.Core() && IsMask(max) && capacity >= |base.g.cells|
    ensures fresh(res) && fresh(res.buckets) && fresh(res.g.nodes) && fresh(res.cursor)
    ensures res.Core() && res.hashFunc == base.hashFunc && res.max == max
    ensures Values(res.g.cells) == Values(base.g.cells) && |res.g.cells| == j == |base.g.cells|
  {
    hide IsMask, Values, Hash, Slot, Layout, Sound, Entries, Chains, FreeList;
    res := new HashTable.Sized(base.hashFunc, max);
    res.count := base.count;
    j := AddAll(res, base, capacity);
  }

  lemma MaskDouble(max: nat)
    requires IsMask(max)
    ensures IsMask(2 * max + 1)
  {
    assert (2 * max + 1) / 2 == max;
  }

  method AddAll(res: HashTable, base: HashTable, capacity: nat) returns (j: nat)
    requires base.Core() && res.Built() && res.hashFunc == base.hashFunc && Apart(res, base)
    requires res.g.cells == map[] && capacity >= |base.g.cells|
    modifies res`g, res.buckets
    ensures res.Built() && fresh(res.g.nodes - old(res.g.nodes))
    ensures Values(res.g.cells) == Values(base.g.cells) && |res.g.cells| == j == |base.g.cells|
  {
    hide IsMask, Values, Hash, Slot, Layout, Sound, Entries, Chains, FreeList, Flatten, KeysOf, Restrict, Walk;
    WalkStart(base);
    ghost var all := Flatten(base.g.order);
    ghost var done: nat := 0;
    KeysOfNone(all);
    RestrictEnds(Values(base.g.cells));
    ValuesNone();
    FlattenCount(base.g, base.hashFunc, base.max);
    ValuesKeys(base.g.cells);
    var k := 0;
    j := 0;
    while k <= base.max
      invariant k <= base.max + 1 && res.Built() && Apart(res, base) && Walk(base, done, k, null, [])
      invariant done <= |all| && Values(res.g.cells) == Restrict(Values(base.g.cells), KeysOf(all[..done]))
      invariant |res.g.cells| == j == done && fresh(res.g.nodes - old(res.g.nodes))
    {
      j, done := AddChain(res, base, k, j, capacity, done);
      k := k + 1;
    }
    WalkEnd(base, done, k);
    assert all[..done] == all;
  }

  lemma ValuesNone()
    ensures Values(map[]) == map[]
  {
  }

  method MergeAll(res: HashTable, overlay: HashTable, m: Merger, j0: nat, capacity: nat, ghost B: map<Key, Pointer>)
    returns (j: nat)
    requires overlay.Core() && res.Core() && Agreeing(overlay, res.hashFunc) && Apart(res, overlay)
    requires capacity == |B| + |overlay.g.cells| && Values(res.g.cells) == B && |res.g.cells| == j0 == |B|
    modifies res`g, res`count, res.buckets, res.g.nodes
    ensures res.Core() && overlay.Core() && fresh(res.g.nodes - old(res.g.nodes))
    ensures Values(res.g.cells) == Union(B, Values(overlay.g.cells), m) && j <= capacity
  {
    hide IsMask, Values, Hash, Slot, Layout, Sound, Entries, Chains, FreeList, Flatten, KeysOf, Restrict, Walk, Union,
      Merged, Agreeing;
    WalkStart(overlay);
    ghost var all, O := Flatten(overlay.g.order), Values(overlay.g.cells);
    ghost var done: nat := 0;
    KeysOfNone(all);
    UnionNone(B, O, m);
    UnionAll(B, O, m);
    FlattenCount(overlay.g, overlay.hashFunc, overlay.max);
    ValuesKeys(overlay.g.cells);
    var k := 0;
    j := j0;
    while k <= overlay.max
      invariant k <= overlay.max + 1 && res.Core() && overlay.Core() && Apart(res, overlay)
      invariant Walk(overlay, done, k, null, [])
      invariant done <= |all| && Values(res.g.cells) == Union(B, Restrict(O, KeysOf(all[..done])), m)
      invariant |res.g.cells| == j <= |B| + done && fresh(res.g.nodes - old(res.g.nodes))
    {
      j, done := MergeChain(res, overlay, k, m, j, capacity, B, done);
      k := k + 1;
    }
    WalkEnd(overlay, done, k);
    assert all[..done] == all;
  }

  /** apr_hash_overlay: the overlay's values win. */
  method Overlay(overlay: HashTable, base: HashTable) returns (res: HashTable)
    requires overlay.Valid() && base.Valid() && Agreeing(overlay, base.hashFunc)
    requires base.count + overlay.count <= base.max || base.max < 0x7fff_ffff
    requires base.count + overlay.count <= overlay.max || overlay.max < 0x7fff_ffff
    ensures fresh(res) && res.Valid() && res.Model() == base.Model() + overlay.Model()
  {
    hide Values, Slot, Hash, IsMask;
    res := Merge(overlay, base, NoMerger);
    UnionOverlay(base.Model(), overlay.Model());
  }

  lemma UnionOverlay(B: map<Key, Pointer>, O: map<Key, Pointer>)
    ensures Union(B, O, NoMerger) == B + O
  {
  }
}
