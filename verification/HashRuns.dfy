// What a valid table looks like, runs of calls, and the default hash function.
module HashRuns {
  import opened Bits
  import opened HashTables
  import opened Seqs
  import opened Text

  /** What Valid says of the memory: placement, uniqueness, the count and the free list. */
  lemma TableShape(t: HashTable)
    requires t.Valid()
    ensures forall i, j :: 0 <= i <= t.max && 0 <= j < |t.g.order[i]| ==>
      var e := t.g.order[i][j].node;
      And(e.hash, t.max) == i == e.hash % (t.max + 1) && e !in t.g.freeList && e.val == t.Model()[e.key]
    ensures var all := Flatten(t.g.order);
      |all| == t.count == |t.Model()| <= t.max && KeysOf(all) == t.Model().Keys && DistinctKeys(all)
  {
    hide IsMask, And, Flatten, DistinctKeys, KeysOf;
    FlattenCount(t.g, t.hashFunc, t.max);
    ValuesKeys(t.g.cells);
    forall i, j | 0 <= i <= t.max && 0 <= j < |t.g.order[i]|
      ensures var e := t.g.order[i][j].node;
        And(e.hash, t.max) == i == e.hash % (t.max + 1) && e !in t.g.freeList && e.val == t.Model()[e.key]
    {
      EntryAt(t.g, t.hashFunc, t.max, i, j);
      LayoutAt(t.g.order, t.g.cells, t.hashFunc, t.max, i, j);
      AndMask(t.g.order[i][j].node.hash, t.max);
    }
  }

  datatype Op = SetOp(key: Key, val: Pointer) | GetOp(key: Key) | CountOp | ClearOp

  /** One call on a finite map: the map after it and what the call returns. */
  function Apply(M: map<Key, Pointer>, op: Op): (map<Key, Pointer>, nat) {
    match op
    case SetOp(k, v) => (if v == NULL then M - {k} else M[k := v], 0)
    case GetOp(k) => (M, if k in M then M[k] else NULL)
    case CountOp => (M, |M|)
    case ClearOp => (map[], 0)
  }

  function ApplyAll(M: map<Key, Pointer>, ops: seq<Op>): (map<Key, Pointer>, seq<nat>) {
    if ops == [] then (M, [])
    else
      var (M', rs) := ApplyAll(M, ops[..|ops| - 1]);
      var (M'', r) := Apply(M', ops[|ops| - 1]);
      (M'', rs + [r])
  }

  method Perform(t: HashTable, op: Op) returns (r: nat)
    requires t.Valid() && (op.SetOp? && op.val != NULL ==> t.count < 0x7fff_ffff)
    modifies t, t.buckets, t.g.nodes, t.cursor
    ensures t.Valid() && fresh(t.g.nodes - old(t.g.nodes)) && (t.buckets == old(t.buckets) || fresh(t.buckets))
    ensures (t.Model(), r) == Apply(old(t.Model()), op)
    ensures t.count <= old(t.count) + 1
  {
    hide Values, Slot, Hash, IsMask, Sound, Entries, Chains, FreeList;
    ValuesKeys(t.g.cells);
    r := 0;
    match op {
      case SetOp(k, v) => t.Set(k, v);
      case GetOp(k) => r := t.Get(k);
      case CountOp => r := t.Count();
      case ClearOp => t.Clear();
    }
    ValuesKeys(t.g.cells);
  }

  /** Over every run of calls the table answers as the finite map does. */
  method Run(t: HashTable, ops: seq<Op>) returns (rs: seq<nat>)
    requires t.Valid() && t.count + |ops| <= 0x7fff_ffff
    modifies t, t.buckets, t.g.nodes, t.cursor
    ensures t.Valid() && (t.Model(), rs) == ApplyAll(old(t.Model()), ops)
  {
    hide Values, Slot, Hash, IsMask, Sound, Entries, Chains, FreeList;
    rs := [];
    for i := 0 to |ops|
      invariant t.Valid() && fresh(t.g.nodes - old(t.g.nodes)) && (t.buckets == old(t.buckets) || fresh(t.buckets))
      invariant (t.Model(), rs) == ApplyAll(old(t.Model()), ops[..i])
      invariant t.count <= old(t.count) + i
    {
      assert ops[..i + 1][..i] == ops[..i];
      var r := Perform(t, ops[i]);
      rs := rs + [r];
    }
    assert ops[..|ops|] == ops;
  }

  /** `hash * 33 + byte` over the bytes, in unsigned 32-bit arithmetic. */
  function Times33(bytes: seq<Byte>): Word {
    if bytes == [] then 0
    else ((Times33(bytes[..|bytes| - 1]) * 33 + bytes[|bytes| - 1]) % 0x1_0000_0000) as Word
  }

  /** The same polynomial without a word size. */
  function Polynomial33(bytes: seq<Byte>): nat {
    if bytes == [] then 0 else Polynomial33(bytes[..|bytes| - 1]) * 33 + bytes[|bytes| - 1]
  }

  /** Wrapping at every step is wrapping once at the end. */
  lemma {:induction false} WrapOnce(bytes: seq<Byte>)
    ensures Times33(bytes) == Polynomial33(bytes) % 0x1_0000_0000
  {
    if bytes != [] {
      var p, b := Polynomial33(bytes[..|bytes| - 1]), bytes[|bytes| - 1];
      WrapOnce(bytes[..|bytes| - 1]);
      WrapStep(p, b, 0x1_0000_0000);
    }
  }

  lemma WrapStep(p: nat, b: nat, m: nat)
    requires m > 0
    ensures (p % m * 33 + b) % m == (p * 33 + b) % m
  {
    var q, x := p / m, p % m * 33 + b;
    var r, s := x / m, x % m;
    assert p * 33 + b == m * (33 * q + r) + s by {
      assert p == m * q + p % m && x == m * r + s;
      assert m * (33 * q + r) == 33 * (m * q) + m * r;
    }
    DivModUnique(p * 33 + b, m, 33 * q + r, s);
  }

  const APR_HASH_KEY_STRING := -1

  /** apr_hashfunc_default on the memory at the key; a string key is measured on the way. */
  method DefaultHash(mem: seq<Byte>, klen: int) returns (hash: Word, klen': int)
    requires if klen == APR_HASH_KEY_STRING then 0 in mem else 0 <= klen <= |mem|
    ensures 0 <= klen' <= |mem| && hash == Times33(mem[..klen'])
    ensures klen >= 0 ==> klen' == klen
    ensures klen == APR_HASH_KEY_STRING ==> klen' < |mem| && mem[klen'] == 0 && 0 !in mem[..klen']
  {
    hash, klen' := 0, 0;
    if klen == APR_HASH_KEY_STRING {
      while mem[klen'] != 0
        invariant 0 <= klen' < |mem| && 0 !in mem[..klen'] && hash == Times33(mem[..klen'])
        decreases |mem| - klen'
      {
        assert mem[..klen' + 1][..klen'] == mem[..klen'];
        hash := ((hash * 33 + mem[klen']) % 0x1_0000_0000) as Word;
        klen' := klen' + 1;
        assert 0 in mem[klen'..] by { assert mem == mem[..klen'] + mem[klen'..]; }
      }
    } else {
      while klen' < klen
        invariant 0 <= klen' <= klen && hash == Times33(mem[..klen'])
      {
        assert mem[..klen' + 1][..klen'] == mem[..klen'];
        hash := ((hash * 33 + mem[klen']) % 0x1_0000_0000) as Word;
        klen' := klen' + 1;
      }
    }
  }
}
