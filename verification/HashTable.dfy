// The APR hash table: chained entries, a free list, a built-in iterator, and growth by doubling.
module HashTables {
  import opened Bits
  import opened Seqs
  import opened Text

  datatype Key = Key(bytes: seq<Byte>)
  type Word = w: int | 0 <= w < 0x1_0000_0000

  /** A `const void *`: an opaque address, 0 being NULL. */
  type Pointer = nat
  const NULL: Pointer := 0

  const INITIAL_MAX: nat := 15

  /** A call of the table's hash function. */
  function Hash(hash: Key -> Word, k: Key): Word {
    hash(k)
  }

  /** The index of the chain that key k belongs to. */
  function Slot(hash: Key -> Word, max: nat, k: Key): (i: nat)
    ensures i <= max
  {
    And(Hash(hash, k), max)
  }

  class Entry {
    var next: Entry?
    var hash: Word
    var key: Key
    var val: Pointer
    ghost var recycled: bool

    constructor () {
      next, hash, key, val, recycled := null, 0, Key([]), NULL, false;
    }

    constructor Of(hash: Word, key: Key, val: Pointer, next: Entry?)
      ensures this.next == next && !recycled
      ensures this.hash == hash && this.key == key && this.val == val
    {
      this.next, this.hash, this.key, this.val, recycled := next, hash, key, val, false;
    }

    method Fill(hash: Word, key: Key, val: Pointer)
      modifies this
      ensures next == null && !recycled
      ensures this.hash == hash && this.key == key && this.val == val
    {
      next, this.hash, this.key, this.val, recycled := null, hash, key, val, false;
    }
  }

  /** A place in a chain: the entry and the key it holds. */
  datatype Link = Link(node: Entry, key: Key)

  /** What the table says of a key: its value and its position in its chain. */
  datatype Cell = Cell(val: Pointer, pos: nat)

  /** The entry at position j of a chain, null past its end. */
  ghost function NodeAt(chain: seq<Link>, j: nat): Entry? {
    if j < |chain| then chain[j].node else null
  }

  /** Key k sits at its position in the chain its hash selects. */
  ghost predicate Located(order: seq<seq<Link>>, cells: map<Key, Cell>, hash: Key -> Word, max: nat, k: Key)
    requires k in cells
  {
    var b := Slot(hash, max, k);
    b < |order| && cells[k].pos < |order[b]| && order[b][cells[k].pos].key == k
  }

  /** Every key with a cell is located, and the chains hold nothing else. */
  ghost predicate Layout(order: seq<seq<Link>>, cells: map<Key, Cell>, hash: Key -> Word, max: nat) {
    && (forall k {:trigger Located(order, cells, hash, max, k)} :: k in cells ==> Located(order, cells, hash, max, k))
    && (forall i, j :: 0 <= i < |order| && 0 <= j < |order[i]| ==>
          var k := order[i][j].key;
          k in cells && Slot(hash, max, k) == i && cells[k].pos == j)
  }

  lemma LayoutAppend(order: seq<seq<Link>>, cells: map<Key, Cell>, hash: Key -> Word, max: nat, l: Link, v: Pointer)
    requires Layout(order, cells, hash, max) && l.key !in cells && max < |order|
    ensures var b := Slot(hash, max, l.key);
      Layout(order[b := order[b] + [l]], cells[l.key := Cell(v, |order[b]|)], hash, max)
  {
    hide Slot;
    var b := Slot(hash, max, l.key);
    var order', cells' := order[b := order[b] + [l]], cells[l.key := Cell(v, |order[b]|)];
    forall k | k in cells' ensures Located(order', cells', hash, max, k) {
      if k != l.key {
        assert Located(order, cells, hash, max, k);
      }
    }
  }

  lemma LayoutAt(order: seq<seq<Link>>, cells: map<Key, Cell>, hash: Key -> Word, max: nat, i: nat, j: nat)
    requires Layout(order, cells, hash, max) && i < |order| && j < |order[i]|
    ensures order[i][j].key in cells && cells[order[i][j].key].pos == j && Slot(hash, max, order[i][j].key) == i
  {
    hide Slot;
  }

  ghost function Without(cells: map<Key, Cell>, hash: Key -> Word, max: nat, key: Key): map<Key, Cell>
    requires key in cells
  {
    map k | k in cells && k != key ::
      if Slot(hash, max, k) == Slot(hash, max, key) && cells[k].pos > cells[key].pos
      then cells[k].(pos := cells[k].pos - 1) else cells[k]
  }

  lemma LayoutRevalue(order: seq<seq<Link>>, cells: map<Key, Cell>, hash: Key -> Word, max: nat, key: Key, v: Pointer)
    requires Layout(order, cells, hash, max) && key in cells
    ensures Layout(order, cells[key := cells[key].(val := v)], hash, max)
  {
    hide Slot;
    var cells' := cells[key := cells[key].(val := v)];
    forall k | k in cells' ensures Located(order, cells', hash, max, k) {
      assert Located(order, cells, hash, max, k);
    }
  }

  /** The cells once key stands in front of its chain. */
  ghost function InFront(cells: map<Key, Cell>, hash: Key -> Word, max: nat, key: Key, v: Pointer): map<Key, Cell> {
    map k | k in cells.Keys + {key} ::
      if k == key then Cell(v, 0)
      else if Slot(hash, max, k) == Slot(hash, max, key) then cells[k].(pos := cells[k].pos + 1) else cells[k]
  }

  lemma LayoutPrepend(order: seq<seq<Link>>, cells: map<Key, Cell>, hash: Key -> Word, max: nat, l: Link, v: Pointer)
    requires Layout(order, cells, hash, max) && l.key !in cells && max < |order|
    ensures var b := Slot(hash, max, l.key);
      Layout(order[b := [l] + order[b]], InFront(cells, hash, max, l.key, v), hash, max)
  {
    hide Slot;
    var b := Slot(hash, max, l.key);
    var order', cells' := order[b := [l] + order[b]], InFront(cells, hash, max, l.key, v);
    forall k | k in cells' ensures Located(order', cells', hash, max, k) {
      if k != l.key {
        assert Located(order, cells, hash, max, k);
      }
    }
  }

  /** The finite map a table stands for. */
  ghost function Values(cells: map<Key, Cell>): map<Key, Pointer> {
    map k | k in cells :: cells[k].val
  }

  predicate Drops(drop: (Key, Pointer) -> bool, k: Key, v: Pointer) {
    drop(k, v)
  }

  /** The keys of s whose values in M are to be dropped. */
  ghost function Unwanted(M: map<Key, Pointer>, drop: (Key, Pointer) -> bool, s: seq<Link>): set<Key> {
    set l | l in s && l.key in M && Drops(drop, l.key, M[l.key]) :: l.key
  }

  lemma UnwantedNone(M: map<Key, Pointer>, drop: (Key, Pointer) -> bool, s: seq<Link>)
    ensures M == M - Unwanted(M, drop, s[..0]) && KeySeq(s[..0]) == []
  {
  }

  lemma UnwantedNext(M: map<Key, Pointer>, drop: (Key, Pointer) -> bool, s: seq<Link>, n: nat)
    requires n < |s|
    ensures s[n].key in M ==>
      M - Unwanted(M, drop, s[..n + 1]) ==
      if Drops(drop, s[n].key, M[s[n].key]) then M - Unwanted(M, drop, s[..n]) - {s[n].key}
        else M - Unwanted(M, drop, s[..n])
  {
    hide Drops;
    assert s[..n + 1] == s[..n] + [s[n]];
    if s[n].key in M {
      assert Unwanted(M, drop, s[..n + 1]) ==
        Unwanted(M, drop, s[..n]) + (if Drops(drop, s[n].key, M[s[n].key]) then {s[n].key} else {});
    }
  }

  lemma UnwantedAll(M: map<Key, Pointer>, drop: (Key, Pointer) -> bool, s: seq<Link>)
    requires KeysOf(s) == M.Keys
    ensures M - Unwanted(M, drop, s) == map k | k in M && !Drops(drop, k, M[k]) :: M[k]
  {
    hide Drops;
  }

  lemma ValuesUpdate(cells: map<Key, Cell>, k: Key, c: Cell)
    ensures Values(cells[k := c]) == Values(cells)[k := c.val]
    ensures |cells[k := c]| == if k in cells then |cells| else |cells| + 1
  {
  }

  lemma ValuesWithout(cells: map<Key, Cell>, hash: Key -> Word, max: nat, key: Key)
    requires key in cells
    ensures Values(Without(cells, hash, max, key)) == Values(cells) - {key}
    ensures |Without(cells, hash, max, key)| == |cells| - 1
  {
    hide Slot;
    var r := Without(cells, hash, max, key);
    assert r.Keys == cells.Keys - {key};
    assert |r.Keys| == |r| && |cells.Keys| == |cells|;
  }

  lemma ValuesInFront(cells: map<Key, Cell>, hash: Key -> Word, max: nat, key: Key, v: Pointer)
    requires key !in cells
    ensures Values(InFront(cells, hash, max, key, v)) == Values(cells)[key := v]
    ensures |InFront(cells, hash, max, key, v)| == |cells| + 1
  {
    hide InFront;
    var r := InFront(cells, hash, max, key, v);
    InFrontKeys(cells, hash, max, key, v);
    KeyCount(r);
    KeyCount(cells);
    assert Values(r).Keys == r.Keys && Values(cells)[key := v].Keys == cells.Keys + {key};
  }

  lemma InFrontKeys(cells: map<Key, Cell>, hash: Key -> Word, max: nat, key: Key, v: Pointer)
    ensures var r := InFront(cells, hash, max, key, v);
      && r.Keys == cells.Keys + {key} && r[key].val == v
      && forall k :: k in cells && k != key ==> r[k].val == cells[k].val
  {
    hide Slot;
  }

  lemma KeyCount(cells: map<Key, Cell>)
    ensures |cells.Keys| == |cells|
  {
  }

  lemma ValuesKeys(cells: map<Key, Cell>)
    ensures Values(cells).Keys == cells.Keys && |Values(cells)| == |cells|
  {
    assert Values(cells).Keys == cells.Keys;
    assert |Values(cells).Keys| == |Values(cells)| && |cells.Keys| == |cells|;
  }

  lemma LayoutDelete(order: seq<seq<Link>>, cells: map<Key, Cell>, hash: Key -> Word, max: nat, key: Key)
    requires Layout(order, cells, hash, max) && key in cells && Located(order, cells, hash, max, key)
    ensures var b, j := Slot(hash, max, key), cells[key].pos;
      Layout(order[b := order[b][..j] + order[b][j + 1..]], Without(cells, hash, max, key), hash, max)
  {
    hide Slot;
    var b, j := Slot(hash, max, key), cells[key].pos;
    var order', cells' := order[b := order[b][..j] + order[b][j + 1..]], Without(cells, hash, max, key);
    forall k | k in cells' ensures Located(order', cells', hash, max, k) {
      assert Located(order, cells, hash, max, k);
    }
  }

  /** What a table holds, apart from the pointers that hold it together. */
  datatype Picture = Picture(
    cells: map<Key, Cell>,
    order: seq<seq<Link>>,      // the chains
    freeList: seq<Entry>,       // the recycled entries
    nodes: set<Entry>)          // every entry the table owns

  ghost predicate Sound(g: Picture, hash: Key -> Word, max: nat) {
    && |g.order| == max + 1 && Layout(g.order, g.cells, hash, max)
    && (forall i, j :: 0 <= i <= max && 0 <= j < |g.order[i]| ==> g.order[i][j].node in g.nodes)
    && (forall i :: 0 <= i < |g.freeList| ==> g.freeList[i] in g.nodes)
    && (forall i, j :: 0 <= i < j < |g.freeList| ==> g.freeList[i] != g.freeList[j])
  }

  /** The entry stores its key, the hash of its key and its value. */
  ghost predicate Holds(l: Link, hash: Key -> Word, cells: map<Key, Cell>)
    reads l.node
  {
    && l.key in cells && !l.node.recycled
    && l.node.key == l.key && l.node.hash == Hash(hash, l.key) && l.node.val == cells[l.key].val
  }

  ghost predicate Entries(g: Picture, hash: Key -> Word, max: nat)
    requires Sound(g, hash, max)
    reads g.nodes
  {
    forall i, j :: 0 <= i <= max && 0 <= j < |g.order[i]| ==> Holds(g.order[i][j], hash, g.cells)
  }

  lemma EntryAt(g: Picture, hash: Key -> Word, max: nat, i: nat, j: nat)
    requires Sound(g, hash, max) && Entries(g, hash, max) && i <= max && j < |g.order[i]|
    ensures Holds(g.order[i][j], hash, g.cells)
  {
  }

  /** An entry is in one place only. */
  lemma SamePlace(g: Picture, hash: Key -> Word, max: nat, i: nat, j: nat, i': nat, j': nat)
    requires Sound(g, hash, max) && Entries(g, hash, max)
    requires i <= max && j < |g.order[i]| && i' <= max && j' < |g.order[i']|
    requires g.order[i][j].node == g.order[i'][j'].node
    ensures i == i' && j == j'
  {
    hide Slot, Hash;
    assert Holds(g.order[i][j], hash, g.cells) && Holds(g.order[i'][j'], hash, g.cells);
  }

  lemma OnlyPlace(g: Picture, hash: Key -> Word, max: nat, i: nat, j: nat)
    requires Sound(g, hash, max) && Entries(g, hash, max) && i <= max && j < |g.order[i]|
    ensures g.order[i][j].node in g.nodes && !g.order[i][j].node.recycled
    ensures forall i', j' :: 0 <= i' <= max && 0 <= j' < |g.order[i']| && !(i' == i && j' == j) ==>
      g.order[i'][j'].node != g.order[i][j].node
  {
    hide Slot, Hash, Layout;
    assert Holds(g.order[i][j], hash, g.cells);
    forall i', j' | 0 <= i' <= max && 0 <= j' < |g.order[i']| && g.order[i'][j'].node == g.order[i][j].node
      ensures i' == i && j' == j
    {
      SamePlace(g, hash, max, i', j', i, j);
    }
  }

  ghost predicate HeadsBut(g: Picture, buckets: seq<Entry?>, b: int) {
    |buckets| == |g.order| && forall i :: 0 <= i < |g.order| && i != b ==> buckets[i] == NodeAt(g.order[i], 0)
  }

  ghost predicate LinksBut(g: Picture, hash: Key -> Word, max: nat, b: int, j: int)
    requires Sound(g, hash, max)
    reads g.nodes
  {
    forall i, m {:trigger g.order[i][m].node.next} ::
      0 <= i < |g.order| && 0 <= m < |g.order[i]| && !(i == b && m == j) ==>
      g.order[i][m].node.next == NodeAt(g.order[i], m + 1)
  }

  /** Following next from bucket i visits the entries of chain i in order and ends in null. */
  ghost predicate Chains(g: Picture, hash: Key -> Word, max: nat, buckets: seq<Entry?>)
    requires Sound(g, hash, max)
    reads g.nodes
  {
    HeadsBut(g, buckets, -1) && LinksBut(g, hash, max, -1, -1)
  }

  ghost function Appended(g: Picture, b: nat, l: Link, v: Pointer): Picture
    requires b < |g.order|
  {
    Picture(g.cells[l.key := Cell(v, |g.order[b]|)], g.order[b := g.order[b] + [l]], g.freeList, g.nodes + {l.node})
  }

  ghost function Deleted(g: Picture, hash: Key -> Word, max: nat, key: Key): Picture
    requires key in g.cells && Located(g.order, g.cells, hash, max, key)
  {
    var b, j := Slot(hash, max, key), g.cells[key].pos;
    Picture(Without(g.cells, hash, max, key), g.order[b := g.order[b][..j] + g.order[b][j + 1..]], g.freeList,
            g.nodes - {g.order[b][j].node})
  }

  /** Once the slot before position j of chain b points past it, the picture without it is right. */
  lemma UnlinkChains(g: Picture, hash: Key -> Word, max: nat, key: Key, buckets: seq<Entry?>, b: nat, j: nat)
    requires Sound(g, hash, max) && Entries(g, hash, max) && key in g.cells
    requires Located(g.order, g.cells, hash, max, key) && b == Slot(hash, max, key) && j == g.cells[key].pos
    requires HeadsBut(g, buckets, if j == 0 then b else -1) && LinksBut(g, hash, max, b, j - 1)
    requires forall i :: 0 <= i < |g.freeList| ==> g.freeList[i].recycled
    requires (if j == 0 then buckets[b] else g.order[b][j - 1].node.next) == NodeAt(g.order[b], j + 1)
    ensures var g' := Deleted(g, hash, max, key);
      Sound(g', hash, max) && Entries(g', hash, max) && Chains(g', hash, max, buckets)
  {
    hide Slot, Hash, Layout;
    LayoutDelete(g.order, g.cells, hash, max, key);
    var g' := Deleted(g, hash, max, key);
    forall i, m | 0 <= i <= max && 0 <= m < |g'.order[i]|
      ensures g'.order[i][m].node in g'.nodes
      ensures g'.order[i][m].node.next == NodeAt(g'.order[i], m + 1)
      ensures Holds(g'.order[i][m], hash, g'.cells)
    {
      var m' := if i == b && m >= j then m + 1 else m;
      assert g'.order[i][m] == g.order[i][m'] && Holds(g.order[i][m'], hash, g.cells);
      if g.order[i][m'].node == g.order[b][j].node {
        SamePlace(g, hash, max, i, m', b, j);
      }
      LayoutAt(g'.order, g'.cells, hash, max, i, m);
    }
  }

  /** Once the slot at the end of chain b points to a null-terminated entry, the picture with it is right. */
  lemma LinkChains(g: Picture, hash: Key -> Word, max: nat, l: Link, buckets: seq<Entry?>, b: nat)
    requires Sound(g, hash, max) && Entries(g, hash, max) && l.key !in g.cells && l.node !in g.nodes
    requires b == Slot(hash, max, l.key) && Holds(l, hash, g.cells[l.key := Cell(l.node.val, 0)]) && l.node.next == null
    requires var j := |g.order[b]|;
      && HeadsBut(g, buckets, if j == 0 then b else -1) && LinksBut(g, hash, max, b, j - 1)
      && (if j == 0 then buckets[b] else g.order[b][j - 1].node.next) == l.node
    ensures var g' := Appended(g, b, l, l.node.val);
      Sound(g', hash, max) && Entries(g', hash, max) && Chains(g', hash, max, buckets)
  {
    hide Slot, Hash, Layout;
    LayoutAppend(g.order, g.cells, hash, max, l, l.node.val);
    var g' := Appended(g, b, l, l.node.val);
    forall i, m | 0 <= i <= max && 0 <= m < |g'.order[i]|
      ensures g'.order[i][m].node in g'.nodes
      ensures g'.order[i][m].node.next == NodeAt(g'.order[i], m + 1)
      ensures Holds(g'.order[i][m], hash, g'.cells)
    {
      if g'.order[i][m] != l {
        assert g'.order[i][m] == g.order[i][m] && Holds(g.order[i][m], hash, g.cells);
      }
    }
  }

  ghost function Prepended(g: Picture, hash: Key -> Word, max: nat, l: Link, v: Pointer): Picture
    requires |g.order| == max + 1
  {
    var b := Slot(hash, max, l.key);
    g.(cells := InFront(g.cells, hash, max, l.key, v), order := g.order[b := [l] + g.order[b]])
  }

  /** An entry already owned, put in front of its chain. */
  lemma PushChains(g: Picture, hash: Key -> Word, max: nat, l: Link, buckets: seq<Entry?>, b: nat)
    requires Sound(g, hash, max) && Entries(g, hash, max) && l.key !in g.cells && l.node in g.nodes
    requires b == Slot(hash, max, l.key) && Holds(l, hash, g.cells[l.key := Cell(l.node.val, 0)])
    requires HeadsBut(g, buckets, b) && LinksBut(g, hash, max, -1, -1)
    requires buckets[b] == l.node && l.node.next == NodeAt(g.order[b], 0)
    ensures var g' := Prepended(g, hash, max, l, l.node.val);
      Sound(g', hash, max) && Entries(g', hash, max) && Chains(g', hash, max, buckets)
  {
    hide Slot, Hash, Layout;
    LayoutPrepend(g.order, g.cells, hash, max, l, l.node.val);
    var g' := Prepended(g, hash, max, l, l.node.val);
    forall i, m | 0 <= i <= max && 0 <= m < |g'.order[i]|
      ensures g'.order[i][m].node in g'.nodes
      ensures g'.order[i][m].node.next == NodeAt(g'.order[i], m + 1)
      ensures Holds(g'.order[i][m], hash, g'.cells)
    {
      var m' := if i == b then m - 1 else m;
      if m' >= 0 {
        assert g'.order[i][m] == g.order[i][m'] && Holds(g.order[i][m'], hash, g.cells);
      }
    }
  }

  lemma EmptyChains(g: Picture, hash: Key -> Word, max: nat, buckets: seq<Entry?>)
    requires |g.order| == |buckets| == max + 1 && g.cells == map[]
    requires forall i :: 0 <= i <= max ==> g.order[i] == [] && buckets[i] == null
    requires forall i :: 0 <= i < |g.freeList| ==> g.freeList[i] in g.nodes
    requires forall i, j :: 0 <= i < j < |g.freeList| ==> g.freeList[i] != g.freeList[j]
    ensures Sound(g, hash, max) && Entries(g, hash, max) && Chains(g, hash, max, buckets)
  {
  }

  lemma FlattenCount(g: Picture, hash: Key -> Word, max: nat)
    requires Sound(g, hash, max)
    ensures DistinctKeys(Flatten(g.order)) && KeysOf(Flatten(g.order)) == g.cells.Keys
    ensures |Flatten(g.order)| == |g.cells|
  {
    FlattenLayout(g.order, g.cells, hash, max);
    DistinctCount(Flatten(g.order));
    assert |g.cells.Keys| == |g.cells|;
  }

  ghost predicate FreeList(g: Picture, free: Entry?)
    requires forall i :: 0 <= i < |g.freeList| ==> g.freeList[i] in g.nodes
    reads g.nodes
  {
    && free == (if g.freeList == [] then null else g.freeList[0])
    && (forall i {:trigger g.freeList[i].next} :: 0 <= i < |g.freeList| ==>
          g.freeList[i].next == if i + 1 < |g.freeList| then g.freeList[i + 1] else null)
    && (forall i :: 0 <= i < |g.freeList| ==> g.freeList[i].recycled)
  }

  ghost predicate DistinctKeys(s: seq<Link>) {
    forall i, j :: 0 <= i < j < |s| ==> s[i].key != s[j].key
  }

  lemma OneKey(s: seq<Link>, n: nat, x: Link)
    requires DistinctKeys(s) && n < |s| && x in s[n + 1..]
    ensures x in s && x.key != s[n].key
  {
  }

  ghost function KeysOf(s: seq<Link>): set<Key> {
    set l | l in s :: l.key
  }

  lemma KeysOfNone(s: seq<Link>)
    ensures KeysOf(s[..0]) == {}
  {
  }

  lemma KeysOfNext(s: seq<Link>, n: nat)
    requires n < |s|
    ensures KeysOf(s[..n + 1]) == KeysOf(s[..n]) + {s[n].key}
  {
    assert s[..n + 1] == s[..n] + [s[n]];
  }

  ghost function KeySeq(s: seq<Link>): seq<Key> {
    seq(|s|, i requires 0 <= i < |s| => s[i].key)
  }

  lemma KeySeqNext(s: seq<Link>, n: nat)
    requires n < |s|
    ensures KeySeq(s[..n + 1]) == KeySeq(s[..n]) + [s[n].key]
  {
  }

  lemma KeySeqDistinct(s: seq<Link>)
    requires DistinctKeys(s)
    ensures NoDup(KeySeq(s)) && (set k | k in KeySeq(s)) == KeysOf(s)
  {
    forall k | k in KeysOf(s) ensures k in KeySeq(s) {
      var l :| l in s && l.key == k;
      var i :| 0 <= i < |s| && s[i] == l;
      assert KeySeq(s)[i] == k;
    }
  }

  lemma DistinctCount(s: seq<Link>)
    requires DistinctKeys(s)
    ensures |KeysOf(s)| == |s|
  {
    if s != [] {
      var n := |s| - 1;
      DistinctCount(s[..n]);
      KeysOfNext(s, n);
      assert s[..n + 1] == s;
      assert s[n].key !in KeysOf(s[..n]);
    }
  }

  /** All the links of a table, chain by chain, hold its keys, each once. */
  lemma FlattenLayout(order: seq<seq<Link>>, cells: map<Key, Cell>, hash: Key -> Word, max: nat)
    requires Layout(order, cells, hash, max)
    ensures DistinctKeys(Flatten(order)) && KeysOf(Flatten(order)) == cells.Keys
  {
    hide Slot;
    assert order[0..] == order;
    FlattenDistinct(order, cells, hash, max, 0);
    forall k | k in cells ensures k in KeysOf(Flatten(order)) {
      assert Located(order, cells, hash, max, k);
      var l := order[Slot(hash, max, k)][cells[k].pos];
      FlattenIn(order, Slot(hash, max, k), l);
    }
    forall l | l in Flatten(order) ensures l.key in cells {
      var i := FlattenFrom(order, l);
    }
  }

  lemma FlattenDistinct(order: seq<seq<Link>>, cells: map<Key, Cell>, hash: Key -> Word, max: nat, n: nat)
    requires Layout(order, cells, hash, max) && n <= |order|
    ensures DistinctKeys(Flatten(order[n..]))
    decreases |order| - n
  {
    hide Slot;
    if n < |order| {
      FlattenDistinct(order, cells, hash, max, n + 1);
      var tail := order[n + 1..];
      assert order[n..] == [order[n]] + tail;
      forall i, j | 0 <= i < |order[n]| && 0 <= j < |Flatten(tail)|
        ensures order[n][i].key != Flatten(tail)[j].key
      {
        var m := FlattenFrom(tail, Flatten(tail)[j]);
        assert tail[m] == order[n + 1 + m];
      }
    }
  }

  ghost predicate Suffix<T>(r: seq<T>, s: seq<T>) {
    |r| <= |s| && r == s[|s| - |r|..]
  }

  lemma SuffixTail<T>(r: seq<T>, s: seq<T>)
    requires Suffix(r, s) && r != []
    ensures Suffix(r[1..], s)
  {
  }

  /** A null-terminated list of owned entries. */
  ghost predicate Linked(head: Entry?, chain: seq<Link>, nodes: set<Entry>)
    reads nodes
  {
    && head == NodeAt(chain, 0)
    && (forall j :: 0 <= j < |chain| ==> chain[j].node in nodes)
    && (forall j {:trigger chain[j].node.next} :: 0 <= j < |chain| ==> chain[j].node.next == NodeAt(chain, j + 1))
  }

  lemma LinkedTail(head: Entry?, chain: seq<Link>, nodes: set<Entry>)
    requires Linked(head, chain, nodes)
    ensures head == null <==> chain == []
    ensures head != null ==>
      head == chain[0].node && chain == chain[..1] + chain[1..] && Linked(head.next, chain[1..], nodes)
  {
  }

  /** Every entry of links is on the free list. */
  ghost predicate Freed(links: seq<Link>, freeList: seq<Entry>) {
    forall i :: 0 <= i < |links| ==> links[i].node in freeList
  }

  lemma FreedNone(links: seq<Link>, freeList: seq<Entry>)
    ensures Freed(links[..0], freeList)
  {
  }

  lemma FreedNext(links: seq<Link>, n: nat, freeList: seq<Entry>)
    requires n < |links| && Freed(links[..n], freeList)
    ensures Freed(links[..n + 1], [links[n].node] + freeList)
  {
    assert forall i :: 0 <= i < n ==> links[..n][i] == links[i];
  }

  /** apr_hash_index_t: the entry last returned, the one saved for later and the next bucket to open. */
  class HashIndex {
    var this_: Entry?
    var next: Entry?
    var index: nat

    constructor () {
      this_, next, index := null, null, 0;
    }

    /** rest is what follows this_ in the open chain, the last one before index. */
    ghost predicate Cursor(order: seq<seq<Link>>, rest: seq<Link>)
      reads this
    {
      && index <= |order| && next == NodeAt(rest, 0)
      && (if index == 0 then rest == [] else Suffix(rest, order[index - 1]))
    }

    /** The links the iteration still owes, in order. */
    ghost function Pending(order: seq<seq<Link>>, rest: seq<Link>): seq<Link>
      requires index <= |order|
      reads this`index
    {
      rest + Flatten(order[index..])
    }

    /** What is pending is still linked up, whatever became of the chains behind the cursor. */
    ghost predicate Ready(buckets: seq<Entry?>, order: seq<seq<Link>>, nodes: set<Entry>, rest: seq<Link>)
      reads this, nodes
    {
      && Cursor(order, rest) && |buckets| == |order| && Linked(next, rest, nodes)
      && (forall i :: index <= i < |order| ==> Linked(buckets[i], order[i], nodes))
    }

    /** The loop of apr_hash_next: open buckets until one has an entry. */
    method Open(ht: HashTable, ghost order: seq<seq<Link>>, ghost nodes: set<Entry>, ghost rest: seq<Link>)
      returns (ghost rest': seq<Link>)
      requires ht.buckets.Length == ht.max + 1 && Ready(ht.buckets[..], order, nodes, rest) && this_ == next
      modifies this`this_, this`index
      ensures index <= |order| && Linked(this_, rest', nodes)
      ensures if index == 0 then rest' == [] else Suffix(rest', order[index - 1])
      ensures rest' + Flatten(order[index..]) == old(Pending(order, rest))
      ensures forall i :: index <= i < |order| ==> Linked(ht.buckets[i], order[i], nodes)
      ensures this_ == null ==> old(Pending(order, rest)) == []
    {
      rest' := rest;
      while this_ == null && index <= ht.max
        invariant index <= |order| && Linked(this_, rest', nodes)
        invariant if index == 0 then rest' == [] else Suffix(rest', order[index - 1])
        invariant rest' + Flatten(order[index..]) == old(Pending(order, rest))
        invariant forall i :: index <= i < |order| ==> Linked(ht.buckets[i], order[i], nodes)
      {
        this_ := ht.buckets[index];
        rest' := order[index];
        assert order[index..] == [order[index]] + order[index + 1..];
        index := index + 1;
      }
    }

    /** apr_hash_next; ht stands for the field hi->ht. The ghost result names the link found, if any. */
    method Next(ht: HashTable, ghost order: seq<seq<Link>>, ghost nodes: set<Entry>, ghost rest: seq<Link>)
      returns (more: bool, ghost found: seq<Link>, ghost rest': seq<Link>)
      requires ht.buckets.Length == ht.max + 1 && Ready(ht.buckets[..], order, nodes, rest)
      modifies this
      ensures |found| == if more then 1 else 0
      ensures more ==> Ready(ht.buckets[..], order, nodes, rest') && index > 0 && this_ == found[0].node
      ensures old(Pending(order, rest)) == if more then found + Pending(order, rest') else []
      ensures more ==> Suffix(found + rest', order[index - 1])
    {
      hide Suffix, Flatten, Linked;
      this_ := next;
      ghost var open := Open(ht, order, nodes, rest);
      LinkedTail(this_, open, nodes);
      if this_ == null {
        return false, [], [];
      }
      next := this_.next;
      found, rest' := open[..1], open[1..];
      NextPending(open, order[index..]);
      SuffixTail(open, order[index - 1]);
      HeadOf(next, rest', nodes);
      more := true;
    }

    lemma NextPending(open: seq<Link>, tail: seq<seq<Link>>)
      requires open != []
      ensures open + Flatten(tail) == open[..1] + (open[1..] + Flatten(tail))
    {
      hide Flatten;
    }

    lemma HeadOf(head: Entry?, chain: seq<Link>, nodes: set<Entry>)
      requires Linked(head, chain, nodes)
      ensures head == NodeAt(chain, 0)
    {
    }
  }

  class HashTable {
    var buckets: array<Entry?>
    var count: nat
    var max: nat
    const hashFunc: Key -> Word
    const cursor: HashIndex
    var free: Entry?
    ghost var g: Picture

    function Bucket(k: Key): nat
      reads this`max
    {
      Slot(hashFunc, max, k)
    }

    /** The links, the entries and the picture agree. */
    ghost predicate Built()
      reads this, buckets, g.nodes
    {
      && IsMask(max) && Sound(g, hashFunc, max)
      && Entries(g, hashFunc, max) && Chains(g, hashFunc, max, buckets[..]) && FreeList(g, free)
    }

    ghost predicate Core()
      reads this, buckets, g.nodes
    {
      Built() && count == |g.cells|
    }

    /** Between calls the table also keeps its collision rate: no more entries than buckets. */
    ghost predicate Valid()
      reads this, buckets, g.nodes
    {
      Core() && count <= max
    }

    /** apr_hash_make_custom; apr_hash_make passes the default hash function. */
    constructor (hashFunc: Key -> Word)
      ensures Valid() && Model() == map[] && this.hashFunc == hashFunc
      ensures max == INITIAL_MAX && buckets.Length == INITIAL_MAX + 1 && count == 0 && free == null
      ensures forall i :: 0 <= i < buckets.Length ==> buckets[i] == null
      ensures fresh(buckets) && fresh(cursor) && g.nodes == {}
    {
      this.hashFunc := hashFunc;
      cursor := new HashIndex();
      buckets := new Entry?[INITIAL_MAX + 1](_ => null);
      count, max, free := 0, INITIAL_MAX, null;
      g := Picture(map[], seq(INITIAL_MAX + 1, _ => []), [], {});
      new;
      EmptyChains(g, hashFunc, max, buckets[..]);
      assert IsMask(15) && IsMask(7) && IsMask(3);
    }

    /** The allocation of the result in apr_hash_copy and apr_hash_merge: an empty array of a given size. */
    constructor Sized(hashFunc: Key -> Word, max: nat)
      requires IsMask(max)
      ensures Core() && g.cells == map[] && this.hashFunc == hashFunc && this.max == max
      ensures fresh(buckets) && fresh(cursor) && g.nodes == {} && free == null && g.freeList == []
      ensures |g.order| == max + 1 && forall i :: 0 <= i <= max ==> g.order[i] == []
    {
      this.hashFunc := hashFunc;
      cursor := new HashIndex();
      buckets := new Entry?[max + 1](_ => null);
      count, this.max, free := 0, max, null;
      g := Picture(map[], seq(max + 1, _ => []), [], {});
      new;
      EmptyChains(g, hashFunc, max, buckets[..]);
    }

    /** The scan of find_entry. The slot *hep is buckets[b] when prev is null and prev.next otherwise. */
    method Scan(key: Key) returns (b: nat, prev: Entry?, he: Entry?, ghost j: nat)
      requires Core()
      ensures b == Bucket(key) && b < |g.order| && j <= |g.order[b]|
      ensures prev == if j == 0 then null else g.order[b][j - 1].node
      ensures he == NodeAt(g.order[b], j)
      ensures he != null ==> key in g.cells && g.cells[key].pos == j && he.key == key
      ensures he == null ==> key !in g.cells
    {
      hide Slot, Hash, IsMask;
      var hash := Hash(hashFunc, key);
      b := Slot(hashFunc, max, key);
      prev, he, j := null, buckets[b], 0;
      while he != null && !(he.hash == hash && he.key == key)
        invariant j <= |g.order[b]| && he == NodeAt(g.order[b], j)
        invariant prev == if j == 0 then null else g.order[b][j - 1].node
        invariant forall i :: 0 <= i < j ==> g.order[b][i].key != key
        decreases |g.order[b]| - j
      {
        assert he == g.order[b][j].node;
        prev, he := he, he.next;
        j := j + 1;
      }
      assert key in g.cells ==> Located(g.order, g.cells, hashFunc, max, key);
    }

    /** Take an entry from the free list, or a fresh one; the table then no longer owns it. */
    method Acquire() returns (he: Entry)
      requires Core()
      modifies this`free, this`g
      ensures Core() && he !in g.nodes && g.nodes <= old(g.nodes) && (fresh(he) || he in old(g.nodes))
      ensures g.cells == old(g.cells) && g.order == old(g.order)
    {
      hide Slot, Hash, IsMask;
      if free != null {
        he := free;
        free := he.next;
        g := g.(freeList := g.freeList[1..], nodes := g.nodes - {he});
      } else {
        he := new Entry();
      }
    }

    /** `*hep = v`: hep is the slot of bucket b when prev is null and prev's link otherwise. */
    method Store(b: nat, prev: Entry?, v: Entry?)
      requires b < buckets.Length && (prev == null || prev in g.nodes)
      modifies buckets, g.nodes`next
      ensures buckets[..] == if prev == null then old(buckets[..])[b := v] else old(buckets[..])
      ensures forall e {:trigger e.next} :: e in g.nodes ==> e.next == if e == prev then v else old(e.next)
    {
      if prev == null {
        buckets[b] := v;
      } else {
        prev.next := v;
      }
    }

    /** `*hep = he` on the slot at the end of a chain. */
    method Attach(he: Entry, b: nat, prev: Entry?, ghost j: nat)
      requires Core() && he !in g.nodes && he.key !in g.cells
      requires he.hash == Hash(hashFunc, he.key) && b == Bucket(he.key) && b < |g.order| && j == |g.order[b]|
      requires prev == if j == 0 then null else g.order[b][j - 1].node
      requires he.next == null && !he.recycled
      modifies this`count, this`g, buckets, g.nodes
      ensures Core() && g == old(Appended(g, b, Link(he, he.key), he.val))
    {
      hide Slot, Hash, IsMask, Values, Layout;
      ghost var l := Link(he, he.key);
      if j > 0 {
        OnlyPlace(g, hashFunc, max, b, j - 1);
      }
      Store(b, prev, he);
      ValuesUpdate(g.cells, he.key, Cell(he.val, j));
      LinkChains(g, hashFunc, max, l, buckets[..], b);
      g, count := Appended(g, b, l, he.val), count + 1;
    }

    /** `*hep = he->next`: the table no longer owns he. */
    method Detach(b: nat, prev: Entry?, he: Entry, ghost key: Key, ghost j: nat)
      requires Core() && key in g.cells && j == g.cells[key].pos && b == Bucket(key)
      requires Located(g.order, g.cells, hashFunc, max, key) && g.order[b][j].node == he
      requires prev == if j == 0 then null else g.order[b][j - 1].node
      modifies this`count, this`g, buckets, g.nodes
      ensures Core() && he in old(g.nodes) && he !in g.nodes && g == old(Deleted(g, hashFunc, max, key))
      ensures count == old(count) - 1
    {
      hide Slot, Hash, IsMask, Values, Layout, Without;
      if j > 0 {
        OnlyPlace(g, hashFunc, max, b, j - 1);
      }
      Store(b, prev, he.next);
      ValuesWithout(g.cells, hashFunc, max, key);
      UnlinkChains(g, hashFunc, max, key, buckets[..], b, j);
      g, count := Deleted(g, hashFunc, max, key), count - 1;
    }

    /** Push a detached entry on the free list. */
    method Recycle(he: Entry)
      requires Core() && he !in g.nodes
      modifies this`free, this`g, he
      ensures Core()
      ensures g == old(g.(freeList := [he] + g.freeList, nodes := g.nodes + {he}))
    {
      hide Slot, Hash, IsMask;
      he.next, he.recycled := free, true;
      free := he;
      g := g.(freeList := [he] + g.freeList, nodes := g.nodes + {he});
    }

    /** find_entry: the slot of the key; a missing key gets a new entry when val is not NULL. */
    method FindEntry(key: Key, val: Pointer) returns (b: nat, prev: Entry?, he: Entry?, ghost j: nat)
      requires Core()
      modifies this`count, this`free, this`g, buckets, g.nodes
      ensures Core() && fresh(g.nodes - old(g.nodes))
      ensures b == Bucket(key) && b < |g.order| && j <= |g.order[b]|
      ensures prev == if j == 0 then null else g.order[b][j - 1].node
      ensures he == NodeAt(g.order[b], j)
      ensures he != null ==> key in g.cells && g.cells[key].pos == j && he.key == key
      ensures he != null ==> he in g.nodes && Located(g.order, g.cells, hashFunc, max, key)
      ensures he == null ==> key !in g.cells && val == NULL
      ensures key in old(g.cells) || val == NULL ==> g == old(g) && count == old(count)
      ensures key !in old(g.cells) && val != NULL ==>
        Model() == old(Model())[key := val] && |g.cells| == |old(g.cells)| + 1
    {
      hide Slot, Hash, IsMask;
      hide Values;
      b, prev, he, j := Scan(key);
      if he != null || val == NULL {
        return;
      }
      he := Acquire();
      he.Fill(Hash(hashFunc, key), key, val);
      ValuesUpdate(g.cells, key, Cell(val, j));
      Attach(he, b, prev, j);
    }

    /** One step of expand_array: the entry leaves its old chain, still linked from behind, for its new one. */
    method Move(buckets': array<Entry?>, max': nat, ghost l: Link, e: Entry, ghost ng: Picture)
      requires e == l.node && Sound(ng, hashFunc, max') && Entries(ng, hashFunc, max')
      requires Chains(ng, hashFunc, max', buckets'[..])
      requires l.key !in ng.cells && e in ng.nodes && Holds(l, hashFunc, g.cells)
      modifies buckets', e`next
      ensures var ng' := Prepended(ng, hashFunc, max', l, e.val);
        Sound(ng', hashFunc, max') && Entries(ng', hashFunc, max') && Chains(ng', hashFunc, max', buckets'[..])
    {
      hide IsMask, Values, Layout;
      var i := And(e.hash, max');
      e.next := buckets'[i];
      buckets'[i] := e;
      forall i, m | 0 <= i <= max' && 0 <= m < |ng.order[i]| ensures ng.order[i][m].node != e {
        LayoutAt(ng.order, ng.cells, hashFunc, max', i, m);
        assert Holds(ng.order[i][m], hashFunc, ng.cells);
      }
      PushChains(ng, hashFunc, max', l, buckets'[..], i);
    }

    /** The finite map the table stands for. */
    ghost function Model(): map<Key, Pointer>
      reads this`g
    {
      Values(g.cells)
    }

    /** Halfway through expand_array: done entries are in the new chains of ng, the others still linked as before. */
    ghost predicate Relinking(newArray: array<Entry?>, newMax: nat, ng: Picture, done: nat, found: seq<Link>,
                              rest: seq<Link>)
      requires Sound(g, hashFunc, max)
      reads this, buckets, newArray, g.nodes, cursor
    {
      && Entries(g, hashFunc, max) && FreeList(g, free)
      && Sound(ng, hashFunc, newMax) && ng.nodes == g.nodes && ng.freeList == g.freeList
      && Entries(ng, hashFunc, newMax) && Chains(ng, hashFunc, newMax, newArray[..])
      && Walking(Flatten(g.order), done, found, rest)
      && ng.cells.Keys == KeysOf(Flatten(g.order)[..done])
      && (forall k :: k in ng.cells ==> k in g.cells && ng.cells[k].val == g.cells[k].val)
    }

    /** The walk of the links in all stands at the one in found, after done others. */
    ghost predicate Walking(all: seq<Link>, done: nat, found: seq<Link>, rest: seq<Link>)
      reads this, buckets, g.nodes, cursor
    {
      && buckets.Length == max + 1 && done <= |all| && |found| <= 1
      && (found != [] ==>
           cursor.Ready(buckets[..], g.order, g.nodes, rest) && cursor.this_ == found[0].node &&
           cursor.index > 0 && Suffix(found + rest, g.order[cursor.index - 1]) &&
           all[done..] == found + cursor.Pending(g.order, rest))
      && (found == [] ==> done == |all|)
    }

    /** The entry the walk stands at is not among those still to come. */
    lemma Apart(done: nat, found: seq<Link>, rest: seq<Link>)
      requires Sound(g, hashFunc, max) && Entries(g, hashFunc, max)
      requires Walking(Flatten(g.order), done, found, rest) && found != []
      ensures found[0].node in g.nodes && Holds(found[0], hashFunc, g.cells)
      ensures found[0] == Flatten(g.order)[done] && Flatten(g.order)[done + 1..] == cursor.Pending(g.order, rest)
      ensures found[0].key !in KeysOf(Flatten(g.order)[..done])
      ensures forall j :: 0 <= j < |rest| ==> rest[j].node != found[0].node
      ensures forall i, j :: cursor.index <= i < |g.order| && 0 <= j < |g.order[i]| ==>
        g.order[i][j].node != found[0].node
    {
      hide Slot, Hash, Suffix, HeadsBut, LinksBut, Linked;
      var all, l := Flatten(g.order), found[0];
      FlattenLayout(g.order, g.cells, hashFunc, max);
      assert all[done..][0] == l && all[done + 1..] == all[done..][1..] == cursor.Pending(g.order, rest);
      forall x | x in all ensures x.node in g.nodes && Holds(x, hashFunc, g.cells) {
        var i := FlattenFrom(g.order, x);
      }
      forall x | x in cursor.Pending(g.order, rest) ensures x.node != l.node {
        OneKey(all, done, x);
        assert Holds(x, hashFunc, g.cells) && Holds(l, hashFunc, g.cells);
      }
      forall i, j | cursor.index <= i < |g.order| && 0 <= j < |g.order[i]|
        ensures g.order[i][j] in cursor.Pending(g.order, rest)
      {
        FlattenIn(g.order[cursor.index..], i - cursor.index, g.order[i][j]);
      }
      forall j | 0 <= j < |rest| ensures rest[j] in cursor.Pending(g.order, rest) {
        assert rest[j] == cursor.Pending(g.order, rest)[j];
      }
    }

    /** cursor.Next on a walk. */
    method Step(ghost all: seq<Link>, ghost done: nat, ghost rest: seq<Link>)
      returns (more: bool, ghost found: seq<Link>, ghost rest': seq<Link>)
      requires buckets.Length == max + 1 && cursor.Ready(buckets[..], g.order, g.nodes, rest)
      requires done <= |all| && all[done..] == cursor.Pending(g.order, rest)
      modifies cursor
      ensures Walking(all, done, found, rest') && (more <==> found != [])
    {
      hide Flatten;
      more, found, rest' := cursor.Next(this, g.order, g.nodes, rest);
      if !more {
        assert all[done..] == [];
      }
    }

    /** On a sound table a cursor is always ready to go on. */
    lemma CursorReady(rest: seq<Link>)
      requires Core() && cursor.Cursor(g.order, rest)
      ensures cursor.Ready(buckets[..], g.order, g.nodes, rest)
    {
      hide Slot, Hash, Layout, Entries, FreeList;
      if cursor.index > 0 {
        var chain := g.order[cursor.index - 1];
        forall j | 0 <= j < |rest| ensures rest[j] == chain[|chain| - |rest| + j] {
        }
      }
    }

    /** apr_hash_first(NULL, ht). */
    method First() returns (more: bool, ghost found: seq<Link>, ghost rest: seq<Link>)
      requires Core()
      modifies cursor
      ensures Walking(Flatten(g.order), 0, found, rest) && (more <==> found != [])
    {
      hide Slot, Hash, IsMask, Layout, Flatten, Entries, FreeList, LinksBut, HeadsBut, Suffix, Linked;
      cursor.index, cursor.this_, cursor.next := 0, null, null;
      assert g.order[0..] == g.order;
      CursorReady([]);
      more, found, rest := Step(Flatten(g.order), 0, []);
    }

    /** The body of the loop of expand_array. */
    method Relink(newArray: array<Entry?>, newMax: nat, ghost ng: Picture, ghost done: nat, ghost found: seq<Link>,
                  ghost rest: seq<Link>)
      returns (more: bool, ghost ng': Picture, ghost found': seq<Link>, ghost rest': seq<Link>)
      requires Sound(g, hashFunc, max) && Relinking(newArray, newMax, ng, done, found, rest) && found != []
      requires newArray != buckets
      modifies newArray, g.nodes`next, cursor
      ensures Relinking(newArray, newMax, ng', done + 1, found', rest') && (more <==> found' != [])
    {
      hide Slot, Hash, Flatten, Layout, Suffix, Values;
      Apart(done, found, rest);
      ghost var all := Flatten(g.order);
      assert all[..done + 1] == all[..done] + found;
      Move(newArray, newMax, found[0], cursor.this_, ng);
      ng' := Prepended(ng, hashFunc, newMax, found[0], cursor.this_.val);
      more, found', rest' := Step(all, done + 1, rest);
    }

    /** When the walk is over the new chains hold every key. */
    lemma Relinked(newArray: array<Entry?>, newMax: nat, ng: Picture, done: nat)
      requires IsMask(max) && Sound(g, hashFunc, max) && newMax == 2 * max + 1
      requires Relinking(newArray, newMax, ng, done, [], [])
      ensures IsMask(newMax) && |ng.cells| == |g.cells| && Values(ng.cells) == Values(g.cells)
    {
      hide Slot, Hash, Flatten;
      FlattenLayout(g.order, g.cells, hashFunc, max);
      assert Flatten(g.order)[..done] == Flatten(g.order);
      assert newMax / 2 == max;
      assert ng.cells.Keys == g.cells.Keys;
      assert |ng.cells.Keys| == |ng.cells| && |g.cells.Keys| == |g.cells|;
    }

    /** The loop of expand_array. */
    method RelinkAll(newArray: array<Entry?>, newMax: nat) returns (ghost ng: Picture, ghost done: nat)
      requires Core() && newArray != buckets && newArray.Length == newMax + 1
      requires forall i :: 0 <= i <= newMax ==> newArray[i] == null
      modifies newArray, g.nodes`next, cursor
      ensures Relinking(newArray, newMax, ng, done, [], [])
    {
      hide Slot, Hash, IsMask, Values, Layout, Flatten, KeysOf, LinksBut, HeadsBut, Suffix, Linked;
      ng, done := Picture(map[], seq(newMax + 1, _ => []), g.freeList, g.nodes), 0;
      EmptyChains(ng, hashFunc, newMax, newArray[..]);
      ghost var found, rest;
      var more;
      more, found, rest := First();
      KeysOfNone(Flatten(g.order));
      ng, done := RelinkRest(newArray, newMax, ng, more, found, rest);
    }

    method RelinkRest(newArray: array<Entry?>, newMax: nat, ghost ng0: Picture, more0: bool, ghost found0: seq<Link>,
                      ghost rest0: seq<Link>)
      returns (ghost ng: Picture, ghost done: nat)
      requires Sound(g, hashFunc, max) && newArray != buckets
      requires Relinking(newArray, newMax, ng0, 0, found0, rest0) && (more0 <==> found0 != [])
      modifies newArray, g.nodes`next, cursor
      ensures Relinking(newArray, newMax, ng, done, [], [])
    {
      hide Sound, Flatten;
      ng, done := ng0, 0;
      ghost var found, rest := found0, rest0;
      var more := more0;
      while more
        invariant Relinking(newArray, newMax, ng, done, found, rest) && (more <==> found != [])
        decreases |Flatten(g.order)| - done
      {
        RelinkingBound(newArray, newMax, ng, done, found, rest);
        more, ng, found, rest := Relink(newArray, newMax, ng, done, found, rest);
        RelinkingBound(newArray, newMax, ng, done + 1, found, rest);
        done := done + 1;
      }
      RelinkingBound(newArray, newMax, ng, done, found, rest);
    }

    lemma RelinkingBound(newArray: array<Entry?>, newMax: nat, ng: Picture, done: nat, found: seq<Link>,
                         rest: seq<Link>)
      requires Sound(g, hashFunc, max) && Relinking(newArray, newMax, ng, done, found, rest)
      ensures done <= |Flatten(g.order)|
      ensures found == [] ==> Relinking(newArray, newMax, ng, done, [], [])
    {
    }

    /** expand_array: walk the old chains, rewriting each entry's link while the walk is under way. */
    method ExpandArray()
      requires Core() && max < 0x7fff_ffff
      modifies this`buckets, this`max, this`g, g.nodes`next, cursor
      ensures Core() && max == 2 * old(max) + 1 && fresh(buckets)
      ensures Model() == old(Model())
      ensures g.freeList == old(g.freeList) && g.nodes == old(g.nodes)
    {
      hide Slot, Hash, IsMask, Values, Layout, Flatten, KeysOf, LinksBut, HeadsBut;
      var newMax := max * 2 + 1;
      var newArray := new Entry?[newMax + 1](_ => null);
      ghost var ng, done := RelinkAll(newArray, newMax);
      Relinked(newArray, newMax, ng, done);
      buckets, max, g := newArray, newMax, ng;
    }

    /** The delete branch of apr_hash_set, for a key that is present. */
    method Remove(key: Key, b: nat, prev: Entry?, he: Entry, ghost j: nat)
      requires Core() && key in g.cells && j == g.cells[key].pos && b == Bucket(key)
      requires Located(g.order, g.cells, hashFunc, max, key) && g.order[b][j].node == he
      requires prev == if j == 0 then null else g.order[b][j - 1].node
      modifies this`count, this`g, this`free, buckets, g.nodes
      ensures Core() && count == old(count) - 1 && g.nodes == old(g.nodes) && g.freeList == [he] + old(g.freeList)
      ensures old(key in g.cells && Located(g.order, g.cells, hashFunc, max, key))
      ensures g.cells == old(Without(g.cells, hashFunc, max, key))
      ensures g.order == old(Deleted(g, hashFunc, max, key).order)
    {
      hide Slot, Hash, IsMask, Values, Layout, Without, Sound, Entries, Chains, FreeList, Located;
      Detach(b, prev, he, key, j);
      Recycle(he);
    }

    /** The replace branch of apr_hash_set. */
    method Overwrite(he: Entry, ghost key: Key, val: Pointer)
      requires Built() && key in g.cells && Located(g.order, g.cells, hashFunc, max, key)
      requires he == g.order[Bucket(key)][g.cells[key].pos].node
      modifies this`g, he`val
      ensures Built() && |g.cells| == old(|g.cells|) && g == old(g.(cells := g.cells[key := g.cells[key].(val := val)]))
    {
      hide Slot, Hash, IsMask, Values, Layout;
      assert Holds(g.order[Bucket(key)][g.cells[key].pos], hashFunc, g.cells);
      OnlyPlace(g, hashFunc, max, Bucket(key), g.cells[key].pos);
      LayoutRevalue(g.order, g.cells, hashFunc, max, key, val);
      ValuesUpdate(g.cells, key, g.cells[key].(val := val));
      he.val := val;
      ghost var cells := g.cells[key := g.cells[key].(val := val)];
      forall i, m | 0 <= i <= max && 0 <= m < |g.order[i]| ensures Holds(g.order[i][m], hashFunc, cells) {
        LayoutAt(g.order, g.cells, hashFunc, max, i, m);
        assert old(Holds(g.order[i][m], hashFunc, g.cells));
      }
      g := g.(cells := cells);
    }

    /** apr_hash_get. */
    method Get(key: Key) returns (val: Pointer)
      requires Valid()
      ensures val == if key in Model() then Model()[key] else NULL
    {
      hide Slot, Hash, IsMask;
      var b, prev, he, j := Scan(key);
      if he == null {
        return NULL;
      }
      assert Holds(g.order[b][j], hashFunc, g.cells);
      return he.val;
    }

    /** apr_hash_set with a NULL value. */
    method Delete(key: Key)
      requires Core()
      modifies this`count, this`g, this`free, buckets, g.nodes
      ensures Core() && count <= old(count) && g.nodes == old(g.nodes) && Model() == old(Model()) - {key}
      ensures key !in old(g.cells) ==> g == old(g)
      ensures key in old(g.cells) ==>
        && old(Located(g.order, g.cells, hashFunc, max, key))
        && g.order == old(Deleted(g, hashFunc, max, key).order)
        && g.freeList == old([g.order[Bucket(key)][g.cells[key].pos].node] + g.freeList)
    {
      hide Slot, Hash, IsMask, Values, Layout, Without, Sound, Entries, Chains, FreeList, Located;
      var b, prev, he, j := FindEntry(key, NULL);
      if he != null {
        ValuesWithout(g.cells, hashFunc, max, key);
        Remove(key, b, prev, he, j);
      } else {
        ValuesKeys(g.cells);
        assert Model() - {key} == Model();
      }
    }

    /** apr_hash_set. */
    method Set(key: Key, val: Pointer)
      requires Valid() && (val == NULL || count < 0x7fff_ffff)
      modifies this, buckets, g.nodes, cursor
      ensures Valid() && fresh(g.nodes - old(g.nodes)) && (buckets == old(buckets) || fresh(buckets))
      ensures Model() == if val == NULL then old(Model()) - {key} else old(Model())[key := val]
    {
      hide Slot, Hash, IsMask, Values, Layout, Without, Sound, Entries, Chains, FreeList, Located;
      if val == NULL {
        Delete(key);
        return;
      }
      var b, prev, he, j := FindEntry(key, val);
      ValuesUpdate(g.cells, key, g.cells[key].(val := val));
      Overwrite(he, key, val);
      assert old(Model())[key := val][key := val] == old(Model())[key := val];
      if count > max {
        ExpandArray();
      }
    }

    /** apr_hash_count. */
    method Count() returns (n: nat)
      requires Valid()
      ensures n == |Model()|
    {
      ValuesKeys(g.cells);
      n := count;
    }

    /** The links from the cursor on are out of reach of a deletion at the cursor. */
    lemma AfterDelete(was: Picture, all: seq<Link>, done: nat, found: seq<Link>, rest: seq<Link>)
      requires |found| == 1 && |was.order| == |g.order| == max + 1 && 0 < cursor.index <= |g.order|
      requires done < |all| && all[done..] == found + (rest + Flatten(was.order[cursor.index..]))
      requires Suffix(found + rest, was.order[cursor.index - 1]) && cursor.next == NodeAt(rest, 0)
      requires var b := cursor.index - 1; var ks := was.order[b]; var j := |ks| - |rest| - 1;
        g.order == was.order || g.order == was.order[b := ks[..j] + ks[j + 1..]]
      ensures cursor.Cursor(g.order, rest) && all[done + 1..] == cursor.Pending(g.order, rest)
    {
      hide Flatten;
      assert g.order[cursor.index..] == was.order[cursor.index..];
      assert all[done + 1..] == all[done..][1..];
    }

    lemma WalkOver(all: seq<Link>, done: nat, rest: seq<Link>)
      requires Walking(all, done, [], rest)
      ensures done == |all|
    {
    }

    /** One turn of a loop over the table that may delete the entry it stands at. */
    method Visit(drop: bool, ghost all: seq<Link>, ghost done: nat, ghost found: seq<Link>, ghost rest: seq<Link>)
      returns (more: bool, ghost found': seq<Link>, ghost rest': seq<Link>)
      requires Core() && Walking(all, done, found, rest) && found != []
      modifies this`count, this`g, this`free, buckets, g.nodes, cursor
      ensures Core() && count <= old(count) && Walking(all, done + 1, found', rest') && (more <==> found' != [])
      ensures done < |all| && found == [all[done]] && found[0].key in old(g.cells) && g.nodes == old(g.nodes)
      ensures Model() == if drop then old(Model()) - {found[0].key} else old(Model())
      ensures g.freeList == if drop then [found[0].node] + old(g.freeList) else old(g.freeList)
    {
      hide Slot, Hash, IsMask, Values, Layout, Entries, Chains, FreeList, Flatten;
      ghost var b := cursor.index - 1;
      ghost var j := |g.order[b]| - |rest| - 1;
      ghost var was := g;
      assert g.order[b][j] == found[0] == all[done..][0];
      LayoutAt(g.order, g.cells, hashFunc, max, b, j);
      if drop {
        EntryAt(g, hashFunc, max, b, j);
        Delete(cursor.this_.key);
      }
      AfterDelete(was, all, done, found, rest);
      CursorReady(rest);
      more, found', rest' := Step(all, done + 1, rest);
    }

    lemma ValidCore()
      ensures Valid() <==> Core() && count <= max
    {
    }

    /** What a walk over the table comes across: every key, once. */
    lemma WalkKeys()
      requires Core()
      ensures DistinctKeys(Flatten(g.order)) && KeysOf(Flatten(g.order)) == Model().Keys
      ensures |Flatten(g.order)| == count == |Model()|
    {
      hide Slot, Hash, IsMask, Values, Layout, Entries, Chains, FreeList, Flatten, KeysOf, DistinctKeys;
      FlattenCount(g, hashFunc, max);
      ValuesKeys(g.cells);
    }

    /** apr_hash_clear: every live entry is deleted under the iterator that found it. */
    method Clear()
      requires Valid()
      modifies this`count, this`g, this`free, buckets, g.nodes, cursor
      ensures Valid() && Model() == map[] && count == 0 && g.nodes == old(g.nodes)
      ensures |g.freeList| == old(|g.freeList| + count)
      ensures Freed(old(Flatten(g.order)), g.freeList)
    {
      hide *;
      ValidCore();
      ghost var all, done, found, rest := Flatten(g.order), 0, [], [];
      WalkKeys();
      KeysOfNone(all);
      FreedNone(all, g.freeList);
      var more;
      more, found, rest := First();
      while more
        invariant Core() && count <= max && Walking(all, done, found, rest) && (more <==> found != []) && done <= |all|
        invariant Model() == old(Model()) - KeysOf(all[..done]) && g.nodes == old(g.nodes)
        invariant |g.freeList| == |old(g.freeList)| + done
        invariant Freed(all[..done], g.freeList)
        decreases |all| - done
      {
        ghost var freeList := g.freeList;
        more, found, rest := Visit(true, all, done, found, rest);
        FreedNext(all, done, freeList);
        KeysOfNext(all, done);
        done := done + 1;
      }
      WalkOver(all, done, rest);
      assert all[..done] == all;
      WalkKeys();
      ValidCore();
    }

    /** What a loop over the table sees at the cursor. */
    lemma Current(all: seq<Link>, done: nat, found: seq<Link>, rest: seq<Link>)
      requires Core() && Walking(all, done, found, rest) && found != []
      ensures done < |all| && found == [all[done]] && all[done].key in Model()
      ensures cursor.this_ != null && cursor.this_.key == all[done].key && cursor.this_.val == Model()[all[done].key]
    {
      hide Slot, Hash, IsMask, Layout, Entries, Chains, FreeList, Flatten;
      var b := cursor.index - 1;
      var j := |g.order[b]| - |rest| - 1;
      assert g.order[b][j] == found[0] == all[done..][0];
      EntryAt(g, hashFunc, max, b, j);
    }

    /** The loop of DeleteWhere. */
    method DropAll(drop: (Key, Pointer) -> bool, more0: bool, ghost found0: seq<Link>, ghost rest0: seq<Link>,
                   ghost all: seq<Link>)
      returns (visited: seq<Key>)
      requires Core() && count <= max && Walking(all, 0, found0, rest0) && (more0 <==> found0 != [])
      modifies this`count, this`g, this`free, buckets, g.nodes, cursor
      ensures Core() && count <= max && g.nodes == old(g.nodes) && visited == KeySeq(all)
      ensures Model() == old(Model()) - Unwanted(old(Model()), drop, all)
    {
      hide *;
      var more := more0;
      ghost var M, done, found, rest := Model(), 0, found0, rest0;
      visited := [];
      UnwantedNone(M, drop, all);
      while more
        invariant Core() && count <= max && Walking(all, done, found, rest) && (more <==> found != []) && done <= |all|
        invariant g.nodes == old(g.nodes)
        invariant visited == KeySeq(all[..done])
        invariant Model() == M - Unwanted(M, drop, all[..done])
        decreases |all| - done
      {
        Current(all, done, found, rest);
        var e := cursor.this_;
        visited := visited + [e.key];
        KeySeqNext(all, done);
        UnwantedNext(M, drop, all, done);
        more, found, rest := Visit(Drops(drop, e.key, e.val), all, done, found, rest);
        done := done + 1;
      }
      WalkOver(all, done, rest);
      assert all[..done] == all;
    }

    /** A client's loop over the table that deletes, as it goes, the entries it does not want. */
    method DeleteWhere(drop: (Key, Pointer) -> bool) returns (visited: seq<Key>)
      requires Valid()
      modifies this`count, this`g, this`free, buckets, g.nodes, cursor
      ensures Valid() && g.nodes == old(g.nodes)
      ensures NoDup(visited)
      ensures (set k | k in visited) == old(Model()).Keys
      ensures Model() == map k | k in old(Model()) && !Drops(drop, k, old(Model())[k]) :: old(Model())[k]
    {
      hide *;
      ValidCore();
      ghost var all, M := Flatten(g.order), Model();
      WalkKeys();
      var more;
      ghost var found, rest;
      more, found, rest := First();
      visited := DropAll(drop, more, found, rest, all);
      UnwantedAll(M, drop, all);
      KeySeqDistinct(all);
      ValidCore();
    }
  }
}
