// Writing into a brigade: small writes share a heap bucket, large ones are flushed or copied.
module BrigadeWrites {
  import opened Seqs
  import opened Text
  import opened Buckets
  import opened Overlaps
  import opened Brigades
  import opened Flushes
  import Rings

  /** `memcpy(base + at, str, n)`, inside the allocation. */
  method CopyInto(base: array<Byte>, at: nat, str: seq<Byte>)
    requires at + |str| <= base.Length
    modifies base
    ensures base[..] == Overwrite(old(base[..]), at, str)
  {
    forall i | 0 <= i < |str| {
      base[at + i] := str[i];
    }
  }

  /** The end of the data in the last bucket, a heap bucket. */
  ghost function TailEnd(parts: seq<Part>): nat {
    if parts == [] then 0 else parts[|parts| - 1].at + |parts[|parts| - 1].text|
  }

  ghost predicate HeapTail(parts: seq<Part>) {
    parts != [] && parts[|parts| - 1].own && parts[|parts| - 1].store != null
  }

  /** The last part with str behind it. */
  ghost function Grown(parts: seq<Part>, str: seq<Byte>): seq<Part> {
    var m := |parts| - 1;
    if parts == [] then [] else parts[m := parts[m].(text := parts[m].text + str)]
  }

  lemma GrownLaws(parts: seq<Part>, str: seq<Byte>)
    requires parts != []
    ensures PartsBytes(Grown(parts, str)) == PartsBytes(parts) + str
    ensures (TailClear(parts) ==> TailClear(Grown(parts, str)))
    ensures HeapTail(parts) ==> Space(Grown(parts, str)) == Space(parts) - |str| && HeapTail(Grown(parts, str))
  {
    hide PartsBytes;
    var m := |parts| - 1;
    PartsBytesAt(parts, m);
    PartsBytesAt(Grown(parts, str), m);
    PartsBytesNone();
    assert parts[m + 1..] == [] == Grown(parts, str)[m + 1..] && Grown(parts, str)[..m] == parts[..m];
  }

  lemma GrownTwice(parts: seq<Part>, s: seq<Byte>, t: seq<Byte>)
    ensures Grown(Grown(parts, s), t) == Grown(parts, s + t)
  {
    if parts != [] {
      assert (parts[|parts| - 1].text + s) + t == parts[|parts| - 1].text + (s + t);
    }
  }

  /** Memory that changes has no influence on where the parts are, and how long. */
  lemma RereadShape(parts: seq<Part>, a: array<Byte>, now: seq<Byte>)
    ensures var r := Reread(parts, a, now);
      && Space(r) == Space(parts) && (HeapTail(r) <==> HeapTail(parts)) && TailEnd(r) == TailEnd(parts)
      && (TailClear(r) <==> TailClear(parts))
  {
    var r := Reread(parts, a, now);
    assert forall i :: 0 <= i < |parts| ==>
      r[i].store == parts[i].store && |r[i].text| == |parts[i].text| && r[i].at == parts[i].at;
  }

  /** A write of n bytes puts them where some of the parts of others have data. */
  ghost predicate Hits(parts: seq<Part>, n: nat, others: seq<Part>) {
    && HeapTail(parts) && n <= Space(parts)
    && Meets(others, parts[|parts| - 1].store, TailEnd(parts), n)
  }

  /** If nothing is behind the end of the last heap bucket, a write hits nothing of its own brigade. */
  lemma ClearMisses(parts: seq<Part>, n: nat)
    requires TailClear(parts)
    ensures !Hits(parts, n, parts)
  {
  }

  lemma ValidAgrees(b: Brigade, a: array<Byte>)
    requires b.Valid()
    ensures Agrees(b.parts, a, a[..])
  {
    hide Brigade.Valid;
    b.ValidLinked();
    forall i | 0 <= i < |b.parts| && b.parts[i].store == a ensures Stored(b.parts[i]) {
    }
  }

  /** `memcpy` behind the data of the last bucket. */
  method FillTail(b: Brigade, base: array<Byte>, at: nat, str: seq<Byte>)
    requires b.Valid() && HeapTail(b.parts) && base == b.parts[|b.parts| - 1].store
    requires at == TailEnd(b.parts) && at + |str| <= base.Length
    modifies b`parts, base
    ensures b.Valid() && base[..] == Overwrite(old(base[..]), at, str)
    ensures b.parts == Reread(old(b.parts), base, base[..])
    ensures !Hits(old(b.parts), |str|, old(b.parts)) ==> b.parts == old(b.parts)
  {
    hide Brigade.Valid, Reread, Agrees, Overwrite;
    b.ValidLinked();
    ValidAgrees(b, base);
    ghost var before, mem := b.parts, base[..];
    CopyInto(base, at, str);
    b.Refill(base);
    if !Meets(before, base, at, |str|) {
      WriteApart(before, base, mem, at, str);
    }
  }

  /** Append to the last bucket, a heap bucket with room. */
  method AppendTail(b: Brigade, e: Bucket, str: seq<Byte>)
    requires b.Valid() && b.list != [] && e == b.list[|b.list| - 1] && e.body.Heap?
    requires e.length.Known? && e.start + e.length.n + |str| <= e.body.base.Length
    modifies b`parts, e`length, e.body.base
    ensures b.Valid() && b.list == old(b.list) && e.length == Known(old(e.length.n) + |str|)
    ensures old(HeapTail(b.parts)) && e.body.base == old(b.parts[|b.parts| - 1].store)
    ensures e.body.base[..] == Overwrite(old(e.body.base[..]), old(TailEnd(b.parts)), str)
    ensures b.parts == Grown(Reread(old(b.parts), e.body.base, e.body.base[..]), str)
    ensures Space(b.parts) == old(Space(b.parts)) - |str| && (old(TailClear(b.parts)) ==> TailClear(b.parts))
    ensures !Hits(old(b.parts), |str|, old(b.parts)) ==>
      b.parts == Grown(old(b.parts), str) && b.Bytes() == old(b.Bytes()) + str
  {
    hide PartsBytes, Holds, TailClear, Space, Hits, Reread;
    TailHeap(b);
    ghost var before := b.parts;
    FillTail(b, e.body.base, e.start + e.length.n, str);
    RereadShape(before, e.body.base, e.body.base[..]);
    GrownLaws(b.parts, str);
    Lengthen(b, e, str);
  }

  /** The last bucket takes in what is behind its data. */
  method Lengthen(b: Brigade, e: Bucket, str: seq<Byte>)
    requires b.Valid() && b.list != [] && e == b.list[|b.list| - 1] && e.body.Heap? && e.length.Known?
    requires e.start + e.length.n + |str| <= e.body.base.Length
    requires e.body.base[e.start + e.length.n..e.start + e.length.n + |str|] == str
    modifies b`parts, e`length
    ensures b.Valid() && e.length == Known(old(e.length.n) + |str|) && b.parts == Grown(old(b.parts), str)
  {
    hide Rings.Cyclic, PartsBytes, ScriptBytes, FirstFail;
    ghost var m := |b.list| - 1;
    b.Whole(e, m);
    b.Others(m);
    e.length := Known(e.length.n + |str|);
    b.parts := Grown(b.parts, str);
    b.Reload(m, b.parts[m]);
  }

  lemma TailHeap(b: Brigade)
    requires b.Valid() && b.list != []
    ensures |b.list| == |b.parts|
    ensures var e, p := b.list[|b.list| - 1], b.parts[|b.parts| - 1];
      && (e.body.Heap? <==> HeapTail(b.parts))
      && (e.body.Heap? ==>
        && e.length.Known? && e in b.repr && e.body.base == p.store && e.body.base in b.stores
        && e.start + e.length.n == TailEnd(b.parts)
        && Space(b.parts) == e.body.base.Length - (e.length.n + e.start) >= 0)
  {
    hide Rings.Cyclic;
    b.Whole(b.list[|b.list| - 1], |b.list| - 1);
  }

  lemma PartsBytesSnoc(parts: seq<Part>, p: Part)
    ensures PartsBytes(parts + [p]) == PartsBytes(parts) + p.text
  {
    PartsBytesConcat(parts, [p]);
    PartsBytesTwo(p, p);
  }

  /**
   * apr_bucket_transient_create and APR_BRIGADE_INSERT_TAIL: the bucket points to the memory of the caller,
   * to from.at in it.
   */
  method AddTransient(b: Brigade, str: seq<Byte>, from: Loan)
    requires b.Valid() && from.Has(str)
    modifies b, b.repr`next, b.repr`prev
    ensures b.Valid() && fresh(b.repr - old(b.repr)) && b.stores == old(b.stores) + {from.mem}
    ensures b.parts == old(b.parts) + [Lent(str, from.mem, from.at)] && b.Bytes() == old(b.Bytes()) + str
  {
    hide PartsBytes, Loaded;
    ghost var p := Lent(str, from.mem, from.at);
    PartsBytesSnoc(b.parts, p);
    var e := new Bucket(Transient(from.mem), Known(|str|), from.at);
    b.InsertTail(e, p);
  }

  /** A heap bucket in new memory of the given size. */
  ghost predicate NewHeapPart(p: Part, str: seq<Byte>, size: nat, known: set<array<Byte>>) {
    p.store != null && p == Own(str, p.store, 0) && p.store !in known && p.store.Length == size
  }

  /** apr_bucket_heap_create and APR_BRIGADE_INSERT_TAIL: size bytes of storage that hold str. */
  method AddHeap(b: Brigade, str: seq<Byte>, size: nat) returns (e: Bucket)
    requires b.Valid() && |str| <= size
    modifies b, b.repr`next, b.repr`prev
    ensures b.Valid() && TailClear(b.parts) && fresh(b.repr - old(b.repr)) && fresh(b.stores - old(b.stores))
    ensures b.Bytes() == old(b.Bytes()) + str && b.list == old(b.list) + [e] && fresh(e)
    ensures e.body.Heap? && e.body.base.Length == size && e.start == 0 && e.length == Known(|str|) && fresh(e.body.base)
    ensures |b.parts| == |old(b.parts)| + 1 && b.parts[..|old(b.parts)|] == old(b.parts)
    ensures b.parts[|old(b.parts)|] == Own(str, e.body.base, 0)
  {
    hide PartsBytes, Loaded, Rings.Cyclic;
    var base := NewHeap(str, size);
    ghost var p := Own(str, base, 0);
    PartsBytesSnoc(b.parts, p);
    e := new Bucket(Heap(base), Known(|str|), 0);
    b.InsertTail(e, p);
  }

  /** The memory that a write of n bytes changes: that of the last bucket, if it is a heap bucket with room. */
  ghost function Touched(parts: seq<Part>, n: nat): set<array<Byte>> {
    if HeapTail(parts) && n <= Space(parts) then {parts[|parts| - 1].store} else {}
  }

  lemma TouchedStore(b: Brigade, n: nat)
    requires b.Valid()
    ensures Touched(b.parts, n) <= b.stores
  {
    hide Brigade.Valid;
    b.ValidLinked();
  }

  /** What a write makes of the parts of a brigade. */
  ghost predicate Wrote(before: seq<Part>, str: seq<Byte>, from: Loan, sending: bool, turn: Turn, now: seq<Part>,
                        known: set<array<Byte>>) {
    if |str| <= Space(before) && HeapTail(before) then now == Grown(before, str)
    else if |str| > Space(before) && sending then
      from.Loan? && Flushed(before + [Lent(str, from.mem, from.at)], turn, now, known)
    else
      && |now| == |before| + 1 && now[..|before|] == before
      && NewHeapPart(now[|before|], str, if |str| <= Space(before) then BUFF_SIZE else |str|, known)
  }

  /** The turn that a write takes from the plan of the callback, if it takes one. */
  ghost function TurnOf(sink: Sink?): Turn
    reads sink
  {
    NextTurn(if sink == null then [] else sink.plan)
  }

  /** The data does not fit: it is lent to the callback, or copied to a bucket of its own. */
  method WriteBig(b: Brigade, sink: Sink?, str: seq<Byte>, from: Loan) returns (rv: Status)
    requires b.Valid() && (sink != null ==> from.Has(str)) && |str| > Space(b.parts) >= 0
    modifies b, b.repr, sink
    ensures b.Valid() && TailClear(b.parts) && fresh(b.repr - old(b.repr))
    ensures fresh(b.stores - old(b.stores) - from.Memory())
    ensures Written(b, sink) == old(Written(b, sink)) + str
    ensures rv == (if sink != null then old(TurnOf(sink)).rv else SUCCESS)
    ensures (sink != null ==> sink.plan == Rest(old(sink.plan)))
    ensures Wrote(old(b.parts), str, from, sink != null, old(TurnOf(sink)), b.parts, old(b.stores) + from.Memory())
  {
    hide PartsBytes, Brigade.Valid, Flushed, Space, TailClear;
    rv := SUCCESS;
    if sink != null {
      ghost var known := b.stores + from.Memory();
      b.ValidLinked();
      AddTransient(b, str, from);
      ghost var lent := b.parts;
      assert b.stores == known;
      assert sink.sent + (old(b.Bytes()) + str) == sink.sent + old(b.Bytes()) + str;
      rv := sink.Flush(b);
      FlushedClear(lent, old(TurnOf(sink)), b.parts, known);
    } else {
      assert [] + (old(b.Bytes()) + str) == [] + old(b.Bytes()) + str;
      var e := AddHeap(b, str, |str|);
    }
  }

  /** The data fits: it is copied behind the last bucket, or into a new buffer. */
  method WriteSmall(b: Brigade, tail: Bucket?, ghost sink: Sink?, str: seq<Byte>, ghost from: Loan)
    requires b.Valid() && |str| <= Space(b.parts)
    requires if HeapTail(b.parts) then b.list != [] && tail == b.list[|b.list| - 1] else tail == null
    modifies b, b.repr, Touched(b.parts, |str|)
    ensures b.Valid() && fresh(b.repr - old(b.repr)) && fresh(b.stores - old(b.stores))
    ensures old(TailClear(b.parts)) ==> TailClear(b.parts)
    ensures !Hits(old(b.parts), |str|, old(b.parts)) ==>
      && Written(b, sink) == old(Written(b, sink)) + str
      && Wrote(old(b.parts), str, from, sink != null, old(TurnOf(sink)), b.parts, old(b.stores) + from.Memory())
    ensures old(HeapTail(b.parts)) ==>
      var a, at := old(b.parts[|b.parts| - 1]).store, old(TailEnd(b.parts));
      && at + |str| <= a.Length && a[..] == Overwrite(old(a[..]), at, str)
      && b.parts == Grown(Reread(old(b.parts), a, a[..]), str)
  {
    hide PartsBytes, Brigade.Valid, TailClear, Overwrite, Meets, Reread, Grown, TurnOf;
    ghost var sent := if sink == null then [] else sink.sent;
    assert sent + (old(b.Bytes()) + str) == sent + old(b.Bytes()) + str;
    NoTail(b.parts);
    var e := tail;
    if e != null {
      TailHeap(b);
      AppendTail(b, e, str);
    } else {
      e := AddHeap(b, [], BUFF_SIZE);
      assert old(b.Bytes()) + [] == old(b.Bytes()) && [] + str == str;
      ghost var buffer := b.parts;
      ClearMisses(buffer, |str|);
      AppendTail(b, e, str);
      GrownBuffer(old(b.parts), buffer, str);
    }
  }

  /** An empty bucket at the end that takes in str. */
  lemma GrownBuffer(before: seq<Part>, buffer: seq<Part>, str: seq<Byte>)
    requires |buffer| == |before| + 1 && buffer[..|before|] == before && buffer[|before|].text == []
    ensures var now := Grown(buffer, str);
      |now| == |buffer| && now[..|before|] == before && now[|before|] == buffer[|before|].(text := str)
  {
    assert [] + str == str;
  }

  /** The heap bucket at the end, if there is one, and how much can be written. */
  method Remaining(b: Brigade) returns (tail: Bucket?, remaining: int)
    requires b.Valid()
    ensures remaining == Space(b.parts) >= 0
    ensures if HeapTail(b.parts) then b.list != [] && tail == b.list[|b.list| - 1] else tail == null
  {
    hide PartsBytes, Brigade.Valid, Space, HeapTail;
    tail, remaining := null, BUFF_SIZE;
    b.NextAt(|b.list|);
    NoTail(b.parts);
    var e := b.sentinel.prev;
    var empty := b.IsEmpty();
    if empty {
      EmptyTail(b);
    } else {
      TailHeap(b);
      if e.body.Heap? {
        tail, remaining := e, e.body.base.Length - (e.length.n + e.start);
      }
    }
  }

  /**
   * apr_brigade_write of str, which the caller keeps at from. What it writes arrives, unless the brigade
   * itself has data in the room behind its last bucket.
   */
  method Write(b: Brigade, sink: Sink?, str: seq<Byte>, from: Loan) returns (rv: Status)
    requires b.Valid() && (sink != null ==> from.Has(str))
    modifies b, b.repr, Touched(b.parts, |str|), sink
    ensures b.Valid() && fresh(b.repr - old(b.repr)) && fresh(b.stores - old(b.stores) - from.Memory())
    ensures old(TailClear(b.parts)) ==> TailClear(b.parts) && !Hits(old(b.parts), |str|, old(b.parts))
    ensures !Hits(old(b.parts), |str|, old(b.parts)) ==>
      && Written(b, sink) == old(Written(b, sink)) + str
      && Wrote(old(b.parts), str, from, sink != null, old(TurnOf(sink)), b.parts, old(b.stores) + from.Memory())
    ensures rv == if sink != null && |str| > old(Space(b.parts)) then old(TurnOf(sink)).rv else SUCCESS
    ensures sink != null ==> sink.plan == if |str| > old(Space(b.parts)) then Rest(old(sink.plan)) else old(sink.plan)
    ensures old(HeapTail(b.parts)) && |str| <= old(Space(b.parts)) ==>
      var a, at := old(b.parts[|b.parts| - 1]).store, old(TailEnd(b.parts));
      && at + |str| <= a.Length && a[..] == Overwrite(old(a[..]), at, str)
      && b.parts == Grown(Reread(old(b.parts), a, a[..]), str) && (sink != null ==> sink.sent == old(sink.sent))
  {
    hide PartsBytes, Brigade.Valid, Space, TailClear, TailEnd, HeapTail, Touched, Wrote, Written, TurnOf, Overwrite,
      Grown, Reread, Hits;
    ghost var before := b.parts;
    if TailClear(before) {
      ClearMisses(before, |str|);
    }
    var tail, remaining := Remaining(b);
    HeapStore(before);
    assert HeapTail(before) ==> before[|before| - 1].store[..] == old(before[|before| - 1].store[..]);
    rv := SUCCESS;
    if |str| > remaining {
      rv := WriteBig(b, sink, str, from);
      return;
    }
    WriteSmall(b, tail, sink, str, from);
    assert fresh(b.stores - old(b.stores));
    assert b.stores - old(b.stores) - from.Memory() <= b.stores - old(b.stores);
  }

  lemma HeapStore(parts: seq<Part>)
    ensures HeapTail(parts) ==> parts != [] && parts[|parts| - 1].store != null
  {
  }

  lemma EmptyTail(b: Brigade)
    requires b.Valid() && b.list == []
    ensures !HeapTail(b.parts)
  {
    b.NextAt(0);
  }

  lemma NoTail(parts: seq<Part>)
    ensures !HeapTail(parts) ==> Space(parts) == 8000
  {
  }

  /** How much can be written behind a write. */
  lemma WroteSpace(before: seq<Part>, str: seq<Byte>, from: Loan, sending: bool, turn: Turn, now: seq<Part>,
                   known: set<array<Byte>>)
    requires Wrote(before, str, from, sending, turn, now, known)
    ensures Space(now) ==
      if |str| <= Space(before) then Space(before) - |str|
      else if sending && !(turn.leave > 0 && turn.aside) then BUFF_SIZE else 0
  {
    if |str| > Space(before) && sending {
      FlushedSpace(before + [Lent(str, from.mem, from.at)], turn, now, known);
    }
  }

  lemma FlattenStep(vec: seq<seq<Byte>>, i: nat, j: nat)
    requires i <= j < |vec|
    ensures Flatten(vec[i..j + 1]) == Flatten(vec[i..j]) + vec[j]
    ensures Flatten(vec[i..]) == Flatten(vec[i..j]) + Flatten(vec[j..])
    ensures Flatten(vec[j..]) == vec[j] + Flatten(vec[j + 1..])
  {
    assert vec[i..j + 1] == vec[i..j] + [vec[j]];
    FlattenConcat(vec[i..j], [vec[j]]);
    assert Flatten([vec[j]]) == vec[j] by { assert Flatten([vec[j]]) == vec[j] + Flatten(vec[i..i]); }
    assert vec[i..] == vec[i..j] + vec[j..];
    FlattenConcat(vec[i..j], vec[j..]);
    assert vec[j..][1..] == vec[j + 1..];
  }

  /** Pieces i to j - 1 fit into the room, and one more does not. */
  ghost predicate Longest(vec: seq<seq<Byte>>, i: nat, j: nat, room: int)
    requires i <= j <= |vec|
  {
    |Flatten(vec[i..j])| <= room && (j < |vec| ==> |Flatten(vec[i..j])| + |vec[j]| > room)
  }

  /** What has become of the parts of a brigade whose last bucket took in text. */
  ghost predicate Gathered(before: seq<Part>, now: seq<Part>, text: seq<Byte>) {
    && HeapTail(before) && Space(now) + |text| == Space(before) && NoNewLoans(before, now)
    && (TailClear(before) ==> TailClear(now)) && (!Hits(before, |text|, before) ==> now == Grown(before, text))
  }

  /** One more piece goes into the last bucket. */
  method AppendPiece(b: Brigade, e: Bucket, str: seq<Byte>, ghost before: seq<Part>, ghost text: seq<Byte>)
    requires b.Valid() && b.list != [] && e == b.list[|b.list| - 1] && e.body.Heap? && Gathered(before, b.parts, text)
    requires e.length.Known? && e.start + e.length.n + |str| <= e.body.base.Length
    modifies b`parts, e`length, e.body.base
    ensures b.Valid() && b.list == old(b.list) && Gathered(before, b.parts, text + str)
  {
    hide PartsBytes, Brigade.Valid, TailClear, Grown, Hits, Reread, NoNewLoans, Space;
    ghost var was := b.parts;
    TailHeap(b);
    if !Hits(before, |text + str|, before) {
      GrownMisses(before, text, |str|);
    }
    GrownTwice(before, text, str);
    AppendTail(b, e, str);
    GrownLoans(was, e.body.base, e.body.base[..], str);
    LoansTwice(before, was, b.parts);
  }

  /** What is not hit by a write is not hit by its first part, nor then by the rest. */
  lemma GrownMisses(parts: seq<Part>, text: seq<Byte>, n: nat)
    requires HeapTail(parts) && |text| + n <= Space(parts) && !Hits(parts, |text| + n, parts)
    ensures !Hits(parts, |text|, parts) && !Hits(Grown(parts, text), n, Grown(parts, text))
  {
    var now, a := Grown(parts, text), parts[|parts| - 1].store;
    forall i | 0 <= i < |parts|
      ensures !Touches(parts[i], a, TailEnd(parts), |text|) && !Touches(now[i], a, TailEnd(now), n)
    {
      assert !Touches(parts[i], a, TailEnd(parts), |text| + n);
    }
  }

  lemma GatheredNone(parts: seq<Part>)
    requires HeapTail(parts)
    ensures Gathered(parts, parts, [])
  {
    LoansSame(parts);
    GrownNone(parts);
  }

  lemma GatheredLaws(before: seq<Part>, now: seq<Part>, text: seq<Byte>)
    requires Gathered(before, now, text)
    ensures NoNewLoans(before, now) && Space(now) + |text| == Space(before)
    ensures TailClear(before) ==> TailClear(now) && !Hits(before, |text|, before)
    ensures !Hits(before, |text|, before) ==> now == Grown(before, text) && PartsBytes(now) == PartsBytes(before) + text
  {
    hide PartsBytes, TailClear, Space, Hits;
    if TailClear(before) {
      ClearMisses(before, |text|);
    }
    GrownLaws(before, text);
  }

  /** Copy pieces i, i + 1, ... into the last bucket, as long as they fit. */
  method AppendPieces(b: Brigade, e: Bucket, vec: seq<seq<Byte>>, i: nat) returns (j: nat)
    requires b.Valid() && b.list != [] && e == b.list[|b.list| - 1] && e.body.Heap?
    requires i <= |vec|
    modifies b`parts, e`length, e.body.base
    ensures b.Valid() && b.list == old(b.list) && i <= j <= |vec|
    ensures old(TailClear(b.parts)) ==> TailClear(b.parts) && !Hits(old(b.parts), |Flatten(vec[i..j])|, old(b.parts))
    ensures !Hits(old(b.parts), |Flatten(vec[i..j])|, old(b.parts)) ==>
      && b.parts == Grown(old(b.parts), Flatten(vec[i..j])) && b.Bytes() == old(b.Bytes()) + Flatten(vec[i..j])
    ensures j == |vec| <==> |Flatten(vec[i..])| <= old(Space(b.parts))
    ensures Longest(vec, i, j, old(Space(b.parts))) && NoNewLoans(old(b.parts), b.parts)
  {
    hide PartsBytes, Brigade.Valid, TailClear, Grown, Flatten, Gathered, NoNewLoans, Space, Hits;
    j := i;
    ghost var before := b.parts;
    TailHeap(b);
    FlattenNone(vec[i..]);
    assert vec[i..i] == vec[i..][..0];
    assert vec[i..|vec|] == vec[i..];
    GatheredNone(before);
    while j < |vec|
      invariant i <= j <= |vec| && b.Valid() && b.list == old(b.list) && e.body == old(e.body)
      invariant Gathered(before, b.parts, Flatten(vec[i..j]))
    {
      FlattenStep(vec, i, j);
      TailHeap(b);
      GatheredLaws(before, b.parts, Flatten(vec[i..j]));
      if |vec[j]| > e.body.base.Length - (e.length.n + e.start) {
        break;
      }
      AppendPiece(b, e, vec[j], before, Flatten(vec[i..j]));
      j := j + 1;
    }
    TailHeap(b);
    GatheredLaws(before, b.parts, Flatten(vec[i..j]));
  }

  lemma GrownNone(parts: seq<Part>)
    ensures Grown(parts, []) == parts
  {
    if parts != [] {
      assert parts[|parts| - 1].text + [] == parts[|parts| - 1].text;
    }
  }

  /** The pieces as buckets lent by the caller. */
  ghost function LentParts(vec: seq<seq<Byte>>, from: seq<Loan>): (parts: seq<Part>)
    requires |from| == |vec| && forall i :: 0 <= i < |from| ==> from[i].Loan?
    ensures |parts| == |vec| && forall i :: 0 <= i < |vec| ==> parts[i] == Lent(vec[i], from[i].mem, from[i].at)
  {
    seq(|vec|, i requires 0 <= i < |vec| => Lent(vec[i], from[i].mem, from[i].at))
  }

  /** The caller keeps each piece at its place. */
  ghost predicate HasAll(from: seq<Loan>, vec: seq<seq<Byte>>)
    reads set i | 0 <= i < |from| && from[i].Loan? :: from[i].mem
  {
    |from| == |vec| && forall i :: 0 <= i < |vec| ==> from[i].Loan? && from[i].Has(vec[i])
  }

  ghost function Memories(from: seq<Loan>): set<array<Byte>> {
    set i | 0 <= i < |from| && from[i].Loan? :: from[i].mem
  }

  lemma HasAt(from: seq<Loan>, vec: seq<seq<Byte>>, i: nat)
    requires HasAll(from, vec) && i < |vec|
    ensures |from| == |vec| && from[i].Loan? && from[i].Has(vec[i])
  {
  }

  /** The very large case of apr_brigade_writev with a callback: one bucket a piece, lent by the caller. */
  method LendPieces(b: Brigade, vec: seq<seq<Byte>>, from: seq<Loan>)
    requires b.Valid() && HasAll(from, vec)
    modifies b, b.repr`next, b.repr`prev
    ensures b.Valid() && fresh(b.repr - old(b.repr)) && b.stores == old(b.stores) + Memories(from)
    ensures b.parts == old(b.parts) + LentParts(vec, from) && b.Bytes() == old(b.Bytes()) + Flatten(vec)
  {
    hide PartsBytes, Brigade.Valid, Flatten, HasAll, Memories, LentParts, Brigade.Ring;
    HasSize(from, vec);
    ghost var all := LentParts(vec, from);
    FlattenNone(vec);
    MemoriesNone(from);
    assert vec[0..0] == vec[..0] && b.parts + all[..0] == b.parts;
    for i := 0 to |vec|
      invariant b.Valid() && fresh(b.repr - old(b.repr)) && b.stores == old(b.stores) + Memories(from[..i])
      invariant HasAll(from, vec) && b.parts == old(b.parts) + all[..i]
      invariant b.Bytes() == old(b.Bytes()) + Flatten(vec[0..i])
    {
      FlattenStep(vec, 0, i);
      HasAt(from, vec, i);
      MemoriesNext(from, i);
      AddTransient(b, vec[i], from[i]);
    }
    assert vec[0..|vec|] == vec && all[..|vec|] == all && from[..|vec|] == from;
  }

  lemma HasSize(from: seq<Loan>, vec: seq<seq<Byte>>)
    requires HasAll(from, vec)
    ensures |from| == |vec| && forall i :: 0 <= i < |from| ==> from[i].Loan?
  {
  }

  lemma MemoriesNone(from: seq<Loan>)
    ensures Memories(from[..0]) == {}
  {
  }

  lemma MemoriesNext(from: seq<Loan>, i: nat)
    requires i < |from| && from[i].Loan?
    ensures Memories(from[..i + 1]) == Memories(from[..i]) + {from[i].mem}
  {
    forall a | a in Memories(from[..i]) ensures a in Memories(from[..i + 1]) {
      var k :| 0 <= k < i && from[..i][k].Loan? && from[..i][k].mem == a;
      assert from[..i + 1][k] == from[..i][k];
    }
    assert from[..i + 1][i] == from[i];
    forall a | a in Memories(from[..i + 1]) ensures a in Memories(from[..i]) || a == from[i].mem {
      var k :| 0 <= k < i + 1 && from[..i + 1][k].Loan? && from[..i + 1][k].mem == a;
      assert k < i ==> from[..i][k] == from[..i + 1][k];
    }
  }

  /** The very large case without a callback: one bucket a piece, copied. */
  method CopyPieces(b: Brigade, vec: seq<seq<Byte>>)
    requires b.Valid() && vec != []
    modifies b, b.repr`next, b.repr`prev
    ensures b.Valid() && TailClear(b.parts) && fresh(b.repr - old(b.repr)) && fresh(b.stores - old(b.stores))
    ensures old(b.parts) <= b.parts && (forall i :: |old(b.parts)| <= i < |b.parts| ==> b.parts[i].own)
    ensures b.Bytes() == old(b.Bytes()) + Flatten(vec)
  {
    hide PartsBytes, Brigade.Valid, TailClear, Flatten;
    FlattenNone(vec);
    assert vec[0..0] == vec[..0];
    for i := 0 to |vec|
      invariant b.Valid() && (i > 0 ==> TailClear(b.parts)) && fresh(b.repr - old(b.repr))
      invariant fresh(b.stores - old(b.stores))
      invariant old(b.parts) <= b.parts && (forall i :: |old(b.parts)| <= i < |b.parts| ==> b.parts[i].own)
      invariant b.Bytes() == old(b.Bytes()) + Flatten(vec[0..i])
    {
      FlattenStep(vec, 0, i);
      var _ := AddHeap(b, vec[i], |vec[i]|);
    }
    assert vec[0..|vec|] == vec;
  }

  /** What is still lent by a caller was so before. */
  ghost predicate NoNewLoans(before: seq<Part>, now: seq<Part>) {
    forall i :: 0 <= i < |now| && now[i].store != null && !now[i].own ==>
      exists k :: 0 <= k < |before| && SamePlace(now[i], before[k])
  }

  /** Two parts are the same memory of the same caller. */
  ghost predicate SamePlace(p: Part, q: Part) {
    p.store == q.store && p.at == q.at && |p.text| == |q.text| && p.own == q.own
  }

  /** The very large case: the pieces are passed on without being gathered. */
  method WriteLarge(b: Brigade, sink: Sink?, vec: seq<seq<Byte>>, from: seq<Loan>) returns (rv: Status)
    requires b.Valid() && vec != [] && (sink != null ==> HasAll(from, vec))
    modifies b, b.repr, sink
    ensures b.Valid() && TailClear(b.parts) && fresh(b.repr - old(b.repr))
    ensures fresh(b.stores - old(b.stores) - Memories(from))
    ensures Written(b, sink) == old(Written(b, sink)) + Flatten(vec)
    ensures rv == if sink == null then SUCCESS else old(TurnOf(sink)).rv
    ensures if sink == null then NoNewLoans(old(b.parts), b.parts)
      else Flushed(old(b.parts) + LentParts(vec, from), old(TurnOf(sink)), b.parts, old(b.stores) + Memories(from))
  {
    hide PartsBytes, Brigade.Valid, TailClear, Flatten, Flushed, Memories;
    rv := SUCCESS;
    if sink != null {
      LendPieces(b, vec, from);
      ghost var lent := b.parts;
      b.ValidLinked();
      assert sink.sent + (old(b.Bytes()) + Flatten(vec)) == sink.sent + old(b.Bytes()) + Flatten(vec);
      ghost var known := b.stores;
      rv := sink.Flush(b);
      FlushedClear(lent, old(TurnOf(sink)), b.parts, known);
    } else {
      CopyPieces(b, vec);
      assert [] + (old(b.Bytes()) + Flatten(vec)) == [] + old(b.Bytes()) + Flatten(vec);
    }
  }

  /** There is no heap bucket at the end, or it takes all the pieces: nothing needs to be flushed. */
  ghost predicate Gathers(parts: seq<Part>, vec: seq<seq<Byte>>) {
    !HeapTail(parts) || |Flatten(vec)| <= Space(parts)
  }

  /** A flush of a brigade that has no new loans. */
  method FlushKept(b: Brigade, sink: Sink, ghost before: seq<Part>) returns (rv: Status)
    requires b.Valid() && NoNewLoans(before, b.parts)
    modifies b, b.repr, sink
    ensures b.Valid() && b.repr <= old(b.repr) && fresh(b.stores - old(b.stores))
    ensures old(TailClear(b.parts)) ==> TailClear(b.parts)
    ensures sink.sent + b.Bytes() == old(sink.sent + b.Bytes()) && NoNewLoans(before, b.parts)
    ensures rv == old(TurnOf(sink)).rv && sink.plan == Rest(old(sink.plan))
  {
    hide PartsBytes, Brigade.Valid, TailClear, Flushed, NoNewLoans;
    ghost var parts, known := b.parts, b.stores;
    b.ValidLinked();
    rv := sink.Flush(b);
    if TailClear(parts) {
      FlushedClear(parts, old(TurnOf(sink)), b.parts, known);
    }
    FlushedLoans(parts, old(TurnOf(sink)), b.parts, known);
    LoansTwice(before, parts, b.parts);
  }

  /** The heap bucket at the end of the brigade, if there is one, takes pieces as long as they fit. */
  method WriteTail(b: Brigade, sink: Sink?, vec: seq<seq<Byte>>) returns (done: bool, rv: Status, i: nat)
    requires b.Valid()
    modifies b, b.repr, b.stores, sink
    ensures b.Valid() && fresh(b.repr - old(b.repr)) && fresh(b.stores - old(b.stores)) && i <= |vec|
    ensures old(TailClear(b.parts)) ==> TailClear(b.parts) && !Hits(old(b.parts), |Flatten(vec[..i])|, old(b.parts))
    ensures !Hits(old(b.parts), |Flatten(vec[..i])|, old(b.parts)) ==>
      Written(b, sink) == old(Written(b, sink)) + Flatten(vec[..i])
    ensures done && rv == SUCCESS ==> i == |vec|
    ensures !done ==> rv == SUCCESS
    ensures rv == if sink != null && !old(Gathers(b.parts, vec)) then old(TurnOf(sink)).rv else SUCCESS
    ensures if old(HeapTail(b.parts)) then Longest(vec, 0, i, old(Space(b.parts))) else i == 0 && !done
    ensures NoNewLoans(old(b.parts), b.parts)
  {
    hide PartsBytes, Brigade.Valid, TailClear, Flatten, Flushed, Space, Grown, Longest, NoNewLoans, Hits;
    done, rv, i := false, SUCCESS, 0;
    ghost var before := b.parts;
    b.NextAt(|b.list|);
    var e := b.sentinel.prev;
    var empty := b.IsEmpty();
    FlattenNone(vec);
    NoTail(before);
    LoansSame(before);
    if !empty {
      TailHeap(b);
    }
    if empty || !e.body.Heap? {
      NoneHits(before);
      return;
    }
    i := AppendPieces(b, e, vec, 0);
    assert vec[0..i] == vec[..i] && vec[0..] == vec;
    ghost var sent := if sink == null then [] else sink.sent;
    assert sent + (old(b.Bytes()) + Flatten(vec[..i])) == sent + old(b.Bytes()) + Flatten(vec[..i]);
    if i == |vec| {
      return true, SUCCESS, i;
    }
    if sink != null {
      rv := FlushKept(b, sink, before);
      done := rv != SUCCESS;
    }
  }

  lemma NoneHits(parts: seq<Part>)
    ensures !Hits(parts, 0, parts)
  {
  }

  lemma GrownLoans(parts: seq<Part>, a: array<Byte>, now: seq<Byte>, str: seq<Byte>)
    requires HeapTail(parts)
    ensures NoNewLoans(parts, Grown(Reread(parts, a, now), str))
  {
    var r := Reread(parts, a, now);
    var all := Grown(r, str);
    forall i | 0 <= i < |all| && all[i].store != null && !all[i].own ensures SamePlace(all[i], parts[i]) {
      assert i < |parts| - 1;
    }
  }

  lemma FlushedLoans(before: seq<Part>, turn: Turn, now: seq<Part>, known: set<array<Byte>>)
    requires Flushed(before, turn, now, known)
    ensures NoNewLoans(before, now)
  {
    var rest := before[Ahead(before, turn.leave)..];
    forall i | 0 <= i < |now| && now[i].store != null && !now[i].own ensures now[i] in before {
      assert turn.aside ==> SetAside(rest[i], now[i], known);
      assert rest[i] in before;
    }
  }

  /**
   * apr_brigade_writev of pieces that the caller keeps at the places from. The first k go behind the last bucket, as
   * long as they fit, and m is how many were taken before a failing flush cut the call short. All that was written
   * arrives, unless the brigade itself has data where the first k go.
   */
  method Writev(b: Brigade, sink: Sink?, vec: seq<seq<Byte>>, from: seq<Loan>)
    returns (rv: Status, ghost k: nat, ghost m: nat)
    requires b.Valid() && (sink != null ==> HasAll(from, vec))
    modifies b, b.repr, b.stores, sink
    ensures b.Valid() && fresh(b.repr - old(b.repr)) && fresh(b.stores - old(b.stores) - Memories(from))
    ensures k <= m <= |vec|
    ensures old(TailClear(b.parts)) ==> TailClear(b.parts) && !Hits(old(b.parts), |Flatten(vec[..k])|, old(b.parts))
    ensures !Hits(old(b.parts), |Flatten(vec[..k])|, old(b.parts)) ==>
      Written(b, sink) == old(Written(b, sink)) + Flatten(vec[..m])
    ensures if old(HeapTail(b.parts)) && |Flatten(vec)| <= BUFF_SIZE then Longest(vec, 0, k, old(Space(b.parts)))
      else k == 0
    ensures rv == SUCCESS || |Flatten(vec)| > BUFF_SIZE ==> m == |vec|
    ensures rv != SUCCESS && |Flatten(vec)| <= BUFF_SIZE ==> m == k
    ensures rv == if sink != null && (|Flatten(vec)| > BUFF_SIZE || !old(Gathers(b.parts, vec)))
      then old(TurnOf(sink)).rv else SUCCESS
    ensures if |Flatten(vec)| > BUFF_SIZE && sink != null then
        Flushed(old(b.parts) + LentParts(vec, from), old(TurnOf(sink)), b.parts, old(b.stores) + Memories(from))
      else NoNewLoans(old(b.parts), b.parts)
  {
    hide *;
    var total := Total(vec);
    assert vec[..|vec|] == vec;
    FlattenNone(vec);
    NoneHits(b.parts);
    if total > BUFF_SIZE {
      rv := WriteLarge(b, sink, vec, from);
      return rv, 0, |vec|;
    }
    ghost var before := b.parts;
    var done, i;
    done, rv, i := WriteTail(b, sink, vec);
    k, m := i, i;
    if !done {
      ghost var kept := b.parts;
      FlattenSplit(vec, i);
      AddRest(b, sink, vec, i);
      LoansTwice(before, kept, b.parts);
      m := |vec|;
      assert (old(Written(b, sink)) + Flatten(vec[..i])) + Flatten(vec[i..]) == old(Written(b, sink)) + Flatten(vec);
    }
  }

  lemma LoansSame(a: seq<Part>)
    ensures NoNewLoans(a, a)
  {
  }

  lemma LoansTwice(a: seq<Part>, b: seq<Part>, c: seq<Part>)
    requires NoNewLoans(a, b) && NoNewLoans(b, c)
    ensures NoNewLoans(a, c)
  {
  }

  /** The last step of apr_brigade_writev: a new bucket for the remaining pieces, which fit. */
  method AddRest(b: Brigade, ghost sink: Sink?, vec: seq<seq<Byte>>, i: nat)
    requires b.Valid() && i <= |vec| && |Flatten(vec[i..])| <= BUFF_SIZE
    modifies b, b.repr`next, b.repr`prev
    ensures b.Valid() && TailClear(b.parts) && fresh(b.repr - old(b.repr)) && fresh(b.stores - old(b.stores))
    ensures Written(b, sink) == old(Written(b, sink)) + Flatten(vec[i..])
    ensures NoNewLoans(old(b.parts), b.parts)
  {
    hide PartsBytes, Brigade.Valid, TailClear, Flatten;
    ghost var before := b.parts;
    var e := AddHeap(b, [], BUFF_SIZE);
    TailHeap(b);
    var j := AppendPieces(b, e, vec, i);
    assert vec[i..j] == vec[i..];
    ghost var sent := if sink == null then [] else sink.sent;
    assert sent + (old(b.Bytes()) + [] + Flatten(vec[i..])) == sent + old(b.Bytes()) + Flatten(vec[i..]);
    forall k | 0 <= k < |b.parts| && b.parts[k].store != null && !b.parts[k].own
      ensures SamePlace(b.parts[k], before[k])
    {
      assert k < |before| && b.parts[k] == before[k];
    }
  }

  lemma FlattenNone(vec: seq<seq<Byte>>)
    ensures Flatten(vec[..0]) == []
  {
  }

  lemma FlattenSplit(vec: seq<seq<Byte>>, i: nat)
    requires i <= |vec|
    ensures Flatten(vec) == Flatten(vec[..i]) + Flatten(vec[i..]) && vec[i..|vec|] == vec[i..]
  {
    hide Flatten;
    assert vec == vec[..i] + vec[i..];
    FlattenConcat(vec[..i], vec[i..]);
  }

  /** The first loop of apr_brigade_writev. */
  method Total(vec: seq<seq<Byte>>) returns (total: nat)
    ensures total == |Flatten(vec)|
  {
    total := 0;
    assert vec[0..0] == [];
    for i := 0 to |vec|
      invariant total == |Flatten(vec[0..i])|
    {
      FlattenStep(vec, 0, i);
      total := total + |vec[i]|;
    }
    assert vec[0..|vec|] == vec;
  }

  const MAX_BUCKET_SIZE: nat := 0x4000_0000

  /** APR_BRIGADE_INSERT_TAIL of a file bucket for the bytes from start on. */
  method AddFile(b: Brigade, e: Bucket, mem: seq<Byte>, start: nat, n: nat)
    requires b.Valid() && e !in b.repr && start + n <= |mem|
    requires e.body == File(mem) && e.start == start && e.length == Known(n)
    modifies b, b.repr`next, b.repr`prev, e`next, e`prev
    ensures b.Valid() && b.repr == old(b.repr) + {e} && b.stores == old(b.stores) && b.list == old(b.list) + [e]
    ensures b.Bytes() == old(b.Bytes()) + mem[start..start + n]
    ensures |b.parts| == |old(b.parts)| + 1 && b.parts[..|old(b.parts)|] == old(b.parts)
    ensures |b.parts[|old(b.parts)|].text| == n
  {
    hide PartsBytes, Loaded, Rings.Cyclic;
    ghost var p := Plain(mem[start..start + n], n + 1);
    PartsBytesSnoc(b.parts, p);
    b.InsertTail(e, p);
  }

  /** The parts from position k on are none of them larger than limit. */
  ghost predicate Small(parts: seq<Part>, k: nat, limit: nat) {
    forall i :: k <= i < |parts| ==> |parts[i].text| <= limit
  }

  /** apr_brigade_insert_file. wide tells whether apr_off_t is no wider than apr_size_t. */
  method InsertFile(b: Brigade, mem: seq<Byte>, start: nat, length: nat, wide: bool) returns (e: Bucket)
    requires b.Valid() && start + length <= |mem|
    modifies b, b.repr`next, b.repr`prev
    ensures b.Valid() && fresh(b.repr - old(b.repr)) && b.stores == old(b.stores)
    ensures b.Bytes() == old(b.Bytes()) + mem[start..start + length]
    ensures b.list != [] && e == b.list[|b.list| - 1] && |b.parts| >= |old(b.parts)|
    ensures wide || Small(b.parts, |old(b.parts)|, MAX_BUCKET_SIZE)
  {
    hide Brigade.Valid, PartsBytes;
    if wide || length < MAX_BUCKET_SIZE {
      e := new Bucket(File(mem), Known(length), start);
      AddFile(b, e, mem, start, length);
      return;
    }
    e := new Bucket(File(mem), Known(MAX_BUCKET_SIZE), start);
    var left := length;
    while left > MAX_BUCKET_SIZE
      invariant 0 < left <= length && b.Valid() && fresh(b.repr - old(b.repr)) && b.stores == old(b.stores)
      invariant fresh(e) && e !in b.repr && e.body == File(mem) && e.length == Known(MAX_BUCKET_SIZE)
      invariant e.start + left == start + length
      invariant b.Bytes() == old(b.Bytes()) + mem[start..e.start]
      invariant |b.parts| >= |old(b.parts)| && Small(b.parts, |old(b.parts)|, MAX_BUCKET_SIZE)
    {
      var ce := new Bucket(e.body, e.length, e.start);
      AddFile(b, ce, mem, e.start, MAX_BUCKET_SIZE);
      e.start := e.start + MAX_BUCKET_SIZE;
      left := left - MAX_BUCKET_SIZE;
    }
    e.length := Known(left);
    AddFile(b, e, mem, e.start, left);
  }
}
