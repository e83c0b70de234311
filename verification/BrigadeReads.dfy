// Taking bytes out of a brigade: flattening into a buffer, and moving one line to another brigade.
module BrigadeReads {
  import opened Text
  import opened Buckets
  import opened Overlaps
  import opened Brigades
  import opened Flushes
  import opened BrigadeWrites
  import opened BrigadeOrder
  import opened Lines
  import opened SharedMemory
  import Rings

  /** Read one bucket and copy what fits of it. */
  method FlattenBucket(b: Brigade, e: Bucket, c: array<Byte>, len: nat, actual: nat, ghost k: nat)
    returns (rv: Status, n: nat)
    requires b.Valid() && k < |b.list| && e == b.list[k]
    requires actual <= len <= c.Length && c !in b.stores
    modifies b, b.repr`next, b.repr`prev, e, c
    ensures b.Valid() && b.Bytes() == old(b.Bytes()) && k < |b.list| && b.list[k] == e
    ensures b.parts[..k] == old(b.parts[..k])
    ensures fresh(b.repr - old(b.repr)) && fresh(b.stores - old(b.stores))
    ensures rv == ReadStatus(old(b.parts[k].fault)) && (rv != SUCCESS ==> c[..] == old(c[..]))
    ensures rv == SUCCESS ==> RopeFault(b.parts) == old(RopeFault(b.parts)) && b.parts[k].fault == NoFault
    ensures rv == SUCCESS ==> n == (if |b.parts[k].text| + actual > len then len - actual else |b.parts[k].text|)
    ensures rv == SUCCESS ==> c[..] == old(c[..])[..actual] + b.parts[k].text[..n] + old(c[..])[actual + n..]
    ensures rv == SUCCESS ==> Todo(b.parts[k + 1..]) < old(Todo(b.parts[k..]))
  {
    hide Brigade.Valid, PartsBytes, RopeFault, Todo;
    b.AtEnd(k);
    var str;
    rv, str := b.ReadAt(e, k);
    n := |str|;
    if rv != SUCCESS {
      return;
    }
    if n + actual > len {
      n := len - actual;
    }
    CopyInto(c, actual, str[..n]);
  }

  /** text written over the start of rest. */
  ghost function Over(text: seq<Byte>, rest: seq<Byte>): (r: seq<Byte>)
    requires |text| <= |rest|
    ensures |r| == |rest|
  {
    text + rest[|text|..]
  }

  /** One more bucket at the end of a flattened prefix. */
  lemma FlattenedNext(c: seq<Byte>, rest: seq<Byte>, parts: seq<Part>, k: nat, actual: nat, n: nat)
    requires k < |parts| && n <= |parts[k].text| && actual + n <= |c| == |rest|
    requires actual == |PartsBytes(parts[..k])| && c == Over(PartsBytes(parts[..k]), rest)
    ensures actual + n <= |PartsBytes(parts)| && actual + n <= |PartsBytes(parts[..k + 1])|
    ensures var c' := c[..actual] + parts[k].text[..n] + c[actual + n..];
      && c' == Over(PartsBytes(parts)[..actual + n], rest)
      && (n == |parts[k].text| ==>
        |PartsBytes(parts[..k + 1])| == actual + n && c' == Over(PartsBytes(parts[..k + 1]), rest))
  {
    hide PartsBytes;
    PartsBytesAt(parts, k);
  }

  /** What apr_brigade_flatten answers: the first bucket is always read, the others until len bytes are there. */
  ghost function FlattenStatus(parts: seq<Part>, len: nat): Status {
    var f := RopeFault(parts);
    if parts != [] && ReadStatus(parts[0].fault) != SUCCESS then ReadStatus(parts[0].fault)
    else if f.FaultAt? && f.offset < len then ReadError(f.code) else SUCCESS
  }

  /** The first k parts have been read without an error; was is what there was at first. */
  ghost predicate ReadUpTo(was: seq<Part>, parts: seq<Part>, k: nat, len: nat) {
    && k <= |parts| && RopeFault(was) == RopeFault(parts) && RopeFault(parts[..k]) == NoFault
    && if k == 0 then parts == was
      else was != [] && ReadStatus(was[0].fault) == SUCCESS && |PartsBytes(parts[..k])| < len
  }

  /** The next bucket cannot be read. */
  lemma FlattenFails(was: seq<Part>, parts: seq<Part>, k: nat, len: nat)
    requires ReadUpTo(was, parts, k, len) && k < |parts| && ReadStatus(parts[k].fault) != SUCCESS
    ensures FlattenStatus(was, len) == ReadStatus(parts[k].fault)
    ensures RopeFault(was).FaultAt? && RopeFault(was).offset == |PartsBytes(parts[..k])|
    ensures |PartsBytes(parts[..k])| <= |PartsBytes(parts)|
    ensures PartsBytes(parts)[..|PartsBytes(parts[..k])|] == PartsBytes(parts[..k])
  {
    hide PartsBytes, RopeFault;
    RopeFaultAt(parts, k);
    PartsBytesAt(parts, k);
    if k == 0 {
      RopeFaultFirst(parts);
    }
  }

  lemma RopeFaultFirst(parts: seq<Part>)
    requires parts != []
    ensures PartsBytes(parts[..0]) == [] && (parts[0].fault.FaultAt? ==> RopeFault(parts) == parts[0].fault)
  {
  }

  /** The next bucket was read: part k of before is now part k of parts. */
  lemma FlattenNext(was: seq<Part>, before: seq<Part>, parts: seq<Part>, k: nat, len: nat)
    requires ReadUpTo(was, before, k, len) && k < |before| && k < |parts| && ReadStatus(before[k].fault) == SUCCESS
    requires parts[..k] == before[..k] && RopeFault(parts) == RopeFault(before) && parts[k].fault == NoFault
    ensures |PartsBytes(parts[..k + 1])| < len ==> ReadUpTo(was, parts, k + 1, len)
    ensures |PartsBytes(parts[..k + 1])| >= len || k + 1 == |parts| ==> FlattenStatus(was, len) == SUCCESS
  {
    hide PartsBytes, RopeFault;
    RopeFaultAt(parts, k);
    assert parts == parts[..k + 1] + parts[k + 1..];
    RopeFaultConcat(parts[..k + 1], parts[k + 1..]);
    if k + 1 == |parts| {
      assert parts[..k + 1] == parts;
    }
  }

  /** The first k parts, which are actual bytes, have been copied to c, which was rest before. */
  ghost predicate Flat(was: seq<Part>, parts: seq<Part>, k: nat, len: nat, actual: nat, c: seq<Byte>, rest: seq<Byte>) {
    && k <= |parts| && actual == |PartsBytes(parts[..k])| <= len <= |c| == |rest|
    && c == Over(PartsBytes(parts[..k]), rest)
    && if k < |parts| then ReadUpTo(was, parts, k, len) else FlattenStatus(was, len) == SUCCESS
  }

  /** What apr_brigade_flatten achieves with len bytes of room in c, which was rest before. */
  ghost predicate Flattened(was: seq<Part>, len: nat, rv: Status, actual: nat, c: seq<Byte>, rest: seq<Byte>) {
    var rope := PartsBytes(was);
    && rv == FlattenStatus(was, len)
    && var n := if rv == SUCCESS then actual else RopeFault(was).offset;
    && n <= |rope| && n <= |rest| && c == Over(rope[..n], rest)
    && (if rv == SUCCESS then n == if |rope| < len then |rope| else len else actual == len)
  }

  lemma FlatStart(parts: seq<Part>, len: nat, c: seq<Byte>)
    requires len <= |c|
    ensures Flat(parts, parts, 0, len, 0, c, c)
  {
  }

  lemma FlatEnd(was: seq<Part>, parts: seq<Part>, len: nat, actual: nat, c: seq<Byte>, rest: seq<Byte>)
    requires Flat(was, parts, |parts|, len, actual, c, rest) && PartsBytes(was) == PartsBytes(parts)
    ensures Flattened(was, len, SUCCESS, actual, c, rest)
  {
    hide PartsBytes;
    assert parts[..|parts|] == parts && PartsBytes(parts)[..actual] == PartsBytes(parts);
  }

  lemma FlatFails(was: seq<Part>, parts: seq<Part>, k: nat, len: nat, actual: nat, c: seq<Byte>, rest: seq<Byte>)
    requires Flat(was, parts, k, len, actual, c, rest) && PartsBytes(was) == PartsBytes(parts)
    requires k < |parts| && ReadStatus(parts[k].fault) != SUCCESS
    ensures Flattened(was, len, ReadStatus(parts[k].fault), len, c, rest)
  {
    hide PartsBytes;
    FlattenFails(was, parts, k, len);
  }

  lemma FlatNext(was: seq<Part>, before: seq<Part>, parts: seq<Part>, k: nat, len: nat, actual: nat, n: nat,
                 c: seq<Byte>, now: seq<Byte>, rest: seq<Byte>)
    requires Flat(was, before, k, len, actual, c, rest) && k < |before| && k < |parts|
    requires PartsBytes(was) == PartsBytes(before) == PartsBytes(parts)
    requires ReadStatus(before[k].fault) == SUCCESS && parts[k].fault == NoFault
    requires parts[..k] == before[..k] && RopeFault(parts) == RopeFault(before)
    requires n == (if |parts[k].text| + actual > len then len - actual else |parts[k].text|)
    requires now == c[..actual] + parts[k].text[..n] + c[actual + n..]
    ensures if actual + n >= len then Flattened(was, len, SUCCESS, actual + n, now, rest)
      else Flat(was, parts, k + 1, len, actual + n, now, rest)
  {
    hide PartsBytes, RopeFault, Over, FlattenStatus, ReadUpTo;
    FlattenNext(was, before, parts, k, len);
    FlattenedNext(c, rest, parts, k, actual, n);
  }

  /** One bucket of the loop of apr_brigade_flatten. */
  method FlattenTurn(b: Brigade, e: Bucket, c: array<Byte>, len: nat, actual: nat, ghost k: nat,
                     ghost was: seq<Part>, ghost rest: seq<Byte>)
    returns (rv: Status, n: nat)
    requires b.Valid() && k < |b.list| == |b.parts| && e == b.list[k] && actual <= len <= c.Length && c !in b.stores
    requires Flat(was, b.parts, k, len, actual, c[..], rest) && PartsBytes(was) == b.Bytes()
    modifies b, b.repr`next, b.repr`prev, e, c
    ensures b.Valid() && b.Bytes() == old(b.Bytes()) && k < |b.list| == |b.parts| && b.list[k] == e
    ensures fresh(b.repr - old(b.repr)) && fresh(b.stores - old(b.stores))
    ensures rv == SUCCESS ==> Todo(b.parts[k + 1..]) < old(Todo(b.parts[k..]))
    ensures rv == SUCCESS && actual + n < len ==> Flat(was, b.parts, k + 1, len, actual + n, c[..], rest)
    ensures rv == SUCCESS && actual + n >= len ==> Flattened(was, len, rv, actual + n, c[..], rest)
    ensures rv != SUCCESS ==> Flattened(was, len, rv, len, c[..], rest)
  {
    hide Brigade.Valid, PartsBytes, RopeFault, Todo, Over, Flat, Flattened, ReadStatus;
    ghost var before, parts := c[..], b.parts;
    rv, n := FlattenBucket(b, e, c, len, actual, k);
    b.AtEnd(k);
    if rv != SUCCESS {
      FlatFails(was, parts, k, len, actual, before, rest);
    } else {
      FlatNext(was, parts, b.parts, k, len, actual, n, before, c[..], rest);
    }
  }

  /** apr_brigade_flatten: copy as much of the rope as fits into len bytes. */
  method FlattenInto(b: Brigade, c: array<Byte>, len: nat) returns (rv: Status, actual: nat)
    requires b.Valid() && len <= c.Length && c !in b.stores
    modifies b, b.repr, c
    ensures fresh(b.repr - old(b.repr)) && fresh(b.stores - old(b.stores))
    ensures b.Valid() && b.Bytes() == old(b.Bytes()) && Flattened(old(b.parts), len, rv, actual, c[..], old(c[..]))
  {
    hide Brigade.Valid, PartsBytes, RopeFault, Todo, Over, Flat, Flattened;
    rv, actual := SUCCESS, 0;
    ghost var was, k := b.parts, 0;
    b.NextAt(0);
    FlatStart(was, len, c[..]);
    var e := b.sentinel.next;
    while e != b.sentinel
      invariant b.Valid() && b.Bytes() == old(b.Bytes()) && k <= |b.list| == |b.parts| && e == b.BucketAt(k)
      invariant fresh(b.repr - old(b.repr)) && fresh(b.stores - old(b.stores))
      invariant rv == SUCCESS && actual <= len && Flat(was, b.parts, k, len, actual, c[..], old(c[..]))
      decreases Todo(b.parts[k..])
    {
      b.AtEnd(k);
      b.NextAt(k);
      var n;
      rv, n := FlattenTurn(b, e, c, len, actual, k, was, old(c[..]));
      if rv != SUCCESS {
        return rv, len;
      }
      actual := actual + n;
      if actual >= len {
        return;
      }
      b.NextAt(k);
      e := e.next;
      k := k + 1;
    }
    b.AtEnd(k);
    FlatEnd(was, b.parts, len, actual, c[..], old(c[..]));
  }

  /** Two brigades, whatever memory their buckets share. */
  ghost predicate Separate(out: Brigade, inp: Brigade)
    reads out, out.repr, out.stores, inp, inp.repr, inp.stores
  {
    out != inp && out.Valid() && inp.Valid() && out.repr !! inp.repr
  }

  ghost predicate Apart(out: Brigade, inp: Brigade)
    reads out, out.repr, out.stores, inp, inp.repr, inp.stores
  {
    Separate(out, inp) && Sorted(out.parts, inp.parts)
  }

  /** No bucket of a rope meets an error when it is read. */
  ghost predicate NoFaults(parts: seq<Part>) {
    forall i :: 0 <= i < |parts| ==> parts[i].fault == NoFault
  }

  /** No bucket holds more than limit bytes that need no read, as a read hands over at most a buffer. */
  ghost predicate Chunks(parts: seq<Part>, limit: nat) {
    limit >= BUFF_SIZE && forall i :: 0 <= i < |parts| ==> parts[i].work > 0 || |parts[i].text| <= limit
  }

  lemma ValidHoused(b: Brigade)
    requires b.Valid()
    ensures Housed(b.parts) && forall i :: 0 <= i < |b.parts| && b.parts[i].work > 0 ==> b.parts[i].store == null
  {
    hide Brigade.Valid;
    b.ValidLinked();
    forall i | 0 <= i < |b.parts| ensures Shape(b.list[i], b.parts[i]) {
    }
  }

  /** Behind the first bucket nothing has changed, but for a bucket without memory that may have come in. */
  ghost predicate Behind(was: seq<Part>, now: seq<Part>) {
    && was != [] && now != []
    && (now[1..] == was[1..] || (|now| > 1 && now[1].store == null && now[2..] == was[1..]))
  }

  lemma HitsBehind(out: seq<Part>, n: nat, was: seq<Part>, now: seq<Part>)
    requires Behind(was, now)
    ensures Hits(out, n, now[1..]) <==> Hits(out, n, was[1..])
  {
    if now[1..] != was[1..] && HeapTail(out) {
      var a := out[|out| - 1].store;
      assert now[1..] == [now[1]] + was[1..];
      forall i | 0 <= i < |was[1..]| ensures now[1..][i + 1] == was[1..][i] {
      }
      if Meets(now[1..], a, TailEnd(out), n) {
        var i :| 0 <= i < |now[1..]| && Touches(now[1..][i], a, TailEnd(out), n);
        assert Touches(was[1..][i - 1], a, TailEnd(out), n);
      }
      if Meets(was[1..], a, TailEnd(out), n) {
        var i :| 0 <= i < |was[1..]| && Touches(was[1..][i], a, TailEnd(out), n);
        assert Touches(now[1..][i + 1], a, TailEnd(out), n);
      }
    }
  }

  /** apr_bucket_read of the first bucket: what it leaves behind needs fewer reads. */
  method ReadFirst(out: Brigade, inp: Brigade, e: Bucket) returns (rv: Status, str: seq<Byte>)
    requires Separate(out, inp) && inp.list != [] && e == inp.list[0]
    modifies inp, inp.repr`next, inp.repr`prev, e
    ensures Separate(out, inp) && inp.Bytes() == old(inp.Bytes()) && inp.list != [] && inp.list[0] == e
    ensures |inp.parts| == |inp.list|
    ensures old(Sorted(out.parts, inp.parts)) ==> Sorted(out.parts, inp.parts)
    ensures fresh(inp.repr - old(inp.repr)) && fresh(inp.stores - old(inp.stores))
    ensures |old(inp.parts)| > 0 && rv == ReadStatus(old(inp.parts[0].fault)) && Behind(old(inp.parts), inp.parts)
    ensures old(inp.parts[0].work) == 0 ==> inp.parts == old(inp.parts)
    ensures rv == SUCCESS ==> RopeFault(inp.parts) == old(RopeFault(inp.parts)) && inp.parts[0].fault == NoFault
    ensures rv == SUCCESS ==>
      inp.parts[0].text == str && inp.parts[0].work == 0 && Todo(inp.parts[1..]) < old(Todo(inp.parts))
    ensures forall limit: nat :: rv == SUCCESS && Chunks(old(inp.parts), limit) ==>
      |str| <= limit && Chunks(inp.parts, limit)
  {
    hide Brigade.Valid, PartsBytes, RopeFault, Todo, Sorted, ReadAs, Housed, Absent, Chunks, Behind;
    ghost var before := inp.parts;
    inp.NextAt(0);
    out.ValidLinked();
    inp.ValidLinked();
    ValidHoused(out);
    ValidHoused(inp);
    ghost var nb, now;
    rv, str, nb, now := inp.Read(e, 0);
    ValidHoused(inp);
    NowHoused(before, now, inp.parts);
    ReadLaws(before, now, rv, str, inp.parts);
    ReadChunks(before, now, rv, str, inp.parts);
    NewStore(out, before, old(inp.stores), now);
    if Sorted(out.parts, before) {
      SortedRead(out.parts, before, now, rv, str);
    }
  }

  lemma ReadChunks(before: seq<Part>, now: seq<Part>, rv: Status, str: seq<Byte>, parts: seq<Part>)
    requires before != [] && ReadAs(before[0], now, rv, str) && parts == before[..0] + now + before[1..]
    ensures forall limit: nat :: rv == SUCCESS && Chunks(before, limit) ==> |str| <= limit && Chunks(parts, limit)
  {
    forall limit: nat | rv == SUCCESS && Chunks(before, limit) ensures |str| <= limit && Chunks(parts, limit) {
      ReadChunk(before, now, rv, str, parts, limit);
    }
  }

  lemma ReadChunk(before: seq<Part>, now: seq<Part>, rv: Status, str: seq<Byte>, parts: seq<Part>, limit: nat)
    requires before != [] && ReadAs(before[0], now, rv, str) && parts == before[..0] + now + before[1..]
    requires rv == SUCCESS && Chunks(before, limit)
    ensures |str| <= limit && Chunks(parts, limit)
  {
    hide PartsBytes, RopeFault;
    PartsBytesTwo(now[0], now[|now| - 1]);
    forall i | 0 <= i < |parts| ensures parts[i].work > 0 || |parts[i].text| <= limit {
      assert i >= |now| ==> parts[i] == before[i - |now| + 1];
    }
  }

  lemma NewStore(out: Brigade, before: seq<Part>, were: set<array<Byte>>, now: seq<Part>)
    requires out.Valid() && now != [] && before != []
    requires forall i :: 0 <= i < |before| && before[i].store != null ==> before[i].store in were
    requires now[0] != before[0] && now[0].store != null ==> now[0].store !in were && now[0].store !in out.stores
    ensures now[0] != before[0] && now[0].store != null ==>
      Absent(now[0].store, out.parts) && Absent(now[0].store, before)
  {
    hide Brigade.Valid;
    out.ValidLinked();
  }

  lemma ReadLaws(before: seq<Part>, now: seq<Part>, rv: Status, str: seq<Byte>, parts: seq<Part>)
    requires before != [] && ReadAs(before[0], now, rv, str) && parts == before[..0] + now + before[1..]
    ensures parts == now + before[1..] && now != [] && Behind(before, parts)
    ensures (before[0].work == 0 ==> parts == before)
    ensures PartsBytes(parts) == PartsBytes(before) && rv == ReadStatus(before[0].fault)
    ensures rv == SUCCESS ==> RopeFault(parts) == RopeFault(before) && parts[0].fault == NoFault
    ensures rv == SUCCESS ==> parts[0].text == str && parts[0].work == 0 && Todo(parts[1..]) < Todo(before)
  {
    hide PartsBytes, RopeFault, Todo;
    PartsBytesSwap(before, 0, now);
    ReadTodo(before, 0, now, rv, str);
    assert before[0..] == before;
  }

  lemma NowHoused(before: seq<Part>, now: seq<Part>, parts: seq<Part>)
    requires before != [] && Housed(parts) && parts == before[..0] + now + before[1..]
    ensures Housed(now)
  {
    assert forall i :: 0 <= i < |now| ==> parts[i] == now[i];
  }

  /** apr_bucket_remove of the first bucket of inp, and APR_BRIGADE_INSERT_TAIL into out. */
  method MoveFirst(out: Brigade, inp: Brigade)
    requires out != inp && out.Valid() && inp.Valid() && out.repr !! inp.repr && inp.list != []
    modifies out, inp, out.repr`next, out.repr`prev, inp.repr`next, inp.repr`prev
    ensures out.Valid() && inp.Valid() && out.repr !! inp.repr && inp.stores == old(inp.stores) && |old(inp.parts)| > 0
    ensures inp.list == old(inp.list[1..]) && inp.parts == old(inp.parts[1..]) && inp.repr <= old(inp.repr)
    ensures out.parts == old(out.parts) + [old(inp.parts[0])] && out.repr + inp.repr == old(out.repr + inp.repr)
    ensures out.stores <= old(out.stores + inp.stores)
  {
    hide Holds, Rings.Cyclic;
    inp.NextAt(0);
    ghost var p := inp.parts[0];
    var e := inp.RemoveFirst();
    out.InsertTail(e, p);
  }

  /** Nothing was lost: what out has gained is what inp has lost, errors to come included. */
  twostate predicate Moved(out: Brigade, inp: Brigade, text: seq<Byte>)
    reads out, inp
  {
    && out.Bytes() == old(out.Bytes()) + text && old(inp.Bytes()) == text + inp.Bytes()
    && old(RopeFault(inp.parts)) == Later(RopeFault(inp.parts), |text|)
  }

  lemma FirstPart(parts: seq<Part>)
    requires parts != []
    ensures PartsBytes(parts) == parts[0].text + PartsBytes(parts[1..])
    ensures parts[0].fault == NoFault ==> RopeFault(parts) == Later(RopeFault(parts[1..]), |parts[0].text|)
  {
  }

  /** The line ends in the first bucket: split it there and move its first half. */
  method MoveLine(out: Brigade, inp: Brigade, e: Bucket, point: nat)
    requires Separate(out, inp) && inp.list != [] && e == inp.list[0] && |inp.parts| == |inp.list|
    requires inp.parts[0].work == 0 && inp.parts[0].fault == NoFault && 0 < point <= |inp.parts[0].text|
    modifies out, inp, out.repr, inp.repr
    ensures old(Sorted(out.parts, inp.parts)) ==> Sorted(out.parts, inp.parts)
    ensures old(NoFaults(out.parts)) ==> NoFaults(out.parts)
    ensures Separate(out, inp) && Moved(out, inp, old(inp.parts[0].text)[..point])
    ensures inp.parts == [Back(old(inp.parts[0]), point)] + old(inp.parts[1..])
    ensures fresh(out.repr - old(out.repr + inp.repr)) && inp.stores == old(inp.stores)
    ensures out.stores <= old(out.stores + inp.stores)
    ensures fresh(inp.repr - old(inp.repr))
  {
    hide Brigade.Valid, PartsBytes, RopeFault, Sorted, Housed, Holds, Front, Back, Brigade.Ring, NoFaults;
    inp.Whole(e, 0);
    inp.NextAt(0);
    ValidHoused(inp);
    ghost var before, gone, p, rest := inp.parts, out.parts, inp.parts[0], inp.parts[1..];
    ghost var p0, p1 := Front(p, point), Back(p, point);
    ghost var nb;
    var rv;
    rv, nb := inp.SplitBucket(e, point, 0);
    assert inp.parts == [p0, p1] + rest && inp.parts[1..] == [p1] + rest;
    ValidHoused(out);
    if Sorted(gone, before) {
      SortedCut(gone, before, point);
      SortedMove(gone, inp.parts);
    }
    CutBytes(before, point);
    HalvesText(p, point);
    PartsBytesSnoc(gone, p0);
    FaultsSnoc(gone, p0);
    MoveFirst(out, inp);
  }

  lemma CutBytes(parts: seq<Part>, point: nat)
    requires parts != [] && point <= |parts[0].text| && parts[0].fault == NoFault
    ensures var back, text := [Back(parts[0], point)] + parts[1..], Front(parts[0], point).text;
      PartsBytes(parts) == text + PartsBytes(back) && RopeFault(parts) == Later(RopeFault(back), |text|)
  {
    hide PartsBytes, RopeFault, Front, Back;
    var p1, rest := Back(parts[0], point), parts[1..];
    FirstPart(parts);
    FirstPart([p1] + rest);
    HalvesText(parts[0], point);
    assert ([p1] + rest)[1..] == rest;
  }

  lemma HalvesText(p: Part, point: nat)
    requires point <= |p.text|
    ensures Front(p, point).text == p.text[..point] && p.text == Front(p, point).text + Back(p, point).text
    ensures Back(p, point).fault == Front(p, point).fault == p.fault
  {
  }

  /** A metadata bucket or a large one goes over as it is. */
  method MoveWhole(out: Brigade, inp: Brigade)
    requires Separate(out, inp) && inp.list != [] && |inp.parts| == |inp.list| && inp.parts[0].fault == NoFault
    modifies out, inp, out.repr`next, out.repr`prev, inp.repr`next, inp.repr`prev
    ensures Separate(out, inp) && out.repr + inp.repr == old(out.repr + inp.repr)
    ensures out.stores <= old(out.stores + inp.stores)
    ensures old(Sorted(out.parts, inp.parts)) ==> Sorted(out.parts, inp.parts)
    ensures old(NoFaults(out.parts)) ==> NoFaults(out.parts)
    ensures inp.repr <= old(inp.repr) && inp.stores == old(inp.stores) && |old(inp.parts)| > 0
    ensures out.parts == old(out.parts) + [old(inp.parts[0])]
    ensures inp.parts == old(inp.parts[1..]) && Moved(out, inp, old(inp.parts[0].text))
  {
    hide Brigade.Valid, PartsBytes, RopeFault, Sorted, NoFaults;
    FirstPart(inp.parts);
    PartsBytesSnoc(out.parts, inp.parts[0]);
    ghost var gone := out.parts;
    FaultsSnoc(gone, inp.parts[0]);
    if Sorted(out.parts, inp.parts) {
      SortedMove(out.parts, inp.parts);
    }
    MoveFirst(out, inp);
  }

  lemma FaultsSnoc(parts: seq<Part>, p: Part)
    requires p.fault == NoFault
    ensures NoFaults(parts) ==> NoFaults(parts + [p])
  {
  }

  /** New memory is new for the other brigade too. */
  lemma WroteElsewhere(before: seq<Part>, str: seq<Byte>, now: seq<Part>, k: set<array<Byte>>, known: set<array<Byte>>)
    requires Wrote(before, str, NoLoan, false, Turn(0, false, SUCCESS), now, k)
    requires forall i :: 0 <= i < |now| && now[i].store != null ==> now[i].store in k || now[i].store !in known
    ensures Wrote(before, str, NoLoan, false, Turn(0, false, SUCCESS), now, known)
  {
  }

  /** What the memory of the last bucket holds, if that is a heap bucket. */
  ghost function TailMemory(parts: seq<Part>): seq<Byte>
    reads if HeapTail(parts) then {parts[|parts| - 1].store} else {}
  {
    if HeapTail(parts) then parts[|parts| - 1].store[..] else []
  }

  /** str was copied behind the last bucket of out, whose memory held mem and may be that of other buckets, too. */
  ghost predicate CopiedOver(out: seq<Part>, inp: seq<Part>, str: seq<Byte>, mem: seq<Byte>, out': seq<Part>,
                             inp': seq<Part>) {
    && HeapTail(out) && TailEnd(out) + |str| <= |mem|
    && var a, now := out[|out| - 1].store, Overwrite(mem, TailEnd(out), str);
    && out' == Grown(Reread(out, a, now), str) && inp' == Reread(inp, a, now)
  }

  /**
   * apr_brigade_write without a callback: what becomes of the brigade, and of another one that may share its
   * memory.
   */
  method CopyBeside(out: Brigade, inp: Brigade, str: seq<Byte>, ghost known: set<array<Byte>>) returns (rv: Status)
    requires Separate(out, inp) && known == out.stores + inp.stores
    modifies out, out.repr, out.stores, inp`parts
    ensures Separate(out, inp) && rv == SUCCESS
    ensures fresh(out.repr - old(out.repr)) && fresh(out.stores - old(out.stores))
    ensures !Hits(old(out.parts), |str|, old(inp.parts)) ==> inp.parts == old(inp.parts)
    ensures !Hits(old(out.parts), |str|, old(out.parts)) ==>
      && out.Bytes() == old(out.Bytes()) + str
      && Wrote(old(out.parts), str, NoLoan, false, Turn(0, false, SUCCESS), out.parts, known)
    ensures old(TailClear(out.parts)) ==> TailClear(out.parts) && !Hits(old(out.parts), |str|, old(out.parts))
    ensures old(HeapTail(out.parts)) && |str| <= old(Space(out.parts)) ==>
      CopiedOver(old(out.parts), old(inp.parts), str, old(TailMemory(out.parts)), out.parts, inp.parts)
    ensures Hits(old(out.parts), |str|, old(inp.parts)) && old(Alien(out.parts, str)) ==>
      inp.Bytes() != old(inp.Bytes())
    ensures |out.Bytes()| == |old(out.Bytes())| + |str| && |inp.Bytes()| == |old(inp.Bytes())|
    ensures Todo(inp.parts) == Todo(old(inp.parts)) && (old(NoFaults(out.parts)) ==> NoFaults(out.parts))
  {
    hide Brigade.Valid, PartsBytes, Hits, TailClear, Space, Todo, NoFaults, Wrote, Grown, Reread, Overwrite, HeapTail,
      TailEnd, Alien;
    ghost var before, were := out.parts, out.stores;
    assert were + NoLoan.Memory() == were;
    TouchedStore(out, |str|);
    ghost var was, others := out.Bytes(), inp.parts;
    if HeapTail(before) {
      StoreOf(before);
    }
    ghost var mem := if HeapTail(before) then before[|before| - 1].store[..] else [];
    rv := WriteBeside(out, inp, null, str, NoLoan);
    assert Written(out, null) == out.Bytes() && [] + was == was;
    out.ValidLinked();
    if !Hits(before, |str|, before) {
      WroteElsewhere(before, str, out.parts, were, known);
    }
    if HeapTail(before) && |str| <= Space(before) {
      StoreOf(before);
      ghost var now := Overwrite(mem, TailEnd(before), str);
      CopiedSize(before, others, str, before[|before| - 1].store, now, out.parts, inp.parts);
    } else {
      HitsFit(before, |str|);
      WroteNew(before, str, out.parts, known);
    }
  }

  lemma StoreOf(parts: seq<Part>)
    requires HeapTail(parts)
    ensures parts != [] && parts[|parts| - 1].store != null
  {
  }

  /** How much there is afterwards, and that no error comes in. */
  lemma CopiedSize(out: seq<Part>, inp: seq<Part>, str: seq<Byte>, a: array<Byte>, mem: seq<Byte>, out': seq<Part>,
                   inp': seq<Part>)
    requires out != [] && out' == Grown(Reread(out, a, mem), str) && inp' == Reread(inp, a, mem)
    ensures |PartsBytes(out')| == |PartsBytes(out)| + |str| && |PartsBytes(inp')| == |PartsBytes(inp)|
    ensures Todo(inp') == Todo(inp) && (NoFaults(out) ==> NoFaults(out'))
  {
    hide PartsBytes, Todo;
    GrownLaws(Reread(out, a, mem), str);
    RereadSame(out, a, mem);
    RereadSame(inp, a, mem);
  }

  lemma WroteNew(out: seq<Part>, str: seq<Byte>, out': seq<Part>, known: set<array<Byte>>)
    requires Wrote(out, str, NoLoan, false, Turn(0, false, SUCCESS), out', known)
    requires !(HeapTail(out) && |str| <= Space(out))
    ensures NoFaults(out) ==> NoFaults(out')
  {
    hide Space;
  }

  lemma HitsFit(parts: seq<Part>, n: nat)
    ensures !(HeapTail(parts) && n <= Space(parts)) ==> forall others: seq<Part> :: !Hits(parts, n, others)
  {
  }

  lemma EmptyHits(parts: seq<Part>, others: seq<Part>)
    ensures !Hits(parts, 0, others)
  {
  }

  /** In order, a copy is as it should be. */
  lemma SortedMisses(out: seq<Part>, inp: seq<Part>)
    requires Sorted(out, inp) && inp != []
    ensures TailClear(out) && Misses(out, |inp[0].text|, inp)
  {
    CopyMisses(out, inp);
    ClearMisses(out, |inp[0].text|);
  }

  /** A copy of n bytes behind the last bucket of out meets no data of out, nor of the rest of inp. */
  ghost predicate Misses(out: seq<Part>, n: nat, inp: seq<Part>) {
    inp != [] && !Hits(out, n, out) && !Hits(out, n, inp[1..])
  }

  /** The first bucket of inp, without a line feed, went over: as it is, or as a copy. */
  ghost predicate Passed(out: seq<Part>, inp: seq<Part>, str: seq<Byte>, mem: seq<Byte>, out': seq<Part>,
                         inp': seq<Part>) {
    inp != [] &&
    if |str| > BUFF_SIZE / 4 then out' == out + [inp[0]] && inp' == inp[1..]
    else HeapTail(out) && 0 < |str| <= Space(out) ==> CopiedOver(out, inp[1..], str, mem, out', inp')
  }

  /**
   * A small bucket is copied behind the data in out and destroyed. Whatever it is, this is what becomes of
   * both brigades.
   */
  method MoveCopy(out: Brigade, inp: Brigade, str: seq<Byte>) returns (rv: Status)
    requires Separate(out, inp) && inp.list != [] && |inp.parts| == |inp.list|
    requires inp.parts[0].text == str && inp.parts[0].fault == NoFault
    modifies out, inp, out.repr, inp.repr`next, inp.repr`prev, out.stores
    ensures Separate(out, inp) && fresh(out.repr - old(out.repr)) && fresh(out.stores - old(out.stores))
    ensures inp.repr <= old(inp.repr) && inp.stores == old(inp.stores) && rv == SUCCESS
    ensures Misses(old(out.parts), |str|, old(inp.parts)) ==> inp.parts == old(inp.parts[1..]) && Moved(out, inp, str)
    ensures old(HeapTail(out.parts)) && 0 < |str| <= old(Space(out.parts)) ==>
      CopiedOver(old(out.parts), old(inp.parts[1..]), str, old(TailMemory(out.parts)), out.parts, inp.parts)
    ensures Hits(old(out.parts), |str|, old(inp.parts[1..])) && old(Alien(out.parts, str)) ==>
      inp.Bytes() != PartsBytes(old(inp.parts[1..]))
    ensures |out.Bytes()| == |old(out.Bytes())| + |str| && |old(inp.Bytes())| == |str| + |inp.Bytes()|
    ensures Todo(inp.parts) == Todo(old(inp.parts[1..]))
    ensures old(NoFaults(out.parts)) ==> NoFaults(out.parts)
    ensures old(Sorted(out.parts, inp.parts)) ==>
      Sorted(out.parts, inp.parts) && Misses(old(out.parts), |str|, old(inp.parts))
  {
    hide Brigade.Valid, PartsBytes, RopeFault, Sorted, Wrote, Hits, TailClear, Space, Todo, Grown, Reread, Overwrite,
      NoFaults, TailEnd;
    ghost var before, gone := inp.parts, out.parts;
    FirstPart(before);
    ghost var sorted := Sorted(gone, before);
    if sorted {
      SortedMisses(gone, before);
    }
    inp.ValidLinked();
    ghost var known := out.stores + inp.stores;
    var e := inp.RemoveFirst();
    assert Alien(out.parts, str) == old(Alien(out.parts, str)) && TailMemory(out.parts) == old(TailMemory(out.parts));
    rv := SUCCESS;
    assert out.Bytes() + [] == out.Bytes();
    if |str| > 0 {
      rv := CopyBeside(out, inp, str, known);
      if sorted {
        SortedCopy(gone, before, out.parts, known);
      }
    } else {
      EmptyHits(gone, gone);
      EmptyHits(gone, inp.parts);
      if sorted {
        SortedDrop(gone, before);
      }
    }
  }

  /** The first bucket has no line feed: it goes over in one way or the other. */
  method MoveBucket(out: Brigade, inp: Brigade, e: Bucket, str: seq<Byte>)
    requires Separate(out, inp) && inp.list != [] && |inp.parts| == |inp.list| && e == inp.list[0]
    requires inp.parts[0].text == str && inp.parts[0].fault == NoFault
    modifies out, inp, out.repr, inp.repr`next, inp.repr`prev, out.stores
    ensures Separate(out, inp) && fresh(out.repr - old(out.repr + inp.repr)) && inp.repr <= old(inp.repr)
    ensures fresh(out.stores - old(out.stores + inp.stores)) && inp.stores == old(inp.stores)
    ensures Passed(old(out.parts), old(inp.parts), str, old(TailMemory(out.parts)), out.parts, inp.parts)
    ensures |str| > BUFF_SIZE / 4 || Misses(old(out.parts), |str|, old(inp.parts)) ==>
      inp.parts == old(inp.parts[1..]) && Moved(out, inp, str)
    ensures |str| <= BUFF_SIZE / 4 && Hits(old(out.parts), |str|, old(inp.parts[1..])) && old(Alien(out.parts, str)) ==>
      inp.Bytes() != PartsBytes(old(inp.parts[1..]))
    ensures |out.Bytes()| == |old(out.Bytes())| + |str| && |old(inp.Bytes())| == |str| + |inp.Bytes()|
    ensures Todo(inp.parts) == Todo(old(inp.parts[1..])) && (old(NoFaults(out.parts)) ==> NoFaults(out.parts))
    ensures old(Sorted(out.parts, inp.parts)) ==>
      Sorted(out.parts, inp.parts) && (|str| > BUFF_SIZE / 4 || Misses(old(out.parts), |str|, old(inp.parts)))
  {
    hide Brigade.Valid, PartsBytes, RopeFault, Sorted, Passed, Misses, Hits, Alien, NoFaults, Todo, CopiedOver,
      HeapTail, Space, TailMemory;
    inp.Whole(e, 0);
    ghost var gone, before := out.parts, inp.parts;
    if e.body.Meta? || |str| > BUFF_SIZE / 4 {
      WholeLaws(gone, before);
      MoveWhole(out, inp);
      MovedSize(out, inp, old(out.Bytes()), old(inp.Bytes()), str);
    } else {
      var _ := MoveCopy(out, inp, str);
      CopyLaws(gone, before, str, old(TailMemory(out.parts)), out.parts, inp.parts);
    }
  }

  /** What goes over as it is and is small has no bytes. */
  lemma WholeLaws(out: seq<Part>, inp: seq<Part>)
    requires inp != []
    ensures |inp[0].text| <= BUFF_SIZE / 4 && inp[0].text == [] ==>
      Misses(out, |inp[0].text|, inp) && !Hits(out, |inp[0].text|, inp[1..])
    ensures forall str: seq<Byte>, mem: seq<Byte> :: |str| > BUFF_SIZE / 4 || str == [] ==>
      Passed(out, inp, str, mem, out + [inp[0]], inp[1..])
  {
  }

  lemma CopyLaws(out: seq<Part>, inp: seq<Part>, str: seq<Byte>, mem: seq<Byte>, out': seq<Part>, inp': seq<Part>)
    requires inp != [] && |str| <= BUFF_SIZE / 4
    requires HeapTail(out) && 0 < |str| <= Space(out) ==> CopiedOver(out, inp[1..], str, mem, out', inp')
    ensures Passed(out, inp, str, mem, out', inp')
  {
  }

  lemma MovedSize(out: Brigade, inp: Brigade, gone: seq<Byte>, before: seq<Byte>, str: seq<Byte>)
    requires out.Bytes() == gone + str && before == str + inp.Bytes()
    ensures |out.Bytes()| == |gone| + |str| && |before| == |str| + |inp.Bytes()|
  {
  }

  lemma RestChunks(parts: seq<Part>, point: nat)
    requires parts != [] && point <= |parts[0].text| && parts[0].work == 0
    ensures forall limit: nat :: Chunks(parts, limit) ==>
      Chunks(parts[1..], limit) && Chunks([Back(parts[0], point)] + parts[1..], limit)
  {
  }

  /** One turn of the loop of apr_brigade_split_line. */
  method LineStep(out: Brigade, inp: Brigade) returns (rv: Status, found: bool, str: seq<Byte>)
    requires Separate(out, inp) && inp.list != []
    modifies out, inp, out.repr, inp.repr, out.stores
    ensures Separate(out, inp) && fresh(out.repr - old(out.repr + inp.repr)) && fresh(inp.repr - old(inp.repr))
    ensures fresh(out.stores - old(out.stores + inp.stores)) && fresh(inp.stores - old(inp.stores))
    ensures |old(inp.parts)| > 0 && rv == ReadStatus(old(inp.parts[0].fault))
    ensures rv != SUCCESS ==> !found && out.Bytes() == old(out.Bytes()) && inp.Bytes() == old(inp.Bytes())
    ensures rv == SUCCESS && (found || |str| > 2000 || Misses(old(out.parts), |str|, old(inp.parts))) ==>
      Moved(out, inp, str)
    ensures rv == SUCCESS && !found && |str| <= 2000 ==>
      (Hits(old(out.parts), |str|, old(inp.parts[1..])) && old(Alien(out.parts, str)) ==>
        old(inp.Bytes()) != str + inp.Bytes())
    ensures rv == SUCCESS ==> |out.Bytes()| == |old(out.Bytes())| + |str| && |old(inp.Bytes())| == |str| + |inp.Bytes()|
    ensures found ==> str != [] && str[|str| - 1] == LF && LF !in str[..|str| - 1]
    ensures rv == SUCCESS && !found ==> LF !in str && Todo(inp.parts) < old(Todo(inp.parts))
    ensures old(NoFaults(out.parts)) ==> NoFaults(out.parts)
    ensures old(Sorted(out.parts, inp.parts)) ==>
      Sorted(out.parts, inp.parts) && (rv == SUCCESS ==> Moved(out, inp, str))
    ensures forall limit: nat :: old(Sorted(out.parts, inp.parts)) && rv == SUCCESS && Chunks(old(inp.parts), limit) ==>
      |str| <= limit && Chunks(inp.parts, limit)
    ensures rv == SUCCESS && !found && old(inp.parts[0].work) == 0 ==>
      && str == old(inp.parts[0].text)
      && Passed(old(out.parts), old(inp.parts), str, old(TailMemory(out.parts)), out.parts, inp.parts)
  {
    hide Brigade.Valid, PartsBytes, RopeFault, Sorted, Todo, Chunks, Behind, Misses, Hits, NoFaults, Passed, Space;
    inp.NextAt(0);
    out.NextAt(0);
    found := false;
    var e := inp.sentinel.next;
    ghost var before := inp.parts;
    rv, str := ReadFirst(out, inp, e);
    if rv != SUCCESS {
      return;
    }
    assert Alien(out.parts, str) == old(Alien(out.parts, str)) && TailMemory(out.parts) == old(TailMemory(out.parts));
    ghost var gone, now := out.parts, inp.parts;
    FirstPart(now);
    HitsBehind(gone, |str|, before, now);
    var pos := IndexOf(str, LF);
    RestChunks(now, if pos >= 0 then pos + 1 else 0);
    if pos >= 0 {
      MoveLine(out, inp, e, pos + 1);
      MovedSize(out, inp, old(out.Bytes()), old(inp.Bytes()), str[..pos + 1]);
      return SUCCESS, true, str[..pos + 1];
    }
    MoveBucket(out, inp, e, str);
    LostRest(str, PartsBytes(now[1..]), inp.Bytes());
    MissesBehind(gone, |str|, before, now);
  }

  lemma LostRest(str: seq<Byte>, rest: seq<Byte>, now: seq<Byte>)
    ensures str + rest == str + now ==> rest == now
  {
    if str + rest == str + now {
      assert rest == (str + rest)[|str|..] && now == (str + now)[|str|..];
    }
  }

  lemma MissesBehind(out: seq<Part>, n: nat, was: seq<Part>, now: seq<Part>)
    requires Behind(was, now)
    ensures Misses(out, n, was) <==> Misses(out, n, now)
  {
    hide Hits;
    HitsBehind(out, n, was, now);
  }

  /**
   * What apr_brigade_split_line answers: an error if one comes before a line feed and before maxbytes bytes
   * of the rope, in which it always is.
   */
  ghost function LineStatus(parts: seq<Part>, maxbytes: int): Status {
    var f := RopeFault(parts);
    if parts != [] && ReadStatus(parts[0].fault) != SUCCESS then ReadStatus(parts[0].fault)
    else if f.NoFault? || f.offset >= maxbytes || f.offset > |PartsBytes(parts)| then SUCCESS
    else if LF !in PartsBytes(parts)[..f.offset] then ReadError(f.code)
    else SUCCESS
  }

  lemma AtFirst(out: Brigade, inp: Brigade)
    requires Separate(out, inp)
    ensures out.Valid() && inp.Valid() && |inp.list| == |inp.parts|
  {
    inp.NextAt(0);
  }

  /** A rope of parts was, of which line has been moved, without a line feed, and now is left. */
  ghost predicate Reading(was: seq<Part>, now: seq<Part>, line: seq<Byte>, maxbytes: int) {
    && RopeFault(was) == Later(RopeFault(now), |line|) && PartsBytes(was) == line + PartsBytes(now) && LF !in line
    && if was == now then line == []
      else was != [] && ReadStatus(was[0].fault) == SUCCESS && |line| < maxbytes && Todo(now) < Todo(was)
  }

  /** One turn of the loop: it ends there with a line feed or with enough bytes, or goes on. */
  lemma ReadingNext(was: seq<Part>, now: seq<Part>, line: seq<Byte>, maxbytes: int, next: seq<Part>, str: seq<Byte>,
                    found: bool)
    requires Reading(was, now, line, maxbytes) && now != [] && ReadStatus(now[0].fault) == SUCCESS
    requires PartsBytes(now) == str + PartsBytes(next) && RopeFault(now) == Later(RopeFault(next), |str|)
    requires if found then str != [] && str[|str| - 1] == LF else LF !in str && Todo(next) < Todo(now)
    ensures PartsBytes(was) == (line + str) + PartsBytes(next) && RopeFault(was) == Later(RopeFault(next), |line + str|)
    ensures found || |line + str| >= maxbytes || next == [] ==> LineStatus(was, maxbytes) == SUCCESS
    ensures !found ==> Todo(next) < Todo(was) && LF !in line + str
    ensures !found && |line + str| < maxbytes ==> Reading(was, next, line + str, maxbytes)
  {
    hide PartsBytes, Todo, RopeFault;
    var all := line + str;
    assert (line + str) + PartsBytes(next) == line + (str + PartsBytes(next));
    if found || |all| >= maxbytes || next == [] {
      LineEnds(was, next, all, maxbytes);
    }
  }

  /** A read fails behind line. */
  lemma LineFails(was: seq<Part>, now: seq<Part>, line: seq<Byte>, maxbytes: int)
    requires Reading(was, now, line, maxbytes) && now != [] && ReadStatus(now[0].fault) != SUCCESS
    ensures LineStatus(was, maxbytes) == ReadStatus(now[0].fault) && RopeFault(was).FaultAt?
    ensures |line| == RopeFault(was).offset
  {
    hide PartsBytes;
    assert PartsBytes(was)[..|line|] == line;
  }

  /** The loop ends without an error. */
  lemma LineEnds(was: seq<Part>, now: seq<Part>, line: seq<Byte>, maxbytes: int)
    requires RopeFault(was) == Later(RopeFault(now), |line|) && PartsBytes(was) == line + PartsBytes(now)
    requires was == [] || ReadStatus(was[0].fault) == SUCCESS
    requires now == [] || |line| >= maxbytes || (line != [] && line[|line| - 1] == LF)
    ensures LineStatus(was, maxbytes) == SUCCESS
  {
    hide PartsBytes;
    var f := RopeFault(was);
    if f.FaultAt? && f.offset <= |PartsBytes(was)| && line != [] && line[|line| - 1] == LF {
      assert PartsBytes(was)[..f.offset][|line| - 1] == LF;
    }
  }

  /** As much as a call may move: it goes on while there are fewer than maxbytes bytes, a bucket at a time. */
  function Reach(maxbytes: int, limit: nat): nat {
    limit + if maxbytes > 0 then maxbytes - 1 else 0
  }

  /**
   * How a call of apr_brigade_split_line ends, or goes on: line was moved from a rope of parts was, and now
   * is left.
   */
  ghost predicate LineSoFar(was: seq<Part>, now: seq<Part>, line: seq<Byte>, maxbytes: int, rv: Status, found: bool,
                            done: bool) {
    && (forall limit: nat :: Chunks(was, limit) && rv == SUCCESS ==>
      Chunks(now, limit) && |line| <= Reach(maxbytes, limit))
    && PartsBytes(was) == line + PartsBytes(now)
    && (done ==> rv == LineStatus(was, maxbytes))
    && (rv == SUCCESS ==> RopeFault(was) == Later(RopeFault(now), |line|))
    && (rv != SUCCESS ==> done && !found && RopeFault(was).FaultAt? && |line| == RopeFault(was).offset)
    && (found ==> done && line != [] && line[|line| - 1] == LF && LF !in line[..|line| - 1])
    && (!found ==> LF !in line)
    && (rv == SUCCESS && !found && done ==> now == [] || |line| >= maxbytes)
    && (rv == SUCCESS && !found && done ==> was == [] || Todo(now) < Todo(was))
    && (!done ==> Reading(was, now, line, maxbytes) && now != [])
  }

  lemma SoFarEmpty(parts: seq<Part>, maxbytes: int)
    ensures LineSoFar(parts, parts, [], maxbytes, SUCCESS, false, parts == [])
  {
  }

  /** One bucket of apr_brigade_split_line, and whether the loop ends with it. */
  method LineTurn(out: Brigade, inp: Brigade, ghost was: seq<Part>, ghost line: seq<Byte>, ghost maxbytes: int,
                  ghost sorted: bool)
    returns (rv: Status, found: bool, str: seq<Byte>, ghost done: bool)
    requires Separate(out, inp) && inp.list != []
    requires sorted ==> Sorted(out.parts, inp.parts) && LineSoFar(was, inp.parts, line, maxbytes, SUCCESS, false, false)
    modifies out, inp, out.repr, inp.repr, out.stores
    ensures Separate(out, inp) && fresh(out.repr + inp.repr - old(out.repr + inp.repr))
    ensures fresh(out.stores + inp.stores - old(out.stores + inp.stores))
    ensures (old(NoFaults(out.parts)) ==> NoFaults(out.parts))
    ensures rv != SUCCESS ==> out.Bytes() == old(out.Bytes()) && inp.Bytes() == old(inp.Bytes())
    ensures rv == SUCCESS ==> |out.Bytes()| == |old(out.Bytes())| + |str| && |old(inp.Bytes())| == |str| + |inp.Bytes()|
    ensures sorted ==>
      Sorted(out.parts, inp.parts) && out.Bytes() == old(out.Bytes()) + (if rv == SUCCESS then str else [])
    ensures sorted ==> LineSoFar(was, inp.parts, if rv == SUCCESS then line + str else line, maxbytes, rv, found, done)
    ensures rv == SUCCESS && !found ==> Todo(inp.parts) < old(Todo(inp.parts))
    ensures done <==> rv != SUCCESS || found || inp.list == [] || |line + str| >= maxbytes
  {
    hide Brigade.Valid, PartsBytes, RopeFault, Todo, Separate, Sorted, LineStatus, Reading, ReadStatus, Chunks,
      NoFaults, Passed, Misses, Hits, Alien, TailMemory;
    AtFirst(out, inp);
    ghost var now := inp.parts;
    rv, found, str := LineStep(out, inp);
    done := rv != SUCCESS || found || inp.list == [] || |line + str| >= maxbytes;
    AtFirst(out, inp);
    assert out.Bytes() + [] == out.Bytes();
    if sorted {
      if rv != SUCCESS {
        LineFails(was, now, line, maxbytes);
      } else {
        ReadingNext(was, now, line, maxbytes, inp.parts, str, found);
        ReadingShort(was, now, line, maxbytes);
      }
    }
  }

  lemma ReadingShort(was: seq<Part>, now: seq<Part>, line: seq<Byte>, maxbytes: int)
    requires Reading(was, now, line, maxbytes)
    ensures |line| <= if maxbytes > 0 then maxbytes - 1 else 0
  {
  }

  /** What a call has moved, where no copy ran into what was to come: line is what the rope began with. */
  ghost predicate LineMoved(was: seq<Part>, now: seq<Part>, line: seq<Byte>, maxbytes: int, rv: Status, found: bool) {
    && PartsBytes(was) == line + PartsBytes(now) && rv == LineStatus(was, maxbytes)
    && (rv == SUCCESS ==> RopeFault(was) == Later(RopeFault(now), |line|))
    && (rv != SUCCESS ==> !found && |line| == RopeFault(was).offset)
    && (found ==> line != [] && line[|line| - 1] == LF && LF !in line[..|line| - 1])
    && (!found ==> LF !in line)
    && (rv == SUCCESS && !found ==> (now == [] || |line| >= maxbytes) && (was == [] || Todo(now) < Todo(was)))
    && (forall limit: nat :: rv == SUCCESS && Chunks(was, limit) ==> |line| <= Reach(maxbytes, limit))
    && (rv == SUCCESS && maxbytes > 0 && Short(PartsBytes(was), maxbytes) ==>
      Short(PartsBytes(now), maxbytes) && line == PartsBytes(was)[..FirstLine(PartsBytes(was))])
  }

  lemma SoFarLaws(was: seq<Part>, now: seq<Part>, line: seq<Byte>, maxbytes: int, rv: Status, found: bool)
    requires LineSoFar(was, now, line, maxbytes, rv, found, true)
    ensures LineMoved(was, now, line, maxbytes, rv, found)
  {
    hide PartsBytes, Todo, Chunks, Short, RopeFault;
    PartsBytesNone();
    if rv == SUCCESS && maxbytes > 0 && Short(PartsBytes(was), maxbytes) {
      NextLine(PartsBytes(was), line, PartsBytes(now), found, now == [], maxbytes);
    }
  }

  /**
   * apr_brigade_split_line: move one line, or about maxbytes of it, from inp to out. If buckets of inp share
   * memory in an order that is not theirs in the brigade, a copy may go over bytes still to come (LineStep);
   * otherwise all that is moved is what inp had.
   */
  method SplitLine(out: Brigade, inp: Brigade, maxbytes: int)
    returns (rv: Status, ghost found: bool, ghost line: seq<Byte>)
    requires Separate(out, inp)
    modifies out, inp, out.repr, inp.repr, out.stores, inp.stores
    ensures Separate(out, inp) && fresh(out.repr + inp.repr - old(out.repr + inp.repr))
    ensures fresh(out.stores + inp.stores - old(out.stores + inp.stores))
    ensures (old(NoFaults(out.parts)) ==> NoFaults(out.parts))
    ensures |out.Bytes()| == |old(out.Bytes())| + |line| && |old(inp.Bytes())| == |line| + |inp.Bytes()|
    ensures old(Sorted(out.parts, inp.parts)) ==>
      && Sorted(out.parts, inp.parts) && out.Bytes() == old(out.Bytes()) + line
      && LineMoved(old(inp.parts), inp.parts, line, maxbytes, rv, found)
  {
    hide Brigade.Valid, PartsBytes, RopeFault, Todo, Separate, Sorted, LineStatus, LineSoFar, NoFaults, LineMoved,
      Brigade.Bytes;
    var readbytes := 0;
    rv, found, line := SUCCESS, false, [];
    ghost var was, sorted := inp.parts, Sorted(out.parts, inp.parts);
    SoFarEmpty(was, maxbytes);
    AtFirst(out, inp);
    var empty := inp.IsEmpty();
    ghost var done := empty;
    while !empty
      invariant Separate(out, inp) && (empty <==> inp.list == []) && |inp.list| == |inp.parts|
      invariant fresh(out.repr + inp.repr - old(out.repr + inp.repr))
      invariant fresh(out.stores + inp.stores - old(out.stores + inp.stores))
      invariant (old(NoFaults(out.parts)) ==> NoFaults(out.parts))
      invariant rv == SUCCESS && !found && readbytes == |line|
      invariant |out.Bytes()| == |old(out.Bytes())| + |line| && |old(inp.Bytes())| == |line| + |inp.Bytes()|
      invariant sorted ==> Sorted(out.parts, inp.parts) && out.Bytes() == old(out.Bytes()) + line
      invariant sorted ==> LineSoFar(was, inp.parts, line, maxbytes, rv, found, empty)
      decreases Todo(inp.parts)
    {
      var str, lf;
      rv, lf, str, done := LineTurn(out, inp, was, line, maxbytes, sorted);
      found := lf;
      if rv != SUCCESS {
        break;
      }
      assert (old(out.Bytes()) + line) + str == old(out.Bytes()) + (line + str);
      line := line + str;
      if lf {
        break;
      }
      readbytes := readbytes + |str|;
      AtFirst(out, inp);
      empty := inp.IsEmpty();
      if readbytes >= maxbytes {
        break;
      }
    }
    if sorted {
      SoFarLaws(was, inp.parts, line, maxbytes, rv, found);
    }
  }
}
