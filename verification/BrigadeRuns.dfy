// How brigades come about: any run of writes, reads, splits and cuts leaves one from which lines can be taken.
module BrigadeRuns {
  import opened Text
  import opened Lines
  import opened Buckets
  import opened Overlaps
  import opened Brigades
  import opened Flushes
  import opened BrigadeWrites
  import opened BrigadeOrder
  import opened SharedMemory
  import opened BrigadeReads

  /** What a client does with a brigade: write from memory of its own, read, split a bucket, cut the brigade. */
  datatype Op = Put(str: seq<Byte>) | Fetch(i: nat) | Halve(i: nat, point: nat) | Cut(k: nat)

  lemma ValidInside(b: Brigade)
    requires b.Valid()
    ensures Housed(b.parts) && Inside(b.parts, b.stores)
    ensures forall i :: 0 <= i < |b.parts| && b.parts[i].work > 0 ==> b.parts[i].store == null
  {
    hide Brigade.Valid;
    b.ValidLinked();
    ValidHoused(b);
  }

  /** How far a cursor gets that moves on i times. */
  ghost function Reached(b: Brigade, i: nat): (k: nat)
    reads b
    ensures k <= |b.list| && k <= i
  {
    if i < |b.list| then i else |b.list|
  }

  /** Move a cursor on i times, but not beyond the sentinel. */
  method Walk(b: Brigade, i: nat) returns (e: Bucket)
    requires b.Valid()
    ensures e == b.BucketAt(Reached(b, i)) && (e == b.sentinel <==> Reached(b, i) == |b.list|)
  {
    hide Brigade.Valid;
    b.NextAt(0);
    b.AtEnd(0);
    e := b.sentinel.next;
    var n := 0;
    while n < i && e != b.sentinel
      invariant n <= i && n <= |b.list| && e == b.BucketAt(n) && (e == b.sentinel <==> n == |b.list|)
    {
      b.NextAt(n);
      e := e.next;
      n := n + 1;
      b.AtEnd(n);
    }
  }

  /** A write from new memory. */
  method PutNew(b: Brigade, sink: Sink?, str: seq<Byte>)
    requires b.Valid() && Orderly(b.parts)
    modifies b, b.repr, b.stores, sink
    ensures b.Valid() && Orderly(b.parts) && fresh(b.repr - old(b.repr)) && fresh(b.stores - old(b.stores))
    ensures Written(b, sink) == old(Written(b, sink)) + str
  {
    hide Brigade.Valid, Orderly, Wrote, Written, TailClear, Hits, Touched, Grown, Reread, Overwrite, Space, HeapTail;
    ValidInside(b);
    OrderlyClear(b.parts);
    ghost var before, known := b.parts, b.stores;
    var mem := NewHeap(str, |str|);
    var from := Loan(mem, 0);
    assert mem[0..0 + |str|] == mem[..|str|];
    TouchedStore(b, |str|);
    var rv := Write(b, sink, str, from);
    OrderlyWrote(before, str, from, sink != null, old(TurnOf(sink)), b.parts, known + from.Memory());
  }

  /** apr_bucket_read of some bucket. */
  method FetchAt(b: Brigade, i: nat)
    requires b.Valid() && Orderly(b.parts)
    modifies b, b.repr
    ensures b.Valid() && Orderly(b.parts) && fresh(b.repr - old(b.repr)) && fresh(b.stores - old(b.stores))
  {
    hide Brigade.Valid, Orderly, ReadAs, Housed, Inside, Absent;
    var e := Walk(b, i);
    ghost var k := Reached(b, i);
    if e == b.sentinel {
      return;
    }
    b.NextAt(k);
    ValidInside(b);
    ghost var before, known := b.parts, b.stores;
    ghost var nb, now;
    var rv, str;
    rv, str, nb, now := b.Read(e, k);
    ValidInside(b);
    HousedBetween(before[..k], now, before[k + 1..]);
    NewAbsent(before, known, now[0].store);
    OrderlyRead(before, k, now, rv, str);
  }

  lemma HousedBetween(a: seq<Part>, now: seq<Part>, c: seq<Part>)
    requires Housed(a + now + c)
    ensures Housed(now)
  {
    assert forall i :: 0 <= i < |now| ==> (a + now + c)[|a| + i] == now[i];
  }

  lemma NewAbsent(parts: seq<Part>, known: set<array<Byte>>, mem: array?<Byte>)
    requires Inside(parts, known)
    ensures mem != null && mem !in known ==> Absent(mem, parts)
  {
  }

  /** apr_bucket_split of some bucket. */
  method HalveAt(b: Brigade, i: nat, point: nat)
    requires b.Valid() && Orderly(b.parts)
    modifies b, b.repr
    ensures b.Valid() && Orderly(b.parts) && fresh(b.repr - old(b.repr)) && b.stores == old(b.stores)
  {
    hide Brigade.Valid, Orderly, Front, Back;
    var e := Walk(b, i);
    ghost var k := Reached(b, i);
    if e == b.sentinel {
      return;
    }
    b.NextAt(k);
    b.Whole(e, k);
    ghost var before, nb := b.parts, e;
    var rv;
    rv, nb := b.SplitBucket(e, point, k);
    if rv == SUCCESS {
      OrderlyHalved(before, k, point);
    }
  }

  /** apr_brigade_split_ex; what is cut off is not used any more. */
  method CutAt(b: Brigade, i: nat)
    requires b.Valid() && Orderly(b.parts)
    modifies b, b.repr
    ensures b.Valid() && Orderly(b.parts) && b.repr <= old(b.repr)
    ensures b.stores == old(b.stores)
  {
    hide Brigade.Valid, Orderly;
    var e := Walk(b, i);
    ghost var k := Reached(b, i);
    b.NextAt(k);
    OrderlyParts(b.parts, k);
    var a := b.SplitEx(e, null, k);
  }

  method Perform(b: Brigade, sink: Sink?, op: Op)
    requires b.Valid() && Orderly(b.parts)
    modifies b, b.repr, b.stores, sink
    ensures b.Valid() && Orderly(b.parts) && fresh(b.repr - old(b.repr)) && fresh(b.stores - old(b.stores))
  {
    hide *;
    match op {
      case Put(str) => PutNew(b, sink, str);
      case Fetch(i) => FetchAt(b, i);
      case Halve(i, point) => HalveAt(b, i, point);
      case Cut(k) => CutAt(b, k);
    }
  }

  /** Whatever was done with a new brigade, lines can be moved from it to another new one without losing a byte. */
  method PerformAll(sink: Sink?, ops: seq<Op>) returns (out: Brigade, inp: Brigade)
    modifies sink
    ensures Apart(out, inp) && Orderly(inp.parts) && TailClear(inp.parts) && out.parts == []
  {
    hide Brigade.Valid, Orderly;
    inp := new Brigade();
    OrderlyNone();
    for i := 0 to |ops|
      invariant inp.Valid() && Orderly(inp.parts) && fresh(inp) && fresh(inp.repr) && fresh(inp.stores)
    {
      Perform(inp, sink, ops[i]);
    }
    out := new Brigade();
    OrderlySorted(out.parts, inp.parts);
    OrderlyClear(inp.parts);
  }

  lemma OrderlyNone()
    ensures Orderly([])
  {
  }

  /** A heap bucket split behind its first 3000 bytes, and a bucket of one byte put between the halves. */
  method Between(x: Byte, y: Byte, z: Byte) returns (inp: Brigade, ghost base: array<Byte>)
    ensures inp.Valid() && fresh(inp) && fresh(inp.repr) && fresh(inp.stores) && base.Length == BUFF_SIZE
    ensures inp.parts == [Own(Run(x), base, 0), Plain([z], 0), Own([y], base, 3000)]
  {
    hide Brigade.Valid, PartsBytes, Run;
    inp, base := SplitHeap(Run(x) + [y], 3000);
    assert (Run(x) + [y])[..3000] == Run(x) && (Run(x) + [y])[3000..] == [y];
    inp.NextAt(0);
    var q := new Bucket(Immortal([z]), Known(1), 0);
    inp.InsertAfter(inp.sentinel.next, q, 0, Plain([z], 0));
  }

  function Run(x: Byte): (s: seq<Byte>)
    ensures |s| == 3000 && forall i :: 0 <= i < |s| ==> s[i] == x
  {
    seq(3000, i => x)
  }

  /** A turn of apr_brigade_split_line where there is no line feed, on a bucket in memory. */
  method PlainTurn(out: Brigade, inp: Brigade)
    requires Separate(out, inp) && inp.parts != [] && inp.parts[0].work == 0 && inp.parts[0].fault == NoFault
    requires LF !in inp.Bytes()
    modifies out, inp, out.repr, inp.repr, out.stores
    ensures Separate(out, inp) && fresh(out.repr + inp.repr - old(out.repr + inp.repr))
    ensures fresh(out.stores + inp.stores - old(out.stores + inp.stores))
    ensures var str := old(inp.parts[0].text);
      && Passed(old(out.parts), old(inp.parts), str, old(TailMemory(out.parts)), out.parts, inp.parts)
      && (Misses(old(out.parts), |str|, old(inp.parts)) ==>
        out.Bytes() == old(out.Bytes()) + str && old(inp.Bytes()) == str + inp.Bytes())
  {
    hide Brigade.Valid, PartsBytes, Passed, Misses, TailMemory, Hits, Todo, RopeFault, Sorted, Alien, NoFaults, Chunks,
      HeapTail, Brigade.Bytes;
    inp.NextAt(0);
    var rv, found, str := LineStep(out, inp);
    if found {
      NoFeed(str, inp.Bytes(), old(inp.Bytes()));
    }
  }

  lemma NoFeed(str: seq<Byte>, rest: seq<Byte>, all: seq<Byte>)
    requires all == str + rest && LF !in all && str != []
    ensures str[|str| - 1] != LF
  {
    assert all[|str| - 1] == str[|str| - 1];
  }

  lemma PartsBytesThree(p: Part, q: Part, r: Part)
    ensures PartsBytes([p, q, r]) == p.text + q.text + r.text
  {
    assert [p, q, r][1..] == [q, r];
    PartsBytesTwo(q, r);
    assert p.text + (q.text + r.text) == p.text + q.text + r.text;
  }

  /** The copy of the small bucket goes over the second half. */
  lemma SecondTurn(x: Byte, y: Byte, z: Byte, base: array<Byte>, mem: seq<Byte>, out: seq<Part>, inp: seq<Part>)
    requires base.Length == BUFF_SIZE == |mem| && mem[0..3000] == Run(x)
    requires Passed([Own(Run(x), base, 0)], [Plain([z], 0), Own([y], base, 3000)], [z], mem, out, inp)
    ensures out == [Own(Run(x) + [z], base, 0)] && inp == [Own([z], base, 3000)]
    ensures Misses(out, 1, inp)
  {
    var was, rest := [Own(Run(x), base, 0)], [Plain([z], 0), Own([y], base, 3000)][1..];
    var now := Overwrite(mem, 3000, [z]);
    assert rest == [Own([y], base, 3000)];
    assert now[0..3000] == mem[0..3000];
    assert now[3000..3001] == [z];
    assert Reread(was, base, now) == was;
    assert Reread(rest, base, now) == [Own([z], base, 3000)];
  }

  /**
   * From such a brigade apr_brigade_split_line loses a byte: the first half moves as it is, the small bucket
   * is copied behind it, and so over the second half, which is in the same memory.
   */
  method SplitLineLoses(x: Byte, y: Byte, z: Byte) returns (out: Brigade, inp: Brigade, ghost before: seq<Byte>)
    requires x != LF && y != LF && z != LF
    ensures before == Run(x) + [z] + [y] && out.Bytes() == Run(x) + [z] + [z] && inp.Bytes() == []
  {
    hide Brigade.Valid, PartsBytes, Misses, TailMemory, Run, Hits;
    ghost var base;
    inp, base := Between(x, y, z);
    out := new Brigade();
    PartsBytesThree(inp.parts[0], inp.parts[1], inp.parts[2]);
    before := inp.Bytes();
    PlainTurn(out, inp);
    ghost var first := out.parts;
    assert first == [Own(Run(x), base, 0)] && inp.parts == [Plain([z], 0), Own([y], base, 3000)];
    PartsBytesTwo(inp.parts[0], inp.parts[1]);
    out.ValidLinked();
    ghost var mem := TailMemory(first);
    MemoryOf(first, base);
    PlainTurn(out, inp);
    SecondTurn(x, y, z, base, mem, out.parts, inp.parts);
    PartsBytesTwo(out.parts[0], out.parts[0]);
    PartsBytesTwo(inp.parts[0], inp.parts[0]);
    PlainTurn(out, inp);
  }

  lemma MemoryOf(parts: seq<Part>, base: array<Byte>)
    requires |parts| == 1 && parts[0].own && parts[0].store == base && Stored(parts[0]) && parts[0].at == 0
    ensures TailMemory(parts) == base[..] && TailMemory(parts)[0..|parts[0].text|] == parts[0].text
  {
  }
}
