// Memory that a brigade shares, with its writer or with another brigade: what becomes of the bytes in it.
module SharedMemory {
  import opened Seqs
  import opened Text
  import opened Buckets
  import opened Overlaps
  import opened Brigades
  import opened Flushes
  import opened BrigadeWrites

  /** What was written outlives the caller's memory exactly if the callback was not left holding it. */
  lemma WriteOutlives(before: seq<Part>, str: seq<Byte>, from: Loan, sending: bool, turn: Turn, now: seq<Part>,
                      known: set<array<Byte>>, mem: seq<Byte>)
    requires Wrote(before, str, from, sending, turn, now, known) && from.Loan? && from.mem in known && str != []
    requires !Tied(before, from.mem) && NotOwned(before, from.mem)
    requires Agrees(now, from.mem, mem)
    ensures (forall later: seq<Byte> :: |later| == |mem| ==>
      PartsBytes(Reread(now, from.mem, later)) == PartsBytes(now))
      <==> !(sending && |str| > Space(before) && turn.Lends())
  {
    hide PartsBytes, Reread, Agrees, Flushed;
    Outlives(now, from.mem, mem);
    if |str| > Space(before) && sending {
      FlushedTied(before, Lent(str, from.mem, from.at), turn, now, known);
    } else {
      forall i | 0 <= i < |now| && now[i].store == from.mem ensures now[i].text == [] {
        assert i < |before| ==> before[i].store == now[i].store;
      }
    }
  }

  /** The same for the pieces of a large apr_brigade_writev: those the callback left, if it did not set them aside. */
  lemma LargeOutlives(before: seq<Part>, vec: seq<seq<Byte>>, from: seq<Loan>, turn: Turn, now: seq<Part>,
                      known: set<array<Byte>>, a: array<Byte>, mem: seq<Byte>)
    requires |from| == |vec| && (forall i :: 0 <= i < |from| ==> from[i].Loan?)
    requires Flushed(before + LentParts(vec, from), turn, now, known) && a in known
    requires !Tied(before, a) && Agrees(now, a, mem)
    ensures (forall later: seq<Byte> :: |later| == |mem| ==> PartsBytes(Reread(now, a, later)) == PartsBytes(now))
      <==> (turn.aside || forall i :: 0 <= i < |vec| && |vec| - turn.leave <= i && from[i].mem == a ==> vec[i] == [])
  {
    hide PartsBytes, Reread, Agrees, Flushed, Tied;
    Outlives(now, a, mem);
    if turn.aside {
      AsideLoans(before, vec, from, turn, now, known, a);
    } else {
      LeftLoans(before, vec, from, turn, now, known, a);
    }
  }

  lemma AsideLoans(before: seq<Part>, vec: seq<seq<Byte>>, from: seq<Loan>, turn: Turn, now: seq<Part>,
                   known: set<array<Byte>>, a: array<Byte>)
    requires |from| == |vec| && (forall i :: 0 <= i < |from| ==> from[i].Loan?)
    requires Flushed(before + LentParts(vec, from), turn, now, known) && turn.aside && a in known && !Tied(before, a)
    ensures !Tied(now, a)
  {
    hide Tied, Aside, LentParts;
    var all := before + LentParts(vec, from);
    var k := Ahead(all, turn.leave);
    AsideTied(all[k..], now, known, a, before);
  }

  lemma LeftLoans(before: seq<Part>, vec: seq<seq<Byte>>, from: seq<Loan>, turn: Turn, now: seq<Part>,
                  known: set<array<Byte>>, a: array<Byte>)
    requires |from| == |vec| && (forall i :: 0 <= i < |from| ==> from[i].Loan?)
    requires Flushed(before + LentParts(vec, from), turn, now, known) && !turn.aside && !Tied(before, a)
    ensures !Tied(now, a)
      <==> forall i :: 0 <= i < |vec| && |vec| - turn.leave <= i && from[i].mem == a ==> vec[i] == []
  {
    var all := before + LentParts(vec, from);
    var k := Ahead(all, turn.leave);
    forall i | 0 <= i < |vec| && |vec| - turn.leave <= i && from[i].mem == a && vec[i] != [] ensures Tied(now, a) {
      assert now[|before| + i - k] == all[|before| + i];
    }
    if Tied(now, a) {
      var i :| 0 <= i < |now| && now[i].store == a && now[i].text != [];
      assert now[i] == all[k + i];
      assert k + i >= |before| && from[k + i - |before|].mem == a;
    }
  }

  /** Nothing that was set aside is in memory known before, unless it was its own. */
  lemma AsideTied(rest: seq<Part>, now: seq<Part>, known: set<array<Byte>>, a: array<Byte>, before: seq<Part>)
    requires Aside(rest, now, known) && a in known && !Tied(before, a)
    requires forall i :: 0 <= i < |rest| ==> rest[i] in before || (rest[i].store != null && !rest[i].own)
    ensures !Tied(now, a)
  {
    forall i | 0 <= i < |now| && now[i].store == a ensures now[i].text == [] {
      assert SetAside(rest[i], now[i], known);
    }
  }

  /** Every byte of str differs from what is in the room behind the last bucket. */
  ghost predicate Alien(parts: seq<Part>, str: seq<Byte>)
    reads if HeapTail(parts) then {parts[|parts| - 1].store} else {}
  {
    HeapTail(parts) && TailEnd(parts) + |str| <= parts[|parts| - 1].store.Length &&
    forall k :: 0 <= k < |str| ==> str[k] != parts[|parts| - 1].store[TailEnd(parts) + k]
  }

  /** Brigade c after str was written over its memory a, which held mem, from at on. */
  ghost method Notice(c: Brigade, a: array<Byte>, mem: seq<Byte>, at: nat, str: seq<Byte>)
    requires c.Linked() && (forall i :: 0 <= i < |c.parts| && c.parts[i].store != a ==> Stored(c.parts[i]))
    requires Agrees(c.parts, a, mem) && at + |str| <= |mem| && a[..] == Overwrite(mem, at, str)
    modifies c`parts
    ensures c.Valid() && c.parts == Reread(old(c.parts), a, Overwrite(mem, at, str))
    ensures !Meets(old(c.parts), a, at, |str|) ==> c.parts == old(c.parts)
    ensures Meets(old(c.parts), a, at, |str|) && (forall k :: 0 <= k < |str| ==> str[k] != mem[at + k]) ==>
      c.Bytes() != old(c.Bytes())
  {
    hide PartsBytes, Brigade.Valid, Brigade.Linked, Meets, Overwrite, Reread;
    ghost var before := c.parts;
    c.Refill(a);
    if !Meets(before, a, at, |str|) {
      WriteApart(before, a, mem, at, str);
    } else if forall k :: 0 <= k < |str| ==> str[k] != mem[at + k] {
      WriteOver(before, a, mem, at, str);
    }
  }

  /**
   * apr_brigade_write into b, seen from another brigade c. Whatever is written, the bytes of c stay
   * the same, unless the write fills room in which c has data; and then other bytes change them.
   */
  method WriteBeside(b: Brigade, c: Brigade, sink: Sink?, str: seq<Byte>, from: Loan) returns (rv: Status)
    requires b.Valid() && (sink != null ==> from.Has(str))
    requires c != b && c.Valid() && b.repr !! c.repr
    modifies b, b.repr, Touched(b.parts, |str|), sink, c`parts
    ensures b.Valid() && fresh(b.repr - old(b.repr)) && fresh(b.stores - old(b.stores) - from.Memory())
    ensures old(TailClear(b.parts)) ==> TailClear(b.parts) && !Hits(old(b.parts), |str|, old(b.parts))
    ensures !Hits(old(b.parts), |str|, old(b.parts)) ==>
      && Written(b, sink) == old(Written(b, sink)) + str
      && Wrote(old(b.parts), str, from, sink != null, old(TurnOf(sink)), b.parts, old(b.stores) + from.Memory())
    ensures rv == if sink != null && |str| > old(Space(b.parts)) then old(TurnOf(sink)).rv else SUCCESS
    ensures old(HeapTail(b.parts)) && |str| <= old(Space(b.parts)) ==>
      var a, at := old(b.parts[|b.parts| - 1]).store, old(TailEnd(b.parts));
      && at + |str| <= a.Length && b.parts == Grown(Reread(old(b.parts), a, Overwrite(old(a[..]), at, str)), str)
      && c.parts == Reread(old(c.parts), a, Overwrite(old(a[..]), at, str))
    ensures c.Valid() && b.repr !! c.repr
    ensures !Hits(old(b.parts), |str|, old(c.parts)) ==> c.parts == old(c.parts)
    ensures Hits(old(b.parts), |str|, old(c.parts)) && old(Alien(b.parts, str)) ==> c.Bytes() != old(c.Bytes())
  {
    hide PartsBytes, Brigade.Valid, Brigade.Linked, Brigade.Bytes, TailClear, Wrote, Written, Meets, Overwrite, Space,
      Reread, Agrees, Stored, TurnOf;
    ghost var parts := b.parts;
    ghost var fits, at := HeapTail(parts) && |str| <= Space(parts), TailEnd(parts);
    ghost var mem := if fits then parts[|parts| - 1].store[..] else [];
    c.ValidLinked();
    if fits {
      ValidAgrees(c, parts[|parts| - 1].store);
    }
    rv := Write(b, sink, str, from);
    if fits {
      Notice(c, parts[|parts| - 1].store, mem, at, str);
    }
  }

  /** What is in a brigade of these parts once str was written behind its last bucket, whose memory a held mem. */
  ghost function Filled(parts: seq<Part>, a: array<Byte>, mem: seq<Byte>, str: seq<Byte>): seq<Byte>
    requires TailEnd(parts) + |str| <= |mem|
  {
    PartsBytes(Grown(Reread(parts, a, Overwrite(mem, TailEnd(parts), str)), str))
  }

  lemma FilledBytes(parts: seq<Part>, a: array<Byte>, mem: seq<Byte>, str: seq<Byte>)
    requires parts != [] && TailEnd(parts) + |str| <= |mem|
    ensures Filled(parts, a, mem, str) == PartsBytes(Reread(parts, a, Overwrite(mem, TailEnd(parts), str))) + str
  {
    hide PartsBytes, Reread, Grown, Overwrite;
    GrownLaws(Reread(parts, a, Overwrite(mem, TailEnd(parts), str)), str);
  }

  lemma FilledApart(parts: seq<Part>, a: array<Byte>, mem: seq<Byte>, str: seq<Byte>)
    requires HeapTail(parts) && a == parts[|parts| - 1].store && Agrees(parts, a, mem)
    requires TailEnd(parts) + |str| <= |mem| == a.Length && !Hits(parts, |str|, parts)
    ensures Filled(parts, a, mem, str) == PartsBytes(parts) + str
  {
    hide PartsBytes, Reread, Meets, Overwrite, Filled;
    FilledBytes(parts, a, mem, str);
    WriteApart(parts, a, mem, TailEnd(parts), str);
  }

  lemma FilledOver(parts: seq<Part>, a: array<Byte>, mem: seq<Byte>, str: seq<Byte>)
    requires parts != [] && Agrees(parts, a, mem) && TailEnd(parts) + |str| <= |mem|
    requires Meets(parts, a, TailEnd(parts), |str|) && forall k :: 0 <= k < |str| ==> str[k] != mem[TailEnd(parts) + k]
    ensures Filled(parts, a, mem, str) != PartsBytes(parts) + str
  {
    hide PartsBytes, Reread, Meets, Overwrite, Filled, TailEnd, Agrees;
    FilledBytes(parts, a, mem, str);
    WriteOver(parts, a, mem, TailEnd(parts), str);
    var now := PartsBytes(Reread(parts, a, Overwrite(mem, TailEnd(parts), str)));
    if now + str == PartsBytes(parts) + str {
      SameFront(now, PartsBytes(parts), str);
    }
  }

  /**
   * apr_brigade_write into a brigade that shares memory with itself: what is there stays the same for
   * every str of this length, exactly if no bucket has data in the room that is filled.
   */
  lemma WriteWithin(parts: seq<Part>, a: array<Byte>, mem: seq<Byte>, n: nat)
    requires HeapTail(parts) && a == parts[|parts| - 1].store && Agrees(parts, a, mem)
    requires TailEnd(parts) + n <= |mem| == a.Length
    ensures (forall str: seq<Byte> :: |str| == n ==> Filled(parts, a, mem, str) == PartsBytes(parts) + str)
      <==> !Hits(parts, n, parts)
  {
    hide PartsBytes, Meets, Filled;
    if Hits(parts, n, parts) {
      FilledOver(parts, a, mem, Other(mem[TailEnd(parts)..TailEnd(parts) + n]));
    } else {
      forall str: seq<Byte> | |str| == n ensures Filled(parts, a, mem, str) == PartsBytes(parts) + str {
        FilledApart(parts, a, mem, str);
      }
    }
  }

  /** Bytes that are different everywhere. */
  function Other(s: seq<Byte>): (t: seq<Byte>)
    ensures |t| == |s| && forall k :: 0 <= k < |s| ==> t[k] != s[k]
  {
    seq(|s|, k requires 0 <= k < |s| => if s[k] == 0 then 1 else 0)
  }

  /** A new brigade with one heap bucket, split behind its first point bytes. */
  method SplitHeap(str: seq<Byte>, point: nat) returns (a: Brigade, ghost base: array<Byte>)
    requires point <= |str| <= BUFF_SIZE
    ensures a.Valid() && fresh(a) && fresh(a.repr) && fresh(a.stores) && base.Length == BUFF_SIZE && fresh(base)
    ensures a.parts == [Own(str[..point], base, 0), Own(str[point..], base, point)]
  {
    hide Brigade.Valid, PartsBytes, Holds, Rings.Cyclic;
    a := new Brigade();
    var e := OneHeap(a, str);
    base := a.parts[0].store;
    a.NextAt(0);
    WholeHeap(a, e);
    ghost var nb;
    var rv;
    rv, nb := a.SplitBucket(e, point, 0);
  }

  method OneHeap(a: Brigade, str: seq<Byte>) returns (e: Bucket)
    requires a.Valid() && a.parts == [] && |str| <= BUFF_SIZE
    modifies a, a.repr
    ensures a.Valid() && fresh(a.repr - old(a.repr)) && fresh(a.stores - old(a.stores))
    ensures a.list != [] && e == a.list[0] && |a.parts| == 1 && fresh(a.parts[0].store)
    ensures a.parts[0].store != null && a.parts[0].store.Length == BUFF_SIZE
    ensures a.parts == [Own(str, a.parts[0].store, 0)]
  {
    hide Brigade.Valid, PartsBytes;
    var rv := Write(a, null, str, NoLoan);
    a.ValidLinked();
    a.NextAt(0);
    e := a.sentinel.next;
  }

  /** A heap bucket of two bytes, split over two brigades. */
  method Halves(x: Byte, y: Byte) returns (a: Brigade, c: Brigade, ghost base: array<Byte>)
    ensures a.Valid() && c.Valid() && a != c && a.repr !! c.repr && fresh({a, c}) && fresh(a.repr + c.repr)
    ensures base.Length == BUFF_SIZE && fresh(base)
    ensures a.parts == [Own([x], base, 0)] && c.parts == [Own([y], base, 1)]
  {
    hide Brigade.Valid, PartsBytes;
    a, base := SplitHeap([x, y], 1);
    assert [x, y][..1] == [x] && [x, y][1..] == [y];
    a.NextAt(0);
    a.NextAt(1);
    c := a.SplitEx(a.sentinel.next.next, null, 1);
  }

  lemma WholeHeap(a: Brigade, e: Bucket)
    requires a.Valid() && a.list != [] && e == a.list[0]
    ensures a.parts != [] && a.parts[0].own ==> e.body.Heap?
  {
    a.Whole(e, 0);
  }

  /**
   * Two heap buckets made by a split share their memory, and so do the brigades they end up in:
   * appending to the first overwrites the second.
   */
  method SplitThenWrite(x: Byte, y: Byte, z: Byte) returns (a: Brigade, c: Brigade, ghost before: seq<Byte>)
    ensures a.Bytes() == [x, z] && before == [y] && c.Bytes() == [z]
  {
    hide Brigade.Valid, PartsBytes;
    ghost var base;
    a, c, base := Halves(x, y);
    PartsBytesTwo(a.parts[0], a.parts[0]);
    PartsBytesTwo(c.parts[0], c.parts[0]);
    before := c.Bytes();
    ghost var p := c.parts[0];
    assert Touches(p, base, 1, 1);
    var rv := WriteBeside(a, c, null, [z], NoLoan);
    assert Written(a, null) == a.Bytes() == [x] + [z];
    assert c.parts == [Own([z], base, 1)];
    PartsBytesTwo(c.parts[0], c.parts[0]);
  }

  /**
   * The halves in the other order in one brigade: the write behind the first half, which is now the last
   * bucket, goes over the second.
   */
  method SwapThenWrite(x: Byte, y: Byte, z: Byte) returns (c: Brigade, ghost before: seq<Byte>)
    ensures before == [y, x] && c.Bytes() == [z, x, z]
  {
    hide Brigade.Valid, PartsBytes, Reread, Grown, Hits, TailClear, Wrote, Written;
    ghost var base;
    var a;
    a, c, base := Halves(x, y);
    c.Concat(a);
    ghost var parts := c.parts;
    assert parts == [Own([y], base, 1), Own([x], base, 0)];
    PartsBytesTwo(parts[0], parts[1]);
    before := c.Bytes();
    c.ValidLinked();
    assert Stored(parts[1]) && base[0..1][0] == x;
    var rv := Write(c, null, [z], NoLoan);
    SwappedParts(x, y, z, base, parts);
    PartsBytesTwo(c.parts[0], c.parts[1]);
  }

  lemma SwappedParts(x: Byte, y: Byte, z: Byte, base: array<Byte>, parts: seq<Part>)
    requires base.Length == BUFF_SIZE && parts == [Own([y], base, 1), Own([x], base, 0)] && base[0] == x && base[1] == z
    ensures Grown(Reread(parts, base, base[..]), [z]) == [Own([z], base, 1), Own([x, z], base, 0)]
  {
    var now := Reread(parts, base, base[..]);
    assert base[..][1..2] == [z];
    assert now[0] == Own([z], base, 1);
    assert now[1].text + [z] == [x, z];
    assert now[1].text == base[..][0..1];
  }
}
