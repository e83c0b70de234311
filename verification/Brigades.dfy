// Bucket brigades: a ring of buckets whose bytes, in order, are one rope.
module Brigades {
  import opened Seqs
  import opened Text
  import opened Buckets
  import opened Overlaps
  import Rings

  /** What setting a bucket aside makes of it: memory lent by a caller is copied to memory not known before. */
  ghost predicate SetAside(p: Part, now: Part, known: set<array<Byte>>) {
    if p.store == null || p.own then now == p
    else now.store != null && now == Own(p.text, now.store, 0) && now.store !in known && now.store.Length == |p.text|
  }

  /** The same for a list of buckets; each gets memory of its own. */
  ghost predicate Aside(before: seq<Part>, now: seq<Part>, known: set<array<Byte>>) {
    && |now| == |before| && (forall i :: 0 <= i < |now| ==> SetAside(before[i], now[i], known))
    && forall i, j :: 0 <= i < j < |now| && now[i].store != null && now[i].store == now[j].store ==>
      now[i] == before[i] && now[j] == before[j]
  }

  /** So far the first k buckets have been set aside. */
  ghost predicate AsideUpTo(before: seq<Part>, now: seq<Part>, k: nat, known: set<array<Byte>>) {
    && |now| == |before| && k <= |now| && (forall i :: 0 <= i < k ==> SetAside(before[i], now[i], known))
    && (forall i :: k <= i < |now| ==> now[i] == before[i])
    && forall i, j :: 0 <= i < j < k && now[i].store != null && now[i].store == now[j].store ==>
      now[i] == before[i] && now[j] == before[j]
  }

  lemma AsideNext(before: seq<Part>, was: seq<Part>, now: seq<Part>, k: nat, known: set<array<Byte>>,
                  used: set<array<Byte>>)
    requires AsideUpTo(before, was, k, known) && k < |was| == |now| && known <= used
    requires now == was[k := now[k]] && SetAside(was[k], now[k], used)
    requires forall i :: 0 <= i < |was| ==> was[i].store == null || was[i].store in used
    requires forall i :: 0 <= i < |before| ==> before[i].store == null || before[i].store in known
    ensures AsideUpTo(before, now, k + 1, known)
  {
  }

  class Brigade {
    const sentinel: Bucket
    ghost var list: seq<Bucket>
    ghost var parts: seq<Part>
    ghost var stores: set<array<Byte>>
    ghost var repr: set<Bucket>

    ghost function Ring(): seq<Bucket>
      reads this
    {
      [sentinel] + list
    }

    ghost predicate Valid()
      reads this, repr, stores
    {
      && sentinel in repr && (forall i :: 0 <= i < |list| ==> list[i] in repr)
      && Rings.Cyclic(Ring()) && Loaded(list, parts, stores)
    }

    /** The rope: the bytes of all buckets in order. */
    ghost function Bytes(): seq<Byte>
      reads this
    {
      PartsBytes(parts)
    }

    /** apr_brigade_create. */
    constructor ()
      ensures Valid() && fresh(repr) && stores == {} && list == [] && parts == []
    {
      sentinel := new Bucket(Head, Known(0), 0);
      list, parts, stores, repr := [], [], {}, {sentinel};
    }

    /** APR_BRIGADE_INSERT_TAIL. */
    method InsertTail(e: Bucket, ghost p: Part)
      requires Valid() && e !in repr && Holds(e, p)
      modifies this, repr`next, repr`prev, e`next, e`prev
      ensures Valid() && repr == old(repr) + {e} && list == old(list) + [e] && parts == old(parts) + [p]
      ensures stores == old(stores) + (if p.store == null then {} else {p.store})
    {
      hide Rings.Segment;
      assert Ring()[0].prev == Rings.PrevOf(Ring(), 0);
      Rings.SpliceBefore(sentinel, e, e, Ring(), 0, [e]);
      list, parts := list + [e], parts + [p];
      repr := repr + {e};
      stores := stores + if p.store == null then {} else {p.store};
      assert Ring() == Rings.Insert(old(Ring()), |old(Ring())|, [e]);
    }

    /** APR_BUCKET_REMOVE of the first bucket. */
    method RemoveFirst() returns (e: Bucket)
      requires Valid() && list != []
      modifies this, repr`next, repr`prev
      ensures Valid() && stores == old(stores) && e == old(list[0]) && list == old(list[1..])
      ensures parts == old(parts[1..])
      ensures Holds(e, old(parts[0])) && repr == old(repr) - {e}
    {
      assert Ring()[0].next == Rings.NextOf(Ring(), 0);
      e := sentinel.next;
      Rings.Unsplice(e, e, Ring(), 1, 2);
      list, parts := list[1..], parts[1..];
      assert Ring() == Rings.Delete(old(Ring()), 1, 2);
      assert old(Ring())[1] == e && old(Ring())[0] == sentinel;
      repr := repr - {e};
    }

    /** APR_BUCKET_INSERT_AFTER a bucket of this brigade. */
    method InsertAfter(e: Bucket, nb: Bucket, ghost i: nat, ghost p: Part)
      requires Valid() && i < |list| && e == list[i]
      requires nb !in repr && nb.next == nb == nb.prev && Holds(nb, p) && (p.store == null || p.store in stores)
      modifies this`list, this`parts, this`repr, repr`next, repr`prev, nb`next, nb`prev
      ensures Valid() && repr == old(repr) + {nb}
      ensures list == old(list[..i + 1] + [nb] + list[i + 1..])
      ensures parts == old(parts[..i + 1] + [p] + parts[i + 1..])
    {
      hide Holds, Loaded, Rings.Segment, Rings.Insert;
      NextAt(i);
      LoadedInsert(list, parts, stores, i + 1, nb, p);
      RingInsert(list, i, nb);
      assert e == Ring()[i + 1];
      Rings.SpliceAfter(e, nb, nb, Ring(), i + 1, [nb]);
      list, parts := list[..i + 1] + [nb] + list[i + 1..], parts[..i + 1] + [p] + parts[i + 1..];
      repr := repr + {nb};
    }

    lemma RingInsert(l: seq<Bucket>, i: nat, nb: Bucket)
      requires i < |l|
      ensures Rings.Insert([sentinel] + l, i + 2, [nb]) == [sentinel] + (l[..i + 1] + [nb] + l[i + 1..])
      ensures Rings.Segment([nb])
    {
    }

    lemma Others(i: nat)
      requires Rings.Cyclic(Ring()) && i < |list|
      ensures list[i] != sentinel && list[i] in Ring()
      ensures forall j :: 0 <= j < |list| && j != i ==> list[j] != list[i]
    {
      assert Ring()[i + 1] == list[i] && Ring()[0] == sentinel;
      forall j | 0 <= j < |list| && j != i ensures list[j] != list[i] {
        assert Ring()[j + 1] == list[j];
      }
    }

    lemma Reload(i: nat, p: Part)
      requires Rings.Cyclic(Ring()) && i < |list| == |parts| && sentinel in repr
      requires (forall j :: 0 <= j < |list| ==> list[j] in repr)
      requires forall j :: 0 <= j < |list| && j != i ==>
        (parts[j].store == null || parts[j].store in stores) && Holds(list[j], parts[j])
      requires parts[i] == p && Holds(list[i], p) && (p.store == null || p.store in stores)
      ensures Valid()
    {
    }

    /** All that Valid says, but for the contents of memory. */
    ghost predicate Linked()
      reads this, repr
    {
      && sentinel in repr && (forall i :: 0 <= i < |list| ==> list[i] in repr)
      && Rings.Cyclic(Ring()) && Laid(list, parts, stores)
    }

    lemma ValidLinked()
      requires Valid()
      ensures Linked() && |parts| == |list| && forall i :: 0 <= i < |parts| ==> Stored(parts[i])
      ensures forall i :: 0 <= i < |parts| && parts[i].store != null ==> parts[i].store in stores
    {
      forall i | 0 <= i < |list| ensures Shape(list[i], parts[i]) && Stored(parts[i]) {
        assert Holds(list[i], parts[i]);
      }
    }

    lemma LinkedValid()
      requires Linked() && forall i :: 0 <= i < |parts| ==> Stored(parts[i])
      ensures Valid()
    {
      forall i | 0 <= i < |list| ensures Holds(list[i], parts[i]) {
        assert Shape(list[i], parts[i]) && Stored(parts[i]);
      }
    }

    /** What the brigade holds after its memory a was written to by someone else. */
    ghost method Refill(a: array<Byte>)
      requires Linked() && forall i :: 0 <= i < |parts| && parts[i].store != a ==> Stored(parts[i])
      modifies this`parts
      ensures Valid() && parts == Reread(old(parts), a, a[..])
    {
      hide Rings.Cyclic;
      parts := Reread(parts, a, a[..]);
      LinkedValid();
    }

    /** apr_bucket_split: in memory and in files the new bucket shares the data of the old one. */
    method SplitBucket(e: Bucket, point: nat, ghost i: nat) returns (rv: Status, ghost nb: Bucket)
      requires Valid() && i < |list| && e == list[i]
      modifies this`list, this`parts, this`repr, repr`next, repr`prev, e`length
      ensures Valid() && rv in {SUCCESS, EINVAL, ENOTIMPL} && i < |old(parts)|
      ensures rv == ENOTIMPL <==> old(e.body).Pipe? || old(e.body).Meta?
      ensures rv == EINVAL <==> rv != ENOTIMPL && point > old(|parts[i].text|)
      ensures fresh(repr - old(repr))
      ensures rv != SUCCESS ==> list == old(list) && parts == old(parts) && e.length == old(e.length)
      ensures rv == SUCCESS ==>
        && fresh(nb) && list == old(list[..i + 1]) + [nb] + old(list[i + 1..])
        && parts == old(parts[..i]) + [Front(old(parts[i]), point), Back(old(parts[i]), point)] + old(parts[i + 1..])
    {
      hide Holds, Rings.Cyclic;
      Whole(e, i);
      nb := e;
      if e.body.Pipe? || e.body.Meta? {
        return ENOTIMPL, nb;
      }
      if point > e.length.n {
        return EINVAL, nb;
      }
      ghost var before, p := parts, parts[i];
      Others(i);
      var b := Cut(e, point, p);
      parts := parts[i := Front(p, point)];
      Reload(i, Front(p, point));
      InsertAfter(e, b, i, Back(p, point));
      SplicePair(before, i, Front(p, point), Back(p, point));
      return SUCCESS, b;
    }

    lemma Whole(e: Bucket, i: nat)
      requires Valid() && i < |list| && e == list[i]
      ensures |parts| == |list| && !e.body.Head? && (e.length.Unknown? <==> e.body.Pipe?)
      ensures e.length.Known? ==> e.length.n == |parts[i].text| && parts[i].fault == NoFault
      ensures (parts[i].own <==> e.body.Heap?) && (parts[i].work > 0 <==> e.body.Pipe? || e.body.File?)
      ensures e.body.Meta? ==> parts[i].text == []
      ensures Holds(e, parts[i]) && (parts[i].store != null ==> parts[i].store in stores)
      ensures parts[i].store != null <==> e.body.Heap? || e.body.Transient?
    {
      assert Holds(list[i], parts[i]);
      Measured(e, parts[i]);
    }

    /** The read function of a bucket's type, on a bucket of this brigade; extra is what is left over. */
    method Refresh(e: Bucket, ghost i: nat) returns (rv: Status, str: seq<Byte>, extra: Bucket?, ghost now: seq<Part>)
      requires Valid() && i < |list| && e == list[i]
      modifies this`parts, this`stores, e`body, e`length, e`start
      ensures Valid() && |parts| == |list| && i < |old(parts)|
      ensures ReadAs(old(parts[i]), now, rv, str) && parts == old(parts)[i := now[0]]
      ensures stores == old(stores) + if now[0].store == null then {} else {now[0].store}
      ensures now[0] != old(parts[i]) && now[0].store != null ==> fresh(now[0].store)
      ensures fresh(stores - old(stores))
      ensures rv == SUCCESS ==> e.length == Known(|str|)
      ensures extra == null <==> |now| == 1
      ensures extra != null ==>
        && fresh(extra) && extra.next == extra == extra.prev && Holds(extra, now[1]) && now[1].store == null
    {
      hide Holds, Rings.Cyclic, PartsBytes, RopeFault;
      Others(i);
      Whole(e, i);
      rv, str, extra, now := Fetch(e, parts[i]);
      ReadLength(e, now[0]);
      parts := parts[i := now[0]];
      stores := stores + if now[0].store == null then {} else {now[0].store};
      Reload(i, now[0]);
    }

    lemma ReadLength(e: Bucket, p: Part)
      requires Holds(e, p)
      ensures p.work == 0 ==> e.length == Known(|p.text|)
    {
    }

    /** apr_bucket_read: pipes and files turn into heap buckets as they are read. */
    method Read(e: Bucket, ghost i: nat) returns (rv: Status, str: seq<Byte>, ghost nb: Bucket?, ghost now: seq<Part>)
      requires Valid() && i < |list| && e == list[i]
      modifies this, repr`next, repr`prev, e
      ensures Valid() && fresh(stores - old(stores)) && i < |old(parts)|
      ensures ReadAs(old(parts[i]), now, rv, str) && parts == old(parts[..i]) + now + old(parts[i + 1..])
      ensures rv == SUCCESS ==> e.length == Known(|str|)
      ensures now[0] != old(parts[i]) && now[0].store != null ==> fresh(now[0].store)
      ensures fresh(repr - old(repr))
      ensures nb == null ==> |now| == 1 && list == old(list)
      ensures nb != null ==> |now| == 2 && fresh(nb) && list == old(list[..i + 1]) + [nb] + old(list[i + 1..])
    {
      hide Holds, Loaded, Rings.Cyclic, PartsBytes, RopeFault, Ring;
      ghost var before := parts;
      var extra;
      rv, str, extra, now := Refresh(e, i);
      nb := extra;
      if extra != null {
        InsertAfter(e, extra, i, now[1]);
        SplicePair(before, i, now[0], now[1]);
        assert now == [now[0], now[1]];
      } else {
        assert now == [now[0]];
      }
    }

    /** The bucket at position i, the sentinel past the end. */
    ghost function BucketAt(i: nat): Bucket
      reads this
    {
      if i < |list| then list[i] else sentinel
    }

    lemma NextAt(i: nat)
      requires Valid() && i <= |list|
      ensures |list| == |parts| && sentinel.next in repr && sentinel.prev in repr && BucketAt(i) in repr
      ensures i < |list| ==> list[i].next == BucketAt(i + 1)
      ensures BucketAt(i).prev == if i > 0 then list[i - 1] else sentinel
      ensures sentinel.next == BucketAt(0) && sentinel.prev == if list == [] then sentinel else list[|list| - 1]
    {
      hide Holds, Rings.Cyclic;
      LinkAt(0);
      LinkAt(if i < |list| then i + 1 else 0);
    }

    /** The links of the sentinel and of the buckets, which are the elements of the ring behind it. */
    lemma LinkAt(k: nat)
      requires Rings.Cyclic(Ring()) && k <= |list|
      ensures Ring()[k] == (if k == 0 then sentinel else list[k - 1])
      ensures Ring()[k].next == BucketAt(k)
      ensures Ring()[k].prev == if k == 0 then (if list == [] then sentinel else list[|list| - 1])
        else if k == 1 then sentinel else list[k - 2]
    {
      assert Ring()[k].next == Rings.NextOf(Ring(), k) && Ring()[k].prev == Rings.PrevOf(Ring(), k);
    }

    /** Split at a point inside a bucket that can be split. */
    method SplitAt(e: Bucket, point: nat, ghost k: nat) returns (rv: Status, after: Bucket)
      requires Valid() && k < |list| && e == list[k]
      requires e.length.Known? ==> 0 < point <= |parts[k].text|
      modifies this`list, this`parts, this`repr, repr`next, repr`prev, e`length
      ensures Valid() && Bytes() == old(Bytes()) && RopeFault(parts) == old(RopeFault(parts))
      ensures rv == if old(e.length).Known? then SUCCESS else ENOTIMPL
      ensures k < |list| && list[k] == e && parts[..k] == old(parts[..k])
      ensures fresh(repr - old(repr))
      ensures rv == SUCCESS ==>
        k + 1 < |list| && after == list[k + 1] && |parts[k].text| == point && parts[k].fault == NoFault
      ensures rv == ENOTIMPL ==> list == old(list) && parts == old(parts) && e.length == old(e.length)
    {
      hide Holds, Rings.Cyclic, PartsBytes, RopeFault, Todo;
      Whole(e, k);
      ghost var before := parts;
      ghost var nb;
      rv, nb := SplitBucket(e, point, k);
      if rv == SUCCESS {
        SplitSame(before, k, point);
      }
      NextAt(k);
      after := e.next;
    }

    /** Cutting a part in two changes neither the bytes nor the first error. */
    lemma SplitSame(ps: seq<Part>, k: nat, point: nat)
      requires k < |ps| && point <= |ps[k].text| && ps[k].fault == NoFault
      ensures var now := ps[..k] + [Front(ps[k], point), Back(ps[k], point)] + ps[k + 1..];
        PartsBytes(now) == PartsBytes(ps) && RopeFault(now) == RopeFault(ps)
    {
      hide PartsBytes;
      var p0, p1 := Front(ps[k], point), Back(ps[k], point);
      PartsBytesTwo(p0, p1);
      assert p0.text + p1.text == ps[k].text && [p0, p1][1..] == [p1];
      RopeFaultOne(p1);
      PartsBytesSwap(ps, k, [p0, p1]);
    }

    /** One bucket of the loop of apr_brigade_partition. */
    method PartitionAt(e: Bucket, point64: nat, sizeMax: nat, ghost k: nat)
      returns (done: bool, rv: Status, after: Bucket)
      requires Valid() && k < |list| && e == list[k] && point64 > 0 && sizeMax >= BUFF_SIZE
      modifies this, repr`next, repr`prev, e
      ensures Valid() && Bytes() == old(Bytes()) && k < |list| && list[k] == e && parts[..k] == old(parts[..k])
      ensures fresh(repr - old(repr))
      ensures rv == ReadStatus(old(parts[k].fault))
      ensures rv == SUCCESS ==> RopeFault(parts) == old(RopeFault(parts)) && parts[k].fault == NoFault
      ensures done && rv == SUCCESS ==> after == BucketAt(k + 1) && |parts[k].text| == point64
      ensures rv.ReadError? ==> done && after == e
      ensures !done ==> e.length == Known(|parts[k].text|) && |parts[k].text| < point64
      ensures !done ==> Todo(parts[k + 1..]) < old(Todo(parts[k..]))
    {
      hide Holds, Rings.Cyclic, PartsBytes, RopeFault, Todo;
      Whole(e, k);
      PartsBytesAt(parts, k);
      NextAt(k);
      var str;
      if e.length.Unknown? && point64 > sizeMax {
        rv, str := ReadAt(e, k);
        if rv != SUCCESS {
          return true, rv, e;
        }
      } else if e.length.Unknown? || point64 < e.length.n {
        rv, after := SplitAt(e, point64, k);
        if rv != ENOTIMPL {
          NextAt(k);
          return true, rv, after;
        }
        rv, str := ReadAt(e, k);
        if rv != SUCCESS {
          return true, rv, e;
        }
        if point64 < e.length.n {
          rv, after := SplitAt(e, point64, k);
          NextAt(k);
          return true, rv, after;
        }
      }
      NextAt(k);
      return point64 == e.length.n, SUCCESS, e.next;
    }

    /** A read of the bucket at position k; the rope stays the same. */
    method ReadAt(e: Bucket, ghost k: nat) returns (rv: Status, str: seq<Byte>)
      requires Valid() && k < |list| && e == list[k]
      modifies this, repr`next, repr`prev, e
      ensures Valid() && Bytes() == old(Bytes()) && k < |list| && list[k] == e && parts[..k] == old(parts[..k])
      ensures fresh(repr - old(repr))
      ensures rv == ReadStatus(old(parts[k].fault))
      ensures rv == SUCCESS ==> RopeFault(parts) == old(RopeFault(parts)) && parts[k].fault == NoFault
      ensures rv == SUCCESS && old(parts[k].work) > 0 ==> |parts[k].text| <= BUFF_SIZE
      ensures rv == SUCCESS ==> parts[k].text == str
      ensures rv == SUCCESS ==> e.length == Known(|parts[k].text|) && Todo(parts[k + 1..]) < old(Todo(parts[k..]))
      ensures fresh(stores - old(stores))
    {
      hide Holds, Rings.Cyclic, PartsBytes, RopeFault, Todo;
      ghost var before := parts;
      ghost var nb, now;
      rv, str, nb, now := Read(e, k);
      PartsBytesSwap(before, k, now);
      ReadTodo(before, k, now, rv, str);
    }

    /** What apr_brigade_partition answers: an error exactly if one comes before the point is reached. */
    static ghost function PartitionStatus(parts: seq<Part>, point: int): Status {
      var f := RopeFault(parts);
      if point < 0 then EINVAL
      else if f.FaultAt? && f.offset < point then ReadError(f.code)
      else if |PartsBytes(parts)| < point then INCOMPLETE else SUCCESS
    }

    /** apr_brigade_partition. sizeMax is APR_SIZE_MAX; k is the position of after. */
    method Partition(point: int, sizeMax: nat) returns (rv: Status, after: Bucket?, ghost k: nat)
      requires Valid() && sizeMax >= BUFF_SIZE
      modifies this, repr
      ensures Valid() && Bytes() == old(Bytes())
      ensures rv == PartitionStatus(old(parts), point)
      ensures rv == SUCCESS ==> k <= |list| && after == BucketAt(k) && |PartsBytes(parts[..k])| == point
      ensures rv == SUCCESS ==> RopeFault(parts) == old(RopeFault(parts))
      ensures rv == INCOMPLETE ==> after == sentinel
      ensures rv.ReadError? ==>
        k < |list| && after == list[k] && |PartsBytes(parts[..k])| == old(RopeFault(parts)).offset
    {
      hide Holds, Rings.Cyclic, PartsBytes, RopeFault, Todo;
      k := 0;
      if point < 0 {
        return EINVAL, null, 0;
      }
      assert parts[..0] == [] && PartsBytes([]) == [] && RopeFault([]) == NoFault by { PartsBytesNone(); }
      NextAt(0);
      var e := sentinel.next;
      if point == 0 {
        PointInside(parts, parts, 0, point);
        return SUCCESS, e, 0;
      }
      var point64: nat := point;
      while e != sentinel
        invariant Valid() && Bytes() == old(Bytes()) && k <= |list| && |list| == |parts| && e == BucketAt(k)
        invariant fresh(repr - old(repr))
        invariant RopeFault(parts) == old(RopeFault(parts)) && RopeFault(parts[..k]) == NoFault
        invariant point64 > 0 && |PartsBytes(parts[..k])| + point64 == point
        decreases Todo(parts[k..])
      {
        AtEnd(k);
        RopeFaultAt(parts, k);
        ghost var was := parts;
        var done;
        done, rv, after := PartitionAt(e, point64, sizeMax, k);
        assert was[..k] == parts[..k];
        NextAt(k);
        if rv != SUCCESS {
          return;
        }
        RopeFaultAt(parts, k);
        PartsBytesAt(parts, k);
        if done {
          PointInside(was, parts, k + 1, point);
          k := k + 1;
          return;
        }
        point64 := point64 - e.length.n;
        e := e.next;
        k := k + 1;
      }
      AtEnd(k);
      assert parts[..k] == parts;
      return INCOMPLETE, sentinel, k;
    }

    /** Behind a front without error that is long enough, the point is reached. */
    lemma PointInside(was: seq<Part>, ps: seq<Part>, k: nat, point: int)
      requires k <= |ps| && PartsBytes(was) == PartsBytes(ps) && RopeFault(was) == RopeFault(ps)
      requires RopeFault(ps[..k]) == NoFault && |PartsBytes(ps[..k])| == point
      ensures PartitionStatus(was, point) == SUCCESS
    {
      hide PartsBytes, RopeFault;
      assert ps == ps[..k] + ps[k..];
      RopeFaultConcat(ps[..k], ps[k..]);
      PartsBytesConcat(ps[..k], ps[k..]);
    }

    /** APR_BRIGADE_EMPTY. */
    method IsEmpty() returns (empty: bool)
      requires Valid()
      ensures empty <==> list == []
    {
      empty := Rings.Empty(sentinel, Ring());
    }

    /** How many buckets there are. */
    method Size() returns (n: nat)
      requires Valid()
      ensures n == |list|
    {
      hide Holds, Rings.Cyclic;
      n := 0;
      NextAt(0);
      AtEnd(0);
      var e := sentinel.next;
      while e != sentinel
        invariant n <= |list| && e == BucketAt(n)
        decreases |list| - n
      {
        AtEnd(n);
        NextAt(n);
        e := e.next;
        n := n + 1;
      }
      AtEnd(n);
    }

    /** apr_bucket_setaside of one bucket: memory lent by a caller is copied to the heap. */
    method SetAsideAt(e: Bucket, ghost k: nat)
      requires Valid() && k < |list| && e == list[k]
      modifies this`parts, this`stores, e`body, e`start
      ensures Valid() && k < |parts| && |parts| == |old(parts)| && parts == old(parts)[k := parts[k]]
      ensures fresh(stores - old(stores)) && old(stores) <= stores
      ensures SetAside(old(parts[k]), parts[k], old(stores)) && (parts[k].store == null || parts[k].store in stores)
    {
      hide Holds, Rings.Cyclic;
      Whole(e, k);
      Others(k);
      ghost var p := parts[k];
      if e.body.Transient? {
        ghost var now;
        now := MakeHeap(e, p);
        parts := parts[k := now];
        stores := stores + {now.store};
        Reload(k, now);
      }
    }

    /** apr_bucket_heap_make with a copy of the data. */
    static method MakeHeap(e: Bucket, ghost p: Part) returns (ghost now: Part)
      requires Holds(e, p) && e.body.Transient?
      modifies e`body, e`start
      ensures Holds(e, now) && now.store != null && fresh(now.store) && now == Own(p.text, now.store, 0)
      ensures now.store.Length == |p.text|
    {
      var buf := NewHeap(e.body.base[e.start..e.start + e.length.n], e.length.n);
      now := Own(p.text, buf, 0);
      e.body, e.start := Heap(buf), 0;
    }

    /** Set all buckets aside. */
    method SetAsideAll()
      requires Valid()
      modifies this`parts, this`stores, repr`body, repr`start
      ensures Valid() && Aside(old(parts), parts, old(stores)) && fresh(stores - old(stores)) && old(stores) <= stores
    {
      hide Valid, SetAside, Aside, AsideUpTo;
      ghost var before, known, k := parts, stores, 0;
      NextAt(0);
      AtEnd(0);
      ValidLinked();
      AsideNone(before, known);
      var e := sentinel.next;
      while e != sentinel
        invariant Valid() && k <= |list| == |parts| && e == BucketAt(k)
        invariant fresh(stores - known) && known <= stores && AsideUpTo(before, parts, k, known)
        decreases |list| - k
      {
        AtEnd(k);
        NextAt(k);
        ValidLinked();
        ghost var was, used := parts, stores;
        SetAsideAt(e, k);
        AsideNext(before, was, parts, k, known, used);
        NextAt(k);
        e := e.next;
        k := k + 1;
      }
      AtEnd(k);
      AsideEnd(before, parts, known);
    }

    lemma AsideNone(before: seq<Part>, known: set<array<Byte>>)
      ensures AsideUpTo(before, before, 0, known)
    {
    }

    lemma AsideEnd(before: seq<Part>, now: seq<Part>, known: set<array<Byte>>)
      requires AsideUpTo(before, now, |now|, known)
      ensures Aside(before, now, known)
    {
    }

    /** apr_brigade_cleanup: delete the first bucket until there is none. */
    method Cleanup()
      requires Valid()
      modifies this, repr`next, repr`prev
      ensures Valid() && list == [] && parts == [] && stores == {} && repr <= old(repr)
    {
      hide Holds, Rings.Cyclic;
      var empty := IsEmpty();
      while !empty
        invariant Valid() && repr <= old(repr) && (empty <==> list == [])
        decreases |list|
      {
        var e := RemoveFirst();
        empty := IsEmpty();
      }
      stores := {};
    }

    /** APR_BRIGADE_CONCAT: all buckets of b go behind those of this brigade. */
    method Concat(b: Brigade)
      requires Valid() && b != this && b.Valid() && repr !! b.repr
      modifies this, b, repr`next, repr`prev, b.repr`next, b.repr`prev
      ensures Valid() && b.Valid() && repr !! b.repr && repr + b.repr == old(repr + b.repr)
      ensures list == old(list + b.list) && parts == old(parts + b.parts) && b.list == []
      ensures Bytes() == old(Bytes() + b.Bytes())
    {
      hide Holds, Loaded, Rings.Cyclic, PartsBytes;
      RingsApart(b);
      LoadedConcat(list, parts, b.list, b.parts, stores, b.stores);
      PartsBytesConcat(parts, b.parts);
      Rings.Concat(sentinel, b.sentinel, Ring(), b.Ring());
      assert old(Ring()) + old(b.Ring())[1..] == [sentinel] + (list + b.list);
      Adopt(b, list + b.list, parts + b.parts);
    }

    /** APR_BRIGADE_PREPEND: all buckets of b go in front of those of this brigade. */
    method Prepend(b: Brigade)
      requires Valid() && b != this && b.Valid() && repr !! b.repr
      modifies this, b, repr`next, repr`prev, b.repr`next, b.repr`prev
      ensures Valid() && b.Valid() && repr !! b.repr && repr + b.repr == old(repr + b.repr)
      ensures list == old(b.list + list) && parts == old(b.parts + parts) && b.list == []
      ensures Bytes() == old(b.Bytes() + Bytes())
    {
      hide Holds, Loaded, Rings.Cyclic, PartsBytes;
      RingsApart(b);
      LoadedConcat(b.list, b.parts, list, parts, b.stores, stores);
      PartsBytesConcat(b.parts, parts);
      Rings.Prepend(sentinel, b.sentinel, Ring(), b.Ring());
      assert [sentinel] + old(b.Ring())[1..] + old(Ring())[1..] == [sentinel] + (b.list + list);
      Adopt(b, b.list + list, b.parts + parts);
    }

    lemma RingsApart(b: Brigade)
      requires Valid() && b.Valid() && repr !! b.repr
      ensures Rings.Disjoint(Ring(), b.Ring()) && b.stores + stores == stores + b.stores
      ensures forall i :: 0 <= i < |Ring()| ==> Ring()[i] in repr
      ensures forall i :: 0 <= i < |b.Ring()| ==> b.Ring()[i] in b.repr
      ensures b.sentinel !in list + b.list
    {
      hide Holds, Loaded;
      forall i | 0 <= i < |b.list| ensures b.list[i] != b.sentinel {
        b.Others(i);
      }
    }

    /** This brigade takes over the buckets of b, which becomes empty. */
    ghost method Adopt(b: Brigade, all: seq<Bucket>, ps: seq<Part>)
      requires b != this && sentinel in repr && b.sentinel in b.repr && repr !! b.repr
      requires forall i :: 0 <= i < |all| ==> all[i] in repr || all[i] in b.repr
      requires b.sentinel !in all
      requires Rings.Cyclic([sentinel] + all) && Rings.Cyclic([b.sentinel]) && Loaded(all, ps, b.stores + stores)
      modifies this, b
      ensures Valid() && b.Valid() && repr !! b.repr && repr + b.repr == old(repr + b.repr)
      ensures list == all && parts == ps && b.list == [] && b.parts == []
    {
      hide Holds, Rings.Cyclic;
      list, parts, stores, repr := all, ps, b.stores + stores, repr + b.repr - {b.sentinel};
      b.list, b.parts, b.stores, b.repr := [], [], {}, {b.sentinel};
      assert b.Ring() == [b.sentinel];
    }

    /** The brigade to split into: a new one or the given one, emptied. */
    static method Emptied(into: Brigade?) returns (a: Brigade)
      requires into != null ==> into.Valid()
      modifies into, if into == null then {} else into.repr
      ensures a.Valid() && a.list == [] && a.parts == [] && a == (if into == null then a else into)
      ensures if into == null then fresh(a) && fresh(a.repr) else a.repr <= old(into.repr)
    {
      hide Holds, Rings.Cyclic, Loaded;
      if into == null {
        a := new Brigade();
      } else {
        a := into;
        a.NextAt(0);
        var empty := a.IsEmpty();
        if !empty {
          a.Cleanup();
        }
      }
    }

    /** apr_brigade_split_ex: everything from e on, at position k, moves to a. */
    method SplitEx(e: Bucket, into: Brigade?, ghost k: nat) returns (a: Brigade)
      requires Valid() && k <= |list| && e == BucketAt(k)
      requires into != null ==> into.Valid() && into != this && into.repr !! repr
      modifies this, repr, into, if into == null then {} else into.repr
      ensures Valid() && a.Valid() && a != this && a.repr !! repr && a == (if into == null then a else into)
      ensures (into == null ==> fresh(a)) && repr <= old(repr) && stores == old(stores)
      ensures fresh(a.repr - old(repr) - if into == null then {} else old(into.repr))
      ensures list == old(list[..k]) && parts == old(parts[..k])
      ensures a.list == old(list[k..]) && a.parts == old(parts[k..])
      ensures Bytes() + a.Bytes() == old(Bytes())
    {
      hide Valid, BucketAt, PartsBytes, Loaded, Rings.Segment;
      NextAt(k);
      AtEnd(k);
      PartsBytesConcat(parts[..k], parts[k..]);
      assert parts == parts[..k] + parts[k..];
      a := Emptied(into);
      if e != sentinel {
        ghost var seg, ps;
        var f := sentinel.prev;
        seg, ps := TakeTail(e, f, k);
        a.PutHead(e, f, seg, ps, stores);
        assert a.list == seg && a.parts == ps;
      }
    }

    lemma AtEnd(k: nat)
      requires Valid() && k <= |list|
      ensures k == |list| <==> BucketAt(k) == sentinel
      ensures |list| == |parts| && (k < |list| ==> BucketAt(k) == list[k])
    {
      hide Holds;
      if k < |list| {
        Others(k);
      }
    }

    /** Unsplice the buckets from e to the last one, f. */
    method TakeTail(e: Bucket, f: Bucket, ghost k: nat) returns (ghost seg: seq<Bucket>, ghost ps: seq<Part>)
      requires Valid() && k < |list| && e == list[k] && f == sentinel.prev
      modifies this`list, this`parts, this`repr, repr`next, repr`prev
      ensures Valid() && seg == old(list[k..]) && ps == old(parts[k..]) && stores == old(stores)
      ensures list == old(list[..k]) && parts == old(parts[..k])
      ensures repr <= old(repr) && forall i :: 0 <= i < |seg| ==> seg[i] in old(repr) && seg[i] !in repr
      ensures seg != [] && e == seg[0] && f == seg[|seg| - 1] && Rings.Segment(seg) && Loaded(seg, ps, stores)
    {
      hide Holds, Loaded, Rings.Cyclic, Rings.Segment, Rings.Disjoint, Rings.Delete, PartsBytes;
      ghost var r, n, moved := Ring(), |list|, set i | k <= i < |list| :: list[i];
      NextAt(k);
      NextAt(n);
      NextAt(n - 1);
      TailApart(k, moved);
      Rings.Unsplice(e, f, r, k + 1, n + 1);
      seg, ps := list[k..], parts[k..];
      LoadedCut(list, parts, stores, k);
      list, parts, repr := list[..k], parts[..k], repr - moved;
    }

    /** APR_RING_SPLICE_HEAD of a run of buckets from e to f. */
    method PutHead(e: Bucket, f: Bucket, ghost seg: seq<Bucket>, ghost ps: seq<Part>, ghost sts: set<array<Byte>>)
      requires Valid() && seg != [] && e == seg[0] && f == seg[|seg| - 1] && Rings.Segment(seg) && Loaded(seg, ps, sts)
      requires forall i :: 0 <= i < |seg| ==> seg[i] !in repr
      modifies this, repr`next, repr`prev, e`prev, f`next
      ensures Valid() && list == seg + old(list) && parts == ps + old(parts)
      ensures repr == old(repr) + set b | b in seg
    {
      hide Holds, Loaded;
      ghost var r := Ring();
      NextAt(0);
      LoadedConcat(seg, ps, list, parts, sts, stores);
      Rings.SpliceAfter(sentinel, e, f, r, 0, seg);
      list, parts, stores, repr := seg + list, ps + parts, sts + stores, repr + set b | b in seg;
      assert Ring() == Rings.Insert(r, 1, seg);
    }

    lemma TailApart(k: nat, moved: set<Bucket>)
      requires Valid() && k < |list| && moved == set i | k <= i < |list| :: list[i]
      ensures sentinel !in moved && forall j :: 0 <= j < k ==> list[j] !in moved
      ensures Ring()[k + 1..|list| + 1] == list[k..]
      ensures Rings.Delete(Ring(), k + 1, |list| + 1) == [sentinel] + list[..k]
      ensures forall i :: 0 <= i < |list| - k ==> list[k..][i] in moved
    {
      forall i | k <= i < |list| ensures list[i] != sentinel && forall j :: 0 <= j < k ==> list[j] != list[i] {
        Others(i);
      }
    }
  }
}
