// Buckets that share memory: the order of their data that keeps a copy behind one from running into another.
module BrigadeOrder {
  import opened Text
  import opened Buckets
  import opened Overlaps
  import opened Brigades
  import opened Flushes
  import opened BrigadeWrites

  /** Memory a is used by none of the parts. */
  ghost predicate Absent(a: array?<Byte>, parts: seq<Part>) {
    forall i :: 0 <= i < |parts| ==> parts[i].store != a
  }

  /** The parts with data in memory a come first, in the order of their data, and behind end. */
  ghost predicate InOrder(a: array?<Byte>, end: nat, parts: seq<Part>)
    decreases |parts|
  {
    parts == [] ||
    var p := parts[0];
    if p.store == a then end <= p.at && InOrder(a, p.at + |p.text|, parts[1..])
    else if p.text == [] then InOrder(a, end, parts[1..])
    else Absent(a, parts[1..])
  }

  /** The heap buckets among the parts that are in the same memory as p are behind it there. */
  ghost predicate Early(p: Part, parts: seq<Part>) {
    forall i :: 0 <= i < |parts| && parts[i].own && parts[i].store == p.store ==>
      p.at + |p.text| <= parts[i].at
  }

  /** Each heap bucket is followed by those that share its memory. */
  ghost predicate Chained(parts: seq<Part>) {
    parts == [] ||
    ((parts[0].own ==> InOrder(parts[0].store, parts[0].at + |parts[0].text|, parts[1..]))
     && Early(parts[0], parts[1..]) && Chained(parts[1..]))
  }

  /**
   * What a run of apr_brigade_split_line keeps: what is copied behind the last bucket of out cannot
   * run into data that is still needed. So it is for a brigade that was written, read and split.
   */
  ghost predicate Sorted(out: seq<Part>, inp: seq<Part>) {
    var m := |out| - 1;
    && TailClear(out) && Chained(inp) && (forall i :: 0 <= i < |out| ==> Early(out[i], inp))
    && (out != [] && out[m].own ==> InOrder(out[m].store, out[m].at + |out[m].text|, inp))
  }

  /** A heap bucket has memory. */
  ghost predicate Housed(parts: seq<Part>) {
    forall i :: 0 <= i < |parts| && parts[i].own ==> parts[i].store != null
  }

  lemma {:induction false} AbsentInOrder(a: array?<Byte>, end: nat, parts: seq<Part>)
    requires Absent(a, parts)
    ensures InOrder(a, end, parts)
  {
    if parts != [] {
      AbsentInOrder(a, end, parts[1..]);
    }
  }

  lemma {:induction false} InOrderLower(a: array?<Byte>, end: nat, less: nat, parts: seq<Part>)
    requires InOrder(a, end, parts) && less <= end
    ensures InOrder(a, less, parts)
  {
    if parts != [] && parts[0].store != a && parts[0].text == [] {
      InOrderLower(a, end, less, parts[1..]);
    }
  }

  lemma {:induction false} InOrderBeyond(a: array?<Byte>, end: nat, parts: seq<Part>, i: nat)
    requires InOrder(a, end, parts) && i < |parts| && parts[i].store == a
    ensures end <= parts[i].at
    decreases i
  {
    if i > 0 {
      if parts[0].store == a {
        InOrderBeyond(a, parts[0].at + |parts[0].text|, parts[1..], i - 1);
      } else {
        assert parts[1..][i - 1] == parts[i];
        InOrderBeyond(a, end, parts[1..], i - 1);
      }
    }
  }

  lemma ChainedTail(parts: seq<Part>)
    requires Chained(parts) && parts != []
    ensures Chained(parts[1..])
  {
  }

  lemma ChainedCons(parts: seq<Part>)
    requires parts != [] && Chained(parts[1..]) && Early(parts[0], parts[1..])
    requires parts[0].own ==> InOrder(parts[0].store, parts[0].at + |parts[0].text|, parts[1..])
    ensures Chained(parts)
  {
  }

  lemma EarlyTail(p: Part, inp: seq<Part>)
    requires Early(p, inp) && inp != []
    ensures Early(p, inp[1..])
  {
    forall i | 0 <= i < |inp[1..]| && inp[1..][i].own && inp[1..][i].store == p.store
      ensures p.at + |p.text| <= inp[1..][i].at
    {
      assert inp[i + 1] == inp[1..][i];
    }
  }

  /** Reading the first bucket of the input. */
  lemma SortedRead(out: seq<Part>, inp: seq<Part>, now: seq<Part>, rv: Status, str: seq<Byte>)
    requires Sorted(out, inp) && inp != [] && ReadAs(inp[0], now, rv, str)
    requires now[0] != inp[0] && now[0].store != null ==> Absent(now[0].store, out) && Absent(now[0].store, inp)
    requires inp[0].work > 0 ==> inp[0].store == null
    requires Housed(out) && Housed(inp) && Housed(now)
    ensures Sorted(out, now + inp[1..])
  {
    hide PartsBytes, Chained, InOrder, Early;
    var rest, m := inp[1..], |out| - 1;
    if inp[0].work == 0 {
      assert now + rest == inp;
    } else {
      NoBytes(now);
      if out != [] && out[m].own {
        InOrderRead(out[m].store, out[m].at + |out[m].text|, inp, now);
      }
      ChainedRead(inp, now);
      forall i | 0 <= i < |out| ensures Early(out[i], now + rest) {
        EarlyRead(out[i], inp, now);
      }
    }
  }

  lemma EarlyRead(p: Part, inp: seq<Part>, now: seq<Part>)
    requires inp != [] && Early(p, inp) && forall i :: 0 <= i < |now| && now[i].own ==> now[i].store != p.store
    ensures Early(p, now + inp[1..])
  {
    var all := now + inp[1..];
    forall i | 0 <= i < |all| && all[i].own && all[i].store == p.store ensures p.at + |p.text| <= all[i].at {
      assert all[i] == inp[i - |now| + 1];
    }
  }

  lemma InOrderRead(a: array?<Byte>, end: nat, inp: seq<Part>, now: seq<Part>)
    requires inp != [] && InOrder(a, end, inp) && 1 <= |now| <= 2 && inp[0].store != a
    requires forall i :: 0 <= i < |now| ==> now[i].store != a && (inp[0].text == [] ==> now[i].text == [])
    ensures InOrder(a, end, now + inp[1..])
  {
    var rest := inp[1..];
    assert (now + rest)[1..] == now[1..] + rest;
    assert |now| == 2 ==> now[1..] == [now[1]] && ([now[1]] + rest)[1..] == rest;
    assert |now| == 1 ==> now[1..] + rest == rest;
    if inp[0].text != [] {
      AbsentInOrder(a, end, now + rest);
    }
  }

  lemma ChainedRead(inp: seq<Part>, now: seq<Part>)
    requires inp != [] && Chained(inp) && 1 <= |now| <= 2 && (|now| == 2 ==> now[1].store == null && !now[1].own)
    requires now[0].own ==> now[0].store != null && Absent(now[0].store, inp)
    requires !now[0].own ==> now[0].store == null
    requires Housed(inp)
    ensures Chained(now + inp[1..])
  {
    hide Chained, InOrder, Early;
    var rest := inp[1..];
    var tail := now[1..] + rest;
    ChainedTail(inp);
    assert Housed(rest);
    if |now| == 2 {
      assert tail == [now[1]] + rest;
    } else {
      assert tail == rest;
    }
    ReadAlone(now[0], tail);
    assert (now + rest)[1..] == tail && (now + rest)[0] == now[0];
    ChainedCons(now + rest);
  }

  /** A part with memory of its own, or with none, in front of others. */
  lemma ReadAlone(p: Part, tail: seq<Part>)
    requires if p.own then Absent(p.store, tail) else p.store == null && Housed(tail)
    ensures Early(p, tail) && (p.own ==> InOrder(p.store, p.at + |p.text|, tail))
  {
    if p.own {
      AbsentInOrder(p.store, p.at + |p.text|, tail);
    }
  }

  lemma NoBytes(now: seq<Part>)
    requires 1 <= |now| <= 2
    ensures PartsBytes(now) == [] ==> forall i :: 0 <= i < |now| ==> now[i].text == []
  {
    if |now| == 2 {
      PartsBytesTwo(now[0], now[1]);
      assert now == [now[0], now[1]];
    } else {
      PartsBytesTwo(now[0], now[0]);
      assert now == [now[0]];
    }
  }

  lemma SortedCut(out: seq<Part>, inp: seq<Part>, point: nat)
    requires Sorted(out, inp) && inp != [] && point <= |inp[0].text| && Housed(inp) && Housed(out)
    ensures Sorted(out, [Front(inp[0], point), Back(inp[0], point)] + inp[1..])
  {
    hide Early, InOrder, Chained;
    var p0, p1, m := Front(inp[0], point), Back(inp[0], point), |out| - 1;
    ChainedCut(inp, point);
    if out != [] && out[m].own {
      InOrderCut(out[m].store, out[m].at + |out[m].text|, inp, point);
    }
    forall i | 0 <= i < |out| ensures Early(out[i], [p0, p1] + inp[1..]) {
      EarlyBoth(out[i], inp, p0, p1);
    }
  }

  lemma ChainedCut(parts: seq<Part>, point: nat)
    requires Chained(parts) && parts != [] && point <= |parts[0].text| && Housed(parts)
    ensures Chained([Front(parts[0], point), Back(parts[0], point)] + parts[1..])
  {
    hide Early, InOrder;
    var p, p0, p1, rest := parts[0], Front(parts[0], point), Back(parts[0], point), parts[1..];
    var now := [p0, p1] + rest;
    assert now[1..] == [p1] + rest && ([p1] + rest)[1..] == rest;
    EarlyCut(parts, p0, p1);
    if p.own {
      InOrderCons(p, p0, p1, rest);
    }
    ChainedCons([p1] + rest);
    ChainedCons(now);
  }

  lemma InOrderCons(p: Part, p0: Part, p1: Part, rest: seq<Part>)
    requires InOrder(p.store, p.at + |p.text|, rest) && p0.store == p1.store == p.store
    requires p0.at + |p0.text| <= p1.at && p1.at + |p1.text| == p.at + |p.text|
    ensures InOrder(p0.store, p0.at + |p0.text|, [p1] + rest)
  {
    assert ([p1] + rest)[1..] == rest;
  }

  lemma InOrderCut(a: array?<Byte>, end: nat, inp: seq<Part>, point: nat)
    requires InOrder(a, end, inp) && inp != [] && point <= |inp[0].text| && a != null
    ensures InOrder(a, end, [Front(inp[0], point), Back(inp[0], point)] + inp[1..])
  {
    var p0, p1, rest := Front(inp[0], point), Back(inp[0], point), inp[1..];
    var now := [p0, p1] + rest;
    assert now[1..] == [p1] + rest && ([p1] + rest)[1..] == rest;
    assert p0.store == p1.store == inp[0].store;
    assert InOrder(a, p0.at + |p0.text|, [p1] + rest) || inp[0].store != a;
  }

  lemma EarlyBoth(x: Part, inp: seq<Part>, p0: Part, p1: Part)
    requires inp != [] && Early(x, inp) && p0.store == p1.store == inp[0].store && p0.own == p1.own == inp[0].own
    requires p0.own ==> p0.at == inp[0].at <= p1.at
    ensures Early(x, [p0, p1] + inp[1..])
  {
    var now := [p0, p1] + inp[1..];
    forall i | 0 <= i < |now| && now[i].own && now[i].store == x.store ensures x.at + |x.text| <= now[i].at {
      assert i >= 2 ==> now[i] == inp[i - 1];
      assert inp[0].at + 0 == inp[0].at;
    }
  }

  lemma EarlyCut(inp: seq<Part>, p0: Part, p1: Part)
    requires inp != [] && Early(inp[0], inp[1..]) && p0.store == p1.store == inp[0].store
    requires p0.own == p1.own == inp[0].own
    requires p0.at + |p0.text| <= inp[0].at + |inp[0].text| && p1.at + |p1.text| <= inp[0].at + |inp[0].text|
    requires p0.own ==> p0.at + |p0.text| <= p1.at
    ensures Early(p0, [p1] + inp[1..]) && Early(p1, inp[1..])
  {
    assert ([p1] + inp[1..])[1..] == inp[1..];
  }

  lemma SortedMove(out: seq<Part>, inp: seq<Part>)
    requires Sorted(out, inp) && inp != []
    ensures Sorted(out + [inp[0]], inp[1..])
  {
    var p, rest := inp[0], inp[1..];
    assert forall i :: 0 <= i < |out| && p.own && out[i].store == p.store ==> Early(out[i], inp);
    forall i | 0 <= i < |out + [p]| ensures Early((out + [p])[i], rest) {
      if i < |out| {
        EarlyTail(out[i], inp);
      }
    }
  }

  /** A copy of the first bucket's bytes goes where no data of the rest is. */
  lemma CopyMisses(out: seq<Part>, inp: seq<Part>)
    requires Sorted(out, inp) && inp != []
    ensures !Hits(out, |inp[0].text|, inp[1..])
  {
    var m, p, n := |out| - 1, inp[0], |inp[0].text|;
    if HeapTail(out) && p.text != [] {
      forall i | 0 <= i < |inp[1..]| ensures !Touches(inp[1..][i], out[m].store, TailEnd(out), n) {
        if inp[1..][i].store == out[m].store {
          InOrderBeyond(p.store, p.at + n, inp[1..], i);
        }
      }
    }
  }

  /** Copied behind the data of a bucket with the same memory, or to new memory. */
  lemma SortedCopy(out: seq<Part>, inp: seq<Part>, now: seq<Part>, known: set<array<Byte>>)
    requires Sorted(out, inp) && inp != [] && inp[0].text != [] && TailClear(now)
    requires Wrote(out, inp[0].text, NoLoan, false, Turn(0, false, SUCCESS), now, known)
    requires forall i :: 0 <= i < |inp| && inp[i].store != null ==> inp[i].store in known
    ensures Sorted(now, inp[1..])
  {
    var p, rest, m := inp[0], inp[1..], |now| - 1;
    if |now| == |out| {
      var end := TailEnd(out);
      if p.store == out[m].store {
        InOrderLower(p.store, p.at + |p.text|, end + |p.text|, rest);
        forall i | 0 <= i < |rest| && rest[i].store == p.store ensures end + |p.text| <= rest[i].at {
          InOrderBeyond(p.store, p.at + |p.text|, rest, i);
        }
      } else {
        AbsentInOrder(out[m].store, end + |p.text|, rest);
      }
    } else {
      assert Absent(now[m].store, rest);
      AbsentInOrder(now[m].store, now[m].at + |now[m].text|, rest);
    }
    forall i | 0 <= i < |now| ensures Early(now[i], rest) {
      if i < m {
        assert now[i] == out[i];
        EarlyTail(out[i], inp);
      }
    }
  }

  /** Without the first bucket of the input, which is empty. */
  lemma SortedDrop(out: seq<Part>, inp: seq<Part>)
    requires Sorted(out, inp) && inp != [] && inp[0].text == []
    ensures Sorted(out, inp[1..])
  {
    var m := |out| - 1;
    forall i | 0 <= i < |out| ensures Early(out[i], inp[1..]) {
      EarlyTail(out[i], inp);
    }
    if out != [] && out[m].own && inp[0].store == out[m].store {
      InOrderLower(inp[0].store, inp[0].at, out[m].at + |out[m].text|, inp[1..]);
    }
  }

  /** Memory is that of heap buckets, or lent by a caller, but not both. */
  ghost predicate Kinds(parts: seq<Part>) {
    forall i, j :: 0 <= i < |parts| && 0 <= j < |parts| && parts[i].own && parts[i].store == parts[j].store ==>
      parts[j].own
  }

  /** What every brigade is that was written, read and split. */
  ghost predicate Orderly(parts: seq<Part>) {
    Chained(parts) && Kinds(parts) && Housed(parts)
  }

  /**
   * Such a brigade, and an empty one or one that has no memory in common with it, are fit for
   * apr_brigade_split_line.
   */
  lemma OrderlySorted(out: seq<Part>, inp: seq<Part>)
    requires Orderly(inp) && Orderly(out)
    requires forall i :: 0 <= i < |out| && out[i].store != null ==> Absent(out[i].store, inp)
    ensures Sorted(out, inp)
  {
    hide Chained, InOrder;
    OrderlyClear(out);
    if out != [] && out[|out| - 1].own {
      AbsentInOrder(out[|out| - 1].store, TailEnd(out), inp);
    }
  }

  lemma OrderlyClear(parts: seq<Part>)
    requires Orderly(parts)
    ensures TailClear(parts)
  {
    hide Chained, InOrder;
    var m := |parts| - 1;
    if parts != [] && parts[m].own {
      forall i | 0 <= i < m && parts[i].store == parts[m].store
        ensures parts[i].at + |parts[i].text| <= parts[m].at + |parts[m].text|
      {
        ChainedAt(parts, i);
        assert parts[i + 1..][m - i - 1] == parts[m];
      }
    }
  }

  lemma {:induction false} ChainedAt(parts: seq<Part>, i: nat)
    requires Chained(parts) && i < |parts|
    ensures Early(parts[i], parts[i + 1..])
    ensures parts[i].own ==> InOrder(parts[i].store, parts[i].at + |parts[i].text|, parts[i + 1..])
  {
    hide Early, InOrder;
    if i > 0 {
      assert parts[1..][i..] == parts[i + 1..];
      ChainedAt(parts[1..], i - 1);
    }
  }

  /** The part at position i replaced by others. */
  ghost function Swap(parts: seq<Part>, i: nat, now: seq<Part>): seq<Part>
    requires i < |parts|
  {
    parts[..i] + now + parts[i + 1..]
  }

  lemma SwapTail(parts: seq<Part>, i: nat, now: seq<Part>)
    requires 0 < i < |parts|
    ensures Swap(parts, i, now) != [] && Swap(parts, i, now)[0] == parts[0]
    ensures Swap(parts, i, now)[1..] == Swap(parts[1..], i - 1, now)
  {
  }

  lemma SwapFirst(parts: seq<Part>, now: seq<Part>)
    requires parts != []
    ensures Swap(parts, 0, now) == now + parts[1..]
  {
  }

  /** A part in a swapped list is a new one or an old one. */
  lemma SwapAt(parts: seq<Part>, i: nat, now: seq<Part>, k: nat)
    requires i < |parts| && k < |Swap(parts, i, now)|
    ensures Swap(parts, i, now)[k] in now || Swap(parts, i, now)[k] in parts[..i] + parts[i + 1..]
  {
  }

  lemma EarlySwap(x: Part, parts: seq<Part>, i: nat, now: seq<Part>)
    requires i < |parts| && Early(x, parts)
    requires forall q :: q in now && q.own && q.store == x.store ==> x.at + |x.text| <= q.at
    ensures Early(x, Swap(parts, i, now))
  {
    hide Swap;
    var all := Swap(parts, i, now);
    forall k | 0 <= k < |all| && all[k].own && all[k].store == x.store ensures x.at + |x.text| <= all[k].at {
      SwapAt(parts, i, now, k);
    }
  }

  lemma AbsentSwap(a: array?<Byte>, parts: seq<Part>, i: nat, now: seq<Part>)
    requires i < |parts| && Absent(a, parts) && forall q :: q in now ==> q.store != a
    ensures Absent(a, Swap(parts, i, now))
  {
    hide Swap;
    var all := Swap(parts, i, now);
    forall k | 0 <= k < |all| ensures all[k].store != a {
      SwapAt(parts, i, now, k);
    }
  }

  ghost function InTwo(p: Part, point: nat): seq<Part>
    requires point <= |p.text|
  {
    [Front(p, point), Back(p, point)]
  }

  lemma {:induction false} InOrderHalved(a: array<Byte>, end: nat, parts: seq<Part>, i: nat, point: nat)
    requires InOrder(a, end, parts) && i < |parts| && point <= |parts[i].text|
    ensures InOrder(a, end, Swap(parts, i, InTwo(parts[i], point)))
    decreases i
  {
    hide Swap, Absent;
    var now := InTwo(parts[i], point);
    if i == 0 {
      SwapFirst(parts, now);
      InOrderCut(a, end, parts, point);
    } else {
      SwapTail(parts, i, now);
      assert parts[i] == parts[1..][i - 1];
      if parts[0].store == a {
        InOrderHalved(a, parts[0].at + |parts[0].text|, parts[1..], i - 1, point);
      } else if parts[0].text == [] {
        InOrderHalved(a, end, parts[1..], i - 1, point);
      } else {
        AbsentAt(a, parts[1..], i - 1);
        AbsentSwap(a, parts[1..], i - 1, now);
      }
    }
  }

  lemma AbsentAt(a: array?<Byte>, parts: seq<Part>, i: nat)
    requires Absent(a, parts) && i < |parts|
    ensures parts[i].store != a
  {
  }

  lemma {:induction false} ChainedHalved(parts: seq<Part>, i: nat, point: nat)
    requires Chained(parts) && Housed(parts) && i < |parts| && point <= |parts[i].text|
    ensures Chained(Swap(parts, i, InTwo(parts[i], point)))
  {
    hide Swap, Early, InOrder;
    var now := InTwo(parts[i], point);
    if i == 0 {
      SwapFirst(parts, now);
      ChainedCut(parts, point);
    } else {
      var x := parts[0];
      SwapTail(parts, i, now);
      ChainedHalved(parts[1..], i - 1, point);
      if x.own {
        InOrderHalved(x.store, x.at + |x.text|, parts[1..], i - 1, point);
      }
      EarlyAt(x, parts[1..], i - 1);
      EarlySwap(x, parts[1..], i - 1, now);
      ChainedCons(Swap(parts, i, now));
    }
  }

  lemma EarlyAt(x: Part, parts: seq<Part>, i: nat)
    requires Early(x, parts) && i < |parts|
    ensures parts[i].own && parts[i].store == x.store ==> x.at + |x.text| <= parts[i].at
  {
  }

  /** apr_bucket_split of any bucket. */
  lemma OrderlyHalved(parts: seq<Part>, i: nat, point: nat)
    requires Orderly(parts) && i < |parts| && point <= |parts[i].text|
    ensures Orderly(parts[..i] + [Front(parts[i], point), Back(parts[i], point)] + parts[i + 1..])
  {
    hide Chained;
    ChainedHalved(parts, i, point);
    var all := Swap(parts, i, InTwo(parts[i], point));
    forall k | 0 <= k < |all|
      ensures exists l :: 0 <= l < |parts| && all[k].own == parts[l].own && all[k].store == parts[l].store
    {
      var l := if k <= i then k else k - 1;
      assert all[k].own == parts[l].own && all[k].store == parts[l].store;
    }
  }

  /** Parts that take the place of one without memory: new memory, or none. */
  ghost predicate Renewed(parts: seq<Part>, i: nat, now: seq<Part>) {
    && i < |parts| && parts[i].store == null && 1 <= |now| <= 2 && (|now| == 2 ==> now[1].store == null && !now[1].own)
    && (if now[0].own then now[0].store != null && Absent(now[0].store, parts) else now[0].store == null)
    && (parts[i].text == [] ==> forall q :: q in now ==> q.text == [])
  }

  lemma {:induction false} InOrderRenewed(a: array<Byte>, end: nat, parts: seq<Part>, i: nat, now: seq<Part>)
    requires InOrder(a, end, parts) && Renewed(parts, i, now) && now[0].store != a
    ensures InOrder(a, end, Swap(parts, i, now))
    decreases i
  {
    hide Swap;
    if i == 0 {
      SwapFirst(parts, now);
      InOrderRead(a, end, parts, now);
    } else {
      SwapTail(parts, i, now);
      RenewedTail(parts, i, now);
      if parts[0].store == a {
        InOrderRenewed(a, parts[0].at + |parts[0].text|, parts[1..], i - 1, now);
      } else if parts[0].text == [] {
        InOrderRenewed(a, end, parts[1..], i - 1, now);
      } else {
        AbsentSwap(a, parts[1..], i - 1, now);
      }
    }
  }

  lemma RenewedTail(parts: seq<Part>, i: nat, now: seq<Part>)
    requires Renewed(parts, i, now) && i > 0
    ensures Renewed(parts[1..], i - 1, now) && (now[0].own ==> now[0].store != parts[0].store)
  {
    assert parts[1..][i - 1] == parts[i];
    assert forall k :: 0 <= k < |parts[1..]| ==> parts[1..][k] == parts[k + 1];
  }

  lemma {:induction false} ChainedRenewed(parts: seq<Part>, i: nat, now: seq<Part>)
    requires Chained(parts) && Housed(parts) && Renewed(parts, i, now)
    ensures Chained(Swap(parts, i, now))
  {
    hide Swap, Early, InOrder;
    if i == 0 {
      SwapFirst(parts, now);
      ChainedRead(parts, now);
    } else {
      var x := parts[0];
      SwapTail(parts, i, now);
      RenewedTail(parts, i, now);
      ChainedRenewed(parts[1..], i - 1, now);
      if x.own {
        InOrderRenewed(x.store, x.at + |x.text|, parts[1..], i - 1, now);
      }
      EarlySwap(x, parts[1..], i - 1, now);
      ChainedCons(Swap(parts, i, now));
    }
  }

  /** apr_bucket_read of any bucket. */
  lemma OrderlyRead(parts: seq<Part>, i: nat, now: seq<Part>, rv: Status, str: seq<Byte>)
    requires Orderly(parts) && i < |parts| && ReadAs(parts[i], now, rv, str) && Housed(now)
    requires parts[i].work > 0 ==> parts[i].store == null
    requires now[0] != parts[i] && now[0].store != null ==> Absent(now[0].store, parts)
    ensures Orderly(parts[..i] + now + parts[i + 1..])
  {
    hide Chained, PartsBytes, Absent;
    if parts[i].work == 0 {
      assert parts[..i] + now + parts[i + 1..] == parts;
    } else {
      NoBytes(now);
      RenewedBy(parts, i, now, rv, str);
      ChainedRenewed(parts, i, now);
      KindsRenewed(parts, i, now);
    }
  }

  lemma RenewedBy(parts: seq<Part>, i: nat, now: seq<Part>, rv: Status, str: seq<Byte>)
    requires Housed(parts) && Housed(now) && i < |parts| && ReadAs(parts[i], now, rv, str) && parts[i].work > 0
    requires parts[i].store == null && PartsBytes(now) == [] ==> forall k :: 0 <= k < |now| ==> now[k].text == []
    requires parts[i].store == null && (now[0] != parts[i] && now[0].store != null ==> Absent(now[0].store, parts))
    ensures Renewed(parts, i, now)
  {
    hide PartsBytes;
  }

  lemma KindsRenewed(parts: seq<Part>, i: nat, now: seq<Part>)
    requires Kinds(parts) && Housed(parts) && Renewed(parts, i, now)
    ensures Kinds(Swap(parts, i, now)) && Housed(Swap(parts, i, now))
  {
    var all := Swap(parts, i, now);
    forall k | 0 <= k < |all| ensures all[k] in now || all[k] in parts {
      SwapAt(parts, i, now, k);
    }
  }

  lemma {:induction false} InOrderGrown(a: array<Byte>, end: nat, parts: seq<Part>, str: seq<Byte>)
    requires InOrder(a, end, parts)
    ensures InOrder(a, end, Grown(parts, str))
    decreases |parts|
  {
    var now := Grown(parts, str);
    if |parts| > 1 {
      assert now[1..] == Grown(parts[1..], str);
      if parts[0].store == a {
        InOrderGrown(a, parts[0].at + |parts[0].text|, parts[1..], str);
      } else if parts[0].text == [] {
        InOrderGrown(a, end, parts[1..], str);
      }
    }
  }

  lemma {:induction false} ChainedGrown(parts: seq<Part>, str: seq<Byte>)
    requires Chained(parts) && Housed(parts)
    ensures Chained(Grown(parts, str))
  {
    hide InOrder;
    var now := Grown(parts, str);
    if |parts| > 1 {
      var x := parts[0];
      assert now[1..] == Grown(parts[1..], str);
      ChainedGrown(parts[1..], str);
      if x.own {
        InOrderGrown(x.store, x.at + |x.text|, parts[1..], str);
      }
      ChainedCons(now);
    } else if |parts| == 1 {
      assert now[1..] == [];
      AbsentInOrder(now[0].store, now[0].at + |now[0].text|, []);
    }
  }

  lemma {:induction false} InOrderSnoc(a: array<Byte>, end: nat, parts: seq<Part>, q: Part)
    requires InOrder(a, end, parts) && q.store != a
    ensures InOrder(a, end, parts + [q])
    decreases |parts|
  {
    if parts == [] {
      assert parts + [q] == [q] && [q][1..] == [];
    } else {
      assert (parts + [q])[1..] == parts[1..] + [q];
      if parts[0].store == a {
        InOrderSnoc(a, parts[0].at + |parts[0].text|, parts[1..], q);
      } else if parts[0].text == [] {
        InOrderSnoc(a, end, parts[1..], q);
      }
    }
  }

  /** A bucket at the end that shares no heap memory with those before it. */
  lemma {:induction false} ChainedSnoc(parts: seq<Part>, q: Part)
    requires Chained(parts) && Housed(parts)
    requires forall i :: 0 <= i < |parts| && parts[i].own ==> parts[i].store != q.store
    requires q.own ==> q.store != null && Absent(q.store, parts)
    ensures Chained(parts + [q])
  {
    hide InOrder;
    if parts == [] {
      assert parts + [q] == [q] && [q][1..] == [];
      AbsentInOrder(q.store, q.at + |q.text|, []);
    } else {
      var x := parts[0];
      assert (parts + [q])[1..] == parts[1..] + [q];
      ChainedSnoc(parts[1..], q);
      if x.own {
        InOrderSnoc(x.store, x.at + |x.text|, parts[1..], q);
      }
      ChainedCons(parts + [q]);
    }
  }

  lemma {:induction false} ChainedBack(parts: seq<Part>, k: nat)
    requires Chained(parts) && k <= |parts|
    ensures Chained(parts[k..])
  {
    if k > 0 {
      assert parts[1..][k - 1..] == parts[k..];
      ChainedBack(parts[1..], k - 1);
    }
  }

  lemma {:induction false} InOrderFront(a: array?<Byte>, end: nat, parts: seq<Part>, k: nat)
    requires InOrder(a, end, parts) && k <= |parts|
    ensures InOrder(a, end, parts[..k])
    decreases k
  {
    if k > 0 {
      assert parts[..k][1..] == parts[1..][..k - 1];
      if parts[0].store == a {
        InOrderFront(a, parts[0].at + |parts[0].text|, parts[1..], k - 1);
      } else if parts[0].text == [] {
        InOrderFront(a, end, parts[1..], k - 1);
      }
    }
  }

  lemma {:induction false} ChainedFront(parts: seq<Part>, k: nat)
    requires Chained(parts) && k <= |parts|
    ensures Chained(parts[..k])
  {
    hide InOrder;
    if k > 0 {
      var x := parts[0];
      assert parts[..k][1..] == parts[1..][..k - 1];
      ChainedFront(parts[1..], k - 1);
      if x.own {
        InOrderFront(x.store, x.at + |x.text|, parts[1..], k - 1);
      }
      ChainedCons(parts[..k]);
    }
  }

  /** The two brigades of apr_brigade_split_ex. */
  lemma OrderlyParts(parts: seq<Part>, k: nat)
    requires Orderly(parts) && k <= |parts|
    ensures Orderly(parts[..k]) && Orderly(parts[k..])
  {
    hide Chained;
    ChainedFront(parts, k);
    ChainedBack(parts, k);
  }

  lemma AsideTail(before: seq<Part>, now: seq<Part>, known: set<array<Byte>>)
    requires Aside(before, now, known) && now != []
    ensures Aside(before[1..], now[1..], known) && SetAside(before[0], now[0], known)
    ensures now[0] != before[0] ==> Absent(now[0].store, now[1..])
    ensures forall j :: 0 <= j < |now[1..]| ==> SetAside(before[1..][j], now[1..][j], known)
  {
    forall j | 0 <= j < |now[1..]| ensures SetAside(before[1..][j], now[1..][j], known) {
      assert before[1..][j] == before[j + 1] && now[1..][j] == now[j + 1];
    }
  }

  lemma {:induction false} InOrderAside(a: array<Byte>, end: nat, before: seq<Part>, now: seq<Part>,
                                        known: set<array<Byte>>)
    requires InOrder(a, end, before) && Aside(before, now, known) && a in known
    requires forall i :: 0 <= i < |before| && before[i].store == a ==> before[i].own
    ensures InOrder(a, end, now)
    decreases |before|
  {
    hide Aside;
    AsideSize(before, now, known);
    if before != [] {
      AsideTail(before, now, known);
      assert forall i :: 0 <= i < |before[1..]| ==> before[1..][i] == before[i + 1];
      if before[0].store == a {
        InOrderAside(a, before[0].at + |before[0].text|, before[1..], now[1..], known);
      } else if before[0].text == [] {
        InOrderAside(a, end, before[1..], now[1..], known);
      }
    }
  }

  lemma AsideSize(before: seq<Part>, now: seq<Part>, known: set<array<Byte>>)
    requires Aside(before, now, known)
    ensures |now| == |before|
  {
  }

  /** All memory of a rope is known. */
  ghost predicate Inside(parts: seq<Part>, known: set<array<Byte>>) {
    forall i :: 0 <= i < |parts| && parts[i].store != null ==> parts[i].store in known
  }

  lemma {:induction false} ChainedAside(before: seq<Part>, now: seq<Part>, known: set<array<Byte>>)
    requires Orderly(before) && Aside(before, now, known) && Inside(before, known)
    ensures Chained(now)
  {
    hide Aside, InOrder;
    AsideSize(before, now, known);
    if now != [] {
      var x, y := before[0], now[0];
      AsideTail(before, now, known);
      ChainedTail(before);
      assert forall i :: 0 <= i < |before[1..]| ==> before[1..][i] == before[i + 1];
      ChainedAside(before[1..], now[1..], known);
      if y != x {
        ReadAlone(y, now[1..]);
      } else {
        if x.own {
          InOrderAside(x.store, x.at + |x.text|, before[1..], now[1..], known);
        }
        EarlyAside(x, before[1..], now[1..], known);
      }
      ChainedCons(now);
    }
  }

  lemma EarlyAside(x: Part, before: seq<Part>, now: seq<Part>, known: set<array<Byte>>)
    requires Early(x, before) && Aside(before, now, known) && (x.store == null || x.store in known) && Housed(before)
    ensures Early(x, now)
  {
    forall j | 0 <= j < |now| && now[j].own && now[j].store == x.store ensures x.at + |x.text| <= now[j].at {
      assert SetAside(before[j], now[j], known);
    }
  }

  lemma OrderlyAside(before: seq<Part>, now: seq<Part>, known: set<array<Byte>>)
    requires Orderly(before) && Aside(before, now, known) && Inside(before, known)
    ensures Orderly(now)
  {
    hide Chained;
    ChainedAside(before, now, known);
    forall i | 0 <= i < |now| ensures SetAside(before[i], now[i], known) {
    }
  }

  /** A flush. */
  lemma OrderlyFlushed(before: seq<Part>, turn: Turn, now: seq<Part>, known: set<array<Byte>>)
    requires Orderly(before) && Flushed(before, turn, now, known) && Inside(before, known)
    ensures Orderly(now)
  {
    hide Orderly, Aside;
    var k := Ahead(before, turn.leave);
    OrderlyParts(before, k);
    if turn.aside {
      OrderlyAside(before[k..], now, known);
    }
  }

  lemma OrderlySnoc(parts: seq<Part>, q: Part)
    requires Orderly(parts) && (q.own ==> q.store != null && Absent(q.store, parts))
    requires q.store != null ==> forall i :: 0 <= i < |parts| && parts[i].own ==> parts[i].store != q.store
    ensures Orderly(parts + [q])
  {
    hide Chained;
    ChainedSnoc(parts, q);
  }

  lemma OrderlyGrown(parts: seq<Part>, str: seq<Byte>)
    requires Orderly(parts)
    ensures Orderly(Grown(parts, str))
  {
    hide Chained;
    ChainedGrown(parts, str);
  }

  /** apr_brigade_write, from memory that is not that of a bucket of the brigade. */
  lemma OrderlyWrote(before: seq<Part>, str: seq<Byte>, from: Loan, sending: bool, turn: Turn, now: seq<Part>,
                     known: set<array<Byte>>)
    requires Orderly(before) && Wrote(before, str, from, sending, turn, now, known) && Inside(before, known)
    requires sending ==> from.Loan? && from.mem in known && NotOwned(before, from.mem)
    ensures Orderly(now)
  {
    hide Orderly, Flushed;
    if |str| <= Space(before) && HeapTail(before) {
      OrderlyGrown(before, str);
    } else if |str| > Space(before) && sending {
      OrderlySnoc(before, Lent(str, from.mem, from.at));
      OrderlyFlushed(before + [Lent(str, from.mem, from.at)], turn, now, known);
    } else {
      var q := now[|before|];
      assert now == before + [q];
      OrderlySnoc(before, q);
    }
  }

  lemma {:induction false} InOrderConcat(a: array<Byte>, end: nat, p: seq<Part>, q: seq<Part>)
    requires InOrder(a, end, p) && Absent(a, q)
    ensures InOrder(a, end, p + q)
    decreases |p|
  {
    if p == [] {
      assert p + q == q;
      AbsentInOrder(a, end, q);
    } else {
      assert (p + q)[1..] == p[1..] + q;
      if p[0].store == a {
        InOrderConcat(a, p[0].at + |p[0].text|, p[1..], q);
      } else if p[0].text == [] {
        InOrderConcat(a, end, p[1..], q);
      }
    }
  }

  lemma {:induction false} ChainedConcat(p: seq<Part>, q: seq<Part>)
    requires Chained(p) && Chained(q) && Housed(p) && Housed(q)
    requires forall i :: 0 <= i < |p| && p[i].store != null ==> Absent(p[i].store, q)
    ensures Chained(p + q)
  {
    hide InOrder, Absent;
    if p == [] {
      assert p + q == q;
    } else {
      var x := p[0];
      assert (p + q)[1..] == p[1..] + q;
      assert forall i :: 0 <= i < |p[1..]| ==> p[1..][i] == p[i + 1];
      ChainedConcat(p[1..], q);
      if x.own {
        InOrderConcat(x.store, x.at + |x.text|, p[1..], q);
      }
      EarlyConcat(x, p[1..], q);
      ChainedCons(p + q);
    }
  }

  lemma EarlyConcat(x: Part, p: seq<Part>, q: seq<Part>)
    requires Early(x, p) && Housed(q) && (x.store != null ==> Absent(x.store, q))
    ensures Early(x, p + q)
  {
  }

  /** APR_BRIGADE_CONCAT of brigades without common memory. */
  lemma OrderlyConcat(p: seq<Part>, q: seq<Part>)
    requires Orderly(p) && Orderly(q) && forall i :: 0 <= i < |p| && p[i].store != null ==> Absent(p[i].store, q)
    ensures Orderly(p + q)
  {
    hide Chained;
    ChainedConcat(p, q);
  }
}
