// The flush callback of a writer: what it sends, what it leaves in the brigade, and what it sets aside.
module Flushes {
  import opened Text
  import opened Buckets
  import opened Overlaps
  import opened Brigades

  /**
   * What one call of the callback does: it sends all buckets but the last few, which it leaves;
   * it may set those aside (apr_bucket_setaside); and it returns a status.
   */
  datatype Turn = Turn(leave: nat, aside: bool, rv: Status) {
    /** The last bucket stays, and if it is lent by a caller, it stays so. */
    predicate Lends() {
      leave > 0 && !aside
    }
  }

  /** The next turn of a plan; beyond its end everything is sent. */
  function NextTurn(plan: seq<Turn>): Turn {
    if plan == [] then Turn(0, false, SUCCESS) else plan[0]
  }

  function Rest(plan: seq<Turn>): seq<Turn> {
    if plan == [] then [] else plan[1..]
  }

  /** How many of the parts are sent when n are to be left. */
  ghost function Ahead(parts: seq<Part>, n: nat): (m: nat)
    ensures m <= |parts|
  {
    if n < |parts| then |parts| - n else 0
  }

  /** What a turn makes of the parts of a brigade. */
  ghost predicate Flushed(before: seq<Part>, turn: Turn, now: seq<Part>, known: set<array<Byte>>) {
    var rest := before[Ahead(before, turn.leave)..];
    if turn.aside then Aside(rest, now, known) else now == rest
  }

  /** The callback with its context. */
  class Sink {
    ghost var sent: seq<Byte>
    var plan: seq<Turn>

    constructor (plan: seq<Turn>)
      ensures sent == [] && this.plan == plan
    {
      sent, this.plan := [], plan;
    }

    method SendFirst(b: Brigade)
      requires b.Valid() && b.list != []
      modifies this`sent, b, b.repr`next, b.repr`prev
      ensures b.Valid() && b.repr <= old(b.repr) && b.stores == old(b.stores) && |b.list| == old(|b.list|) - 1
      ensures |old(b.parts)| > 0 && b.parts == old(b.parts[1..]) && sent == old(sent) + old(b.parts[0]).text
    {
      hide Holds, Loaded, PartsBytes;
      b.NextAt(0);
      sent := sent + b.parts[0].text;
      var e := b.RemoveFirst();
    }

    /** Send all but the last few. */
    method SendAllBut(b: Brigade, leave: nat)
      requires b.Valid()
      modifies this`sent, b, b.repr`next, b.repr`prev
      ensures b.Valid() && b.repr <= old(b.repr) && b.stores == old(b.stores)
      ensures var n := Ahead(old(b.parts), leave);
        sent == old(sent) + PartsBytes(old(b.parts)[..n]) && b.parts == old(b.parts)[n..]
    {
      hide Brigade.Valid, PartsBytes;
      ghost var before := b.parts;
      var n := b.Size();
      b.NextAt(0);
      ghost var k := 0;
      assert before[0..] == before && before[..0] == [] && sent + [] == sent;
      PartsBytesNone();
      while n > leave
        invariant b.Valid() && n == |b.list| == |b.parts| && b.repr <= old(b.repr) && b.stores == old(b.stores)
        invariant k <= |before| && b.parts == before[k..] && n + k == |before| && (n >= leave || k == 0)
        invariant sent == old(sent) + PartsBytes(before[..k])
      {
        SendFirst(b);
        PartsBytesAt(before, k);
        assert before[k..][1..] == before[k + 1..];
        n, k := n - 1, k + 1;
        b.NextAt(0);
      }
    }

    method Flush(b: Brigade) returns (rv: Status)
      requires b.Valid()
      modifies this, b, b.repr
      ensures b.Valid() && b.repr <= old(b.repr) && fresh(b.stores - old(b.stores))
      ensures plan == Rest(old(plan)) && rv == NextTurn(old(plan)).rv
      ensures Flushed(old(b.parts), NextTurn(old(plan)), b.parts, old(b.stores))
      ensures sent == old(sent) + PartsBytes(old(b.parts)[..Ahead(old(b.parts), NextTurn(old(plan)).leave)])
      ensures sent + b.Bytes() == old(sent + b.Bytes())
    {
      hide Brigade.Valid, PartsBytes, Aside, Ahead;
      ghost var before := b.parts;
      var turn := NextTurn(plan);
      plan, rv := Rest(plan), turn.rv;
      SendAllBut(b, turn.leave);
      ghost var k := Ahead(before, turn.leave);
      if turn.aside {
        b.SetAsideAll();
        AsideBytes(before[k..], b.parts, old(b.stores));
      }
      PartsBytesConcat(before[..k], before[k..]);
      assert before == before[..k] + before[k..];
    }
  }

  /** Setting aside changes no byte. */
  lemma {:induction false} AsideBytes(before: seq<Part>, now: seq<Part>, known: set<array<Byte>>)
    requires Aside(before, now, known)
    ensures PartsBytes(now) == PartsBytes(before)
  {
    if now != [] {
      assert SetAside(before[0], now[0], known);
      AsideBytes(before[1..], now[1..], known);
    }
  }

  /** All that was written: what the callback has sent and what the brigade still holds. */
  ghost function Written(b: Brigade, sink: Sink?): seq<Byte>
    reads b, sink
  {
    (if sink == null then [] else sink.sent) + b.Bytes()
  }

  /** If the last bucket is a heap bucket, no bucket has data behind its end in the same memory. */
  ghost predicate TailClear(parts: seq<Part>) {
    var m := |parts| - 1;
    parts != [] && parts[m].own ==>
      forall i :: 0 <= i < m && parts[i].store == parts[m].store ==>
        parts[i].at + |parts[i].text| <= parts[m].at + |parts[m].text|
  }

  /** What can be written without a flush: the room in a heap bucket at the end, or else a new buffer. */
  ghost function Space(parts: seq<Part>): int {
    var m := |parts| - 1;
    if parts != [] && parts[m].own && parts[m].store != null then
      parts[m].store.Length - (parts[m].at + |parts[m].text|)
    else BUFF_SIZE
  }

  lemma FlushedClear(before: seq<Part>, turn: Turn, now: seq<Part>, known: set<array<Byte>>)
    requires Flushed(before, turn, now, known) && TailClear(before)
    requires forall i :: 0 <= i < |before| && before[i].store != null ==> before[i].store in known
    ensures TailClear(now)
  {
    var rest := before[Ahead(before, turn.leave)..];
    if turn.aside && now != [] {
      var m := |now| - 1;
      assert SetAside(rest[m], now[m], known);
      forall i | 0 <= i < m && now[i].store == now[m].store && now[m].own && now[m].store != null
        ensures now[i] == rest[i] && now[m] == rest[m]
      {
        assert SetAside(rest[i], now[i], known);
      }
    }
  }

  /** After a flush with a bucket of the caller's at the end, there is a new buffer to write, or no room at all. */
  lemma FlushedSpace(before: seq<Part>, turn: Turn, now: seq<Part>, known: set<array<Byte>>)
    requires Flushed(before, turn, now, known) && before != []
    requires !before[|before| - 1].own && before[|before| - 1].store != null
    ensures Space(now) == if turn.leave > 0 && turn.aside then 0 else BUFF_SIZE
  {
    var rest := before[Ahead(before, turn.leave)..];
    if turn.aside && turn.leave > 0 {
      assert SetAside(rest[|rest| - 1], now[|now| - 1], known);
    }
  }

  /** Where a caller keeps the bytes that it writes. */
  datatype Loan = NoLoan | Loan(mem: array<Byte>, at: nat) {
    ghost predicate Has(str: seq<Byte>)
      reads Memory()
    {
      Loan? && at + |str| <= mem.Length && mem[at..at + |str|] == str
    }

    ghost function Memory(): set<array<Byte>> {
      if Loan? then {mem} else {}
    }
  }

  /** No heap bucket has its data in memory a. */
  ghost predicate NotOwned(parts: seq<Part>, a: array<Byte>) {
    forall i :: 0 <= i < |parts| && parts[i].store == a ==> !parts[i].own
  }

  /** After a flush memory of the caller is still in use exactly if the turn leaves it so. */
  lemma FlushedTied(parts: seq<Part>, p: Part, turn: Turn, now: seq<Part>, known: set<array<Byte>>)
    requires Flushed(parts + [p], turn, now, known) && p.store != null && !p.own && p.text != [] && p.store in known
    requires NotOwned(parts, p.store)
    ensures (Tied(now, p.store) <==> turn.Lends()) && NotOwned(now, p.store)
    ensures turn.Lends() ==> now != [] && now[|now| - 1] == p
  {
    var before := parts + [p];
    var rest := before[Ahead(before, turn.leave)..];
    if turn.Lends() {
      assert rest[|rest| - 1] == before[|before| - 1] == p == now[|now| - 1];
    }
    forall i | 0 <= i < |now| ensures now[i].store == p.store ==> !turn.aside && !now[i].own {
      assert rest[i] == p || rest[i] in parts;
      assert turn.aside ==> SetAside(rest[i], now[i], known);
    }
  }
}
