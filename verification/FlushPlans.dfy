// A writer that sends its buffer again and again, a block at a time: what a plan of the callback does to it.
module FlushPlans {
  import opened Seqs
  import opened Text
  import opened Buckets
  import opened Overlaps
  import opened Brigades
  import opened Flushes
  import opened BrigadeWrites

  /** What the next writes depend on: the room, the turns to come, and whether buckets are lent from the buffer. */
  datatype Course = Course(room: int, plan: seq<Turn>, lent: bool)

  ghost function WriteStatus(c: Course, sending: bool, n: nat): Status {
    if sending && n > c.room then NextTurn(c.plan).rv else SUCCESS
  }

  ghost function AfterWrite(c: Course, sending: bool, n: nat): Course {
    if n <= c.room then Course(c.room - n, c.plan, c.lent)
    else if !sending then Course(0, c.plan, c.lent)
    else
      var turn := NextTurn(c.plan);
      Course(if turn.leave > 0 && turn.aside then 0 else BUFF_SIZE, Rest(c.plan), turn.Lends())
  }

  /** The course after k full blocks. */
  ghost function After(c: Course, sending: bool, k: nat): Course {
    if k == 0 then c else AfterWrite(After(c, sending, k - 1), sending, BUFF_SIZE)
  }

  /** The first of k blocks whose write fails, k if none does. */
  ghost function Failing(c: Course, sending: bool, k: nat): (j: nat)
    ensures j <= k
  {
    if k == 0 then 0
    else
      var j := Failing(c, sending, k - 1);
      if j < k - 1 || WriteStatus(After(c, sending, k - 1), sending, BUFF_SIZE) != SUCCESS then j else k
  }

  /** A block is handed to the callback, which leaves it in the brigade without setting it aside. */
  ghost predicate BlockLends(c: Course, sending: bool) {
    sending && BUFF_SIZE > c.room && NextTurn(c.plan).Lends()
  }

  /** The first of k blocks that is left so, k if none is. */
  ghost function Lending(c: Course, sending: bool, k: nat): (j: nat)
    ensures j <= k
  {
    if k == 0 then 0
    else
      var j := Lending(c, sending, k - 1);
      if j < k - 1 || BlockLends(After(c, sending, k - 1), sending) then j else k
  }

  lemma {:induction false} NoneLent(c: Course, sending: bool, k: nat)
    requires !c.lent && Lending(c, sending, k) == k
    ensures !After(c, sending, k).lent
  {
    if k > 0 {
      NoneLent(c, sending, k - 1);
    }
  }

  lemma {:induction false} FailingLater(c: Course, sending: bool, j: nat, k: nat)
    requires j <= k && Failing(c, sending, j) < j
    ensures Failing(c, sending, k) == Failing(c, sending, j)
    decreases k
  {
    if j < k {
      FailingLater(c, sending, j, k - 1);
    }
  }

  /** A bucket as its writer sees it: it has bytes of its own, or the first n bytes of the buffer, whatever they are. */
  datatype Piece = Kept(text: seq<Byte>) | Loaned(n: nat)

  function Show(p: Piece, buf: seq<Byte>): seq<Byte> {
    match p
    case Kept(text) => text
    case Loaned(n) => if n <= |buf| then buf[..n] else buf
  }

  function ShowAll(ps: seq<Piece>, buf: seq<Byte>): seq<Byte> {
    if ps == [] then [] else Show(ps[0], buf) + ShowAll(ps[1..], buf)
  }

  /** What was sent, what the brigade holds, and whether its last bucket is a heap bucket. */
  datatype Rope = Rope(sent: seq<Byte>, pieces: seq<Piece>, tail: bool) {
    /** All that was written, while the buffer has these bytes. */
    function Bytes(buf: seq<Byte>): seq<Byte> {
      sent + ShowAll(pieces, buf)
    }
  }

  /** Pieces that are set aside. */
  function Keep(ps: seq<Piece>, buf: seq<Byte>): (kept: seq<Piece>)
    ensures |kept| == |ps| && forall i :: 0 <= i < |ps| ==> kept[i] == Kept(Show(ps[i], buf))
  {
    seq(|ps|, i requires 0 <= i < |ps| => Kept(Show(ps[i], buf)))
  }

  /** The first n bytes of the buffer are handed to the callback. */
  function Handed(r: Rope, turn: Turn, buf: seq<Byte>, n: nat): Rope {
    var all := r.pieces + [Loaned(n)];
    var k := if turn.leave < |all| then |all| - turn.leave else 0;
    var rest := if turn.aside then Keep(all[k..], buf) else all[k..];
    Rope(r.sent + ShowAll(all[..k], buf), rest, turn.leave > 0 && turn.aside)
  }

  /** The first n bytes of the buffer are written. */
  function Next(r: Rope, c: Course, sending: bool, buf: seq<Byte>, n: nat): Rope
    requires n <= |buf|
  {
    if n > c.room && sending then Handed(r, NextTurn(c.plan), buf, n)
    else if n <= c.room && r.tail && r.pieces != [] then
      var m := |r.pieces| - 1;
      Rope(r.sent, r.pieces[..m] + [Kept(Show(r.pieces[m], buf) + buf[..n])], true)
    else Rope(r.sent, r.pieces + [Kept(buf[..n])], true)
  }

  lemma {:induction false} ShowConcat(p: seq<Piece>, q: seq<Piece>, buf: seq<Byte>)
    ensures ShowAll(p + q, buf) == ShowAll(p, buf) + ShowAll(q, buf)
  {
    if p == [] {
      assert p + q == q;
    } else {
      assert (p + q)[0] == p[0] && (p + q)[1..] == p[1..] + q;
      ShowConcat(p[1..], q, buf);
    }
  }

  lemma ShowSnoc(ps: seq<Piece>, p: Piece, buf: seq<Byte>)
    ensures ShowAll(ps + [p], buf) == ShowAll(ps, buf) + Show(p, buf)
  {
    ShowConcat(ps, [p], buf);
    assert [p][1..] == [] && ShowAll([p], buf) == Show(p, buf) + ShowAll([p][1..], buf);
  }

  /** What was set aside stays as it was, whatever the buffer holds later. */
  lemma {:induction false} ShowKept(ps: seq<Piece>, buf: seq<Byte>, later: seq<Byte>)
    ensures ShowAll(Keep(ps, buf), later) == ShowAll(ps, buf)
  {
    if ps != [] {
      assert Keep(ps, buf)[1..] == Keep(ps[1..], buf);
      ShowKept(ps[1..], buf, later);
    }
  }

  /** Each byte of w is one of u or of v. */
  ghost predicate Mixed(u: seq<Byte>, v: seq<Byte>, w: seq<Byte>) {
    |u| == |v| == |w| && forall i :: 0 <= i < |w| ==> w[i] == u[i] || w[i] == v[i]
  }

  lemma {:induction false} ShowLength(ps: seq<Piece>, buf: seq<Byte>, later: seq<Byte>)
    requires |buf| == |later|
    ensures |ShowAll(ps, buf)| == |ShowAll(ps, later)|
  {
    if ps != [] {
      ShowLength(ps[1..], buf, later);
    }
  }

  lemma HandedParts(r: Rope, turn: Turn, buf: seq<Byte>, n: nat, later: seq<Byte>)
    ensures var all := r.pieces + [Loaned(n)];
      var k := if turn.leave < |all| then |all| - turn.leave else 0;
      && Handed(r, turn, buf, n).Bytes(later) ==
        r.sent + (ShowAll(all[..k], buf) + ShowAll(all[k..], if turn.aside then buf else later))
      && ShowAll(all, later) == ShowAll(all[..k], later) + ShowAll(all[k..], later)
      && ShowAll(all, later) == ShowAll(r.pieces, later) + Show(Loaned(n), later)
  {
    hide ShowAll;
    var all := r.pieces + [Loaned(n)];
    var k := if turn.leave < |all| then |all| - turn.leave else 0;
    ShowSnoc(r.pieces, Loaned(n), later);
    ShowConcat(all[..k], all[k..], later);
    assert all == all[..k] + all[k..];
    ShowKept(all[k..], buf, later);
  }

  /**
   * A write moves the bytes of the buffer as it is now; some bytes stay tied to the buffer, and what they
   * are later depends on what it holds then.
   */
  lemma NextMixed(r: Rope, c: Course, sending: bool, buf: seq<Byte>, n: nat, later: seq<Byte>)
    requires n <= |buf| == |later|
    ensures Mixed(r.Bytes(later) + later[..n], r.Bytes(buf) + buf[..n], Next(r, c, sending, buf, n).Bytes(later))
  {
    hide ShowAll;
    ShowLength(r.pieces, buf, later);
    if n > c.room && sending {
      HandedMixed(r, NextTurn(c.plan), buf, n, later);
    } else if n <= c.room && r.tail && r.pieces != [] {
      var m := |r.pieces| - 1;
      var p := r.pieces[m];
      assert r.pieces == r.pieces[..m] + [p];
      ShowSnoc(r.pieces[..m], p, later);
      ShowSnoc(r.pieces[..m], p, buf);
      ShowLength(r.pieces[..m], buf, later);
      ShowSnoc(r.pieces[..m], Kept(Show(p, buf) + buf[..n]), later);
    } else {
      ShowSnoc(r.pieces, Kept(buf[..n]), later);
      assert Next(r, c, sending, buf, n).Bytes(later) == r.Bytes(later) + buf[..n];
    }
  }

  lemma HandedMixed(r: Rope, turn: Turn, buf: seq<Byte>, n: nat, later: seq<Byte>)
    requires n <= |buf| == |later|
    ensures Mixed(r.Bytes(later) + later[..n], r.Bytes(buf) + buf[..n], Handed(r, turn, buf, n).Bytes(later))
  {
    hide ShowAll, Handed;
    var all := r.pieces + [Loaned(n)];
    var k := if turn.leave < |all| then |all| - turn.leave else 0;
    HandedParts(r, turn, buf, n, later);
    HandedParts(r, turn, buf, n, buf);
    ShowLength(all[..k], buf, later);
    ShowLength(all[k..], buf, later);
    assert r.Bytes(later) + later[..n] == r.sent + (ShowAll(all[..k], later) + ShowAll(all[k..], later));
    assert r.Bytes(buf) + buf[..n] == r.sent + (ShowAll(all[..k], buf) + ShowAll(all[k..], buf));
  }

  /** While the buffer stays the same, a write adds its bytes to all that was written. */
  lemma NextShows(r: Rope, c: Course, sending: bool, buf: seq<Byte>, n: nat)
    requires n <= |buf|
    ensures Next(r, c, sending, buf, n).Bytes(buf) == r.Bytes(buf) + buf[..n]
  {
    hide Next;
    NextMixed(r, c, sending, buf, n, buf);
  }

  /** Nothing is tied to the buffer. */
  predicate Settled(ps: seq<Piece>) {
    forall i :: 0 <= i < |ps| ==> ps[i].Kept?
  }

  lemma {:induction false} ShowSettled(ps: seq<Piece>, buf: seq<Byte>, later: seq<Byte>)
    requires Settled(ps)
    ensures ShowAll(ps, buf) == ShowAll(ps, later)
  {
    if ps != [] {
      ShowSettled(ps[1..], buf, later);
    }
  }

  /** Nothing but the bytes that are written matters to a rope that does not depend on the buffer. */
  lemma NextPrefix(r: Rope, c: Course, sending: bool, buf: seq<Byte>, n: nat)
    requires n <= |buf| && Settled(r.pieces)
    ensures Next(r, c, sending, buf, n) == Next(r, c, sending, buf[..n], n)
    ensures Next(r, c, sending, buf, n).Bytes(buf) == Next(r, c, sending, buf, n).Bytes(buf[..n])
  {
    hide ShowAll, Next;
    NextShows(r, c, sending, buf, n);
    NextShows(r, c, sending, buf[..n], n);
    ShowSettled(r.pieces, buf, buf[..n]);
    NextSame(r, c, sending, buf, n);
  }

  lemma NextSame(r: Rope, c: Course, sending: bool, buf: seq<Byte>, n: nat)
    requires n <= |buf| && Settled(r.pieces)
    ensures Next(r, c, sending, buf, n) == Next(r, c, sending, buf[..n], n)
  {
    hide ShowAll;
    assert buf[..n][..n] == buf[..n];
    if n > c.room && sending {
      var turn, all := NextTurn(c.plan), r.pieces + [Loaned(n)];
      var k := if turn.leave < |all| then |all| - turn.leave else 0;
      forall i | 0 <= i < |all| ensures all[i].Kept? || all[i] == Loaned(n) {
        assert i < |r.pieces| ==> all[i] == r.pieces[i];
      }
      forall i | k <= i < |all| ensures Show(all[i], buf) == Show(all[i], buf[..n]) {
        assert buf[..n][..n] == buf[..n];
      }
      assert Keep(all[k..], buf) == Keep(all[k..], buf[..n]);
      ShowSame(all[..k], buf, n);
    }
  }

  lemma {:induction false} ShowSame(ps: seq<Piece>, buf: seq<Byte>, n: nat)
    requires n <= |buf| && forall i :: 0 <= i < |ps| ==> ps[i].Kept? || ps[i] == Loaned(n)
    ensures ShowAll(ps, buf) == ShowAll(ps, buf[..n])
  {
    if ps != [] {
      ShowSame(ps[1..], buf, n);
    }
  }

  lemma NextSettled(r: Rope, c: Course, sending: bool, buf: seq<Byte>, n: nat)
    requires n <= |buf| && Settled(r.pieces) && !(sending && n > c.room && NextTurn(c.plan).Lends())
    ensures Settled(Next(r, c, sending, buf, n).pieces)
  {
    hide ShowAll;
  }

  /** The parts of a brigade, for the owner of memory a. */
  ghost function PiecesOf(parts: seq<Part>, a: array?<Byte>): (ps: seq<Piece>)
    ensures |ps| == |parts|
    ensures forall i :: 0 <= i < |ps| ==> ps[i] == PieceOf(parts[i], a)
  {
    seq(|parts|, i requires 0 <= i < |parts| => PieceOf(parts[i], a))
  }

  ghost function PieceOf(p: Part, a: array?<Byte>): Piece {
    if p.store != null && p.store == a then Loaned(|p.text|) else Kept(p.text)
  }

  /** Buckets in memory a are lent from its start. */
  ghost predicate Lodged(parts: seq<Part>, a: array<Byte>) {
    forall i :: 0 <= i < |parts| && parts[i].store == a ==> !parts[i].own && parts[i].at == 0
  }

  /** The writer's view shows the bytes of the brigade. */
  lemma {:induction false} ShowParts(parts: seq<Part>, a: array<Byte>, mem: seq<Byte>)
    requires Agrees(parts, a, mem) && Lodged(parts, a)
    ensures ShowAll(PiecesOf(parts, a), mem) == PartsBytes(parts)
  {
    if parts != [] {
      assert PiecesOf(parts, a)[1..] == PiecesOf(parts[1..], a);
      assert forall i :: 0 <= i < |parts[1..]| ==> parts[1..][i] == parts[i + 1];
      ShowParts(parts[1..], a, mem);
    }
  }

  /** The writer's view does not depend on what is in the memory. */
  lemma RereadPieces(parts: seq<Part>, a: array<Byte>, now: seq<Byte>)
    ensures PiecesOf(Reread(parts, a, now), a) == PiecesOf(parts, a)
    ensures Lodged(parts, a) ==> Lodged(Reread(parts, a, now), a)
  {
    var r := Reread(parts, a, now);
    forall i | 0 <= i < |parts| ensures PieceOf(r[i], a) == PieceOf(parts[i], a) {
      assert r[i] == RereadPart(parts[i], a, now);
    }
  }

  /** A write of the first n bytes of memory a, which holds mem, as its owner sees it. */
  lemma WrotePieces(before: seq<Part>, a: array<Byte>, mem: seq<Byte>, n: nat, sending: bool, plan: seq<Turn>,
                    now: seq<Part>, known: set<array<Byte>>, sent: seq<Byte>)
    requires n <= |mem| && Wrote(before, mem[..n], Loan(a, 0), sending, NextTurn(plan), now, known)
    requires a in known && Lodged(before, a) && Agrees(before, a, mem) && Space(before) >= 0
    ensures var c := Course(Space(before), plan, Tied(before, a));
      var r := Next(Rope(sent, PiecesOf(before, a), HeapTail(before)), c, sending, mem, n);
      r.pieces == PiecesOf(now, a) && r.tail == HeapTail(now) && Lodged(now, a)
  {
    hide ShowAll, Tied, Space;
    NoTail(before);
    if n > Space(before) && sending {
      HandedPieces(before, a, mem, n, NextTurn(plan), now, known);
    } else if HeapTail(before) && n <= Space(before) {
      var m := |before| - 1;
      assert PiecesOf(now, a) == PiecesOf(before, a)[..m] + [Kept(before[m].text + mem[..n])];
    } else {
      assert PiecesOf(now, a) == PiecesOf(before, a) + [Kept(mem[..n])];
    }
  }

  lemma HandedPieces(before: seq<Part>, a: array<Byte>, mem: seq<Byte>, n: nat, turn: Turn, now: seq<Part>,
                     known: set<array<Byte>>)
    requires n <= |mem| && Flushed(before + [Lent(mem[..n], a, 0)], turn, now, known)
    requires a in known && Lodged(before, a) && Agrees(before, a, mem)
    ensures var all := PiecesOf(before, a) + [Loaned(n)];
      var k := if turn.leave < |all| then |all| - turn.leave else 0;
      && PiecesOf(now, a) == (if turn.aside then Keep(all[k..], mem) else all[k..])
      && (HeapTail(now) <==> turn.leave > 0 && turn.aside) && Lodged(now, a)
  {
    hide Show, Agrees;
    AgreesSnoc(before, a, mem, n);
    var parts := before + [Lent(mem[..n], a, 0)];
    var all := PiecesOf(before, a) + [Loaned(n)];
    var k := Ahead(parts, turn.leave);
    assert PiecesOf(parts, a) == all;
    if turn.aside {
      AsidePieces(parts[k..], a, mem, now, known);
      assert PiecesOf(parts[k..], a) == all[k..];
      if turn.leave > 0 {
        assert SetAside(parts[|parts| - 1], now[|now| - 1], known);
      }
    } else {
      assert PiecesOf(now, a) == all[k..];
    }
  }

  lemma AgreesSnoc(parts: seq<Part>, a: array<Byte>, mem: seq<Byte>, n: nat)
    requires n <= |mem| && Agrees(parts, a, mem)
    ensures Agrees(parts + [Lent(mem[..n], a, 0)], a, mem)
  {
  }

  lemma AsidePieces(parts: seq<Part>, a: array<Byte>, mem: seq<Byte>, now: seq<Part>, known: set<array<Byte>>)
    requires Aside(parts, now, known) && a in known && Lodged(parts, a) && Agrees(parts, a, mem)
    ensures PiecesOf(now, a) == Keep(PiecesOf(parts, a), mem) && Lodged(now, a)
  {
    forall i | 0 <= i < |now| ensures PieceOf(now[i], a) == Kept(Show(PieceOf(parts[i], a), mem)) && now[i].store != a {
      assert SetAside(parts[i], now[i], known);
    }
  }

  /** The same, with what was sent and with the course. */
  lemma WroteRope(before: seq<Part>, a: array<Byte>, mem: seq<Byte>, n: nat, sending: bool, plan: seq<Turn>,
                  now: seq<Part>, known: set<array<Byte>>, sent: seq<Byte>, sent': seq<Byte>)
    requires n <= |mem| && Wrote(before, mem[..n], Loan(a, 0), sending, NextTurn(plan), now, known)
    requires a in known && Lodged(before, a) && Agrees(before, a, mem) && Agrees(now, a, mem) && Space(before) >= 0
    requires sent' + PartsBytes(now) == sent + PartsBytes(before) + mem[..n]
    ensures var c := Course(Space(before), plan, Tied(before, a));
      && Next(Rope(sent, PiecesOf(before, a), HeapTail(before)), c, sending, mem, n)
        == Rope(sent', PiecesOf(now, a), HeapTail(now))
      && AfterWrite(c, sending, n) ==
        Course(Space(now), if sending && n > Space(before) then Rest(plan) else plan, Tied(now, a))
      && Lodged(now, a)
  {
    hide PartsBytes, ShowAll, Tied, Space, Wrote, Next, Lodged, Agrees, HeapTail, PiecesOf;
    var r, c := Rope(sent, PiecesOf(before, a), HeapTail(before)), Course(Space(before), plan, Tied(before, a));
    WrotePieces(before, a, mem, n, sending, plan, now, known, sent);
    WroteCourse(before, a, mem, n, sending, plan, now, known);
    NextShows(r, c, sending, mem, n);
    ShowParts(before, a, mem);
    ShowParts(now, a, mem);
    SameFront(Next(r, c, sending, mem, n).sent, sent', PartsBytes(now));
  }

  lemma LodgedLaws(parts: seq<Part>, a: array<Byte>)
    requires Lodged(parts, a)
    ensures NotOwned(parts, a)
  {
  }

  /** The course of a write. */
  lemma WroteCourse(before: seq<Part>, a: array<Byte>, mem: seq<Byte>, n: nat, sending: bool, plan: seq<Turn>,
                    now: seq<Part>, known: set<array<Byte>>)
    requires n <= |mem| && Wrote(before, mem[..n], Loan(a, 0), sending, NextTurn(plan), now, known)
    requires a in known && Lodged(before, a) && Space(before) >= 0
    ensures Course(Space(now), if sending && n > Space(before) then Rest(plan) else plan, Tied(now, a))
      == AfterWrite(Course(Space(before), plan, Tied(before, a)), sending, n)
  {
    hide Space, Flushed;
    LodgedLaws(before, a);
    WroteSpace(before, mem[..n], Loan(a, 0), sending, NextTurn(plan), now, known);
    if n > Space(before) && sending {
      FlushedTied(before, Lent(mem[..n], a, 0), NextTurn(plan), now, known);
    } else {
      TiedOwn(before, now, a);
    }
  }

  lemma TiedOwn(before: seq<Part>, now: seq<Part>, a: array<Byte>)
    requires |before| <= |now|
    requires forall i :: 0 <= i < |now| ==>
      if i < |before| && now[i].store == a then now[i] == before[i] else now[i].store != a
    requires forall i :: 0 <= i < |before| && before[i].store == a ==> now[i] == before[i]
    ensures Tied(now, a) <==> Tied(before, a)
  {
    if Tied(before, a) {
      var i :| 0 <= i < |before| && before[i].store == a && before[i].text != [];
      assert now[i] == before[i];
    }
  }

  /** What is fixed while a writer goes on: the rope and the course at its start, and whether it has a callback. */
  datatype Log = Log(rope: Rope, first: Course, sending: bool) {
    /** All that had been written before. */
    function Start(): seq<Byte> {
      rope.Bytes([])
    }

    /** Nothing is tied to the new buffer. */
    ghost predicate Fresh() {
      Settled(rope.pieces) && !first.lent
    }
  }

  /** Block i of out. */
  function Block(out: seq<Byte>, i: nat): seq<Byte>
    requires BUFF_SIZE * (i + 1) <= |out|
  {
    out[BUFF_SIZE * i..BUFF_SIZE * (i + 1)]
  }

  /** The rope after k full blocks of out. */
  ghost function RopeAfter(g: Log, out: seq<Byte>, k: nat): Rope
    requires BUFF_SIZE * k <= |out|
  {
    if k == 0 then g.rope
    else Next(RopeAfter(g, out, k - 1), After(g.first, g.sending, k - 1), g.sending, Block(out, k - 1), BUFF_SIZE)
  }

  /** It depends on these blocks only. */
  lemma {:induction false} RopePrefix(g: Log, out: seq<Byte>, more: seq<Byte>, k: nat)
    requires BUFF_SIZE * k <= |out| && out <= more
    ensures RopeAfter(g, more, k) == RopeAfter(g, out, k)
  {
    hide Next;
    if k > 0 {
      assert Block(more, k - 1) == Block(out, k - 1);
      RopePrefix(g, out, more, k - 1);
    }
  }

  /** The buffer while its block number k is filled: the end of out, and behind it what is left of the block before. */
  function Buffer(out: seq<Byte>, k: nat): seq<Byte>
    requires BUFF_SIZE * k <= |out| <= BUFF_SIZE * (k + 1)
  {
    out[BUFF_SIZE * k..] + if k > 0 then out[|out| - BUFF_SIZE..BUFF_SIZE * k] else []
  }

  /**
   * A writer in the middle: out is all it was given, of which blocks full blocks have been written and pos
   * bytes are in its buffer, which holds mem; r is its rope, and c the course.
   */
  ghost predicate Track(g: Log, out: seq<Byte>, blocks: nat, pos: nat, r: Rope, c: Course, mem: seq<Byte>) {
    && |out| == BUFF_SIZE * blocks + pos && pos <= BUFF_SIZE == |mem| && g.Fresh()
    && r == RopeAfter(g, out, blocks) && c == After(g.first, g.sending, blocks)
      && Failing(g.first, g.sending, blocks) == blocks
    && mem[..pos] == out[BUFF_SIZE * blocks..] && (blocks > 0 ==> mem == Buffer(out, blocks))
  }

  /** A byte is stored at pos in the buffer. */
  lemma TrackStore(g: Log, out: seq<Byte>, blocks: nat, pos: nat, r: Rope, c: Course, mem: seq<Byte>, ch: Byte)
    requires Track(g, out, blocks, pos, r, c, mem) && pos < BUFF_SIZE
    ensures Track(g, out + [ch], blocks, pos + 1, r, c, mem[pos := ch])
  {
    hide RopeAfter, After, Failing;
    RopePrefix(g, out, out + [ch], blocks);
    assert mem[pos := ch][..pos + 1] == mem[..pos] + [ch];
    if blocks > 0 {
      assert mem[pos := ch] == Buffer(out + [ch], blocks);
    }
  }

  /** A full buffer is the block that is written next. */
  lemma NextBlock(g: Log, out: seq<Byte>, blocks: nat, r: Rope, c: Course, mem: seq<Byte>)
    requires Track(g, out, blocks, BUFF_SIZE, r, c, mem)
    ensures |out| == BUFF_SIZE * (blocks + 1) && mem == Block(out, blocks) == Buffer(out, blocks + 1)
    ensures RopeAfter(g, out, blocks + 1) == Next(r, c, g.sending, mem, BUFF_SIZE)
  {
    hide Next, AfterWrite, Failing, After;
    assert mem == mem[..BUFF_SIZE] == out[BUFF_SIZE * blocks..];
    assert out[BUFF_SIZE * (blocks + 1)..] == [];
  }

  /** A full block is written. */
  lemma TrackBlock(g: Log, out: seq<Byte>, blocks: nat, r: Rope, c: Course, mem: seq<Byte>)
    requires Track(g, out, blocks, BUFF_SIZE, r, c, mem) && WriteStatus(c, g.sending, BUFF_SIZE) == SUCCESS
    ensures var r', c' := Next(r, c, g.sending, mem, BUFF_SIZE), AfterWrite(c, g.sending, BUFF_SIZE);
      Track(g, out, blocks + 1, 0, r', c', mem)
  {
    hide Next, AfterWrite, WriteStatus, RopeAfter, Buffer;
    NextBlock(g, out, blocks, r, c, mem);
  }

  /** The write of a block fails; r is the rope with it. */
  ghost predicate Broken(g: Log, out: seq<Byte>, blocks: nat, r: Rope, c: Course, mem: seq<Byte>) {
    && |out| == BUFF_SIZE * (blocks + 1) && Failing(g.first, g.sending, blocks + 1) == blocks
    && r == RopeAfter(g, out, blocks + 1) && c == After(g.first, g.sending, blocks + 1) && mem == Block(out, blocks)
  }

  lemma TrackBroken(g: Log, out: seq<Byte>, blocks: nat, r: Rope, c: Course, mem: seq<Byte>)
    requires Track(g, out, blocks, BUFF_SIZE, r, c, mem) && WriteStatus(c, g.sending, BUFF_SIZE) != SUCCESS
    ensures Broken(g, out, blocks, Next(r, c, g.sending, mem, BUFF_SIZE), AfterWrite(c, g.sending, BUFF_SIZE), mem)
  {
    hide Next, AfterWrite, WriteStatus, RopeAfter, Buffer;
    NextBlock(g, out, blocks, r, c, mem);
  }

  /** How many full blocks are written before the last bytes, of which there are some. */
  function FullBlocks(n: nat): (k: nat)
    ensures n == 0 ==> k == 0
    ensures n > 0 ==> BUFF_SIZE * k < n <= BUFF_SIZE * (k + 1)
  {
    if n == 0 then 0 else (n - 1) / BUFF_SIZE
  }

  /** How many full blocks of n bytes are written before the last bytes or before the one that fails. */
  ghost function Blocks(g: Log, n: nat): (k: nat)
    ensures k <= FullBlocks(n)
  {
    Failing(g.first, g.sending, FullBlocks(n))
  }

  /** What is in the buffer when the last write is done, of the block that fails or of the last bytes. */
  function LastBuffer(out: seq<Byte>, j: nat): seq<Byte>
    requires j <= FullBlocks(|out|)
  {
    if j < FullBlocks(|out|) then Block(out, j) else Buffer(out, j)
  }

  /** How many of these bytes it writes. */
  function LastSize(n: nat, j: nat): (m: nat)
    requires j <= FullBlocks(n)
  {
    if j < FullBlocks(n) then BUFF_SIZE else n - BUFF_SIZE * j
  }

  /** How many of n bytes are written, with the block whose write fails. */
  ghost function Arriving(g: Log, n: nat): (m: nat)
    ensures m <= n
  {
    BUFF_SIZE * Blocks(g, n) + LastSize(n, Blocks(g, n))
  }

  /** The status of a formatted write of n bytes, with the plan of the callback at its start. */
  ghost function PrintStatus(g: Log, n: nat): Status {
    var j := Blocks(g, n);
    if j < FullBlocks(n) then FAILURE else WriteStatus(After(g.first, g.sending, j), g.sending, LastSize(n, j))
  }

  /** Whether a bucket is left that points into the writer's buffer. */
  ghost predicate PrintTied(g: Log, n: nat) {
    AfterWrite(After(g.first, g.sending, Blocks(g, n)), g.sending, LastSize(n, Blocks(g, n))).lent
  }

  /** All that is written after a formatted write of out, as the buffer is in the end. */
  ghost function PrintBytes(g: Log, out: seq<Byte>): seq<Byte> {
    var j := Blocks(g, |out|);
    var buf, m := LastBuffer(out, j), LastSize(|out|, j);
    Next(RopeAfter(g, out, j), After(g.first, g.sending, j), g.sending, buf, m).Bytes(buf)
  }

  /** The formatter gave up in the middle of out. */
  lemma PrintedBroken(g: Log, part: seq<Byte>, out: seq<Byte>, blocks: nat, r: Rope, c: Course, mem: seq<Byte>)
    requires Broken(g, part, blocks, r, c, mem) && part < out
    ensures PrintStatus(g, |out|) == FAILURE && PrintBytes(g, out) == r.Bytes(mem) && PrintTied(g, |out|) == c.lent
  {
    hide Next, AfterWrite, Rope.Bytes, Failing;
    FailingLater(g.first, g.sending, blocks + 1, FullBlocks(|out|));
    RopePrefix(g, part, out, blocks + 1);
    assert Block(part, blocks) == Block(out, blocks);
  }

  /** The last bytes are written. */
  lemma PrintedWhole(g: Log, out: seq<Byte>, blocks: nat, pos: nat, r: Rope, c: Course, mem: seq<Byte>)
    requires Track(g, out, blocks, pos, r, c, mem) && (pos > 0 || blocks == 0)
    ensures PrintStatus(g, |out|) == WriteStatus(c, g.sending, pos)
    ensures PrintTied(g, |out|) == AfterWrite(c, g.sending, pos).lent
    ensures PrintBytes(g, out) == Next(r, c, g.sending, mem, pos).Bytes(mem)
  {
    hide RopeAfter, Next, After, AfterWrite, WriteStatus, Failing;
    if blocks == 0 {
      StartOver(g, out);
      assert Buffer(out, 0) == out == mem[..pos];
      NextPrefix(r, c, g.sending, mem, pos);
    }
  }

  lemma StartOver(g: Log, out: seq<Byte>)
    ensures RopeAfter(g, out, 0) == g.rope
  {
  }

  /** Without a callback nothing fails, nothing is lent, and all is there. */
  lemma {:induction false} NoCallback(c: Course, k: nat)
    requires !c.lent
    ensures Failing(c, false, k) == k == Lending(c, false, k) && !After(c, false, k).lent
  {
    if k > 0 {
      NoCallback(c, k - 1);
    }
  }

  /** No turn of the plan fails or leaves a bucket lent. */
  predicate Careful(plan: seq<Turn>) {
    forall i :: 0 <= i < |plan| ==> plan[i].rv == SUCCESS && !plan[i].Lends()
  }

  lemma {:induction false} CarefulRun(c: Course, sending: bool, k: nat)
    requires !c.lent && Careful(c.plan)
    ensures Failing(c, sending, k) == k == Lending(c, sending, k)
    ensures !After(c, sending, k).lent && Careful(After(c, sending, k).plan)
  {
    if k > 0 {
      CarefulRun(c, sending, k - 1);
    }
  }

  lemma {:induction false} RopeLength(g: Log, out: seq<Byte>, k: nat, buf: seq<Byte>)
    requires g.Fresh() && BUFF_SIZE * k <= |out| && (k > 0 ==> |buf| == BUFF_SIZE)
    ensures |RopeAfter(g, out, k).Bytes(buf)| == |g.Start()| + BUFF_SIZE * k
  {
    hide ShowAll, Next, After;
    if k == 0 {
      ShowSettled(g.rope.pieces, buf, []);
    } else {
      var b := Block(out, k - 1);
      RopeLength(g, out, k - 1, b);
      NextMixed(RopeAfter(g, out, k - 1), After(g.first, g.sending, k - 1), g.sending, b, BUFF_SIZE, buf);
    }
  }

  /** However the callback leaves the buffer lent, no byte is lost or added: only what it is may change. */
  lemma PrintLength(g: Log, out: seq<Byte>)
    requires g.Fresh()
    ensures |PrintBytes(g, out)| == |g.Start()| + Arriving(g, |out|)
  {
    hide Next, After, LastBuffer, LastSize, Rope.Bytes, RopeAfter, Log.Start, Log.Fresh, Blocks;
    var j := Blocks(g, |out|);
    var buf, m := LastBuffer(out, j), LastSize(|out|, j);
    LastLaws(out, j);
    RopeLength(g, out, j, buf);
    NextShows(RopeAfter(g, out, j), After(g.first, g.sending, j), g.sending, buf, m);
  }

  /** As long as no block is lent, nothing is tied to the buffer, and what was written is what was given. */
  lemma {:induction false} RopeExact(g: Log, out: seq<Byte>, k: nat, buf: seq<Byte>)
    requires g.Fresh() && BUFF_SIZE * k <= |out| && Lending(g.first, g.sending, k) == k
    ensures Settled(RopeAfter(g, out, k).pieces) && RopeAfter(g, out, k).Bytes(buf) == g.Start() + out[..BUFF_SIZE * k]
  {
    hide ShowAll, Next;
    if k == 0 {
      ShowSettled(g.rope.pieces, buf, []);
    } else {
      var r, c, b := RopeAfter(g, out, k - 1), After(g.first, g.sending, k - 1), Block(out, k - 1);
      RopeExact(g, out, k - 1, b);
      NextSettled(r, c, g.sending, b, BUFF_SIZE);
      NextShows(r, c, g.sending, b, BUFF_SIZE);
      ShowSettled(RopeAfter(g, out, k).pieces, b, buf);
      assert out[..BUFF_SIZE * (k - 1)] + b == out[..BUFF_SIZE * k];
      assert b[..BUFF_SIZE] == b;
    }
  }

  lemma LastLaws(out: seq<Byte>, j: nat)
    requires j <= FullBlocks(|out|)
    ensures var buf, m := LastBuffer(out, j), LastSize(|out|, j);
      && m <= |buf| && BUFF_SIZE * j + m <= |out| && out[..BUFF_SIZE * j] + buf[..m] == out[..BUFF_SIZE * j + m]
      && (j > 0 ==> |buf| == BUFF_SIZE && m > 0 && buf[0] == out[BUFF_SIZE * j])
  {
    assert FullBlocks(|out|) > 0 ==> |out| > 0;
  }

  /** If none of the blocks that are written is lent, all that is written arrives as it is. */
  lemma PrintExact(g: Log, out: seq<Byte>)
    requires g.Fresh() && Lending(g.first, g.sending, Blocks(g, |out|)) == Blocks(g, |out|)
    ensures PrintBytes(g, out) == g.Start() + out[..Arriving(g, |out|)]
  {
    hide ShowAll, Next, Lending, After, LastBuffer, LastSize, Rope.Bytes, Log.Start, RopeAfter, Log.Fresh, Blocks;
    var j := Blocks(g, |out|);
    var buf, m := LastBuffer(out, j), LastSize(|out|, j);
    LastLaws(out, j);
    RopeExact(g, out, j, buf);
    NextShows(RopeAfter(g, out, j), After(g.first, g.sending, j), g.sending, buf, m);
    assert (g.Start() + out[..BUFF_SIZE * j]) + buf[..m] == g.Start() + (out[..BUFF_SIZE * j] + buf[..m]);
  }

  /** Byte q is not x, or will not be, as long as the buffer does not start with x. */
  ghost predicate Spoilt(r: Rope, q: nat, x: Byte) {
    forall buf: seq<Byte> :: |buf| == BUFF_SIZE && buf[0] != x ==> q < |r.Bytes(buf)| && r.Bytes(buf)[q] != x
  }

  lemma SpoiltAt(r: Rope, q: nat, x: Byte, buf: seq<Byte>)
    requires Spoilt(r, q, x) && |buf| == BUFF_SIZE && buf[0] != x
    ensures q < |r.Bytes(buf)| && r.Bytes(buf)[q] != x
  {
  }

  /** It stays so when more is written, from a buffer that starts with something else. */
  lemma SpoiltNext(r: Rope, c: Course, sending: bool, buf: seq<Byte>, n: nat, q: nat, x: Byte)
    requires Spoilt(r, q, x) && n <= BUFF_SIZE == |buf| && buf[0] != x
    ensures Spoilt(Next(r, c, sending, buf, n), q, x)
  {
    hide Next, Rope.Bytes;
    SpoiltAt(r, q, x, buf);
    forall later: seq<Byte> | |later| == BUFF_SIZE && later[0] != x
      ensures var w := Next(r, c, sending, buf, n).Bytes(later); q < |w| && w[q] != x
    {
      SpoiltAt(r, q, x, later);
      NextMixed(r, c, sending, buf, n, later);
    }
  }

  /** A block that is left lent shows what is in the buffer. */
  lemma SpoiltLent(r: Rope, c: Course, sending: bool, buf: seq<Byte>, x: Byte)
    requires BlockLends(c, sending) && |buf| == BUFF_SIZE
    ensures Spoilt(Next(r, c, sending, buf, BUFF_SIZE), |r.Bytes(buf)|, x)
  {
    hide ShowAll, Next;
    var now, q := Next(r, c, sending, buf, BUFF_SIZE), |r.Bytes(buf)|;
    LentLast(r, c, sending, buf);
    forall later: seq<Byte> | |later| == BUFF_SIZE && later[0] != x
      ensures q < |now.Bytes(later)| && now.Bytes(later)[q] != x
    {
      NextMixed(r, c, sending, buf, BUFF_SIZE, later);
      var m := |now.pieces| - 1;
      ShowLength(r.pieces, buf, later);
      assert now.pieces == now.pieces[..m] + [Loaned(BUFF_SIZE)];
      ShowSnoc(now.pieces[..m], Loaned(BUFF_SIZE), later);
      assert now.Bytes(later) == (now.sent + ShowAll(now.pieces[..m], later)) + later;
    }
  }

  lemma LentLast(r: Rope, c: Course, sending: bool, buf: seq<Byte>)
    requires BlockLends(c, sending) && |buf| == BUFF_SIZE
    ensures var ps := Next(r, c, sending, buf, BUFF_SIZE).pieces; ps != [] && ps[|ps| - 1] == Loaned(BUFF_SIZE)
  {
    hide ShowAll;
  }

  /** Block l of out starts with a byte that no later block up to number k starts with. */
  ghost predicate Differs(out: seq<Byte>, l: nat, k: nat) {
    BUFF_SIZE * k < |out| && forall t: nat :: l < t <= k ==> out[BUFF_SIZE * t] != out[BUFF_SIZE * l]
  }

  /** After the first block that is lent, its first byte is never again what it was. */
  lemma {:induction false} RopeSpoilt(g: Log, out: seq<Byte>, k: nat)
    requires g.Fresh() && BUFF_SIZE * k <= |out| && Lending(g.first, g.sending, k) < k
    requires Differs(out, Lending(g.first, g.sending, k), k - 1)
    ensures Spoilt(RopeAfter(g, out, k), |g.Start()| + BUFF_SIZE * Lending(g.first, g.sending, k),
                   out[BUFF_SIZE * Lending(g.first, g.sending, k)])
  {
    hide Next, Spoilt, After, Rope.Bytes;
    var l := Lending(g.first, g.sending, k);
    var r, c, b := RopeAfter(g, out, k - 1), After(g.first, g.sending, k - 1), Block(out, k - 1);
    if l < k - 1 {
      RopeSpoilt(g, out, k - 1);
      assert b[0] == out[BUFF_SIZE * (k - 1)];
      SpoiltNext(r, c, g.sending, b, BUFF_SIZE, |g.Start()| + BUFF_SIZE * l, out[BUFF_SIZE * l]);
    } else {
      RopeExact(g, out, l, b);
      SpoiltLent(r, c, g.sending, b, out[BUFF_SIZE * l]);
    }
  }

  /** If a block is lent, and what is written later starts with another byte, its first byte is lost. */
  lemma PrintSpoilt(g: Log, out: seq<Byte>)
    requires g.Fresh() && Lending(g.first, g.sending, Blocks(g, |out|)) < Blocks(g, |out|)
    requires Differs(out, Lending(g.first, g.sending, Blocks(g, |out|)), Blocks(g, |out|))
    ensures var q := BUFF_SIZE * Lending(g.first, g.sending, Blocks(g, |out|));
      |g.Start()| + q < |PrintBytes(g, out)| && PrintBytes(g, out)[|g.Start()| + q] != out[q]
  {
    hide Next, Spoilt, After, Rope.Bytes, Lending, LastBuffer, LastSize, Arriving, RopeAfter, Log.Fresh, Blocks,
      Log.Start;
    var j := Blocks(g, |out|);
    var l := Lending(g.first, g.sending, j);
    var r, c, buf, m := RopeAfter(g, out, j), After(g.first, g.sending, j), LastBuffer(out, j), LastSize(|out|, j);
    LastLaws(out, j);
    RopeSpoilt(g, out, j);
    SpoiltNext(r, c, g.sending, buf, m, |g.Start()| + BUFF_SIZE * l, out[BUFF_SIZE * l]);
    SpoiltAt(Next(r, c, g.sending, buf, m), |g.Start()| + BUFF_SIZE * l, out[BUFF_SIZE * l], buf);
  }

  /** n bytes of which block l is different from all that follows. */
  function Letters(n: nat, l: nat): (out: CString)
    ensures |out| == n && forall i :: 0 <= i < n ==> out[i] == if i < BUFF_SIZE * (l + 1) then 97 else 98
  {
    seq(n, i => if i < BUFF_SIZE * (l + 1) then 97 else 98)
  }

  /**
   * What is written of n bytes arrives as it is, whatever the bytes are, exactly if none of the full blocks
   * written before the last bytes, or before the block that fails, is left lent.
   */
  lemma ExactPlan(g: Log, n: nat)
    requires g.Fresh()
    ensures (forall out: CString :: |out| == n ==> PrintBytes(g, out) == g.Start() + out[..Arriving(g, n)])
      <==> Lending(g.first, g.sending, Blocks(g, n)) == Blocks(g, n)
  {
    hide PrintBytes, Lending, Rope.Bytes, Blocks, Failing;
    var j := Blocks(g, n);
    var l := Lending(g.first, g.sending, j);
    if l == j {
      forall out: CString | |out| == n ensures PrintBytes(g, out) == g.Start() + out[..Arriving(g, n)] {
        PrintExact(g, out);
      }
    } else {
      var out := Letters(n, l);
      assert Differs(out, l, j);
      PrintSpoilt(g, out);
      assert (g.Start() + out[..Arriving(g, n)])[|g.Start()| + BUFF_SIZE * l] == out[BUFF_SIZE * l];
    }
  }

  /** A callback that never fails and leaves nothing lent gets everything, and is left with nothing of the buffer. */
  lemma CarefulPrinted(g: Log, out: seq<Byte>)
    requires g.Fresh() && (!g.sending || Careful(g.first.plan))
    ensures PrintStatus(g, |out|) == SUCCESS && PrintBytes(g, out) == g.Start() + out && !PrintTied(g, |out|)
  {
    hide PrintBytes, Rope.Bytes;
    if g.sending {
      CarefulRun(g.first, true, FullBlocks(|out|));
    } else {
      NoCallback(g.first, FullBlocks(|out|));
    }
    PrintExact(g, out);
    assert out[..|out|] == out;
  }
}
