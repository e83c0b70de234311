// The output machine of apr_vformatter: a bounded buffer and what happens when it is full.
module FormatMachine {
  import opened Text
  import opened Numbers
  import opened Buckets
  import opened Brigades
  import opened Overlaps
  import opened Flushes
  import opened BrigadeWrites
  import opened FlushPlans
  import opened Formatter

  /** apr_vformatter_buff_t with its flush function: that of a brigade, or else that of apr_snprintf. */
  class Vbuff {
    const buf: array?<Byte>               // null: nothing is stored, only counted
    const brigade: Brigade?
    const sink: Sink?
    var curpos: nat
    const endpos: nat
    var cc: nat
    ghost var out: CString                // all that was inserted so far
    ghost var blocks: nat                 // how often the buffer was written to the brigade
    ghost const log: Log                  // how things were before
    ghost const before: seq<Byte>         // the buffer at the start

    /** Set up the buffer. Without a brigade, the flush function is that of apr_snprintf. */
    constructor (buf: array?<Byte>, endpos: nat, brigade: Brigade?, sink: Sink?)
      requires buf != null ==> endpos <= buf.Length
      requires brigade != null ==> brigade.Valid() && TailClear(brigade.parts) && buf != null && buf !in brigade.stores
      requires brigade != null ==> endpos == BUFF_SIZE == buf.Length
      ensures Valid() && out == [] && fresh(this)
      ensures brigade != null ==> log == LogOf(brigade, sink)
      ensures this.buf == buf && this.brigade == brigade && this.sink == sink && this.endpos == endpos
      ensures buf != null ==> before == buf[..]
    {
      hide Brigade.Valid, PartsBytes, Track, Tied, Lodged, TailClear, Space, PiecesOf, HeapTail;
      this.buf, this.brigade, this.sink := buf, brigade, sink;
      curpos, this.endpos, cc, out, blocks := 0, endpos, 0, [], 0;
      log := if brigade == null then Log(Rope([], [], false), Course(0, [], false), false) else LogOf(brigade, sink);
      before := if buf == null then [] else buf[..];
      new;
      assert buf != null ==> buf[..0] == [] && buf[0..] == buf[..];
      if brigade != null {
        NotThere(brigade, sink, buf);
        TrackStart(log, buf[..]);
      }
    }

    ghost function Frame(): set<object>
      reads this, brigade
    {
      {this} + (if buf == null then {} else {buf}) + (if sink == null then {} else {sink})
      + if brigade == null then {} else {brigade} + brigade.repr + brigade.stores
    }

    ghost function CourseNow(): Course
      reads this, brigade, sink
      requires brigade != null && buf != null
    {
      Course(Space(brigade.parts), Plan(sink), Tied(brigade.parts, buf))
    }

    ghost function RopeNow(): Rope
      reads this, brigade, sink
      requires brigade != null && buf != null
    {
      Rope(if sink == null then [] else sink.sent, PiecesOf(brigade.parts, buf), HeapTail(brigade.parts))
    }

    ghost predicate Sound()
      reads Frame(), this, brigade
    {
      && (buf != null ==> curpos <= endpos <= buf.Length == |before|)
      && (brigade != null ==>
        && brigade.Valid() && TailClear(brigade.parts) && buf != null && Lodged(brigade.parts, buf)
        && endpos == BUFF_SIZE == buf.Length && log.sending == (sink != null))
      && (brigade == null && buf != null ==> buf[..curpos] == out && buf[curpos..] == before[curpos..])
    }

    /** There is room in the buffer, or it is full. */
    ghost predicate Ready()
      reads Frame(), this, brigade
    {
      && Sound() && cc == |out|
      && (brigade != null ==> Track(log, out, blocks, curpos, RopeNow(), CourseNow(), buf[..]))
    }

    /** What has been written and what is in the buffer are as the plan of the callback says. */
    ghost predicate Valid()
      reads Frame(), this, brigade
    {
      Ready() && (brigade != null ==> curpos > 0 || blocks == 0)
    }

    /** The flush function gave up, for a reason: the callback failed, or the buffer is full. */
    ghost predicate Stopped()
      reads Frame(), this, brigade
    {
      && Sound()
      && (brigade == null ==> buf != null && curpos == endpos)
      && (brigade != null ==> Broken(log, out, blocks, RopeNow(), CourseNow(), buf[..]))
    }

    /** apr_brigade_write of the first n bytes of the buffer, as it changes the rope and the course. */
    method WriteOut(n: nat) returns (rv: Status)
      requires Sound() && brigade != null && n <= BUFF_SIZE
      modifies Frame()
      ensures fresh(Frame() - old(Frame())) && Sound() && buf[..] == old(buf[..])
      ensures out == old(out) && curpos == old(curpos) && cc == old(cc) && blocks == old(blocks)
      ensures RopeNow() == Next(old(RopeNow()), old(CourseNow()), sink != null, buf[..], n)
      ensures rv == WriteStatus(old(CourseNow()), sink != null, n)
      ensures CourseNow() == AfterWrite(old(CourseNow()), sink != null, n)
    {
      hide Brigade.Valid, PartsBytes, Tied, Lodged, TailClear, Space, Wrote, Overwrite, Next, Hits, HeapTail, PiecesOf;
      ghost var parts, known, plan, mem := brigade.parts, brigade.stores + {buf}, Plan(sink), buf[..];
      ghost var sent := if sink == null then [] else sink.sent;
      LodgedLaws(parts, buf);
      NotTouched(parts, buf, n);
      TouchedStore(brigade, n);
      SpaceNat(brigade);
      ValidAgrees(brigade, buf);
      rv := Write(brigade, sink, buf[..n], Loan(buf, 0));
      ValidAgrees(brigade, buf);
      ghost var now := if sink == null then [] else sink.sent;
      WroteRope(parts, buf, mem, n, sink != null, plan, brigade.parts, known, sent, now);
    }

    /** brigade_flush: the buffer is written to the brigade. */
    method FlushBlock() returns (failed: bool)
      requires Ready() && brigade != null && curpos >= endpos
      modifies Frame()
      ensures fresh(Frame() - old(Frame())) && out == old(out)
      ensures !failed ==> Ready() && curpos == 0
      ensures failed ==> Stopped()
    {
      hide Brigade.Valid, Track, Broken, Lodged, TailClear, AfterWrite, WriteStatus, Tied, Next, PiecesOf, HeapTail,
        Space;
      ghost var r, c := RopeNow(), CourseNow();
      var res := WriteOut(BUFF_SIZE);
      failed := res != SUCCESS;
      if failed {
        TrackBroken(log, out, blocks, r, c, buf[..]);
        return;
      }
      curpos := 0;
      TrackBlock(log, out, blocks, r, c, buf[..]);
      blocks := blocks + 1;
    }

    /** snprintf_flush and brigade_flush. */
    method Flush() returns (failed: bool)
      requires Valid() && buf != null && curpos >= endpos
      modifies Frame()
      ensures fresh(Frame() - old(Frame())) && out == old(out)
      ensures brigade == null ==> failed && curpos == old(curpos)
      ensures !failed ==> Ready() && curpos < endpos
      ensures failed ==> Stopped()
    {
      hide Track, Broken, Brigade.Valid;
      if brigade == null {
        return true;
      }
      failed := FlushBlock();
    }

    /** `*sp++ = c`. */
    method Put(c: Char)
      requires buf != null && curpos < endpos <= buf.Length
      modifies this`curpos, this`cc, this`out, buf
      ensures buf[..] == old(buf[..])[old(curpos) := c] && curpos == old(curpos) + 1 && cc == old(cc) + 1
      ensures out == old(out) + [c]
      ensures buf[..curpos] == old(buf[..curpos]) + [c] && buf[curpos..] == old(buf[curpos..])[1..]
    {
      buf[curpos] := c;
      curpos := curpos + 1;
      cc := cc + 1;
      out := out + [c];
    }

    /** A byte changes in the buffer, and so it does under the buckets that were left pointing to it. */
    method Store(c: Char)
      requires Ready() && buf != null && curpos < endpos
      modifies this, buf, brigade
      ensures Valid() && out == old(out) + [c] && Frame() == old(Frame())
    {
      hide Brigade.Valid, Brigade.Linked, Track, Tied, Lodged, TailClear, Space, Reread, Agrees, PiecesOf, HeapTail;
      ghost var mem, at, was := buf[..], curpos, out;
      if brigade != null {
        ghost var parts, r, course := brigade.parts, RopeNow(), CourseNow();
        brigade.ValidLinked();
        RereadShape(parts, buf, mem[at := c]);
        RereadPieces(parts, buf, mem[at := c]);
        RereadTied(parts, buf, mem[at := c]);
        Put(c);
        brigade.Refill(buf);
        TrackStore(log, was, blocks, at, r, course, mem, c);
      } else {
        Put(c);
        assert before[at..][1..] == before[at + 1..];
      }
    }

    /** With no buffer a character is only counted. */
    method Count(c: Char)
      requires Valid() && buf == null
      modifies this
      ensures Valid() && out == old(out) + [c]
    {
      cc := cc + 1;
      out := out + [c];
    }

    /** INS_CHAR. */
    method InsChar(c: Char) returns (failed: bool)
      requires Valid()
      modifies Frame()
      ensures fresh(Frame() - old(Frame()))
      ensures !failed ==> Valid() && out == old(out) + [c]
      ensures failed ==> Stopped() && out == old(out)
    {
      hide Ready, Stopped, Sound;
      failed := false;
      if buf != null {
        if curpos >= endpos {
          failed := Flush();
          if failed {
            return;
          }
        }
        Store(c);
      } else {
        Count(c);
      }
    }

    /** The result of inserting text: all of it, or a part if the flush function gave up. */
    twostate predicate Inserted(text: CString, failed: bool)
      reads Frame(), this, brigade
    {
      if failed then Stopped() && old(out) <= out < old(out) + text
      else Valid() && out == old(out) + text
    }

    /** Print a string. */
    method Emit(s: CString) returns (failed: bool)
      requires Valid()
      modifies Frame()
      ensures fresh(Frame() - old(Frame())) && Inserted(s, failed)
    {
      hide Valid, Ready, Stopped, Sound;
      var i := 0;
      while i < |s|
        invariant i <= |s| && Valid() && out == old(out) + s[..i]
        invariant fresh(Frame() - old(Frame()))
      {
        failed := InsChar(s[i]);
        if failed {
          assert old(out) + s == out + s[i..];
          return;
        }
        i := i + 1;
      }
      assert s[..|s|] == s;
      failed := false;
    }

    /** PAD. */
    method Pad(width: nat, len: nat, ch: Char) returns (failed: bool)
      requires Valid() && width > len
      modifies Frame()
      ensures fresh(Frame() - old(Frame())) && Inserted(Fill(width - len, ch), failed)
    {
      hide Valid, Ready, Stopped, Sound;
      var w := width;
      ghost var all := Fill(width - len, ch);
      while true
        invariant len < w <= width && Valid() && out == old(out) + all[..width - w]
        invariant fresh(Frame() - old(Frame()))
        decreases w
      {
        failed := InsChar(ch);
        if failed {
          assert old(out) + all == out + all[width - w..];
          return;
        }
        w := w - 1;
        if w <= len {
          assert all[..width - w] == all;
          return false;
        }
      }
    }

    /** The sign of a number and the zeros behind it. */
    method PadZeros(sign: Char, width: nat, len: nat) returns (failed: bool)
      requires Valid() && width > len
      modifies Frame()
      ensures fresh(Frame() - old(Frame())) && Inserted([sign] + Fill(width - len, ZERO), failed)
    {
      hide Valid, Ready, Stopped, Sound, Fill;
      failed := InsChar(sign);
      if failed {
        return;
      }
      failed := Pad(width, len, ZERO);
    }

    /** The padding in front of a right-adjusted argument. Zeros go between its sign and the rest. */
    method PadFront(s: CString, prefixed: bool, pad: Char, w: nat)
      returns (failed: bool, rest: CString, ghost done: CString)
      requires Valid() && (prefixed ==> s != []) && w > |s|
      modifies Frame()
      ensures fresh(Frame() - old(Frame())) && Inserted(done, failed)
      ensures var n := if prefixed && pad == ZERO then 1 else 0;
        && rest == s[n..] && done == s[..n] + Fill(w - |s|, pad)
    {
      hide Valid, Ready, Stopped, Sound, Fill;
      if pad == ZERO && prefixed {
        rest := s[1..];
        assert [s[0]] == s[..1];
        done := s[..1] + Fill(w - |s|, pad);
        failed := PadZeros(s[0], w - 1, |rest|);
      } else {
        rest := s;
        done := Fill(w - |s|, pad);
        assert s[..0] + done == done && s[0..] == s;
        failed := Pad(w, |s|, pad);
      }
    }

    /** The argument and the padding behind it. */
    method PutLeft(s: CString, pad: Char, w: nat) returns (failed: bool)
      requires Valid()
      modifies Frame()
      ensures fresh(Frame() - old(Frame())) && Inserted(s + Fill(w - |s|, pad), failed)
    {
      hide Valid, Ready, Stopped, Sound, Fill;
      failed := Emit(s);
      ghost var fill := Fill(w - |s|, pad);
      if failed {
        return;
      }
      if w > |s| {
        failed := Pad(w, |s|, pad);
      } else {
        assert s + fill == s;
      }
    }

    /** The padding in front and the argument. */
    method PutRight(s: CString, prefixed: bool, pad: Char, w: nat) returns (failed: bool)
      requires Valid() && (prefixed ==> s != []) && w > |s|
      modifies Frame()
      ensures fresh(Frame() - old(Frame()))
      ensures var n := if prefixed && pad == ZERO then 1 else 0;
        Inserted(s[..n] + Fill(w - |s|, pad) + s[n..], failed)
    {
      hide Valid, Ready, Stopped, Sound, Fill;
      var rest;
      ghost var done;
      failed, rest, done := PadFront(s, prefixed, pad, w);
      if failed {
        return;
      }
      failed := Emit(rest);
    }

    /** Padding and printing of a converted argument s; prefixed tells that it starts with a sign. */
    method PutField(s: CString, prefixed: bool, pad: Char, o: Options) returns (failed: bool)
      requires Valid() && (prefixed ==> s != []) && (pad == ZERO || pad == BLANK)
      modifies Frame()
      ensures fresh(Frame() - old(Frame()))
      ensures var n := if prefixed then 1 else 0;
        Inserted(Padded(s[..n], s[n..], pad, o), failed)
    {
      hide *;
      if o.width.AtLeast? && !o.left && o.width.n > |s| {
        PaddedRight(s, if prefixed then 1 else 0, pad, o);
        failed := PutRight(s, prefixed, pad, o.width.n);
      } else if o.width.AtLeast? && o.left {
        PaddedLeft(s, if prefixed then 1 else 0, pad, o);
        failed := PutLeft(s, pad, o.width.n);
      } else {
        PaddedNone(s, if prefixed then 1 else 0, pad, o);
        failed := Emit(s);
      }
    }

    /** The bytes of a string argument that the precision lets through. */
    method Clip(s: CString, precision: Limit) returns (t: CString)
      ensures t == Clipped(s, precision)
    {
      if precision.None? {
        return s;
      }
      var len := 0;
      while len < precision.n && At(s, len) != 0
        invariant len <= |s| && len <= precision.n
      {
        len := len + 1;
      }
      t := s[..len];
    }

    /** One directive. */
    method PutDirective(d: Directive, numBuf: array<Byte>) returns (failed: bool)
      requires Valid() && numBuf !in Frame() && numBuf.Length == NUM_BUF_SIZE
      modifies Frame(), numBuf
      ensures fresh(Frame() - old(Frame())) && numBuf !in Frame() && Inserted(Shown(d), failed)
    {
      hide Valid, Ready, Stopped, Sound, Padded, Clipped, Fill, Numeral, Prefix;
      match d {
        case Plain(c) =>
          failed := InsChar(c);
        case Chars(s, o) =>
          var t := Clip(s, o.precision);
          failed := PutField(t, false, BLANK, o);
          assert t[..0] == [] && t[0..] == t;
        case Number(kind, size, arg, o) =>
          var t, prefixed := NumberText(kind, size, arg, o, numBuf);
          failed := PutField(t, prefixed, if o.zero then ZERO else BLANK, o);
      }
    }

    /** Convert a number in the number buffer, which is not part of the output. */
    method NumberText(kind: Kind, size: Size, arg: int, o: Options, numBuf: array<Byte>)
      returns (t: CString, prefixed: bool)
      requires Valid() && numBuf !in Frame() && numBuf.Length == NUM_BUF_SIZE
      modifies numBuf
      ensures Valid() && Frame() == old(Frame())
      ensures var n := if prefixed then 1 else 0;
        n <= |t| && t[..n] == Prefix(kind, size, arg, o) && t[n..] == Numeral(kind, size, arg, o)
    {
      hide Numeral, Prefix, Brigade.Valid, TailClear, Track, Lodged, PiecesOf, HeapTail, Space, Tied;
      ghost var prefix, body := Prefix(kind, size, arg, o), Numeral(kind, size, arg, o);
      var s;
      s, prefixed := Convert(kind, size, arg, o, numBuf);
      assert numBuf[s..] == prefix + body;
      t := numBuf[s..];
    }
  }

  ghost function Plan(sink: Sink?): seq<Turn>
    reads sink
  {
    if sink == null then [] else sink.plan
  }

  /** How things are before a formatted write. */
  ghost function LogOf(b: Brigade, sink: Sink?): Log
    reads b, sink
  {
    Log(Rope(if sink == null then [] else sink.sent, PiecesOf(b.parts, null), HeapTail(b.parts)),
        Course(Space(b.parts), Plan(sink), false), sink != null)
  }

  /** To begin with all bytes are the brigade's own. */
  lemma LogLaws(b: Brigade, sink: Sink?)
    ensures LogOf(b, sink).Fresh() && LogOf(b, sink).Start() == Written(b, sink)
  {
    hide PartsBytes, ShowAll;
    OwnPieces(b.parts);
  }

  lemma {:induction false} OwnPieces(parts: seq<Part>)
    ensures ShowAll(PiecesOf(parts, null), []) == PartsBytes(parts)
  {
    if parts != [] {
      assert PiecesOf(parts, null)[1..] == PiecesOf(parts[1..], null);
      OwnPieces(parts[1..]);
    }
  }

  /** None of them is in new memory. */
  lemma NotThere(b: Brigade, sink: Sink?, a: array<Byte>)
    requires b.Valid() && a !in b.stores
    ensures Lodged(b.parts, a) && !Tied(b.parts, a) && PiecesOf(b.parts, a) == PiecesOf(b.parts, null)
    ensures LogOf(b, sink).Fresh()
  {
    hide Brigade.Valid;
    b.ValidLinked();
  }

  lemma TrackStart(g: Log, mem: seq<Byte>)
    requires g.Fresh() && |mem| == BUFF_SIZE
    ensures Track(g, [], 0, 0, g.rope, g.first, mem)
  {
  }

  lemma NotTouched(parts: seq<Part>, a: array<Byte>, n: nat)
    requires NotOwned(parts, a)
    ensures a !in Touched(parts, n)
  {
  }

  lemma SpaceNat(b: Brigade)
    requires b.Valid()
    ensures Space(b.parts) >= 0
  {
    hide Brigade.Valid;
    b.NextAt(0);
    if b.list != [] {
      TailHeap(b);
    }
    NoTail(b.parts);
  }

  lemma RereadTied(parts: seq<Part>, a: array<Byte>, now: seq<Byte>)
    ensures Tied(Reread(parts, a, now), a) <==> Tied(parts, a)
  {
    var r := Reread(parts, a, now);
    assert forall i :: 0 <= i < |parts| ==> r[i].store == parts[i].store && |r[i].text| == |parts[i].text|;
    if Tied(parts, a) {
      var i :| 0 <= i < |parts| && parts[i].store == a && parts[i].text != [];
      assert r[i].store == a && r[i].text != [];
    }
  }

  lemma PaddedRight(s: CString, n: nat, pad: Char, o: Options)
    requires n <= |s| && o.width.AtLeast? && !o.left && (pad == ZERO || pad == BLANK) && n <= 1
    ensures var k := if n == 1 && pad == ZERO then 1 else 0;
      Padded(s[..n], s[n..], pad, o) == s[..k] + Fill(o.width.n - |s|, pad) + s[k..]
  {
    assert s[..n] + s[n..] == s;
    assert s[..0] + Fill(o.width.n - |s|, pad) == Fill(o.width.n - |s|, pad);
  }

  lemma PaddedLeft(s: CString, n: nat, pad: Char, o: Options)
    requires n <= |s| && o.width.AtLeast? && o.left
    ensures Padded(s[..n], s[n..], pad, o) == s + Fill(o.width.n - |s|, pad)
  {
    assert s[..n] + s[n..] == s;
  }

  lemma PaddedNone(s: CString, n: nat, pad: Char, o: Options)
    requires n <= |s| && (o.width.None? || (!o.left && o.width.n <= |s|))
    ensures Padded(s[..n], s[n..], pad, o) == s
  {
    assert s[..n] + s[n..] == s;
    if o.width.AtLeast? {
      assert Fill(o.width.n - |s|, pad) == [];
      assert s[..n] + [] + s[n..] == s && [] + s == s;
    }
  }

  lemma OutputNext(ds: seq<Directive>, i: nat)
    requires i < |ds|
    ensures Output(ds[..i + 1]) == Output(ds[..i]) + Shown(ds[i])
    ensures Output(ds) == Output(ds[..i + 1]) + Output(ds[i + 1..])
  {
    hide Shown, Output;
    OutputSplit(ds, i + 1);
    OutputSplit(ds[..i + 1], i);
    assert ds[..i + 1][..i] == ds[..i] && ds[..i + 1][i..] == [ds[i]];
    OutputOne(ds[i]);
  }

  lemma OutputSplit(ds: seq<Directive>, k: nat)
    requires k <= |ds|
    ensures Output(ds) == Output(ds[..k]) + Output(ds[k..])
  {
    hide Shown, Output;
    assert ds == ds[..k] + ds[k..];
    OutputConcat(ds[..k], ds[k..]);
  }

  lemma OutputOne(d: Directive)
    ensures Output([d]) == Shown(d)
  {
    hide Shown;
    assert [d][1..] == [] && Output([d]) == Shown(d) + Output([d][1..]);
  }

  lemma {:induction false} OutputConcat(a: seq<Directive>, b: seq<Directive>)
    ensures Output(a + b) == Output(a) + Output(b)
  {
    hide Shown;
    if a == [] {
      assert a + b == b;
    } else {
      assert (a + b)[1..] == a[1..] + b;
      OutputConcat(a[1..], b);
    }
  }

  /** apr_vformatter on a list of directives. */
  method Vformatter(v: Vbuff, ds: seq<Directive>) returns (r: int)
    requires v.Valid() && v.out == []
    modifies v.Frame()
    ensures fresh(v.Frame() - old(v.Frame()))
    ensures r == -1 || r == |Output(ds)|
    ensures r != -1 ==> v.Valid() && v.out == Output(ds)
    ensures r == -1 ==> v.Stopped() && v.out < Output(ds)
  {
    hide Vbuff.Valid, Vbuff.Ready, Vbuff.Stopped, Vbuff.Sound, Output, Shown;
    var numBuf := new Byte[NUM_BUF_SIZE];
    OutputNone(ds);
    var i := 0;
    while i < |ds|
      invariant i <= |ds| && v.Valid() && numBuf !in v.Frame()
      invariant fresh(v.Frame() - old(v.Frame())) && v.out == Output(ds[..i])
    {
      OutputNext(ds, i);
      var failed := v.PutDirective(ds[i], numBuf);
      if failed {
        return -1;
      }
      i := i + 1;
    }
    assert ds[..i] == ds;
    Counted(v);
    r := v.cc;
  }

  lemma OutputNone(ds: seq<Directive>)
    ensures Output(ds[..0]) == []
  {
  }

  lemma Counted(v: Vbuff)
    requires v.Valid()
    ensures v.cc == |v.out|
  {
  }

  /** apr_snprintf: as much of the output as fits, with a NUL, and never a byte beyond. */
  method Snprintf(buf: array<Byte>, len: nat, ds: seq<Directive>) returns (r: int)
    requires len <= buf.Length
    modifies buf
    ensures len == 0 ==> r == |Output(ds)| && buf[..] == old(buf[..])
    ensures len > 0 ==>
      && r == (if |Output(ds)| < len then |Output(ds)| else len - 1)
      && buf[..r] == Output(ds)[..r] && buf[r] == 0 && buf[r + 1..] == old(buf[r + 1..])
  {
    hide Output;
    if len == 0 {
      var v := new Vbuff(null, 0, null, null);
      r := Vformatter(v, ds);
    } else {
      var v := new Vbuff(buf, len - 1, null, null);
      r := Vformatter(v, ds);
      assert buf[..][v.curpos + 1..] == buf[v.curpos..][1..];
      buf[v.curpos] := 0;
      if r == -1 {
        r := len - 1;
      }
    }
  }

  /** All that was written, through the eyes of the owner of the buffer. */
  lemma BytesNow(v: Vbuff)
    requires v.Sound() && v.brigade != null
    ensures v.RopeNow().Bytes(v.buf[..]) == Written(v.brigade, v.sink)
  {
    hide PartsBytes, ShowAll, Brigade.Valid, Lodged, Agrees, PiecesOf;
    ValidAgrees(v.brigade, v.buf);
    ShowParts(v.brigade.parts, v.buf, v.buf[..]);
  }

  /** The formatter gave up before all directives were done. */
  lemma CutOff(v: Vbuff, ds: seq<Directive>)
    requires v.Stopped() && v.brigade != null && v.out < Output(ds)
    ensures PrintStatus(v.log, |Output(ds)|) == FAILURE && Written(v.brigade, v.sink) == PrintBytes(v.log, Output(ds))
    ensures PrintTied(v.log, |Output(ds)|) <==> Tied(v.brigade.parts, v.buf)
  {
    hide Brigade.Valid, Broken, PrintStatus, PrintBytes, PrintTied, Tied, Written, Rope.Bytes, Output, Lodged,
      TailClear, PiecesOf;
    BytesNow(v);
    PrintedBroken(v.log, v.out, Output(ds), v.blocks, v.RopeNow(), v.CourseNow(), v.buf[..]);
  }

  /** What is left in the buffer is written. */
  method WriteLast(v: Vbuff, ds: seq<Directive>) returns (rv: Status)
    requires v.Valid() && v.brigade != null && v.out == Output(ds)
    modifies v.Frame()
    ensures v.Sound()
    ensures rv == PrintStatus(v.log, |Output(ds)|) && Written(v.brigade, v.sink) == PrintBytes(v.log, Output(ds))
    ensures PrintTied(v.log, |Output(ds)|) <==> Tied(v.brigade.parts, v.buf)
  {
    hide Brigade.Valid, Track, PrintStatus, PrintBytes, PrintTied, Tied, Written, Rope.Bytes, Output, Lodged,
      TailClear, PiecesOf, Next, AfterWrite;
    PrintedWhole(v.log, v.out, v.blocks, v.curpos, v.RopeNow(), v.CourseNow(), v.buf[..]);
    rv := v.WriteOut(v.curpos);
    BytesNow(v);
  }

  lemma CarefulLog(b: Brigade, sink: Sink?, out: CString)
    requires sink == null || Careful(Plan(sink))
    ensures var g := LogOf(b, sink);
      PrintStatus(g, |out|) == SUCCESS && PrintBytes(g, out) == Written(b, sink) + out && !PrintTied(g, |out|)
  {
    hide PrintStatus, PrintBytes, PrintTied, Careful, Log.Fresh, Log.Start, Written, PiecesOf, HeapTail, Space;
    LogLaws(b, sink);
    CarefulPrinted(LogOf(b, sink), out);
  }

  /**
   * apr_brigade_vprintf: the status, all that is written, byte by byte, and whether a bucket is left that
   * points to the buffer stack of this call are as the brigade and the plan of the callback decide.
   */
  method BrigadeVprintf(b: Brigade, sink: Sink?, ds: seq<Directive>) returns (rv: Status, ghost stack: array<Byte>)
    requires b.Valid() && TailClear(b.parts)
    modifies b, b.repr, b.stores, sink
    ensures b.Valid() && TailClear(b.parts) && fresh(stack)
    ensures rv == PrintStatus(old(LogOf(b, sink)), |Output(ds)|)
    ensures Written(b, sink) == PrintBytes(old(LogOf(b, sink)), Output(ds))
    ensures Tied(b.parts, stack) <==> PrintTied(old(LogOf(b, sink)), |Output(ds)|)
    ensures sink == null || Careful(old(Plan(sink))) ==>
      rv == SUCCESS && Written(b, sink) == old(Written(b, sink)) + Output(ds) && !Tied(b.parts, stack)
  {
    hide Output, Brigade.Valid, TailClear, PrintStatus, PrintBytes, PrintTied, Tied, Careful, LogOf, Written,
      Log.Fresh, Log.Start;
    if sink == null || Careful(Plan(sink)) {
      CarefulLog(b, sink, Output(ds));
    }
    var buf := new Byte[BUFF_SIZE];
    stack := buf;
    var v := new Vbuff(buf, BUFF_SIZE, b, sink);
    var written := Vformatter(v, ds);
    if written == -1 {
      rv := FAILURE;
      CutOff(v, ds);
    } else {
      rv := WriteLast(v, ds);
    }
  }

  /** A text as directives that print it. */
  function Spelled(text: CString): (ds: seq<Directive>)
    ensures Output(ds) == text
  {
    if text == [] then [] else [Plain(text[0])] + Spelled(text[1..])
  }

  lemma SecondLent(c: Course)
    requires c == Course(BUFF_SIZE, [Turn(1, false, SUCCESS)], false)
    ensures Failing(c, true, 2) == 2 && Lending(c, true, 2) == 1 && After(c, true, 2) == Course(BUFF_SIZE, [], true)
  {
    assert After(c, true, 0) == c;
    assert After(c, true, 1) == Course(0, c.plan, false);
    assert Failing(c, true, 1) == 1 == Lending(c, true, 1);
  }

  /** What becomes of 24000 bytes, if the second block is left lent. */
  lemma LeftLent(g: Log, text: CString)
    requires g.sending && g.first == Course(BUFF_SIZE, [Turn(1, false, SUCCESS)], false) && g.Fresh() && g.Start() == []
    requires text == Letters(3 * BUFF_SIZE, 1)
    ensures PrintStatus(g, |text|) == SUCCESS && PrintTied(g, |text|)
    ensures |PrintBytes(g, text)| == |text| && PrintBytes(g, text) != text
  {
    hide After, Failing, Lending, PrintBytes, Log.Start, Log.Fresh;
    SecondLent(g.first);
    assert FullBlocks(|text|) == 2 && Differs(text, 1, 2);
    PrintSpoilt(g, text);
    PrintLength(g, text);
  }

  /**
   * A callback that leaves one bucket and does not set it aside: the second block of 24000 bytes is handed
   * over in the buffer of the call, where the third one is then stored while the bucket points there. So
   * other bytes arrive, and in the end the bucket points to a buffer that is gone.
   */
  method LeftOnStack() returns (rv: Status, b: Brigade, sink: Sink, text: CString, ghost stack: array<Byte>)
    ensures rv == SUCCESS && |text| == 3 * BUFF_SIZE == |Written(b, sink)| && Written(b, sink) != text
    ensures Tied(b.parts, stack)
  {
    hide *;
    b := new Brigade();
    sink := new Sink([Turn(1, false, SUCCESS)]);
    text := Letters(3 * BUFF_SIZE, 1);
    LogLaws(b, sink);
    FirstLog(b, sink);
    LeftLent(LogOf(b, sink), text);
    rv, stack := BrigadeVprintf(b, sink, Spelled(text));
  }

  lemma FirstLog(b: Brigade, sink: Sink)
    requires b.parts == [] && sink.sent == []
    ensures Written(b, sink) == [] && TailClear(b.parts)
    ensures LogOf(b, sink).first == Course(BUFF_SIZE, sink.plan, false) && LogOf(b, sink).sending
  {
    PartsBytesNone();
  }
}
