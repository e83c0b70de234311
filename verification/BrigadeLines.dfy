// Reading a brigade line by line, as a client does: call after call yields the lines of the rope.
module BrigadeLines {
  import opened Seqs
  import opened Text
  import opened Lines
  import opened Buckets
  import opened Brigades
  import opened BrigadeOrder
  import opened BrigadeReads

  lemma {:induction false} FaultFree(parts: seq<Part>)
    requires NoFaults(parts)
    ensures RopeFault(parts) == NoFault
  {
    if parts != [] {
      FaultFree(parts[1..]);
    }
  }

  /** The start of the bytes in a buffer of the given size; what does not fit is dropped. */
  ghost predicate Held(all: seq<Byte>, size: nat, blen: nat, c: seq<Byte>, rest: seq<Byte>) {
    && |c| == |rest| && blen == (if |all| < size then |all| else size) <= |c|
    && c[..blen] == all[..blen] && c[blen..] == rest[blen..]
  }

  lemma FlatHeld(parts: seq<Part>, size: nat, rv: Status, blen: nat, c: seq<Byte>, rest: seq<Byte>)
    requires Flattened(parts, size, rv, blen, c, rest) && NoFaults(parts)
    ensures rv == SUCCESS && Held(PartsBytes(parts), size, blen, c, rest)
  {
    hide PartsBytes, RopeFault;
    FaultFree(parts);
  }

  /**
   * get_server_line of a client, with a buffer of size bytes: one line goes to tb, from there to the buffer,
   * and tb is emptied. If the line cannot be read, what there is of it waits in tb for the next call.
   */
  method ServerLine(tb: Brigade, bb: Brigade, buffer: array<Byte>, size: nat)
    returns (rv: Status, blen: nat, ghost line: seq<Byte>, ghost found: bool)
    requires Separate(tb, bb) && buffer !in tb.stores + bb.stores && size <= buffer.Length
    modifies tb, bb, tb.repr, bb.repr, tb.stores, bb.stores, buffer
    ensures Separate(tb, bb) && fresh(tb.repr + bb.repr - old(tb.repr + bb.repr))
    ensures fresh(tb.stores + bb.stores - old(tb.stores + bb.stores))
    ensures (old(NoFaults(tb.parts)) ==> NoFaults(tb.parts))
    ensures old(NoFaults(tb.parts)) && old(Sorted(tb.parts, bb.parts)) ==>
      && Sorted(tb.parts, bb.parts) && LineMoved(old(bb.parts), bb.parts, line, size, rv, found)
      && if rv == SUCCESS then tb.parts == [] && Held(old(tb.Bytes()) + line, size, blen, buffer[..], old(buffer[..]))
        else tb.Bytes() == old(tb.Bytes()) + line && buffer[..] == old(buffer[..])
  {
    hide Brigade.Valid, PartsBytes, RopeFault, Sorted, LineMoved, NoFaults, Flattened, Held;
    ghost var sorted, sound := Sorted(tb.parts, bb.parts), NoFaults(tb.parts);
    blen := 0;
    rv, found, line := SplitLine(tb, bb, size);
    if rv != SUCCESS {
      return;
    }
    ghost var parts := tb.parts;
    rv, blen := FlattenInto(tb, buffer, size);
    if sound {
      FlatHeld(parts, size, rv, blen, buffer[..], old(buffer[..]));
    }
    if rv != SUCCESS {
      return;
    }
    tb.Cleanup();
    NoneSound();
    if sorted {
      SortedNone(parts, bb.parts);
    }
  }

  lemma NoneSound()
    ensures NoFaults([])
  {
  }

  lemma SortedNone(out: seq<Part>, inp: seq<Part>)
    requires Sorted(out, inp)
    ensures Sorted([], inp)
  {
  }

  /** What was read so far, line by line, and what is left of the rope. */
  ghost predicate LinesSoFar(was: seq<Part>, now: seq<Part>, moved: seq<Byte>, lines: seq<seq<Byte>>, size: nat) {
    && PartsBytes(was) == moved + PartsBytes(now) && RopeFault(was) == Later(RopeFault(now), |moved|)
    && (Short(PartsBytes(was), size) ==>
      && Short(PartsBytes(now), size) && moved == Flatten(lines)
      && LinesOf(PartsBytes(was)) == lines + LinesOf(PartsBytes(now)))
  }

  lemma LinesNext(was: seq<Part>, now: seq<Part>, moved: seq<Byte>, lines: seq<seq<Byte>>, next: seq<Part>,
                  line: seq<Byte>, found: bool, size: nat, text: seq<Byte>)
    requires LinesSoFar(was, now, moved, lines, size) && LineMoved(now, next, line, size, SUCCESS, found) && size > 0
    requires text == if |line| < size then line else line[..size]
    ensures LinesSoFar(was, next, moved + line, if text == [] then lines else lines + [text], size)
  {
    hide PartsBytes, RopeFault, Short, LinesOf;
    assert (moved + line) + PartsBytes(next) == moved + (line + PartsBytes(next));
    if Short(PartsBytes(was), size) {
      NextText(PartsBytes(now), line, PartsBytes(next), size);
      assert text == line;
      var more := if line == [] then [] else [line];
      assert lines + more == if line == [] then lines else lines + [line];
      MovedNext(lines, line);
      assert (lines + more) + LinesOf(PartsBytes(next)) == lines + (more + LinesOf(PartsBytes(next)));
    }
  }

  lemma NextText(rope: seq<Byte>, line: seq<Byte>, rest: seq<Byte>, size: nat)
    requires rope == line + rest && Short(rope, size) && line == rope[..FirstLine(rope)]
    ensures |line| <= size && LinesOf(rope) == (if line == [] then [] else [line]) + LinesOf(rest)
  {
    if rope == [] {
      assert rest == [];
    } else {
      assert LinesOf(rope)[0] == line && rope[FirstLine(rope)..] == rest;
    }
  }

  lemma LinesStart(parts: seq<Part>, size: nat)
    ensures LinesSoFar(parts, parts, [], [], size)
  {
    assert Flatten<Byte>([]) == [];
  }

  lemma LinesEnd(was: seq<Part>, now: seq<Part>, moved: seq<Byte>, lines: seq<seq<Byte>>, size: nat)
    requires LinesSoFar(was, now, moved, lines, size) && now == []
    ensures RopeFault(was) == NoFault && (Short(PartsBytes(was), size) ==> lines == LinesOf(PartsBytes(was)))
  {
    assert PartsBytes(now) == [] && LinesOf([]) == [] && moved + [] == moved;
  }

  /** The call fails in the middle of a line, of which part has been moved. */
  lemma LinesCut(was: seq<Part>, now: seq<Part>, moved: seq<Byte>, lines: seq<seq<Byte>>, next: seq<Part>,
                 part: seq<Byte>, found: bool, size: nat, rv: Status)
    requires LinesSoFar(was, now, moved, lines, size) && LineMoved(now, next, part, size, rv, found) && rv != SUCCESS
    ensures RopeFault(was).FaultAt? && rv == ReadError(RopeFault(was).code)
    ensures PartsBytes(was) == moved + part + PartsBytes(next)
    ensures Short(PartsBytes(was), size) ==>
      lines <= LinesOf(PartsBytes(was)) && PartsBytes(was) == Flatten(lines) + part + PartsBytes(next)
  {
    hide PartsBytes, Short, LinesOf;
    assert now != [] && now[0].fault.FaultAt? ==> RopeFault(now) == now[0].fault;
    assert (moved + part) + PartsBytes(next) == moved + (part + PartsBytes(next));
  }

  lemma Progress(was: seq<Part>, now: seq<Part>, line: seq<Byte>, size: nat, found: bool)
    requires LineMoved(was, now, line, size, SUCCESS, found) && was != []
    ensures |PartsBytes(now)| < |PartsBytes(was)| || (|PartsBytes(now)| == |PartsBytes(was)| && Todo(now) < Todo(was))
  {
    hide PartsBytes, Todo;
  }

  /** One line more is in the buffer, and less is left. */
  lemma LineTaken(was: seq<Part>, now: seq<Part>, moved: seq<Byte>, lines: seq<seq<Byte>>, next: seq<Part>,
                  line: seq<Byte>, found: bool, size: nat, blen: nat, c: seq<Byte>, rest: seq<Byte>)
    requires LinesSoFar(was, now, moved, lines, size) && LineMoved(now, next, line, size, SUCCESS, found)
    requires size > 0 && now != [] && Held(line, size, blen, c, rest)
    ensures blen <= |c| && LinesSoFar(was, next, moved + line, if blen == 0 then lines else lines + [c[..blen]], size)
    ensures |PartsBytes(next)| < |PartsBytes(now)|
      || (|PartsBytes(next)| == |PartsBytes(now)| && Todo(next) < Todo(now))
  {
    hide LinesSoFar, LineMoved, PartsBytes, Todo;
    Progress(now, next, line, size, found);
    LinesNext(was, now, moved, lines, next, line, found, size, c[..blen]);
  }

  /** Read all lines of a brigade through an empty one. */
  method ReadLines(tb: Brigade, bb: Brigade, buffer: array<Byte>, size: nat) returns (rv: Status, lines: seq<seq<Byte>>)
    requires Apart(tb, bb) && tb.parts == [] && buffer !in tb.stores + bb.stores && 0 < size <= buffer.Length
    modifies tb, bb, tb.repr, bb.repr, tb.stores, bb.stores, buffer
    ensures rv == if old(RopeFault(bb.parts)).FaultAt? then ReadError(old(RopeFault(bb.parts)).code) else SUCCESS
    ensures rv == SUCCESS ==> bb.parts == [] && tb.parts == []
    ensures rv == SUCCESS && Short(old(bb.Bytes()), size) ==> lines == LinesOf(old(bb.Bytes()))
    ensures rv != SUCCESS && Short(old(bb.Bytes()), size) ==>
      lines <= LinesOf(old(bb.Bytes())) && old(bb.Bytes()) == Flatten(lines) + tb.Bytes() + bb.Bytes()
  {
    hide Brigade.Valid, Separate, Sorted, PartsBytes, RopeFault, Todo, LinesSoFar, LineMoved, Later, Short, LinesOf,
      Flatten, Held, NoFaults;
    rv, lines := SUCCESS, [];
    ghost var was, moved := bb.parts, [];
    AtFirst(tb, bb);
    LinesStart(was, size);
    NoneSound();
    PartsBytesNone();
    var empty := bb.IsEmpty();
    while !empty
      invariant Separate(tb, bb) && Sorted(tb.parts, bb.parts) && tb.parts == [] && NoFaults(tb.parts)
      invariant bb.Valid() && |bb.list| == |bb.parts| && (empty <==> bb.list == []) && rv == SUCCESS
      invariant fresh(tb.repr + bb.repr - old(tb.repr + bb.repr))
      invariant fresh(tb.stores + bb.stores - old(tb.stores + bb.stores))
      invariant LinesSoFar(was, bb.parts, moved, lines, size)
      decreases |bb.Bytes()|, Todo(bb.parts)
    {
      ghost var now, mem, line, found := bb.parts, buffer[..], [], false;
      var blen;
      rv, blen, line, found := ServerLine(tb, bb, buffer, size);
      AtFirst(tb, bb);
      assert [] + line == line;
      if rv != SUCCESS {
        LinesCut(was, now, moved, lines, bb.parts, line, found, size, rv);
        return;
      }
      LineTaken(was, now, moved, lines, bb.parts, line, found, size, blen, buffer[..], mem);
      moved := moved + line;
      if blen > 0 {
        lines := lines + [buffer[..blen]];
      }
      empty := bb.IsEmpty();
    }
    LinesEnd(was, bb.parts, moved, lines, size);
  }

  lemma MovedNext(lines: seq<seq<Byte>>, line: seq<Byte>)
    ensures Flatten(if line == [] then lines else lines + [line]) == Flatten(lines) + line
  {
    FlattenConcat(lines, [line]);
    assert lines + [] == lines;
    assert [line][1..] == [] && Flatten([line]) == line + Flatten([line][1..]);
  }
}
