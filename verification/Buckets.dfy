// Buckets: where the bytes of a brigade are, how they are read and how a bucket is split.
module Buckets {
  import opened Text

  const BUFF_SIZE: nat := 8000

  /** FAILURE is the plain -1 that a formatter returns. */
  datatype Status = SUCCESS | EINVAL | ENOTIMPL | INCOMPLETE | FAILURE | ReadError(code: int)

  /** A read hands over at most a buffer, and nothing only at the end of the stream. */
  type Page = bs: seq<Byte> | 0 < |bs| <= BUFF_SIZE witness [0]

  /** What one read of a pipe yields before the end of the stream. */
  datatype Chunk = Data(bytes: Page) | Fail(code: int)

  /** The type and the private data of a bucket. */
  datatype Body =
    | Heap(base: array<Byte>)           // alloc_len is base.Length
    | Transient(base: array<Byte>)      // memory of the caller, who may change it
    | Immortal(mem: seq<Byte>)          // memory that never changes
    | File(mem: seq<Byte>)              // the bytes of the file
    | Pipe(script: seq<Chunk>)          // the reads to come
    | Meta
    | Head                              // not a bucket: the sentinel of a brigade

  datatype Length = Known(n: nat) | Unknown

  class Bucket {
    var next: Bucket
    var prev: Bucket
    var body: Body
    var length: Length
    var start: nat

    /** APR_BUCKET_INIT links a new bucket to itself. */
    constructor (body: Body, length: Length, start: nat)
      ensures next == this == prev
      ensures this.body == body && this.length == length && this.start == start
    {
      next, prev := this, this;
      this.body, this.length, this.start := body, length, start;
    }
  }

  /** All a pipe will yield. */
  function ScriptBytes(script: seq<Chunk>): seq<Byte> {
    if script == [] then []
    else (match script[0] case Data(bs) => bs case Fail(_) => []) + ScriptBytes(script[1..])
  }

  /** The first error that reading will meet: how many bytes come before it, and its code. */
  datatype Fault = NoFault | FaultAt(offset: nat, code: int)

  function Later(f: Fault, n: nat): Fault {
    if f.FaultAt? then FaultAt(f.offset + n, f.code) else f
  }

  /** The first error in a script. */
  function FirstFail(script: seq<Chunk>): Fault {
    if script == [] then NoFault
    else match script[0] case Data(bs) => Later(FirstFail(script[1..]), |bs|) case Fail(c) => FaultAt(0, c)
  }

  /**
   * A bucket as its brigade sees it: its bytes, the reads it may still need, where in which memory
   * the bytes are, whether that memory is its own (heap) or lent by a caller, and its first error.
   */
  datatype Part = Part(text: seq<Byte>, work: nat, store: array?<Byte>, at: nat, own: bool, fault: Fault)

  function Plain(text: seq<Byte>, work: nat): Part {
    Part(text, work, null, 0, false, NoFault)
  }

  function Own(text: seq<Byte>, base: array<Byte>, at: nat): Part {
    Part(text, 0, base, at, true, NoFault)
  }

  function Lent(text: seq<Byte>, base: array<Byte>, at: nat): Part {
    Part(text, 0, base, at, false, NoFault)
  }

  function Unread(script: seq<Chunk>): Part {
    Part(ScriptBytes(script), |script| + 1, null, 0, false, FirstFail(script))
  }

  ghost function PartsBytes(parts: seq<Part>): seq<Byte> {
    if parts == [] then [] else parts[0].text + PartsBytes(parts[1..])
  }

  /** The first error of a rope. */
  ghost function RopeFault(parts: seq<Part>): Fault {
    if parts == [] then NoFault
    else if parts[0].fault.FaultAt? then parts[0].fault
    else Later(RopeFault(parts[1..]), |parts[0].text|)
  }

  /** A bucket with this type and data, length and start is as part p says, but for the contents of memory. */
  ghost predicate ShapeOf(body: Body, length: Length, start: nat, p: Part) {
    match body
    case Heap(base) =>
      p == Own(p.text, base, start) && length == Known(|p.text|) && start + |p.text| <= base.Length
    case Transient(base) =>
      p == Lent(p.text, base, start) && length == Known(|p.text|) && start + |p.text| <= base.Length
    case Immortal(mem) =>
      && p == Plain(p.text, 0) && length == Known(|p.text|)
      && start + |p.text| <= |mem| && p.text == mem[start..start + |p.text|]
    case File(mem) =>
      && p == Plain(p.text, |p.text| + 1) && length == Known(|p.text|)
      && start + |p.text| <= |mem| && p.text == mem[start..start + |p.text|]
    case Pipe(script) => p == Unread(script) && length == Unknown
    case Meta => p == Plain([], 0) && length == Known(0)
    case Head => false
  }

  ghost predicate Shape(e: Bucket, p: Part)
    reads e`body, e`length, e`start
  {
    ShapeOf(e.body, e.length, e.start, p)
  }

  /** The memory of part p, if it has any, holds its bytes. */
  ghost predicate Stored(p: Part)
    reads p.store
  {
    p.store != null ==> p.at + |p.text| <= p.store.Length && p.text == p.store[p.at..p.at + |p.text|]
  }

  /** Bucket e has the bytes of part p, wherever it keeps them. */
  ghost predicate Holds(e: Bucket, p: Part)
    reads e`body, e`length, e`start, p.store
  {
    Shape(e, p) && Stored(p)
  }

  /** The buckets of list are as parts say, in memory among stores. */
  ghost predicate Laid(list: seq<Bucket>, parts: seq<Part>, stores: set<array<Byte>>)
    reads list`body, list`length, list`start
  {
    && |list| == |parts|
    && (forall i :: 0 <= i < |list| ==>
      (parts[i].store == null || parts[i].store in stores) && Shape(list[i], parts[i]))
  }

  /** The buckets of list have the bytes of parts, in memory among stores. */
  ghost predicate Loaded(list: seq<Bucket>, parts: seq<Part>, stores: set<array<Byte>>)
    reads list`body, list`length, list`start, stores
  {
    && |list| == |parts|
    && (forall i :: 0 <= i < |list| ==>
      (parts[i].store == null || parts[i].store in stores) && Holds(list[i], parts[i]))
  }

  lemma Measured(e: Bucket, p: Part)
    requires Shape(e, p)
    ensures !e.body.Head? && (e.length.Unknown? <==> e.body.Pipe?)
    ensures e.length.Known? ==> e.length.n == |p.text| && p.fault == NoFault
    ensures e.body.Meta? ==> p.text == []
    ensures p.store == if e.body.Heap? || e.body.Transient? then e.body.base else null
    ensures p.own <==> e.body.Heap?
    ensures e.body.Heap? || e.body.Transient? ==> p.at == e.start && p.at + |p.text| <= e.body.base.Length
    ensures p.work > 0 <==> e.body.Pipe? || e.body.File?
    ensures p.work > 0 ==> p.store == null
  {
  }

  lemma SliceCut(s: seq<Byte>, a: nat, n: nat, point: nat)
    requires point <= n && a + n <= |s|
    ensures s[a..a + n][..point] == s[a..a + point]
    ensures s[a..a + n][point..] == s[a + point..a + point + (n - point)]
  {
  }

  /** The first half of a part. */
  ghost function Front(p: Part, point: nat): Part
    requires point <= |p.text|
  {
    p.(text := p.text[..point], work := if p.work > 0 then point + 1 else 0)
  }

  /** The second half of a part. */
  ghost function Back(p: Part, point: nat): Part
    requires point <= |p.text|
  {
    p.(text := p.text[point..], work := if p.work > 0 then |p.text| - point + 1 else 0,
       at := if p.store == null then 0 else p.at + point)
  }

  lemma StoredCut(p: Part, point: nat)
    requires Stored(p) && point <= |p.text|
    ensures Stored(Front(p, point)) && Stored(Back(p, point))
  {
    if p.store != null {
      SliceCut(p.store[..], p.at, |p.text|, point);
      assert p.store[..][p.at..p.at + |p.text|] == p.store[p.at..p.at + |p.text|];
    }
  }

  lemma ShapeCut(body: Body, n: nat, start: nat, p: Part, point: nat)
    requires ShapeOf(body, Known(n), start, p) && !body.Meta? && point <= n
    ensures |p.text| == n && ShapeOf(body, Known(point), start, Front(p, point))
    ensures ShapeOf(body, Known(n - point), start + point, Back(p, point))
  {
    if body.Immortal? || body.File? {
      SliceCut(body.mem, start, n, point);
    }
  }

  /** apr_bucket_simple_split before the new bucket is linked in. */
  method Cut(e: Bucket, point: nat, ghost p: Part) returns (nb: Bucket)
    requires Holds(e, p) && e.length.Known? && !e.body.Meta? && point <= e.length.n
    modifies e`length
    ensures fresh(nb) && nb.next == nb == nb.prev && nb.body == e.body && nb.start == e.start + point
    ensures point <= |p.text| && Holds(e, Front(p, point)) && Holds(nb, Back(p, point))
  {
    hide ShapeOf, Stored;
    ShapeCut(e.body, e.length.n, e.start, p, point);
    StoredCut(p, point);
    nb := new Bucket(e.body, Known(e.length.n - point), e.start + point);
    e.length := Known(point);
  }

  /** How many buckets a loop that reads everything can still meet. */
  ghost function Todo(parts: seq<Part>): nat {
    if parts == [] then 0 else 1 + parts[0].work + Todo(parts[1..])
  }

  /** The status of a read: the error, if there is one before any byte. */
  function ReadStatus(fault: Fault): Status {
    if fault.FaultAt? && fault.offset == 0 then ReadError(fault.code) else SUCCESS
  }

  /** What reading makes of a bucket: part p turns into the one or two parts of now. */
  ghost predicate ReadAs(p: Part, now: seq<Part>, rv: Status, str: seq<Byte>) {
    && 1 <= |now| <= 2 && PartsBytes(now) == p.text && rv == ReadStatus(p.fault)
    && (if p.work == 0 then now == [p] else now[0].own || now[0].store == null)
    && (|now| == 2 ==> now[1].store == null && 0 < now[1].work < p.work)
    && (if rv == SUCCESS then
          && now[0].text == str && now[0].work == 0 && now[0].fault == NoFault && RopeFault(now) == p.fault
          && (p.work > 0 ==> |str| <= BUFF_SIZE)
        else |now| == 1 && now[0].work < p.work && now[0].store == null)
  }

  lemma PartsBytesTwo(a: Part, b: Part)
    ensures PartsBytes([a]) == a.text && PartsBytes([a, b]) == a.text + b.text
  {
    assert [a, b][1..] == [b] && [b][1..] == [] && [a][1..] == [];
  }

  lemma PartsBytesNone()
    ensures PartsBytes([]) == [] && Todo([]) == 0 && RopeFault([]) == NoFault
  {
  }

  lemma PartsBytesConcat(a: seq<Part>, b: seq<Part>)
    ensures PartsBytes(a + b) == PartsBytes(a) + PartsBytes(b)
    ensures Todo(a + b) == Todo(a) + Todo(b)
  {
    if a == [] {
      assert a + b == b;
    } else {
      assert (a + b)[0] == a[0] && (a + b)[1..] == a[1..] + b;
      PartsBytesConcat(a[1..], b);
    }
  }

  /** One part of a rope, and what is before and after it. */
  lemma PartsBytesAt(parts: seq<Part>, i: nat)
    requires i < |parts|
    ensures PartsBytes(parts) == PartsBytes(parts[..i]) + parts[i].text + PartsBytes(parts[i + 1..])
    ensures PartsBytes(parts[..i + 1]) == PartsBytes(parts[..i]) + parts[i].text
    ensures Todo(parts[i..]) == 1 + parts[i].work + Todo(parts[i + 1..])
  {
    hide PartsBytes;
    PartsBytesTwo(parts[i], parts[i]);
    PartsBytesConcat(parts[..i], [parts[i]]);
    PartsBytesConcat(parts[..i] + [parts[i]], parts[i + 1..]);
    assert parts == parts[..i] + [parts[i]] + parts[i + 1..];
    assert parts[..i + 1] == parts[..i] + [parts[i]];
    assert parts[i..][1..] == parts[i + 1..];
  }

  lemma {:induction false} RopeFaultConcat(a: seq<Part>, b: seq<Part>)
    ensures RopeFault(a + b) == if RopeFault(a).FaultAt? then RopeFault(a) else Later(RopeFault(b), |PartsBytes(a)|)
  {
    if a == [] {
      assert a + b == b;
    } else {
      assert (a + b)[0] == a[0] && (a + b)[1..] == a[1..] + b;
      RopeFaultConcat(a[1..], b);
    }
  }

  lemma RopeFaultOne(p: Part)
    ensures RopeFault([p]) == p.fault && PartsBytes([p]) == p.text
  {
    assert [p][1..] == [];
  }

  /** Where the first error of a rope is, seen from one part without error before it. */
  lemma RopeFaultAt(parts: seq<Part>, i: nat)
    requires i < |parts| && RopeFault(parts[..i]) == NoFault
    ensures parts[i].fault.FaultAt? ==> RopeFault(parts) == Later(parts[i].fault, |PartsBytes(parts[..i])|)
    ensures parts[i].fault.NoFault? ==>
      && RopeFault(parts[..i + 1]) == NoFault
      && RopeFault(parts) == Later(RopeFault(parts[i + 1..]), |PartsBytes(parts[..i + 1])|)
  {
    hide PartsBytes, RopeFault;
    assert parts[..i + 1] == parts[..i] + [parts[i]] && parts == parts[..i + 1] + parts[i + 1..];
    RopeFaultOne(parts[i]);
    RopeFaultConcat(parts[..i], [parts[i]]);
    RopeFaultConcat(parts[..i + 1], parts[i + 1..]);
    PartsBytesConcat(parts[..i], [parts[i]]);
  }

  /** A part may be replaced by parts with the same bytes, and the same error. */
  lemma PartsBytesSwap(parts: seq<Part>, i: nat, now: seq<Part>)
    requires i < |parts| && PartsBytes(now) == parts[i].text
    ensures PartsBytes(parts[..i] + now + parts[i + 1..]) == PartsBytes(parts)
    ensures RopeFault(now) == parts[i].fault ==> RopeFault(parts[..i] + now + parts[i + 1..]) == RopeFault(parts)
  {
    hide PartsBytes, RopeFault;
    PartsBytesAt(parts, i);
    PartsBytesConcat(parts[..i], now);
    PartsBytesConcat(parts[..i] + now, parts[i + 1..]);
    if RopeFault(now) == parts[i].fault {
      RopeFaultOne(parts[i]);
      RopeFaultConcat(parts[..i], now);
      RopeFaultConcat(parts[..i], [parts[i]]);
      RopeFaultConcat(parts[..i] + now, parts[i + 1..]);
      RopeFaultConcat(parts[..i] + [parts[i]], parts[i + 1..]);
      PartsBytesConcat(parts[..i], [parts[i]]);
      assert parts == parts[..i] + [parts[i]] + parts[i + 1..];
    }
  }

  lemma ReadTodo(parts: seq<Part>, i: nat, now: seq<Part>, rv: Status, str: seq<Byte>)
    requires i < |parts| && ReadAs(parts[i], now, rv, str)
    ensures var parts' := parts[..i] + now + parts[i + 1..];
      && parts'[i] == now[0] && parts'[i + 1..] == now[1..] + parts[i + 1..]
      && Todo(parts'[i + 1..]) < Todo(parts[i..])
  {
    var parts' := parts[..i] + now + parts[i + 1..];
    assert parts'[i + 1..] == now[1..] + parts[i + 1..];
    PartsBytesAt(parts, i);
    PartsBytesConcat(now[1..], parts[i + 1..]);
    if |now| == 2 {
      assert now[1..] == [now[1]] && now[1..][1..] == [];
    }
  }

  /** `memcpy` of bytes into a new allocation of the given size. */
  method NewHeap(bytes: seq<Byte>, size: nat) returns (buf: array<Byte>)
    requires |bytes| <= size
    ensures fresh(buf) && buf.Length == size && buf[..|bytes|] == bytes
  {
    buf := new Byte[size](i => if 0 <= i < |bytes| then bytes[i] else 0);
  }

  /** What a read may do to a bucket, whatever its type. */
  twostate predicate Fetched(e: Bucket, p: Part, rv: Status, str: seq<Byte>, new nb: Bucket?, new now: seq<Part>)
    requires now != []
    reads e, nb, set q | q in now && q.store != null :: q.store
  {
    && ReadAs(p, now, rv, str) && Holds(e, now[0]) && (now[0] != p && now[0].store != null ==> fresh(now[0].store))
    && (nb == null <==> |now| == 1)
    && (nb != null ==> fresh(nb) && nb.next == nb == nb.prev && Holds(nb, now[1]))
  }

  method ReadPipe(e: Bucket, ghost p: Part)
    returns (rv: Status, str: seq<Byte>, nb: Bucket?, ghost now: seq<Part>)
    requires Holds(e, p) && e.body.Pipe?
    modifies e`body, e`length, e`start
    ensures now != [] && Fetched(e, p, rv, str, nb, now)
  {
    var script := e.body.script;
    nb, str := null, [];
    if script == [] {
      e.body, e.length, e.start := Immortal([]), Known(0), 0;
      rv, now := SUCCESS, [Plain([], 0)];
      RopeFaultOne(now[0]);
      return;
    }
    match script[0] {
      case Fail(c) =>
        e.body := Pipe(script[1..]);
        rv, now := ReadError(c), [Unread(script[1..])];
        RopeFaultOne(now[0]);
      case Data(bs) =>
        str := bs;
        var buf := NewHeap(bs, BUFF_SIZE);
        e.body, e.length, e.start := Heap(buf), Known(|bs|), 0;
        nb := new Bucket(Pipe(script[1..]), Unknown, 0);
        rv, now := SUCCESS, [Own(bs, buf, 0), Unread(script[1..])];
        PartsBytesTwo(now[0], now[1]);
        assert now[1..] == [now[1]];
        RopeFaultOne(now[1]);
    }
  }

  method ReadFile(e: Bucket, ghost p: Part)
    returns (rv: Status, str: seq<Byte>, nb: Bucket?, ghost now: seq<Part>)
    requires Holds(e, p) && e.body.File?
    modifies e`body, e`length, e`start
    ensures now != [] && Fetched(e, p, rv, str, nb, now)
  {
    var mem, offset, left := e.body.mem, e.start, e.length.n;
    var len := if left > BUFF_SIZE then BUFF_SIZE else left;
    str := mem[offset..offset + len];
    var buf := NewHeap(str, len);
    e.body, e.length, e.start := Heap(buf), Known(len), 0;
    nb, rv, now := null, SUCCESS, [Own(str, buf, 0)];
    if left - len > 0 {
      nb := new Bucket(File(mem), Known(left - len), offset + len);
      now := now + [Plain(mem[offset + len..offset + left], left - len + 1)];
      assert p.text == str + now[1].text;
      assert now[1..] == [now[1]];
    } else {
      assert p.text == str;
    }
    PartsBytesTwo(now[0], now[|now| - 1]);
    RopeFaultOne(now[|now| - 1]);
  }

  /** The read function of the bucket's type, before what is left over is linked in. */
  method Fetch(e: Bucket, ghost p: Part)
    returns (rv: Status, str: seq<Byte>, nb: Bucket?, ghost now: seq<Part>)
    requires Holds(e, p)
    modifies e`body, e`length, e`start
    ensures now != [] && Fetched(e, p, rv, str, nb, now)
  {
    match e.body {
      case Pipe(_) => rv, str, nb, now := ReadPipe(e, p);
      case File(_) => rv, str, nb, now := ReadFile(e, p);
      case Heap(base) => rv, str, nb, now := SUCCESS, base[e.start..e.start + e.length.n], null, [p];
      case Transient(base) => rv, str, nb, now := SUCCESS, base[e.start..e.start + e.length.n], null, [p];
      case Immortal(mem) => rv, str, nb, now := SUCCESS, mem[e.start..e.start + e.length.n], null, [p];
      case Meta => rv, str, nb, now := SUCCESS, [], null, [p];
    }
    RopeFaultOne(p);
  }

  lemma LoadedCut(list: seq<Bucket>, parts: seq<Part>, stores: set<array<Byte>>, k: nat)
    requires Loaded(list, parts, stores) && k <= |list|
    ensures Loaded(list[..k], parts[..k], stores) && Loaded(list[k..], parts[k..], stores)
  {
    hide Holds;
  }

  lemma LoadedConcat(a: seq<Bucket>, ps: seq<Part>, b: seq<Bucket>, qs: seq<Part>, s: set<array<Byte>>,
                     t: set<array<Byte>>)
    requires Loaded(a, ps, s) && Loaded(b, qs, t)
    ensures Loaded(a + b, ps + qs, s + t)
  {
    hide Holds;
  }

  lemma LoadedInsert(list: seq<Bucket>, parts: seq<Part>, stores: set<array<Byte>>, k: nat, e: Bucket, p: Part)
    requires Loaded(list, parts, stores) && k <= |list| && Holds(e, p) && (p.store == null || p.store in stores)
    ensures |list| == |parts| && Loaded(list[..k] + [e] + list[k..], parts[..k] + [p] + parts[k..], stores)
  {
    hide Holds;
  }
}
