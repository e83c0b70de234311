// What happens to a rope when someone writes into memory that its buckets use.
module Overlaps {
  import opened Text
  import opened Buckets

  ghost function RereadPart(p: Part, a: array<Byte>, now: seq<Byte>): Part {
    if p.store == a && p.at + |p.text| <= |now| then p.(text := now[p.at..p.at + |p.text|]) else p
  }

  /** The parts of a brigade when memory a holds the bytes now. */
  ghost function Reread(parts: seq<Part>, a: array<Byte>, now: seq<Byte>): (r: seq<Part>)
    ensures |r| == |parts|
    ensures forall i :: 0 <= i < |parts| ==> r[i] == RereadPart(parts[i], a, now)
  {
    seq(|parts|, i requires 0 <= i < |parts| => RereadPart(parts[i], a, now))
  }

  /** Memory a holds mem, and the parts agree with that. */
  ghost predicate Agrees(parts: seq<Part>, a: array<Byte>, mem: seq<Byte>) {
    forall i :: 0 <= i < |parts| && parts[i].store == a ==>
      parts[i].at + |parts[i].text| <= |mem| && parts[i].text == mem[parts[i].at..parts[i].at + |parts[i].text|]
  }

  /** str written over mem from lo on. */
  ghost function Overwrite(mem: seq<Byte>, lo: nat, str: seq<Byte>): (r: seq<Byte>)
    requires lo + |str| <= |mem|
    ensures |r| == |mem| && forall k :: 0 <= k < |mem| ==> r[k] == if lo <= k < lo + |str| then str[k - lo] else mem[k]
  {
    mem[..lo] + str + mem[lo + |str|..]
  }

  /** Part p has some of the n bytes from a + lo on. */
  ghost predicate Touches(p: Part, a: array<Byte>, lo: nat, n: nat) {
    p.store == a && p.text != [] && n > 0 && p.at < lo + n && lo < p.at + |p.text|
  }

  /** Some part does. */
  ghost predicate Meets(parts: seq<Part>, a: array<Byte>, lo: nat, n: nat) {
    exists i :: 0 <= i < |parts| && Touches(parts[i], a, lo, n)
  }

  /** What is written where no bucket of a rope has its bytes does not change the rope, whatever it is. */
  lemma WriteApart(parts: seq<Part>, a: array<Byte>, mem: seq<Byte>, lo: nat, str: seq<Byte>)
    requires Agrees(parts, a, mem) && lo + |str| <= |mem| && !Meets(parts, a, lo, |str|)
    ensures Reread(parts, a, Overwrite(mem, lo, str)) == parts
  {
    var now := Overwrite(mem, lo, str);
    forall i | 0 <= i < |parts| ensures RereadPart(parts[i], a, now) == parts[i] {
      var p := parts[i];
      assert !Touches(p, a, lo, |str|);
      if p.store == a {
        assert p.text == now[p.at..p.at + |p.text|];
      }
    }
  }

  /** Memory that changes changes bytes, and nothing else. */
  lemma {:induction false} RereadSame(parts: seq<Part>, a: array<Byte>, now: seq<Byte>)
    ensures |PartsBytes(Reread(parts, a, now))| == |PartsBytes(parts)| && Todo(Reread(parts, a, now)) == Todo(parts)
  {
    if parts != [] {
      assert Reread(parts, a, now)[1..] == Reread(parts[1..], a, now);
      RereadSame(parts[1..], a, now);
    }
  }

  /** Two ropes of the same shape that differ in one part. */
  lemma {:induction false} RopeDiffers(p: seq<Part>, q: seq<Part>, i: nat)
    requires |p| == |q| && i < |p| && p[i].text != q[i].text
    requires forall k :: 0 <= k < |p| ==> |p[k].text| == |q[k].text|
    ensures PartsBytes(p) != PartsBytes(q)
  {
    var n := |p[0].text|;
    assert PartsBytes(p)[..n] == p[0].text && PartsBytes(q)[..n] == q[0].text;
    assert PartsBytes(p)[n..] == PartsBytes(p[1..]) && PartsBytes(q)[n..] == PartsBytes(q[1..]);
    if i > 0 {
      RopeDiffers(p[1..], q[1..], i - 1);
    }
  }

  /** What is written over bytes of a rope changes it, unless it happens to be the same there. */
  lemma WriteOver(parts: seq<Part>, a: array<Byte>, mem: seq<Byte>, lo: nat, str: seq<Byte>)
    requires Agrees(parts, a, mem) && lo + |str| <= |mem| && Meets(parts, a, lo, |str|)
    requires forall k :: 0 <= k < |str| ==> str[k] != mem[lo + k]
    ensures PartsBytes(Reread(parts, a, Overwrite(mem, lo, str))) != PartsBytes(parts)
  {
    hide PartsBytes;
    var now := Overwrite(mem, lo, str);
    var i :| 0 <= i < |parts| && Touches(parts[i], a, lo, |str|);
    var p := parts[i];
    var k := if p.at <= lo then lo else p.at;
    assert RereadPart(p, a, now).text[k - p.at] == now[k] == str[k - lo] != mem[k] == p.text[k - p.at];
    RopeDiffers(Reread(parts, a, now), parts, i);
  }

  /** Some bytes of the rope are in memory a. */
  ghost predicate Tied(parts: seq<Part>, a: array<Byte>) {
    exists i :: 0 <= i < |parts| && parts[i].store == a && parts[i].text != []
  }

  /** A rope outlives every change of memory a exactly if none of its bytes is there. */
  lemma Outlives(parts: seq<Part>, a: array<Byte>, mem: seq<Byte>)
    requires Agrees(parts, a, mem)
    ensures (forall now: seq<Byte> :: |now| == |mem| ==> PartsBytes(Reread(parts, a, now)) == PartsBytes(parts))
      <==> !Tied(parts, a)
  {
    hide PartsBytes;
    if Tied(parts, a) {
      var i :| 0 <= i < |parts| && parts[i].store == a && parts[i].text != [];
      var now: seq<Byte> := seq(|mem|, k requires 0 <= k < |mem| => if mem[k] == 0 then 1 else 0);
      assert Touches(parts[i], a, 0, |now|);
      WriteOver(parts, a, mem, 0, now);
      assert Overwrite(mem, 0, now) == now;
    } else {
      forall now: seq<Byte> | |now| == |mem| ensures PartsBytes(Reread(parts, a, now)) == PartsBytes(parts) {
        forall i | 0 <= i < |parts| ensures RereadPart(parts[i], a, now) == parts[i] {
          if parts[i].store == a {
            assert parts[i].text == [] == now[parts[i].at..parts[i].at];
          }
        }
        assert Reread(parts, a, now) == parts;
      }
    }
  }
}
