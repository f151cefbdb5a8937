/** ringq (ebot.c): a byte ring of length-prefixed frames against a bounded queue of byte strings. */
module RingQueue {

  type Byte = b: int | 0 <= b < 0x100

  /** sizeof(unit->length) */
  const LSZ: nat := 4

  // ----- the length header

  /** A length as the four bytes of a little-endian int. */
  function Encode(n: nat): (b: seq<Byte>)
    ensures |b| == LSZ
  {
    [n % 0x100, n / 0x100 % 0x100, n / 0x1_0000 % 0x100, n / 0x100_0000 % 0x100]
  }

  function Decode(b: seq<Byte>): nat
    requires |b| == LSZ
  {
    var i: int, j: int, k: int, l: int := b[0], b[1], b[2], b[3];
    i + j * 0x100 + k * 0x1_0000 + l * 0x100_0000
  }

  lemma DecodeEncode(n: nat)
    requires n < 0x1_0000_0000
    ensures Decode(Encode(n)) == n
  {
    var a, b := n / 0x100, n / 0x1_0000;
    assert b == a / 0x100 && n / 0x100_0000 == b / 0x100;
  }

  // ----- positions and frames

  /** `x % n` for the positions that occur: at most one turn past the end. */
  function Wrap(x: nat, n: nat): (r: nat)
    requires x < 2 * n
    ensures r < n
  {
    if x < n then x else x - n
  }

  lemma WrapIsMod(x: nat, n: nat)
    requires x < 2 * n
    ensures x % n == Wrap(x, n)
  {
  }

  /** The ring bytes a frame takes, header included. */
  function Extent(f: seq<Byte>): nat { LSZ + |f| }

  /** The ring bytes all the frames take. */
  function Used(frames: seq<seq<Byte>>): nat {
    if frames == [] then 0 else Extent(frames[0]) + Used(frames[1..])
  }

  /** The queued strings, one behind the other. */
  ghost function Concat(frames: seq<seq<Byte>>): seq<Byte> {
    if frames == [] then [] else frames[0] + Concat(frames[1..])
  }

  /** Each frame takes its bytes and four for its length. */
  lemma {:induction false} UsedIs(frames: seq<seq<Byte>>)
    ensures Used(frames) == 4 * |frames| + |Concat(frames)|
  {
    if frames != [] { UsedIs(frames[1..]); }
  }

  /** A frame is stored at `p`: the header linearly, possibly into the four bytes behind the ring;
      the data around the ring. */
  ghost predicate Stored(m: seq<Byte>, n: nat, p: nat, f: seq<Byte>) {
    && p < n && |m| == n + LSZ && Extent(f) < n
    && m[p..p + LSZ] == Encode(|f|)
    && forall k | 0 <= k < |f| :: m[Wrap(p + LSZ + k, n)] == f[k]
  }

  /** The frames are stored one behind the other from `p` on. */
  ghost predicate Holds(m: seq<Byte>, n: nat, p: nat, frames: seq<seq<Byte>>)
    decreases |frames|
  {
    frames == [] || (Stored(m, n, p, frames[0]) && Holds(m, n, Wrap(p + Extent(frames[0]), n), frames[1..]))
  }

  /** The bytes that storing `w` bytes, header included, at `t` may change. */
  ghost predicate Touched(i: nat, n: nat, t: nat, w: nat) {
    t <= i < t + LSZ || (i < n && (t <= i < t + w || t <= i + n < t + w))
  }

  /** `m'` is `m` but for a frame of extent `w` at `t`. */
  ghost predicate Wrote(m: seq<Byte>, m': seq<Byte>, n: nat, t: nat, w: nat) {
    |m'| == |m| && forall i | 0 <= i < |m| && !Touched(i, n, t, w) :: m'[i] == m[i]
  }

  /** What is written behind the frames leaves them as they are. At most one header spills behind the
      ring: a second one would have to start less than a header's length after it. */
  lemma WriteKeepsOne(m: seq<Byte>, m': seq<Byte>, n: nat, p: nat, f: seq<Byte>, s: nat,
                                         t: nat, w: nat)
    requires Stored(m, n, p, f) && Extent(f) <= s && s + w < n && w >= LSZ && t == Wrap(p + s, n)
    requires Wrote(m, m', n, t, w)
    ensures Stored(m', n, p, f)
  {
    forall i | p <= i < p + LSZ
      ensures m'[i] == m[i]
    {
      assert !Touched(i, n, t, w);
    }
    assert m'[p..p + LSZ] == m[p..p + LSZ];
    forall k | 0 <= k < |f|
      ensures m'[Wrap(p + LSZ + k, n)] == f[k]
    {
      assert !Touched(Wrap(p + LSZ + k, n), n, t, w);
    }
  }

  lemma {:induction false} WriteKeeps(m: seq<Byte>, m': seq<Byte>, n: nat, p: nat, frames: seq<seq<Byte>>,
                                      t: nat, w: nat)
    requires Holds(m, n, p, frames) && p < n && Used(frames) + w < n && w >= LSZ && t == Wrap(p + Used(frames), n)
    requires Wrote(m, m', n, t, w)
    ensures Holds(m', n, p, frames)
    decreases |frames|
  {
    if frames != [] {
      WriteKeepsOne(m, m', n, p, frames[0], Used(frames), t, w);
      WriteKeeps(m, m', n, Wrap(p + Extent(frames[0]), n), frames[1..], t, w);
    }
  }

  lemma {:induction false} HoldsAppend(m: seq<Byte>, n: nat, p: nat, frames: seq<seq<Byte>>, f: seq<Byte>)
    requires Holds(m, n, p, frames) && p < n && Used(frames) + Extent(f) < n
    requires Stored(m, n, Wrap(p + Used(frames), n), f)
    ensures Holds(m, n, p, frames + [f]) && Used(frames + [f]) == Used(frames) + Extent(f)
    decreases |frames|
  {
    hide Stored;
    if frames == [] {
      assert ([f])[1..] == [];
    } else {
      HoldsAppend(m, n, Wrap(p + Extent(frames[0]), n), frames[1..], f);
      assert (frames + [f])[1..] == frames[1..] + [f];
    }
  }

  // ----- the queue

  datatype Outcome = Done | Refused | Exit

  class RingQ {
    var head: nat
    var tail: nat
    var size: nat
    var num: nat
    const mem: array<Byte>
    /** The queued byte strings, oldest first. */
    ghost var frames: seq<seq<Byte>>

    ghost predicate Valid()
      reads this, mem
    {
      && 1 <= size && size + LSZ < 0x8000_0000 && mem.Length == size + LSZ
      && head < size && Used(frames) < size && tail == Wrap(head + Used(frames), size)
      && num == |frames| && Holds(mem[..], size, head, frames)
    }

    /** The size given to ringq_new. */
    ghost function Capacity(): nat
      requires size >= 1
      reads this
    {
      size - 1
    }

    /** ringq_new; one more byte than asked for, and room for one spilled header. */
    constructor (sz: nat)
      requires sz + 1 + LSZ < 0x8000_0000
      ensures Valid() && frames == [] && Capacity() == sz && fresh(mem)
    {
      mem := new Byte[sz + 1 + LSZ](_ => 0);
      head, tail, num := 0, 0, 0;
      size := sz + 1;
      frames := [];
    }

    /** ringq_empty: head and tail meet exactly when nothing is queued. */
    method Empty() returns (r: int)
      requires Valid()
      ensures r == if frames == [] then 0 else -1
    {
      r := if tail == head then 0 else -1;
    }

    /** ringq_full: no byte is left. */
    method Full() returns (r: int)
      requires Valid()
      ensures r == if Used(frames) == Capacity() then 0 else -1
    {
      WrapIsMod(tail + 1, size);
      r := if (tail + 1) % size == head then 0 else -1;
    }

    /** memcpy into the ring's memory. */
    method CopyIn(at: nat, item: seq<Byte>)
      requires at + |item| <= mem.Length
      modifies mem
      ensures forall i | 0 <= i < mem.Length :: mem[i] == if at <= i < at + |item| then item[i - at] else old(mem[i])
    {
      var k := 0;
      while k < |item|
        invariant 0 <= k <= |item|
        invariant forall i | 0 <= i < mem.Length :: mem[i] == if at <= i < at + k then item[i - at] else old(mem[i])
      {
        mem[at + k] := item[k];
        k := k + 1;
      }
    }

    /** memcpy out of the ring's memory. */
    method CopyOut(at: nat, n: nat, item: array<Byte>, off: nat)
      requires at + n <= mem.Length && off + n <= item.Length && item != mem
      modifies item
      ensures forall i | 0 <= i < item.Length ::
          item[i] == if off <= i < off + n then mem[at + i - off] else old(item[i])
    {
      var k := 0;
      while k < n
        invariant 0 <= k <= n
        invariant forall i | 0 <= i < item.Length ::
            item[i] == if off <= i < off + k then mem[at + i - off] else old(item[i])
      {
        item[off + k] := mem[at + k];
        k := k + 1;
      }
    }

    /** A frame has come to lie behind the others. */
    ghost predicate Appended(m: seq<Byte>, m': seq<Byte>, t: nat, t': nat, item: seq<Byte>)
      reads this`size
    {
      && t < size && Extent(item) < size
      && Stored(m', size, t, item) && Wrote(m, m', size, t, Extent(item)) && t' == Wrap(t + Extent(item), size)
    }

    /** ringq_push: succeeds exactly when the frame fits beside the queued ones, wherever they lie. */
    method Push(item: seq<Byte>) returns (r: Outcome)
      requires Valid()
      modifies this, mem
      ensures Valid() && size == old(size)
      ensures r == if Used(old(frames)) + Extent(item) <= Capacity() then Done else Refused
      ensures r == Done <==> 4 * (|old(frames)| + 1) + |Concat(old(frames))| + |item| <= Capacity()
      ensures r == Done ==> frames == old(frames) + [item]
      ensures r == Refused ==> unchanged(this) && unchanged(mem)
    {
      hide Holds, Stored, Wrote, Concat;
      UsedIs(frames);
      var full := Full();
      if full == 0 {
        return Refused;
      }
      var msize := LSZ + |item|;
      ghost var m, t := mem[..], tail;
      if head <= tail {
        var sz := size - (tail - head) - 1;
        if sz < msize {
          return Refused;
        }
        PushAhead(item, msize);
      } else {
        var sz := head - tail - 1;
        if sz < msize {
          return Refused;
        }
        PushStraight(item, msize);
      }
      num := num + 1;
      PushKeeps(m, mem[..], t, item);
      frames := frames + [item];
      return Done;
    }

    /** The frame ends before the end of the ring. */
    method PushStraight(item: seq<Byte>, msize: nat)
      requires mem.Length == size + LSZ && msize == Extent(item) && tail + msize < size
      modifies mem, `tail
      ensures Appended(old(mem[..]), mem[..], old(tail), tail, item)
    {
      CopyIn(tail, Encode(|item|));
      CopyIn(tail + LSZ, item);
      WrapIsMod(tail + msize, size);
      tail := (tail + msize) % size;
    }

    /** The three ways to place a frame when the free bytes reach the end of the ring. */
    method PushAhead(item: seq<Byte>, msize: nat)
      requires mem.Length == size + LSZ && msize == Extent(item) && tail < size && msize < size
      modifies mem, `tail
      ensures Appended(old(mem[..]), mem[..], old(tail), tail, item)
    {
      var m := size - tail;
      if msize < m {
        PushStraight(item, msize);
      } else if LSZ < m {
        PushSplit(item, m);
      } else {
        PushSpilled(item, m);
      }
    }

    /** The data go around the end of the ring. */
    method PushSplit(item: seq<Byte>, m: nat)
      requires mem.Length == size + LSZ && tail < size && Extent(item) < size && m == size - tail
      requires LSZ < m <= Extent(item)
      modifies mem, `tail
      ensures Appended(old(mem[..]), mem[..], old(tail), tail, item)
    {
      CopyIn(tail, Encode(|item|));
      CopyIn(tail + LSZ, item[..m - LSZ]);
      WrapIsMod(tail + m, size);
      tail := (tail + m) % size;
      CopyIn(tail, item[m - LSZ..]);
      WrapIsMod(tail + |item| - (m - LSZ), size);
      tail := (tail + |item| - (m - LSZ)) % size;
    }

    /** The header reaches or passes the end of the ring; what spills over stays behind the ring. */
    method PushSpilled(item: seq<Byte>, m: nat)
      requires mem.Length == size + LSZ && tail < size && Extent(item) < size && m == size - tail <= LSZ
      modifies mem, `tail
      ensures Appended(old(mem[..]), mem[..], old(tail), tail, item)
    {
      CopyIn(tail, Encode(|item|));
      WrapIsMod(tail + LSZ, size);
      tail := (tail + LSZ) % size;
      CopyIn(tail, item);
      WrapIsMod(tail + |item|, size);
      tail := (tail + |item|) % size;
    }

    lemma PushKeeps(m: seq<Byte>, m': seq<Byte>, t: nat, item: seq<Byte>)
      requires head < size && Used(frames) + Extent(item) < size && t == Wrap(head + Used(frames), size)
      requires Holds(m, size, head, frames) && Appended(m, m', t, tail, item)
      ensures Holds(m', size, head, frames + [item]) && Used(frames + [item]) == Used(frames) + Extent(item)
      ensures tail == Wrap(head + Used(frames + [item]), size)
    {
      hide Holds, Stored, Wrote;
      WriteKeeps(m, m', size, head, frames, t, Extent(item));
      HoldsAppend(m', size, head, frames, item);
    }

    // ----- ringq_pop

    /** ringq_pop with the size of the oldest string: hands it out; its fatal exits are never taken. */
    method Pop(item: array<Byte>, itemSize: nat) returns (r: Outcome)
      requires Valid() && item != mem && itemSize <= item.Length
      requires frames != [] ==> itemSize == |frames[0]|
      modifies this, item
      ensures Valid() && size == old(size)
      ensures r == if old(frames) == [] then Refused else Done
      ensures r == Refused ==> unchanged(this) && unchanged(item)
      ensures r == Done ==> frames == old(frames)[1..]
      ensures r == Done ==> item[..] == old(frames)[0] + old(item[..])[itemSize..]
    {
      hide Wrote;
      var empty := Empty();
      if empty == 0 {
        return Refused;
      }
      ghost var f := frames[0];
      var length := Decode(mem[head..head + LSZ]);
      DecodeEncode(|f|);
      var msize := length + LSZ;
      if tail <= head {
        var sz := size - (head - tail);
        if sz < msize {
          return Exit;
        }
        PopAhead(item, itemSize, length, msize, f);
      } else {
        var sz := tail - head;
        if sz < msize {
          return Exit;
        }
        PopStraight(item, itemSize, msize, f);
      }
      num := num - 1;
      frames := frames[1..];
      return Done;
    }

    method PopStraight(item: array<Byte>, itemSize: nat, msize: nat, ghost f: seq<Byte>)
      requires Stored(mem[..], size, head, f) && item != mem && itemSize == |f| <= item.Length && msize == Extent(f)
      requires head + msize < size
      modifies `head, item
      ensures item[..] == f + old(item[..])[itemSize..] && head == Wrap(old(head) + msize, size)
    {
      CopyOut(head + LSZ, itemSize, item, 0);
      WrapIsMod(head + msize, size);
      head := (head + msize) % size;
    }

    method PopAhead(item: array<Byte>, itemSize: nat, length: nat, msize: nat, ghost f: seq<Byte>)
      requires Stored(mem[..], size, head, f) && item != mem && itemSize == length == |f| <= item.Length
      requires msize == Extent(f)
      modifies `head, item
      ensures item[..] == f + old(item[..])[itemSize..] && head == Wrap(old(head) + msize, size)
    {
      var m := size - head;
      if msize < m {
        PopStraight(item, itemSize, msize, f);
      } else if LSZ < m {
        PopSplit(item, length, m, f);
      } else {
        WrapIsMod(head + LSZ, size);
        head := (head + LSZ) % size;
        CopyOut(head, itemSize, item, 0);
        WrapIsMod(head + length, size);
        head := (head + length) % size;
      }
    }

    method PopSplit(item: array<Byte>, length: nat, m: nat, ghost f: seq<Byte>)
      requires Stored(mem[..], size, head, f) && item != mem && length == |f| <= item.Length
      requires m == size - head && LSZ < m <= Extent(f)
      modifies `head, item
      ensures item[..] == f + old(item[..])[length..] && head == Wrap(old(head) + Extent(f), size)
    {
      CopyOut(head + LSZ, m - LSZ, item, 0);
      WrapIsMod(head + m, size);
      head := (head + m) % size;
      CopyOut(head, length - (m - LSZ), item, m - LSZ);
      WrapIsMod(head + length - (m - LSZ), size);
      head := (head + length - (m - LSZ)) % size;
    }
  }
}
