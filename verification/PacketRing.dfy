/** The rings of Handoff.dfy as what they are in ebot.c: a byte ring holding pack_data structures. */
module PacketRing {
  import opened RingQueue
  import opened Handoff

  /** sizeof(((pack_data*)0)->buf) */
  const BUF_SIZE: nat := 128

  /** What a reactor can have read: an int descriptor and at most a buffer full of bytes. */
  predicate Sized(p: Packet) { p.fd < 0x8000_0000 && |p.data| <= BUF_SIZE }

  /** The bytes of a pack_data whose buffer was zeroed before the read. */
  function Pack(p: Packet): (b: seq<Byte>)
    requires Sized(p)
    ensures |b| == PACK_SIZE
  {
    Encode(p.fd) + Encode(|p.data|) + p.data + seq(BUF_SIZE - |p.data|, _ => 0)
  }

  function Unpack(b: seq<Byte>): Packet
    requires |b| == PACK_SIZE
  {
    var len := Decode(b[LSZ..2 * LSZ]);
    Packet(Decode(b[..LSZ]), if len <= BUF_SIZE then b[2 * LSZ..2 * LSZ + len] else [])
  }

  lemma UnpackPack(p: Packet)
    requires Sized(p)
    ensures Unpack(Pack(p)) == p
  {
    var b := Pack(p);
    assert b[..LSZ] == Encode(p.fd) && b[LSZ..2 * LSZ] == Encode(|p.data|);
    DecodeEncode(p.fd);
    DecodeEncode(|p.data|);
    assert b[2 * LSZ..2 * LSZ + |p.data|] == p.data;
  }

  /** The queued byte strings are those of the packets, in order. */
  ghost predicate Carries(frames: seq<seq<Byte>>, ring: seq<Packet>) {
    |frames| == |ring| && forall i | 0 <= i < |ring| :: Sized(ring[i]) && frames[i] == Pack(ring[i])
  }

  lemma Room(frames: seq<seq<Byte>>, ring: seq<Packet>, p: Packet, rqSize: nat)
    requires Carries(frames, ring) && Sized(p)
    ensures Fits(ring, rqSize) <==> Used(frames) + Extent(Pack(p)) <= rqSize
  {
    FitsIsPush(frames, Pack(p), ring, rqSize);
  }

  class UnitRing {
    const rq: RingQ
    /** The queued packets, oldest first. */
    ghost var ring: seq<Packet>

    ghost predicate Valid()
      reads this, rq, rq.mem
    {
      rq.Valid() && Carries(rq.frames, ring)
    }

    constructor (rqSize: nat)
      requires rqSize + 1 + LSZ < 0x8000_0000
      ensures Valid() && ring == [] && rq.Capacity() == rqSize && fresh(rq) && fresh(rq.mem)
    {
      rq := new RingQ(rqSize);
      ring := [];
    }

    /** The push of a reactor is the push of its step in Handoff. */
    method Push(p: Packet) returns (ok: bool)
      requires Valid() && Sized(p)
      modifies this, rq, rq.mem
      ensures Valid() && rq.Capacity() == old(rq.Capacity())
      ensures ok <==> (|old(ring)| + 1) * 140 <= rq.Capacity()
      ensures ring == if ok then old(ring) + [p] else old(ring)
      ensures forall s: State, r: nat | r < |s.reactors| && |s.units| > 0 && s.rqSize == rq.Capacity() ::
        s.units[p.fd % |s.units|].ring == old(ring) ==> DoRead(s, r, p).units[p.fd % |s.units|].ring == ring
    {
      Room(rq.frames, ring, p, rq.size - 1);
      var out := rq.Push(Pack(p));
      ok := out == Done;
      if ok {
        ring := ring + [p];
      }
    }

    /** The pop of a worker is that of its step in Handoff. */
    method Pop() returns (got: bool, p: Packet)
      requires Valid()
      modifies this, rq, rq.mem
      ensures Valid() && rq.Capacity() == old(rq.Capacity())
      ensures got <==> old(ring) != []
      ensures if got then old(ring) == [p] + ring else ring == old(ring)
      ensures forall u: Unit | u.ring == old(ring) && u.worker == TryPop ::
        var v := DoWork(u); v.ring == ring && v.worker == if got then Handling(p) else Waiting
    {
      var data := new Byte[PACK_SIZE](_ => 0);
      var out := rq.Pop(data, PACK_SIZE);
      got := out == Done;
      p := Unpack(data[..]);
      if got {
        assert data[..] == Pack(ring[0]);
        UnpackPack(ring[0]);
        ring := ring[1..];
      }
    }
  }
}
