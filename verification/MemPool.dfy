/** mpool (ebot.c): slabs on one doubly linked list, the free ones in front of the busy ones. */
module MemPool {
  import opened Sequences
  import opened Dll

  /** mslab; its data are not looked at. */
  class Slab {
    var used: int
    var prev: Slab?
    var next: Slab?

    /** Zeroed memory. */
    constructor ()
      ensures used == 0 && prev == null && next == null
    {
      used, prev, next := 0, null, null;
    }
  }

  type Snap = map<Slab?, Link<Slab?>>

  ghost function SnapOf(s: set<Slab>): (h: Snap)
    reads s`prev, s`next
    ensures h.Keys == s && forall e | e in s :: h[e] == Link(e.prev, e.next)
  {
    map e: Slab? | e in s :: Link(e.prev, e.next)
  }

  // ----- the two relinkings, on snapshots

  /** mpool_get: the first element goes behind the last. */
  ghost predicate Rotated(h: Snap, k: Snap, s: seq<Slab>)
    requires |s| >= 2
  {
    && k.Keys == h.Keys && (forall e | e in s :: e in h)
    && k[s[0]] == Link(s[|s| - 1], null)
    && k[s[1]].prev == null
    && k[s[|s| - 1]].next == s[0]
    && (|s| > 2 ==> k[s[1]].next == h[s[1]].next && k[s[|s| - 1]].prev == h[s[|s| - 1]].prev)
    && forall e | e in h && e !in {s[0], s[1], s[|s| - 1]} :: k[e] == h[e]
  }

  lemma RotatedLinked(h: Snap, k: Snap, s: seq<Slab>)
    requires |s| >= 2 && Linked<Slab?>(h, s, null) && Rotated(h, k, s)
    ensures Linked<Slab?>(k, s[1..] + [s[0]], null)
  {
    hide Linked;
    LinkedAt<Slab?>(h, s, 1, null);
    var h1 := h[s[1] := h[s[1]].(prev := null)];
    assert Without<Slab?>(s, 0) == s[1..];
    Remove<Slab?>(h, h1, s, 0, null);
    Append<Slab?>(h1, k, s[1..], s[0], null);
  }

  /** mpool_put of an element that is not the first: it goes to the front. */
  ghost predicate Fronted(h: Snap, k: Snap, s: seq<Slab>, i: nat)
    requires 0 < i < |s|
  {
    && k.Keys == h.Keys && (forall e | e in s :: e in h)
    && k[s[i]] == Link(null, s[0])
    && k[s[0]] == Link(s[i], if i == 1 then Succ<Slab?>(s, 1, null) else h[s[0]].next)
    && (i > 1 ==> k[s[i - 1]] == h[s[i - 1]].(next := Succ<Slab?>(s, i, null)))
    && (i + 1 < |s| ==> k[s[i + 1]] == h[s[i + 1]].(prev := s[i - 1]))
    && forall e | e in h && e !in {s[0], s[i - 1], s[i], Succ<Slab?>(s, i, null)} :: k[e] == h[e]
  }

  lemma FrontedLinked(h: Snap, k: Snap, s: seq<Slab>, i: nat)
    requires 0 < i < |s| && Linked<Slab?>(h, s, null) && Fronted(h, k, s, i)
    ensures Linked<Slab?>(k, [s[i]] + Without(s, i), null)
  {
    hide Linked;
    var p, n := s[i - 1], Succ<Slab?>(s, i, null);
    var h1 := h[p := h[p].(next := n)];
    var h2 := if n == null then h1 else h1[n := h1[n].(prev := p)];
    LinkedAt<Slab?>(h, s, i, null);
    FrontStep(h, h2, s, i);
    var t := Without(s, i);
    assert t[0] == s[0];
    forall e | e in t && e != s[0] ensures e in s && e != s[i] {}
    PushFront<Slab?>(h2, k, t, s[i], null);
  }

  /** The ends of the list with its slab `i` in front. */
  lemma FrontEnds(s: seq<Slab>, i: nat)
    requires 0 < i < |s|
    ensures var t := [s[i]] + Without(s, i);
      |t| == |s| && t[0] == s[i] && t[|s| - 1] == if i + 1 == |s| then s[i - 1] else s[|s| - 1]
  {
  }

  lemma FrontStep(h: Snap, h2: Snap, s: seq<Slab>, i: nat)
    requires 0 < i < |s| && Linked<Slab?>(h, s, null)
    requires var p, n := s[i - 1], Succ<Slab?>(s, i, null);
      var h1 := h[p := h[p].(next := n)];
      h2 == if n == null then h1 else h1[n := h1[n].(prev := p)]
    ensures Linked<Slab?>(h2, Without(s, i), null) && s[i] !in Without(s, i)
  {
    hide Linked;
    LinkedAt<Slab?>(h, s, i, null);
    Remove<Slab?>(h, h2, s, i, null);
  }

  /** mpool_new under way: the list so far, but for the back link of its first slab. */
  ghost predicate Growing(h: Snap, s: seq<Slab>) {
    && NoDup(s)
    && forall i | 0 <= i < |s| :: s[i] in h &&
        h[s[i]].next == Succ<Slab?>(s, i, null) && (i > 0 ==> h[s[i]].prev == s[i - 1])
  }

  lemma GrowStep(h: Snap, k: Snap, s: seq<Slab>, e: Slab)
    requires Growing(h, s) && e !in s && e in k && k[e].next == First<Slab?>(s, null)
    requires forall n | n in s && n in h :: n in k && k[n] == (if n == s[0] then h[n].(prev := e) else h[n])
    ensures Growing(k, [e] + s)
  {
    var t := [e] + s;
    forall i | 0 <= i < |t|
      ensures t[i] in k && k[t[i]].next == Succ<Slab?>(t, i, null) && (i > 0 ==> k[t[i]].prev == t[i - 1])
    {
      if i > 0 { assert t[i] == s[i - 1]; }
    }
  }

  lemma GrowEnd(h: Snap, s: seq<Slab>)
    requires Growing(h, s) && s != [] && h[s[0]].prev == null
    ensures Linked<Slab?>(h, s, null)
  {
  }

  class MPool {
    var head: Slab?
    var tail: Slab?
    var slabNum: nat
    var slabUsed: nat
    ghost var slabs: set<Slab>
    /** The list. */
    ghost var order: seq<Slab>

    ghost predicate Listed()
      reads this`head, this`tail, this`order, this`slabs, this`slabNum, slabs`prev, slabs`next
    {
      && order != [] && Linked<Slab?>(SnapOf(slabs), order, null)
      && head == order[0] && tail == order[|order| - 1]
      && slabs == (set e | e in order) && slabNum == |order|
    }

    /** The number of free slabs, which are the first on the list. */
    ghost predicate Parted()
      reads this`order, this`slabs, this`slabUsed, slabs`used
    {
      && slabUsed <= |order|
      && forall i | 0 <= i < |order| :: order[i] in slabs && (order[i].used != 0 <==> i >= |order| - slabUsed)
    }

    ghost predicate Valid()
      reads this, slabs
    {
      Listed() && Parted()
    }

    /** The slabs handed out and not yet given back. */
    ghost function Held(): set<Slab>
      reads this`slabs, slabs`used
    {
      set e | e in slabs && e.used != 0
    }

    /** mpool_new: the slabs lie one behind the other in the zeroed `mem`; each goes to the front of the list. */
    constructor (mem: seq<Slab>)
      requires mem != [] && NoDup(mem) && forall e | e in mem :: e.used == 0 && e.next == null && e.prev == null
      modifies mem
      ensures Valid() && slabNum == |mem| && Held() == {} && slabs == set e | e in mem
    {
      hide Linked, SnapOf, NoDup;
      head, tail, slabUsed := null, null, 0;
      slabNum := |mem|;
      slabs := set e | e in mem;
      order := [];
      new;
      Build(mem);
    }

    method Build(mem: seq<Slab>)
      requires mem != [] && NoDup(mem) && forall e | e in mem :: e.next == null
      requires head == null && tail == null && order == [] && slabs == (set e | e in mem) && slabNum == |mem|
      modifies this`head, this`tail, this`order, slabs`prev, slabs`next
      ensures Listed() && forall e | e in order :: e in slabs
    {
      hide Growing, SnapOf, Linked, NoDup, Reversed;
      var cur := 0;
      StartGrowing(SnapOf(slabs), mem);
      while true
        invariant 0 <= cur < |mem| && Built(mem, cur)
        decreases |mem| - cur
      {
        BuildNext(mem, cur);
        cur := cur + 1;
        if cur == |mem| {
          break;
        }
      }
      BuildEnd(mem);
    }

    /** The list after `cur` turns of the loop of mpool_new. */
    ghost predicate Built(mem: seq<Slab>, cur: nat)
      reads this, slabs, mem
    {
      && |order| == cur <= |mem| && Growing(SnapOf(slabs), order) && Reversed(order, mem, cur)
      && (forall e | e in order :: e in slabs) && (forall i | cur <= i < |mem| :: mem[i].next == null)
      && head == First<Slab?>(order, null) && tail == Last<Slab?>(order, null)
    }

    method BuildNext(mem: seq<Slab>, cur: nat)
      requires Built(mem, cur) && NoDup(mem) && slabs == (set e | e in mem) && cur < |mem|
      modifies this`head, this`tail, this`order, slabs`prev, slabs`next
      ensures Built(mem, cur + 1) && mem[cur] == order[0]
      ensures mem[cur].prev == if cur + 1 < |mem| then mem[cur + 1] else null
    {
      hide Growing, SnapOf, NoDup, Reversed;
      Distinct(mem, cur);
      PushSlab(mem[cur], if cur + 1 < |mem| then mem[cur + 1] else null);
    }

    lemma BuildEnd(mem: seq<Slab>)
      requires |order| == |mem| && mem != [] && Growing(SnapOf(slabs), order) && order[0].prev == null
      requires Reversed(order, mem, |mem|) && slabs == set e | e in mem
      ensures Linked<Slab?>(SnapOf(slabs), order, null) && slabs == set e | e in order
    {
      assert forall i | 0 <= i < |mem| :: mem[i] == order[|mem| - 1 - i];
      GrowEnd(SnapOf(slabs), order);
    }

    lemma Distinct(mem: seq<Slab>, cur: nat)
      requires NoDup(mem) && cur < |mem| && Reversed(order, mem, cur)
      ensures Reversed([mem[cur]] + order, mem, cur + 1)
      ensures mem[cur] !in order && (forall i | cur < i < |mem| :: mem[i] != mem[cur] && mem[i] !in order)
    {
    }

    /** One turn of the loop of mpool_new; `behind` is the slab behind it in memory. */
    method PushSlab(slab: Slab, behind: Slab?)
      requires slab in slabs && slab !in order && slab.next == null && Growing(SnapOf(slabs), order)
      requires (forall e | e in order :: e in slabs)
      requires head == First<Slab?>(order, null) && tail == Last<Slab?>(order, null)
      modifies this`head, this`tail, this`order, slabs`prev, slab`next
      ensures order == [slab] + old(order) && Growing(SnapOf(slabs), order) && slab.prev == behind
      ensures head == slab && tail == order[|order| - 1]
    {
      hide Growing, SnapOf;
      ghost var h := SnapOf(slabs);
      if head != null {
        head.prev := slab;
        slab.next := head;
      } else {
        tail := slab;
      }
      head := slab;
      slab.prev := behind;
      GrowStep(h, SnapOf(slabs), order, slab);
      order := [slab] + order;
    }

    /** mpool_get: hands out a free slab, and fails exactly when all are out. */
    method Get() returns (s: Slab?)
      requires Valid() && slabNum >= 2
      modifies this, slabs
      ensures Valid() && slabs == old(slabs) && slabNum == old(slabNum)
      ensures s == null <==> old(Held()) == slabs
      ensures s == null ==> unchanged(this) && unchanged(slabs)
      ensures s != null ==>
        s in slabs && s !in old(Held()) && Held() == old(Held()) + {s} && slabUsed == old(slabUsed) + 1
      ensures s != null ==> old(s.used) == 0 && s.used != 0
    {
      hide Linked, SnapOf, Listed;
      Ends();
      s := head;
      if s.used != 0 {
        assert forall e | e in slabs :: e.used != 0;
        return null;
      }
      Mark(s);
      MoveToTail(s);
    }

    method Mark(s: Slab)
      requires Parted() && order != [] && s == order[0] && s.used == 0 && NoDup(order)
      modifies this`slabUsed, s`used
      ensures slabUsed == old(slabUsed) + 1 && slabUsed <= |order| && s.used != 0
      ensures forall i | 1 <= i < |order| :: order[i] in slabs && (order[i].used != 0 <==> i > |order| - slabUsed)
      ensures Held() == old(Held()) + {s} && s in slabs
    {
      s.used := 1;
      slabUsed := slabUsed + 1;
    }

    /** The ends of the list and the slab behind the first. */
    lemma Ends()
      requires Listed()
      ensures NoDup(order) && head == order[0] && slabNum == |order| && slabs == set e | e in order
      ensures tail == order[|order| - 1] && forall i | 0 <= i < |order| :: order[i] in slabs
      ensures order[0].prev == null && order[0].next == (if |order| > 1 then order[1] else null)
      ensures order[|order| - 1].next == null
    {
    }

    method MoveToTail(s: Slab)
      requires Listed() && slabNum >= 2 && s == head
      modifies this`head, this`tail, this`order, slabs`prev, slabs`next
      ensures Listed() && order == old(order)[1..] + [s]
    {
      hide Linked, SnapOf, Rotated;
      RotateLinks(s);
      order := order[1..] + [s];
    }

    method RotateLinks(s: Slab)
      requires Listed() && slabNum >= 2 && s == head
      modifies this`head, this`tail, slabs`prev, slabs`next
      ensures Linked<Slab?>(SnapOf(slabs), order[1..] + [s], null) && head == order[1] && tail == s
    {
      hide Linked;
      ghost var h := SnapOf(slabs);
      Ends();
      head := s.next;
      s.next.prev := null;
      tail.next := s;
      s.next := null;
      s.prev := tail;
      tail := s;
      RotatedLinked(h, SnapOf(slabs), order);
    }

    /** slab_used counts the slabs that are out, and slab_num all of them. */
    lemma UsedCount()
      requires Valid()
      ensures slabUsed == |Held()| && slabNum == |slabs|
    {
      hide Linked, SnapOf;
      Ends();
      var busy := order[|order| - slabUsed..];
      assert forall i | 0 <= i < |busy| :: busy[i] == order[|order| - slabUsed + i];
      forall e | e in Held() ensures e in busy {
        var i :| 0 <= i < |order| && order[i] == e;
        assert busy[i - (|order| - slabUsed)] == e;
      }
      assert Held() == set e | e in busy;
      NoDupCard(busy);
      NoDupCard(order);
    }

    /** mpool_put: takes a slab back; giving back a free one changes nothing. */
    method Put(s: Slab)
      requires Valid() && s in slabs
      modifies this, slabs
      ensures Valid() && slabs == old(slabs) && slabNum == old(slabNum) && Held() == old(Held()) - {s}
      ensures s !in old(Held()) ==> unchanged(this) && unchanged(slabs)
      ensures s in old(Held()) ==> slabUsed == old(slabUsed) - 1 && head == s
      ensures s.used == 0 && (old(s.used) == 0 <==> s !in old(Held()))
    {
      hide Linked, SnapOf, Listed, Without;
      ghost var i := Place(s);
      ghost var o := order;
      if s.used != 0 {
        slabUsed := slabUsed - 1;
      } else {
        return;
      }
      s.used := 0;
      if s.prev == null {
        InFront(o, s, i);
        return;
      }
      MoveToHead(s, i);
      InFront(o, s, i);
    }

    /** With the slab given back in front, the free ones again come first. */
    lemma InFront(o: seq<Slab>, s: Slab, i: nat)
      requires i < |o| && o[i] == s && s.used == 0 && slabUsed < |o| && i >= |o| - slabUsed - 1
      requires order == (if i == 0 then o else [s] + Without(o, i))
      requires forall j | 0 <= j < |o| :: o[j] in slabs && (j != i ==> (o[j].used != 0 <==> j >= |o| - slabUsed - 1))
      ensures Parted()
    {
      var t := [s] + Without(o, i);
      assert forall k | 0 < k < |t| :: t[k] == if k <= i then o[k - 1] else o[k];
      assert i == 0 ==> t == o;
    }

    /** Where a slab stands; the first one has no back link. */
    lemma Place(s: Slab) returns (i: nat)
      requires Valid() && s in slabs
      ensures i < |order| && order[i] == s && NoDup(order) && (i == 0 <==> s.prev == null) && head == order[0]
      ensures s.used != 0 ==> slabUsed > 0 && i >= |order| - slabUsed
    {
      i :| 0 <= i < |order| && order[i] == s;
    }

    method MoveToHead(s: Slab, ghost i: nat)
      requires Listed() && 0 < i < |order| && order[i] == s
      modifies this`head, this`tail, this`order, slabs`prev, slabs`next
      ensures Listed() && order == [s] + Without(old(order), i) && head == s
    {
      hide Linked, SnapOf, Fronted;
      FrontLinks(s, i);
      WithoutElems<Slab>(order, i);
      order := [s] + Without(order, i);
    }

    method FrontLinks(s: Slab, ghost i: nat)
      requires Listed() && 0 < i < |order| && order[i] == s
      modifies this`head, this`tail, slabs`prev, slabs`next
      ensures Linked<Slab?>(SnapOf(slabs), [s] + Without(order, i), null) && NoDup(order)
      ensures head == s && tail == ([s] + Without(order, i))[|order| - 1]
    {
      hide Linked, Without;
      ghost var h := SnapOf(slabs);
      Neighbours(i);
      FrontEnds(order, i);
      if s.next == null {
        s.prev.next := null;
        tail := s.prev;
      } else {
        s.prev.next := s.next;
        s.next.prev := s.prev;
      }
      s.prev := null;
      s.next := head;
      head.prev := s;
      head := s;
      FrontedLinked(h, SnapOf(slabs), order, i);
    }

    lemma Neighbours(i: nat)
      requires Listed() && i < |order|
      ensures NoDup(order) && (forall e | e in order :: e in slabs) && Linked<Slab?>(SnapOf(slabs), order, null)
      ensures order[i].prev == Pred<Slab?>(order, i, null) && order[i].next == Succ<Slab?>(order, i, null)
      ensures head == order[0] && tail == order[|order| - 1]
    {
    }
  }

  /** The first `n` slabs of the memory, latest first. */
  ghost predicate Reversed(s: seq<Slab>, mem: seq<Slab>, n: nat) {
    |s| == n <= |mem| && forall i | 0 <= i < n :: s[i] == mem[n - 1 - i]
  }

  lemma StartGrowing(h: Snap, mem: seq<Slab>)
    ensures Growing(h, []) && Reversed([], mem, 0)
  {
  }
}
