/** TAILQ (sys/queue.h): a tail queue whose back links are addresses of forward links, as a sequence. */
module TailQueue {
  import opened Sequences

  datatype Kind = EventRead | EventWrite

  datatype Callback = NoCallback | Callback(id: int)

  /** The address of an `Event?` variable: a head's tqh_first or an element's tqe_next. */
  datatype Addr = NoAddr | FirstOf(q: TailQ) | NextOf(e: Event)

  /** struct event (ebot.c), the element type, with its TAILQ_ENTRY. */
  class Event {
    const fd: nat
    const kind: Kind
    const cb: Callback
    var queued: int
    var next: Event?
    var prev: Addr

    /** event_read and event_write */
    constructor (fd: nat, kind: Kind, cb: Callback)
      ensures this.fd == fd && this.kind == kind && this.cb == cb && queued == 0
    {
      this.fd, this.kind, this.cb := fd, kind, cb;
      queued, next, prev := 0, null, NoAddr;
    }
  }

  // ----- snapshots of the links

  datatype Cell = Cell(next: Event?, prev: Addr)

  /** A head and the entries of some elements. */
  datatype Snap = Snap(first: Event?, last: Addr, cells: map<Event, Cell>)

  ghost function ElemAt(s: seq<Event>, i: nat): Event? { if i < |s| then s[i] else null }

  /** The address of the forward link that leads to position `i`. */
  ghost function AddrOf(q: TailQ, s: seq<Event>, i: nat): Addr
    requires i <= |s|
  {
    if i == 0 then FirstOf(q) else NextOf(s[i - 1])
  }

  /** The links spell out `s`: forward links lead through it, back links are the addresses of the
      forward links that lead to their element, and the head's last is that of the final null link. */
  ghost predicate Spells(q: TailQ, h: Snap, s: seq<Event>) {
    && NoDup(s)
    && h.first == ElemAt(s, 0) && h.last == AddrOf(q, s, |s|)
    && forall i | 0 <= i < |s| :: s[i] in h.cells && h.cells[s[i]] == Cell(ElemAt(s, i + 1), AddrOf(q, s, i))
  }

  /** `s` with `mid` in place of the elements from `i` up to `j`. */
  ghost function Replaced(s: seq<Event>, i: nat, j: nat, mid: seq<Event>): seq<Event>
    requires i <= j <= |s|
  {
    s[..i] + mid + s[j..]
  }

  /** How the links must have changed when at most one element came in place of those from `i` up to `j`. */
  ghost predicate Spliced(q: TailQ, h: Snap, k: Snap, s: seq<Event>, i: nat, j: nat, mid: seq<Event>)
    requires i <= j <= |s|
  {
    var inNext := if mid == [] then ElemAt(s, j) else mid[0];
    var inPrev := if mid == [] then AddrOf(q, s, i) else NextOf(mid[0]);
    && |mid| <= 1
    && (forall e | e in h.cells && e !in mid :: e in k.cells && k.cells[e] == Cell(
          if i > 0 && e == s[i - 1] then inNext else h.cells[e].next,
          if j < |s| && e == s[j] then inPrev else h.cells[e].prev))
    && (mid != [] ==> mid[0] in k.cells && k.cells[mid[0]] == Cell(ElemAt(s, j), AddrOf(q, s, i)))
    && k.first == (if i > 0 then h.first else inNext)
    && k.last == (if j < |s| then h.last else inPrev)
  }

  lemma SpellsAt(q: TailQ, h: Snap, s: seq<Event>, p: nat)
    requires Spells(q, h, s) && p < |s|
    ensures s[p] in h.cells && h.cells[s[p]] == Cell(ElemAt(s, p + 1), AddrOf(q, s, p)) && NoDup(s)
  {
  }

  /** An element before or behind the change. */
  lemma SplicedOld(q: TailQ, h: Snap, k: Snap, s: seq<Event>, i: nat, j: nat,
                                      mid: seq<Event>, p: nat)
    requires Spells(q, h, s) && i <= j <= |s| && Spliced(q, h, k, s, i, j, mid) && forall e | e in mid :: e !in s
    requires p < i || j <= p < |s|
    ensures var t, p' := Replaced(s, i, j, mid), if p < i then p else p - j + i + |mid|;
      p' < |t| && t[p'] == s[p] && s[p] in k.cells && k.cells[s[p]] == Cell(ElemAt(t, p' + 1), AddrOf(q, t, p'))
  {
    hide Spells;
    SpellsAt(q, h, s, p);
  }

  lemma SplicedSpells(q: TailQ, h: Snap, k: Snap, s: seq<Event>, i: nat, j: nat, mid: seq<Event>)
    requires Spells(q, h, s) && i <= j <= |s| && Spliced(q, h, k, s, i, j, mid) && forall e | e in mid :: e !in s
    ensures Spells(q, k, Replaced(s, i, j, mid))
  {
    hide Spells, Spliced;
    var t := Replaced(s, i, j, mid);
    forall p | 0 <= p < |t|
      ensures t[p] in k.cells && k.cells[t[p]] == Cell(ElemAt(t, p + 1), AddrOf(q, t, p))
    {
      if p < i {
        SplicedOld(q, h, k, s, i, j, mid, p);
      } else if p >= i + |mid| {
        SplicedOld(q, h, k, s, i, j, mid, p - i - |mid| + j);
      } else {
        SplicedNew(q, h, k, s, i, j, mid);
      }
    }
    SplicedEnds(q, h, k, s, i, j, mid);
    SpellsIntro(q, k, t);
  }

  lemma SplicedNew(q: TailQ, h: Snap, k: Snap, s: seq<Event>, i: nat, j: nat, mid: seq<Event>)
    requires i <= j <= |s| && Spliced(q, h, k, s, i, j, mid) && mid != []
    ensures var t := Replaced(s, i, j, mid);
      |mid| == 1 && t[i] == mid[0] && t[i] in k.cells && k.cells[t[i]] == Cell(ElemAt(t, i + 1), AddrOf(q, t, i))
  {
  }

  lemma SpellsEnds(q: TailQ, h: Snap, s: seq<Event>)
    requires Spells(q, h, s)
    ensures NoDup(s) && h.first == ElemAt(s, 0) && h.last == AddrOf(q, s, |s|)
  {
  }

  lemma SplicedEnds(q: TailQ, h: Snap, k: Snap, s: seq<Event>, i: nat, j: nat, mid: seq<Event>)
    requires Spells(q, h, s) && i <= j <= |s| && Spliced(q, h, k, s, i, j, mid) && forall e | e in mid :: e !in s
    ensures var t := Replaced(s, i, j, mid); NoDup(t) && k.first == ElemAt(t, 0) && k.last == AddrOf(q, t, |t|)
  {
    hide Spells, NoDup;
    SpellsEnds(q, h, s);
    ReplacedDistinct(s, i, j, mid);
  }

  lemma ReplacedDistinct(s: seq<Event>, i: nat, j: nat, mid: seq<Event>)
    requires i <= j <= |s| && |mid| <= 1 && NoDup(s) && forall e | e in mid :: e !in s
    ensures NoDup(Replaced(s, i, j, mid))
  {
    var t := Replaced(s, i, j, mid);
    assert forall p | 0 <= p < |t| ::
      (p < i && t[p] == s[p]) || (i <= p < i + |mid| && t[p] == mid[0]) ||
      (i + |mid| <= p && t[p] == s[p - i - |mid| + j]);
    if mid != [] {
      assert mid[0] in mid && forall p | 0 <= p < |s| :: s[p] != mid[0];
    }
  }

  lemma SpellsIntro(q: TailQ, k: Snap, t: seq<Event>)
    requires NoDup(t) && k.first == ElemAt(t, 0) && k.last == AddrOf(q, t, |t|)
    requires forall p | 0 <= p < |t| :: t[p] in k.cells && k.cells[t[p]] == Cell(ElemAt(t, p + 1), AddrOf(q, t, p))
    ensures Spells(q, k, t)
  {
  }

  class TailQ {
    var first: Event?
    var last: Addr
    ghost var elems: set<Event>
    /** The queued elements in order. */
    ghost var contents: seq<Event>

    ghost function SnapOf(s: set<Event>): (h: Snap)
      reads this`first, this`last, s`next, s`prev
      ensures h.first == first && h.last == last && h.cells.Keys == s
      ensures forall e | e in s :: h.cells[e] == Cell(e.next, e.prev)
    {
      Snap(first, last, map e | e in s :: Cell(e.next, e.prev))
    }

    ghost predicate Valid()
      reads this, elems`next, elems`prev
    {
      elems == (set e | e in contents) && Spells(this, SnapOf(elems), contents)
    }

    /** TAILQ_INIT */
    constructor ()
      ensures Valid() && contents == []
    {
      first, last := null, FirstOf(this);
      elems, contents := {}, [];
    }

    /** *a = v */
    method Put(a: Addr, v: Event?, ghost s: set<Event>)
      requires a == FirstOf(this) || (a.NextOf? && a.e in s)
      modifies this`first, s`next
      ensures first == if a.FirstOf? then v else old(first)
      ensures forall e | e in s :: e.next == if a == NextOf(e) then v else old(e.next)
    {
      match a
      case FirstOf(q) => q.first := v;
      case NextOf(e) => e.next := v;
    }

    /** The links of the element at `p`, the head's, and that the neighbours are among the elements. */
    lemma Around(p: nat)
      requires Valid() && p <= |contents|
      ensures NoDup(contents) && first == ElemAt(contents, 0) && last == AddrOf(this, contents, |contents|)
      ensures p < |contents| ==>
        contents[p].next == ElemAt(contents, p + 1) && contents[p].prev == AddrOf(this, contents, p)
      ensures forall e | e in contents :: e in elems
    {
      hide Spells;
      SpellsEnds(this, SnapOf(elems), contents);
      if p < |contents| { SpellsAt(this, SnapOf(elems), contents, p); }
    }

    /** The queue after a change of the links. */
    ghost method Commit(h: Snap, i: nat, j: nat, mid: seq<Event>, s: set<Event>)
      requires Spells(this, h, contents) && i <= j <= |contents| && Spliced(this, h, SnapOf(s), contents, i, j, mid)
      requires s == elems + (set e | e in mid) && elems == (set e | e in contents)
      requires forall e | e in mid :: e !in contents
      modifies this`contents, this`elems
      ensures Valid() && contents == Replaced(old(contents), i, j, mid)
    {
      hide Spells, Spliced;
      SplicedSpells(this, h, SnapOf(s), contents, i, j, mid);
      contents := Replaced(contents, i, j, mid);
      elems := set e | e in contents;
      KeepCells(s, elems, contents);
    }

    lemma KeepCells(s: set<Event>, s': set<Event>, c: seq<Event>)
      requires Spells(this, SnapOf(s), c) && s' <= s && forall e | e in c :: e in s'
      ensures Spells(this, SnapOf(s'), c)
    {
    }

    // ----- insertion

    /** TAILQ_INSERT_TAIL */
    method InsertTail(elm: Event)
      requires Valid() && elm !in contents
      modifies this, elems`next, elm`next, elm`prev
      ensures Valid() && contents == old(contents) + [elm]
    {
      hide Spells, Spliced;
      ghost var s, h, n := elems + {elm}, SnapOf(elems), |contents|;
      LinkTail(elm, s);
      Commit(h, n, n, [elm], s);
    }

    method LinkTail(elm: Event, ghost s: set<Event>)
      requires Valid() && elm !in contents && s == elems + {elm}
      modifies this`first, this`last, elems`next, elm`next, elm`prev
      ensures Spliced(this, old(SnapOf(elems)), SnapOf(s), contents, |contents|, |contents|, [elm])
    {
      hide Spells;
      Around(|contents|);
      elm.next := null;
      elm.prev := last;
      Put(last, elm, s);
      last := NextOf(elm);
    }

    /** TAILQ_INSERT_HEAD */
    method InsertHead(elm: Event)
      requires Valid() && elm !in contents
      modifies this, elems`prev, elm`next, elm`prev
      ensures Valid() && contents == [elm] + old(contents)
    {
      hide Spells, Spliced;
      ghost var s, h := elems + {elm}, SnapOf(elems);
      LinkHead(elm, s);
      Commit(h, 0, 0, [elm], s);
    }

    method LinkHead(elm: Event, ghost s: set<Event>)
      requires Valid() && elm !in contents && s == elems + {elm}
      modifies this`first, this`last, elems`prev, elm`next, elm`prev
      ensures Spliced(this, old(SnapOf(elems)), SnapOf(s), contents, 0, 0, [elm])
    {
      hide Spells;
      Around(0);
      elm.next := first;
      if elm.next != null {
        first.prev := NextOf(elm);
      } else {
        last := NextOf(elm);
      }
      first := elm;
      elm.prev := FirstOf(this);
    }

    /** Where a queued element stands. */
    lemma Find(elm: Event) returns (p: nat)
      requires elm in contents
      ensures p < |contents| && contents[p] == elm
    {
      p :| 0 <= p < |contents| && contents[p] == elm;
    }

    /** TAILQ_INSERT_AFTER */
    method InsertAfter(listelm: Event, elm: Event) returns (ghost p: nat)
      requires Valid() && listelm in contents && elm !in contents
      modifies this, elems`next, elems`prev, elm`next, elm`prev
      ensures Valid() && p < |old(contents)| && old(contents)[p] == listelm
      ensures contents == old(contents)[..p + 1] + [elm] + old(contents)[p + 1..]
    {
      hide Spells, Spliced;
      p := Find(listelm);
      ghost var s, h := elems + {elm}, SnapOf(elems);
      LinkAfter(listelm, elm, p, s);
      Commit(h, p + 1, p + 1, [elm], s);
    }

    method LinkAfter(listelm: Event, elm: Event, ghost p: nat, ghost s: set<Event>)
      requires Valid() && p < |contents| && contents[p] == listelm && elm !in contents && s == elems + {elm}
      modifies this`last, elems`next, elems`prev, elm`next, elm`prev
      ensures Spliced(this, old(SnapOf(elems)), SnapOf(s), contents, p + 1, p + 1, [elm])
    {
      hide Spells;
      Around(p);
      elm.next := listelm.next;
      if elm.next != null {
        elm.next.prev := NextOf(elm);
      } else {
        last := NextOf(elm);
      }
      listelm.next := elm;
      elm.prev := NextOf(listelm);
    }

    /** TAILQ_INSERT_BEFORE, which needs no head. */
    method InsertBefore(listelm: Event, elm: Event) returns (ghost p: nat)
      requires Valid() && listelm in contents && elm !in contents
      modifies this, elems`next, elems`prev, elm`next, elm`prev
      ensures Valid() && p < |old(contents)| && old(contents)[p] == listelm
      ensures contents == old(contents)[..p] + [elm] + old(contents)[p..]
    {
      hide Spells, Spliced;
      p := Find(listelm);
      ghost var s, h := elems + {elm}, SnapOf(elems);
      LinkBefore(listelm, elm, p, s);
      Commit(h, p, p, [elm], s);
    }

    /** The links at `p`, and that the neighbours and a new element are different objects. */
    lemma Apart(p: nat, elm: Event)
      requires Valid() && p < |contents| && elm !in contents
      ensures first == ElemAt(contents, 0) && last == AddrOf(this, contents, |contents|)
      ensures contents[p].next == ElemAt(contents, p + 1) && contents[p].prev == AddrOf(this, contents, p)
      ensures contents[p] in elems && elm !in elems
      ensures (p > 0 ==> contents[p - 1] in elems && contents[p - 1] != contents[p])
      ensures p + 1 < |contents| ==> contents[p + 1] in elems && contents[p + 1] != contents[p]
    {
      hide Spells;
      Around(p);
    }

    method LinkBefore(listelm: Event, elm: Event, ghost p: nat, ghost s: set<Event>)
      requires Valid() && p < |contents| && contents[p] == listelm && elm !in contents && s == elems + {elm}
      modifies this`first, elems`next, elems`prev, elm`next, elm`prev
      ensures Spliced(this, old(SnapOf(elems)), SnapOf(s), contents, p, p, [elm])
    {
      hide Spells, NoDup;
      Apart(p, elm);
      elm.prev := listelm.prev;
      elm.next := listelm;
      Put(listelm.prev, elm, s);
      listelm.prev := NextOf(elm);
    }

    // ----- removal and replacement

    /** TAILQ_REMOVE */
    method Remove(elm: Event) returns (ghost p: nat)
      requires Valid() && elm in contents
      modifies this, elems`next, elems`prev
      ensures Valid() && p < |old(contents)| && old(contents)[p] == elm
      ensures contents == old(contents)[..p] + old(contents)[p + 1..]
    {
      hide Spells, Spliced;
      p := Find(elm);
      ghost var h := SnapOf(elems);
      Unlink(elm, p);
      Commit(h, p, p + 1, [], elems);
    }

    method Unlink(elm: Event, ghost p: nat)
      requires Valid() && p < |contents| && contents[p] == elm
      modifies this`first, this`last, elems`next, elems`prev
      ensures Spliced(this, old(SnapOf(elems)), SnapOf(elems), contents, p, p + 1, [])
    {
      hide Spells;
      Around(p);
      if elm.next != null {
        elm.next.prev := elm.prev;
      } else {
        last := elm.prev;
      }
      Put(elm.prev, elm.next, elems);
    }

    /** TAILQ_REPLACE */
    method Replace(elm: Event, elm2: Event) returns (ghost p: nat)
      requires Valid() && elm in contents && elm2 !in contents
      modifies this, elems`next, elems`prev, elm2`next, elm2`prev
      ensures Valid() && p < |old(contents)| && old(contents)[p] == elm
      ensures contents == old(contents)[p := elm2]
    {
      hide Spells, Spliced;
      p := Find(elm);
      ghost var s, h := elems + {elm2}, SnapOf(elems);
      LinkInstead(elm, elm2, p, s);
      Commit(h, p, p + 1, [elm2], s);
    }

    method LinkInstead(elm: Event, elm2: Event, ghost p: nat, ghost s: set<Event>)
      requires Valid() && p < |contents| && contents[p] == elm && elm2 !in contents && s == elems + {elm2}
      modifies this`first, this`last, elems`next, elems`prev, elm2`next, elm2`prev
      ensures Spliced(this, old(SnapOf(elems)), SnapOf(s), contents, p, p + 1, [elm2])
    {
      hide Spells;
      Around(p);
      elm2.next := elm.next;
      if elm2.next != null {
        elm2.next.prev := NextOf(elm2);
      } else {
        last := NextOf(elm2);
      }
      elm2.prev := elm.prev;
      Put(elm2.prev, elm2, s);
    }

    // ----- access

    /** *a */
    function Get(a: Addr): Event?
      requires a != NoAddr
      reads match a case FirstOf(q) => {q} case NextOf(e) => {e} case NoAddr => {}
    {
      match a
      case FirstOf(q) => q.first
      case NextOf(e) => e.next
    }

    /** The word behind the one at `a`: a head's last, or an element's back link. */
    function Behind(a: Addr): Addr
      requires a != NoAddr
      reads match a case FirstOf(q) => {q} case NextOf(e) => {e} case NoAddr => {}
    {
      match a
      case FirstOf(q) => q.last
      case NextOf(e) => e.prev
    }

    /** TAILQ_EMPTY */
    method Empty() returns (b: bool)
      requires Valid()
      ensures b <==> contents == []
    {
      Around(0);
      b := first == null;
    }

    /** TAILQ_LAST, which reads an element's entry as if it were a head. */
    method Last() returns (r: Event?)
      requires Valid()
      ensures r == if contents == [] then null else contents[|contents| - 1]
    {
      hide Spells;
      Around(|contents|);
      if contents != [] { Around(|contents| - 1); }
      if |contents| > 1 { Around(|contents| - 2); }
      r := Get(Behind(last));
    }

    /** TAILQ_PREV */
    method Prev(elm: Event, ghost p: nat) returns (r: Event?)
      requires Valid() && p < |contents| && contents[p] == elm
      ensures r == if p == 0 then null else contents[p - 1]
    {
      hide Spells;
      Around(p);
      Around(|contents| - 1);
      if p > 0 { Around(p - 1); }
      if p > 1 { Around(p - 2); }
      r := Get(Behind(elm.prev));
    }

    /** TAILQ_FOREACH */
    method Foreach() returns (visited: seq<Event>)
      requires Valid()
      ensures visited == contents
    {
      hide Spells;
      Around(0);
      visited := [];
      var e := first;
      while e != null
        invariant |visited| <= |contents| && visited == contents[..|visited|] && e == ElemAt(contents, |visited|)
        decreases |contents| - |visited|
      {
        Around(|visited|);
        visited := visited + [e];
        e := e.next;
      }
    }
  }
}
