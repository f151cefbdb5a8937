/** Short runs of the operations as a caller would write them, among them the inputs on which the code
    does less than its caller may expect. */
module Scenarios {
  import opened Sequences
  import SearchOrder
  import HashChains
  import HashMap
  import RbTree
  import opened SplayShape
  import opened SplayCost
  import opened SplayWalk
  import opened Bits
  import Splay
  import TailQueue
  import EventLoop

  type Key = HashChains.Key

  /** A hash with two elements. */
  method TwoAdded(hash: Key -> nat, bloomBits: nat, k1: Key, k2: Key)
    returns (u: HashMap.UtHash, a: HashChains.Elem, b: HashChains.Elem)
    requires k1 != k2
    ensures u.Valid() && u.Dict() == map[k1 := a, k2 := b] && u.order == [a, b] && a.key == k1 && b.key == k2
    ensures u.tbl != null && fresh({u, u.tbl, u.tbl.buckets, a, b}) && u.elems == {a, b}
  {
    hide HashMap.UtHash.Valid;
    u := new HashMap.UtHash(hash, bloomBits);
    a := new HashChains.Elem(k1);
    b := new HashChains.Elem(k2);
    u.Add(a);
    assert u.Dict() == map[k1 := a];
    u.Add(b);
  }

  /** Two elements are added, one is deleted; lookups and the count see exactly that. */
  method AddFindDelete(hash: Key -> nat, bloomBits: nat, k1: Key, k2: Key)
    returns (before: bool, after: bool, kept: bool, count: nat)
    requires k1 != k2
    ensures before && !after && kept && count == 1
  {
    hide HashMap.UtHash.Valid, HashMap.UtHash.Dict, HashMap.DictOf, Sequences.RemovedFrom;
    var u, a, b := TwoAdded(hash, bloomBits, k1, k2);
    var e := u.Find(k1);
    before := e == a;
    u.Delete(a);
    assert u.Dict() == map[k2 := b];
    e := u.Find(k1);
    after := e != null;
    e := u.Find(k2);
    kept := e == b;
    count := u.Count();
  }

  /** SPLAY_REMOVE with a lookup key takes out the element that has the key, and returns the other one. */
  method RemoveByKey(key: int) returns (r: SearchOrder.Node?, probe: SearchOrder.Node, there: bool)
    ensures r == probe && !there
  {
    hide *;
    var s := new Splay.SplayHead();
    var elm := new SearchOrder.Node(key);
    probe := new SearchOrder.Node(key);
    r := s.Insert(elm);
    r := s.Remove(probe);
    var e := s.Find(key);
    there := e != null;
  }

  /** A splay tree filled in ascending order is a path to the left. */
  method Ascending(n: nat) returns (s: Splay.SplayHead, first: SearchOrder.Node)
    requires n > 0
    ensures fresh(s) && fresh(s.nodes) && s.Valid() && Filled(s.tree, n, first) && first in s.nodes
    ensures s.turns <= n && s.walks.all == 0 && |s.history| == n && forall i | 0 <= i < n :: s.history[i] <= n
  {
    hide Splay.SplayHead.Linked, Splay.SplayHead.Solvent, Filled, Topped, Search, Size, Elems, LeftPath, Covered,
      InsertedAt;
    s := new Splay.SplayHead();
    first := new SearchOrder.Node(0);
    OneFilled(first);
    var r := s.Insert(first);
    var i := 1;
    while i < n
      invariant 1 <= i <= n && fresh(s) && fresh(s.nodes) && s.Valid() && Filled(s.tree, i, first) && first in s.nodes
      invariant s.turns <= i && s.walks == Walks(0, 0, 0, 0) && |s.history| == i
      invariant forall j | 0 <= j < i :: s.history[j] <= n
      invariant forall e | e in s.nodes :: e.key < i
    {
      var e := new SearchOrder.Node(i);
      ghost var t := s.tree;
      FilledSearch(t, i, first);
      r := s.Insert(e);
      FilledOn(t, i, first, e);
      i := i + 1;
    }
  }

  /** `n` elements on a path to the left, the first one at its end. */
  ghost predicate Filled(t: Tree, n: nat, first: SearchOrder.Node) {
    && t.Bin? && t.r.Leaf? && t.n.key == n - 1 && Size(t) == n && LeftPath(t) == n
    && First<SearchOrder.Node?>(Elems(t), null) == first && first.key == 0
  }

  lemma OneFilled(e: SearchOrder.Node)
    ensures Search(Leaf, e.key) == 0 && Size(Leaf) == 0 && (e.key == 0 ==> Filled(Topped(Leaf, e), 1, e))
  {
  }

  lemma FilledSearch(t: Tree, n: nat, first: SearchOrder.Node)
    requires Filled(t, n, first)
    ensures Search(t, n) == 0 && Size(t) == n
  {
  }

  lemma FilledOn(t: Tree, n: nat, first: SearchOrder.Node, e: SearchOrder.Node)
    requires Filled(t, n, first) && e.key == n
    ensures Filled(Topped(t, e), n + 1, first)
  {
    assert Elems(Topped(t, e)) == Elems(t) + [e];
  }

  /** SPLAY_NEXT of the first element again and again: no more turns of the splay loop after the first
      time, yet a walk over half the tree every time. */
  method NextAgain(n: nat, m: nat) returns (s: Splay.SplayHead)
    requires n > 0
    ensures fresh(s) && s.Valid() && s.turns <= 2 * n && 2 * s.walks.all >= m * (n - 3)
    ensures |s.history| == n + m && forall i | 0 <= i < n + m :: s.history[i] <= n
  {
    hide Splay.SplayHead.Valid, Search, LeftPath, RightPath, Height, Elems, Size, Walked, NextWalk, Follows,
      Splays, Walk;
    var first, r;
    s, first := Ascending(n);
    var i := 0;
    while i < m
      invariant 0 <= i <= m && fresh(s) && fresh(s.nodes) && s.Valid() && first in s.nodes
      invariant |s.history| == n + i && forall j | 0 <= j < n + i :: s.history[j] <= n
      invariant Size(s.tree) == n && First<SearchOrder.Node?>(Elems(s.tree), null) == first
      invariant 2 * s.walks.all >= i * (n - 3)
      invariant if i == 0 then s.turns <= n && Filled(s.tree, n, first)
        else s.turns <= 2 * n && s.tree.Bin? && s.tree.n == first && 2 * NextWalk(s.tree) >= n - 3
    {
      ghost var t, before, walk := s.tree, s.turns, 0;
      s.Rooted();
      r, walk := s.Next(first);
      s.Rooted();
      if i == 0 {
        FirstWalk(t, n, first, s.tree, s.turns - before);
      } else {
        SameWalk(t, first, s.tree, s.turns - before);
      }
      OneMoreWalk(i, n - 3);
      SameSize(s, t);
      i := i + 1;
    }
  }

  lemma OneMoreWalk(i: nat, c: int)
    ensures (i + 1) * c == i * c + c
  {
  }

  lemma SameSize(s: Splay.SplayHead, t: Tree)
    requires Elems(s.tree) == Elems(t)
    ensures Size(s.tree) == Size(t)
  {
    ElemsSize(s.tree);
    ElemsSize(t);
  }

  /** The first splay for the first element halves the path, and leaves the half beside the root. */
  lemma FirstWalk(t: Tree, n: nat, first: SearchOrder.Node, t': Tree, k: nat)
    requires Filled(t, n, first) && SearchOrder.Sorted(Elems(t)) && Walked(k, t, t', first.key)
    requires t'.Bin? && t'.n == first && Elems(t') == Elems(t)
    ensures k < n && 2 * NextWalk(t') >= n - 3
  {
    FirstAt(t);
    assert t'.l.Leaf? by {
      if t'.l.Bin? {
        assert Elems(t')[|Elems(t'.l)|] == first && Elems(t')[0] == first;
      }
    }
  }

  /** The later ones change nothing. */
  lemma SameWalk(t: Tree, first: SearchOrder.Node, t': Tree, k: nat)
    requires t.Bin? && t.n == first && Walked(k, t, t', first.key)
    ensures k == 0 && t' == t
  {
  }

  /** Such walks break the bound that holds for the turns of the splay loops. */
  method NextUnpaid() returns (s: Splay.SplayHead)
    ensures fresh(s) && s.Valid() && forall i | 0 <= i < |s.history| :: s.history[i] <= 1023
    ensures Pow2(s.walks.all) > Power(16 * Power(1023 + 1, 5), |s.history|)
  {
    hide *;
    s := NextAgain(1023, 1023);
    Exceeds(s.walks.all);
  }

  lemma Exceeds(w: nat)
    requires 2 * w >= 1023 * 1020
    ensures Pow2(w) > Power(16 * Power(1023 + 1, 5), 2046)
  {
    hide Power, Price, Pow2;
    PriceIs(1023);
    PriceValue();
    PowerOfPow2(54, 2046);
    Pow2Mono(54 * 2046 + 1, w);
    Pow2Next(54 * 2046);
  }

  lemma Pow2Next(k: nat)
    ensures Pow2(k + 1) == 2 * Pow2(k)
  {
  }

  lemma PriceValue()
    ensures Price(1023) == Pow2(54)
  {
    assert Pow2(4) == 16 && Pow2(5) == 32;
    Pow2Sum(5, 5);
    Pow2Sum(10, 10);
    Pow2Sum(20, 20);
    Pow2Sum(10, 40);
    Pow2Sum(4, 50);
  }

  lemma {:induction false} PowerOfPow2(a: nat, k: nat)
    ensures Power(Pow2(a), k) == Pow2(a * k)
  {
    if k > 0 {
      PowerOfPow2(a, k - 1);
      Pow2Sum(a * (k - 1), a);
      assert a * (k - 1) + a == a * k;
    }
  }

  /** Inserting an element again gives it back, in either kind of tree. */
  method InsertTwice(key: int) returns (inSplay: bool, inRb: bool)
    ensures inSplay && inRb
  {
    hide *;
    var s := new Splay.SplayHead();
    var elm := new SearchOrder.Node(key);
    var r := s.Insert(elm);
    r := s.Insert(elm);
    inSplay := r == elm;
    var t := new RbTree.RbHead();
    var other := new SearchOrder.Node(key);
    ghost var turns;
    r, turns := t.Insert(other);
    r, turns := t.Insert(other);
    inRb := r == other;
  }

  /** A second read event on a descriptor: ebot_add_event returns 0 and does not install it. */
  method SecondReader(fd: nat) returns (ret: int, installed: bool)
    ensures ret == 0 && !installed
  {
    hide EventLoop.Ebot.Valid;
    var eb := new EventLoop.Ebot({TailQueue.EventRead, TailQueue.EventWrite}, fd + 1);
    var a := new TailQueue.Event(fd, TailQueue.EventRead, TailQueue.NoCallback);
    var b := new TailQueue.Event(fd, TailQueue.EventRead, TailQueue.NoCallback);
    eb.Adopt(a);
    eb.Adopt(b);
    ret := eb.AddEvent(a, false);
    ret := eb.AddEvent(b, false);
    installed := eb.readWaits[fd] == b;
  }

  /** Deleting an event that is not installed takes away the one of its kind that is. */
  method DeleteOther(fd: nat) returns (ret: int, before: bool, after: bool)
    ensures ret == 0 && before && !after
  {
    hide EventLoop.Ebot.Valid;
    var eb := new EventLoop.Ebot({TailQueue.EventRead, TailQueue.EventWrite}, fd + 1);
    var a := new TailQueue.Event(fd, TailQueue.EventRead, TailQueue.NoCallback);
    var b := new TailQueue.Event(fd, TailQueue.EventRead, TailQueue.NoCallback);
    eb.Adopt(a);
    eb.Adopt(b);
    ret := eb.AddEvent(a, false);
    before := eb.readWaits[fd] == a;
    ret := eb.DelEvent(b, false);
    after := eb.readWaits[fd] == a;
  }

  /** A write event added beside a read event: the descriptor is no longer edge-triggered. */
  method EdgeDropped(fd: nat) returns (before: EventLoop.Interest, after: EventLoop.Interest)
    ensures before == EventLoop.Interest(true, false, true) && after == EventLoop.Interest(true, true, false)
  {
    hide EventLoop.Ebot.ReadyOk, EventLoop.Ebot.TablesKnown;
    var eb := new EventLoop.Ebot({TailQueue.EventRead, TailQueue.EventWrite}, fd + 1);
    var r := new TailQueue.Event(fd, TailQueue.EventRead, TailQueue.NoCallback);
    var w := new TailQueue.Event(fd, TailQueue.EventWrite, TailQueue.NoCallback);
    eb.Adopt(r);
    eb.Adopt(w);
    var ret := eb.AddEvent(r, false);
    before := eb.kernel[fd];
    ret := eb.AddEvent(w, false);
    after := eb.kernel[fd];
  }

  /** The other way round nothing is lost: a read event added beside a write event, and a deletion of
      either, leave the other one waiting. */
  method BothWays(fd: nat)
    returns (both: EventLoop.Interest, one: EventLoop.Interest, kept: bool, none: bool)
    ensures both == EventLoop.Interest(true, true, true) && one == EventLoop.Interest(false, true, false)
    ensures kept && none
  {
    hide EventLoop.Ebot.Valid, EventLoop.Noted, EventLoop.Cleared;
    var eb := new EventLoop.Ebot({TailQueue.EventRead, TailQueue.EventWrite}, fd + 1);
    var r := new TailQueue.Event(fd, TailQueue.EventRead, TailQueue.NoCallback);
    var w := new TailQueue.Event(fd, TailQueue.EventWrite, TailQueue.NoCallback);
    eb.Adopt(r);
    eb.Adopt(w);
    var ret := eb.AddEvent(w, false);
    ret := eb.AddEvent(r, false);
    kept := eb.writeWaits[fd] == w;
    both := eb.kernel[fd];
    ret := eb.DelEvent(r, false);
    kept := kept && eb.writeWaits[fd] == w;
    one := eb.kernel[fd];
    ret := eb.DelEvent(w, false);
    none := fd !in eb.kernel;
  }

  /** Input on a descriptor runs the reader's callback; input and output run the reader's and then the
      writer's. */
  method Called(fd: nat)
    returns (r: TailQueue.Event, w: TailQueue.Event, first: seq<TailQueue.Event>, second: seq<TailQueue.Event>)
    ensures first == [r] && second == [r, w] && r != w
  {
    hide EventLoop.Ebot.Valid, EventLoop.Noted, EventLoop.Cleared, EventLoop.Answers;
    var eb := new EventLoop.Ebot({TailQueue.EventRead, TailQueue.EventWrite}, fd + 1);
    r := new TailQueue.Event(fd, TailQueue.EventRead, TailQueue.Callback(1));
    w := new TailQueue.Event(fd, TailQueue.EventWrite, TailQueue.Callback(2));
    eb.Adopt(r);
    eb.Adopt(w);
    var ret := eb.AddEvent(w, false);
    ret := eb.AddEvent(r, false);
    ghost var rs, ws := eb.readWaits[..], eb.writeWaits[..];
    ret, first := eb.Loop(1, false, [EventLoop.Report(fd, true, false)]);
    OneCalled(first, fd, rs, ws);
    ret, second := eb.Loop(1, false, [EventLoop.Report(fd, true, true)]);
    TwoCalled(second, fd, rs, ws);
  }

  lemma OneCalled(called: seq<TailQueue.Event>, fd: nat, r: seq<TailQueue.Event?>, w: seq<TailQueue.Event?>)
    requires fd < |r| == |w| && r[fd] != null && r[fd].cb != TailQueue.NoCallback
    requires EventLoop.Answers(called, [], [EventLoop.Report(fd, true, false)], r, w)
    ensures called == [r[fd]]
  {
    assert [EventLoop.Report(fd, true, false)][0].input;
    assert r[fd] in called && forall x | 0 <= x < |called| :: called[x] == r[fd];
    NoDupCard<TailQueue.Event?>(called);
    assert (set e: TailQueue.Event? | e in called) == {r[fd]};
  }

  lemma TwoCalled(called: seq<TailQueue.Event>, fd: nat, r: seq<TailQueue.Event?>, w: seq<TailQueue.Event?>)
    requires fd < |r| == |w| && r[fd] != null && w[fd] != null && r[fd] != w[fd]
    requires r[fd].cb != TailQueue.NoCallback && w[fd].cb != TailQueue.NoCallback
    requires EventLoop.Answers(called, [], [EventLoop.Report(fd, true, true)], r, w)
    ensures called == [r[fd], w[fd]]
  {
    assert [EventLoop.Report(fd, true, true)][0].input;
    assert r[fd] in called && w[fd] in called;
    assert forall x | 0 <= x < |called| :: called[x] == r[fd] || called[x] == w[fd];
    NoDupCard<TailQueue.Event?>(called);
    assert (set e: TailQueue.Event? | e in called) == {r[fd], w[fd]};
    assert EventLoop.ReportedFirst(called[0], called[1], [EventLoop.Report(fd, true, true)], r, w);
  }
}
