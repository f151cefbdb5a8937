/** How far the loops of a splay tree walk: a splay halves the way to the key it seeks and leaves what it
    passed beside the root. This decides when the walk of SPLAY_NEXT to the leftmost node is paid for. */
module SplayWalk {
  import opened Sequences
  import opened SearchOrder
  import opened SplayShape
  import opened SplayCost

  /** The links a search for the key follows. */
  ghost function Search(t: Tree, key: int): nat {
    if t.Leaf? || t.n.key == key then 0
    else if key < t.n.key then if t.l.Leaf? then 0 else 1 + Search(t.l, key)
    else if t.r.Leaf? then 0 else 1 + Search(t.r, key)
  }

  ghost function Height(t: Tree): nat {
    if t.Leaf? then 0 else 1 + if Height(t.l) < Height(t.r) then Height(t.r) else Height(t.l)
  }

  /** The nodes on the way to the first (last) node. */
  ghost function LeftPath(t: Tree): nat { if t.Leaf? then 0 else 1 + LeftPath(t.l) }
  ghost function RightPath(t: Tree): nat { if t.Leaf? then 0 else 1 + RightPath(t.r) }

  ghost function Links(s: Spine): nat { if s.End? then 0 else 1 + Links(s.out) }

  lemma {:induction false} SearchHeight(t: Tree, key: int)
    ensures t.Bin? ==> Search(t, key) < Height(t)
  {
    if t.Bin? {
      SearchHeight(t.l, key);
      SearchHeight(t.r, key);
    }
  }

  lemma {:induction false} LeftPathHeight(t: Tree)
    ensures LeftPath(t) <= Height(t)
  {
    if t.Bin? { LeftPathHeight(t.l); }
  }

  lemma {:induction false} LPlugPath(s: Spine, t: Tree)
    ensures RightPath(LPlug(s, t)) == Links(s) + RightPath(t)
  {
    if s.Step? { LPlugPath(s.out, Bin(s.sub, s.n, t)); }
  }

  lemma {:induction false} RPlugPath(s: Spine, t: Tree)
    ensures LeftPath(RPlug(s, t)) == Links(s) + LeftPath(t)
  {
    if s.Step? { RPlugPath(s.out, Bin(t, s.n, s.sub)); }
  }

  // ----- a splay

  /** What `k` turns of a splay of `t` for the key have to do with its result: they follow at most two
      links each, and each leaves a link beside the root, but for one that finds nothing below it. */
  ghost predicate Walked(k: nat, t: Tree, t': Tree, key: int) {
    && t'.Bin? && Search(t, key) <= 2 * k
    && k <= Search(t, key) + 1 && k <= RightPath(t'.l) + LeftPath(t'.r) + 1
    && (t'.n.key == key ==> k <= Search(t, key) && k <= RightPath(t'.l) + LeftPath(t'.r))
    && (Search(t, key) == 0 ==> t' == t)
  }

  /** The same between two turns, and at the end. */
  ghost predicate Going(k: nat, t: Tree, l: Spine, m: Tree, r: Spine, key: int) {
    && m.Bin? && k + Search(m, key) <= Search(t, key) <= 2 * k + Search(m, key)
    && Links(l) + Links(r) == k && (k == 0 ==> l.End? && r.End? && m == t)
  }

  ghost predicate Halted(k: nat, t: Tree, l: Spine, m: Tree, r: Spine, key: int) {
    && m.Bin? && Search(t, key) <= 2 * k && k <= Search(t, key) + 1 && k <= Links(l) + Links(r) + 1
    && (m.n.key == key ==> k <= Search(t, key) && k <= Links(l) + Links(r))
    && (Search(t, key) == 0 ==> l.End? && r.End? && m == t)
  }

  lemma GoesLeft(k: nat, t: Tree, l: Spine, m: Tree, r: Spine, key: int, stop: bool, m': Tree, r': Spine)
    requires Going(k, t, l, m, r, key) && key < m.n.key && WentLeft(key, m, r, stop, m', r') && m'.Bin?
    ensures if stop then Halted(k + 1, t, l, m', r', key) else Going(k + 1, t, l, m', r', key)
  {
    if m.l.Bin? && key < m.l.n.key {
      assert Search(m.l, key) == if m.l.l.Leaf? then 0 else 1 + Search(m.l.l, key);
    }
    assert Search(m, key) == if m.l.Leaf? then 0 else 1 + Search(m.l, key);
  }

  lemma GoesRight(k: nat, t: Tree, l: Spine, m: Tree, r: Spine, key: int, stop: bool, l': Spine, m': Tree)
    requires Going(k, t, l, m, r, key) && m.n.key < key && WentRight(key, l, m, stop, l', m') && m'.Bin?
    ensures if stop then Halted(k + 1, t, l', m', r, key) else Going(k + 1, t, l', m', r, key)
  {
    if m.r.Bin? && m.r.n.key < key {
      assert Search(m.r, key) == if m.r.r.Leaf? then 0 else 1 + Search(m.r.r, key);
    }
    assert Search(m, key) == if m.r.Leaf? then 0 else 1 + Search(m.r, key);
  }

  lemma GoesNoFurther(k: nat, t: Tree, l: Spine, m: Tree, r: Spine, key: int)
    requires Going(k, t, l, m, r, key) && m.n.key == key
    ensures Halted(k, t, l, m, r, key)
  {
  }

  lemma HaltedJoined(k: nat, t: Tree, l: Spine, m: Tree, r: Spine, key: int)
    requires Halted(k, t, l, m, r, key)
    ensures Walked(k, t, Joined(l, m, r), key)
  {
    LPlugPath(l, m.l);
    RPlugPath(r, m.r);
  }

  // ----- the walk of SPLAY_NEXT

  /** The links from the root to its successor, without the first one. */
  ghost function NextWalk(t: Tree): nat
    requires t.Bin?
  {
    if t.r.Leaf? then 0 else LeftPath(t.r) - 1
  }

  lemma {:induction false} FirstAt(t: Tree)
    requires t.Bin? && Sorted(Elems(t))
    ensures Search(t, Elems(t)[0].key) == LeftPath(t) - 1
  {
    if t.l.Bin? {
      assert Elems(t) == Elems(t.l) + ([t.n] + Elems(t.r));
      SortedPart(Elems(t.l), [t.n] + Elems(t.r));
      SortedAround(Elems(t.l), t.n, Elems(t.r));
      FirstAt(t.l);
      assert Elems(t)[0] == Elems(t.l)[0] && Elems(t.l)[0] in Elems(t.l);
    }
  }

  /** A search for the successor follows the walk once more. */
  lemma NextAt(t: Tree)
    requires t.Bin? && Sorted(Elems(t)) && t.r.Bin?
    ensures Search(t, Elems(t.r)[0].key) == NextWalk(t) + 1
  {
    assert Elems(t) == (Elems(t.l) + [t.n]) + Elems(t.r);
    SortedPart(Elems(t.l) + [t.n], Elems(t.r));
    SortedAround(Elems(t.l), t.n, Elems(t.r));
    FirstAt(t.r);
    assert Elems(t.r)[0] in Elems(t.r);
  }

  /** The walks so far: all their turns, those of walks not followed by a splay of the element walked to,
      and the last walk with that element's key, until the next operation. */
  datatype Walks = Walks(all: nat, loose: nat, last: nat, key: int)

  /** The next operation splays for the given key. */
  ghost function Splays(w: Walks, key: int): Walks {
    if key == w.key then w.(last := 0) else Strays(w)
  }

  /** The next operation is another one. */
  ghost function Strays(w: Walks): Walks { w.(loose := w.loose + w.last, last := 0) }

  ghost function Walk(w: Walks, d: nat, key: int): Walks
    requires w.last == 0
  {
    Walks(w.all + d, w.loose, d, key)
  }

  /** The turns of splay loops pay for all walks but the loose ones. */
  ghost predicate Covered(w: Walks, turns: nat, t: Tree) {
    && w.all <= 2 * turns + w.loose + w.last
    && (w.last > 0 ==> w.last < Search(t, w.key))
  }

  lemma SplaysCovered(w: Walks, turns: nat, t: Tree, k: nat, t': Tree, key: int)
    requires Covered(w, turns, t) && Search(t, key) <= 2 * k
    ensures Covered(Splays(w, key), turns + k, t')
  {
  }

  lemma StraysCovered(w: Walks, turns: nat, t: Tree, k: nat, t': Tree)
    requires Covered(w, turns, t)
    ensures Covered(Strays(w), turns + k, t')
  {
  }

  lemma WalkCovered(w: Walks, turns: nat, t: Tree)
    requires Covered(w, turns, t) && w.last == 0 && t.Bin? && Sorted(Elems(t)) && t.r.Bin?
    ensures Covered(Walk(w, NextWalk(t), Elems(t.r)[0].key), turns, t) && NextWalk(t) < Height(t)
  {
    NextAt(t);
    LeftPathHeight(t.r);
  }

  /** The old tree, or what a splay made of it, with a new root above the half on its side. */
  ghost function Topped(t: Tree, e: Node): Tree {
    if t.Leaf? then Bin(Leaf, e, Leaf)
    else if e.key < t.n.key then Bin(t.l, e, Bin(Leaf, t.n, t.r))
    else Bin(Bin(t.l, t.n, Leaf), e, t.r)
  }

  lemma NoSearch(t: Tree, key: int)
    ensures t.Leaf? ==> Search(t, key) == 0
  {
  }

  lemma SomeHeight(t: Tree)
    ensures t.Bin? ==> Height(t) > 0
  {
  }

  lemma GoingStarts(t: Tree, key: int)
    requires t.Bin?
    ensures Going(0, t, End, t, End, key)
  {
  }

  /** The turns of a removal: those of a splay of `t` for the key, which gives `t1`, and those of a splay of
      what stands left of the root there, for a key beyond it. */
  ghost predicate SplayedTwice(turns: nat, t: Tree, t1: Tree, key: int) {
    exists k: nat :: k <= turns && Walked(k, t, t1, key) && t1.n.key == key
      && turns - k <= RightPath(t1.l) <= 2 * (turns - k) + 1
  }

  lemma SplayTwice(k: nat, j: nat, t: Tree, t1: Tree, key: int)
    requires Walked(k, t, t1, key) && t1.n.key == key && j <= RightPath(t1.l) <= 2 * j + 1
    ensures SplayedTwice(k + j, t, t1, key)
  {
    assert k + j - k == j;
  }
}
