/** The pieces a top-down splay works with (sys/tree.h): a middle tree still to be searched, and
    two growing side trees whose inner spine ends in an unfinished link. All statements are about
    a snapshot of the node fields. */
module SplayShape {
  import opened Sequences
  import opened SearchOrder

  datatype Tree = Leaf | Bin(l: Tree, n: Node, r: Tree)

  /** A side tree, outermost node first: each node keeps the subtree on its far side, and its near
      side leads to the next node; the near side of the last node is not yet set. */
  datatype Spine = End | Step(out: Spine, sub: Tree, n: Node)

  datatype Cell = Cell(left: Node?, right: Node?)
  type Links = map<Node, Cell>

  ghost function Nodes(t: Tree): set<Node> { if t.Leaf? then {} else Nodes(t.l) + {t.n} + Nodes(t.r) }
  ghost function SNodes(s: Spine): set<Node> { if s.End? then {} else SNodes(s.out) + {s.n} + Nodes(s.sub) }
  ghost function Root(t: Tree): Node? { if t.Leaf? then null else t.n }
  ghost function Tip(s: Spine, hd: Node): Node { if s.End? then hd else s.n }

  ghost function Elems(t: Tree): seq<Node> { if t.Leaf? then [] else Elems(t.l) + [t.n] + Elems(t.r) }
  ghost function LElems(s: Spine): seq<Node> { if s.End? then [] else LElems(s.out) + (Elems(s.sub) + [s.n]) }
  ghost function RElems(s: Spine): seq<Node> { if s.End? then [] else ([s.n] + Elems(s.sub)) + RElems(s.out) }

  /** A left (right) side tree completed by a subtree at its unfinished link. */
  ghost function LPlug(s: Spine, t: Tree): Tree { if s.End? then t else LPlug(s.out, Bin(s.sub, s.n, t)) }
  ghost function RPlug(s: Spine, t: Tree): Tree { if s.End? then t else RPlug(s.out, Bin(t, s.n, s.sub)) }

  ghost predicate Sep(t: Tree) {
    t.Bin? ==> t.n !in Nodes(t.l) && t.n !in Nodes(t.r) && Nodes(t.l) !! Nodes(t.r) && Sep(t.l) && Sep(t.r)
  }

  ghost predicate SSep(s: Spine) {
    s.Step? ==>
      s.n !in SNodes(s.out) && s.n !in Nodes(s.sub) && SNodes(s.out) !! Nodes(s.sub) && SSep(s.out) && Sep(s.sub)
  }

  ghost predicate Rep(h: Links, t: Tree) {
    t.Bin? ==> t.n in h && h[t.n] == Cell(Root(t.l), Root(t.r)) && Rep(h, t.l) && Rep(h, t.r)
  }

  /** The left side tree hangs off `hd.right`, the right one off `hd.left`. */
  ghost predicate LRep(h: Links, s: Spine, hd: Node) {
    s.Step? ==>
      && Tip(s.out, hd) in h && h[Tip(s.out, hd)].right == s.n
      && s.n in h && h[s.n].left == Root(s.sub) && Rep(h, s.sub) && LRep(h, s.out, hd)
  }

  ghost predicate RRep(h: Links, s: Spine, hd: Node) {
    s.Step? ==>
      && Tip(s.out, hd) in h && h[Tip(s.out, hd)].left == s.n
      && s.n in h && h[s.n].right == Root(s.sub) && Rep(h, s.sub) && RRep(h, s.out, hd)
  }

  /** Between two steps of a splay: left side tree, middle tree, right side tree, all disjoint. */
  ghost predicate Parts(h: Links, hd: Node, l: Spine, m: Tree, r: Spine) {
    && SSep(l) && Sep(m) && SSep(r)
    && SNodes(l) !! Nodes(m) && SNodes(l) !! SNodes(r) && Nodes(m) !! SNodes(r)
    && hd !in SNodes(l) + Nodes(m) + SNodes(r) && hd in h
    && LRep(h, l, hd) && Rep(h, m) && RRep(h, r, hd)
  }

  /** The three pieces and the header make up exactly the nodes `ns`. */
  ghost predicate Covers(ns: set<Node>, hd: Node, l: Spine, m: Tree, r: Spine) {
    ns == {hd} + SNodes(l) + Nodes(m) + SNodes(r)
  }

  lemma CoverLinks(ns: set<Node>, hd: Node, l: Spine, m: Tree, r: Spine)
    requires Covers(ns, hd, l, m, r) && m.Bin?
    ensures Covers(ns, hd, l, m.l, Step(r, m.r, m.n)) && Covers(ns, hd, Step(l, m.l, m.n), m.r, r)
  {
  }

  lemma CoverTurns(ns: set<Node>, hd: Node, l: Spine, m: Tree, r: Spine)
    requires Covers(ns, hd, l, m, r) && m.Bin?
    ensures m.l.Bin? ==> Covers(ns, hd, l, RotR(m), r)
    ensures m.r.Bin? ==> Covers(ns, hd, l, RotL(m), r)
  {
    assert m.l.Bin? ==> Nodes(RotR(m)) == Nodes(m);
    assert m.r.Bin? ==> Nodes(RotL(m)) == Nodes(m);
  }

  /** What a splay step is about to dereference. */
  lemma Reach(h: Links, hd: Node, l: Spine, m: Tree, r: Spine)
    requires Parts(h, hd, l, m, r) && m.Bin?
    ensures m.n in h && h[m.n] == Cell(Root(m.l), Root(m.r))
    ensures m.l.Bin? ==> m.l.n in h && m.l.n != m.n && h[m.l.n] == Cell(Root(m.l.l), Root(m.l.r))
    ensures m.r.Bin? ==> m.r.n in h && m.r.n != m.n && h[m.r.n] == Cell(Root(m.r.l), Root(m.r.r))
    ensures Tip(l, hd) in h && Tip(r, hd) in h && hd in h && m.n !in {hd, Tip(l, hd), Tip(r, hd)}
  {
    assert Rep(h, m.l) && Rep(h, m.r);
    assert l.Step? ==> l.n in SNodes(l);
    assert r.Step? ==> r.n in SNodes(r);
  }

  // ----- frames

  lemma {:induction false} RepFrame(h: Links, k: Links, t: Tree)
    requires Rep(h, t) && forall n | n in Nodes(t) && n in h :: n in k && k[n] == h[n]
    ensures Rep(k, t)
  {
    if t.Bin? {
      RepFrame(h, k, t.l);
      RepFrame(h, k, t.r);
    }
  }

  /** The unfinished link is free to change. */
  lemma {:induction false} LFrame(h: Links, k: Links, s: Spine, hd: Node)
    requires LRep(h, s, hd) && SSep(s) && hd !in SNodes(s)
    requires forall n | n in SNodes(s) && n in h && n != Tip(s, hd) :: n in k && k[n] == h[n]
    requires s.Step? && s.n in h ==> s.n in k && k[s.n].left == h[s.n].left
    requires s.Step? && hd in h ==> hd in k && k[hd].right == h[hd].right
    ensures LRep(k, s, hd)
  {
    if s.Step? {
      RepFrame(h, k, s.sub);
      assert Tip(s.out, hd) != s.n && (s.out.Step? ==> s.out.n in SNodes(s.out));
      LFrame(h, k, s.out, hd);
    }
  }

  lemma {:induction false} RFrame(h: Links, k: Links, s: Spine, hd: Node)
    requires RRep(h, s, hd) && SSep(s) && hd !in SNodes(s)
    requires forall n | n in SNodes(s) && n in h && n != Tip(s, hd) :: n in k && k[n] == h[n]
    requires s.Step? && s.n in h ==> s.n in k && k[s.n].right == h[s.n].right
    requires s.Step? && hd in h ==> hd in k && k[hd].left == h[hd].left
    ensures RRep(k, s, hd)
  {
    if s.Step? {
      RepFrame(h, k, s.sub);
      assert Tip(s.out, hd) != s.n && (s.out.Step? ==> s.out.n in SNodes(s.out));
      RFrame(h, k, s.out, hd);
    }
  }

  // ----- the steps of a splay

  /** Exactly the cell of `x` changed, to `d`. */
  ghost predicate Set1(h: Links, k: Links, x: Node, d: Cell) {
    k.Keys == h.Keys && x in k && k[x] == d && forall n | n in h && n != x :: k[n] == h[n]
  }

  /** Exactly the cells of `x` and `y` changed. */
  ghost predicate Set2(h: Links, k: Links, x: Node, d: Cell, y: Node, e: Cell) {
    k.Keys == h.Keys && x in k && y in k && k[x] == d && k[y] == e &&
        forall n | n in h && n != x && n != y :: k[n] == h[n]
  }

  ghost function RotR(t: Tree): Tree
    requires t.Bin? && t.l.Bin?
  {
    Bin(t.l.l, t.l.n, Bin(t.l.r, t.n, t.r))
  }

  ghost function RotL(t: Tree): Tree
    requires t.Bin? && t.r.Bin?
  {
    Bin(Bin(t.l, t.n, t.r.l), t.r.n, t.r.r)
  }

  lemma RotatedR(h: Links, k: Links, hd: Node, l: Spine, m: Tree, r: Spine)
    requires Parts(h, hd, l, m, r) && m.Bin? && m.l.Bin?
    requires Set2(h, k, m.n, Cell(Root(m.l.r), Root(m.r)), m.l.n, Cell(Root(m.l.l), m.n))
    ensures Parts(k, hd, l, RotR(m), r) && Elems(RotR(m)) == Elems(m)
  {
    assert Sep(m.l) && Rep(h, m.l);
    LFrame(h, k, l, hd);
    RFrame(h, k, r, hd);
    RepFrame(h, k, m.l.l);
    RepFrame(h, k, m.l.r);
    RepFrame(h, k, m.r);
    Regroup(Elems(m.l.l), m.l.n, Elems(m.l.r), m.n, Elems(m.r));
  }

  lemma RotatedL(h: Links, k: Links, hd: Node, l: Spine, m: Tree, r: Spine)
    requires Parts(h, hd, l, m, r) && m.Bin? && m.r.Bin?
    requires Set2(h, k, m.n, Cell(Root(m.l), Root(m.r.l)), m.r.n, Cell(m.n, Root(m.r.r)))
    ensures Parts(k, hd, l, RotL(m), r) && Elems(RotL(m)) == Elems(m)
  {
    assert Sep(m.r) && Rep(h, m.r);
    LFrame(h, k, l, hd);
    RFrame(h, k, r, hd);
    RepFrame(h, k, m.l);
    RepFrame(h, k, m.r.l);
    RepFrame(h, k, m.r.r);
    Regroup(Elems(m.l), m.n, Elems(m.r.l), m.r.n, Elems(m.r.r));
  }

  lemma Regroup(a: seq<Node>, x: Node, b: seq<Node>, y: Node, c: seq<Node>)
    ensures (a + [x] + b) + [y] + c == a + [x] + (b + [y] + c)
  {
  }

  /** SPLAY_LINKLEFT: the middle's root joins the right side tree. */
  lemma LinkedLeft(h: Links, k: Links, hd: Node, l: Spine, m: Tree, r: Spine)
    requires Parts(h, hd, l, m, r) && m.Bin? && Tip(r, hd) in h
    requires Set1(h, k, Tip(r, hd), h[Tip(r, hd)].(left := m.n))
    ensures Parts(k, hd, l, m.l, Step(r, m.r, m.n))
  {
    assert r.Step? ==> r.n in SNodes(r);
    LFrame(h, k, l, hd);
    RFrame(h, k, r, hd);
    RepFrame(h, k, m.l);
    RepFrame(h, k, m.r);
  }

  lemma LinkedRight(h: Links, k: Links, hd: Node, l: Spine, m: Tree, r: Spine)
    requires Parts(h, hd, l, m, r) && m.Bin? && Tip(l, hd) in h
    requires Set1(h, k, Tip(l, hd), h[Tip(l, hd)].(right := m.n))
    ensures Parts(k, hd, Step(l, m.l, m.n), m.r, r)
  {
    assert l.Step? ==> l.n in SNodes(l);
    LFrame(h, k, l, hd);
    RFrame(h, k, r, hd);
    RepFrame(h, k, m.l);
    RepFrame(h, k, m.r);
  }

  // ----- putting the three pieces together

  lemma {:induction false} LPlugged(s: Spine, t: Tree)
    ensures Nodes(LPlug(s, t)) == SNodes(s) + Nodes(t) && Elems(LPlug(s, t)) == LElems(s) + Elems(t)
    ensures SSep(s) && Sep(t) && SNodes(s) !! Nodes(t) ==> Sep(LPlug(s, t))
  {
    if s.Step? {
      LPlugged(s.out, Bin(s.sub, s.n, t));
      assert LElems(s.out) + (Elems(s.sub) + [s.n] + Elems(t)) == LElems(s) + Elems(t);
    }
  }

  lemma {:induction false} RPlugged(s: Spine, t: Tree)
    ensures Nodes(RPlug(s, t)) == SNodes(s) + Nodes(t) && Elems(RPlug(s, t)) == Elems(t) + RElems(s)
    ensures SSep(s) && Sep(t) && SNodes(s) !! Nodes(t) ==> Sep(RPlug(s, t))
  {
    if s.Step? {
      RPlugged(s.out, Bin(t, s.n, s.sub));
      assert (Elems(t) + [s.n] + Elems(s.sub)) + RElems(s.out) == Elems(t) + RElems(s);
    }
  }

  lemma {:induction false} LFinish(h: Links, s: Spine, t: Tree, hd: Node)
    requires LRep(h, s, hd) && Rep(h, t) && Tip(s, hd) in h && h[Tip(s, hd)].right == Root(t)
    ensures Rep(h, LPlug(s, t)) && hd in h && h[hd].right == Root(LPlug(s, t))
  {
    if s.Step? { LFinish(h, s.out, Bin(s.sub, s.n, t), hd); }
  }

  lemma {:induction false} RFinish(h: Links, s: Spine, t: Tree, hd: Node)
    requires RRep(h, s, hd) && Rep(h, t) && Tip(s, hd) in h && h[Tip(s, hd)].left == Root(t)
    ensures Rep(h, RPlug(s, t)) && hd in h && h[hd].left == Root(RPlug(s, t))
  {
    if s.Step? { RFinish(h, s.out, Bin(t, s.n, s.sub), hd); }
  }

  ghost function Joined(l: Spine, m: Tree, r: Spine): Tree
    requires m.Bin?
  {
    Bin(LPlug(l, m.l), m.n, RPlug(r, m.r))
  }

  /** The in-order sequence of the pieces, which no step changes. */
  ghost function All(l: Spine, m: Tree, r: Spine): seq<Node> { LElems(l) + Elems(m) + RElems(r) }

  lemma JoinedSame(l: Spine, m: Tree, r: Spine)
    requires m.Bin? && SSep(l) && Sep(m) && SSep(r)
    requires SNodes(l) !! Nodes(m) && SNodes(l) !! SNodes(r) && Nodes(m) !! SNodes(r)
    ensures Sep(Joined(l, m, r)) && Nodes(Joined(l, m, r)) == SNodes(l) + Nodes(m) + SNodes(r)
    ensures Elems(Joined(l, m, r)) == All(l, m, r)
  {
    hide LElems, RElems;
    LPlugged(l, m.l);
    RPlugged(r, m.r);
    LinkSeqs(LElems(l), Elems(m.l), [m.n], Elems(m.r), RElems(r));
  }

  /** The first two assignments of SPLAY_ASSEMBLE close the two unfinished links. */
  lemma Closed(h: Links, k: Links, hd: Node, l: Spine, m: Tree, r: Spine)
    requires Parts(h, hd, l, m, r) && m.Bin? && Tip(l, hd) in h && Tip(r, hd) in h
    requires k.Keys == h.Keys
    requires forall n | n in h && n != Tip(l, hd) && n != Tip(r, hd) :: k[n] == h[n]
    requires k[Tip(l, hd)].right == Root(m.l) && (Tip(l, hd) != Tip(r, hd) ==> k[Tip(l, hd)].left == h[Tip(l, hd)].left)
    requires k[Tip(r, hd)].left == Root(m.r)
        && (Tip(l, hd) != Tip(r, hd) ==> k[Tip(r, hd)].right == h[Tip(r, hd)].right)
    ensures Rep(k, LPlug(l, m.l)) && k[hd].right == Root(LPlug(l, m.l))
    ensures Rep(k, RPlug(r, m.r)) && k[hd].left == Root(RPlug(r, m.r))
  {
    assert l.Step? ==> l.n in SNodes(l);
    assert r.Step? ==> r.n in SNodes(r);
    LFrame(h, k, l, hd);
    RFrame(h, k, r, hd);
    RepFrame(h, k, m.l);
    RepFrame(h, k, m.r);
    LFinish(k, l, m.l, hd);
    RFinish(k, r, m.r, hd);
  }

  /** The other two hang the completed side trees under the root. */
  lemma Assembled(k: Links, k': Links, hd: Node, l: Spine, m: Tree, r: Spine)
    requires m.Bin? && Rep(k, LPlug(l, m.l)) && Rep(k, RPlug(r, m.r)) && Sep(Joined(l, m, r))
    requires m.n in k && hd in k && k[hd] == Cell(Root(RPlug(r, m.r)), Root(LPlug(l, m.l)))
    requires Set1(k, k', m.n, Cell(k[hd].right, k[hd].left))
    ensures Rep(k', Joined(l, m, r))
  {
    RepFrame(k, k', LPlug(l, m.l));
    RepFrame(k, k', RPlug(r, m.r));
  }

  // ----- search order

  /** Where the middle's root stands in the whole order. */
  lemma MiddleSplit(l: Spine, m: Tree, r: Spine)
    requires m.Bin? && Sorted(All(l, m, r))
    ensures Below(LElems(l) + Elems(m.l), m.n.key) && Above(Elems(m.r) + RElems(r), m.n.key)
  {
    LinkSeqs(LElems(l), Elems(m.l), [m.n], Elems(m.r), RElems(r));
    SortedAround(LElems(l) + Elems(m.l), m.n, Elems(m.r) + RElems(r));
  }

  /** Moving the root to a side tree leaves the whole order as it was. */
  lemma LinkOrder(l: Spine, m: Tree, r: Spine)
    requires m.Bin?
    ensures All(l, m.l, Step(r, m.r, m.n)) == All(l, m, r)
    ensures All(Step(l, m.l, m.n), m.r, r) == All(l, m, r)
  {
    LinkSeqs(LElems(l), Elems(m.l), [m.n], Elems(m.r), RElems(r));
  }

  lemma LinkSeqs(a: seq<Node>, b: seq<Node>, x: seq<Node>, c: seq<Node>, d: seq<Node>)
    ensures a + b + ((x + c) + d) == a + (b + x + c) + d
    ensures (a + (b + x)) + c + d == a + (b + x + c) + d
    ensures (a + b) + x + (c + d) == a + (b + x + c) + d
  {
  }

  ghost function Size(t: Tree): nat { if t.Leaf? then 0 else Size(t.l) + 1 + Size(t.r) }

  lemma {:induction false} ElemsNodes(t: Tree)
    ensures forall n | n in Nodes(t) :: n in Elems(t)
    ensures forall n | n in Elems(t) :: n in Nodes(t)
  {
    if t.Bin? {
      ElemsNodes(t.l);
      ElemsNodes(t.r);
    }
  }

  /** A step to the left keeps the search order: what joins the right side tree is above the key. */
  lemma StepOrderL(l: Spine, m: Tree, r: Spine, key: int)
    requires m.Bin? && Sorted(All(l, m, r)) && key < m.n.key
    ensures Above(RElems(Step(r, m.r, m.n)), key)
    ensures Size(m.l) < Size(m)
  {
    MiddleSplit(l, m, r);
    assert RElems(Step(r, m.r, m.n)) == [m.n] + (Elems(m.r) + RElems(r));
  }

  lemma StepOrderR(l: Spine, m: Tree, r: Spine, key: int)
    requires m.Bin? && Sorted(All(l, m, r)) && m.n.key < key
    ensures Below(LElems(Step(l, m.l, m.n)), key)
    ensures Size(m.r) < Size(m)
  {
    MiddleSplit(l, m, r);
    assert LElems(Step(l, m.l, m.n)) == (LElems(l) + Elems(m.l)) + [m.n];
  }

  /** Once the search has to stop, everything left of the root is below the key and everything right of it above. */
  lemma StopOrder(l: Spine, m: Tree, r: Spine, key: int)
    requires m.Bin? && Sorted(All(l, m, r)) && Below(LElems(l), key) && Above(RElems(r), key)
    requires m.n.key == key || (key < m.n.key && m.l.Leaf?) || (m.n.key < key && m.r.Leaf?)
    ensures Below(LElems(l) + Elems(m.l), key) && Above(Elems(m.r) + RElems(r), key)
  {
    MiddleSplit(l, m, r);
    assert m.l.Leaf? ==> LElems(l) + Elems(m.l) == LElems(l);
    assert m.r.Leaf? ==> Elems(m.r) + RElems(r) == RElems(r);
  }

  /** A splay starts with the whole tree in the middle. */
  lemma Start(h: Links, k: Links, hd: Node, t: Tree)
    requires Rep(h, t) && Sep(t) && hd !in Nodes(t) && hd in k
    requires forall n | n in h && n != hd :: n in k && k[n] == h[n]
    ensures Parts(k, hd, End, t, End) && All(End, t, End) == Elems(t)
    ensures Covers(Nodes(t) + {hd}, hd, End, t, End)
  {
    RepFrame(h, k, t);
  }

  lemma FinishFacts(ns: set<Node>, h: Links, hd: Node, l: Spine, m: Tree, r: Spine, key: int)
    requires Parts(h, hd, l, m, r) && Covers(ns, hd, l, m, r) && m.Bin?
    requires Sorted(All(l, m, r)) && Below(LElems(l), key) && Above(RElems(r), key)
    requires m.n.key == key || (key < m.n.key && m.l.Leaf?) || (m.n.key < key && m.r.Leaf?)
    ensures var t := Joined(l, m, r);
      && Sep(t) && Nodes(t) == ns - {hd} && Elems(t) == All(l, m, r)
      && Below(Elems(t.l), key) && Above(Elems(t.r), key)
  {
    hide Sorted, All;
    StopOrder(l, m, r, key);
    JoinedSame(l, m, r);
    LPlugged(l, m.l);
    RPlugged(r, m.r);
  }
}
