/** Binary trees with parent links: the nodes of sys/tree.h, the mathematical tree they
    represent, and what it means for the links to spell out that tree.

    All reasoning about links happens on a snapshot of the node fields (`Links`), which is an
    ordinary value; the classes that change the fields only have to say how a snapshot moved. */
module TreeShape {
  import opened SearchOrder

  datatype Tree = Leaf | Bin(l: Tree, n: Node, red: bool, r: Tree)

  /** The rest of the tree around a focused subtree: the way up to the root, innermost step first. */
  datatype Ctx = Top | InL(up: Ctx, n: Node, red: bool, r: Tree) | InR(up: Ctx, l: Tree, n: Node, red: bool)

  /** The mutable fields of one node, and of a whole tree including the head's root pointer. */
  datatype Cell = Cell(left: Node?, right: Node?, parent: Node?, red: bool)
  datatype Links = Links(root: Node?, cell: map<Node, Cell>)

  ghost function Nodes(t: Tree): set<Node> {
    match t
    case Leaf => {}
    case Bin(l, n, _, r) => Nodes(l) + {n} + Nodes(r)
  }

  ghost function CNodes(c: Ctx): set<Node> {
    match c
    case Top => {}
    case InL(up, n, _, r) => CNodes(up) + {n} + Nodes(r)
    case InR(up, l, n, _) => CNodes(up) + {n} + Nodes(l)
  }

  ghost function Root(t: Tree): Node? { if t.Leaf? then null else t.n }

  ghost function Par(c: Ctx): Node? { if c.Top? then null else c.n }

  /** The whole tree: the focused subtree put back into its context. */
  ghost function Plug(c: Ctx, t: Tree): Tree {
    match c
    case Top => t
    case InL(up, n, red, r) => Plug(up, Bin(t, n, red, r))
    case InR(up, l, n, red) => Plug(up, Bin(l, n, red, t))
  }

  /** In-order traversal, of a tree and of what lies before and after a context's hole. */
  ghost function Elems(t: Tree): seq<Node> {
    match t
    case Leaf => []
    case Bin(l, n, _, r) => Elems(l) + [n] + Elems(r)
  }

  ghost function Before(c: Ctx): seq<Node> {
    match c
    case Top => []
    case InL(up, _, _, _) => Before(up)
    case InR(up, l, n, _) => Before(up) + Elems(l) + [n]
  }

  ghost function After(c: Ctx): seq<Node> {
    match c
    case Top => []
    case InL(up, n, _, r) => [n] + Elems(r) + After(up)
    case InR(up, _, _, _) => After(up)
  }

  /** No node occurs twice. */
  ghost predicate Sep(t: Tree) {
    match t
    case Leaf => true
    case Bin(l, n, _, r) => n !in Nodes(l) && n !in Nodes(r) && Nodes(l) !! Nodes(r) && Sep(l) && Sep(r)
  }

  ghost predicate CSep(c: Ctx) {
    match c
    case Top => true
    case InL(up, n, _, r) => n !in Nodes(r) && n !in CNodes(up) && Nodes(r) !! CNodes(up) && CSep(up) && Sep(r)
    case InR(up, l, n, _) => n !in Nodes(l) && n !in CNodes(up) && Nodes(l) !! CNodes(up) && CSep(up) && Sep(l)
  }

  /** The links of `h` spell out the tree `t` hanging below `par`. */
  ghost predicate Rep(h: Links, t: Tree, par: Node?) {
    match t
    case Leaf => true
    case Bin(l, n, red, r) =>
      n in h.cell && h.cell[n] == Cell(Root(l), Root(r), par, red) && Rep(h, l, n) && Rep(h, r, n)
  }

  /** The links of `h` spell out the context `c` around a subtree whose root pointer is `hole`. */
  ghost predicate CRep(h: Links, c: Ctx, hole: Node?) {
    match c
    case Top => h.root == hole
    case InL(up, n, red, r) =>
      n in h.cell && h.cell[n] == Cell(hole, Root(r), Par(up), red) && Rep(h, r, n) && CRep(h, up, n)
    case InR(up, l, n, red) =>
      n in h.cell && h.cell[n] == Cell(Root(l), hole, Par(up), red) && Rep(h, l, n) && CRep(h, up, n)
  }

  /** `h` is exactly the tree Plug(c, t), seen with its focus on `t`. */
  ghost predicate At(h: Links, c: Ctx, t: Tree) {
    && Sep(t) && CSep(c) && Nodes(t) !! CNodes(c)
    && Rep(h, t, Par(c)) && CRep(h, c, Root(t))
    && h.cell.Keys == Nodes(t) + CNodes(c)
  }

  // ----- moving the focus

  lemma DownL(h: Links, c: Ctx, t: Tree)
    requires At(h, c, t) && t.Bin?
    ensures At(h, InL(c, t.n, t.red, t.r), t.l)
    ensures Plug(InL(c, t.n, t.red, t.r), t.l) == Plug(c, t)
  {
  }

  lemma DownR(h: Links, c: Ctx, t: Tree)
    requires At(h, c, t) && t.Bin?
    ensures At(h, InR(c, t.l, t.n, t.red), t.r)
    ensures Plug(InR(c, t.l, t.n, t.red), t.r) == Plug(c, t)
  {
  }

  ghost function UpTree(c: Ctx, t: Tree): Tree
    requires !c.Top?
  {
    match c
    case InL(_, n, red, r) => Bin(t, n, red, r)
    case InR(_, l, n, red) => Bin(l, n, red, t)
  }

  lemma Up(h: Links, c: Ctx, t: Tree)
    requires At(h, c, t) && !c.Top?
    ensures At(h, c.up, UpTree(c, t))
    ensures Plug(c.up, UpTree(c, t)) == Plug(c, t)
  {
  }

  lemma {:induction false} PlugNodes(c: Ctx, t: Tree)
    ensures Nodes(Plug(c, t)) == Nodes(t) + CNodes(c)
  {
    if !c.Top? { PlugNodes(c.up, UpTree(c, t)); }
  }

  lemma {:induction false} PlugElems(c: Ctx, t: Tree)
    ensures Elems(Plug(c, t)) == Before(c) + Elems(t) + After(c)
  {
    if !c.Top? {
      PlugElems(c.up, UpTree(c, t));
      if c.InL? {
        Regroup(Before(c.up), [], [], Elems(t), [c.n], Elems(c.r), After(c.up));
      } else {
        Regroup(Before(c.up), Elems(c.l), [c.n], Elems(t), [], [], After(c.up));
      }
    }
  }

  lemma Regroup<T>(a: seq<T>, b: seq<T>, c: seq<T>, d: seq<T>, e: seq<T>, f: seq<T>, g: seq<T>)
    ensures a + (b + c + d + e + f) + g == (a + b + c) + d + (e + f + g)
    ensures b == [] && c == [] ==> a + (d + e + f) + g == a + d + (e + f + g)
    ensures e == [] && f == [] ==> a + (b + c + d) + g == (a + b + c) + d + g
  {
  }

  /** A change that keeps the focus's in-order sequence keeps that of the whole tree. */
  lemma PlugSame(c: Ctx, t: Tree, t': Tree)
    requires Elems(t') == Elems(t)
    ensures Elems(Plug(c, t')) == Elems(Plug(c, t))
  {
    PlugElems(c, t);
    PlugElems(c, t');
  }

  ghost function Depth(c: Ctx): nat { if c.Top? then 0 else 1 + Depth(c.up) }

  /** Zipping all the way up. */
  lemma {:induction false} Unzip(h: Links, c: Ctx, t: Tree)
    requires At(h, c, t)
    ensures At(h, Top, Plug(c, t))
  {
    if !c.Top? {
      Up(h, c, t);
      Unzip(h, c.up, UpTree(c, t));
    }
  }

  // ----- what survives a change of links

  lemma {:induction false} RepFrame(h: Links, k: Links, t: Tree, par: Node?)
    requires Rep(h, t, par)
    requires forall n | n in Nodes(t) && n in h.cell :: n in k.cell && k.cell[n] == h.cell[n]
    ensures Rep(k, t, par)
  {
    if t.Bin? {
      RepFrame(h, k, t.l, t.n);
      RepFrame(h, k, t.r, t.n);
    }
  }

  /** Only the root's parent link moved. */
  lemma RepReparent(h: Links, k: Links, t: Tree, par: Node?, par': Node?)
    requires Rep(h, t, par) && Sep(t)
    requires forall n | n in Nodes(t) && n in h.cell && n != Root(t) :: n in k.cell && k.cell[n] == h.cell[n]
    requires t.Bin? ==> t.n in k.cell && k.cell[t.n] == h.cell[t.n].(parent := par')
    ensures Rep(k, t, par')
  {
    if t.Bin? {
      RepFrame(h, k, t.l, t.n);
      RepFrame(h, k, t.r, t.n);
    }
  }

  lemma {:induction false} CRepFrame(h: Links, k: Links, c: Ctx, hole: Node?)
    requires CRep(h, c, hole)
    requires k.root == h.root
    requires forall n | n in CNodes(c) && n in h.cell :: n in k.cell && k.cell[n] == h.cell[n]
    ensures CRep(k, c, hole)
  {
    match c
    case Top =>
    case InL(up, n, _, r) =>
      RepFrame(h, k, r, n);
      CRepFrame(h, k, up, n);
    case InR(up, l, n, _) =>
      RepFrame(h, k, l, n);
      CRepFrame(h, k, up, n);
  }

  /** The link from a context to its hole, pointed elsewhere. */
  ghost predicate Relinked(h: Links, k: Links, c: Ctx, hole': Node?) {
    match c
    case Top => k.root == hole'
    case InL(_, n, _, _) => k.root == h.root && n in h.cell && n in k.cell && k.cell[n] == h.cell[n].(left := hole')
    case InR(_, _, n, _) => k.root == h.root && n in h.cell && n in k.cell && k.cell[n] == h.cell[n].(right := hole')
  }

  lemma CRepRelink(h: Links, k: Links, c: Ctx, hole: Node?, hole': Node?)
    requires CRep(h, c, hole) && CSep(c)
    requires Relinked(h, k, c, hole')
    requires forall n | n in CNodes(c) && n in h.cell && n != Par(c) :: n in k.cell && k.cell[n] == h.cell[n]
    ensures CRep(k, c, hole')
  {
    match c
    case Top =>
    case InL(up, n, _, r) =>
      RepFrame(h, k, r, n);
      CRepFrame(h, k, up, n);
    case InR(up, l, n, _) =>
      RepFrame(h, k, l, n);
      CRepFrame(h, k, up, n);
  }

  // ----- the three kinds of change the red-black code makes

  lemma Recolored(h: Links, k: Links, c: Ctx, t: Tree, red: bool)
    requires At(h, c, t) && t.Bin?
    requires k == h.(cell := h.cell[t.n := h.cell[t.n].(red := red)])
    ensures At(k, c, t.(red := red))
  {
    assert k.cell.Keys == h.cell.Keys;
    RepFrame(h, k, t.l, t.n);
    RepFrame(h, k, t.r, t.n);
    CRepFrame(h, k, c, t.n);
    var t' := t.(red := red);
    assert Sep(t') && Nodes(t') == Nodes(t);
    assert Rep(k, t', Par(c));
  }

  ghost predicate SameOutside(h: Links, k: Links, s: set<Node?>) {
    h.cell.Keys == k.cell.Keys && forall n | n in h.cell && n !in s :: k.cell[n] == h.cell[n]
  }

  ghost function RotL(t: Tree): Tree
    requires t.Bin? && t.r.Bin?
  {
    Bin(Bin(t.l, t.n, t.red, t.r.l), t.r.n, t.r.red, t.r.r)
  }

  ghost function RotR(t: Tree): Tree
    requires t.Bin? && t.l.Bin?
  {
    Bin(t.l.l, t.l.n, t.l.red, Bin(t.l.r, t.n, t.red, t.r))
  }

  /** The exact change RB_ROTATE_LEFT(x) makes: its right child y takes x's place, y's left subtree moves under x. */
  ghost predicate LeftRotated(h: Links, k: Links, x: Node)
    requires x in h.cell && h.cell[x].right in h.cell
  {
    var y, p := h.cell[x].right, h.cell[x].parent;
    var b := h.cell[y].left;
    && SameOutside(h, k, {x, y, b, p})
    && k.cell[x] == h.cell[x].(right := b, parent := y)
    && k.cell[y] == h.cell[y].(left := x, parent := p)
    && (b != null ==> b in h.cell && k.cell[b] == h.cell[b].(parent := x))
    && Repointed(h, k, p, x, y)
  }

  ghost predicate RightRotated(h: Links, k: Links, x: Node)
    requires x in h.cell && h.cell[x].left in h.cell
  {
    var y, p := h.cell[x].left, h.cell[x].parent;
    var b := h.cell[y].right;
    && SameOutside(h, k, {x, y, b, p})
    && k.cell[x] == h.cell[x].(left := b, parent := y)
    && k.cell[y] == h.cell[y].(right := x, parent := p)
    && (b != null ==> b in h.cell && k.cell[b] == h.cell[b].(parent := x))
    && Repointed(h, k, p, x, y)
  }

  /** The link that led from `p` (or from the head) to `x` now leads to `y`. */
  ghost predicate Repointed(h: Links, k: Links, p: Node?, x: Node, y: Node?) {
    if p == null then k.root == y
    else
      && k.root == h.root && p in h.cell && p in k.cell
      && k.cell[p] == if h.cell[p].left == x then h.cell[p].(left := y) else h.cell[p].(right := y)
  }

  /** What the code is about to dereference at the focus `x` exists, and what it overwrites is distinct. */
  ghost predicate Around(h: Links, c: Ctx, t: Tree)
    requires t.Bin?
  {
    && t.n in h.cell && h.cell[t.n] == Cell(Root(t.l), Root(t.r), Par(c), t.red)
    && (!c.Top? ==> c.n in h.cell && c.n != t.n && (h.cell[c.n].left == t.n <==> c.InL?))
    && (t.l.Bin? ==> t.l.n in h.cell && t.l.n != t.n && t.l.n != Par(c) && h.cell[t.l.n].red == t.l.red)
    && (t.r.Bin? ==>
        t.r.n in h.cell && t.r.n != t.n && t.r.n != Par(c) && t.r.n != Root(t.l) && h.cell[t.r.n].red == t.r.red)
  }

  /** The subtree on the other side of the focus's parent. */
  ghost function Sibling(c: Ctx): Tree
    requires !c.Top?
  {
    if c.InL? then c.r else c.l
  }

  /** The fields of the focus's parent, and the colour of its sibling. */
  ghost predicate Kin(h: Links, c: Ctx, hole: Node?)
    requires !c.Top?
  {
    && c.n in h.cell && h.cell[c.n].parent == Par(c.up) && h.cell[c.n].red == c.red && c.n != hole
    && h.cell[c.n].left == (if c.InL? then hole else Root(c.l))
    && h.cell[c.n].right == (if c.InL? then Root(c.r) else hole)
    && (Sibling(c).Bin? ==>
        Sibling(c).n in h.cell && h.cell[Sibling(c).n].red == Sibling(c).red && Sibling(c).n != hole)
  }

  lemma KinLinks(h: Links, c: Ctx, t: Tree)
    requires At(h, c, t) && !c.Top?
    ensures Kin(h, c, Root(t))
    ensures !c.up.Top? ==> Kin(h, c.up, c.n)
  {
    if !c.up.Top? { Up(h, c, t); }
  }

  lemma Surroundings(h: Links, c: Ctx, t: Tree)
    requires At(h, c, t) && t.Bin?
    ensures Around(h, c, t)
    ensures t.l.Bin? ==> Around(h, InL(c, t.n, t.red, t.r), t.l) && Root(t.l.r) !in {t.n, Par(c)} - {null}
    ensures t.r.Bin? ==> Around(h, InR(c, t.l, t.n, t.red), t.r) && Root(t.r.l) !in {t.n, Par(c)} - {null}
  {
    SurroundingsAt(h, c, t);
    if t.l.Bin? {
      DownL(h, c, t);
      SurroundingsAt(h, InL(c, t.n, t.red, t.r), t.l);
      assert t.l.r.Bin? ==> t.l.r.n in Nodes(t.l.r);
    }
    if t.r.Bin? {
      DownR(h, c, t);
      SurroundingsAt(h, InR(c, t.l, t.n, t.red), t.r);
      assert t.r.l.Bin? ==> t.r.l.n in Nodes(t.r.l);
    }
  }

  lemma SurroundingsAt(h: Links, c: Ctx, t: Tree)
    requires At(h, c, t) && t.Bin?
    ensures Around(h, c, t)
  {
    assert Rep(h, t.l, t.n) && Rep(h, t.r, t.n);
    if c.InR? && c.l.Bin? { assert c.l.n in Nodes(c.l); }
  }

  /** Rotating moves nodes within the subtree: same nodes, same in-order sequence. */
  lemma {:induction false} RotLSame(t: Tree)
    requires t.Bin? && t.r.Bin? && Sep(t)
    ensures Sep(RotL(t)) && Nodes(RotL(t)) == Nodes(t) && Elems(RotL(t)) == Elems(t)
  {
    assert Sep(t.r);
    Regroup(Elems(t.l), [t.n], [], Elems(t.r.l), [], [t.r.n], Elems(t.r.r));
  }

  lemma {:induction false} RotRSame(t: Tree)
    requires t.Bin? && t.l.Bin? && Sep(t)
    ensures Sep(RotR(t)) && Nodes(RotR(t)) == Nodes(t) && Elems(RotR(t)) == Elems(t)
  {
    assert Sep(t.l);
    Regroup(Elems(t.l.l), [t.l.n], [], Elems(t.l.r), [], [t.n], Elems(t.r));
  }

  lemma RotatedLeftRep(h: Links, k: Links, c: Ctx, t: Tree)
    requires At(h, c, t) && t.Bin? && t.r.Bin?
    requires Around(h, c, t) && Around(h, InR(c, t.l, t.n, t.red), t.r) && LeftRotated(h, k, t.n)
    ensures Rep(k, RotL(t), Par(c))
  {
    var a, b, d := t.l, t.r.l, t.r.r;
    assert Sep(t.r) && Rep(h, t.r, t.n);
    assert Rep(k, a, t.n) by { RepFrame(h, k, a, t.n); }
    assert Rep(k, b, t.n) by { RepReparent(h, k, b, t.r.n, t.n); }
    assert Rep(k, d, t.r.n) by { RepFrame(h, k, d, t.r.n); }
  }

  lemma RotatedLeft(h: Links, k: Links, c: Ctx, t: Tree)
    requires At(h, c, t) && t.Bin? && t.r.Bin?
    requires Around(h, c, t) && Around(h, InR(c, t.l, t.n, t.red), t.r) && LeftRotated(h, k, t.n)
    ensures At(k, c, RotL(t))
  {
    RotatedLeftRep(h, k, c, t);
    RotLSame(t);
    assert t.r.l.Bin? ==> t.r.l.n in Nodes(t.r);
    CRepRelink(h, k, c, t.n, t.r.n);
  }

  lemma RotatedRightRep(h: Links, k: Links, c: Ctx, t: Tree)
    requires At(h, c, t) && t.Bin? && t.l.Bin?
    requires Around(h, c, t) && Around(h, InL(c, t.n, t.red, t.r), t.l) && RightRotated(h, k, t.n)
    ensures Rep(k, RotR(t), Par(c))
  {
    var a, b, d := t.l.l, t.l.r, t.r;
    assert Sep(t.l) && Rep(h, t.l, t.n);
    assert Rep(k, d, t.n) by { RepFrame(h, k, d, t.n); }
    assert Rep(k, b, t.n) by { RepReparent(h, k, b, t.l.n, t.n); }
    assert Rep(k, a, t.l.n) by { RepFrame(h, k, a, t.l.n); }
  }

  lemma RotatedRight(h: Links, k: Links, c: Ctx, t: Tree)
    requires At(h, c, t) && t.Bin? && t.l.Bin?
    requires Around(h, c, t) && Around(h, InL(c, t.n, t.red, t.r), t.l) && RightRotated(h, k, t.n)
    ensures At(k, c, RotR(t))
  {
    RotatedRightRep(h, k, c, t);
    RotRSame(t);
    assert t.l.r.Bin? ==> t.l.r.n in Nodes(t.l);
    CRepRelink(h, k, c, t.n, t.l.n);
  }

  // ----- adding a leaf

  /** `e` has been linked in as a red leaf at the hole below `p`, on the side `left` says. */
  ghost predicate LeafAdded(h: Links, k: Links, e: Node, p: Node?, left: bool) {
    && k.cell.Keys == h.cell.Keys + {e}
    && k.cell[e] == Cell(null, null, p, true)
    && (forall n | n in h.cell && n != e && n != p :: k.cell[n] == h.cell[n])
    && (if p == null then k.root == e
        else p in h.cell && k.root == h.root && k.cell[p] == if left then h.cell[p].(left := e)
            else h.cell[p].(right := e))
  }

  lemma AddedLeaf(h: Links, k: Links, c: Ctx, e: Node)
    requires At(h, c, Leaf) && e !in h.cell && LeafAdded(h, k, e, Par(c), c.InL?)
    ensures At(k, c, Bin(Leaf, e, true, Leaf))
  {
    assert !c.Top? ==> c.n in h.cell && c.n != e;
    CRepRelink(h, k, c, null, e);
  }

  lemma {:induction false} ElemsNodes(t: Tree)
    ensures forall n :: n in Nodes(t) <==> n in Elems(t)
  {
    if t.Bin? {
      ElemsNodes(t.l);
      ElemsNodes(t.r);
    }
  }

  // ----- taking a node with one child out

  /** `e`, which had at most the one child `child`, has been unlinked. */
  ghost predicate Spliced(h: Links, k: Links, e: Node, child: Node?)
    requires e in h.cell
  {
    var p := h.cell[e].parent;
    && k.cell.Keys == h.cell.Keys - {e}
    && (forall n | n in k.cell && n != child && n != p :: k.cell[n] == h.cell[n])
    && (child != null ==> child in h.cell && child in k.cell && k.cell[child] == h.cell[child].(parent := p))
    && Repointed(h, k, p, e, child)
  }

  lemma SplicedOut(h: Links, k: Links, c: Ctx, t: Tree, sub: Tree)
    requires At(h, c, t) && t.Bin? && Spliced(h, k, t.n, Root(sub)) && Around(h, c, t)
    requires (t.l.Leaf? && sub == t.r) || (t.r.Leaf? && sub == t.l)
    ensures At(k, c, sub)
  {
    RepReparent(h, k, sub, t.n, Par(c));
    assert !c.Top? ==> c.n in CNodes(c);
    CRepRelink(h, k, c, t.n, Root(sub));
  }

  /** A child link that did not lead to the removed node is untouched. */
  lemma SplicedLeft(h: Links, k: Links, e: Node, child: Node?, x: Node)
    requires e in h.cell && Spliced(h, k, e, child) && x in k.cell && x in h.cell && h.cell[x].left != e
    ensures k.cell[x].left == h.cell[x].left
  {
  }

  // ----- putting one node in another's place

  ghost function Ren<T>(n: T, x: T, y: T): T { if n == x then y else n }

  ghost function Sub(t: Tree, x: Node, y: Node): Tree {
    match t
    case Leaf => Leaf
    case Bin(l, n, red, r) => Bin(Sub(l, x, y), Ren(n, x, y), red, Sub(r, x, y))
  }

  ghost function CSub(c: Ctx, x: Node, y: Node): Ctx {
    match c
    case Top => Top
    case InL(up, n, red, r) => InL(CSub(up, x, y), Ren(n, x, y), red, Sub(r, x, y))
    case InR(up, l, n, red) => InR(CSub(up, x, y), Sub(l, x, y), Ren(n, x, y), red)
  }

  ghost function RenCell(d: Cell, x: Node?, y: Node?): Cell {
    Cell(Ren(d.left, x, y), Ren(d.right, x, y), Ren(d.parent, x, y), d.red)
  }

  /** `y` has `x`'s links, and every link to `x` has become a link to `y`. */
  ghost predicate Renamed(h: Links, k: Links, x: Node, y: Node) {
    && k.root == Ren<Node?>(h.root, x, y)
    && x in h.cell && k.cell.Keys == h.cell.Keys - {x} + {y}
    && forall n | n in h.cell :: Ren(n, x, y) in k.cell && k.cell[Ren(n, x, y)] == RenCell(h.cell[n], x, y)
  }

  lemma {:induction false} SubNodes(t: Tree, x: Node, y: Node)
    requires y !in Nodes(t)
    ensures Nodes(Sub(t, x, y)) == if x in Nodes(t) then Nodes(t) - {x} + {y} else Nodes(t)
    ensures x !in Nodes(t) ==> Sub(t, x, y) == t
    ensures Sep(t) ==> Sep(Sub(t, x, y))
    ensures Root(Sub(t, x, y)) == Ren<Node?>(Root(t), x, y)
  {
    if t.Bin? {
      SubNodes(t.l, x, y);
      SubNodes(t.r, x, y);
    }
  }

  lemma {:induction false} CSubNodes(c: Ctx, x: Node, y: Node)
    requires y !in CNodes(c)
    ensures CNodes(CSub(c, x, y)) == if x in CNodes(c) then CNodes(c) - {x} + {y} else CNodes(c)
    ensures CSep(c) ==> CSep(CSub(c, x, y))
    ensures Par(CSub(c, x, y)) == Ren<Node?>(Par(c), x, y)
  {
    match c
    case Top =>
    case InL(up, _, _, r) => CSubNodes(up, x, y); SubNodes(r, x, y);
    case InR(up, l, _, _) => CSubNodes(up, x, y); SubNodes(l, x, y);
  }

  lemma {:induction false} SubRep(h: Links, k: Links, t: Tree, par: Node?, x: Node, y: Node)
    requires Rep(h, t, par) && Renamed(h, k, x, y) && y !in Nodes(t)
    ensures Rep(k, Sub(t, x, y), Ren(par, x, y))
  {
    if t.Bin? {
      SubNodes(t.l, x, y);
      SubNodes(t.r, x, y);
      SubRep(h, k, t.l, t.n, x, y);
      SubRep(h, k, t.r, t.n, x, y);
    }
  }

  lemma {:induction false} CSubRep(h: Links, k: Links, c: Ctx, hole: Node?, x: Node, y: Node)
    requires CRep(h, c, hole) && Renamed(h, k, x, y) && y !in CNodes(c)
    ensures CRep(k, CSub(c, x, y), Ren(hole, x, y))
  {
    match c
    case Top =>
    case InL(up, n, _, r) =>
      CSubNodes(up, x, y); SubNodes(r, x, y);
      SubRep(h, k, r, n, x, y);
      CSubRep(h, k, up, n, x, y);
    case InR(up, l, n, _) =>
      CSubNodes(up, x, y); SubNodes(l, x, y);
      SubRep(h, k, l, n, x, y);
      CSubRep(h, k, up, n, x, y);
  }

  lemma Substituted(h: Links, k: Links, c: Ctx, t: Tree, x: Node, y: Node)
    requires At(h, c, t) && Renamed(h, k, x, y) && x in CNodes(c) && y !in h.cell
    ensures At(k, CSub(c, x, y), t)
  {
    SubNodes(t, x, y);
    CSubNodes(c, x, y);
    SubRep(h, k, t, Par(c), x, y);
    CSubRep(h, k, c, Root(t), x, y);
  }

  /** Parent links are exactly the converse of child links, within a subtree. */
  lemma {:induction false} RepMirror(h: Links, t: Tree, par: Node?)
    requires Rep(h, t, par) && Sep(t)
    ensures forall n | n in Nodes(t) :: n in h.cell
    ensures forall n | n in Nodes(t) && h.cell[n].left != null ::
      var m := h.cell[n].left; m in Nodes(t) && h.cell[m].parent == n && m != Root(t) && m != h.cell[n].right
    ensures forall n | n in Nodes(t) && h.cell[n].right != null ::
      var m := h.cell[n].right; m in Nodes(t) && h.cell[m].parent == n && m != Root(t)
    ensures forall n | n in Nodes(t) && n != Root(t) ::
      var m := h.cell[n].parent; m in Nodes(t) && (h.cell[m].left == n || h.cell[m].right == n)
  {
    if t.Bin? {
      RepMirror(h, t.l, t.n);
      RepMirror(h, t.r, t.n);
      assert t.l.Bin? ==> t.l.n in Nodes(t.l) && h.cell[t.l.n].parent == t.n;
      assert t.r.Bin? ==> t.r.n in Nodes(t.r) && h.cell[t.r.n].parent == t.n;
    }
  }

  /** Links agree both ways: a child's parent link leads back, a parent's child link leads here, and
      only the root has no parent. */
  ghost predicate Mirrored(h: Links) {
    && (forall n | n in h.cell && h.cell[n].left != null ::
          var m := h.cell[n].left; m in h.cell && h.cell[m].parent == n && m != h.cell[n].right)
    && (forall n | n in h.cell && h.cell[n].right != null ::
          var m := h.cell[n].right; m in h.cell && h.cell[m].parent == n)
    && (forall n | n in h.cell && h.cell[n].parent != null ::
          var m := h.cell[n].parent; m in h.cell && (h.cell[m].left == n || h.cell[m].right == n))
    && (forall n | n in h.cell :: h.cell[n].parent == null <==> h.root == n)
  }

  lemma AtMirrored(h: Links, c: Ctx, t: Tree)
    requires At(h, c, t)
    ensures Mirrored(h)
  {
    Unzip(h, c, t);
    WholeMirrored(h, Plug(c, t));
  }

  lemma WholeMirrored(h: Links, w: Tree)
    requires At(h, Top, w)
    ensures Mirrored(h)
  {
    RepMirror(h, w, null);
    assert h.cell.Keys == Nodes(w) && h.root == Root(w);
    assert w.Bin? ==> h.cell[w.n].parent == null;
    hide *;
  }

  /** The exact change when `y` takes `x`'s place: `x`'s cell is copied and the neighbours' links are redirected. */
  ghost predicate Replaced(h: Links, k: Links, x: Node, y: Node)
    requires x in h.cell
  {
    var d := h.cell[x];
    && k.cell.Keys == h.cell.Keys - {x} + {y}
    && k.cell[y] == d
    && (forall n | n in k.cell && n != y && n != d.left && n != d.right && n != d.parent :: k.cell[n] == h.cell[n])
    && (d.left != null ==> d.left in h.cell && d.left in k.cell && k.cell[d.left] == h.cell[d.left].(parent := y))
    && (d.right != null ==> d.right in h.cell && d.right in k.cell && k.cell[d.right] == h.cell[d.right].(parent := y))
    && Repointed(h, k, d.parent, x, y)
  }

  /** Since links agree both ways, redirecting the neighbours renames every link to `x`. */
  lemma ReplacedRenamed(h: Links, k: Links, x: Node, y: Node)
    requires Mirrored(h) && x in h.cell && y !in h.cell && Replaced(h, k, x, y)
    requires Apart(h.cell[x])
    ensures Renamed(h, k, x, y)
  {
    ReplacedRoot(h, k, x, y);
    hide Mirrored, Replaced;
    forall n | n in h.cell
      ensures Ren(n, x, y) in k.cell && k.cell[Ren(n, x, y)] == RenCell(h.cell[n], x, y)
    {
      ReplacedCell(h, k, x, y, n);
    }
  }

  lemma ReplacedRoot(h: Links, k: Links, x: Node, y: Node)
    requires Mirrored(h) && x in h.cell && Replaced(h, k, x, y)
    ensures k.root == Ren<Node?>(h.root, x, y) && k.cell.Keys == h.cell.Keys - {x} + {y}
  {
  }

  lemma ReplacedCell(h: Links, k: Links, x: Node, y: Node, n: Node)
    requires Mirrored(h) && x in h.cell && y !in h.cell && Replaced(h, k, x, y)
    requires Apart(h.cell[x]) && n in h.cell
    ensures Ren(n, x, y) in k.cell && k.cell[Ren(n, x, y)] == RenCell(h.cell[n], x, y)
  {
    hide Mirrored;
    LinksTo(h, x, n);
    LinksTo(h, x, x);
    if n == x {
    } else if n == h.cell[x].parent {
    } else if n == h.cell[x].left {
    } else if n == h.cell[x].right {
    } else {
    }
  }

  /** Exactly the neighbours of `x` link to it. */
  lemma LinksTo(h: Links, x: Node, n: Node)
    requires Mirrored(h) && x in h.cell && n in h.cell
    ensures (h.cell[n].left == x || h.cell[n].right == x) <==> n == h.cell[x].parent
    ensures !(h.cell[n].left == x && h.cell[n].right == x)
    ensures h.cell[n].parent == x <==> n == h.cell[x].left || n == h.cell[x].right
  {
  }

  ghost predicate Apart(d: Cell) {
    && (d.left != null ==> d.left != d.right && d.left != d.parent)
    && (d.right != null ==> d.right != d.parent)
  }

  /** Any node of the tree can be brought into focus. */
  lemma {:induction false} FindNode(h: Links, c0: Ctx, t0: Tree, e: Node) returns (c: Ctx, t: Tree)
    requires At(h, c0, t0) && e in Nodes(t0)
    ensures At(h, c, t) && t.Bin? && t.n == e && Plug(c, t) == Plug(c0, t0)
    decreases t0
  {
    if e in Nodes(t0.l) {
      DownL(h, c0, t0);
      c, t := FindNode(h, InL(c0, t0.n, t0.red, t0.r), t0.l, e);
    } else if e in Nodes(t0.r) {
      DownR(h, c0, t0);
      c, t := FindNode(h, InR(c0, t0.l, t0.n, t0.red), t0.r, e);
    } else {
      c, t := c0, t0;
    }
  }

  /** No node is linked to itself, and its neighbours are distinct nodes of the tree. */
  lemma NodeApart(h: Links, c: Ctx, t: Tree, e: Node)
    requires At(h, c, t) && e in h.cell
    ensures var d := h.cell[e]; Apart(d) && e !in {d.left, d.right, d.parent}
    ensures forall n | n in {h.cell[e].left, h.cell[e].right, h.cell[e].parent} && n != null :: n in h.cell
  {
    Unzip(h, c, t);
    var c', t' := FindNode(h, Top, Plug(c, t), e);
    Surroundings(h, c', t');
  }
}
