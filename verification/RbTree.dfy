/** RB_HEAD and the operations RB_GENERATE produces (sys/tree.h), on nodes updated in place. */
module RbTree {
  import opened TreeShape
  import opened RedBlack
  import opened Sequences
  import opened SearchOrder

  class RbHead {
    var root: Node?
    ghost var nodes: set<Node>
    ghost var tree: Tree

    /** The fields of the head and of all linked nodes, as one value. */
    ghost function Snap(): (h: Links)
      reads `root, `nodes, nodes
      ensures h.root == root && h.cell.Keys == nodes
      ensures forall n | n in nodes :: h.cell[n] == Cell(n.left, n.right, n.parent, n.red)
    {
      Links(root, map n | n in nodes :: Cell(n.left, n.right, n.parent, n.red))
    }

    ghost predicate Valid()
      reads this, nodes
    {
      At(Snap(), Top, tree) && RB(tree) && Sorted(Elems(tree))
    }

    constructor ()
      ensures Valid() && nodes == {} && tree == Leaf
    {
      root := null;
      nodes := {};
      tree := Leaf;
      new;
      assert Black(Leaf, 0);
    }

    /** RB_COLOR(n) = red, for the node in focus. */
    method Paint(n: Node, red: bool, ghost c: Ctx, ghost t: Tree)
      requires At(Snap(), c, t) && t.Bin? && t.n == n
      modifies nodes
      ensures At(Snap(), c, t.(red := red)) && Elems(Plug(c, t.(red := red))) == Elems(Plug(c, t))
    {
      PlugSame(c, t, t.(red := red));
      ghost var h := Snap();
      n.red := red;
      assert Snap() == h.(cell := h.cell[n := h.cell[n].(red := red)]);
      Recolored(h, Snap(), c, t, red);
    }

    /** The same for the children of the node in focus. */
    method PaintL(n: Node, red: bool, ghost c: Ctx, ghost t: Tree)
      requires At(Snap(), c, t) && t.Bin? && t.l.Bin? && t.l.n == n
      modifies nodes
      ensures var t' := t.(l := t.l.(red := red)); At(Snap(), c, t') && Elems(Plug(c, t')) == Elems(Plug(c, t))
    {
      ghost var c' := InL(c, t.n, t.red, t.r);
      DownL(Snap(), c, t);
      Paint(n, red, c', t.l);
      Up(Snap(), c', t.l.(red := red));
    }

    method PaintR(n: Node, red: bool, ghost c: Ctx, ghost t: Tree)
      requires At(Snap(), c, t) && t.Bin? && t.r.Bin? && t.r.n == n
      modifies nodes
      ensures var t' := t.(r := t.r.(red := red)); At(Snap(), c, t') && Elems(Plug(c, t')) == Elems(Plug(c, t))
    {
      ghost var c' := InR(c, t.l, t.n, t.red);
      DownR(Snap(), c, t);
      Paint(n, red, c', t.r);
      Up(Snap(), c', t.r.(red := red));
    }

    method RotateLeft(x: Node)
      requires x in nodes && x.right in nodes && x.right != x
      requires var y := x.right; y.left != null ==> y.left in nodes && y.left != x && y.left != y && y.left != x.parent
      requires x.parent != null ==> x.parent in nodes && x.parent != x && x.parent != x.right
      modifies this`root, nodes
      ensures LeftRotated(old(Snap()), Snap(), x)
    {
      var tmp := x.right;
      x.right := tmp.left;
      if x.right != null {
        tmp.left.parent := x;
      }
      tmp.parent := x.parent;
      if tmp.parent != null {
        if x == x.parent.left {
          x.parent.left := tmp;
        } else {
          x.parent.right := tmp;
        }
      } else {
        root := tmp;
      }
      tmp.left := x;
      x.parent := tmp;
    }

    method RotateRight(x: Node)
      requires x in nodes && x.left in nodes && x.left != x
      requires var y := x.left;
          y.right != null ==> y.right in nodes && y.right != x && y.right != y && y.right != x.parent
      requires x.parent != null ==> x.parent in nodes && x.parent != x && x.parent != x.left
      modifies this`root, nodes
      ensures RightRotated(old(Snap()), Snap(), x)
    {
      var tmp := x.left;
      x.left := tmp.right;
      if x.left != null {
        tmp.right.parent := x;
      }
      tmp.parent := x.parent;
      if tmp.parent != null {
        if x == x.parent.left {
          x.parent.left := tmp;
        } else {
          x.parent.right := tmp;
        }
      } else {
        root := tmp;
      }
      tmp.right := x;
      x.parent := tmp;
    }

    /** Rotations at the focus. */
    method TurnLeft(x: Node, ghost c: Ctx, ghost t: Tree)
      requires At(Snap(), c, t) && t.Bin? && t.n == x && t.r.Bin?
      modifies this`root, nodes
      ensures At(Snap(), c, RotL(t)) && Elems(Plug(c, RotL(t))) == Elems(Plug(c, t))
    {
      ghost var h := Snap();
      RotLSame(t);
      PlugSame(c, t, RotL(t));
      Surroundings(h, c, t);
      RotateLeft(x);
      RotatedLeft(h, Snap(), c, t);
    }

    method TurnRight(x: Node, ghost c: Ctx, ghost t: Tree)
      requires At(Snap(), c, t) && t.Bin? && t.n == x && t.l.Bin?
      modifies this`root, nodes
      ensures At(Snap(), c, RotR(t)) && Elems(Plug(c, RotR(t))) == Elems(Plug(c, t))
    {
      ghost var h := Snap();
      RotRSame(t);
      PlugSame(c, t, RotR(t));
      Surroundings(h, c, t);
      RotateRight(x);
      RotatedRight(h, Snap(), c, t);
    }

    // ----- RB_INSERT_COLOR

    /** The left half of the loop body: the red parent is a left child. */
    method InsertFixL(elm: Node, parent: Node, gparent: Node, ghost c: Ctx, ghost t: Tree, ghost h: int)
      returns (e: Node, ghost c': Ctx, ghost t': Tree, ghost h': int)
      requires At(Snap(), c, t) && InsInv(c, t, h) && IsRed(t) && CRed(c) && c.up.InL?
      requires elm == t.n && parent == c.n && gparent == c.up.n
      modifies this`root, nodes
      ensures At(Snap(), c', t') && InsInv(c', t', h') && IsRed(t') && e == t'.n
      ensures Elems(Plug(c', t')) == Elems(Plug(c, t))
      ensures CRed(c') ==> Depth(c') < Depth(c)
    {
      hide At, InsInv, Elems, Plug, Snap;
      InsGrand(c, t, h);
      KinLinks(Snap(), c, t);
      var tmp := gparent.right;
      if tmp != null && tmp.red {
        InsertRecolourL(tmp, parent, gparent, c, t);
        InsRecolour(c, t, h);
        return gparent, c.up.up, Recoloured(c, t), h + 1;
      }
      e, c', t' := InsertRotateL(elm, parent, gparent, c, t, h);
      h' := h;
    }

    /** Black uncle: one or two rotations, after which the loop stops. */
    method InsertRotateL(elm: Node, parent: Node, gparent: Node, ghost c: Ctx, ghost t: Tree, ghost h: int)
      returns (e: Node, ghost c': Ctx, ghost t': Tree)
      requires At(Snap(), c, t) && InsInv(c, t, h) && IsRed(t) && CRed(c) && c.up.InL? && !IsRed(c.up.r)
      requires elm == t.n && parent == c.n && gparent == c.up.n
      modifies this`root, nodes
      ensures At(Snap(), c', t') && InsInv(c', t', h) && IsRed(t') && e == t'.n && !CRed(c')
      ensures Elems(Plug(c', t')) == Elems(Plug(c, t))
    {
      hide At, InsInv, Elems, Plug, Snap;
      KinLinks(Snap(), c, t);
      e, c', t' := elm, c, t;
      var p := parent;
      if parent.right == elm {
        InsertInnerL(elm, parent, c, t);
        InsRotateInner(c, t, h);
        c', t' := InL(c.up, t.n, true, t.r), Bin(c.l, c.n, true, t.l);
        p, e := elm, parent;
      }
      InsertOuterL(p, gparent, c', t');
      InsRotateOuter(c', t', h);
      c' := InL(c.up.up, p, false, Bin(c'.r, gparent, true, c.up.r));
    }

    /** Red uncle: recolour and continue at the grandparent. */
    method InsertRecolourL(tmp: Node, parent: Node, gparent: Node, ghost c: Ctx, ghost t: Tree)
      requires At(Snap(), c, t) && !c.Top? && c.up.InL? && c.up.r.Bin?
      requires tmp == c.up.r.n && parent == c.n && gparent == c.up.n
      modifies nodes
      ensures At(Snap(), c.up.up, Recoloured(c, t))
      ensures Elems(Plug(c.up.up, Recoloured(c, t))) == Elems(Plug(c, t))
    {
      hide At, Elems, Snap;
      Up(Snap(), c, t);
      Up(Snap(), c.up, UpTree(c, t));
      ghost var g := UpTree(c.up, UpTree(c, t));
      PaintR(tmp, false, c.up.up, g);
      PaintL(parent, false, c.up.up, g.(r := Blacken(g.r)));
      Paint(gparent, true, c.up.up, g.(r := Blacken(g.r), l := Blacken(g.l)));
    }

    /** The element is a right child: a left rotation at the parent makes the two swap roles. */
    method InsertInnerL(elm: Node, parent: Node, ghost c: Ctx, ghost t: Tree)
      requires At(Snap(), c, t) && t.Bin? && t.red && c.InR? && c.red && elm == t.n && parent == c.n
      modifies this`root, nodes
      ensures var c', t' := InL(c.up, t.n, true, t.r), Bin(c.l, c.n, true, t.l);
        At(Snap(), c', t') && Elems(Plug(c', t')) == Elems(Plug(c, t))
    {
      Up(Snap(), c, t);
      TurnLeft(parent, c.up, UpTree(c, t));
      DownL(Snap(), c.up, RotL(UpTree(c, t)));
    }

    /** Black parent, red grandparent, then a right rotation at the grandparent. */
    method InsertOuterL(parent: Node, gparent: Node, ghost c: Ctx, ghost t: Tree)
      requires At(Snap(), c, t) && c.InL? && c.up.InL? && parent == c.n && gparent == c.up.n
      modifies this`root, nodes
      ensures var c' := InL(c.up.up, c.n, false, Bin(c.r, c.up.n, true, c.up.r));
        At(Snap(), c', t) && Elems(Plug(c', t)) == Elems(Plug(c, t))
    {
      hide At, Elems, Snap;
      Up(Snap(), c, t);
      Up(Snap(), c.up, UpTree(c, t));
      ghost var g := UpTree(c.up, UpTree(c, t));
      PaintL(parent, false, c.up.up, g);
      g := g.(l := g.l.(red := false));
      Paint(gparent, true, c.up.up, g);
      g := g.(red := true);
      TurnRight(gparent, c.up.up, g);
      DownL(Snap(), c.up.up, RotR(g));
    }

    /** The right half of the loop body: the red parent is a right child. */
    method InsertFixR(elm: Node, parent: Node, gparent: Node, ghost c: Ctx, ghost t: Tree, ghost h: int)
      returns (e: Node, ghost c': Ctx, ghost t': Tree, ghost h': int)
      requires At(Snap(), c, t) && InsInv(c, t, h) && IsRed(t) && CRed(c) && c.up.InR?
      requires elm == t.n && parent == c.n && gparent == c.up.n
      modifies this`root, nodes
      ensures At(Snap(), c', t') && InsInv(c', t', h') && IsRed(t') && e == t'.n
      ensures Elems(Plug(c', t')) == Elems(Plug(c, t))
      ensures CRed(c') ==> Depth(c') < Depth(c)
    {
      hide At, InsInv, Elems, Plug, Snap;
      InsGrand(c, t, h);
      KinLinks(Snap(), c, t);
      var tmp := gparent.left;
      if tmp != null && tmp.red {
        InsertRecolourR(tmp, parent, gparent, c, t);
        InsRecolour(c, t, h);
        return gparent, c.up.up, Recoloured(c, t), h + 1;
      }
      e, c', t' := InsertRotateR(elm, parent, gparent, c, t, h);
      h' := h;
    }

    /** Black uncle: one or two rotations, after which the loop stops. */
    method InsertRotateR(elm: Node, parent: Node, gparent: Node, ghost c: Ctx, ghost t: Tree, ghost h: int)
      returns (e: Node, ghost c': Ctx, ghost t': Tree)
      requires At(Snap(), c, t) && InsInv(c, t, h) && IsRed(t) && CRed(c) && c.up.InR? && !IsRed(c.up.l)
      requires elm == t.n && parent == c.n && gparent == c.up.n
      modifies this`root, nodes
      ensures At(Snap(), c', t') && InsInv(c', t', h) && IsRed(t') && e == t'.n && !CRed(c')
      ensures Elems(Plug(c', t')) == Elems(Plug(c, t))
    {
      hide At, InsInv, Elems, Plug, Snap;
      KinLinks(Snap(), c, t);
      e, c', t' := elm, c, t;
      var p := parent;
      if parent.left == elm {
        InsertInnerR(elm, parent, c, t);
        InsRotateInner(c, t, h);
        c', t' := InR(c.up, t.l, t.n, true), Bin(t.r, c.n, true, c.r);
        p, e := elm, parent;
      }
      InsertOuterR(p, gparent, c', t');
      InsRotateOuter(c', t', h);
      c' := InR(c.up.up, Bin(c.up.l, gparent, true, c'.l), p, false);
    }

    /** Red uncle: recolour and continue at the grandparent. */
    method InsertRecolourR(tmp: Node, parent: Node, gparent: Node, ghost c: Ctx, ghost t: Tree)
      requires At(Snap(), c, t) && !c.Top? && c.up.InR? && c.up.l.Bin?
      requires tmp == c.up.l.n && parent == c.n && gparent == c.up.n
      modifies nodes
      ensures At(Snap(), c.up.up, Recoloured(c, t))
      ensures Elems(Plug(c.up.up, Recoloured(c, t))) == Elems(Plug(c, t))
    {
      hide At, Elems, Snap;
      Up(Snap(), c, t);
      Up(Snap(), c.up, UpTree(c, t));
      ghost var g := UpTree(c.up, UpTree(c, t));
      PaintL(tmp, false, c.up.up, g);
      PaintR(parent, false, c.up.up, g.(l := Blacken(g.l)));
      Paint(gparent, true, c.up.up, g.(r := Blacken(g.r), l := Blacken(g.l)));
    }

    /** The element is a left child: a right rotation at the parent makes the two swap roles. */
    method InsertInnerR(elm: Node, parent: Node, ghost c: Ctx, ghost t: Tree)
      requires At(Snap(), c, t) && t.Bin? && t.red && c.InL? && c.red && elm == t.n && parent == c.n
      modifies this`root, nodes
      ensures var c', t' := InR(c.up, t.l, t.n, true), Bin(t.r, c.n, true, c.r);
        At(Snap(), c', t') && Elems(Plug(c', t')) == Elems(Plug(c, t))
    {
      Up(Snap(), c, t);
      TurnRight(parent, c.up, UpTree(c, t));
      DownR(Snap(), c.up, RotR(UpTree(c, t)));
    }

    /** Black parent, red grandparent, then a left rotation at the grandparent. */
    method InsertOuterR(parent: Node, gparent: Node, ghost c: Ctx, ghost t: Tree)
      requires At(Snap(), c, t) && c.InR? && c.up.InR? && parent == c.n && gparent == c.up.n
      modifies this`root, nodes
      ensures var c' := InR(c.up.up, Bin(c.up.l, c.up.n, true, c.l), c.n, false);
        At(Snap(), c', t) && Elems(Plug(c', t)) == Elems(Plug(c, t))
    {
      hide At, Elems, Snap;
      Up(Snap(), c, t);
      Up(Snap(), c.up, UpTree(c, t));
      ghost var g := UpTree(c.up, UpTree(c, t));
      PaintR(parent, false, c.up.up, g);
      g := g.(r := g.r.(red := false));
      Paint(gparent, true, c.up.up, g);
      g := g.(red := true);
      TurnLeft(gparent, c.up.up, g);
      DownR(Snap(), c.up.up, RotL(g));
    }

    /** Restores the red-black conditions after a red leaf was linked in (RB_INSERT_COLOR). */
    method InsertColor(e: Node, ghost c0: Ctx, ghost t0: Tree, ghost h0: int) returns (ghost w: Tree, ghost turns: nat)
      requires At(Snap(), c0, t0) && InsInv(c0, t0, h0) && IsRed(t0) && e == t0.n
      modifies this`root, nodes
      ensures At(Snap(), Top, w) && RB(w) && Elems(w) == Elems(Plug(c0, t0)) && turns <= 1 + Depth(c0)
    {
      hide At, InsInv, Snap, RB;
      var elm := e;
      ghost var c, t, h := c0, t0, h0;
      turns := 0;
      Surroundings(Snap(), c, t);
      var parent := elm.parent;
      while parent != null && parent.red
        invariant At(Snap(), c, t) && InsInv(c, t, h)
        invariant IsRed(t) && elm == t.n && parent == Par(c)
        invariant Elems(Plug(c, t)) == Elems(Plug(c0, t0))
        invariant turns + (if CRed(c) then 1 + Depth(c) else 0) <= 1 + Depth(c0)
        decreases if CRed(c) then 1 + Depth(c) else 0
      {
        turns := turns + 1;
        KinLinks(Snap(), c, t);
        InsGrand(c, t, h);
        var gparent := parent.parent;
        if parent == gparent.left {
          elm, c, t, h := InsertFixL(elm, parent, gparent, c, t, h);
        } else {
          elm, c, t, h := InsertFixR(elm, parent, gparent, c, t, h);
        }
        Surroundings(Snap(), c, t);
        parent := elm.parent;
      }
      if !c.Top? { KinLinks(Snap(), c, t); }
      InsDone(c, t, h);
      Unzip(Snap(), c, t);
      PlugRoot(c, t);
      w := BlackenRoot(Plug(c, t));
    }

    /** RB_COLOR(head->rbh_root) = RB_BLACK */
    method BlackenRoot(ghost t: Tree) returns (ghost w: Tree)
      requires At(Snap(), Top, t) && t.Bin?
      modifies nodes
      ensures w == Blacken(t) && At(Snap(), Top, w) && Elems(w) == Elems(t)
    {
      RootLink(Snap(), t);
      Paint(root, false, Top, t);
      w := t.(red := false);
    }

    // ----- RB_INSERT

    /** RB_SET and the link from the parent. */
    method AddLeaf(elm: Node, parent: Node?, comp: int)
      requires elm !in nodes && (parent != null ==> parent in nodes)
      modifies this`root, this`nodes, nodes, elm
      ensures nodes == old(nodes) + {elm} && LeafAdded(old(Snap()), Snap(), elm, parent, comp < 0)
    {
      elm.parent := parent;
      elm.left, elm.right := null, null;
      elm.red := true;
      if parent != null {
        if comp < 0 {
          parent.left := elm;
        } else {
          parent.right := elm;
        }
      } else {
        root := elm;
      }
      nodes := nodes + {elm};
    }

    /** The search loop of RB_INSERT: an element with the same key, or the hole where one belongs. */
    method Descend(key: int)
      returns (found: Node?, parent: Node?, comp: int, ghost c: Ctx, ghost h: int, ghost turns: nat)
      requires Valid()
      ensures found != null ==> found in nodes && found.key == key
      ensures found == null ==>
        && At(Snap(), c, Leaf) && Plug(c, Leaf) == tree && Focus(c, Leaf, h)
        && Below(Before(c), key) && Above(After(c), key)
        && parent == Par(c) && (comp < 0 <==> c.InL?)
      ensures turns == Visits(tree, key) && turns <= Height(tree) && (found == null ==> turns == Depth(c))
    {
      var tmp := root;
      parent, comp, turns := null, 0, 0;
      c := Top;
      ghost var t := tree;
      h :| Black(tree, h);
      while tmp != null
        invariant At(Snap(), c, t) && Plug(c, t) == tree && Focus(c, t, h)
        invariant tmp == Root(t) && parent == Par(c) && (comp < 0 <==> c.InL?)
        invariant Below(Before(c), key) && Above(After(c), key)
        invariant turns == Depth(c) && turns + Height(t) <= Height(tree)
        invariant turns + Visits(t, key) == Visits(tree, key)
        decreases t
      {
        hide At, Focus, Elems, Plug, Sorted, RB, Snap;
        turns := turns + 1;
        Surroundings(Snap(), c, t);
        SearchSplit(c, t);
        FocusDown(c, t, h);
        parent := tmp;
        comp := if key < parent.key then -1 else if key > parent.key then 1 else 0;
        ghost var k := if t.red then h else h - 1;
        if comp < 0 {
          tmp := tmp.left;
          DownL(Snap(), c, t);
          c, t, h := InL(c, t.n, t.red, t.r), t.l, k;
        } else if comp > 0 {
          tmp := tmp.right;
          DownR(Snap(), c, t);
          c, t, h := InR(c, t.l, t.n, t.red), t.r, k;
        } else {
          found := tmp;
          return;
        }
      }
      found := null;
    }

    /** RB_INSERT: links in an element whose key is new, or else returns the one that has the key and
        leaves every link and colour alone. */
    method Insert(elm: Node) returns (r: Node?, ghost turns: nat)
      requires Valid()
      modifies this, nodes, elm
      ensures Valid()
      ensures r != null ==> r in nodes && r.key == elm.key
      ensures r != null ==> nodes == old(nodes) && tree == old(tree) && Snap() == old(Snap())
      ensures r == null ==> nodes == old(nodes) + {elm} && forall n | n in old(nodes) :: n.key != elm.key
      ensures r == null ==> InsertedAt(old(Elems(tree)), elm, Elems(tree))
      ensures elm in old(nodes) ==> r == elm
      ensures Visits(old(tree), elm.key) <= turns <= 2 * Height(old(tree)) + 1
    {
      var parent, comp;
      ghost var c, h;
      r, parent, comp, c, h, turns := Descend(elm.key);
      if r == null {
        NotThere(Snap(), c, elm.key);
        ghost var fix := LinkIn(elm, parent, comp, c, h);
        turns := turns + fix;
      } else if elm in nodes {
        UniqueKey(r, elm);
      }
    }

    /** No two elements of the tree have the same key. */
    lemma UniqueKey(a: Node, b: Node)
      requires Valid() && a in nodes && b in nodes && a.key == b.key
      ensures a == b
    {
      ElemsNodes(tree);
    }

    /** The tail of RB_INSERT, once the search has ended at a hole. */
    method LinkIn(elm: Node, parent: Node?, comp: int, ghost c: Ctx, ghost h: int) returns (ghost turns: nat)
      requires Valid() && elm !in nodes
      requires At(Snap(), c, Leaf) && Plug(c, Leaf) == tree && Focus(c, Leaf, h)
      requires Below(Before(c), elm.key) && Above(After(c), elm.key)
      requires parent == Par(c) && (comp < 0 <==> c.InL?)
      modifies this, nodes, elm
      ensures Valid() && nodes == old(nodes) + {elm} && forall n | n in old(nodes) :: n.key != elm.key
      ensures InsertedAt(old(Elems(tree)), elm, Elems(tree)) && turns <= 1 + Depth(c)
    {
      hide At, Focus, Snap, LeafAdded, Elems, Before, After, Plug, Sorted, RB, Below, Above, InsertedAt, InsInv;
      HoleElems(c, elm);
      KeyAbsent(Snap(), tree, Before(c), After(c), elm.key);
      InsertOrder(Before(c), elm, After(c));
      if !c.Top? { KinLinks(Snap(), c, Leaf); }
      ghost var k := Snap();
      AddLeaf(elm, parent, comp);
      AddedLeaf(k, Snap(), c, elm);
      FocusLeaf(c, elm, h);
      tree, turns := InsertColor(elm, c, Bin(Leaf, elm, true, Leaf), h);
    }

    // ----- RB_REMOVE

    /** Unlinks a node that has at most the one child `child`. */
    method Splice(elm: Node, child: Node?)
      requires elm in nodes && child != elm
      requires child != null ==> child in nodes && child != elm.parent
      requires elm.parent != null ==> elm.parent in nodes && elm.parent != elm
      modifies this`root, this`nodes, nodes
      ensures nodes == old(nodes) - {elm} && Spliced(old(Snap()), Snap(), elm, child) && unchanged(elm)
    {
      var parent := elm.parent;
      if child != null {
        child.parent := parent;
      }
      if parent != null {
        if parent.left == elm {
          parent.left := child;
        } else {
          parent.right := child;
        }
      } else {
        root := child;
      }
      nodes := nodes - {elm};
    }

    /** Puts `elm`, already taken out, in the place of `out`: copied fields, then the links of the neighbours. */
    method Replace(out: Node, elm: Node)
      requires out in nodes && elm !in nodes && out.left != null
      requires out.left in nodes && out.left != out && out.left != out.right && out.left != out.parent
      requires out.right != null ==> out.right in nodes && out.right != out && out.right != out.parent
      requires out.parent != null ==> out.parent in nodes && out.parent != out
      modifies this`root, this`nodes, nodes, elm
      ensures nodes == old(nodes) - {out} + {elm} && Replaced(old(Snap()), Snap(), out, elm)
    {
      elm.left, elm.right, elm.parent, elm.red := out.left, out.right, out.parent, out.red;
      if out.parent != null {
        if out.parent.left == out {
          out.parent.left := elm;
        } else {
          out.parent.right := elm;
        }
      } else {
        root := elm;
      }
      out.left.parent := elm;
      if out.right != null {
        out.right.parent := elm;
      }
      nodes := nodes - {out} + {elm};
    }

    /** The leftmost node of the right subtree of the focus. */
    method Successor(out: Node, ghost c: Ctx, ghost t: Tree)
      returns (elm: Node, ghost c': Ctx, ghost t': Tree, ghost turns: nat)
      requires At(Snap(), c, t) && t.Bin? && t.n == out && t.r.Bin?
      ensures At(Snap(), c', t') && t'.Bin? && t'.l.Leaf? && elm == t'.n && Plug(c', t') == Plug(c, t)
      ensures Before(c') == Before(c) + Elems(t.l) + [out] && out in CNodes(c') && elm in Nodes(t.r)
      ensures Depth(c') == Depth(c) + 1 + turns
    {
      turns := 0;
      Surroundings(Snap(), c, t);
      DownR(Snap(), c, t);
      elm := out.right;
      c', t' := InR(c, t.l, out, t.red), t.r;
      Surroundings(Snap(), c', t');
      var left := elm.left;
      while left != null
        invariant At(Snap(), c', t') && t'.Bin? && elm == t'.n && left == Root(t'.l) && Plug(c', t') == Plug(c, t)
        invariant Before(c') == Before(c) + Elems(t.l) + [out] && out in CNodes(c')
        invariant Nodes(t') <= Nodes(t.r) && Depth(c') == Depth(c) + 1 + turns
        decreases t'
      {
        hide At, Snap, Elems, Plug;
        turns := turns + 1;
        elm := left;
        DownL(Snap(), c', t');
        c', t' := InL(c', t'.n, t'.red, t'.r), t'.l;
        Surroundings(Snap(), c', t');
        left := elm.left;
      }
    }

    /** The node is replaced by its successor, whose own place is taken by the successor's right child. */
    method Transplant(out: Node, elm: Node, ghost c: Ctx, ghost t: Tree)
      returns (child: Node?, parent: Node?, red: bool)
      requires At(Snap(), c, t) && t.Bin? && t.l.Leaf? && t.n == elm && out in CNodes(c)
      requires out.left != null && out.left != elm
      modifies this`root, this`nodes, nodes
      ensures nodes == old(nodes) - {out}
      ensures At(Snap(), CSub(c, out, elm), t.r)
      ensures child == Root(t.r) && parent == Par(CSub(c, out, elm)) && red == t.red
    {
      hide At, Snap, Mirrored, Replaced, Renamed, Spliced, Nodes, CNodes;
      Within(c, t, out);
      ghost var h := Snap();
      Surroundings(h, c, t);
      NodeApart(h, c, t, out);
      child, parent, red := elm.right, elm.parent, elm.red;
      Splice(elm, child);
      ghost var k := Snap();
      SplicedOut(h, k, c, t, t.r);
      SplicedLeft(h, k, elm, child, out);
      if elm.parent == out {
        parent := elm;
      }
      ReplaceAt(out, elm, c, t.r);
    }

    lemma Within(c: Ctx, t: Tree, n: Node)
      requires At(Snap(), c, t) && t.Bin? && n in CNodes(c)
      ensures n in nodes && t.n !in CNodes(c)
    {
    }

    lemma Outside(c: Ctx, t: Tree, n: Node)
      requires At(Snap(), c, t) && n !in nodes
      ensures n !in CNodes(c) && forall m | m in CNodes(c) :: m in nodes
    {
    }

    method ReplaceAt(out: Node, elm: Node, ghost c: Ctx, ghost t: Tree)
      requires At(Snap(), c, t) && out in CNodes(c) && elm !in nodes && out.left != null
      modifies this`root, this`nodes, nodes, elm
      ensures nodes == old(nodes) - {out} + {elm}
      ensures At(Snap(), CSub(c, out, elm), t) && Par(CSub(c, out, elm)) == Ren<Node?>(Par(c), out, elm)
    {
      hide At, Snap, Mirrored, Replaced, Renamed;
      ghost var k := Snap();
      Outside(c, t, elm);
      AtMirrored(k, c, t);
      NodeApart(k, c, t, out);
      CSubNodes(c, out, elm);
      Replace(out, elm);
      ReplacedRenamed(k, Snap(), out, elm);
      Substituted(k, Snap(), c, t, out, elm);
    }

    /** The two-children case of RB_REMOVE. */
    /** The element that will stand in for `out`, with all that its transplantation asks for. */
    method SuccessorOf(out: Node, ghost c: Ctx, ghost t: Tree)
      returns (elm: Node, ghost c': Ctx, ghost t': Tree, ghost turns: nat)
      requires Valid() && At(Snap(), c, t) && Plug(c, t) == tree && t.Bin? && t.n == out && t.l.Bin? && t.r.Bin?
      ensures At(Snap(), c', t') && t'.Bin? && t'.l.Leaf? && elm == t'.n && Plug(c', t') == tree
      ensures Before(c') == Before(c) + Elems(t.l) + [out] && out in CNodes(c') && out in nodes
      ensures out !in Nodes(t'.r) && elm !in Nodes(t'.r) && out.left != null && out.left != elm
      ensures turns < Depth(CSub(c', out, elm)) < Height(tree) && RB(tree) && Sorted(Elems(tree))
    {
      hide RB, Sorted, Elems;
      assert t.l.n in Nodes(t.l) && out in nodes;
      Surroundings(Snap(), c, t);
      elm, c', t', turns := Successor(out, c, t);
      DepthHeight(c', t');
      SubDepth(c', out, elm);
      assert elm != t.l.n;
    }

    method UnlinkBoth(out: Node, ghost c: Ctx, ghost t: Tree)
      returns (child: Node?, parent: Node?, red: bool, ghost c': Ctx, ghost t': Tree, ghost h: int, ghost turns: nat)
      requires Valid() && At(Snap(), c, t) && Plug(c, t) == tree && t.Bin? && t.n == out && t.l.Bin? && t.r.Bin?
      modifies this`root, this`nodes, nodes
      ensures nodes == old(nodes) - {out}
      ensures At(Snap(), c', t') && Gone(c', t', red, h) && child == Root(t') && parent == Par(c')
      ensures RemovedFrom(Elems(tree), out, Elems(Plug(c', t'))) && turns < Depth(c') < Height(tree)
    {
      hide At, Elems, Before, Plug, Gone, Sorted, RB, Focus, Nodes, CNodes, RemovedFrom, Depth, Height;
      var elm;
      elm, c', t', turns := SuccessorOf(out, c, t);
      ghost var k := FocusFrom(c', t');
      SpliceGone(c', t', k, t'.r);
      h := if t'.red then k else k - 1;
      SubGone(c', t'.r, t'.red, h, out, elm);
      SuccessorOrder(c', t', out, Before(c) + Elems(t.l));
      child, parent, red := Transplant(out, elm, c', t');
      c', t' := CSub(c', out, elm), t'.r;
    }

    /** RB_REMOVE up to its fix-up: `elm` is gone, and the focus is where a black node may be missing. */
    method Unlink(elm: Node)
      returns (child: Node?, parent: Node?, red: bool, ghost c: Ctx, ghost t: Tree, ghost h: int, ghost turns: nat)
      requires Valid() && elm in nodes
      modifies this`root, this`nodes, nodes
      ensures nodes == old(nodes) - {elm}
      ensures At(Snap(), c, t) && Gone(c, t, red, h) && child == Root(t) && parent == Par(c)
      ensures RemovedFrom(Elems(tree), elm, Elems(Plug(c, t))) && turns <= Depth(c) < Height(tree)
    {
      ghost var s;
      c, s := FindNode(Snap(), Top, tree, elm);
      Surroundings(Snap(), c, s);
      DepthHeight(c, s);
      turns := 0;
      if elm.left == null {
        child, c, t := elm.right, c, s.r;
        parent, red, h := UnlinkOne(elm, child, c, s, t);
      } else if elm.right == null {
        child, c, t := elm.left, c, s.l;
        parent, red, h := UnlinkOne(elm, child, c, s, t);
      } else {
        child, parent, red, c, t, h, turns := UnlinkBoth(elm, c, s);
      }
    }

    method UnlinkOne(elm: Node, child: Node?, ghost c: Ctx, ghost s: Tree, ghost t: Tree)
      returns (parent: Node?, red: bool, ghost h: int)
      requires Valid() && At(Snap(), c, s) && Plug(c, s) == tree && s.Bin? && s.n == elm
      requires ((s.l.Leaf? && t == s.r) || (s.r.Leaf? && t == s.l)) && child == Root(t)
      modifies this`root, this`nodes, nodes
      ensures nodes == old(nodes) - {elm}
      ensures At(Snap(), c, t) && Gone(c, t, red, h) && parent == Par(c)
      ensures RemovedFrom(Elems(tree), elm, Elems(Plug(c, t)))
    {
      Surroundings(Snap(), c, s);
      hide At, Elems, Plug, Gone, Sorted, RB, Focus, RemovedFrom, Spliced;
      ghost var k := FocusFrom(c, s);
      SpliceGone(c, s, k, t);
      SpliceElems(c, s, t);
      parent, red := elm.parent, elm.red;
      h := if red then k else k - 1;
      ghost var l := Snap();
      Splice(elm, child);
      SplicedOut(l, Snap(), c, s, t);
    }

    // ----- RB_REMOVE_COLOR

    /** The left half of the loop body: the focus, a black node short, is a left child. `done`
        stands for the source's `elm = RB_ROOT(head); break`. */
    method RemoveFixL(parent0: Node, elm: Node?, ghost c0: Ctx, ghost t: Tree, ghost h: int)
      returns (e: Node?, p: Node?, done: bool, ghost c': Ctx, ghost t': Tree, ghost h': int)
      requires At(Snap(), c0, t) && RemInv(c0, t, h) && !IsRed(t) && c0.InL? && parent0 == c0.n && elm == Root(t)
      modifies this`root, nodes
      ensures At(Snap(), c', t') && Elems(Plug(c', t')) == Elems(Plug(c0, t)) && e == Root(t')
      ensures if done then c' == Top && RB(t') else p == Par(c') && RemInv(c', t', h')
      ensures done || IsRed(t') || Depth(c') < Depth(c0)
    {
      hide At, RemInv, Snap, Elems, Plug, RB, Black;
      var parent := parent0;
      ghost var c := c0;
      RemSibling(c, t, h);
      KinLinks(Snap(), c, t);
      var tmp := parent.right;
      if tmp.red {
        RemRedSiblingL(c, t, h);
        RemoveRedL(parent, tmp, c, t);
        c := InL(InL(c.up, c.r.n, false, c.r.r), c.n, true, c.r.l);
        KinLinks(Snap(), c, t);
        tmp := parent.right;
        RemSibling(c, t, h);
      }
      e, p, done, c', t', h' := RemoveBlackL(parent, tmp, c, t, h);
    }

    /** Red sibling: recolour and rotate, which leaves a black sibling and a red parent. */
    method RemoveRedL(parent: Node, tmp: Node, ghost c: Ctx, ghost t: Tree)
      requires At(Snap(), c, t) && c.InL? && c.r.Bin? && parent == c.n && tmp == c.r.n
      modifies this`root, nodes
      ensures var c' := InL(InL(c.up, c.r.n, false, c.r.r), c.n, true, c.r.l);
        At(Snap(), c', t) && Elems(Plug(c', t)) == Elems(Plug(c, t))
    {
      hide At, Snap, Elems;
      Up(Snap(), c, t);
      ghost var g := UpTree(c, t);
      PaintR(tmp, false, c.up, g);
      g := g.(r := g.r.(red := false));
      Paint(parent, true, c.up, g);
      g := g.(red := true);
      TurnLeft(parent, c.up, g);
      DownL(Snap(), c.up, RotL(g));
      DownL(Snap(), InL(c.up, c.r.n, false, c.r.r), RotL(g).l);
    }

    /** The rest of the loop body, once the sibling is black. */
    method RemoveBlackL(parent: Node, tmp: Node, ghost c: Ctx, ghost t: Tree, ghost h: int)
      returns (e: Node?, p: Node?, done: bool, ghost c': Ctx, ghost t': Tree, ghost h': int)
      requires At(Snap(), c, t) && RemInv(c, t, h) && !IsRed(t) && c.InL? && c.r.Bin? && !c.r.red
      requires parent == c.n && tmp == c.r.n
      modifies this`root, nodes
      ensures At(Snap(), c', t') && Elems(Plug(c', t')) == Elems(Plug(c, t)) && e == Root(t')
      ensures if done then c' == Top && RB(t') else p == Par(c') && RemInv(c', t', h')
      ensures done || (c' == c.up && IsRed(t') == c.red)
    {
      hide At, RemInv, Snap, Elems, RB, Black;
      ghost var g := UpTree(c, t);
      Up(Snap(), c, t);
      Surroundings(Snap(), c.up, g);
      DownR(Snap(), c.up, g);
      Surroundings(Snap(), InR(c.up, t, c.n, c.red), c.r);
      if (tmp.left == null || !tmp.left.red) && (tmp.right == null || !tmp.right.red) {
        RemBlackKids(c, t, h);
        PaintR(tmp, true, c.up, g);
        c', t', h' := c.up, g.(r := c.r.(red := true)), if c.red then h else h + 1;
        Surroundings(Snap(), c', t');
        e, p, done := parent, parent.parent, false;
      } else {
        t' := RemoveTurnL(parent, tmp, c, t, h);
        RootLink(Snap(), t');
        e, p, done, c', h' := root, null, true, Top, 0;
      }
    }

    /** A red nephew: at most two rotations end the repair. */
    method RemoveTurnL(parent: Node, tmp0: Node, ghost c0: Ctx, ghost t: Tree, ghost h: int) returns (ghost w: Tree)
      requires At(Snap(), c0, t) && RemInv(c0, t, h) && !IsRed(t) && c0.InL? && c0.r.Bin? && !c0.r.red
      requires parent == c0.n && tmp0 == c0.r.n && (IsRed(c0.r.l) || IsRed(c0.r.r))
      modifies this`root, nodes
      ensures At(Snap(), Top, w) && RB(w) && Elems(w) == Elems(Plug(c0, t))
    {
      hide At, RemInv, Snap, Elems, Plug, RB, Black;
      var tmp := tmp0;
      ghost var c, f := c0, InR(c0.up, t, c0.n, c0.red);
      Up(Snap(), c, t);
      DownR(Snap(), c.up, UpTree(c, t));
      Surroundings(Snap(), f, c.r);
      if tmp.right == null || !tmp.right.red {
        RemInnerL(c, t, h);
        RemoveInnerL(tmp, tmp.left, c, t);
        c := c.(r := RotR(Bin(c.r.l.(red := false), c.r.n, true, c.r.r)));
        KinLinks(Snap(), c, t);
        tmp := parent.right;
      }
      RemOuterL(c, t, h);
      w := RemoveOuterL(parent, tmp, c, t);
    }

    method RemoveInnerL(tmp: Node, oleft: Node, ghost c: Ctx, ghost t: Tree)
      requires At(Snap(), c, t) && c.InL? && c.r.Bin? && c.r.l.Bin? && tmp == c.r.n && oleft == c.r.l.n
      modifies this`root, nodes
      ensures var c' := c.(r := RotR(Bin(c.r.l.(red := false), c.r.n, true, c.r.r)));
        At(Snap(), c', t) && Elems(Plug(c', t)) == Elems(Plug(c, t))
    {
      hide At, Snap, Elems;
      ghost var f, g := InR(c.up, t, c.n, c.red), c.r;
      Up(Snap(), c, t);
      DownR(Snap(), c.up, UpTree(c, t));
      PaintL(oleft, false, f, g);
      g := g.(l := g.l.(red := false));
      Paint(tmp, true, f, g);
      g := g.(red := true);
      TurnRight(tmp, f, g);
      g := RotR(g);
      Up(Snap(), f, g);
      DownL(Snap(), c.up, UpTree(f, g));
    }

    /** if (RB_RIGHT(tmp)) RB_COLOR(RB_RIGHT(tmp)) = RB_BLACK */
    method BlackenNephewL(tmp: Node, ghost c: Ctx, ghost g: Tree)
      requires At(Snap(), c, g) && g.Bin? && g.r.Bin? && tmp == g.r.n
      modifies nodes
      ensures var g' := g.(r := g.r.(r := Blacken(g.r.r))); At(Snap(), c, g') && Elems(Plug(c, g')) == Elems(Plug(c, g))
    {
      hide At, Snap, Elems;
      ghost var f := InR(c, g.l, g.n, g.red);
      DownR(Snap(), c, g);
      Surroundings(Snap(), f, g.r);
      if tmp.right != null {
        PaintR(tmp.right, false, f, g.r);
      }
      Up(Snap(), f, g.r.(r := Blacken(g.r.r)));
    }

    method RemoveOuterL(parent: Node, tmp: Node, ghost c: Ctx, ghost t: Tree) returns (ghost w: Tree)
      requires At(Snap(), c, t) && c.InL? && c.r.Bin? && c.r.r.Bin? && parent == c.n && tmp == c.r.n
      modifies this`root, nodes
      ensures w == Plug(c.up, RotL(Bin(t, c.n, false, c.r.(red := c.red, r := Blacken(c.r.r)))))
      ensures At(Snap(), Top, w) && Elems(w) == Elems(Plug(c, t))
    {
      hide At, Snap, Elems;
      ghost var g := UpTree(c, t);
      Up(Snap(), c, t);
      KinLinks(Snap(), c, t);
      PaintR(tmp, parent.red, c.up, g);
      g := g.(r := g.r.(red := c.red));
      Paint(parent, false, c.up, g);
      g := g.(red := false);
      BlackenNephewL(tmp, c.up, g);
      g := g.(r := g.r.(r := Blacken(g.r.r)));
      TurnLeft(parent, c.up, g);
      Unzip(Snap(), c.up, RotL(g));
      w := Plug(c.up, RotL(g));
    }

    /** The right half of the loop body: the focus, a black node short, is a right child. `done`
        stands for the source's `elm = RB_ROOT(head); break`. */
    method RemoveFixR(parent0: Node, elm: Node?, ghost c0: Ctx, ghost t: Tree, ghost h: int)
      returns (e: Node?, p: Node?, done: bool, ghost c': Ctx, ghost t': Tree, ghost h': int)
      requires At(Snap(), c0, t) && RemInv(c0, t, h) && !IsRed(t) && c0.InR? && parent0 == c0.n && elm == Root(t)
      modifies this`root, nodes
      ensures At(Snap(), c', t') && Elems(Plug(c', t')) == Elems(Plug(c0, t)) && e == Root(t')
      ensures if done then c' == Top && RB(t') else p == Par(c') && RemInv(c', t', h')
      ensures done || IsRed(t') || Depth(c') < Depth(c0)
    {
      hide At, RemInv, Snap, Elems, Plug, RB, Black;
      var parent := parent0;
      ghost var c := c0;
      RemSibling(c, t, h);
      KinLinks(Snap(), c, t);
      var tmp := parent.left;
      if tmp.red {
        RemRedSiblingR(c, t, h);
        RemoveRedR(parent, tmp, c, t);
        c := InR(InR(c.up, c.l.l, c.l.n, false), c.l.r, c.n, true);
        KinLinks(Snap(), c, t);
        tmp := parent.left;
        RemSibling(c, t, h);
      }
      e, p, done, c', t', h' := RemoveBlackR(parent, tmp, c, t, h);
    }

    /** Red sibling: recolour and rotate, which leaves a black sibling and a red parent. */
    method RemoveRedR(parent: Node, tmp: Node, ghost c: Ctx, ghost t: Tree)
      requires At(Snap(), c, t) && c.InR? && c.l.Bin? && parent == c.n && tmp == c.l.n
      modifies this`root, nodes
      ensures var c' := InR(InR(c.up, c.l.l, c.l.n, false), c.l.r, c.n, true);
        At(Snap(), c', t) && Elems(Plug(c', t)) == Elems(Plug(c, t))
    {
      hide At, Snap, Elems;
      Up(Snap(), c, t);
      ghost var g := UpTree(c, t);
      PaintL(tmp, false, c.up, g);
      g := g.(l := g.l.(red := false));
      Paint(parent, true, c.up, g);
      g := g.(red := true);
      TurnRight(parent, c.up, g);
      DownR(Snap(), c.up, RotR(g));
      DownR(Snap(), InR(c.up, c.l.l, c.l.n, false), RotR(g).r);
    }

    /** The rest of the loop body, once the sibling is black. */
    method RemoveBlackR(parent: Node, tmp: Node, ghost c: Ctx, ghost t: Tree, ghost h: int)
      returns (e: Node?, p: Node?, done: bool, ghost c': Ctx, ghost t': Tree, ghost h': int)
      requires At(Snap(), c, t) && RemInv(c, t, h) && !IsRed(t) && c.InR? && c.l.Bin? && !c.l.red
      requires parent == c.n && tmp == c.l.n
      modifies this`root, nodes
      ensures At(Snap(), c', t') && Elems(Plug(c', t')) == Elems(Plug(c, t)) && e == Root(t')
      ensures if done then c' == Top && RB(t') else p == Par(c') && RemInv(c', t', h')
      ensures done || (c' == c.up && IsRed(t') == c.red)
    {
      hide At, RemInv, Snap, Elems, RB, Black;
      ghost var g := UpTree(c, t);
      Up(Snap(), c, t);
      Surroundings(Snap(), c.up, g);
      DownL(Snap(), c.up, g);
      Surroundings(Snap(), InL(c.up, c.n, c.red, t), c.l);
      if (tmp.left == null || !tmp.left.red) && (tmp.right == null || !tmp.right.red) {
        RemBlackKids(c, t, h);
        PaintL(tmp, true, c.up, g);
        c', t', h' := c.up, g.(l := c.l.(red := true)), if c.red then h else h + 1;
        Surroundings(Snap(), c', t');
        e, p, done := parent, parent.parent, false;
      } else {
        t' := RemoveTurnR(parent, tmp, c, t, h);
        RootLink(Snap(), t');
        e, p, done, c', h' := root, null, true, Top, 0;
      }
    }

    /** A red nephew: at most two rotations end the repair. */
    method RemoveTurnR(parent: Node, tmp0: Node, ghost c0: Ctx, ghost t: Tree, ghost h: int) returns (ghost w: Tree)
      requires At(Snap(), c0, t) && RemInv(c0, t, h) && !IsRed(t) && c0.InR? && c0.l.Bin? && !c0.l.red
      requires parent == c0.n && tmp0 == c0.l.n && (IsRed(c0.l.l) || IsRed(c0.l.r))
      modifies this`root, nodes
      ensures At(Snap(), Top, w) && RB(w) && Elems(w) == Elems(Plug(c0, t))
    {
      hide At, RemInv, Snap, Elems, Plug, RB, Black;
      var tmp := tmp0;
      ghost var c, f := c0, InL(c0.up, c0.n, c0.red, t);
      Up(Snap(), c, t);
      DownL(Snap(), c.up, UpTree(c, t));
      Surroundings(Snap(), f, c.l);
      if tmp.left == null || !tmp.left.red {
        RemInnerR(c, t, h);
        RemoveInnerR(tmp, tmp.right, c, t);
        c := c.(l := RotL(Bin(c.l.l, c.l.n, true, c.l.r.(red := false))));
        KinLinks(Snap(), c, t);
        tmp := parent.left;
      }
      RemOuterR(c, t, h);
      w := RemoveOuterR(parent, tmp, c, t);
    }

    method RemoveInnerR(tmp: Node, oright: Node, ghost c: Ctx, ghost t: Tree)
      requires At(Snap(), c, t) && c.InR? && c.l.Bin? && c.l.r.Bin? && tmp == c.l.n && oright == c.l.r.n
      modifies this`root, nodes
      ensures var c' := c.(l := RotL(Bin(c.l.l, c.l.n, true, c.l.r.(red := false))));
        At(Snap(), c', t) && Elems(Plug(c', t)) == Elems(Plug(c, t))
    {
      hide At, Snap, Elems;
      ghost var f, g := InL(c.up, c.n, c.red, t), c.l;
      Up(Snap(), c, t);
      DownL(Snap(), c.up, UpTree(c, t));
      PaintR(oright, false, f, g);
      g := g.(r := g.r.(red := false));
      Paint(tmp, true, f, g);
      g := g.(red := true);
      TurnLeft(tmp, f, g);
      g := RotL(g);
      Up(Snap(), f, g);
      DownR(Snap(), c.up, UpTree(f, g));
    }

    /** if (RB_LEFT(tmp)) RB_COLOR(RB_LEFT(tmp)) = RB_BLACK */
    method BlackenNephewR(tmp: Node, ghost c: Ctx, ghost g: Tree)
      requires At(Snap(), c, g) && g.Bin? && g.l.Bin? && tmp == g.l.n
      modifies nodes
      ensures var g' := g.(l := g.l.(l := Blacken(g.l.l))); At(Snap(), c, g') && Elems(Plug(c, g')) == Elems(Plug(c, g))
    {
      hide At, Snap, Elems;
      ghost var f := InL(c, g.n, g.red, g.r);
      DownL(Snap(), c, g);
      Surroundings(Snap(), f, g.l);
      if tmp.left != null {
        PaintL(tmp.left, false, f, g.l);
      }
      Up(Snap(), f, g.l.(l := Blacken(g.l.l)));
    }

    method RemoveOuterR(parent: Node, tmp: Node, ghost c: Ctx, ghost t: Tree) returns (ghost w: Tree)
      requires At(Snap(), c, t) && c.InR? && c.l.Bin? && c.l.l.Bin? && parent == c.n && tmp == c.l.n
      modifies this`root, nodes
      ensures w == Plug(c.up, RotR(Bin(c.l.(red := c.red, l := Blacken(c.l.l)), c.n, false, t)))
      ensures At(Snap(), Top, w) && Elems(w) == Elems(Plug(c, t))
    {
      hide At, Snap, Elems;
      ghost var g := UpTree(c, t);
      Up(Snap(), c, t);
      KinLinks(Snap(), c, t);
      PaintL(tmp, parent.red, c.up, g);
      g := g.(l := g.l.(red := c.red));
      Paint(parent, false, c.up, g);
      g := g.(red := false);
      BlackenNephewR(tmp, c.up, g);
      g := g.(l := g.l.(l := Blacken(g.l.l)));
      TurnRight(parent, c.up, g);
      Unzip(Snap(), c.up, RotR(g));
      w := Plug(c.up, RotR(g));
    }

    /** Restores the red-black conditions where a black node was taken out (RB_REMOVE_COLOR). */
    method RemoveColor(parent0: Node?, elm0: Node?, ghost c0: Ctx, ghost t0: Tree, ghost h0: int)
      returns (ghost w: Tree, ghost turns: nat)
      requires At(Snap(), c0, t0) && RemInv(c0, t0, h0) && elm0 == Root(t0) && parent0 == Par(c0)
      modifies this`root, nodes
      ensures At(Snap(), Top, w) && RB(w) && Elems(w) == Elems(Plug(c0, t0)) && turns <= 1 + Depth(c0)
    {
      hide At, RemInv, Snap, Elems, RB, Black;
      var elm, parent, done := elm0, parent0, false;
      turns := 0;
      ghost var c, t, h := c0, t0, h0;
      ElmColour(Snap(), c, t);
      while (elm == null || !elm.red) && elm != root
        invariant At(Snap(), c, t) && elm == Root(t) && Elems(Plug(c, t)) == Elems(Plug(c0, t0))
        invariant if done then c == Top && RB(t) else RemInv(c, t, h) && parent == Par(c)
        invariant elm != null ==> elm in nodes && elm.red == t.red
        invariant elm == root <==> c.Top?
        invariant turns + (if done || IsRed(t) then 0 else 1 + Depth(c)) <= 1 + Depth(c0)
        decreases if done || IsRed(t) then 0 else 1 + Depth(c)
      {
        turns := turns + 1;
        KinLinks(Snap(), c, t);
        RemSibling(c, t, h);
        if parent.left == elm {
          elm, parent, done, c, t, h := RemoveFixL(parent, elm, c, t, h);
        } else {
          elm, parent, done, c, t, h := RemoveFixR(parent, elm, c, t, h);
        }
        ElmColour(Snap(), c, t);
        if done {
          break;
        }
      }
      w := RemoveEnd(elm, done, c, t, h);
    }

    /** if (elm) RB_COLOR(elm) = RB_BLACK */
    method RemoveEnd(elm: Node?, done: bool, ghost c: Ctx, ghost t: Tree, ghost h: int) returns (ghost w: Tree)
      requires At(Snap(), c, t) && elm == Root(t)
      requires if done then c == Top && RB(t) else RemInv(c, t, h) && (IsRed(t) || c.Top?)
      modifies nodes
      ensures At(Snap(), Top, w) && RB(w) && Elems(w) == Elems(Plug(c, t))
    {
      if !done { RemDone(c, t, h); }
      assert done ==> Blacken(t) == t;
      hide At, RemInv, Snap, Elems, RB, Black;
      if elm != null {
        Paint(elm, false, c, t);
      }
      Unzip(Snap(), c, Blacken(t));
      w := Plug(c, Blacken(t));
    }

    /** RB_REMOVE: takes out exactly the given element. */
    method Remove(elm: Node) returns (r: Node, ghost turns: nat)
      requires Valid() && elm in nodes
      modifies this, nodes
      ensures Valid() && r == elm
      ensures nodes == old(nodes) - {elm} && RemovedFrom(old(Elems(tree)), elm, Elems(tree))
      ensures turns <= 2 * Height(old(tree))
    {
      hide At, Snap, Elems, Plug, Sorted, RB, RemovedFrom, Gone;
      ghost var c, t, h, fix;
      var child, parent, red;
      child, parent, red, c, t, h, turns := Unlink(elm);
      RemovedSorted(Elems(tree), elm, Elems(Plug(c, t)));
      tree, fix := Repair(child, parent, red, c, t, h);
      r, turns := elm, turns + fix;
    }

    /** Only a removed black node needs the fix-up. */
    method Repair(child: Node?, parent: Node?, red: bool, ghost c: Ctx, ghost t: Tree, ghost h: int)
      returns (ghost w: Tree, ghost turns: nat)
      requires At(Snap(), c, t) && Gone(c, t, red, h) && child == Root(t) && parent == Par(c)
      modifies this`root, nodes
      ensures At(Snap(), Top, w) && RB(w) && Elems(w) == Elems(Plug(c, t)) && turns <= 1 + Depth(c)
    {
      hide At, Focus, Snap, Elems, RB, RemInv;
      turns := 0;
      if !red {
        w, turns := RemoveColor(parent, child, c, t, h);
      } else {
        FocusRB(c, t, h);
        Unzip(Snap(), c, t);
        w := Plug(c, t);
      }
    }

    // ----- reading

    /** RB_FIND */
    method Find(key: int) returns (r: Node?, ghost turns: nat)
      requires Valid()
      ensures r != null ==> r in nodes && r.key == key
      ensures r == null ==> forall n | n in nodes :: n.key != key
      ensures turns == Visits(tree, key) && turns <= Height(tree)
    {
      r, turns := root, 0;
      ghost var c, t := Top, tree;
      assert Before(c) == [] && After(c) == [];
      while r != null
        invariant At(Snap(), c, t) && Plug(c, t) == tree && r == Root(t)
        invariant Below(Before(c), key) && Above(After(c), key) && turns + Height(t) <= Height(tree)
        invariant turns + Visits(t, key) == Visits(tree, key)
        decreases t
      {
        hide At, Elems, Plug, Sorted, RB, Snap;
        turns := turns + 1;
        Surroundings(Snap(), c, t);
        SearchSplit(c, t);
        if key < r.key {
          r := r.left;
          DownL(Snap(), c, t);
          c, t := InL(c, t.n, t.red, t.r), t.l;
        } else if key > r.key {
          r := r.right;
          DownR(Snap(), c, t);
          c, t := InR(c, t.l, t.n, t.red), t.r;
        } else {
          return;
        }
      }
      if r == null { NotThere(Snap(), c, key); }
    }

    /** RB_NEXT: the in-order successor, or null after the last element. */
    method Next(elm: Node) returns (r: Node?, ghost turns: nat)
      requires Valid() && elm in nodes
      ensures Follows<Node?>(Elems(tree), elm, r, null) && turns < Height(tree)
    {
      ghost var c, t := FindNode(Snap(), Top, tree, elm);
      DepthHeight(c, t);
      Surroundings(Snap(), c, t);
      NextInOrder(c, t);
      if elm.right != null {
        DownR(Snap(), c, t);
        r, turns := Leftmost(elm.right, InR(c, t.l, t.n, t.red), t.r);
      } else {
        r, turns := NextAbove(elm, c, t);
      }
    }

    /** The branch of RB_NEXT without a right subtree: up to the first ancestor reached from its left side. */
    method NextAbove(elm: Node, ghost c0: Ctx, ghost t0: Tree) returns (r: Node?, ghost turns: nat)
      requires At(Snap(), c0, t0) && t0.Bin? && t0.n == elm
      ensures r == First<Node?>(After(c0), null) && turns <= Depth(c0)
    {
      hide At, Snap;
      turns := 0;
      Surroundings(Snap(), c0, t0);
      if elm.parent != null && elm == elm.parent.left {
        r := elm.parent;
        return;
      }
      var e: Node := elm;
      ghost var c, t := c0, t0;
      if !c.Top? { KinLinks(Snap(), c, t); }
      while e.parent != null && e == e.parent.right
        invariant At(Snap(), c, t) && t.Bin? && t.n == e
        invariant First<Node?>(After(c), null) == First<Node?>(After(c0), null)
        invariant e in nodes && e.parent == Par(c) && (e.parent != null ==> e.parent in nodes && e.parent != e)
        invariant e.parent != null ==> if c.InL? then e.parent.left == e && e.parent.right != e else e.parent.right == e
        invariant turns + Depth(c) <= Depth(c0)
        decreases Depth(c)
      {
        turns := turns + 1;
        Up(Snap(), c, t);
        c, t := c.up, UpTree(c, t);
        e := e.parent;
        Surroundings(Snap(), c, t);
        if !c.Top? { KinLinks(Snap(), c, t); }
      }
      r := e.parent;
    }

    method Leftmost(elm: Node, ghost c0: Ctx, ghost t0: Tree) returns (r: Node, ghost turns: nat)
      requires At(Snap(), c0, t0) && t0.Bin? && t0.n == elm
      ensures r == First<Node?>(Elems(t0), null) && turns < Height(t0)
    {
      hide At, Snap;
      r, turns := elm, 0;
      ghost var c, t := c0, t0;
      Surroundings(Snap(), c, t);
      while r.left != null
        invariant At(Snap(), c, t) && t.Bin? && t.n == r && r in nodes && r.left == Root(t.l)
        invariant First<Node?>(Elems(t), null) == First<Node?>(Elems(t0), null) && turns + Height(t) <= Height(t0)
        decreases t
      {
        turns := turns + 1;
        DownL(Snap(), c, t);
        c, t := InL(c, t.n, t.red, t.r), t.l;
        r := r.left;
        Surroundings(Snap(), c, t);
      }
    }

    /** RB_MIN for a negative `val`, RB_MAX otherwise. */
    method MinMax(val: int) returns (r: Node?, ghost turns: nat)
      requires Valid()
      ensures r == if val < 0 then First<Node?>(Elems(tree), null) else Last<Node?>(Elems(tree), null)
      ensures turns == Edge(tree, val < 0) && turns <= Height(tree)
    {
      hide At, Plug, Elems, RB, Sorted;
      var tmp := root;
      r, turns := null, 0;
      ghost var c, t := Top, tree;
      TopFacts(Snap(), tree);
      while tmp != null
        invariant At(Snap(), c, t) && Plug(c, t) == tree && tmp == Root(t) && r == Par(c)
        invariant turns + Height(t) <= Height(tree) && turns + Edge(t, val < 0) == Edge(tree, val < 0)
        invariant if val < 0 then Before(c) == [] && r == First<Node?>(After(c), null)
            else After(c) == [] && r == Last<Node?>(Before(c), null)
        decreases t
      {
        turns := turns + 1;
        Surroundings(Snap(), c, t);
        r := tmp;
        if val < 0 {
          tmp := tmp.left;
          DownL(Snap(), c, t);
          c, t := InL(c, t.n, t.red, t.r), t.l;
        } else {
          tmp := tmp.right;
          DownR(Snap(), c, t);
          c, t := InR(c, t.l, t.n, t.red), t.r;
        }
      }
      AllAround(c);
    }

    lemma TopFacts(h: Links, t: Tree)
      requires At(h, Top, t)
      ensures h.root == Root(t) && Plug(Top, t) == t
    {
    }

    lemma AllAround(c: Ctx)
      ensures Elems(Plug(c, Leaf)) == Before(c) + After(c)
    {
      PlugElems(c, Leaf);
    }

    /** RB_FOREACH: the elements its body is run for. */
    method Foreach() returns (visited: seq<Node>, ghost turns: nat)
      requires Valid()
      ensures visited == Elems(tree) && turns <= (|visited| + 1) * Height(tree)
    {
      hide Valid, Elems, Height, Follows, First;
      var x;
      x, turns := MinMax(-1);
      visited := [];
      Visiting([], x);
      while x != null
        invariant visited <= Elems(tree) && x == First<Node?>(Elems(tree)[|visited|..], null)
        invariant turns <= (|visited| + 1) * Height(tree)
        decreases |Elems(tree)| - |visited|
      {
        Visiting(visited, x);
        ghost var at, t := |visited|, turns;
        visited := visited + [x];
        ghost var k;
        x, k := Next(x);
        turns := turns + k;
        FollowsAt<Node?>(Elems(tree), at, x, null);
        OneMore(at + 1, Height(tree));
      }
      Visiting(visited, x);
    }

    /** What a turn of RB_FOREACH starts from. */
    lemma Visiting(visited: seq<Node>, x: Node?)
      requires Valid() && visited <= Elems(tree) && x == First<Node?>(Elems(tree)[|visited|..], null)
      ensures NoDup<Node?>(Elems(tree))
      ensures if x == null then visited == Elems(tree)
              else
                && |visited| < |Elems(tree)| && x == Elems(tree)[|visited|] && x in nodes
                && visited + [x] <= Elems(tree)
    {
      ElemsNodes(tree);
    }

    lemma OneMore(n: nat, h: nat)
      ensures (n + 1) * h == n * h + h
    {
    }
  }

  /** What comes after the focus's root in order. */
  lemma NextInOrder(c: Ctx, t: Tree)
    requires t.Bin?
    ensures var s, i := Elems(Plug(c, t)), |Before(c) + Elems(t.l)|;
      i < |s| && s[i] == t.n && s[i + 1..] == Elems(t.r) + After(c)
  {
    PlugElems(c, t);
    Middle(Before(c), Elems(t.l), t.n, Elems(t.r), After(c));
  }

  lemma Middle(a: seq<Node>, b: seq<Node>, x: Node, c: seq<Node>, d: seq<Node>)
    ensures var s, i := a + (b + [x] + c) + d, |a + b|; i < |s| && s[i] == x && s[i + 1..] == c + d
  {
    assert a + (b + [x] + c) + d == (a + b) + [x] + (c + d);
  }

  /** What the loop of RB_REMOVE_COLOR tests: the focus's colour, and whether it is the root. */
  lemma ElmColour(h: Links, c: Ctx, t: Tree)
    requires At(h, c, t)
    ensures t.Bin? ==> t.n in h.cell && h.cell[t.n].red == t.red
    ensures Root(t) == h.root <==> c.Top?
  {
    RootAbove(h, c, Root(t));
  }

  lemma {:induction false} RootAbove(h: Links, c: Ctx, hole: Node?)
    requires CRep(h, c, hole)
    ensures if c.Top? then h.root == hole else h.root != null && h.root in CNodes(c)
  {
    if !c.Top? { RootAbove(h, c.up, c.n); }
  }

  /** The in-order sequences before and after a hole is filled. */
  lemma HoleElems(c: Ctx, e: Node)
    ensures Elems(Plug(c, Leaf)) == Before(c) + After(c)
    ensures Elems(Plug(c, Bin(Leaf, e, true, Leaf))) == Before(c) + [e] + After(c)
    ensures InsertedAt(Elems(Plug(c, Leaf)), e, Elems(Plug(c, Bin(Leaf, e, true, Leaf))))
  {
    PlugElems(c, Leaf);
    PlugElems(c, Bin(Leaf, e, true, Leaf));
    var s := Before(c) + After(c);
    assert Before(c) + [] + After(c) == s;
    assert s[..|Before(c)|] == Before(c) && s[|Before(c)|..] == After(c);
  }

  lemma KeyAbsent(h: Links, t: Tree, a: seq<Node>, b: seq<Node>, key: int)
    requires At(h, Top, t) && Elems(t) == a + b && Below(a, key) && Above(b, key)
    ensures forall n | n in h.cell :: n.key != key
  {
    ElemsNodes(t);
  }

  /** A search that ends at a hole shows the key is absent. */
  lemma NotThere(h: Links, c: Ctx, key: int)
    requires At(h, c, Leaf) && Below(Before(c), key) && Above(After(c), key)
    ensures forall n | n in h.cell :: n.key != key
  {
    PlugElems(c, Leaf);
    assert Before(c) + [] + After(c) == Before(c) + After(c);
    Unzip(h, c, Leaf);
    KeyAbsent(h, Plug(c, Leaf), Before(c), After(c), key);
  }

  lemma FocusLeaf(c: Ctx, e: Node, h: int)
    requires Focus(c, Leaf, h)
    ensures InsInv(c, Bin(Leaf, e, true, Leaf), h)
  {
  }

  lemma RootLink(h: Links, t: Tree)
    requires At(h, Top, t)
    ensures h.root == Root(t)
  {
  }

  lemma {:induction false} PlugRoot(c: Ctx, t: Tree)
    requires t.Bin?
    ensures Plug(c, t).Bin?
  {
    if !c.Top? { PlugRoot(c.up, UpTree(c, t)); }
  }
}
