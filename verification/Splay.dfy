/** SPLAY_HEAD and the operations SPLAY_GENERATE produces (sys/tree.h), on nodes updated in place. */
module Splay {
  import opened Bits
  import opened Sequences
  import opened SearchOrder
  import opened SplayShape
  import opened SplayCost
  import opened SplayWalk

  class SplayHead {
    var root: Node?
    ghost var nodes: set<Node>
    ghost var tree: Tree
    /** The turns of the splay loops so far, and the tree's size at each operation. */
    ghost var turns: nat
    ghost var history: seq<nat>
    ghost var walks: Walks

    /** The fields of a set of nodes, as one value. */
    static ghost function Snap(ns: set<Node>): (h: Links)
      reads ns
      ensures h.Keys == ns && forall n | n in ns :: h[n] == Cell(n.left, n.right)
    {
      map n | n in ns :: Cell(n.left, n.right)
    }

    /** The head's root leads to the tree `t`, made of exactly the nodes `ns`. */
    ghost predicate Holds(ns: set<Node>, t: Tree)
      reads this`root, ns
    {
      root == Root(t) && Sep(t) && Nodes(t) == ns && Rep(Snap(ns), t)
    }

    ghost predicate Linked()
      reads this`root, this`nodes, this`tree, nodes
    {
      Holds(nodes, tree) && Sorted(Elems(tree))
    }

    ghost predicate Valid()
      reads this, nodes
    {
      Linked() && Solvent(tree) && Covered(walks, turns, tree)
    }

    lemma Rooted()
      requires Valid()
      ensures root == Root(tree) && Sorted(Elems(tree))
    {
    }

    /** All turns so far are paid for, and the potential of `t` besides. */
    ghost predicate Solvent(t: Tree)
      reads this`turns, this`history
    {
      Pow2(turns) * Potential(t) <= Bill(history)
    }

    /** The Balance Theorem: on at most n elements, the splay loops of m operations take at most
        m (5 lg(n+1) + 4) turns, and the walks of SPLAY_NEXT twice as many, but for those whose element
        the next operation does not splay. */
    lemma Balance(n: nat)
      requires Valid() && forall i | 0 <= i < |history| :: history[i] <= n
      ensures Pow2(turns) <= Power(16 * Power(n + 1, 5), |history|)
      ensures walks.all <= 2 * turns + walks.loose + walks.last
    {
      hide Pow2, Price, Power, Bill, Linked;
      BillBound(history, n);
      PriceIs(n);
      AtLeast(Pow2(turns), Potential(tree));
    }

    /** Enters an operation that began with the tree `t` and took `k` turns. */
    ghost method Record(t: Tree, k: nat, price: nat, w: Walks)
      requires Solvent(t) && Costs(k, t, tree, price) && price <= Price(Size(t)) && Covered(w, turns + k, tree)
      modifies this`turns, this`history, this`walks
      ensures Solvent(tree) && turns == old(turns) + k && history == old(history) + [Size(t)]
      ensures walks == w && Covered(walks, turns, tree)
    {
      hide Pow2, Potential, Price, Bill, Covered;
      Charge(history, turns, k, Potential(t), Potential(tree), Size(t), price);
      turns, history, walks := turns + k, history + [Size(t)], w;
    }

    /** In the middle of a splay over `ns`, with the header node `hd`; the head's root leads to the middle tree. */
    ghost predicate Mid(ns: set<Node>, hd: Node, l: Spine, m: Tree, r: Spine)
      reads this`root, ns
    {
      && m.Bin? && root == m.n && Parts(Snap(ns), hd, l, m, r)
      && Covers(ns, hd, l, m, r)
    }

    constructor ()
      ensures Valid() && nodes == {} && tree == Leaf && turns == 0 && history == [] && walks == Walks(0, 0, 0, 0)
    {
      root := null;
      nodes := {};
      tree := Leaf;
      turns, history, walks := 0, [], Walks(0, 0, 0, 0);
    }

    // ----- the macros, and what they do to the pieces

    method RotateRight(tmp: Node, ghost ns: set<Node>)
      requires root in ns && tmp in ns && tmp != root
      modifies this`root, ns
      ensures root == tmp
      ensures Set2(old(Snap(ns)), Snap(ns), old(root),
          Cell(old(tmp.right), old(root.right)), tmp, Cell(old(tmp.left), old(root)))
    {
      root.left := tmp.right;
      tmp.right := root;
      root := tmp;
    }

    method RotateLeft(tmp: Node, ghost ns: set<Node>)
      requires root in ns && tmp in ns && tmp != root
      modifies this`root, ns
      ensures root == tmp
      ensures Set2(old(Snap(ns)), Snap(ns), old(root),
          Cell(old(root.left), old(tmp.left)), tmp, Cell(old(root), old(tmp.right)))
    {
      root.right := tmp.left;
      tmp.left := root;
      root := tmp;
    }

    method LinkLeft(right: Node, ghost ns: set<Node>) returns (right': Node)
      requires root in ns && right in ns && right != root
      modifies this`root, ns
      ensures root == old(root.left) && right' == old(root)
      ensures Set1(old(Snap(ns)), Snap(ns), right, Cell(old(root), old(right.right)))
    {
      right.left := root;
      right' := root;
      root := root.left;
    }

    method LinkRight(left: Node, ghost ns: set<Node>) returns (left': Node)
      requires root in ns && left in ns && left != root
      modifies this`root, ns
      ensures root == old(root.right) && left' == old(root)
      ensures Set1(old(Snap(ns)), Snap(ns), left, Cell(old(left.left), old(root)))
    {
      left.right := root;
      left' := root;
      root := root.right;
    }

    method TurnRight(tmp: Node, ghost ns: set<Node>, ghost hd: Node, ghost l: Spine, ghost m: Tree, ghost r: Spine)
      requires Mid(ns, hd, l, m, r) && m.l.Bin? && tmp == m.l.n
      modifies this`root, ns
      ensures Mid(ns, hd, l, RotR(m), r) && All(l, RotR(m), r) == All(l, m, r)
    {
      hide Parts, Covers, Snap, Elems, Set2;
      ghost var h := Snap(ns);
      Reach(h, hd, l, m, r);
      CoverTurns(ns, hd, l, m, r);
      RotateRight(tmp, ns);
      RotatedR(h, Snap(ns), hd, l, m, r);
    }

    method TurnLeft(tmp: Node, ghost ns: set<Node>, ghost hd: Node, ghost l: Spine, ghost m: Tree, ghost r: Spine)
      requires Mid(ns, hd, l, m, r) && m.r.Bin? && tmp == m.r.n
      modifies this`root, ns
      ensures Mid(ns, hd, l, RotL(m), r) && All(l, RotL(m), r) == All(l, m, r)
    {
      hide Parts, Covers, Snap, Elems, Set2;
      ghost var h := Snap(ns);
      Reach(h, hd, l, m, r);
      CoverTurns(ns, hd, l, m, r);
      RotateLeft(tmp, ns);
      RotatedL(h, Snap(ns), hd, l, m, r);
    }

    method MoveRight(right: Node, ghost ns: set<Node>, ghost hd: Node, ghost l: Spine, ghost m: Tree, ghost r: Spine)
      returns (right': Node)
      requires Mid(ns, hd, l, m, r) && m.l.Bin? && right == Tip(r, hd)
      modifies this`root, ns
      ensures Mid(ns, hd, l, m.l, Step(r, m.r, m.n)) && right' == m.n
    {
      hide Parts, Covers, Snap, Elems, Set1;
      ghost var h := Snap(ns);
      Reach(h, hd, l, m, r);
      CoverLinks(ns, hd, l, m, r);
      right' := LinkLeft(right, ns);
      LinkedLeft(h, Snap(ns), hd, l, m, r);
    }

    method MoveLeft(left: Node, ghost ns: set<Node>, ghost hd: Node, ghost l: Spine, ghost m: Tree, ghost r: Spine)
      returns (left': Node)
      requires Mid(ns, hd, l, m, r) && m.r.Bin? && left == Tip(l, hd)
      modifies this`root, ns
      ensures Mid(ns, hd, Step(l, m.l, m.n), m.r, r) && left' == m.n
    {
      hide Parts, Covers, Snap, Elems, Set1;
      ghost var h := Snap(ns);
      Reach(h, hd, l, m, r);
      CoverLinks(ns, hd, l, m, r);
      left' := LinkRight(left, ns);
      LinkedRight(h, Snap(ns), hd, l, m, r);
    }

    method Assemble(node: Node, left: Node, right: Node, ghost ns: set<Node>, ghost l: Spine, ghost m: Tree,
                    ghost r: Spine)
      requires Mid(ns, node, l, m, r) && left == Tip(l, node) && right == Tip(r, node)
      modifies ns
      ensures Rep(Snap(ns), Joined(l, m, r))
    {
      JoinedSame(l, m, r);
      hide Parts, Covers, Snap, Rep, Joined, Sep, Set1;
      CloseSides(node, left, right, ns, l, m, r);
      ghost var k := Snap(ns);
      HangSides(node, ns);
      Assembled(k, Snap(ns), node, l, m, r);
    }

    method HangSides(node: Node, ghost ns: set<Node>)
      requires root in ns && node in ns && root != node
      modifies ns
      ensures Set1(old(Snap(ns)), Snap(ns), root, Cell(old(node.right), old(node.left)))
    {
      root.left := node.right;
      root.right := node.left;
    }

    method CloseSides(node: Node, left: Node, right: Node, ghost ns: set<Node>, ghost l: Spine, ghost m: Tree,
                      ghost r: Spine)
      requires Mid(ns, node, l, m, r) && left == Tip(l, node) && right == Tip(r, node)
      modifies ns
      ensures Rep(Snap(ns), LPlug(l, m.l)) && node in ns && node.right == Root(LPlug(l, m.l))
      ensures Rep(Snap(ns), RPlug(r, m.r)) && node.left == Root(RPlug(r, m.r)) && root in ns && root != node
    {
      ghost var h := Snap(ns);
      Reach(h, node, l, m, r);
      hide Parts, Covers, Snap, Rep;
      left.right := root.left;
      right.left := root.right;
      Closed(h, Snap(ns), node, l, m, r);
    }

    // ----- splaying

    /** The branch of the loop for a key below the root's: a zig, or a zig-zig with its rotation. */
    method StepLeft(key: int, right: Node, ghost ns: set<Node>, ghost hd: Node, ghost l: Spine, ghost m: Tree,
                    ghost r: Spine)
      returns (right': Node, stop: bool, ghost m': Tree, ghost r': Spine)
      requires Mid(ns, hd, l, m, r) && right == Tip(r, hd) && key < m.n.key
      requires Sorted(All(l, m, r)) && Above(RElems(r), key)
      modifies this`root, ns
      ensures Mid(ns, hd, l, m', r') && right' == Tip(r', hd)
      ensures All(l, m', r') == All(l, m, r) && Above(RElems(r'), key)
      ensures if stop then key < m'.n.key && m'.l.Leaf? else Size(m') < Size(m)
      ensures m'.Bin? && root == m'.n && WentLeft(key, m, r, stop, m', r')
    {
      hide Parts, Covers, Snap, Elems, All, Sorted, RElems, Above;
      right', m', r' := right, m, r;
      Reach(Snap(ns), hd, l, m, r);
      var tmp := root.left;
      if tmp == null {
        stop := true;
        return;
      }
      if key < tmp.key {
        TurnRight(tmp, ns, hd, l, m, r);
        m' := RotR(m);
        Reach(Snap(ns), hd, l, m', r);
        if root.left == null {
          stop := true;
          return;
        }
      }
      StepOrderL(l, m', r, key);
      LinkOrder(l, m', r);
      right' := MoveRight(right, ns, hd, l, m', r);
      stop, m', r' := false, m'.l, Step(r, m'.r, m'.n);
    }

    method StepRight(key: int, left: Node, ghost ns: set<Node>, ghost hd: Node, ghost l: Spine, ghost m: Tree,
                     ghost r: Spine)
      returns (left': Node, stop: bool, ghost l': Spine, ghost m': Tree)
      requires Mid(ns, hd, l, m, r) && left == Tip(l, hd) && m.n.key < key
      requires Sorted(All(l, m, r)) && Below(LElems(l), key)
      modifies this`root, ns
      ensures Mid(ns, hd, l', m', r) && left' == Tip(l', hd)
      ensures All(l', m', r) == All(l, m, r) && Below(LElems(l'), key)
      ensures if stop then m'.n.key < key && m'.r.Leaf? else Size(m') < Size(m)
      ensures m'.Bin? && root == m'.n && WentRight(key, l, m, stop, l', m')
    {
      hide Parts, Covers, Snap, Elems, All, Sorted, LElems, Below;
      left', l', m' := left, l, m;
      Reach(Snap(ns), hd, l, m, r);
      var tmp := root.right;
      if tmp == null {
        stop := true;
        return;
      }
      if key > tmp.key {
        TurnLeft(tmp, ns, hd, l, m, r);
        m' := RotL(m);
        Reach(Snap(ns), hd, l, m', r);
        if root.right == null {
          stop := true;
          return;
        }
      }
      StepOrderR(l, m', r, key);
      LinkOrder(l, m', r);
      left' := MoveLeft(left, ns, hd, l, m', r);
      stop, l', m' := false, Step(l, m'.l, m'.n), m'.r;
    }

    /** Brings the element with the given key to the root, or else one of its neighbours in order. */
    method Splay(key: int, ghost ns: set<Node>, ghost t: Tree) returns (ghost t': Tree, ghost k: nat)
      requires Holds(ns, t) && t.Bin? && Sorted(Elems(t))
      modifies this`root, ns
      ensures Holds(ns, t') && t'.Bin? && Elems(t') == Elems(t)
      ensures Below(Elems(t'.l), key) && Above(Elems(t'.r), key)
      ensures Costs(k, t, t', SplayPrice(Size(t))) && Size(t') == Size(t) && Walked(k, t, t', key)
    {
      hide Parts, Covers, Snap, Elems, All, Sorted, Rep, Sep, LElems, RElems, Below, Above, SplayPrice, Costs,
        WentLeft, WentRight, Paid, Ended, Holds, Mid, Size, Joined, Going, Halted, Walked;
      var node := new Node(0);
      var left, right := node, node;
      ghost var all, l, m, r, d, c := ns + {node}, End, t, End, NoDebt, Potential(t) * (Size(t) * Size(t));
      k := 0;
      Begin(key, node, ns, t);
      SplayStarts(t, key);
      GoingStarts(t, key);
      var comp := Compare(key, root.key);
      while comp != 0
        invariant Mid(all, node, l, m, r) && left == Tip(l, node) && right == Tip(r, node) && m.Bin? && root == m.n
        invariant All(l, m, r) == Elems(t) && Below(LElems(l), key) && Above(RElems(r), key)
        invariant comp == Compare(key, m.n.key) && Paid(k, l, m, r, key, d, c) && Going(k, t, l, m, r, key)
        decreases Size(m)
      {
        var stop;
        ghost var l0, m0, r0 := l, m, r;
        if comp < 0 {
          right, stop, m, r := StepLeft(key, right, all, node, l, m, r);
          GoesLeft(k, t, l, m0, r0, key, stop, m, r);
          if stop {
            LeftEnds(k, l, m0, r0, key, d, c, m, r);
          } else {
            d := LeftPays(k, l, m0, r0, key, d, c, m, r);
          }
        } else {
          left, stop, l, m := StepRight(key, left, all, node, l, m, r);
          GoesRight(k, t, l0, m0, r, key, stop, l, m);
          if stop {
            RightEnds(k, l0, m0, r, key, d, c, l, m);
          } else {
            d := RightPays(k, l0, m0, r, key, d, c, l, m);
          }
        }
        k := k + 1;
        if stop {
          break;
        }
        comp := Compare(key, root.key);
      }
      if comp == 0 {
        FoundEnds(k, l, m, r, key, d, c);
        GoesNoFurther(k, t, l, m, r, key);
      }
      HaltedJoined(k, t, l, m, r, key);
      t' := Finish(key, node, left, right, all, l, m, r);
      SameSize(t, t');
      SplayBill(k, t, l, m, r, key);
      assert all - {node} == ns;
    }

    /** A splay starts with the whole tree in the middle. */
    lemma Begin(key: int, node: Node, ns: set<Node>, t: Tree)
      requires Holds(ns, t) && t.Bin? && node !in ns
      ensures Mid(ns + {node}, node, End, t, End) && All(End, t, End) == Elems(t) && root == t.n
      ensures Below(LElems(End), key) && Above(RElems(End), key)
    {
      Start(Snap(ns), Snap(ns + {node}), node, t);
    }

    /** The end of a splay: the pieces are put together under the root. */
    method Finish(key: int, node: Node, left: Node, right: Node, ghost all: set<Node>, ghost l: Spine,
                  ghost m: Tree, ghost r: Spine)
      returns (ghost t: Tree)
      requires Mid(all, node, l, m, r) && left == Tip(l, node) && right == Tip(r, node)
      requires Sorted(All(l, m, r)) && Below(LElems(l), key) && Above(RElems(r), key)
      requires m.n.key == key || (key < m.n.key && m.l.Leaf?) || (m.n.key < key && m.r.Leaf?)
      modifies all
      ensures Holds(all - {node}, t) && t == Joined(l, m, r) && t.Bin? && Elems(t) == All(l, m, r)
      ensures Below(Elems(t.l), key) && Above(Elems(t.r), key)
    {
      FinishFacts(all, Snap(all), node, l, m, r, key);
      hide Parts, Covers, Snap, Elems, All, Sorted, Rep, Sep, LElems, RElems, Below, Above;
      Assemble(node, left, right, all, l, m, r);
      t := Joined(l, m, r);
      RepFrame(Snap(all), Snap(all - {node}), t);
    }

    // ----- the operations

    /** SPLAY_INSERT: the new element becomes the root, or the one that has its key is returned. */
    method Insert(elm: Node) returns (r: Node?)
      requires Valid()
      modifies this, nodes, elm
      ensures Valid()
      ensures r != null ==> r in nodes && r.key == elm.key && nodes == old(nodes) && Elems(tree) == old(Elems(tree))
      ensures r == null ==> nodes == old(nodes) + {elm} && root == elm && InsertedAt(old(Elems(tree)), elm, Elems(tree))
      ensures elm in old(nodes) ==> r == elm
      ensures r == null && Search(old(tree), elm.key) == 0 ==> tree == Topped(old(tree), elm)
      ensures history == old(history) + [Size(old(tree))] && walks == Splays(old(walks), elm.key)
      ensures Search(old(tree), elm.key) <= 2 * (turns - old(turns)) <= 2 * (Search(old(tree), elm.key) + 1)
    {
      hide Linked, Solvent, Costs, Price, InsertedAt, Elems, Size, Covered, Splays, Search, Topped;
      ghost var t, k, price := tree, 0, 0;
      r, k, price := InsertLinked(elm);
      SplaysCovered(walks, turns, t, k, tree, elm.key);
      Record(t, k, price, Splays(walks, elm.key));
    }

    method InsertLinked(elm: Node) returns (r: Node?, ghost k: nat, ghost price: nat)
      requires Linked()
      modifies this`root, this`nodes, this`tree, nodes, elm
      ensures Linked()
      ensures r != null ==> r in nodes && r.key == elm.key && nodes == old(nodes) && Elems(tree) == old(Elems(tree))
      ensures r == null ==> nodes == old(nodes) + {elm} && root == elm && InsertedAt(old(Elems(tree)), elm, Elems(tree))
      ensures elm in old(nodes) ==> r == elm
      ensures Costs(k, old(tree), tree, price) && price <= Price(Size(old(tree)))
      ensures r == null && Search(old(tree), elm.key) == 0 ==> tree == Topped(old(tree), elm)
      ensures Search(old(tree), elm.key) <= 2 * k <= 2 * (Search(old(tree), elm.key) + 1)
    {
      hide Sep, Rep, Snap, Sorted, InsertedAt, Elems, Below, Above, Price, SplayPrice, InsertPrice, Size, Costs;
      ghost var t := tree;
      PricesLow(Size(t));
      if root == null {
        InsertFirst(elm);
        NothingPaid(t, tree);
        return null, 0, 1;
      }
      tree, k := Splay(elm.key, nodes, tree);
      ghost var t1 := tree;
      price := SplayPrice(Size(t));
      if elm in nodes { AtRoot(tree, elm); }
      r := InsertAtRoot(elm);
      if r == null {
        InsertPaid(k, t, t1, tree);
        price := InsertPrice(Size(t));
      }
    }

    method InsertFirst(elm: Node)
      requires Linked() && root == null
      modifies this`root, this`nodes, this`tree, elm
      ensures Linked() && nodes == old(nodes) + {elm} && root == elm && InsertedAt(old(Elems(tree)), elm, Elems(tree))
      ensures old(tree) == Leaf && tree == Bin(Leaf, elm, Leaf)
    {
      elm.left, elm.right := null, null;
      root := elm;
      InsertOrder([], elm, []);
      tree, nodes := Bin(Leaf, elm, Leaf), {elm};
    }

    /** The new element becomes the root and takes the half of the old root's tree on its side. */
    method InsertAtRoot(elm: Node) returns (r: Node?)
      requires Linked() && (elm in nodes ==> root == elm) && tree.Bin?
      requires Below(Elems(tree.l), elm.key) && Above(Elems(tree.r), elm.key)
      modifies this`root, this`nodes, this`tree, nodes, elm
      ensures Linked() && (elm in old(nodes) ==> r == elm)
      ensures if r != null then tree == old(tree) else Costs(0, old(tree), tree, Size(old(tree)) + 1)
      ensures r == null ==> tree == Topped(old(tree), elm)
      ensures r != null ==> r in nodes && r.key == elm.key && nodes == old(nodes) && Elems(tree) == old(Elems(tree))
      ensures r == null ==> nodes == old(nodes) + {elm} && root == elm && InsertedAt(old(Elems(tree)), elm, Elems(tree))
    {
      hide Sep, Rep, Snap, Sorted, InsertedAt, Elems, Below, Above, Costs, Size;
      ghost var t := tree;
      var comp := Compare(elm.key, root.key);
      if comp < 0 {
        CutLeft(elm);
        CutLeftPotential(t, elm);
      } else if comp > 0 {
        CutRight(elm);
        CutRightPotential(t, elm);
      } else {
        return root;
      }
      root := elm;
      return null;
    }

    /** The new element takes the old root's left subtree, and the rest of the tree as its right one. */
    method CutLeft(elm: Node)
      requires Linked() && elm !in nodes && tree.Bin? && elm.key < root.key
      requires Below(Elems(tree.l), elm.key) && Above(Elems(tree.r), elm.key)
      modifies this`tree, this`nodes, nodes, elm
      ensures tree == Bin(old(tree).l, elm, Bin(Leaf, old(tree).n, old(tree).r))
      ensures tree.Bin? && tree.n == elm && Sep(tree) && Nodes(tree) == nodes && Rep(Snap(nodes), tree)
      ensures nodes == old(nodes) + {elm} && Sorted(Elems(tree)) && InsertedAt(old(Elems(tree)), elm, Elems(tree))
    {
      ghost var h, t := Snap(nodes), tree;
      Whole(h, t);
      hide Rep, Sep, Elems, Sorted, Below, Above, InsertedAt, Nodes, Snap;
      elm.left := root.left;
      elm.right := root;
      root.left := null;
      tree, nodes := Bin(t.l, elm, Bin(Leaf, t.n, t.r)), nodes + {elm};
      InsertedLeft(h, Snap(nodes), t, elm);
    }

    method CutRight(elm: Node)
      requires Linked() && elm !in nodes && tree.Bin? && root.key < elm.key
      requires Below(Elems(tree.l), elm.key) && Above(Elems(tree.r), elm.key)
      modifies this`tree, this`nodes, nodes, elm
      ensures tree == Bin(Bin(old(tree).l, old(tree).n, Leaf), elm, old(tree).r)
      ensures tree.Bin? && tree.n == elm && Sep(tree) && Nodes(tree) == nodes && Rep(Snap(nodes), tree)
      ensures nodes == old(nodes) + {elm} && Sorted(Elems(tree)) && InsertedAt(old(Elems(tree)), elm, Elems(tree))
    {
      ghost var h, t := Snap(nodes), tree;
      Whole(h, t);
      hide Rep, Sep, Elems, Sorted, Below, Above, InsertedAt, Nodes, Snap;
      elm.right := root.right;
      elm.left := root;
      root.right := null;
      tree, nodes := Bin(Bin(t.l, t.n, Leaf), elm, t.r), nodes + {elm};
      InsertedRight(h, Snap(nodes), t, elm);
    }

    /** Removes the element with `elm`'s key, if there is one. */
    method Remove(elm: Node) returns (r: Node?)
      requires Valid()
      modifies this, nodes
      ensures Valid()
      ensures r == null ==>
        nodes == old(nodes) && Elems(tree) == old(Elems(tree)) && forall n | n in nodes :: n.key != elm.key
      ensures r != null ==> r == elm && exists x | x in old(nodes) ::
        x.key == elm.key && nodes == old(nodes) - {x} && RemovedFrom(old(Elems(tree)), x, Elems(tree))
      ensures r != null ==> (nodes == old(nodes) - {r} <==> elm in old(nodes))
      ensures history == old(history) + [Size(old(tree))] && walks == Splays(old(walks), elm.key)
      ensures turns >= old(turns) && Search(old(tree), elm.key) <= 2 * (turns - old(turns))
      ensures r != null ==>
        var k: nat := turns - old(turns); exists t1 :: SplayedTwice(k, old(tree), t1, elm.key)
    {
      hide Linked, Solvent, Costs, Price, RemovedFrom, Elems, Size, Covered, Splays, Search, SplayedTwice;
      ghost var t, k, price, x := tree, 0, 0, elm;
      r, k, price, x := RemoveLinked(elm);
      SplaysCovered(walks, turns, t, k, tree, elm.key);
      Record(t, k, price, Splays(walks, elm.key));
    }

    method RemoveLinked(elm: Node) returns (r: Node?, ghost k: nat, ghost price: nat, ghost x: Node)
      requires Linked()
      modifies this`root, this`nodes, this`tree, nodes
      ensures Linked()
      ensures r == null ==>
        nodes == old(nodes) && Elems(tree) == old(Elems(tree)) && forall n | n in nodes :: n.key != elm.key
      ensures r != null ==> r == elm && x in old(nodes) && x.key == elm.key
      ensures r != null ==> nodes == old(nodes) - {x} && RemovedFrom(old(Elems(tree)), x, Elems(tree))
      ensures r != null ==> (nodes == old(nodes) - {r} <==> elm in old(nodes))
      ensures Costs(k, old(tree), tree, price) && price <= Price(Size(old(tree)))
      ensures Search(old(tree), elm.key) <= 2 * k
      ensures r != null ==> exists t1 :: SplayedTwice(k, old(tree), t1, elm.key)
    {
      hide Sep, Rep, Snap, Nodes, Sorted, Elems, RemovedFrom, Below, Above, Price,
        SplayPrice, RemovePrice, RestPrice, Size, Costs, SplayedTwice, RightPath, LeftPath, Search;
      ghost var t, j := tree, 0;
      PricesLow(Size(t));
      if root == null {
        NothingPaid(t, t);
        NoNodes(t);
        NoSearch(t, elm.key);
        return null, 0, 1, elm;
      }
      tree, k := Splay(elm.key, nodes, tree);
      ghost var t1 := tree;
      r, price, x := null, SplayPrice(Size(t)), t1.n;
      if elm.key == root.key {
        RootInNodes(t1);
        if elm in nodes { AtRoot(tree, elm); }
        j := RemoveRoot(elm);
        RemovePaid(k, j, t, t1, tree);
        SplayTwice(k, j, t, t1, elm.key);
        r, k, price := elm, k + j, RemovePrice(Size(t));
      } else {
        Missing(tree, elm.key);
      }
    }

    /** The found element is at the root: its left subtree is splayed for the same key, which leaves
        that subtree's maximum on top with no right child, where the right subtree is hung. */
    method RemoveRoot(elm: Node) returns (ghost k: nat)
      requires Linked() && tree.Bin? && root.key == elm.key
      modifies this`root, this`nodes, this`tree, nodes
      ensures Linked() && nodes == old(nodes) - {old(tree).n} && RemovedFrom(old(Elems(tree)), old(tree).n, Elems(tree))
      ensures Costs(k, old(tree), tree, RestPrice(Size(old(tree)))) && k <= RightPath(old(tree).l) <= 2 * k + 1
    {
      hide Size, Costs, RestPrice, Elems, Sorted, RemovedFrom, Rep, Sep, Nodes;
      ghost var t, x := tree, tree.n;
      k := 0;
      RootInNodes(t);
      Whole(Snap(nodes), t);
      RootRemoved(t);
      if root.left == null {
        root := root.right;
        OnlyRight(Snap(nodes), Snap(nodes - {x}), t);
        nodes, tree := nodes - {x}, t.r;
        RightPaid(t);
      } else {
        var tmp := root.right;
        root := root.left;
        tree, k := SplayRest(elm.key, tmp, t);
        nodes := nodes - {x};
      }
    }

    method SplayRest(key: int, tmp: Node?, ghost t: Tree) returns (ghost t': Tree, ghost k: nat)
      requires Rep(Snap(nodes), t) && Sep(t) && Nodes(t) == nodes && Sorted(Elems(t))
      requires t.Bin? && t.l.Bin? && t.n.key == key && root == Root(t.l) && tmp == Root(t.r)
      modifies this`root, nodes
      ensures Holds(nodes - {t.n}, t') && Elems(t') == Elems(t.l) + Elems(t.r)
      ensures Costs(k, t, t', RestPrice(Size(t))) && k <= RightPath(t.l) <= 2 * k + 1
    {
      hide Size, SplayPrice, Costs, RestPrice, Walked, Below, Sorted, RightPath, LeftPath, Search;
      ghost var h, ls := Snap(nodes), Nodes(t.l);
      LeftPart(h, Snap(ls), t);
      ghost var l;
      l, k := Splay(key, ls, t.l);
      NothingRight(t, l);
      SecondSplay(k, t, l);
      RepFrame(Snap(ls), Snap(nodes - {t.n}), l);
      RepFrame(h, Snap(nodes - {t.n}), t.r);
      HangRight(tmp, nodes - {t.n}, l, t.r);
      t' := Bin(l.l, l.n, t.r);
      RestPaid(k, t, l);
    }

    method HangRight(tmp: Node?, ghost ns: set<Node>, ghost l: Tree, ghost r: Tree)
      requires Rep(Snap(ns), l) && Rep(Snap(ns), r) && Sep(l) && Sep(r) && Nodes(l) !! Nodes(r)
      requires ns == Nodes(l) + Nodes(r)
      requires l.Bin? && l.r.Leaf? && root == l.n && tmp == Root(r)
      modifies ns
      ensures var t := Bin(l.l, l.n, r); Holds(ns, t) && Elems(t) == Elems(l) + Elems(r)
    {
      ghost var k := Snap(ns);
      Whole(k, l);
      hide Rep, Sep, Elems, Nodes, Snap;
      root.right := tmp;
      Rejoined(k, Snap(ns), l, r);
    }

    /** SPLAY_FIND */
    method Find(key: int) returns (r: Node?)
      requires Valid()
      modifies this`root, this`tree, this`turns, this`history, this`walks, nodes
      ensures Valid() && Elems(tree) == old(Elems(tree))
      ensures r != null ==> r in nodes && r.key == key && r == root
      ensures r == null ==> forall n | n in nodes :: n.key != key
      ensures history == old(history) + [Size(old(tree))] && walks == Splays(old(walks), key)
      ensures turns >= old(turns) && (old(tree).Bin? ==> Walked(turns - old(turns), old(tree), tree, key))
    {
      hide Sep, Rep, Snap, Elems, Sorted, Below, Above, Price, SplayPrice, Size, Costs, Solvent, Covered, Splays,
        Search, LeftPath, RightPath;
      ghost var t, k := tree, 0;
      PricesLow(Size(t));
      if root == null {
        NothingPaid(t, t);
        NoSearch(t, key);
      } else {
        tree, k := Splay(key, nodes, tree);
      }
      SplaysCovered(walks, turns, t, k, tree, key);
      Record(t, k, if root == null then 1 else SplayPrice(Size(t)), Splays(walks, key));
      if root == null {
        return null;
      }
      if key == root.key {
        return root;
      }
      Missing(tree, key);
      return null;
    }

    /** SPLAY_NEXT, for an element of the tree: splayed to the root, its successor is the leftmost node to its right. */
    method Next(elm: Node) returns (r: Node?, ghost walk: nat)
      requires Valid() && elm in nodes
      modifies this`root, this`tree, this`turns, this`history, this`walks, nodes
      ensures Valid() && Elems(tree) == old(Elems(tree)) && root == elm
      ensures Follows<Node?>(Elems(tree), elm, r, null)
      ensures history == old(history) + [Size(old(tree))] && turns >= old(turns)
      ensures Walked(turns - old(turns), old(tree), tree, elm.key) && walk == NextWalk(tree) < Height(tree)
      ensures var w := Splays(old(walks), elm.key); walks == if r == null then w else Walk(w, walk, r.key)
      ensures walks.all == old(walks.all) + walk
    {
      hide Follows, Elems, Sorted, Below, Above, Sep, Rep, Snap, Nodes, Root, Size, Solvent, Covered, Walked,
        LeftPath, Height;
      Front(elm);
      r, walk := elm.right, 0;
      SomeHeight(tree);
      NextOf(tree, elm);
      if r != null {
        r, walk := Leftmost(r, tree.r);
        WalkCovered(walks, turns, tree);
        walks := Walk(walks, walk, r.key);
      }
    }

    /** The splay of SPLAY_NEXT, with its turns entered. */
    method Front(elm: Node)
      requires Valid() && elm in nodes
      modifies this`root, this`tree, this`turns, this`history, this`walks, nodes
      ensures Valid() && Elems(tree) == old(Elems(tree)) && root == elm && tree.Bin? && tree.n == elm
      ensures elm.right == Root(tree.r) && Rep(Snap(nodes), tree.r) && nodes >= Nodes(tree.r)
      ensures (tree.r.Bin? <==> elm.right != null) && (tree.r.Bin? ==> tree.r.n == elm.right)
      ensures history == old(history) + [Size(old(tree))] && turns >= old(turns)
      ensures Walked(turns - old(turns), old(tree), tree, elm.key) && walks == Splays(old(walks), elm.key)
    {
      hide Elems, Sorted, Below, Above, Sep, Rep, Snap, Nodes, Root, Price, SplayPrice, Size, Costs, Solvent,
        Covered, Search, LeftPath, RightPath;
      ghost var t, k := tree, 0;
      PricesLow(Size(t));
      tree, k := SplayTo(elm);
      SplaysCovered(walks, turns, t, k, tree, elm.key);
      Record(t, k, SplayPrice(Size(t)), Splays(walks, elm.key));
    }

    /** Splays an element of the tree, which becomes the root. */
    method SplayTo(elm: Node) returns (ghost t: Tree, ghost k: nat)
      requires Linked() && elm in nodes
      modifies this`root, nodes
      ensures Rep(Snap(nodes), t) && Sep(t) && Nodes(t) == nodes && root == Root(t) == elm && t.Bin? && t.n == elm
      ensures Elems(t) == Elems(tree) && Sorted(Elems(t)) && elm.right == Root(t.r)
      ensures Rep(Snap(nodes), t.r) && nodes >= Nodes(t.r) && (t.r.Bin? <==> elm.right != null)
      ensures (t.r.Bin? ==> t.r.n == elm.right)
      ensures Costs(k, tree, t, SplayPrice(Size(tree))) && Walked(k, tree, t, elm.key)
    {
      hide Size, SplayPrice, Costs;
      t, k := Splay(elm.key, nodes, tree);
      AtRoot(t, elm);
      Whole(Snap(nodes), t);
    }

    method Leftmost(elm: Node, ghost t0: Tree) returns (r: Node, ghost walk: nat)
      requires nodes >= Nodes(t0) && Rep(Snap(nodes), t0) && t0.Bin? && t0.n == elm
      ensures r == First<Node?>(Elems(t0), null) && walk == LeftPath(t0) - 1
    {
      hide Snap;
      r, walk := elm, 0;
      ghost var t := t0;
      while r.left != null
        invariant Rep(Snap(nodes), t) && t.Bin? && t.n == r && r in nodes && r.left == Root(t.l)
        invariant First<Node?>(Elems(t), null) == First<Node?>(Elems(t0), null)
        invariant walk + LeftPath(t) == LeftPath(t0)
        decreases t
      {
        walk := walk + 1;
        r := r.left;
        t := t.l;
      }
    }

    /** SPLAY_MIN_MAX: the element with the smallest (negative `comp`) or largest key becomes the root. */
    method MinMax(comp: int) returns (r: Node)
      requires Valid() && tree.Bin? && comp != 0
      modifies this`root, this`tree, this`turns, this`history, this`walks, nodes
      ensures Valid() && Elems(tree) == old(Elems(tree)) && r == root
      ensures r == if comp < 0 then First<Node?>(Elems(tree), null) else Last<Node?>(Elems(tree), null)
      ensures history == old(history) + [Size(old(tree))] && walks == Strays(old(walks)) && turns >= old(turns)
      ensures var d := if comp < 0 then LeftPath(old(tree)) else RightPath(old(tree));
        turns - old(turns) <= d <= 2 * (turns - old(turns)) + 1
    {
      hide Sep, Rep, Snap, Sorted, Price, SplayPrice, Size, Costs, Solvent, Covered, Strays;
      ghost var t, k := tree, 0;
      PricesLow(Size(t));
      tree, k := SplayMinMax(comp, nodes, tree);
      StraysCovered(walks, turns, t, k, tree);
      Record(t, k, SplayPrice(Size(t)), Strays(walks));
      return root;
    }

    /** SPLAY_FOREACH: the elements its body is run for. Every walk is followed by a splay of the element it
        leads to, so none is loose. */
    method Foreach() returns (visited: seq<Node>)
      requires Valid()
      modifies this`root, this`tree, this`turns, this`history, this`walks, nodes
      ensures Valid() && visited == Elems(tree) == old(Elems(tree)) && turns >= old(turns)
      ensures walks.all - old(walks.all) <= 2 * (turns - old(turns))
      ensures visited != [] ==> walks.last == 0 && walks.loose == old(walks.loose + walks.last)
      ensures history == old(history) + seq(if visited == [] then 0 else |visited| + 1, _ => |visited|)
    {
      hide Linked, Solvent, Elems, Follows, Size, Search, LeftPath, RightPath, Height;
      visited := [];
      var x := null;
      ghost var s, w0, t0, n := Elems(tree), walks, turns, |Elems(tree)|;
      EmptyOrNot();
      if root != null {
        x := MinMax(-1);
      }
      assert s[0..] == s;
      while x != null
        invariant Valid() && Elems(tree) == s && visited <= s && x == First<Node?>(s[|visited|..], null)
        invariant turns >= t0 && walks.all - w0.all <= 2 * (turns - t0) + walks.last
        invariant s != [] ==> walks.loose == w0.loose + w0.last && history == old(history) + seq(|visited| + 1, _ => n)
        invariant s == [] ==> walks == w0 && history == old(history)
        invariant if x == null then s != [] ==> walks.last == 0 else walks.last > 0 ==> walks.key == x.key
        decreases |s| - |visited|
      {
        ElemsSize(tree);
        Visiting(visited, x);
        ghost var at, last := |visited|, walks.last;
        visited := visited + [x];
        ghost var k;
        x, k := Next(x);
        FollowsAt<Node?>(s, at, x, null);
      }
      Visiting(visited, x);
    }

    /** What a turn of SPLAY_FOREACH starts from. */
    lemma Visiting(visited: seq<Node>, x: Node?)
      requires Valid() && visited <= Elems(tree) && x == First<Node?>(Elems(tree)[|visited|..], null)
      ensures NoDup<Node?>(Elems(tree))
      ensures if x == null then visited == Elems(tree)
              else
                && |visited| < |Elems(tree)| && x == Elems(tree)[|visited|] && x in nodes
                && visited + [x] <= Elems(tree)
    {
      ElemsNodes(tree);
    }

    lemma EmptyOrNot()
      requires Valid()
      ensures root == null <==> tree.Leaf?
      ensures tree.Leaf? <==> Elems(tree) == []
      ensures |Elems(tree)| == Size(tree)
    {
      ElemsSize(tree);
    }

    /** SPLAY_MINMAX, which is a splay for a key beyond all keys. */
    method SplayMinMax(comp: int, ghost ns: set<Node>, ghost t: Tree) returns (ghost t': Tree, ghost k: nat)
      requires Holds(ns, t) && t.Bin? && comp != 0
      modifies this`root, ns
      ensures Holds(ns, t') && Elems(t') == Elems(t) && t'.Bin?
      ensures root == if comp < 0 then First<Node?>(Elems(t'), null) else Last<Node?>(Elems(t'), null)
      ensures Costs(k, t, t', SplayPrice(Size(t))) && Size(t') == Size(t)
      ensures var d := if comp < 0 then LeftPath(t) else RightPath(t); d <= 2 * k + 1 && k <= d
    {
      hide Parts, Covers, Snap, Elems, All, Rep, Sep, First, Last, SplayPrice, Costs, Paid, Ended, Holds, Mid,
        Beyond, WentLeft, WentRight, Size, Going, Halted, Joined, LeftPath, RightPath, Search;
      var node := new Node(0);
      var left, right := node, node;
      ghost var all, l, m, r, d, c := ns + {node}, End, t, End, NoDebt, Potential(t) * (Size(t) * Size(t));
      ghost var key := KeyBeyond(t, comp < 0);
      k := 0;
      Begin(key, node, ns, t);
      SplayStarts(t, key);
      GoingStarts(t, key);
      BeyondSearch(t, key, comp < 0);
      while true
        invariant Mid(all, node, l, m, r) && left == Tip(l, node) && right == Tip(r, node) && m.Bin?
        invariant All(l, m, r) == Elems(t) && if comp < 0 then l.End? else r.End?
        invariant Beyond(m, key, comp < 0) && Paid(k, l, m, r, key, d, c) && Going(k, t, l, m, r, key)
        decreases Size(m)
      {
        var stop;
        ghost var l0, m0, r0 := l, m, r;
        BeyondRoot(m, key, comp < 0);
        if comp < 0 {
          right, stop, m, r := MinStep(right, key, all, node, l, m, r);
          BeyondLeft(key, m0, r0, stop, m, r);
          GoesLeft(k, t, l, m0, r0, key, stop, m, r);
          if stop {
            LeftEnds(k, l, m0, r0, key, d, c, m, r);
          } else {
            d := LeftPays(k, l, m0, r0, key, d, c, m, r);
          }
        } else {
          left, stop, l, m := MaxStep(left, key, all, node, l, m, r);
          BeyondRight(key, l0, m0, stop, l, m);
          GoesRight(k, t, l0, m0, r, key, stop, l, m);
          if stop {
            RightEnds(k, l0, m0, r, key, d, c, l, m);
          } else {
            d := RightPays(k, l0, m0, r, key, d, c, l, m);
          }
        }
        k := k + 1;
        if stop {
          break;
        }
      }
      BeyondRoot(m, key, comp < 0);
      HaltedJoined(k, t, l, m, r, key);
      assert all - {node} == ns;
      t' := FinishEdge(node, left, right, all, l, m, r);
      SameSize(t, t');
      SplayBill(k, t, l, m, r, key);
    }

    method FinishEdge(node: Node, left: Node, right: Node, ghost all: set<Node>, ghost l: Spine, ghost m: Tree,
                      ghost r: Spine)
      returns (ghost t: Tree)
      requires Mid(all, node, l, m, r) && left == Tip(l, node) && right == Tip(r, node)
      modifies all
      ensures Holds(all - {node}, t) && Elems(t) == All(l, m, r) && t == Joined(l, m, r) && t.Bin?
      ensures l.End? && m.l.Leaf? ==> root == First<Node?>(Elems(t), null)
      ensures r.End? && m.r.Leaf? ==> root == Last<Node?>(Elems(t), null)
    {
      EdgeFacts(all, Snap(all), node, l, m, r);
      hide Parts, Covers, Snap, Elems, All, Rep, Sep;
      Assemble(node, left, right, all, l, m, r);
      t := Joined(l, m, r);
      RepFrame(Snap(all), Snap(all - {node}), t);
    }

    method MinStep(right: Node, ghost key: int, ghost ns: set<Node>, ghost hd: Node, ghost l: Spine, ghost m: Tree,
                   ghost r: Spine)
      returns (right': Node, stop: bool, ghost m': Tree, ghost r': Spine)
      requires Mid(ns, hd, l, m, r) && right == Tip(r, hd) && (m.l.Bin? ==> key < m.l.n.key)
      modifies this`root, ns
      ensures Mid(ns, hd, l, m', r') && right' == Tip(r', hd) && All(l, m', r') == All(l, m, r)
      ensures m'.Bin? && (if stop then m'.l.Leaf? else Size(m') < Size(m)) && WentLeft(key, m, r, stop, m', r')
    {
      hide Parts, Covers, Snap, Elems, All;
      right', m', r' := right, m, r;
      Reach(Snap(ns), hd, l, m, r);
      var tmp := root.left;
      if tmp == null {
        stop := true;
        return;
      }
      TurnRight(tmp, ns, hd, l, m, r);
      m' := RotR(m);
      Reach(Snap(ns), hd, l, m', r);
      if root.left == null {
        stop := true;
        return;
      }
      LinkOrder(l, m', r);
      right' := MoveRight(right, ns, hd, l, m', r);
      stop, m', r' := false, m'.l, Step(r, m'.r, m'.n);
    }

    method MaxStep(left: Node, ghost key: int, ghost ns: set<Node>, ghost hd: Node, ghost l: Spine, ghost m: Tree,
                   ghost r: Spine)
      returns (left': Node, stop: bool, ghost l': Spine, ghost m': Tree)
      requires Mid(ns, hd, l, m, r) && left == Tip(l, hd) && (m.r.Bin? ==> m.r.n.key < key)
      modifies this`root, ns
      ensures Mid(ns, hd, l', m', r) && left' == Tip(l', hd) && All(l', m', r) == All(l, m, r)
      ensures m'.Bin? && (if stop then m'.r.Leaf? else Size(m') < Size(m)) && WentRight(key, l, m, stop, l', m')
    {
      hide Parts, Covers, Snap, Elems, All;
      left', l', m' := left, l, m;
      Reach(Snap(ns), hd, l, m, r);
      var tmp := root.right;
      if tmp == null {
        stop := true;
        return;
      }
      TurnLeft(tmp, ns, hd, l, m, r);
      m' := RotL(m);
      Reach(Snap(ns), hd, l, m', r);
      if root.right == null {
        stop := true;
        return;
      }
      LinkOrder(l, m', r);
      left' := MoveLeft(left, ns, hd, l, m', r);
      stop, l', m' := false, Step(l, m'.l, m'.n), m'.r;
    }
  }

  lemma SameSize(t: Tree, t': Tree)
    requires Elems(t') == Elems(t)
    ensures Size(t') == Size(t)
  {
    ElemsSize(t);
    ElemsSize(t');
  }

  /** The key is below (above) all keys of the tree. */
  ghost predicate Beyond(t: Tree, key: int, below: bool) {
    forall n | n in Nodes(t) :: if below then key < n.key else n.key < key
  }

  lemma {:induction false} KeyBeyond(t: Tree, below: bool) returns (key: int)
    ensures Beyond(t, key, below)
  {
    if t.Leaf? {
      key := 0;
    } else {
      var a := KeyBeyond(t.l, below);
      var b := KeyBeyond(t.r, below);
      key := if below then Least3(a, b, t.n.key - 1) else -Least3(-a, -b, -t.n.key - 1);
    }
  }

  function Least3(a: int, b: int, c: int): (m: int)
    ensures m <= a && m <= b && m <= c
  {
    var d := if a < b then a else b;
    if d < c then d else c
  }

  lemma {:induction false} BeyondSearch(t: Tree, key: int, below: bool)
    requires Beyond(t, key, below)
    ensures t.Bin? ==> Search(t, key) + 1 == if below then LeftPath(t) else RightPath(t)
  {
    if t.Bin? {
      assert t.n in Nodes(t);
      BeyondSearch(if below then t.l else t.r, key, below);
    }
  }

  lemma BeyondRoot(t: Tree, key: int, below: bool)
    requires t.Bin? && Beyond(t, key, below)
    ensures if below then key < t.n.key && (t.l.Bin? ==> key < t.l.n.key)
            else t.n.key < key && (t.r.Bin? ==> t.r.n.key < key)
  {
    assert t.n in Nodes(t);
    assert t.l.Bin? ==> t.l.n in Nodes(t.l);
    assert t.r.Bin? ==> t.r.n in Nodes(t.r);
  }

  lemma BeyondLeft(key: int, m: Tree, r: Spine, stop: bool, m': Tree, r': Spine)
    requires m.Bin? && Beyond(m, key, true) && WentLeft(key, m, r, stop, m', r')
    ensures Beyond(m', key, true)
  {
    assert Nodes(m') <= Nodes(m);
  }

  lemma BeyondRight(key: int, l: Spine, m: Tree, stop: bool, l': Spine, m': Tree)
    requires m.Bin? && Beyond(m, key, false) && WentRight(key, l, m, stop, l', m')
    ensures Beyond(m', key, false)
  {
    assert Nodes(m') <= Nodes(m);
  }

  lemma OnlyRight(h: Links, k: Links, t: Tree)
    requires Rep(h, t) && Sep(t) && t.Bin? && t.l.Leaf?
    requires forall n | n in h && n != t.n :: n in k && k[n] == h[n]
    ensures Rep(k, t.r) && Sep(t.r) && Nodes(t.r) == Nodes(t) - {t.n} && Elems(t.r) == Elems(t.l) + Elems(t.r)
  {
    RepFrame(h, k, t.r);
  }

  /** The left subtree on its own is a valid search tree. */
  lemma LeftPart(h: Links, k: Links, t: Tree)
    requires Rep(h, t) && Sep(t) && t.Bin? && Sorted(Elems(t))
    requires forall n | n in Nodes(t.l) && n in h :: n in k && k[n] == h[n]
    ensures Rep(k, t.l) && Sep(t.l) && Sorted(Elems(t.l)) && Nodes(t.l) <= Nodes(t)
  {
    RepFrame(h, k, t.l);
    assert Elems(t) == Elems(t.l) + ([t.n] + Elems(t.r));
    SortedPart(Elems(t.l), [t.n] + Elems(t.r));
  }

  /** After the left subtree was splayed for the root's key, its new root has no right child. */
  lemma NothingRight(t: Tree, l: Tree)
    requires t.Bin? && Sorted(Elems(t)) && l.Bin? && Elems(l) == Elems(t.l) && Above(Elems(l.r), t.n.key)
    ensures l.r.Leaf?
  {
    SortedAround(Elems(t.l), t.n, Elems(t.r));
    RootInElems(l.r);
    assert forall n | n in Elems(l.r) :: n in Elems(t.l);
  }

  lemma SecondSplay(k: nat, t: Tree, l: Tree)
    requires t.Bin? && t.l.Bin? && Sorted(Elems(t)) && Walked(k, t.l, l, t.n.key)
    ensures k <= RightPath(t.l) <= 2 * k + 1
  {
    SortedAround(Elems(t.l), t.n, Elems(t.r));
    ElemsNodes(t.l);
    BeyondSearch(t.l, t.n.key, false);
  }

  lemma RootRemoved(t: Tree)
    requires t.Bin? && Sorted(Elems(t))
    ensures Sorted(Elems(t.l) + Elems(t.r)) && RemovedFrom(Elems(t), t.n, Elems(t.l) + Elems(t.r))
  {
    RemoveOrder(Elems(t.l), t.n, Elems(t.r));
  }

  lemma NoNodes(t: Tree)
    ensures t.Leaf? ==> Nodes(t) == {}
  {
  }

  lemma RootInNodes(t: Tree)
    ensures t.Bin? ==> t.n in Nodes(t)
  {
  }

  lemma RootInElems(t: Tree)
    ensures t.Bin? ==> t.n in Elems(t)
  {
  }

  lemma Rejoined(h: Links, k: Links, l: Tree, r: Tree)
    requires Rep(h, l) && Rep(h, r) && Sep(l) && Sep(r) && l.Bin? && l.r.Leaf? && Nodes(l) !! Nodes(r)
    requires Set1(h, k, l.n, Cell(Root(l.l), Root(r)))
    ensures var t := Bin(l.l, l.n, r);
      Rep(k, t) && Sep(t) && Nodes(t) == Nodes(l) + Nodes(r) && Elems(t) == Elems(l) + Elems(r)
  {
    RepFrame(h, k, l.l);
    RepFrame(h, k, r);
  }

  lemma EdgeFacts(ns: set<Node>, h: Links, hd: Node, l: Spine, m: Tree, r: Spine)
    requires Parts(h, hd, l, m, r) && Covers(ns, hd, l, m, r) && m.Bin?
    ensures var t := Joined(l, m, r);
      && Sep(t) && Nodes(t) == ns - {hd} && Elems(t) == All(l, m, r)
      && (l.End? && m.l.Leaf? ==> m.n == First<Node?>(Elems(t), null))
          && (r.End? && m.r.Leaf? ==> m.n == Last<Node?>(Elems(t), null))
  {
    JoinedSame(l, m, r);
  }

  /** An element of the tree is at the root after a splay for its key. */
  lemma AtRoot(t: Tree, e: Node)
    requires t.Bin? && e in Nodes(t) && Below(Elems(t.l), e.key) && Above(Elems(t.r), e.key)
    ensures t.n == e && Elems(t)[|Elems(t.l)|] == e && Elems(t)[|Elems(t.l)| + 1..] == Elems(t.r)
  {
    ElemsNodes(t.l);
    ElemsNodes(t.r);
    assert e !in Elems(t.l) && e !in Elems(t.r);
  }

  lemma NextOf(t: Tree, e: Node)
    requires t.Bin? && t.n == e
    ensures Follows<Node?>(Elems(t), e, First<Node?>(Elems(t.r), null), null)
        && (Root(t.r) == null ==> First<Node?>(Elems(t.r), null) == null)
  {
    assert Elems(t)[|Elems(t.l)|] == e && Elems(t)[|Elems(t.l)| + 1..] == Elems(t.r);
  }

  /** The root's own fields, and the tree in order around it. */
  lemma Whole(h: Links, t: Tree)
    requires Rep(h, t) && t.Bin?
    ensures t.n in h && h[t.n] == Cell(Root(t.l), Root(t.r))
  {
  }

  /** After a splay the sought key is at the root, if it is anywhere; otherwise no key lies between
      the root's and the sought one. */
  lemma NearestAtRoot(t: Tree, key: int)
    requires t.Bin? && Sorted(Elems(t)) && Below(Elems(t.l), key) && Above(Elems(t.r), key)
    ensures key in (set n | n in Nodes(t) :: n.key) ==> t.n.key == key
    ensures t.n.key < key ==> forall n | n in Nodes(t) :: n.key <= t.n.key || key < n.key
    ensures t.n.key > key ==> forall n | n in Nodes(t) :: t.n.key <= n.key || n.key < key
  {
    ElemsNodes(t.l);
    ElemsNodes(t.r);
    SortedAround(Elems(t.l), t.n, Elems(t.r));
  }

  /** A key that is not at the root after a splay is nowhere in the tree. */
  lemma Missing(t: Tree, key: int)
    requires t.Bin? && t.n.key != key && Below(Elems(t.l), key) && Above(Elems(t.r), key)
    ensures forall n | n in Nodes(t) :: n.key != key
  {
    ElemsNodes(t.l);
    ElemsNodes(t.r);
    forall n | n in Nodes(t)
      ensures n.key != key
    {
      if n in Nodes(t.l) {
        assert n in Elems(t.l);
      } else if n in Nodes(t.r) {
        assert n in Elems(t.r);
      } else {
        assert n == t.n;
      }
    }
  }

  /** The tree after SPLAY_INSERT cut the old root's left link. */
  lemma InsertedLeft(h: Links, k: Links, t: Tree, e: Node)
    requires Rep(h, t) && Sep(t) && t.Bin? && e !in h && h.Keys == Nodes(t) && Sorted(Elems(t))
    requires Set2(h[e := Cell(null, null)], k, e, Cell(Root(t.l), t.n), t.n, Cell(null, Root(t.r)))
    requires Below(Elems(t.l), e.key) && Above(Elems(t.r), e.key) && e.key < t.n.key
    ensures var t' := Bin(t.l, e, Bin(Leaf, t.n, t.r));
      Rep(k, t') && Sep(t') && Nodes(t') == Nodes(t) + {e} && Sorted(Elems(t')) && InsertedAt(Elems(t), e, Elems(t'))
  {
    RepFrame(h, k, t.l);
    RepFrame(h, k, t.r);
    var a, b := Elems(t.l), [t.n] + Elems(t.r);
    assert Elems(t) == a + b && Elems(Bin(Leaf, t.n, t.r)) == b;
    InsertOrder(a, e, b);
  }

  lemma InsertedRight(h: Links, k: Links, t: Tree, e: Node)
    requires Rep(h, t) && Sep(t) && t.Bin? && e !in h && h.Keys == Nodes(t) && Sorted(Elems(t))
    requires Set2(h[e := Cell(null, null)], k, e, Cell(t.n, Root(t.r)), t.n, Cell(Root(t.l), null))
    requires Below(Elems(t.l), e.key) && Above(Elems(t.r), e.key) && t.n.key < e.key
    ensures var t' := Bin(Bin(t.l, t.n, Leaf), e, t.r);
      Rep(k, t') && Sep(t') && Nodes(t') == Nodes(t) + {e} && Sorted(Elems(t')) && InsertedAt(Elems(t), e, Elems(t'))
  {
    RepFrame(h, k, t.l);
    RepFrame(h, k, t.r);
    var a, b := Elems(t.l) + [t.n], Elems(t.r);
    assert Elems(t) == a + b && Elems(Bin(t.l, t.n, Leaf)) == a;
    InsertOrder(a, e, b);
  }

  /** The comparison function. */
  function Compare(a: int, b: int): (c: int) { if a < b then -1 else if a > b then 1 else 0 }
}
