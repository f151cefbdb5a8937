/** The red-black conditions of sys/tree.h on mathematical trees: what the header promises of a
    tree, and what every step of the two fix-up loops keeps, with the focus on one subtree. */
module RedBlack {
  import opened Bits
  import opened TreeShape
  import opened Sequences
  import opened SearchOrder

  ghost predicate IsRed(t: Tree) { t.Bin? && t.red }
  ghost predicate CRed(c: Ctx) { !c.Top? && c.red }

  /** Every path from the root of `t` to a leaf passes exactly `h` black nodes. */
  ghost predicate Black(t: Tree, h: int) {
    match t
    case Leaf => h == 0
    case Bin(l, _, red, r) =>
      var k := if red then h else h - 1;
      k >= 0 && Black(l, k) && Black(r, k)
  }

  /** A subtree of black height `h` in the hole makes all paths of the whole tree equal. */
  ghost predicate CBlack(c: Ctx, h: int) {
    match c
    case Top => true
    case InL(up, _, red, r) => Black(r, h) && CBlack(up, if red then h else h + 1)
    case InR(up, l, _, red) => Black(l, h) && CBlack(up, if red then h else h + 1)
  }

  ghost function TopHeight(c: Ctx, h: int): int {
    if c.Top? then h else TopHeight(c.up, if c.red then h else h + 1)
  }

  /** No red node has a red child. */
  ghost predicate NoRR(t: Tree) {
    match t
    case Leaf => true
    case Bin(l, _, red, r) => (red ==> !IsRed(l) && !IsRed(r)) && NoRR(l) && NoRR(r)
  }

  /** The same within a context; the hole itself is not looked at. */
  ghost predicate CNoRR(c: Ctx) {
    match c
    case Top => true
    case InL(up, _, red, r) => (red ==> !IsRed(r) && !CRed(up)) && NoRR(r) && CNoRR(up)
    case InR(up, l, _, red) => (red ==> !IsRed(l) && !CRed(up)) && NoRR(l) && CNoRR(up)
  }

  ghost predicate CTopBlack(c: Ctx) {
    !c.Top? ==> if c.up.Top? then !c.red else CTopBlack(c.up)
  }

  /** The conditions the header lists, for the whole tree. */
  ghost predicate RB(t: Tree) { !IsRed(t) && NoRR(t) && exists h :: Black(t, h) }

  // ----- the height bound

  ghost function Size(t: Tree): nat { if t.Leaf? then 0 else Size(t.l) + 1 + Size(t.r) }

  ghost function Height(t: Tree): nat {
    if t.Leaf? then 0 else 1 + if Height(t.l) < Height(t.r) then Height(t.r) else Height(t.l)
  }

  /** The nodes a search for the key looks at, and those on the way to the first or last element. */
  ghost function Visits(t: Tree, key: int): nat {
    if t.Leaf? then 0 else
    1 + if key < t.n.key then Visits(t.l, key) else if key > t.n.key then Visits(t.r, key) else 0
  }

  ghost function Edge(t: Tree, left: bool): nat { if t.Leaf? then 0 else 1 + Edge(if left then t.l else t.r, left) }

  lemma {:induction false} BlackBounds(t: Tree, h: nat)
    requires Black(t, h) && NoRR(t)
    ensures Pow2(h) <= Size(t) + 1
    ensures Height(t) <= 2 * h + if IsRed(t) then 1 else 0
  {
    if t.Bin? {
      var k := if t.red then h else h - 1;
      BlackBounds(t.l, k);
      BlackBounds(t.r, k);
    }
  }

  /** The header's "maximum height of a red-black tree is 2lg (n+1)", with both sides raised to powers of two. */
  lemma HeightBound(t: Tree)
    requires RB(t)
    ensures Pow2(Height(t)) <= (Size(t) + 1) * (Size(t) + 1)
  {
    var h :| Black(t, h);
    BlackNat(t, h);
    BlackBounds(t, h);
    Pow2Mono(Height(t), 2 * h);
    Pow2Sum(h, h);
    var p, n := Pow2(h), Size(t) + 1;
    MulLe(p, n, p);
    MulLe(p, n, n);
  }

  /** Every operation on a red-black tree is bounded as O(lg n): its loops take at most 2h + 1 turns
      for a tree of height h, and so for n elements at most 4 lg(n+1) + 1. */
  lemma OperationBound(t: Tree, turns: nat)
    requires RB(t) && turns <= 2 * Height(t) + 1
    ensures var n := Size(t) + 1; Pow2(turns) <= 2 * ((n * n) * (n * n))
  {
    HeightBound(t);
    var p, q := Pow2(Height(t)), (Size(t) + 1) * (Size(t) + 1);
    Pow2Mono(turns, 2 * Height(t) + 1);
    Pow2Sum(Height(t), Height(t));
    MulLe(p, q, p);
    MulLe(p, q, q);
  }

  lemma {:induction false} DepthHeight(c: Ctx, t: Tree)
    ensures Depth(c) + Height(t) <= Height(Plug(c, t))
  {
    if !c.Top? { DepthHeight(c.up, UpTree(c, t)); }
  }

  lemma {:induction false} SubDepth(c: Ctx, x: Node, y: Node)
    ensures Depth(CSub(c, x, y)) == Depth(c)
  {
    if !c.Top? { SubDepth(c.up, x, y); }
  }

  lemma BlackNat(t: Tree, h: int)
    requires Black(t, h)
    ensures h >= 0
  {
  }

  // ----- focusing

  /** Everything but the colour clash and the black height of the focus: what a fix-up step may rely on. */
  ghost predicate CtxOk(c: Ctx, h: int) { CBlack(c, h) && CNoRR(c) && CTopBlack(c) }

  /** A valid tree, seen with its focus on `t`. */
  ghost predicate Focus(c: Ctx, t: Tree, h: int) {
    && CtxOk(c, h) && Black(t, h) && NoRR(t)
    && (IsRed(t) ==> !c.Top? && !CRed(c))
  }

  lemma FocusDown(c: Ctx, t: Tree, h: int)
    requires Focus(c, t, h) && t.Bin?
    ensures Focus(InL(c, t.n, t.red, t.r), t.l, if t.red then h else h - 1)
    ensures Focus(InR(c, t.l, t.n, t.red), t.r, if t.red then h else h - 1)
  {
  }

  lemma {:induction false} FocusUp(c: Ctx, t: Tree, h: int)
    requires CtxOk(c, h) && Black(t, h) && NoRR(t) && !(IsRed(t) && CRed(c)) && h >= 0
    ensures var w := Plug(c, t); Black(w, TopHeight(c, h)) && NoRR(w) && (IsRed(w) ==> c.Top? && IsRed(t))
  {
    if !c.Top? {
      FocusUp(c.up, UpTree(c, t), if c.red then h else h + 1);
    }
  }

  /** A valid focus is a valid tree. */
  lemma FocusRB(c: Ctx, t: Tree, h: int)
    requires Focus(c, t, h)
    ensures RB(Plug(c, t))
  {
    BlackNat(t, h);
    FocusUp(c, t, h);
    assert Black(Plug(c, t), TopHeight(c, h));
  }

  ghost function Blacken(t: Tree): Tree { if t.Leaf? then Leaf else t.(red := false) }

  // ----- search order

  /** Everything before the focus's root is smaller, everything after it larger. */
  lemma SearchSplit(c: Ctx, t: Tree)
    requires t.Bin? && Sorted(Elems(Plug(c, t)))
    ensures Below(Before(c) + Elems(t.l), t.n.key) && Above(Elems(t.r) + After(c), t.n.key)
  {
    hide Sorted, Below, Above, Plug;
    PlugElems(c, t);
    var a, b := Before(c) + Elems(t.l), Elems(t.r) + After(c);
    assert Before(c) + (Elems(t.l) + [t.n] + Elems(t.r)) + After(c) == a + [t.n] + b;
    SortedAround(a, t.n, b);
  }

  // ----- insertion

  /** Between two steps of RB_INSERT_COLOR: the only thing wrong may be that the focus's parent
      is red like the focus itself, or that the focus is a red root. */
  ghost predicate InsInv(c: Ctx, t: Tree, h: int) {
    CtxOk(c, h) && Black(t, h) && NoRR(t) && IsRed(t) && h >= 0
  }

  lemma InsDone(c: Ctx, t: Tree, h: int)
    requires InsInv(c, t, h) && !CRed(c)
    ensures RB(Blacken(Plug(c, t)))
  {
    FocusUp(c, t, h);
    var w := Plug(c, t);
    assert Black(Blacken(w), TopHeight(c, h) + if IsRed(w) then 1 else 0);
  }

  /** With a red parent there is a black grandparent. */
  lemma InsGrand(c: Ctx, t: Tree, h: int)
    requires InsInv(c, t, h) && CRed(c)
    ensures !c.up.Top? && !c.up.red
  {
  }

  /** Parent and uncle turned black, grandparent red: the new focus. */
  ghost function Recoloured(c: Ctx, t: Tree): Tree
    requires !c.Top? && !c.up.Top? && Sibling(c.up).Bin?
  {
    var p, u := Blacken(UpTree(c, t)), Blacken(Sibling(c.up));
    if c.up.InL? then Bin(p, c.up.n, true, u) else Bin(u, c.up.n, true, p)
  }

  lemma RecolourOrder(c: Ctx, t: Tree)
    requires !c.Top? && !c.up.Top? && Sibling(c.up).Bin?
    ensures Elems(Plug(c.up.up, Recoloured(c, t))) == Elems(Plug(c, t))
  {
    var g := UpTree(c.up, UpTree(c, t));
    assert Plug(c, t) == Plug(c.up, UpTree(c, t)) == Plug(c.up.up, g);
    assert Elems(Blacken(UpTree(c, t))) == Elems(UpTree(c, t)) && Elems(Blacken(Sibling(c.up))) == Elems(Sibling(c.up));
    PlugSame(c.up.up, g, Recoloured(c, t));
  }

  lemma InsRecolour(c: Ctx, t: Tree, h: int)
    requires InsInv(c, t, h) && CRed(c) && !c.up.Top? && IsRed(Sibling(c.up))
    ensures InsInv(c.up.up, Recoloured(c, t), h + 1)
    ensures Elems(Plug(c.up.up, Recoloured(c, t))) == Elems(Plug(c, t))
  {
    RecolourOrder(c, t);
    assert CBlack(c.up, h) && CNoRR(c.up) && CTopBlack(c.up);
    assert CBlack(c.up.up, h + 1) && CNoRR(c.up.up) && CTopBlack(c.up.up);
  }

  /** The state after the rotation at the grandparent: the loop is about to stop. */
  lemma InsRotateOuter(c: Ctx, t: Tree, h: int)
    requires InsInv(c, t, h) && CRed(c) && !c.up.Top? && !IsRed(Sibling(c.up))
    ensures c.InL? && c.up.InL? ==> InsInv(InL(c.up.up, c.n, false, Bin(c.r, c.up.n, true, c.up.r)), t, h)
    ensures c.InR? && c.up.InR? ==> InsInv(InR(c.up.up, Bin(c.up.l, c.up.n, true, c.l), c.n, false), t, h)
  {
    assert CBlack(c.up, h) && CNoRR(c.up) && CTopBlack(c.up);
    assert CBlack(c.up.up, h + 1) && CNoRR(c.up.up) && CTopBlack(c.up.up);
  }

  /** The first rotation of a double rotation swaps the roles of element and parent. */
  lemma InsRotateInner(c: Ctx, t: Tree, h: int)
    requires InsInv(c, t, h) && CRed(c) && !c.up.Top? && !IsRed(Sibling(c.up))
    ensures c.InR? && c.up.InL? ==> InsInv(InL(c.up, t.n, true, t.r), Bin(c.l, c.n, true, t.l), h)
    ensures c.InL? && c.up.InR? ==> InsInv(InR(c.up, t.l, t.n, true), Bin(t.r, c.n, true, c.r), h)
  {
    assert CBlack(c.up, h) && CNoRR(c.up) && CTopBlack(c.up);
    assert CBlack(c.up.up, h + 1) && CNoRR(c.up.up) && CTopBlack(c.up.up);
  }

  // ----- removal

  /** Between two steps of RB_REMOVE_COLOR: the focus is one black node short, and its root may
      clash with its parent or its children are fine apart from that root. */
  ghost predicate RemInv(c: Ctx, t: Tree, h: int) {
    CtxOk(c, h + 1) && Black(t, h) && NoRR(Blacken(t)) && h >= 0
  }

  lemma RemDone(c: Ctx, t: Tree, h: int)
    requires RemInv(c, t, h) && (IsRed(t) || c.Top?)
    ensures RB(Plug(c, Blacken(t)))
  {
    var b, k := Blacken(t), if IsRed(t) then h + 1 else h;
    assert Black(b, k);
    FocusUp(c, b, k);
    assert Black(Plug(c, b), TopHeight(c, k));
  }

  /** The sibling of a focus that is a black node short is never missing. */
  lemma RemSibling(c: Ctx, t: Tree, h: int)
    requires RemInv(c, t, h) && !c.Top?
    ensures Sibling(c).Bin?
    ensures IsRed(Sibling(c)) ==> !c.red && Sibling(c).l.Bin? && Sibling(c).r.Bin?
  {
    var w := Sibling(c);
    assert Black(w, h + 1);
    assert IsRed(w) ==> Black(w.l, h + 1) && Black(w.r, h + 1);
  }

  lemma RemRedSiblingL(c: Ctx, t: Tree, h: int)
    requires RemInv(c, t, h) && c.InL? && IsRed(c.r)
    ensures !IsRed(c.r.l) && RemInv(InL(InL(c.up, c.r.n, false, c.r.r), c.n, true, c.r.l), t, h)
  {
  }

  lemma RemRedSiblingR(c: Ctx, t: Tree, h: int)
    requires RemInv(c, t, h) && c.InR? && IsRed(c.l)
    ensures !IsRed(c.l.r) && RemInv(InR(InR(c.up, c.l.l, c.l.n, false), c.l.r, c.n, true), t, h)
  {
  }

  lemma RemBlackKids(c: Ctx, t: Tree, h: int)
    requires RemInv(c, t, h) && !IsRed(t) && !c.Top? && Sibling(c).Bin?
    requires !IsRed(Sibling(c)) && !IsRed(Sibling(c).l) && !IsRed(Sibling(c).r)
    ensures c.InL? ==> RemInv(c.up, Bin(t, c.n, c.red, c.r.(red := true)), if c.red then h else h + 1)
    ensures c.InR? ==> RemInv(c.up, Bin(c.l.(red := true), c.n, c.red, t), if c.red then h else h + 1)
  {
  }

  lemma RemInnerL(c: Ctx, t: Tree, h: int)
    requires RemInv(c, t, h) && c.InL? && c.r.Bin? && !c.r.red && IsRed(c.r.l) && !IsRed(c.r.r)
    ensures RemInv(c.(r := RotR(Bin(c.r.l.(red := false), c.r.n, true, c.r.r))), t, h)
  {
    var w := c.r;
    assert Black(w.l, h) && Black(w.r, h) && NoRR(w.l) && NoRR(w.r);
    assert Black(w.l.l, h) && Black(w.l.r, h) && NoRR(w.l.l) && NoRR(w.l.r);
  }

  lemma RemInnerR(c: Ctx, t: Tree, h: int)
    requires RemInv(c, t, h) && c.InR? && c.l.Bin? && !c.l.red && IsRed(c.l.r) && !IsRed(c.l.l)
    ensures RemInv(c.(l := RotL(Bin(c.l.l, c.l.n, true, c.l.r.(red := false)))), t, h)
  {
    var w := c.l;
    assert Black(w.l, h) && Black(w.r, h) && NoRR(w.l) && NoRR(w.r);
    assert Black(w.r.l, h) && Black(w.r.r, h) && NoRR(w.r.l) && NoRR(w.r.r);
  }

  lemma RemOuterL(c: Ctx, t: Tree, h: int)
    requires RemInv(c, t, h) && !IsRed(t) && c.InL? && c.r.Bin? && !c.r.red && IsRed(c.r.r)
    ensures RB(Plug(c.up, RotL(Bin(t, c.n, false, c.r.(red := c.red, r := Blacken(c.r.r))))))
  {
    var w, k := RotL(Bin(t, c.n, false, c.r.(red := c.red, r := Blacken(c.r.r)))), if c.red then h + 1 else h + 2;
    var o := c.r;
    assert Black(c.r, h + 1) && Black(o.l, h) && Black(o.r, h) && NoRR(o.l) && NoRR(o.r);
    assert Black(Blacken(o.r), h + 1) && NoRR(Blacken(o.r));
    assert Black(w.l, h + 1) && Black(w.r, h + 1);
    FocusUp(c.up, w, k);
    assert Black(Plug(c.up, w), TopHeight(c.up, k));
  }

  lemma RemOuterR(c: Ctx, t: Tree, h: int)
    requires RemInv(c, t, h) && !IsRed(t) && c.InR? && c.l.Bin? && !c.l.red && IsRed(c.l.l)
    ensures RB(Plug(c.up, RotR(Bin(c.l.(red := c.red, l := Blacken(c.l.l)), c.n, false, t))))
  {
    var w, k := RotR(Bin(c.l.(red := c.red, l := Blacken(c.l.l)), c.n, false, t)), if c.red then h + 1 else h + 2;
    var o := c.l;
    assert Black(c.l, h + 1) && Black(o.l, h) && Black(o.r, h) && NoRR(o.l) && NoRR(o.r);
    assert Black(Blacken(o.l), h + 1) && NoRR(Blacken(o.l));
    assert Black(w.l, h + 1) && Black(w.r, h + 1);
    FocusUp(c.up, w, k);
    assert Black(Plug(c.up, w), TopHeight(c.up, k));
  }

  // ----- removal, before the fix-up

  /** Every focus on a valid tree is a valid focus. */
  lemma {:induction false} FocusFrom(c: Ctx, t: Tree) returns (k: int)
    requires RB(Plug(c, t))
    ensures Focus(c, t, k)
  {
    if c.Top? {
      k :| Black(t, k);
    } else {
      var k1 := FocusFrom(c.up, UpTree(c, t));
      FocusDown(c.up, UpTree(c, t), k1);
      k := if c.red then k1 else k1 - 1;
    }
  }

  /** What is left at the focus once a node with at most one child is gone: a valid tree if the
      node was red, a tree one black node short if it was black. */
  ghost predicate Gone(c: Ctx, t: Tree, red: bool, h: int) {
    if red then Focus(c, t, h) else RemInv(c, t, h)
  }

  lemma SpliceGone(c: Ctx, t: Tree, k: int, sub: Tree)
    requires Focus(c, t, k) && t.Bin?
    requires (t.l.Leaf? && sub == t.r) || (t.r.Leaf? && sub == t.l)
    ensures Gone(c, sub, t.red, if t.red then k else k - 1)
  {
    BlackNat(sub, if t.red then k else k - 1);
    assert NoRR(sub) && (sub.Bin? ==> NoRR(sub.l) && NoRR(sub.r));
  }

  /** Colours and black heights do not care which node carries them. */
  lemma SubGone(c: Ctx, t: Tree, red: bool, h: int, x: Node, y: Node)
    requires Gone(c, t, red, h)
    ensures Gone(CSub(c, x, y), t, red, h)
  {
    CSubBlack(c, if red then h else h + 1, x, y);
  }

  lemma {:induction false} SubBlack(t: Tree, h: int, x: Node, y: Node)
    ensures Black(Sub(t, x, y), h) == Black(t, h)
    ensures NoRR(Sub(t, x, y)) == NoRR(t) && IsRed(Sub(t, x, y)) == IsRed(t)
  {
    if t.Bin? {
      SubBlack(t.l, if t.red then h else h - 1, x, y);
      SubBlack(t.r, if t.red then h else h - 1, x, y);
    }
  }

  lemma {:induction false} CSubBlack(c: Ctx, h: int, x: Node, y: Node)
    requires CtxOk(c, h)
    ensures CtxOk(CSub(c, x, y), h) && CRed(CSub(c, x, y)) == CRed(c) && CSub(c, x, y).Top? == c.Top?
  {
    if !c.Top? {
      CSubBlack(c.up, if c.red then h else h + 1, x, y);
      SubBlack(Sibling(c), h, x, y);
    }
  }

  /** `s'` is `s` without its element `x`. */
  lemma RemovedSorted(s: seq<Node>, x: Node, s': seq<Node>)
    requires Sorted(s) && RemovedFrom(s, x, s')
    ensures Sorted(s')
  {
    var i :| 0 <= i < |s| && s[i] == x && s' == s[..i] + s[i + 1..];
    RemovedAtSorted(s, i);
  }

  lemma RemovedAtSorted(s: seq<Node>, i: nat)
    requires Sorted(s) && i < |s|
    ensures Sorted(s[..i] + s[i + 1..])
  {
    var s' := s[..i] + s[i + 1..];
    forall j, k | 0 <= j < k < |s'| ensures s'[j].key < s'[k].key {
      assert s'[j] == s[if j < i then j else j + 1] && s'[k] == s[if k < i then k else k + 1];
    }
  }

  lemma SpliceElems(c: Ctx, t: Tree, sub: Tree)
    requires t.Bin? && ((t.l.Leaf? && sub == t.r) || (t.r.Leaf? && sub == t.l))
    ensures RemovedFrom(Elems(Plug(c, t)), t.n, Elems(Plug(c, sub)))
  {
    hide RemovedFrom, Plug;
    PlugElems(c, t);
    PlugElems(c, sub);
    DropOne(Before(c), t.n, Elems(sub), After(c));
    assert Elems(t) == if t.l.Leaf? then [t.n] + Elems(sub) else Elems(sub) + [t.n];
  }

  lemma DropOne(a: seq<Node>, x: Node, e: seq<Node>, b: seq<Node>)
    ensures RemovedFrom(a + ([x] + e) + b, x, a + e + b)
    ensures RemovedFrom(a + (e + [x]) + b, x, a + e + b)
  {
    var s, s' := a + ([x] + e) + b, a + e + b;
    assert s[|a|] == x && s' == s[..|a|] + s[|a| + 1..];
    s := a + (e + [x]) + b;
    assert s[|a + e|] == x && s' == s[..|a + e|] + s[|a + e| + 1..];
  }

  // ----- removal of a node with two children: its successor takes its place

  ghost function RenSeq(s: seq<Node>, x: Node, y: Node): seq<Node> {
    seq(|s|, i requires 0 <= i < |s| => Ren(s[i], x, y))
  }

  lemma {:induction false} SubElems(t: Tree, x: Node, y: Node)
    ensures Elems(Sub(t, x, y)) == RenSeq(Elems(t), x, y)
  {
    if t.Bin? {
      SubElems(t.l, x, y);
      SubElems(t.r, x, y);
    }
  }

  lemma {:induction false} PlugSub(c: Ctx, t: Tree, x: Node, y: Node)
    ensures Plug(CSub(c, x, y), Sub(t, x, y)) == Sub(Plug(c, t), x, y)
  {
    if !c.Top? { PlugSub(c.up, UpTree(c, t), x, y); }
  }

  lemma RenOnce(b: seq<Node>, x: Node, q: seq<Node>, y: Node)
    requires Sorted(b + [x] + [y] + q)
    ensures RenSeq(b + [x] + q, x, y) == b + [y] + q
    ensures RemovedFrom(b + [x] + [y] + q, x, b + [y] + q)
  {
    var s := b + [x] + [y] + q;
    assert s == b + [x] + ([y] + q);
    assert s[|b|] == x && b + [y] + q == s[..|b|] + s[|b| + 1..];
    SortedAround(b, x, [y] + q);
    NotIn(b, x, [y] + q);
    assert forall n | n in q :: n in [y] + q;
    RenAt(b, x, q, y);
  }

  lemma NotIn(a: seq<Node>, x: Node, b: seq<Node>)
    requires Below(a, x.key) && Above(b, x.key)
    ensures x !in a && x !in b
  {
  }

  lemma RenAt(b: seq<Node>, x: Node, q: seq<Node>, y: Node)
    requires x !in b && x !in q
    ensures RenSeq(b + [x] + q, x, y) == b + [y] + q
  {
    assert forall i | 0 <= i < |b| :: b[i] in b;
    assert forall i | 0 <= i < |q| :: q[i] in q;
  }

  /** `y`, the first node after `x`, was taken out (leaving `sub`) and put in `x`'s place. */
  lemma {:induction false} SuccessorOrder(c: Ctx, t: Tree, x: Node, b: seq<Node>)
    requires t.Bin? && t.l.Leaf? && Before(c) == b + [x] && x !in Nodes(t.r)
    requires Sorted(Elems(Plug(c, t))) && t.n !in Nodes(t.r)
    ensures RemovedFrom(Elems(Plug(c, t)), x, Elems(Plug(CSub(c, x, t.n), t.r)))
  {
    var y, q := t.n, Elems(t.r) + After(c);
    PlugElems(c, t);
    PlugElems(c, t.r);
    PlugSub(c, t.r, x, y);
    SubNodes(t.r, x, y);
    SubElems(Plug(c, t.r), x, y);
    Regroup2(b + [x], y, Elems(t.r), After(c));
    assert Elems(t) == [y] + Elems(t.r);
    hide *;
    RenOnce(b, x, q, y);
  }

  lemma Regroup2(a: seq<Node>, y: Node, e: seq<Node>, z: seq<Node>)
    ensures a + ([y] + e) + z == a + [y] + (e + z)
    ensures a + e + z == a + (e + z)
  {
  }
}
