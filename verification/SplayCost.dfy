/** The Balance Theorem of sys/tree.h, multiplied out: what a top-down splay costs, against the
    product of all subtree sizes.

    A turn of the loop is paid for by a fall of that product. The nodes of the unfinished side trees
    count with the sizes they will end up with; those are known, because all that is below the key
    in the middle tree will end on the left, and all that is above it on the right. */
module SplayCost {
  import opened Bits
  import opened SearchOrder
  import opened SplayShape

  /** The product of the sizes of all subtrees: two to the usual potential. */
  ghost function Potential(t: Tree): (p: nat)
    ensures p >= 1
  {
    if t.Leaf? then 1 else
    MulPos(Size(t), Potential(t.l));
    MulPos(Size(t) * Potential(t.l), Potential(t.r));
    Size(t) * Potential(t.l) * Potential(t.r)
  }

  lemma MulPos(a: nat, b: nat)
    ensures a * b >= 0 && (a >= 1 && b >= 1 ==> a * b >= 1)
  {
    MulLe(1, a, b);
  }

  /** The part of the product due to a side tree, if `x` nodes fill its unfinished link. */
  ghost function Weight(s: Spine, x: nat): (p: nat)
    ensures p >= 1
  {
    if s.End? then 1 else
    var y := x + 1 + Size(s.sub);
    MulPos(Potential(s.sub), y);
    MulPos(Potential(s.sub) * y, Weight(s.out, y));
    Potential(s.sub) * y * Weight(s.out, y)
  }

  /** The nodes below and above a key, along the search path. */
  ghost function Lo(t: Tree, key: int): nat {
    if t.Leaf? then 0
    else if key < t.n.key then Lo(t.l, key)
    else if t.n.key < key then Size(t.l) + 1 + Lo(t.r, key)
    else Size(t.l)
  }

  ghost function Hi(t: Tree, key: int): nat {
    if t.Leaf? then 0
    else if key < t.n.key then Hi(t.l, key) + 1 + Size(t.r)
    else if t.n.key < key then Hi(t.r, key)
    else Size(t.r)
  }

  lemma {:induction false} LoHi(t: Tree, key: int)
    ensures Lo(t, key) + Hi(t, key) <= Size(t)
  {
    if t.Bin? {
      LoHi(t.l, key);
      LoHi(t.r, key);
    }
  }

  /** The product for the three pieces of a splay under way. */
  ghost function Product(l: Spine, m: Tree, r: Spine, key: int): nat {
    MulPos(Weight(l, Lo(m, key)), Potential(m));
    MulPos(Weight(l, Lo(m, key)) * Potential(m), Weight(r, Hi(m, key)));
    Weight(l, Lo(m, key)) * Potential(m) * Weight(r, Hi(m, key))
  }

  // ----- the arithmetic of a turn

  lemma Mean(x: nat, y: nat, s: nat)
    requires x + y <= s
    ensures 4 * (x * y) <= s * s
  {
    var d := x - y;
    assert (x + y) * (x + y) - 4 * (x * y) == d * d;
    assert d * d >= 0;
    MulLe(x + y, s, x + y);
    MulLe(x + y, s, s);
  }

  lemma Cancel(d: nat, a: nat, b: nat)
    requires d * a <= d * b && d >= 1
    ensures a <= b
  {
    MulCancel(a, b, d);
  }

  lemma Le2(a: nat, b: nat, c: nat, d: nat)
    requires a <= b && c <= d
    ensures a * c <= b * d
  {
    MulLe(a, b, c);
    MulLe(c, d, b);
  }

  /** From p * q == r, with both sides multiplied. */
  lemma Scale(p: nat, q: nat, r: nat, t: nat)
    requires p * q == r
    ensures p * (q * t) == r * t
  {
  }

  /** If p * q == u * v, u <= s * t, and v * s <= w ... */
  lemma Shuffle(x: nat, b: nat, q: nat, z: nat)
    ensures (2 * (x * b) * q) * (z * z) == (2 * (x * z)) * ((b * z) * q)
  {
    assert (2 * (x * b) * q) * (z * z) == 2 * ((x * b) * (q * (z * z)));
    assert (x * b) * (q * (z * z)) == x * (b * (q * (z * z)));
    assert b * (q * (z * z)) == z * ((b * z) * q);
  }

  lemma Rotate(a: nat, b: nat, c: nat)
    ensures a * (b * c) == b * (c * a)
  {
  }

  /** A zig-zig pays for itself. */
  lemma ZigZigPays(q: nat, q': nat, s: nat, y: nat, z: nat, x: nat, b: nat, c: nat)
    requires q * (s * s) <= c && (s * y) * q' == 2 * (x * b) * q
    requires b <= s && z <= y && x + z <= s && s >= 1 && y >= 1
    ensures q' * (z * z) <= c
  {
    Mean(x, z, s);
    Le2(b, s, z, y);
    MulPos(s, y);
    Scale(s * y, q', 2 * (x * b) * q, z * z);
    Shuffle(x, b, q, z);
    PaysCore(s * y, q' * (z * z), 2 * (x * z), b * z, q, s * s, c);
  }

  lemma PaysCore(p: nat, t: nat, x: nat, u: nat, q: nat, ss: nat, c: nat)
    requires p * t == x * (u * q) && x <= ss && u <= p && q * ss <= c && p >= 1
    ensures t <= c
  {
    MulLe(u, p, q);
    Le2(x, ss, u * q, p * q);
    Rotate(ss, p, q);
    MulLe(q * ss, c, p);
    Cancel(p, t, c);
  }

  /** A single zig leaves a debt. */
  lemma ZigOwes(q: nat, q': nat, s: nat, b: nat, c: nat)
    requires q * (s * s) <= c && s * q' == 2 * b * q
    ensures q' * (s * s * s) <= 2 * b * c
  {
    MulLe(q * (s * s), c, 2 * b);
    Scale(s, q', 2 * b * q, s * s);
    assert q' * (s * s * s) == s * (q' * (s * s));
    assert (2 * b * q) * (s * s) == (2 * b) * (q * (s * s));
  }

  /** A zig to the other side settles it. */
  lemma ZigSettles(q: nat, q': nat, s0: nat, b: nat, s: nat, a: nat, z: nat, c: nat)
    requires q * (s0 * s0 * s0) <= 2 * b * c && s * q' == 2 * a * q
    requires a + b <= s0 && z <= s <= s0 && s >= 1
    ensures q' * (z * z) <= c
  {
    SettleAll(q, s * q', s0, b, 1, a, c);
    SettledZig(s, q', s0, z, c);
  }

  lemma SettledZig(s: nat, q': nat, s0: nat, z: nat, c: nat)
    requires (s * q') * s0 <= c && z <= s <= s0
    ensures q' * (z * z) <= c
  {
    Le2(z, s, z, s0);
    MulLe(z * z, s * s0, q');
    assert (s * s0) * q' == (s * q') * s0;
  }

  /** The debt of a zig, met by a turn that multiplies by `k`. */
  lemma Settle(q: nat, t: nat, s0: nat, b: nat, k: nat, c: nat)
    requires q * (s0 * s0 * s0) <= 2 * b * c && t == k * q
    ensures t * (s0 * s0 * s0) <= (k * (2 * b)) * c
  {
    Le2(k, k, q * (s0 * s0 * s0), 2 * b * c);
    assert t * (s0 * s0 * s0) == k * (q * (s0 * s0 * s0));
    assert k * (2 * b * c) == (k * (2 * b)) * c;
  }

  lemma SettleCore(t: nat, s0: nat, k: nat, c: nat, x: nat)
    requires t * (s0 * s0 * s0) <= k * c && k <= (s0 * s0) * x && s0 >= 1
    ensures t * s0 <= x * c
  {
    MulLe(k, (s0 * s0) * x, c);
    assert t * (s0 * s0 * s0) == (s0 * s0) * (t * s0);
    assert ((s0 * s0) * x) * c == (s0 * s0) * (x * c);
    MulPos(s0, s0);
    Cancel(s0 * s0, t * s0, x * c);
  }

  lemma SettleAll(q: nat, t: nat, s0: nat, b: nat, x: nat, a: nat, c: nat)
    requires q * (s0 * s0 * s0) <= 2 * b * c && t == 2 * (x * a) * q && a + b <= s0 && s0 >= 1
    ensures t * s0 <= x * c
  {
    FourTerms(x, a, b, s0);
    SettleBy(q, t, s0, b, 2 * (x * a), c, x);
  }

  lemma SettleBy(q: nat, t: nat, s0: nat, b: nat, k: nat, c: nat, x: nat)
    requires q * (s0 * s0 * s0) <= 2 * b * c && t == k * q && k * (2 * b) <= (s0 * s0) * x && s0 >= 1
    ensures t * s0 <= x * c
  {
    Settle(q, t, s0, b, k, c);
    SettleCore(t, s0, k * (2 * b), c, x);
  }

  /** So does a zig-zig to the other side. */
  lemma ZigZigSettles(q: nat, q': nat, s0: nat, b: nat, s: nat, y: nat, z: nat, x: nat, a: nat, c: nat)
    requires q * (s0 * s0 * s0) <= 2 * b * c && (s * y) * q' == 2 * (x * a) * q
    requires a + b <= s0 && x + z <= s <= s0 && z <= y && s >= 1 && y >= 1
    ensures q' * (z * z) <= c
  {
    SettleAll(q, (s * y) * q', s0, b, x, a, c);
    SettlesEnd(s, y, q', s0, x, z, c);
  }

  lemma FourTerms(x: nat, a: nat, b: nat, s0: nat)
    requires a + b <= s0
    ensures (2 * (x * a)) * (2 * b) <= (s0 * s0) * x
  {
    assert (2 * (x * a)) * (2 * b) == (4 * (a * b)) * x by { assert (x * a) * b == (a * b) * x; }
    Mean(a, b, s0);
    MulLe(4 * (a * b), s0 * s0, x);
  }

  lemma SettlesEnd(s: nat, y: nat, q: nat, s0: nat, x: nat, z: nat, c: nat)
    requires ((s * y) * q) * s0 <= x * c && x + z <= s <= s0 && z <= y && s >= 1
    ensures q * (z * z) <= c
  {
    MeanBelow(x, z, s, s0);
    EndBound(s, y, q, s0, x, z, c);
    SquareBelow(y, z, q, c);
  }

  lemma EndBound(s: nat, y: nat, q: nat, s0: nat, x: nat, z: nat, c: nat)
    requires ((s * y) * q) * s0 <= x * c && x * z <= s * s0 && s * s0 >= 1
    ensures (y * z) * q <= c
  {
    var t, d, w := ((s * y) * q) * s0, s * s0, (y * z) * q;
    assert t * z == d * w by { EndTerms(s, y, q, s0, z); }
    EndCore(t, d, w, x, z, c);
  }

  lemma MeanBelow(x: nat, z: nat, s: nat, s0: nat)
    requires x + z <= s <= s0 && s >= 1
    ensures x * z <= s * s0 && s * s0 >= 1
  {
    Mean(x, z, s);
    Le2(s, s, s, s0);
    MulPos(s, s0);
  }

  lemma SquareBelow(y: nat, z: nat, q: nat, c: nat)
    requires (y * z) * q <= c && z <= y
    ensures q * (z * z) <= c
  {
    Le2(z, y, z, z);
    MulLe(z * z, y * z, q);
  }

  lemma EndTerms(s: nat, y: nat, q: nat, s0: nat, z: nat)
    ensures (((s * y) * q) * s0) * z == (s * s0) * ((y * z) * q)
  {
    assert ((s * y) * q) * s0 == (s * s0) * (y * q);
    assert ((s * s0) * (y * q)) * z == (s * s0) * ((y * q) * z);
    assert (y * q) * z == (y * z) * q;
  }

  lemma EndCore(t: nat, d: nat, w: nat, x: nat, z: nat, c: nat)
    requires t * z == d * w && t <= x * c && x * z <= d && d >= 1
    ensures w <= c
  {
    MulLe(t, x * c, z);
    Rotate(z, x, c);
    MulLe(x * z, d, c);
    Cancel(d, w, c);
  }

  // ----- the turns of the loop

  /** What a turn for a key below the middle's root does to the pieces. */
  ghost predicate WentLeft(key: int, m: Tree, r: Spine, stop: bool, m': Tree, r': Spine)
    requires m.Bin?
  {
    if m.l.Leaf? then stop && m' == m && r' == r
    else if m.l.n.key <= key then !stop && m' == m.l && r' == Step(r, m.r, m.n)
    else if m.l.l.Leaf? then stop && m' == RotR(m) && r' == r
    else !stop && m' == m.l.l && r' == Step(r, Bin(m.l.r, m.n, m.r), m.l.n)
  }

  ghost predicate WentRight(key: int, l: Spine, m: Tree, stop: bool, l': Spine, m': Tree)
    requires m.Bin?
  {
    if m.r.Leaf? then stop && m' == m && l' == l
    else if key <= m.r.n.key then !stop && m' == m.r && l' == Step(l, m.l, m.n)
    else if m.r.r.Leaf? then stop && m' == RotL(m) && l' == l
    else !stop && m' == m.r.r && l' == Step(l, Bin(m.l, m.n, m.r.l), m.r.n)
  }

  lemma ZigLeft(l: Spine, m: Tree, r: Spine, key: int)
    requires m.Bin? && m.l.Bin? && key < m.n.key
    ensures Size(m) * Product(l, m.l, Step(r, m.r, m.n), key) == Hi(m, key) * Product(l, m, r, key)
  {
    ZigTerms(Size(m), Hi(m, key), Weight(l, Lo(m, key)), Potential(m.l), Potential(m.r), Weight(r, Hi(m, key)));
  }

  lemma ZigTerms(s: nat, b: nat, w: nat, p: nat, q: nat, u: nat)
    ensures s * (w * p * (q * b * u)) == b * (w * (s * p * q) * u)
    ensures s * ((p * b * w) * q * u) == b * (w * (s * p * q) * u)
  {
    assert w * p * (q * b * u) == b * (w * (p * q) * u);
    assert (p * b * w) * q * u == b * (w * (p * q) * u);
    assert w * (s * p * q) * u == s * (w * (p * q) * u);
  }

  lemma ZigRight(l: Spine, m: Tree, r: Spine, key: int)
    requires m.Bin? && m.r.Bin? && m.n.key < key
    ensures Size(m) * Product(Step(l, m.l, m.n), m.r, r, key) == Lo(m, key) * Product(l, m, r, key)
  {
    ZigTerms(Size(m), Lo(m, key), Weight(l, Lo(m, key)), Potential(m.l), Potential(m.r), Weight(r, Hi(m, key)));
  }

  lemma ZigZigLeft(l: Spine, m: Tree, r: Spine, key: int)
    requires m.Bin? && m.l.Bin? && key < m.n.key && key < m.l.n.key
    ensures var x := Bin(m.l.r, m.n, m.r);
      (Size(m) * Size(m.l)) * Product(l, m.l.l, Step(r, x, m.l.n), key)
          == (Size(x) * Hi(m, key)) * Product(l, m, r, key)
  {
    var x := Bin(m.l.r, m.n, m.r);
    assert Potential(m) == Size(m) * (Size(m.l) * Potential(m.l.l) * Potential(m.l.r)) * Potential(m.r);
    assert Potential(x) == Size(x) * Potential(m.l.r) * Potential(m.r);
    assert Lo(m.l, key) == Lo(m.l.l, key) == Lo(m, key) && Hi(m, key) == Hi(m.l.l, key) + 1 + Size(x);
    assert Weight(Step(r, x, m.l.n), Hi(m.l.l, key)) == Potential(x) * Hi(m, key) * Weight(r, Hi(m, key));
    ZigZigTerms(Size(m), Size(m.l), Size(x), Hi(m, key), Weight(l, Lo(m, key)),
                Potential(m.l.l), Potential(m.l.r), Potential(m.r), Weight(r, Hi(m, key)));
  }

  lemma ZigZigTerms(s: nat, y: nat, x: nat, b: nat, w: nat, p: nat, q: nat, t: nat, u: nat)
    ensures (s * y) * (w * p * ((x * q * t) * b * u)) == (x * b) * (w * (s * (y * p * q) * t) * u)
  {
    var v := w * (p * (q * (t * u)));
    Gather(w, p, x, q, t, b, u);
    Gather(w, p, s, q, t, y, u);
    assert w * (s * (y * p * q) * t) * u == (s * y) * v by { Collect(w, s, y, p, q, t, u); }
    assert (s * y) * ((x * b) * v) == (x * b) * ((s * y) * v);
  }

  lemma Gather(w: nat, p: nat, x: nat, q: nat, t: nat, b: nat, u: nat)
    ensures w * p * ((x * q * t) * b * u) == (x * b) * (w * (p * (q * (t * u))))
  {
    assert (x * q * t) * b * u == (x * b) * (q * (t * u));
    assert w * p * ((x * b) * (q * (t * u))) == (x * b) * ((w * p) * (q * (t * u)));
  }

  lemma Collect(w: nat, s: nat, y: nat, p: nat, q: nat, t: nat, u: nat)
    ensures w * (s * (y * p * q) * t) * u == (s * y) * (w * (p * (q * (t * u))))
  {
    assert s * (y * p * q) * t == (s * y) * ((p * q) * t);
    assert w * ((s * y) * ((p * q) * t)) * u == (s * y) * (w * (((p * q) * t) * u));
    assert ((p * q) * t) * u == p * (q * (t * u));
  }

  lemma ZigZigRight(l: Spine, m: Tree, r: Spine, key: int)
    requires m.Bin? && m.r.Bin? && m.n.key < key && m.r.n.key < key
    ensures var x := Bin(m.l, m.n, m.r.l);
      (Size(m) * Size(m.r)) * Product(Step(l, x, m.r.n), m.r.r, r, key)
          == (Size(x) * Lo(m, key)) * Product(l, m, r, key)
  {
    var x := Bin(m.l, m.n, m.r.l);
    assert Potential(m) == Size(m) * Potential(m.l) * (Size(m.r) * Potential(m.r.l) * Potential(m.r.r));
    assert Potential(x) == Size(x) * Potential(m.l) * Potential(m.r.l);
    assert Hi(m.r, key) == Hi(m.r.r, key) == Hi(m, key) && Lo(m, key) == Lo(m.r.r, key) + 1 + Size(x);
    assert Weight(Step(l, x, m.r.n), Lo(m.r.r, key)) == Potential(x) * Lo(m, key) * Weight(l, Lo(m, key));
    ZigZigMirror(Size(m), Size(m.r), Size(x), Lo(m, key), Weight(l, Lo(m, key)),
                 Potential(m.r.r), Potential(m.r.l), Potential(m.l), Weight(r, Hi(m, key)));
  }

  lemma ZigZigMirror(s: nat, y: nat, x: nat, b: nat, w: nat, p: nat, q: nat, t: nat, u: nat)
    ensures (s * y) * (((x * t * q) * b * w) * p * u) == (x * b) * (w * (s * t * (y * q * p)) * u)
  {
    ZigZigTerms(s, y, x, b, u, p, q, t, w);
    assert ((x * t * q) * b * w) * p * u == u * p * ((x * q * t) * b * w) by {
      assert x * t * q == x * q * t;
    }
    assert w * (s * t * (y * q * p)) * u == u * (s * (y * p * q) * t) * w by {
      assert s * t * (y * q * p) == s * (y * p * q) * t by { assert y * q * p == y * p * q; }
    }
  }

  /** A rotation on its own, when the search then has to stop. */
  lemma TurnedLeft(l: Spine, m: Tree, r: Spine, key: int)
    requires m.Bin? && m.l.Bin? && key < m.n.key && key < m.l.n.key
    ensures Size(m.l) * Product(l, RotR(m), r, key) == Size(Bin(m.l.r, m.n, m.r)) * Product(l, m, r, key)
  {
    var x := Bin(m.l.r, m.n, m.r);
    assert Potential(m) == Size(m) * (Size(m.l) * Potential(m.l.l) * Potential(m.l.r)) * Potential(m.r);
    assert Potential(RotR(m)) == Size(m) * Potential(m.l.l) * (Size(x) * Potential(m.l.r) * Potential(m.r));
    assert Lo(m.l, key) == Lo(m.l.l, key) == Lo(m, key) == Lo(RotR(m), key) && Hi(m, key) == Hi(RotR(m), key);
    TurnTerms(Size(m), Size(m.l), Size(x), Weight(l, Lo(m, key)),
              Potential(m.l.l), Potential(m.l.r), Potential(m.r), Weight(r, Hi(m, key)));
  }

  lemma TurnTerms(s: nat, y: nat, x: nat, w: nat, p: nat, q: nat, t: nat, u: nat)
    ensures y * (w * (s * p * (x * q * t)) * u) == x * (w * (s * (y * p * q) * t) * u)
  {
    TurnSide(s, x, w, p, q, t, u);
    assert s * (y * p * q) * t == s * p * (y * q * t) by { assert y * p * q == p * (y * q); }
    TurnSide(s, y, w, p, q, t, u);
    var v := w * (s * (p * q * t)) * u;
    assert y * (x * v) == x * (y * v);
  }

  lemma TurnSide(s: nat, x: nat, w: nat, p: nat, q: nat, t: nat, u: nat)
    ensures w * (s * p * (x * q * t)) * u == x * (w * (s * (p * q * t)) * u)
  {
    assert s * p * (x * q * t) == x * (s * (p * q * t));
    var v := s * (p * q * t);
    assert w * (x * v) * u == x * (w * v * u);
  }

  lemma TurnedRight(l: Spine, m: Tree, r: Spine, key: int)
    requires m.Bin? && m.r.Bin? && m.n.key < key && m.r.n.key < key
    ensures Size(m.r) * Product(l, RotL(m), r, key) == Size(Bin(m.l, m.n, m.r.l)) * Product(l, m, r, key)
  {
    var x := Bin(m.l, m.n, m.r.l);
    assert Potential(m) == Size(m) * Potential(m.l) * (Size(m.r) * Potential(m.r.l) * Potential(m.r.r));
    assert Potential(RotL(m)) == Size(m) * (Size(x) * Potential(m.l) * Potential(m.r.l)) * Potential(m.r.r);
    assert Hi(m.r, key) == Hi(m.r.r, key) == Hi(m, key) == Hi(RotL(m), key) && Lo(m, key) == Lo(RotL(m), key);
    TurnMirror(Size(m), Size(m.r), Size(x), Weight(l, Lo(m, key)),
               Potential(m.r.r), Potential(m.r.l), Potential(m.l), Weight(r, Hi(m, key)));
  }

  lemma TurnMirror(s: nat, y: nat, x: nat, w: nat, p: nat, q: nat, t: nat, u: nat)
    ensures y * (w * (s * (x * t * q) * p) * u) == x * (w * (s * t * (y * q * p)) * u)
  {
    TurnTerms(s, y, x, w, p, q, t, u);
    assert s * (x * t * q) * p == s * p * (x * q * t) by { assert x * t * q == x * q * t; }
    assert s * t * (y * q * p) == s * (y * p * q) * t by { assert y * q * p == y * p * q; }
  }

  // ----- what has been paid so far

  /** After a single zig a debt stands until the next turn, which goes to the other side: the middle
      tree then had `s` nodes, `o` of them on the side of the key's root. */
  datatype Debt = NoDebt | Debt(left: bool, s: nat, o: nat)

  /** The product so far, with the turns of the loop counted as factors of two. */
  ghost function Spent(k: nat, l: Spine, m: Tree, r: Spine, key: int): nat {
    MulPos(Pow2(k), Product(l, m, r, key));
    Pow2(k) * Product(l, m, r, key)
  }

  /** After `k` turns of a splay with the budget `c`. */
  ghost predicate Paid(k: nat, l: Spine, m: Tree, r: Spine, key: int, d: Debt, c: nat) {
    && m.Bin?
    && match d
       case NoDebt => Spent(k, l, m, r, key) * (Size(m) * Size(m)) <= c
       case Debt(left, s, o) =>
         && Size(m) <= s && Spent(k, l, m, r, key) * (s * s * s) <= 2 * o * c
         && (if left then m.n.key <= key && Lo(m, key) + o <= s else key <= m.n.key && Hi(m, key) + o <= s)
  }

  /** One more turn doubles what is spent. */
  lemma OneMore(k: nat, p: nat, p': nat, s: nat, x: nat)
    requires s * p' == x * p
    ensures s * (Pow2(k + 1) * p') == 2 * x * (Pow2(k) * p)
  {
    var w := Pow2(k);
    assert s * ((2 * w) * p') == (2 * w) * (s * p');
    assert (2 * w) * (x * p) == 2 * x * (w * p);
  }

  lemma ZigLeftPays(k: nat, l: Spine, m: Tree, r: Spine, key: int, d: Debt, c: nat) returns (d': Debt)
    requires Paid(k, l, m, r, key, d, c) && key < m.n.key && m.l.Bin? && m.l.n.key <= key
    ensures Paid(k + 1, l, m.l, Step(r, m.r, m.n), key, d', c)
  {
    hide Product, Pow2;
    var r' := Step(r, m.r, m.n);
    var s, b, q, q' := Size(m), Hi(m, key), Spent(k, l, m, r, key), Spent(k + 1, l, m.l, r', key);
    ZigLeft(l, m, r, key);
    OneMore(k, Product(l, m, r, key), Product(l, m.l, r', key), s, b);
    LoHi(m, key);
    if d.NoDebt? {
      ZigOwes(q, q', s, b, c);
      d' := Debt(true, s, b);
    } else {
      ZigSettles(q, q', d.s, d.o, s, b, Size(m.l), c);
      d' := NoDebt;
    }
  }

  lemma ZigRightPays(k: nat, l: Spine, m: Tree, r: Spine, key: int, d: Debt, c: nat) returns (d': Debt)
    requires Paid(k, l, m, r, key, d, c) && m.n.key < key && m.r.Bin? && key <= m.r.n.key
    ensures Paid(k + 1, Step(l, m.l, m.n), m.r, r, key, d', c)
  {
    hide Product, Pow2;
    var l' := Step(l, m.l, m.n);
    var s, a, q, q' := Size(m), Lo(m, key), Spent(k, l, m, r, key), Spent(k + 1, l', m.r, r, key);
    ZigRight(l, m, r, key);
    OneMore(k, Product(l, m, r, key), Product(l', m.r, r, key), s, a);
    LoHi(m, key);
    if d.NoDebt? {
      ZigOwes(q, q', s, a, c);
      d' := Debt(false, s, a);
    } else {
      ZigSettles(q, q', d.s, d.o, s, a, Size(m.r), c);
      d' := NoDebt;
    }
  }

  lemma ZigZigLeftPays(k: nat, l: Spine, m: Tree, r: Spine, key: int, d: Debt, c: nat)
    requires Paid(k, l, m, r, key, d, c) && key < m.n.key && m.l.Bin? && key < m.l.n.key && m.l.l.Bin?
    ensures Paid(k + 1, l, m.l.l, Step(r, Bin(m.l.r, m.n, m.r), m.l.n), key, NoDebt, c)
  {
    hide Product, Pow2;
    var x, z := Bin(m.l.r, m.n, m.r), m.l.l;
    var r' := Step(r, x, m.l.n);
    var s, y, b, q, q' := Size(m), Size(m.l), Hi(m, key), Spent(k, l, m, r, key), Spent(k + 1, l, z, r', key);
    ZigZigLeft(l, m, r, key);
    OneMore(k, Product(l, m, r, key), Product(l, z, r', key), s * y, Size(x) * b);
    LoHi(m, key);
    assert Size(x) + Size(z) <= s && Size(z) <= y;
    if d.NoDebt? {
      ZigZigPays(q, q', s, y, Size(z), Size(x), b, c);
    } else {
      ZigZigSettles(q, q', d.s, d.o, s, y, Size(z), Size(x), b, c);
    }
  }

  lemma ZigZigRightPays(k: nat, l: Spine, m: Tree, r: Spine, key: int, d: Debt, c: nat)
    requires Paid(k, l, m, r, key, d, c) && m.n.key < key && m.r.Bin? && m.r.n.key < key && m.r.r.Bin?
    ensures Paid(k + 1, Step(l, Bin(m.l, m.n, m.r.l), m.r.n), m.r.r, r, key, NoDebt, c)
  {
    hide Product, Pow2;
    var x, z := Bin(m.l, m.n, m.r.l), m.r.r;
    var l' := Step(l, x, m.r.n);
    var s, y, a, q, q' := Size(m), Size(m.r), Lo(m, key), Spent(k, l, m, r, key), Spent(k + 1, l', z, r, key);
    ZigZigRight(l, m, r, key);
    OneMore(k, Product(l, m, r, key), Product(l', z, r, key), s * y, Size(x) * a);
    LoHi(m, key);
    assert Size(x) + Size(z) <= s && Size(z) <= y;
    if d.NoDebt? {
      ZigZigPays(q, q', s, y, Size(z), Size(x), a, c);
    } else {
      ZigZigSettles(q, q', d.s, d.o, s, y, Size(z), Size(x), a, c);
    }
  }

  /** A turn to the left that goes on. */
  lemma LeftPays(k: nat, l: Spine, m: Tree, r: Spine, key: int, d: Debt, c: nat, m': Tree, r': Spine)
    returns (d': Debt)
    requires m.Bin? && Paid(k, l, m, r, key, d, c) && key < m.n.key && WentLeft(key, m, r, false, m', r')
    ensures Paid(k + 1, l, m', r', key, d', c)
  {
    hide Paid;
    if m.l.n.key <= key {
      d' := ZigLeftPays(k, l, m, r, key, d, c);
    } else {
      ZigZigLeftPays(k, l, m, r, key, d, c);
      d' := NoDebt;
    }
  }

  lemma RightPays(k: nat, l: Spine, m: Tree, r: Spine, key: int, d: Debt, c: nat, l': Spine, m': Tree)
    returns (d': Debt)
    requires m.Bin? && Paid(k, l, m, r, key, d, c) && m.n.key < key && WentRight(key, l, m, false, l', m')
    ensures Paid(k + 1, l', m', r, key, d', c)
  {
    hide Paid;
    if key <= m.r.n.key {
      d' := ZigRightPays(k, l, m, r, key, d, c);
    } else {
      ZigZigRightPays(k, l, m, r, key, d, c);
      d' := NoDebt;
    }
  }

  // ----- the end of a splay

  /** What is left of the budget when the loop ends. */
  ghost predicate Ended(k: nat, l: Spine, m: Tree, r: Spine, key: int, c: nat) {
    m.Bin? && Spent(k, l, m, r, key) <= 4 * c
  }

  lemma Remains(k: nat, l: Spine, m: Tree, r: Spine, key: int, d: Debt, c: nat)
    requires Paid(k, l, m, r, key, d, c)
    ensures Spent(k, l, m, r, key) * Size(m) <= 2 * c && Size(m) >= 1
  {
    hide Product, Pow2, Spent;
    var q := Spent(k, l, m, r, key);
    if d.NoDebt? {
      RootOf(q, Size(m), c);
    } else {
      LoHi(m, key);
      CubeRoot(q, d.s, d.o, Size(m), c);
    }
  }

  lemma RootOf(q: nat, s: nat, c: nat)
    requires q * (s * s) <= c && s >= 1
    ensures q * s <= c
  {
    assert q * (s * s) == (q * s) * s;
    MulLe(1, s, q * s);
  }

  lemma CubeRoot(q: nat, s: nat, o: nat, t: nat, c: nat)
    requires q * (s * s * s) <= 2 * o * c && o <= s && 1 <= t <= s
    ensures q * t <= 2 * c
  {
    MulLe(o, s, 2 * c);
    assert q * (s * s * s) == s * (q * (s * s));
    assert 2 * o * c == o * (2 * c);
    Cancel(s, q * (s * s), 2 * c);
    RootOf(q, s, 2 * c);
    MulLe(t, s, q);
  }

  lemma FoundEnds(k: nat, l: Spine, m: Tree, r: Spine, key: int, d: Debt, c: nat)
    requires Paid(k, l, m, r, key, d, c)
    ensures Ended(k, l, m, r, key, c)
  {
    hide Product, Pow2, Spent;
    Remains(k, l, m, r, key, d, c);
    Least(Spent(k, l, m, r, key), Size(m), 2 * c);
  }

  lemma Least(q: nat, s: nat, c: nat)
    requires q * s <= c && s >= 1
    ensures q <= c
  {
    MulLe(1, s, q);
  }

  lemma LeftEnds(k: nat, l: Spine, m: Tree, r: Spine, key: int, d: Debt, c: nat, m': Tree, r': Spine)
    requires Paid(k, l, m, r, key, d, c) && key < m.n.key && WentLeft(key, m, r, true, m', r')
    ensures Ended(k + 1, l, m', r', key, c)
  {
    hide Product, Pow2;
    Remains(k, l, m, r, key, d, c);
    var q, p := Spent(k, l, m, r, key), Product(l, m, r, key);
    if m.l.Leaf? {
      OneMore(k, p, p, 1, 1);
      Least(q, Size(m), 2 * c);
    } else {
      var x := Bin(m.l.r, m.n, m.r);
      TurnedLeft(l, m, r, key);
      OneMore(k, p, Product(l, m', r, key), Size(m.l), Size(x));
      TurnedEnd(q, Spent(k + 1, l, m', r, key), Size(m.l), Size(x), Size(m), c);
    }
  }

  lemma RightEnds(k: nat, l: Spine, m: Tree, r: Spine, key: int, d: Debt, c: nat, l': Spine, m': Tree)
    requires Paid(k, l, m, r, key, d, c) && m.n.key < key && WentRight(key, l, m, true, l', m')
    ensures Ended(k + 1, l', m', r, key, c)
  {
    hide Product, Pow2;
    Remains(k, l, m, r, key, d, c);
    var q, p := Spent(k, l, m, r, key), Product(l, m, r, key);
    if m.r.Leaf? {
      OneMore(k, p, p, 1, 1);
      Least(q, Size(m), 2 * c);
    } else {
      var x := Bin(m.l, m.n, m.r.l);
      TurnedRight(l, m, r, key);
      OneMore(k, p, Product(l, m', r, key), Size(m.r), Size(x));
      TurnedEnd(q, Spent(k + 1, l, m', r, key), Size(m.r), Size(x), Size(m), c);
    }
  }

  lemma TurnedEnd(q: nat, q': nat, y: nat, x: nat, s: nat, c: nat)
    requires q * s <= 2 * c && y * q' == 2 * x * q && x <= s && y >= 1
    ensures q' <= 4 * c
  {
    MulLe(x, s, q);
    MulLe(1, y, q');
    assert 2 * x * q == 2 * (x * q);
  }

  lemma {:induction false} WeightUp(s: Spine, x: nat, y: nat)
    requires x <= y
    ensures Weight(s, x) <= Weight(s, y)
  {
    if s.Step? {
      var x', y' := x + 1 + Size(s.sub), y + 1 + Size(s.sub);
      WeightUp(s.out, x', y');
      Le2(x', y', Potential(s.sub), Potential(s.sub));
      Le2(Potential(s.sub) * x', Potential(s.sub) * y', Weight(s.out, x'), Weight(s.out, y'));
    }
  }

  /** A completed side tree has the weight foreseen for it. */
  lemma {:induction false} LPluggedWeight(s: Spine, t: Tree)
    ensures Potential(LPlug(s, t)) == Weight(s, Size(t)) * Potential(t)
  {
    if s.Step? {
      var u := Bin(s.sub, s.n, t);
      LPluggedWeight(s.out, u);
      PlugTerms(Weight(s.out, Size(u)), Size(u), Potential(s.sub), Potential(t));
    }
  }

  lemma {:induction false} RPluggedWeight(s: Spine, t: Tree)
    ensures Potential(RPlug(s, t)) == Weight(s, Size(t)) * Potential(t)
  {
    if s.Step? {
      var u := Bin(t, s.n, s.sub);
      RPluggedWeight(s.out, u);
      PlugTerms(Weight(s.out, Size(u)), Size(u), Potential(s.sub), Potential(t));
    }
  }

  lemma PlugTerms(w: nat, x: nat, p: nat, q: nat)
    ensures w * (x * p * q) == (p * x * w) * q
    ensures w * (x * q * p) == (p * x * w) * q
  {
  }

  /** After the splay the product of the whole tree is within the budget, but for its own size. */
  lemma SplayPaid(k: nat, l: Spine, m: Tree, r: Spine, key: int, c: nat)
    requires Ended(k, l, m, r, key, c)
    requires m.n.key == key || (key < m.n.key && m.l.Leaf?) || (m.n.key < key && m.r.Leaf?)
    ensures Pow2(k) * Potential(Joined(l, m, r)) <= 4 * c * Size(Joined(l, m, r))
  {
    hide Weight, Pow2;
    JoinedPotential(l, m, r, key);
    SpentOn(Pow2(k), Potential(Joined(l, m, r)), Size(Joined(l, m, r)), Product(l, m, r, key), 4 * c);
  }

  lemma SpentOn(w: nat, t: nat, n: nat, p: nat, c: nat)
    requires t <= n * p && w * p <= c
    ensures w * t <= c * n
  {
    Le2(w, w, t, n * p);
    assert w * (n * p) == (w * p) * n;
    MulLe(w * p, c, n);
  }

  lemma JoinedPotential(l: Spine, m: Tree, r: Spine, key: int)
    requires m.Bin? && (m.n.key == key || (key < m.n.key && m.l.Leaf?) || (m.n.key < key && m.r.Leaf?))
    ensures Potential(Joined(l, m, r)) <= Size(Joined(l, m, r)) * Product(l, m, r, key)
  {
    hide Weight;
    LPluggedWeight(l, m.l);
    RPluggedWeight(r, m.r);
    WeightUp(l, Size(m.l), Lo(m, key));
    WeightUp(r, Size(m.r), Hi(m, key));
    JoinedProduct(Size(Joined(l, m, r)), Size(m), Weight(l, Size(m.l)), Weight(l, Lo(m, key)),
                  Potential(m.l), Potential(m.r), Weight(r, Size(m.r)), Weight(r, Hi(m, key)));
  }

  lemma JoinedProduct(n: nat, s: nat, w: nat, w': nat, p: nat, q: nat, u: nat, u': nat)
    requires w <= w' && u <= u' && s >= 1
    ensures n * (w * p) * (u * q) <= n * (w' * (s * p * q) * u')
  {
    Le2(w, w', u, u');
    Le2(1, s, p * q, p * q);
    Le2(w * u, w' * u', p * q, s * (p * q));
    Le2(n, n, (w * u) * (p * q), (w' * u') * (s * (p * q)));
    Regroup(n, w, p, u, q);
    Regroup2(w', s, p, q, u');
  }

  lemma Regroup(n: nat, w: nat, p: nat, u: nat, q: nat)
    ensures n * (w * p) * (u * q) == n * ((w * u) * (p * q))
  {
    assert (w * p) * (u * q) == (w * u) * (p * q);
  }

  lemma Regroup2(w: nat, s: nat, p: nat, q: nat, u: nat)
    ensures w * (s * p * q) * u == (w * u) * (s * (p * q))
  {
    assert s * p * q == s * (p * q);
  }

  // ----- the price of an operation

  /** A splay of `n` nodes costs at most 3 lg n + 2 turns beyond the fall of the potential. */
  ghost function SplayPrice(n: nat): nat { 4 * (n * n * n) }

  /** `k` turns took the tree `t` to `t'`, and the potential pays for them but for the factor `price`. */
  ghost predicate Costs(k: nat, t: Tree, t': Tree, price: nat) {
    Pow2(k) * Potential(t') <= price * Potential(t)
  }

  lemma SplayStarts(t: Tree, key: int)
    requires t.Bin?
    ensures Paid(0, End, t, End, key, NoDebt, Potential(t) * (Size(t) * Size(t)))
  {
    hide Potential, Size;
    assert Product(End, t, End, key) == 1 * Potential(t) * 1;
    assert Pow2(0) == 1;
  }

  lemma SplayBill(k: nat, t: Tree, l: Spine, m: Tree, r: Spine, key: int)
    requires m.Bin? && Ended(k, l, m, r, key, Potential(t) * (Size(t) * Size(t))) && Size(Joined(l, m, r)) == Size(t)
    requires m.n.key == key || (key < m.n.key && m.l.Leaf?) || (m.n.key < key && m.r.Leaf?)
    ensures Costs(k, t, Joined(l, m, r), SplayPrice(Size(t)))
  {
    hide Weight, Pow2, Potential, Ended, SplayPrice, Size, Joined;
    SplayPaid(k, l, m, r, key, Potential(t) * (Size(t) * Size(t)));
    BillTerms(Pow2(k) * Potential(Joined(l, m, r)), Potential(t), Size(t));
  }

  lemma BillTerms(q: nat, p: nat, n: nat)
    requires q <= 4 * (p * (n * n)) * n
    ensures q <= SplayPrice(n) * p
  {
    assert 4 * (p * (n * n)) * n == 4 * (n * n * n) * p;
  }

  lemma {:induction false} ElemsSize(t: Tree)
    ensures |Elems(t)| == Size(t)
  {
    if t.Bin? {
      ElemsSize(t.l);
      ElemsSize(t.r);
    }
  }

  /** What any operation on a tree of `n` nodes costs at most, as a factor: 5 lg(n+1) + 4 turns. */
  ghost function Price(n: nat): (p: nat)
    ensures p >= 16
  {
    var a := n + 1;
    MulPos(a, a);
    MulPos(a * a, a * a);
    MulPos(a, (a * a) * (a * a));
    16 * (a * ((a * a) * (a * a)))
  }

  /** The product of the prices of all operations so far, by the sizes they met. */
  ghost function Bill(history: seq<nat>): nat {
    if history == [] then 1 else Bill(history[..|history| - 1]) * Price(history[|history| - 1])
  }

  ghost function Power(a: nat, m: nat): nat { if m == 0 then 1 else Power(a, m - 1) * a }

  lemma PriceIs(n: nat)
    ensures Price(n) == 16 * Power(n + 1, 5)
  {
    var a := n + 1;
    assert Power(a, 1) == a && Power(a, 2) == a * a;
    assert Power(a, 3) == (a * a) * a && Power(a, 4) == ((a * a) * a) * a && Power(a, 5) == (((a * a) * a) * a) * a;
    Fifth(a);
  }

  lemma Fifth(a: nat)
    ensures a * ((a * a) * (a * a)) == (((a * a) * a) * a) * a
  {
    assert (a * a) * (a * a) == ((a * a) * a) * a;
  }

  lemma PriceUp(m: nat, n: nat)
    requires m <= n
    ensures Price(m) <= Price(n)
  {
    var a, b := m + 1, n + 1;
    Le2(a, b, a, b);
    Le2(a * a, b * b, a * a, b * b);
    Le2(a, b, (a * a) * (a * a), (b * b) * (b * b));
  }

  /** The Balance Theorem's bound: m operations on at most n nodes cost at most m (5 lg(n+1) + 4) turns. */
  lemma {:induction false} BillBound(history: seq<nat>, n: nat)
    requires forall i | 0 <= i < |history| :: history[i] <= n
    ensures Bill(history) <= Power(Price(n), |history|)
  {
    hide Price;
    if history != [] {
      var h, x := history[..|history| - 1], history[|history| - 1];
      BillBound(h, n);
      PriceUp(x, n);
      Le2(Bill(h), Power(Price(n), |h|), Price(x), Price(n));
    }
  }

  /** One more operation: `k` more turns, for which the potential pays but for `price`. */
  lemma Charge(history: seq<nat>, turns: nat, k: nat, p: nat, p': nat, n: nat, price: nat)
    requires Pow2(turns) * p <= Bill(history) && Pow2(k) * p' <= price * p && price <= Price(n)
    ensures Pow2(turns + k) * p' <= Bill(history + [n])
  {
    hide Price, Pow2;
    assert (history + [n])[..|history|] == history;
    Pow2Sum(turns, k);
    ChargeTerms(Pow2(turns), Pow2(k), p, p', Bill(history), price, Price(n));
  }

  lemma ChargeTerms(u: nat, v: nat, p: nat, p': nat, b: nat, c: nat, d: nat)
    requires u * p <= b && v * p' <= c * p && c <= d
    ensures (u * v) * p' <= b * d
  {
    Le2(u, u, v * p', c * p);
    assert (u * v) * p' == u * (v * p');
    assert u * (c * p) == (u * p) * c;
    Le2(u * p, b, c, d);
  }

  /** The factors for the cut of an insertion and for the second half of a removal. */
  ghost function RestPrice(n: nat): nat { 4 * (n * n) }
  ghost function InsertPrice(n: nat): nat { SplayPrice(n) * (n + 1) }
  ghost function RemovePrice(n: nat): nat { SplayPrice(n) * RestPrice(n) }

  lemma PricesLow(n: nat)
    ensures 1 <= Price(n) && SplayPrice(n) <= Price(n) && InsertPrice(n) <= Price(n) && RemovePrice(n) <= Price(n)
  {
    hide Price;
    InsertLow(n);
    RemoveLow(n);
    AtLeast(SplayPrice(n), n + 1);
  }

  lemma AtLeast(a: nat, b: nat)
    requires b >= 1
    ensures a <= a * b
  {
    MulLe(1, b, a);
  }

  lemma InsertLow(n: nat)
    ensures InsertPrice(n) <= Price(n)
  {
    var a, b := n + 1, n * n;
    Le2(n, a, n, a);
    assert SplayPrice(n) == 4 * (n * b);
    CutPrice(n, a, b, a * a);
  }

  lemma RemoveLow(n: nat)
    ensures RemovePrice(n) <= Price(n)
  {
    var a, b := n + 1, n * n;
    var d := a * a;
    Le2(n, a, n, a);
    Le2(b, d, b, d);
    Le2(n, a, b * b, d * d);
    assert SplayPrice(n) == 4 * (n * b);
    assert (4 * (n * b)) * (4 * b) == 16 * (n * (b * b));
  }

  lemma CutPrice(n: nat, a: nat, b: nat, d: nat)
    requires n <= a && b <= d && d == a * a && b == n * n
    ensures (4 * (n * b)) * a <= 16 * (a * (d * d))
  {
    Le2(n, a, a, a);
    Le2(b, d, n * a, d);
    assert (4 * (n * b)) * a == 4 * (b * (n * a));
    assert a >= 1 ==> d * d <= a * (d * d) by { if a >= 1 { MulLe(1, a, d * d); } }
    assert a == 0 ==> d * d == 0;
  }

  lemma Unfolded(t: Tree)
    requires t.Bin?
    ensures Potential(t) == Size(t) * Potential(t.l) * Potential(t.r) && Size(t) == Size(t.l) + 1 + Size(t.r)
    ensures Potential(Leaf) == 1 && Size(Leaf) == 0
  {
  }

  /** No turn at all. */
  lemma Free(t: Tree, t': Tree, price: nat)
    requires Potential(t') <= price * Potential(t)
    ensures Costs(0, t, t', price)
  {
    hide Potential;
    NoTurns(Potential(t'));
  }

  /** SPLAY_INSERT's cut below the new root. */
  lemma CutLeftPotential(t: Tree, e: Node)
    requires t.Bin?
    ensures Costs(0, t, Bin(t.l, e, Bin(Leaf, t.n, t.r)), Size(t) + 1)
  {
    hide Potential, Size, Costs;
    var u := Bin(Leaf, t.n, t.r);
    Unfolded(t);
    Unfolded(u);
    Unfolded(Bin(t.l, e, u));
    CutTerms(Size(t), Size(u), Potential(t.l), Potential(t.r));
    Free(t, Bin(t.l, e, u), Size(t) + 1);
  }

  lemma CutRightPotential(t: Tree, e: Node)
    requires t.Bin?
    ensures Costs(0, t, Bin(Bin(t.l, t.n, Leaf), e, t.r), Size(t) + 1)
  {
    hide Potential, Size, Costs;
    var u := Bin(t.l, t.n, Leaf);
    Unfolded(t);
    Unfolded(u);
    Unfolded(Bin(u, e, t.r));
    CutTerms(Size(t), Size(u), Potential(t.l), Potential(t.r));
    Free(t, Bin(u, e, t.r), Size(t) + 1);
  }

  lemma CutTerms(n: nat, s: nat, p: nat, q: nat)
    requires s <= n
    ensures (n + 1) * p * (s * 1 * q) <= (n + 1) * (n * p * q)
    ensures (n + 1) * (s * p * 1) * q <= (n + 1) * (n * p * q)
  {
    Le2(s, n, p * q, p * q);
    Le2(n + 1, n + 1, s * (p * q), n * (p * q));
    assert (n + 1) * p * (s * 1 * q) == (n + 1) * (s * (p * q));
    assert (n + 1) * (s * p * 1) * q == (n + 1) * (s * (p * q));
    assert n * p * q == n * (p * q);
  }

  /** One thing after the other. */
  lemma Then(k: nat, j: nat, t: Tree, t1: Tree, t2: Tree, c: nat, b: nat)
    requires Costs(k, t, t1, c) && Costs(j, t1, t2, b)
    ensures Costs(k + j, t, t2, c * b)
  {
    hide Potential, Pow2;
    Compose(Pow2(k), Pow2(j) * Potential(t2), b, Potential(t1), c, Potential(t));
    Pow2Sum(k, j);
    Assoc(Pow2(k), Pow2(j), Potential(t2));
  }

  lemma Assoc(a: nat, b: nat, c: nat)
    ensures (a * b) * c == a * (b * c)
  {
  }

  lemma InsertPaid(k: nat, t: Tree, t1: Tree, t2: Tree)
    requires Costs(k, t, t1, SplayPrice(Size(t))) && Size(t1) == Size(t) && Costs(0, t1, t2, Size(t1) + 1)
    ensures Costs(k, t, t2, InsertPrice(Size(t)))
  {
    hide Costs;
    Then(k, 0, t, t1, t2, SplayPrice(Size(t)), Size(t) + 1);
  }

  lemma Compose(w: nat, p2: nat, b: nat, p1: nat, c: nat, p: nat)
    requires p2 <= b * p1 && w * p1 <= c * p
    ensures w * p2 <= (c * b) * p
  {
    Le2(w, w, p2, b * p1);
    assert w * (b * p1) == b * (w * p1);
    Le2(b, b, w * p1, c * p);
    assert b * (c * p) == (c * b) * p;
  }

  /** SPLAY_REMOVE: the left subtree splayed for the removed root's key, and the right one hung there. */
  lemma RestPaid(k: nat, t: Tree, l: Tree)
    requires t.Bin? && t.l.Bin? && l.Bin? && l.r.Leaf? && Size(l) == Size(t.l)
    requires Costs(k, t.l, l, SplayPrice(Size(t.l)))
    ensures Costs(k, t, Bin(l.l, l.n, t.r), RestPrice(Size(t)))
  {
    var n, s := Size(t), Size(l);
    assert Size(Bin(l.l, l.n, t.r)) == n - 1;
    assert Potential(l) == s * Potential(l.l) * 1;
    RestTerms(Pow2(k), n, s, Potential(l.l), Potential(t.l), Potential(t.r));
  }

  lemma RestTerms(w: nat, n: nat, s: nat, p: nat, q: nat, u: nat)
    requires 1 <= s < n && w * (s * p * 1) <= (4 * (s * s * s)) * q
    ensures w * ((n - 1) * p * u) <= (4 * (n * n)) * (n * q * u)
  {
    RestCancel(w, s, p, q);
    RestUp(w * p, (4 * (s * s)) * q, n - 1, n, u);
    RestSquare(s, n, q * (n * u));
    Regroup3(w, n - 1, p, u);
    assert ((4 * (s * s)) * q) * (n * u) == (4 * (s * s)) * (q * (n * u));
    assert n * q * u == q * (n * u);
  }

  lemma RestCancel(w: nat, s: nat, p: nat, q: nat)
    requires s >= 1 && w * (s * p * 1) <= (4 * (s * s * s)) * q
    ensures w * p <= (4 * (s * s)) * q
  {
    assert w * (s * p * 1) == s * (w * p);
    assert (4 * (s * s * s)) * q == s * ((4 * (s * s)) * q) by { assert s * s * s == s * (s * s); }
    Cancel(s, w * p, (4 * (s * s)) * q);
  }

  lemma RestUp(x: nat, y: nat, m: nat, n: nat, u: nat)
    requires x <= y && m <= n
    ensures x * (m * u) <= y * (n * u)
  {
    Le2(m, n, u, u);
    Le2(x, y, m * u, n * u);
  }

  lemma RestSquare(s: nat, n: nat, v: nat)
    requires s <= n
    ensures (4 * (s * s)) * v <= (4 * (n * n)) * v
  {
    Le2(s, n, s, n);
    Le2(4 * (s * s), 4 * (n * n), v, v);
  }

  lemma Regroup3(w: nat, m: nat, p: nat, u: nat)
    ensures w * (m * p * u) == (w * p) * (m * u)
  {
  }

  lemma RemovePaid(k: nat, j: nat, t: Tree, t1: Tree, t2: Tree)
    requires Costs(k, t, t1, SplayPrice(Size(t))) && Size(t1) == Size(t) && Costs(j, t1, t2, RestPrice(Size(t1)))
    ensures Costs(k + j, t, t2, RemovePrice(Size(t)))
  {
    hide Costs;
    Then(k, j, t, t1, t2, SplayPrice(Size(t)), RestPrice(Size(t)));
  }

  /** Without a left subtree the right one is what remains. */
  lemma RightPaid(t: Tree)
    requires t.Bin?
    ensures Costs(0, t, t.r, RestPrice(Size(t)))
  {
    NoTurns(Potential(t.r));
    var n, p, q := Size(t), Potential(t.l), Potential(t.r);
    MulPos(n, p);
    Le2(1, n * p, q, q);
    MulPos(n, n);
    Le2(1, 4 * (n * n), n * p * q, n * p * q);
  }

  lemma NoTurns(p: nat)
    ensures Pow2(0) * p == p
  {
    assert Pow2(0) == 1;
  }

  /** An operation on an empty tree takes no turn. */
  lemma NothingPaid(t: Tree, t': Tree)
    requires t.Leaf? && (t'.Bin? ==> t'.l.Leaf? && t'.r.Leaf?)
    ensures Costs(0, t, t', 1)
  {
    assert t'.Bin? ==> Size(t') == 1 && Potential(t'.l) == 1 && Potential(t'.r) == 1;
    NoTurns(Potential(t'));
  }
}
