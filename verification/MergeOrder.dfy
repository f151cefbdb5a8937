/** Bottom-up merging as a function on sequences, and why repeated passes sort stably. */
module MergeOrder {

  /** A comparison function that orders the elements of `s`, possibly with ties. */
  ghost predicate TotalPreorder<T>(cmp: (T, T) -> int, s: set<T>) {
    && (forall a, b | a in s && b in s :: cmp(a, b) > 0 <==> cmp(b, a) < 0)
    && (forall a, b, c | a in s && b in s && c in s && cmp(a, b) <= 0 && cmp(b, c) <= 0 :: cmp(a, c) <= 0)
  }

  /** One merge of two runs: the left run wins ties. */
  ghost function Merge<T>(cmp: (T, T) -> int, p: seq<T>, q: seq<T>): seq<T> {
    if p == [] then q
    else if q == [] then p
    else if cmp(p[0], q[0]) <= 0 then [p[0]] + Merge(cmp, p[1..], q)
    else [q[0]] + Merge(cmp, p, q[1..])
  }

  ghost function Min(a: nat, b: nat): nat { if a < b then a else b }

  /** One pass over the list: neighbouring runs of length `w` are merged pairwise. */
  ghost function Pass<T>(cmp: (T, T) -> int, w: nat, s: seq<T>): seq<T>
    requires w >= 1
    decreases |s|
  {
    if s == [] then []
    else
      var m, n := Min(w, |s|), Min(2 * w, |s|);
      Merge(cmp, s[..m], s[m..n]) + Pass(cmp, w, s[n..])
  }

  lemma PassUnfold<T>(cmp: (T, T) -> int, w: nat, s: seq<T>)
    requires w >= 1 && s != []
    ensures var m, n := Min(w, |s|), Min(2 * w, |s|);
      Pass(cmp, w, s) == Merge(cmp, s[..m], s[m..n]) + Pass(cmp, w, s[n..])
  {
  }

  lemma PassNil<T>(cmp: (T, T) -> int, w: nat)
    requires w >= 1
    ensures Pass(cmp, w, []) == []
  {
  }

  /** The order a stable sort must produce: by comparison, and among equals by original position. */
  ghost predicate Before<T>(cmp: (T, T) -> int, pos: map<T, nat>, a: T, b: T) {
    cmp(a, b) < 0 || (cmp(a, b) == 0 && a in pos && b in pos && pos[a] < pos[b])
  }

  ghost predicate Ordered<T>(cmp: (T, T) -> int, pos: map<T, nat>, s: seq<T>) {
    forall i, j | 0 <= i < j < |s| :: Before(cmp, pos, s[i], s[j])
  }

  ghost predicate Positions<T>(pos: map<T, nat>, s: seq<T>) {
    (forall i | 0 <= i < |s| :: s[i] in pos) && forall i, j | 0 <= i < j < |s| :: pos[s[i]] < pos[s[j]]
  }

  /** `s` is a sorted permutation of `orig` in which equal elements keep their order. */
  ghost predicate StableSort<T>(cmp: (T, T) -> int, s: seq<T>, orig: seq<T>) {
    && multiset(s) == multiset(orig)
    && (forall i, j | 0 <= i < j < |s| :: cmp(s[i], s[j]) <= 0)
    && (forall i, j, a, b | 0 <= i < j < |s| && 0 <= a < |orig| && 0 <= b < |orig| ::
          cmp(s[i], s[j]) == 0 && orig[a] == s[i] && orig[b] == s[j] ==> a < b)
  }

  /** `s` consists of runs of length `w` (the last one possibly shorter), each a sorted permutation of
      the same stretch of `orig`. */
  ghost predicate Runs<T>(cmp: (T, T) -> int, pos: map<T, nat>, s: seq<T>, orig: seq<T>, w: nat)
    requires w >= 1
    decreases |s|
  {
    && |s| == |orig|
    && if |s| <= w then multiset(s) == multiset(orig) && Ordered(cmp, pos, s)
       else
         && multiset(s[..w]) == multiset(orig[..w]) && Ordered(cmp, pos, s[..w])
         && Runs(cmp, pos, s[w..], orig[w..], w)
  }

  // ----- one merge

  lemma {:induction false} MergeElems<T>(cmp: (T, T) -> int, p: seq<T>, q: seq<T>)
    ensures multiset(Merge(cmp, p, q)) == multiset(p) + multiset(q)
    ensures |Merge(cmp, p, q)| == |p| + |q|
  {
    if p != [] && q != [] {
      assert p == [p[0]] + p[1..] && q == [q[0]] + q[1..];
      if cmp(p[0], q[0]) <= 0 {
        MergeElems(cmp, p[1..], q);
      } else {
        MergeElems(cmp, p, q[1..]);
      }
    }
  }

  /** The left run's elements come earlier in the original order. */
  ghost predicate Earlier<T>(pos: map<T, nat>, p: seq<T>, q: seq<T>) {
    (forall a | a in p :: a in pos) && (forall b | b in q :: b in pos) &&
        forall a, b | a in p && b in q :: pos[a] < pos[b]
  }

  lemma OrderedCons<T>(cmp: (T, T) -> int, pos: map<T, nat>, x: T, s: seq<T>)
    requires Ordered(cmp, pos, s) && forall y | y in s :: Before(cmp, pos, x, y)
    ensures Ordered(cmp, pos, [x] + s)
  {
    var t := [x] + s;
    forall i, j | 0 <= i < j < |t|
      ensures Before(cmp, pos, t[i], t[j])
    {
      assert t[j] == s[j - 1] && (i > 0 ==> t[i] == s[i - 1]);
    }
  }

  lemma BeforeTrans<T>(cmp: (T, T) -> int, pos: map<T, nat>, all: set<T>, a: T, b: T, c: T)
    requires TotalPreorder(cmp, all) && a in all && b in all && c in all
    requires Before(cmp, pos, a, b) && Before(cmp, pos, b, c)
    ensures Before(cmp, pos, a, c)
  {
    assert cmp(a, c) <= 0;
    assert cmp(c, a) <= 0 ==> cmp(b, a) <= 0 && cmp(c, b) <= 0;
  }

  /** What precedes the head of an ordered run precedes all of it. */
  lemma BeforeRun<T>(cmp: (T, T) -> int, pos: map<T, nat>, all: set<T>, x: T, t: seq<T>)
    requires TotalPreorder(cmp, all) && x in all && (forall y | y in t :: y in all)
    requires Ordered(cmp, pos, t) && (t != [] ==> Before(cmp, pos, x, t[0]))
    ensures forall y | y in t :: Before(cmp, pos, x, y)
  {
    forall y | y in t
      ensures Before(cmp, pos, x, y)
    {
      var i :| 0 <= i < |t| && t[i] == y;
      if i > 0 {
        assert t[0] in t;
        BeforeTrans(cmp, pos, all, x, t[0], y);
      }
    }
  }

  lemma OrderedTail<T>(cmp: (T, T) -> int, pos: map<T, nat>, s: seq<T>)
    requires Ordered(cmp, pos, s) && s != []
    ensures Ordered(cmp, pos, s[1..]) && forall y | y in s[1..] :: Before(cmp, pos, s[0], y)
  {
    var t := s[1..];
    assert forall i | 0 <= i < |t| :: t[i] == s[i + 1];
  }

  lemma InMerge<T>(cmp: (T, T) -> int, p: seq<T>, q: seq<T>)
    ensures forall y | y in Merge(cmp, p, q) :: y in p || y in q
  {
    MergeElems(cmp, p, q);
    forall y | y in Merge(cmp, p, q)
      ensures y in p || y in q
    {
      assert y in multiset(Merge(cmp, p, q));
    }
  }

  lemma {:induction false} MergeOrdered<T>(cmp: (T, T) -> int, pos: map<T, nat>, all: set<T>, p: seq<T>, q: seq<T>)
    requires TotalPreorder(cmp, all) && (forall a | a in p :: a in all) && (forall b | b in q :: b in all)
    requires Ordered(cmp, pos, p) && Ordered(cmp, pos, q) && Earlier(pos, p, q)
    ensures Ordered(cmp, pos, Merge(cmp, p, q))
  {
    if p != [] && q != [] {
      OrderedTail(cmp, pos, p);
      OrderedTail(cmp, pos, q);
      assert p[0] in p && q[0] in q;
      if cmp(p[0], q[0]) <= 0 {
        BeforeRun(cmp, pos, all, p[0], q);
        MergeOrdered(cmp, pos, all, p[1..], q);
        InMerge(cmp, p[1..], q);
        OrderedCons(cmp, pos, p[0], Merge(cmp, p[1..], q));
      } else {
        BeforeRun(cmp, pos, all, q[0], p);
        MergeOrdered(cmp, pos, all, p, q[1..]);
        InMerge(cmp, p, q[1..]);
        OrderedCons(cmp, pos, q[0], Merge(cmp, p, q[1..]));
      }
    }
  }

  // ----- one pass

  lemma PositionsSplit<T>(pos: map<T, nat>, s: seq<T>, m: nat)
    requires Positions(pos, s) && m <= |s|
    ensures Positions(pos, s[..m]) && Positions(pos, s[m..]) && Earlier(pos, s[..m], s[m..])
  {
    forall a, b | a in s[..m] && b in s[m..]
      ensures pos[a] < pos[b]
    {
      var i :| 0 <= i < m && s[i] == a;
      var j :| m <= j < |s| && s[j] == b;
    }
  }

  lemma SameElems<T>(s: seq<T>, t: seq<T>)
    requires multiset(s) == multiset(t)
    ensures forall x | x in s :: x in t
  {
    forall x | x in s
      ensures x in t
    {
      assert x in multiset(s);
    }
  }

  lemma EarlierPerm<T>(pos: map<T, nat>, p: seq<T>, q: seq<T>, p': seq<T>, q': seq<T>)
    requires Earlier(pos, p, q) && multiset(p') == multiset(p) && multiset(q') == multiset(q)
    ensures Earlier(pos, p', q')
  {
    SameElems(p', p);
    SameElems(q', q);
  }

  /** The first run and the remaining runs. */
  lemma RunsHead<T>(cmp: (T, T) -> int, pos: map<T, nat>, s: seq<T>, orig: seq<T>, w: nat)
    requires w >= 1 && Runs(cmp, pos, s, orig, w)
    ensures var m := Min(w, |s|);
      |s| == |orig| && multiset(s[..m]) == multiset(orig[..m]) && Ordered(cmp, pos, s[..m]) &&
          Runs(cmp, pos, s[m..], orig[m..], w)
  {
    if |s| <= w {
      assert s[..|s|] == s && orig[..|s|] == orig && s[|s|..] == [] && orig[|s|..] == [];
    }
  }

  lemma RunsCons<T>(cmp: (T, T) -> int, pos: map<T, nat>, a: seq<T>, s: seq<T>, oa: seq<T>,
                                       o: seq<T>, w: nat)
    requires w >= 1 && Runs(cmp, pos, s, o, w) && multiset(a) == multiset(oa) && |a| == |oa| && Ordered(cmp, pos, a)
    requires |a| == w || (|a| <= w && s == [])
    ensures Runs(cmp, pos, a + s, oa + o, w)
  {
    if s == [] {
      assert a + s == a && oa + o == oa;
    } else {
      assert (a + s)[..w] == a && (a + s)[w..] == s && (oa + o)[..w] == oa && (oa + o)[w..] == o;
    }
  }

  /** A pass turns runs of length w into runs of length 2w. */
  lemma {:induction false} PassRuns<T>(cmp: (T, T) -> int, pos: map<T, nat>, all: set<T>, s: seq<T>,
                                       orig: seq<T>, w: nat)
    requires w >= 1 && TotalPreorder(cmp, all) && (forall a | a in orig :: a in all)
    requires Positions(pos, orig) && Runs(cmp, pos, s, orig, w)
    ensures Runs(cmp, pos, Pass(cmp, w, s), orig, 2 * w)
    decreases |s|
  {
    hide Ordered, Positions, TotalPreorder, Merge, Runs, Earlier, Pass;
    PassNil(cmp, w);
    if s == [] {
      EmptyRuns(cmp, pos, orig, w);
    } else {
      var n := Min(2 * w, |s|);
      FirstTwoRuns(cmp, pos, s, orig, w);
      PositionsSplit(pos, orig, n);
      assert forall a | a in orig[n..] :: a in orig;
      PassRuns(cmp, pos, all, s[n..], orig[n..], w);
      PassRunsStep(cmp, pos, all, s, orig, w);
    }
  }

  lemma PassRunsStep<T>(cmp: (T, T) -> int, pos: map<T, nat>, all: set<T>, s: seq<T>,
                                           orig: seq<T>, w: nat)
    requires w >= 1 && TotalPreorder(cmp, all) && (forall a | a in orig :: a in all)
    requires Positions(pos, orig) && Runs(cmp, pos, s, orig, w) && s != [] && |s| == |orig|
    requires var n := Min(2 * w, |s|); Runs(cmp, pos, Pass(cmp, w, s[n..]), orig[n..], 2 * w)
    ensures Runs(cmp, pos, Pass(cmp, w, s), orig, 2 * w)
  {
    hide Ordered, Positions, TotalPreorder, Merge, Runs, Earlier, Pass;
    PassNil(cmp, w);
    var m, n := Min(w, |s|), Min(2 * w, |s|);
    PassUnfold(cmp, w, s);
    FirstTwoRuns(cmp, pos, s, orig, w);
    TwoRuns(cmp, pos, all, s[..m], s[m..n], orig[..m], orig[m..n], orig, n);
    assert n == |s| ==> s[n..] == [];
    RunsCons(cmp, pos, Merge(cmp, s[..m], s[m..n]), Pass(cmp, w, s[n..]), orig[..m] + orig[m..n], orig[n..], 2 * w);
    assert orig == (orig[..m] + orig[m..n]) + orig[n..];
  }

  lemma EmptyRuns<T>(cmp: (T, T) -> int, pos: map<T, nat>, orig: seq<T>, w: nat)
    requires w >= 1 && Runs(cmp, pos, [], orig, w)
    ensures orig == [] && Runs(cmp, pos, [], orig, 2 * w)
  {
  }

  lemma FirstTwoRuns<T>(cmp: (T, T) -> int, pos: map<T, nat>, s: seq<T>, orig: seq<T>, w: nat)
    requires w >= 1 && Runs(cmp, pos, s, orig, w)
    ensures var m, n := Min(w, |s|), Min(2 * w, |s|);
      && |s| == |orig| && multiset(s[..m]) == multiset(orig[..m]) && Ordered(cmp, pos, s[..m])
      && multiset(s[m..n]) == multiset(orig[m..n]) && Ordered(cmp, pos, s[m..n])
      && Runs(cmp, pos, s[n..], orig[n..], w)
  {
    hide Ordered, Runs;
    var m, n := Min(w, |s|), Min(2 * w, |s|);
    RunsHead(cmp, pos, s, orig, w);
    RunsHead(cmp, pos, s[m..], orig[m..], w);
    assert Min(w, |s[m..]|) == n - m;
    SliceSlice(s, m, n);
    SliceSlice(orig, m, n);
  }

  lemma SliceSlice<T>(s: seq<T>, m: nat, n: nat)
    requires m <= n <= |s|
    ensures s[m..][..n - m] == s[m..n] && s[m..][n - m..] == s[n..]
  {
  }

  lemma TwoRuns<T>(cmp: (T, T) -> int, pos: map<T, nat>, all: set<T>,
                                      p: seq<T>, q: seq<T>, op: seq<T>, oq: seq<T>, orig: seq<T>, n: nat)
    requires TotalPreorder(cmp, all) && (forall a | a in orig :: a in all) && Positions(pos, orig)
    requires |op| <= n <= |orig| && op == orig[..|op|] && oq == orig[|op|..n] && multiset(p) == multiset(op)
    requires multiset(q) == multiset(oq)
    requires Ordered(cmp, pos, p) && Ordered(cmp, pos, q)
    ensures var r := Merge(cmp, p, q);
      Ordered(cmp, pos, r) && multiset(r) == multiset(op + oq) && |r| == |p| + |q|
  {
    PositionsSplit(pos, orig, |op|);
    assert forall b | b in oq :: b in orig[|op|..];
    assert Earlier(pos, op, oq);
    EarlierPerm(pos, op, oq, p, q);
    SameElems(p, op);
    SameElems(q, oq);
    MergeOrdered(cmp, pos, all, p, q);
    MergeElems(cmp, p, q);
  }

  // ----- the whole sort

  /** The original positions of a sequence without duplicates. */
  lemma {:induction false} PositionsOf<T>(s: seq<T>) returns (pos: map<T, nat>)
    requires forall i, j | 0 <= i < j < |s| :: s[i] != s[j]
    ensures Positions(pos, s)
  {
    if s == [] {
      pos := map[];
    } else {
      var k := |s| - 1;
      var t := s[..k];
      pos := PositionsOf(t);
      var top := TopOf(pos, t);
      pos := pos[s[k] := top];
      forall i | 0 <= i < |s| ensures s[i] in pos {
        if i < k { assert t[i] == s[i]; }
      }
      forall i, j | 0 <= i < j < |s| ensures pos[s[i]] < pos[s[j]] {
        assert t[i] == s[i];
        if j < k { assert t[j] == s[j]; }
      }
    }
  }

  lemma {:induction false} TopOf<T>(pos: map<T, nat>, s: seq<T>) returns (n: nat)
    requires forall i | 0 <= i < |s| :: s[i] in pos
    ensures forall i | 0 <= i < |s| :: pos[s[i]] < n
  {
    if s == [] {
      n := 0;
    } else {
      n := TopOf(pos, s[1..]);
      if n <= pos[s[0]] { n := pos[s[0]] + 1; }
      assert forall i | 0 < i < |s| :: s[i] == s[1..][i - 1];
    }
  }

  lemma {:induction false} SingleRuns<T>(cmp: (T, T) -> int, pos: map<T, nat>, s: seq<T>)
    ensures Runs(cmp, pos, s, s, 1)
    decreases |s|
  {
    if |s| > 1 { SingleRuns(cmp, pos, s[1..]); }
  }

  /** Once a run covers the whole list, the list is stably sorted. */
  lemma OneRun<T>(cmp: (T, T) -> int, pos: map<T, nat>, s: seq<T>, orig: seq<T>, w: nat)
    requires w >= 1 && |s| <= w && Runs(cmp, pos, s, orig, w) && Positions(pos, orig)
    ensures StableSort(cmp, s, orig)
  {
    forall i, j, a, b | 0 <= i < j < |s| && 0 <= a < |orig| && 0 <= b < |orig| &&
        cmp(s[i], s[j]) == 0 && orig[a] == s[i] && orig[b] == s[j]
      ensures a < b
    {
      assert Before(cmp, pos, s[i], s[j]);
      assert pos[orig[a]] < pos[orig[b]];
    }
    forall i, j | 0 <= i < j < |s|
      ensures cmp(s[i], s[j]) <= 0
    {
      assert Before(cmp, pos, s[i], s[j]);
    }
  }

  // ----- there is only one stable sort

  lemma StableOrdered<T>(cmp: (T, T) -> int, pos: map<T, nat>, s: seq<T>, orig: seq<T>)
    requires StableSort(cmp, s, orig) && Positions(pos, orig)
    ensures Ordered(cmp, pos, s)
  {
    SameElems(s, orig);
    forall i, j | 0 <= i < j < |s|
      ensures Before(cmp, pos, s[i], s[j])
    {
      assert s[i] in orig && s[j] in orig;
      var a :| 0 <= a < |orig| && orig[a] == s[i];
      var b :| 0 <= b < |orig| && orig[b] == s[j];
      assert cmp(s[i], s[j]) <= 0;
      if cmp(s[i], s[j]) == 0 { assert a < b; }
    }
  }

  lemma {:induction false} OrderedUnique<T>(cmp: (T, T) -> int, pos: map<T, nat>, all: set<T>, s: seq<T>, t: seq<T>)
    requires TotalPreorder(cmp, all) && (forall x | x in s :: x in all)
    requires Ordered(cmp, pos, s) && Ordered(cmp, pos, t) && multiset(s) == multiset(t)
    ensures s == t
    decreases |s|
  {
    hide TotalPreorder, Ordered;
    SameElems(s, t);
    SameElems(t, s);
    assert |multiset(s)| == |multiset(t)|;
    if s != [] {
      SameHead(cmp, pos, all, s, t);
      OrderedTail(cmp, pos, s);
      OrderedTail(cmp, pos, t);
      SameTails(s, t);
      OrderedUnique(cmp, pos, all, s[1..], t[1..]);
    }
  }

  lemma SameTails<T>(s: seq<T>, t: seq<T>)
    requires multiset(s) == multiset(t) && s != [] && t != [] && s[0] == t[0]
    ensures multiset(s[1..]) == multiset(t[1..]) && (s[1..] == t[1..] ==> s == t)
  {
    assert s == [s[0]] + s[1..] && t == [t[0]] + t[1..];
    assert multiset(s) == multiset{s[0]} + multiset(s[1..]) && multiset(t) == multiset{s[0]} + multiset(t[1..]);
    assert multiset(s[1..]) == multiset(s) - multiset{s[0]};
  }

  lemma SameHead<T>(cmp: (T, T) -> int, pos: map<T, nat>, all: set<T>, s: seq<T>, t: seq<T>)
    requires TotalPreorder(cmp, all) && (forall x | x in s :: x in all) && s != [] && t != []
    requires Ordered(cmp, pos, s) && Ordered(cmp, pos, t) && s[0] in t && t[0] in s
    ensures s[0] == t[0]
  {
    Asymmetric(cmp, pos, all, s[0], t[0]);
    var i :| 0 <= i < |t| && t[i] == s[0];
    var j :| 0 <= j < |s| && s[j] == t[0];
  }

  lemma Asymmetric<T>(cmp: (T, T) -> int, pos: map<T, nat>, all: set<T>, a: T, b: T)
    requires TotalPreorder(cmp, all) && a in all && b in all
    ensures !(Before(cmp, pos, a, b) && Before(cmp, pos, b, a))
  {
    assert cmp(a, b) > 0 <==> cmp(b, a) < 0;
    assert cmp(b, a) > 0 <==> cmp(a, b) < 0;
  }

  /** A stable sort is determined by its input and the comparison. */
  lemma StableUnique<T>(cmp: (T, T) -> int, all: set<T>, s: seq<T>, t: seq<T>, orig: seq<T>)
    requires TotalPreorder(cmp, all) && (forall x | x in orig :: x in all)
    requires forall i, j | 0 <= i < j < |orig| :: orig[i] != orig[j]
    requires StableSort(cmp, s, orig) && StableSort(cmp, t, orig)
    ensures s == t
  {
    hide TotalPreorder, Positions, Ordered;
    var pos := PositionsOf(orig);
    StableOrdered(cmp, pos, s, orig);
    StableOrdered(cmp, pos, t, orig);
    SameElems(s, orig);
    OrderedUnique(cmp, pos, all, s, t);
  }

  /** A pass permutes. */
  lemma {:induction false} PassElems<T>(cmp: (T, T) -> int, w: nat, s: seq<T>)
    requires w >= 1
    ensures multiset(Pass(cmp, w, s)) == multiset(s) && |Pass(cmp, w, s)| == |s|
    ensures forall x | x in Pass(cmp, w, s) :: x in s
    decreases |s|
  {
    hide Merge, Pass;
    PassNil(cmp, w);
    if s != [] {
      var m, n := Min(w, |s|), Min(2 * w, |s|);
      PassUnfold(cmp, w, s);
      MergeElems(cmp, s[..m], s[m..n]);
      PassElems(cmp, w, s[n..]);
      assert s == s[..m] + s[m..n] + s[n..];
    }
    SameElems(Pass(cmp, w, s), s);
  }
}
