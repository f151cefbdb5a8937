/** HASH_SRT (include/hashtable.h): the bottom-up merge sort over the insertion-order links. */
module HashSort {
  import opened Bits
  import opened Sequences
  import opened Dll
  import opened HashChains
  import opened MergeOrder

  type App = map<Elem?, Link<Elem?>>

  ghost function AppSnap(s: set<Elem>): (h: App)
    reads s`prev, s`next
    ensures h.Keys == s && forall e | e in s :: h[e] == Link(e.prev, e.next)
  {
    map e: Elem? | e in s :: Link(e.prev, e.next)
  }

  /** The forward links run through `s` and then lead to `after`. */
  ghost predicate Forward(h: App, s: seq<Elem>, after: Elem?) {
    forall i | 0 <= i < |s| :: s[i] in h && h[s[i]].next == (if i + 1 < |s| then s[i + 1] else after)
  }

  /** The links of the parts, apart from distinctness. */
  ghost predicate PartLinks(h: App, done: seq<Elem>, p: seq<Elem>, r: seq<Elem>) {
    && (forall i | 0 <= i < |done| :: done[i] in h && h[done[i]].prev == Pred<Elem?>(done, i, null))
    && (forall i | 0 <= i < |done| - 1 :: h[done[i]].next == done[i + 1])
    && (forall i | 0 <= i < |p| :: p[i] in h) && (forall i | 0 <= i < |p| - 1 :: h[p[i]].next == p[i + 1])
    && Forward(h, r, null)
  }

  /** Between two elements of a pass: `done` has been relinked (its last forward link is stale), `p`
      and `r` are what is left of the left run and everything behind it. */
  ghost predicate Merging(h: App, done: seq<Elem>, p: seq<Elem>, r: seq<Elem>) {
    NoDup<Elem?>(done + p + r) && PartLinks(h, done, p, r)
  }

  // ----- no node twice, as counting

  lemma {:induction false} CountOne<R>(s: seq<R>, x: R)
    requires NoDup(s)
    ensures multiset(s)[x] <= 1
  {
    if s != [] {
      var t := s[1..];
      assert s == [s[0]] + t && forall i | 0 <= i < |t| :: t[i] == s[i + 1];
      CountOne(t, x);
      assert s[0] !in t;
    }
  }

  lemma NoDupPerm<R>(s: seq<R>, t: seq<R>)
    requires NoDup(s) && multiset(s) == multiset(t)
    ensures NoDup(t)
  {
    forall i, j | 0 <= i < j < |t|
      ensures t[i] != t[j]
    {
      var a, b := t[..j], t[j..];
      assert t == a + b && a[i] == t[i] && b[0] == t[j];
      assert t[i] in multiset(a) && t[j] in multiset(b);
      CountOne(s, t[i]);
    }
  }

  // ----- linking the next element

  /** `e` has been appended to the finished part: linked from its last element, linked back to it. */
  ghost predicate Linked1(h: App, k: App, done: seq<Elem>, e: Elem) {
    && k.Keys == h.Keys && e in h
    && k[e] == h[e].(prev := Last<Elem?>(done, null))
    && (done != [] ==> var t := done[|done| - 1]; t in h && k[t] == h[t].(next := e))
    && forall n | n in h && n != e && n != Last<Elem?>(done, null) :: k[n] == h[n]
  }

  /** The three parts share no element and repeat none. */
  ghost predicate Separate(done: seq<Elem>, p: seq<Elem>, r: seq<Elem>) {
    && NoDup<Elem?>(done) && NoDup<Elem?>(p) && NoDup<Elem?>(r)
    && (forall x | x in done :: x !in p && x !in r) && (forall x | x in p :: x !in r)
  }

  lemma NoDupSeparate(done: seq<Elem>, p: seq<Elem>, r: seq<Elem>)
    requires NoDup<Elem?>(done + p + r)
    ensures Separate(done, p, r)
  {
    var all := done + p + r;
    assert forall i | 0 <= i < |r| :: r[i] == all[|done| + |p| + i];
    assert forall i | 0 <= i < |p| :: p[i] == all[|done| + i];
    assert forall i | 0 <= i < |done| :: done[i] == all[i];
  }

  lemma TakeLeft(h: App, k: App, done: seq<Elem>, p: seq<Elem>, r: seq<Elem>)
    requires Merging(h, done, p, r) && p != [] && Linked1(h, k, done, p[0])
    ensures Merging(k, done + [p[0]], p[1..], r)
  {
    hide NoDup;
    assert (done + [p[0]]) + p[1..] + r == done + p + r;
    NoDupSeparate(done, p, r);
    TakeLinks(h, k, done, p, r, p[0], p[1..], r);
  }

  lemma TakenPerm<R>(done: seq<R>, p: seq<R>, r: seq<R>)
    requires r != []
    ensures multiset(done + p + r) == multiset((done + [r[0]]) + p + r[1..])
  {
    assert r == [r[0]] + r[1..];
  }

  lemma TakeRight(h: App, k: App, done: seq<Elem>, p: seq<Elem>, r: seq<Elem>)
    requires Merging(h, done, p, r) && r != [] && Linked1(h, k, done, r[0])
    ensures Merging(k, done + [r[0]], p, r[1..])
  {
    hide NoDup;
    TakenPerm<Elem?>(done, p, r);
    NoDupPerm<Elem?>(done + p + r, (done + [r[0]]) + p + r[1..]);
    NoDupSeparate(done, p, r);
    TakeLinks(h, k, done, p, r, r[0], p, r[1..]);
  }

  lemma TakeLinks(h: App, k: App, done: seq<Elem>, p: seq<Elem>, r: seq<Elem>, e: Elem,
                                     p': seq<Elem>, r': seq<Elem>)
    requires PartLinks(h, done, p, r) && Separate(done, p, r) && Linked1(h, k, done, e)
    requires (p != [] && e == p[0] && p' == p[1..] && r' == r) || (r != [] && e == r[0] && p' == p && r' == r[1..])
    ensures PartLinks(k, done + [e], p', r')
  {
    var d := done + [e];
    assert done != [] ==> done[|done| - 1] in done;
    forall i | 0 <= i < |d|
      ensures d[i] in k && k[d[i]].prev == Pred<Elem?>(d, i, null) && (i < |d| - 1 ==> k[d[i]].next == d[i + 1])
    {
      if i < |done| { assert d[i] == done[i] && done[i] in done; }
    }
    forall i | 0 <= i < |p'|
      ensures p'[i] in k && (i < |p'| - 1 ==> k[p'[i]].next == p'[i + 1])
    {
      assert p'[i] in p;
    }
    forall i | 0 <= i < |r'|
      ensures r'[i] in k && k[r'[i]].next == (if i + 1 < |r'| then r'[i + 1] else null)
    {
      var o := |r| - |r'|;
      ForwardAt(h, r, null, i + o);
      assert r'[i] == r[i + o] && r[i + o] in r && (i + 1 < |r'| ==> r'[i + 1] == r[i + o + 1]);
    }
  }

  /** At the end of a pass the last element's forward link is cleared. */
  lemma PassEnd(h: App, k: App, done: seq<Elem>)
    requires Merging(h, done, [], []) && done != []
    requires k == h[done[|done| - 1] := h[done[|done| - 1]].(next := null)]
    ensures Linked<Elem?>(k, done, null)
  {
    assert done + [] + [] == done;
  }

  lemma PassStart(h: App, s: seq<Elem>)
    requires Linked<Elem?>(h, s, null)
    ensures Merging(h, [], [], s)
  {
    hide Linked;
    assert [] + [] + s == s;
    forall i | 0 <= i < |s|
      ensures s[i] in h && h[s[i]].next == (if i + 1 < |s| then s[i + 1] else null)
    {
      LinkedAt<Elem?>(h, s, i, null);
    }
    assert NoDup<Elem?>(s) by { if s != [] { LinkedAt<Elem?>(h, s, 0, null); } }
  }

  /** The left run is split off. */
  lemma SplitRun(h: App, done: seq<Elem>, s: seq<Elem>, m: nat)
    requires Merging(h, done, [], s) && m <= |s|
    ensures Merging(h, done, s[..m], s[m..])
  {
    assert done + [] + s == done + s[..m] + s[m..];
    var q := s[m..];
    forall i | 0 <= i < |q|
      ensures q[i] in h && h[q[i]].next == (if i + 1 < |q| then q[i + 1] else null)
    {
      ForwardAt(h, s, null, m + i);
      assert q[i] == s[m + i] && (i + 1 < |q| ==> q[i + 1] == s[m + i + 1]);
    }
    assert Forward(h, q, null);
    assert forall i | 0 <= i < m - 1 :: h[s[i]].next == s[i + 1];
  }

  /** What the innermost loop is about to dereference. */
  lemma MergingFacts(h: App, done: seq<Elem>, p: seq<Elem>, r: seq<Elem>)
    requires Merging(h, done, p, r)
    ensures done != [] ==> var t := done[|done| - 1]; t in h && (p != [] ==> t != p[0]) && (r != [] ==> t != r[0])
    ensures p != [] ==> p[0] in h && (p[1..] != [] ==> h[p[0]].next == p[1])
    ensures r != [] ==> r[0] in h && h[r[0]].next == (if r[1..] != [] then r[1] else null)
  {
    NoDupSeparate(done, p, r);
    assert done != [] ==> done[|done| - 1] in done;
    if r != [] { ForwardAt(h, r, null, 0); }
  }

  lemma ForwardAt(h: App, s: seq<Elem>, after: Elem?, i: nat)
    requires Forward(h, s, after) && i < |s|
    ensures s[i] in h && h[s[i]].next == (if i + 1 < |s| then s[i + 1] else after)
  {
  }

  lemma MergeNil<T>(cmp: (T, T) -> int)
    ensures Merge(cmp, [], []) == []
  {
  }

  // ----- the loops

  /** The linking at the bottom of the innermost loop. */
  method LinkNext(e: Elem, list: Elem?, tail: Elem?, ghost s: set<Elem>, ghost done: seq<Elem>)
    returns (list': Elem?, tail': Elem)
    requires e in s && tail == Last<Elem?>(done, null) && list == First<Elem?>(done, null)
    requires tail != null ==> tail in s && tail != e
    modifies s`prev, s`next
    ensures Linked1(old(AppSnap(s)), AppSnap(s), done, e)
    ensures tail' == e && list' == First<Elem?>(done + [e], null)
  {
    list' := list;
    if tail != null {
      tail.next := e;
    } else {
      list' := e;
    }
    e.prev := tail;
    tail' := e;
  }

  /** The run of up to `insize` elements from `p`: how long it is, and what follows it. */
  method SplitOff(p: Elem, insize: nat, ghost s: set<Elem>, ghost rest: seq<Elem>) returns (q: Elem?, psize: nat)
    requires insize >= 1 && rest != [] && p == rest[0] && (forall e | e in rest :: e in s)
    requires Forward(AppSnap(s), rest, null)
    ensures psize == Min(insize, |rest|) && q == if psize < |rest| then rest[psize] else null
  {
    q, psize := p, 0;
    var i := 0;
    while i < insize
      invariant i <= insize && psize == i <= |rest| && q == (if i < |rest| then rest[i] else null)
      invariant i < insize ==> i < |rest|
    {
      assert rest[i] in rest;
      assert AppSnap(s)[rest[i]].next == if i + 1 < |rest| then rest[i + 1] else null;
      psize := psize + 1;
      q := q.next;
      if q == null {
        break;
      }
      i := i + 1;
    }
  }

  /** Which element the innermost loop takes next. */
  method Choose(p: Elem?, q: Elem?, psize: nat, qsize: nat, cmp: (Elem, Elem) -> int,
                ghost s: set<Elem>, ghost ps: seq<Elem>, ghost qs: seq<Elem>,
                ghost rest: seq<Elem>) returns (left: bool, ghost calls: nat)
    requires psize == |ps| && (ps != [] ==> p == ps[0]) && q == First<Elem?>(qs + rest, null)
    requires |qs| <= qsize && (|qs| < qsize ==> rest == []) && (ps != [] || qs != [])
    ensures if left then ps != [] && Merge(cmp, ps, qs) == [ps[0]] + Merge(cmp, ps[1..], qs)
            else qs != [] && Merge(cmp, ps, qs) == [qs[0]] + Merge(cmp, ps, qs[1..])
    ensures calls <= 1
  {
    calls := 0;
    if psize == 0 {
      left := false;
      assert Merge(cmp, ps, qs[1..]) == qs[1..];
    } else if qsize == 0 || q == null {
      left := true;
      assert Merge(cmp, ps[1..], qs) == ps[1..];
    } else {
      assert q == (qs + rest)[0];
      left, calls := cmp(p, q) <= 0, 1;
      if left && |ps| == 1 { assert Merge(cmp, ps[1..], qs) == qs; }
      if !left && |qs| == 1 { assert Merge(cmp, ps, qs[1..]) == ps; }
    }
  }

  /** The innermost loop: two runs are merged onto the end of the finished part. */
  method MergeRuns(p0: Elem, q0: Elem?, psize0: nat, insize: nat, list0: Elem?, tail0: Elem?, cmp: (Elem, Elem) -> int,
                   ghost s: set<Elem>, ghost done0: seq<Elem>, ghost ps0: seq<Elem>, ghost qs0: seq<Elem>,
                   ghost rest: seq<Elem>)
    returns (q: Elem?, list: Elem?, tail: Elem, ghost done: seq<Elem>, ghost calls: nat)
    requires Merging(AppSnap(s), done0, ps0, qs0 + rest) && psize0 == |ps0| && ps0 != [] && p0 == ps0[0]
    requires q0 == (if qs0 + rest != [] then (qs0 + rest)[0] else null)
    requires |qs0| <= insize && (|qs0| < insize ==> rest == [])
    requires list0 == First<Elem?>(done0, null) && tail0 == Last<Elem?>(done0, null)
    modifies s`prev, s`next
    ensures done == done0 + Merge(cmp, ps0, qs0) && Merging(AppSnap(s), done, [], rest)
    ensures calls <= |ps0| + |qs0|
    ensures q == (if rest != [] then rest[0] else null)
    ensures done != [] && list == First<Elem?>(done, null) && tail == done[|done| - 1]
  {
    hide Merge, Merging, AppSnap;
    var p: Elem?, psize, qsize := p0, psize0, insize;
    q, list := q0, list0;
    var t: Elem? := tail0;
    ghost var ps, qs := ps0, qs0;
    done, calls := done0, 0;
    while psize > 0 || (qsize > 0 && q != null)
      invariant psize == |ps| && (ps != [] ==> p == ps[0]) && q == (if qs + rest != [] then (qs + rest)[0] else null)
      invariant |qs| <= qsize && (|qs| < qsize ==> rest == [])
      invariant Merging(AppSnap(s), done, ps, qs + rest)
      invariant done + Merge(cmp, ps, qs) == done0 + Merge(cmp, ps0, qs0)
      invariant list == First<Elem?>(done, null) && t == Last<Elem?>(done, null)
      invariant (done != [] || ps != []) && calls + |ps| + |qs| <= |ps0| + |qs0|
      decreases psize + |qs|
    {
      ghost var k;
      t, p, q, psize, qsize, list, done, ps, qs, k :=
        MergeOne(p, q, psize, qsize, list, t, cmp, s, done, ps, qs, rest);
      calls := calls + k;
    }
    MergeNil(cmp);
    assert ps == [] && qs == [] && qs + rest == rest && done + [] == done;
    tail := t;
  }

  /** One pass over the list: the runs of length `insize` are merged pairwise. */
  method OnePass(list0: Elem, insize: nat, cmp: (Elem, Elem) -> int, ghost s: set<Elem>, ghost order: seq<Elem>)
    returns (list: Elem, tail: Elem, nmerges: nat, ghost done: seq<Elem>, ghost calls: nat)
    requires insize >= 1 && order != [] && list0 == order[0] && (forall e | e in order :: e in s)
    requires Linked<Elem?>(AppSnap(s), order, null)
    modifies s`prev, s`next
    ensures done == Pass(cmp, insize, order) && done != [] && Linked<Elem?>(AppSnap(s), done, null)
    ensures list == done[0] && tail == done[|done| - 1]
    ensures (nmerges <= 1 <==> |order| <= 2 * insize) && calls <= |order|
  {
    hide Merging, AppSnap, Linked, Pass;
    var p: Elem?, l: Elem?, t: Elem? := list0, null, null;
    nmerges, calls := 0, 0;
    done := [];
    ghost var rest := order;
    PassStart(AppSnap(s), order);
    while p != null
      invariant p == (if rest != [] then rest[0] else null) && (forall e | e in rest :: e in s)
      invariant Merging(AppSnap(s), done, [], rest)
      invariant done + Pass(cmp, insize, rest) == Pass(cmp, insize, order)
      invariant l == First<Elem?>(done, null) && t == Last<Elem?>(done, null)
      invariant if nmerges == 0 then done == [] && rest == order
          else done != [] && (nmerges == 1 ==> rest == order[Min(2 * insize, |order|)..])
      invariant (nmerges > 1 ==> |order| > 2 * insize) && calls + |rest| <= |order|
      decreases |rest|
    {
      ghost var k;
      p, l, t, done, rest, k := MergePair(p, insize, l, t, cmp, s, done, rest);
      nmerges, calls := nmerges + 1, calls + k;
    }
    PassNil(cmp, insize);
    assert done + [] == done;
    list, tail := l, t;
    MergingFacts(AppSnap(s), done, [], []);
    EndPass(tail, s, done);
  }

  /** _hs_tail->next = NULL */
  method EndPass(tail: Elem, ghost s: set<Elem>, ghost done: seq<Elem>)
    requires Merging(AppSnap(s), done, [], []) && done != [] && tail == done[|done| - 1] && tail in s
    modifies s`next
    ensures Linked<Elem?>(AppSnap(s), done, null)
  {
    ghost var h := AppSnap(s);
    tail.next := null;
    assert AppSnap(s) == h[tail := h[tail].(next := null)];
    PassEnd(h, AppSnap(s), done);
  }

  /** One turn of the middle loop: the next two runs are split off and merged. */
  method MergePair(p: Elem, insize: nat, list0: Elem?, tail0: Elem?, cmp: (Elem, Elem) -> int,
                   ghost s: set<Elem>, ghost done0: seq<Elem>, ghost rest0: seq<Elem>)
    returns (q: Elem?, list: Elem?, tail: Elem, ghost done: seq<Elem>, ghost rest: seq<Elem>, ghost calls: nat)
    requires insize >= 1 && rest0 != [] && p == rest0[0] && (forall e | e in rest0 :: e in s)
    requires Merging(AppSnap(s), done0, [], rest0)
    requires list0 == First<Elem?>(done0, null) && tail0 == Last<Elem?>(done0, null)
    modifies s`prev, s`next
    ensures rest == rest0[Min(2 * insize, |rest0|)..] && Merging(AppSnap(s), done, [], rest)
    ensures calls + |rest| <= |rest0|
    ensures q == (if rest != [] then rest[0] else null)
    ensures done + Pass(cmp, insize, rest) == done0 + Pass(cmp, insize, rest0)
    ensures done != [] && list == First<Elem?>(done, null) && tail == done[|done| - 1]
  {
    hide Merging, AppSnap, Forward, Pass, Merge;
    MergingForward(AppSnap(s), done0, rest0);
    var psize;
    q, psize := SplitOff(p, insize, s, rest0);
    ghost var n := Min(2 * insize, |rest0|);
    ghost var ps, qs := rest0[..psize], rest0[psize..n];
    rest := rest0[n..];
    assert rest0[psize..] == qs + rest;
    SplitRun(AppSnap(s), done0, rest0, psize);
    PassUnfold(cmp, insize, rest0);
    q, list, tail, done, calls := MergeRuns(p, q, psize, insize, list0, tail0, cmp, s, done0, ps, qs, rest);
  }

  lemma MergingForward(h: App, done: seq<Elem>, r: seq<Elem>)
    requires Merging(h, done, [], r)
    ensures Forward(h, r, null)
  {
  }

  /** One turn of the innermost loop. */
  method MergeOne(p: Elem?, q: Elem?, psize: nat, qsize: nat, list: Elem?, tail: Elem?, cmp: (Elem, Elem) -> int,
                  ghost s: set<Elem>, ghost done: seq<Elem>, ghost ps: seq<Elem>, ghost qs: seq<Elem>,
                  ghost rest: seq<Elem>)
    returns (tail': Elem, p': Elem?, q': Elem?, psize': nat, qsize': nat, list': Elem?,
             ghost done': seq<Elem>, ghost ps': seq<Elem>, ghost qs': seq<Elem>, ghost calls: nat)
    requires psize == |ps| && (ps != [] ==> p == ps[0]) && q == (if qs + rest != [] then (qs + rest)[0] else null)
    requires |qs| <= qsize && (|qs| < qsize ==> rest == []) && (ps != [] || qs != [])
    requires Merging(AppSnap(s), done, ps, qs + rest)
    requires list == First<Elem?>(done, null) && tail == Last<Elem?>(done, null)
    modifies s`prev, s`next
    ensures psize' == |ps'| && (ps' != [] ==> p' == ps'[0])
    ensures q' == (if qs' + rest != [] then (qs' + rest)[0] else null)
    ensures |qs'| <= qsize' && (|qs'| < qsize' ==> rest == []) && psize' + |qs'| < psize + |qs|
    ensures Merging(AppSnap(s), done', ps', qs' + rest)
    ensures done' + Merge(cmp, ps', qs') == done + Merge(cmp, ps, qs)
    ensures list' == First<Elem?>(done', null) && tail' == Last<Elem?>(done', null) && done' != []
    ensures |ps'| + |qs'| + 1 == |ps| + |qs| && calls <= 1
  {
    hide Merge, Merging, AppSnap, Linked1;
    MergingFacts(AppSnap(s), done, ps, qs + rest);
    var left;
    left, calls := Choose(p, q, psize, qsize, cmp, s, ps, qs, rest);
    p', q', psize', qsize', ps', qs' := p, q, psize, qsize, ps, qs;
    ghost var h := AppSnap(s);
    var e: Elem;
    if left {
      e := p;
      p' := p.next;
      psize' := psize - 1;
      ps' := ps[1..];
      list', tail' := LinkNext(e, list, tail, s, done);
      TakeLeft(h, AppSnap(s), done, ps, qs + rest);
    } else {
      e := q;
      q' := q.next;
      qsize' := qsize - 1;
      qs' := qs[1..];
      assert (qs + rest)[1..] == qs' + rest;
      list', tail' := LinkNext(e, list, tail, s, done);
      TakeRight(h, AppSnap(s), done, ps, qs + rest);
    }
    done' := done + [e];
  }

  /** HASH_SRT on a non-empty list: a sorted, stable permutation, again doubly linked, with its new ends. */
  method Sort(head: Elem, cmp: (Elem, Elem) -> int, ghost s: set<Elem>, ghost order: seq<Elem>)
    returns (head': Elem, tail: Elem, ghost order': seq<Elem>, ghost calls: nat, ghost passes: nat)
    requires TotalPreorder(cmp, s) && (forall e | e in order :: e in s)
    requires order != [] && head == order[0] && Linked<Elem?>(AppSnap(s), order, null)
    modifies s`prev, s`next
    ensures StableSort(cmp, order', order) && Linked<Elem?>(AppSnap(s), order', null)
    ensures order' != [] && head' == order'[0] && tail == order'[|order'| - 1]
    ensures |order'| == |order| && FewCalls(calls, passes, |order|)
  {
    hide Linked, Runs, Positions, AppSnap, TotalPreorder, StableSort, Pass, FewCalls;
    NoPass(|order|);
    ghost var pos := Prepare(AppSnap(s), cmp, order);
    var insize, looping, list := 1, true, head;
    head', tail, order', calls, passes := head, head, order, 0, 0;
    while looping
      invariant insize >= 1 && Runs(cmp, pos, order', order, insize) && Linked<Elem?>(AppSnap(s), order', null)
      invariant order' != [] && list == order'[0] && |order'| == |order| && forall e | e in order' :: e in s
      invariant if looping then insize == 1 || insize < |order|
                else |order| <= insize && head' == list && tail == order'[|order'| - 1] && passes > 0
      invariant FewCalls(calls, passes, |order|) && insize == Pow2(passes)
      decreases looping, |order| - insize
    {
      var nmerges;
      ghost var prior, k := order', 0;
      list, tail, nmerges, order', k := OnePass(list, insize, cmp, s, prior);
      OneMorePass(calls, passes, k, |order|);
      calls, passes := calls + k, passes + 1;
      PassRuns(cmp, pos, s, prior, order, insize);
      PassElems(cmp, insize, prior);
      if nmerges <= 1 {
        looping := false;
        head' := list;
      }
      insize := insize * 2;
    }
    OneRun(cmp, pos, order', order, insize);
  }

  /** The comparison function is called at most n times in each of at most ceil(lg n) passes, or in one. */
  ghost predicate FewCalls(calls: nat, passes: nat, n: nat) {
    calls <= passes * n && (passes <= 1 || Pow2(passes - 1) < n)
  }

  lemma NoPass(n: nat)
    ensures FewCalls(0, 0, n)
  {
  }

  lemma OneMorePass(calls: nat, passes: nat, k: nat, n: nat)
    requires FewCalls(calls, passes, n) && k <= n && (passes == 0 || Pow2(passes) < n)
    ensures FewCalls(calls + k, passes + 1, n)
  {
    assert (passes + 1) * n == passes * n + n;
  }

  /** At the start every single element is a run, and original positions are what they are. */
  lemma Prepare(h: App, cmp: (Elem, Elem) -> int, order: seq<Elem>) returns (pos: map<Elem, nat>)
    requires Linked<Elem?>(h, order, null)
    ensures Positions(pos, order) && Runs(cmp, pos, order, order, 1)
  {
    pos := PositionsOf(order);
    SingleRuns(cmp, pos, order);
  }
}
