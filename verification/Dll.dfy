/** Doubly linked lists as sequences: what a snapshot of prev/next links spells out, and what the
    usual relinkings do to it. `R` is a nullable reference type and `nil` its null. */
module Dll {
  import opened Sequences

  datatype Link<R> = Link(prev: R, next: R)

  ghost function Pred<R>(s: seq<R>, i: nat, nil: R): R requires i < |s| { if i == 0 then nil else s[i - 1] }
  ghost function Succ<R>(s: seq<R>, i: nat, nil: R): R requires i < |s| { if i + 1 == |s| then nil else s[i + 1] }

  /** The links of `h` spell out the list `s`, forwards and backwards. */
  ghost predicate Linked<R>(h: map<R, Link<R>>, s: seq<R>, nil: R) {
    && NoDup(s) && nil !in s
    && forall i | 0 <= i < |s| :: s[i] in h && h[s[i]] == Link(Pred(s, i, nil), Succ(s, i, nil))
  }

  lemma Frame<R>(h: map<R, Link<R>>, k: map<R, Link<R>>, s: seq<R>, nil: R)
    requires Linked(h, s, nil) && forall n | n in s && n in h :: n in k && k[n] == h[n]
    ensures Linked(k, s, nil)
  {
  }

  /** `k` is `h` except at the given places. */
  ghost predicate Same<R>(h: map<R, Link<R>>, k: map<R, Link<R>>, s: set<R>) {
    forall n | n in h && n !in s :: n in k && k[n] == h[n]
  }

  /** A new node in front of the old first one. */
  lemma PushFront<R>(h: map<R, Link<R>>, k: map<R, Link<R>>, s: seq<R>, e: R, nil: R)
    requires Linked(h, s, nil) && e !in s && e != nil && e in k && k[e] == Link(nil, First(s, nil))
    requires forall n | n in s && n in h && n != s[0] :: n in k && k[n] == h[n]
    requires s != [] && s[0] in h ==> s[0] in k && k[s[0]] == h[s[0]].(prev := e)
    ensures Linked(k, [e] + s, nil)
  {
    var t := [e] + s;
    forall i | 0 <= i < |t|
      ensures t[i] in k && k[t[i]] == Link(Pred(t, i, nil), Succ(t, i, nil))
    {
      if i > 0 { assert t[i] == s[i - 1]; }
    }
  }

  lemma LinkedAt<R>(h: map<R, Link<R>>, s: seq<R>, i: nat, nil: R)
    requires Linked(h, s, nil) && i < |s|
    ensures s[i] in h && h[s[i]] == Link(Pred(s, i, nil), Succ(s, i, nil)) && NoDup(s) && nil !in s
  {
  }

  lemma LinkedIntro<R>(h: map<R, Link<R>>, s: seq<R>, nil: R)
    requires NoDup(s) && nil !in s
    requires forall i | 0 <= i < |s| :: s[i] in h && h[s[i]] == Link(Pred(s, i, nil), Succ(s, i, nil))
    ensures Linked(h, s, nil)
  {
  }

  /** A new node behind the old last one. */
  lemma Append<R>(h: map<R, Link<R>>, k: map<R, Link<R>>, s: seq<R>, e: R, nil: R)
    requires Linked(h, s, nil) && e !in s && e != nil && e in k && k[e] == Link(Last(s, nil), nil)
    requires forall n | n in s && n in h && n != s[|s| - 1] :: n in k && k[n] == h[n]
    requires s != [] && s[|s| - 1] in h ==> s[|s| - 1] in k && k[s[|s| - 1]] == h[s[|s| - 1]].(next := e)
    ensures Linked(k, s + [e], nil)
  {
    hide Linked;
    var t := s + [e];
    forall i | 0 <= i < |t|
      ensures t[i] in k && k[t[i]] == Link(Pred(t, i, nil), Succ(t, i, nil))
    {
      if i < |s| {
        LinkedAt(h, s, i, nil);
        assert t[i] == s[i] && s[i] in s;
      }
    }
    if s != [] { LinkedAt(h, s, 0, nil); }
    LinkedIntro(k, t, nil);
  }

  ghost function Without<R>(s: seq<R>, i: nat): seq<R>
    requires i < |s|
  {
    s[..i] + s[i + 1..]
  }

  /** The node at `i` taken out: its neighbours are linked to each other. */
  lemma Remove<R>(h: map<R, Link<R>>, k: map<R, Link<R>>, s: seq<R>, i: nat, nil: R)
    requires Linked(h, s, nil) && i < |s|
    requires forall n | n in s && n in h && n !in {s[i], Pred(s, i, nil), Succ(s, i, nil)} :: n in k && k[n] == h[n]
    requires i > 0 && s[i - 1] in h ==> s[i - 1] in k && k[s[i - 1]] == h[s[i - 1]].(next := Succ(s, i, nil))
    requires i + 1 < |s| && s[i + 1] in h ==> s[i + 1] in k && k[s[i + 1]] == h[s[i + 1]].(prev := Pred(s, i, nil))
    ensures Linked(k, Without(s, i), nil) && s[i] !in Without(s, i)
  {
    hide Linked;
    var t := Without(s, i);
    LinkedAt(h, s, i, nil);
    WithoutElems(s, i);
    forall j | 0 <= j < |t|
      ensures t[j] in k && k[t[j]] == Link(Pred(t, j, nil), Succ(t, j, nil))
    {
      var p := if j < i then j else j + 1;
      assert t[j] == s[p];
      LinkedAt(h, s, p, nil);
    }
    LinkedIntro(k, t, nil);
  }

  lemma WithoutElems<R>(s: seq<R>, i: nat)
    requires i < |s| && NoDup(s)
    ensures NoDup(Without(s, i)) && forall n :: n in Without(s, i) <==> n in s && n != s[i]
  {
    var t := Without(s, i);
    forall n | n in s && n != s[i]
      ensures n in t
    {
      var j :| 0 <= j < |s| && s[j] == n;
      assert t[if j < i then j else j - 1] == n;
    }
  }
}
