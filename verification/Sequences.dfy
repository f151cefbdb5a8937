/** Sequences as ordered collections: their ends and neighbours, and what insertion and removal do. */
module Sequences {

  ghost predicate NoDup<T>(s: seq<T>) { forall i, j | 0 <= i < j < |s| :: s[i] != s[j] }

  lemma {:induction false} NoDupCard<T>(s: seq<T>)
    requires NoDup(s)
    ensures |set e | e in s| == |s|
  {
    if s != [] {
      NoDupCard(s[1..]);
      assert (set e | e in s) == {s[0]} + (set e | e in s[1..]);
    }
  }

  ghost function First<T>(s: seq<T>, nil: T): T { if s == [] then nil else s[0] }
  ghost function Last<T>(s: seq<T>, nil: T): T { if s == [] then nil else s[|s| - 1] }

  /** `r` stands right behind `e`, or is nil when `e` is the last. */
  ghost predicate Follows<T>(s: seq<T>, e: T, r: T, nil: T) {
    exists i | 0 <= i < |s| :: s[i] == e && r == First(s[i + 1..], nil)
  }

  /** Taking what follows goes through a sequence in order. */
  lemma FollowsAt<T>(s: seq<T>, i: nat, r: T, nil: T)
    requires NoDup(s) && i < |s| && Follows(s, s[i], r, nil)
    ensures r == First(s[i + 1..], nil)
  {
  }

  ghost predicate InsertedAt<T>(s: seq<T>, x: T, s': seq<T>) {
    exists i | 0 <= i <= |s| :: s' == s[..i] + [x] + s[i..]
  }

  ghost predicate RemovedFrom<T>(s: seq<T>, x: T, s': seq<T>) {
    exists i | 0 <= i < |s| :: s[i] == x && s' == s[..i] + s[i + 1..]
  }
}
