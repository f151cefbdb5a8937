/** The elements of the trees of sys/tree.h and the order a search tree keeps them in. */
module SearchOrder {
  import opened Sequences

  /** An element with its tree entry: the key the comparison function looks at, which never changes,
      and the links. Splay trees leave `parent` and `red` alone. */
  class Node {
    const key: int
    var left: Node?
    var right: Node?
    var parent: Node?
    var red: bool

    constructor (k: int)
      ensures key == k && left == null && right == null
    {
      key := k;
      left, right, parent := null, null, null;
      red := false;
    }
  }

  ghost predicate Sorted(s: seq<Node>) { forall i, j | 0 <= i < j < |s| :: s[i].key < s[j].key }
  ghost predicate Below(s: seq<Node>, key: int) { forall n | n in s :: n.key < key }
  ghost predicate Above(s: seq<Node>, key: int) { forall n | n in s :: key < n.key }

  lemma SortedAround(a: seq<Node>, x: Node, b: seq<Node>)
    requires Sorted(a + [x] + b)
    ensures Below(a, x.key) && Above(b, x.key)
  {
    var s := a + [x] + b;
    assert s[|a|] == x;
    forall n | n in a ensures n.key < x.key {
      var i :| 0 <= i < |a| && a[i] == n;
      assert s[i] == n;
    }
    forall n | n in b ensures x.key < n.key {
      var i :| 0 <= i < |b| && b[i] == n;
      assert s[|a| + 1 + i] == n;
    }
  }

  /** The new element goes between the two halves the splay left at the root. */
  lemma InsertOrder(a: seq<Node>, x: Node, b: seq<Node>)
    requires Sorted(a + b) && Below(a, x.key) && Above(b, x.key)
    ensures Sorted(a + [x] + b) && InsertedAt(a + b, x, a + [x] + b)
  {
    var s, o := a + [x] + b, a + b;
    assert o[..|a|] == a && o[|a|..] == b;
    forall i, j | 0 <= i < j < |s| ensures s[i].key < s[j].key {
      if i != |a| && j != |a| {
        assert s[i] == o[if i < |a| then i else i - 1] && s[j] == o[if j < |a| then j else j - 1];
      } else if i == |a| {
        assert s[j] in b;
      } else {
        assert s[i] in a;
      }
    }
  }

  lemma RemoveOrder(a: seq<Node>, x: Node, b: seq<Node>)
    requires Sorted(a + [x] + b)
    ensures Sorted(a + b) && RemovedFrom(a + [x] + b, x, a + b)
  {
    var s, o := a + [x] + b, a + b;
    assert s[|a|] == x && o == s[..|a|] + s[|a| + 1..];
    forall i, j | 0 <= i < j < |o| ensures o[i].key < o[j].key {
      assert o[i] == s[if i < |a| then i else i + 1] && o[j] == s[if j < |a| then j else j + 1];
    }
  }

  lemma SortedPart(a: seq<Node>, b: seq<Node>)
    requires Sorted(a + b)
    ensures Sorted(a) && Sorted(b)
  {
    var s := a + b;
    assert forall i | 0 <= i < |a| :: s[i] == a[i];
    assert forall i | 0 <= i < |b| :: s[|a| + i] == b[i];
  }
}
