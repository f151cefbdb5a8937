/** The bucket expansion policy of include/hashtable.h as arithmetic on the buckets' counters: why
    `expand_mult` keeps every chain bounded and every ideal chain length at most ten. */
module HashPolicy {
  import opened Bits

  const INITIAL_NUM_BUCKETS: nat := 32
  const INITIAL_NUM_BUCKETS_LOG2: nat := 5
  const CAPACITY_THRESH: nat := 10

  /** The two counters of a UT_hash_bucket. */
  datatype Counter = Counter(count: nat, mult: nat)

  /** The chain length at which an addition to the bucket triggers an expansion. */
  function Threshold(mult: nat): nat { (mult + 1) * CAPACITY_THRESH }

  ghost function Items(bs: seq<Counter>): nat { if bs == [] then 0 else bs[0].count + Items(bs[1..]) }
  ghost function Thresholds(bs: seq<Counter>): nat {
    if bs == [] then 0 else Threshold(bs[0].mult) + Thresholds(bs[1..])
  }

  /** Buckets standing exactly at their threshold. */
  ghost function Full(b: Counter): nat { if b.count == Threshold(b.mult) then 1 else 0 }
  ghost function FullCount(bs: seq<Counter>): nat { if bs == [] then 0 else Full(bs[0]) + FullCount(bs[1..]) }

  ghost predicate Bounded(bs: seq<Counter>) { forall i | 0 <= i < |bs| :: bs[i].count <= Threshold(bs[i].mult) }

  /** The invariant that carries the bound from one expansion to the next. */
  ghost predicate Balanced(bs: seq<Counter>) { Bounded(bs) && Thresholds(bs) + 10 * FullCount(bs) <= 20 * |bs| }

  // ----- sums under a point update

  lemma {:induction false} SumsUpdate(bs: seq<Counter>, i: nat, b: Counter)
    requires i < |bs|
    ensures Items(bs[i := b]) == Items(bs) - bs[i].count + b.count
    ensures Thresholds(bs[i := b]) == Thresholds(bs) - Threshold(bs[i].mult) + Threshold(b.mult)
    ensures FullCount(bs[i := b]) == FullCount(bs) - Full(bs[i]) + Full(b)
  {
    if i > 0 {
      SumsUpdate(bs[1..], i - 1, b);
      assert bs[i := b][1..] == bs[1..][i - 1 := b];
    } else {
      assert bs[i := b][1..] == bs[1..];
    }
  }

  lemma {:induction false} ItemsBelow(bs: seq<Counter>)
    requires Bounded(bs)
    ensures Items(bs) + |bs| <= Thresholds(bs) + FullCount(bs)
  {
    if bs != [] {
      assert forall i | 0 <= i < |bs[1..]| :: bs[1..][i] == bs[i + 1];
      ItemsBelow(bs[1..]);
    }
  }

  // ----- a fresh table

  ghost function Fresh(n: nat): seq<Counter> { seq(n, _ => Counter(0, 0)) }

  lemma {:induction false} FreshSums(n: nat)
    ensures Items(Fresh(n)) == 0 && Thresholds(Fresh(n)) == 10 * n && FullCount(Fresh(n)) == 0
  {
    if n > 0 {
      assert Fresh(n)[1..] == Fresh(n - 1);
      FreshSums(n - 1);
    }
  }

  lemma FreshBalanced(n: nat)
    ensures Balanced(Fresh(n)) && Items(Fresh(n)) == 0
  {
    FreshSums(n);
  }

  // ----- additions and deletions

  /** An addition that does not trigger an expansion keeps the invariant. */
  lemma AddKeeps(bs: seq<Counter>, i: nat)
    requires Balanced(bs) && i < |bs| && bs[i].count + 1 < Threshold(bs[i].mult)
    ensures Balanced(bs[i := bs[i].(count := bs[i].count + 1)])
  {
    SumsUpdate(bs, i, bs[i].(count := bs[i].count + 1));
  }

  lemma DeleteKeeps(bs: seq<Counter>, i: nat)
    requires Balanced(bs) && i < |bs| && bs[i].count > 0
    ensures Balanced(bs[i := bs[i].(count := bs[i].count - 1)])
  {
    SumsUpdate(bs, i, bs[i].(count := bs[i].count - 1));
  }

  /** Whenever an addition triggers an expansion, the table holds at most twenty items a bucket, so
      the ideal chain length computed for the doubled table is between one and ten. */
  lemma TriggerBound(bs: seq<Counter>, i: nat)
    requires Balanced(bs) && i < |bs|
    ensures var n := Items(bs) + 1; n <= 20 * |bs| && 1 <= CeilDiv(n, 2 * |bs|) <= 10
  {
    ItemsBelow(bs);
    var n, d := Items(bs) + 1, 2 * |bs|;
    var k := FullCount(bs);
    FullAtMost(bs);
    assert n <= 20 * |bs|;
    CeilBounds(n, d);
    var c := CeilDiv(n, d);
    if c > 10 { MulLe(10, c - 1, d); assert false; }
  }

  lemma {:induction false} FullAtMost(bs: seq<Counter>)
    ensures FullCount(bs) <= |bs|
  {
    if bs != [] { FullAtMost(bs[1..]); }
  }

  // ----- expansion

  /** What an expansion leaves in a new bucket: the multiplier counts how often the ideal length fits. */
  function Redistributed(count: nat, ideal: nat): Counter
    requires ideal >= 1
  {
    Counter(count, if count > ideal then count / ideal else 0)
  }

  /** The items of a bucket whose chain position exceeds the ideal length. */
  function Excess(count: nat, ideal: nat): nat { if count > ideal then count - ideal else 0 }

  ghost predicate Expanded(bs: seq<Counter>, ideal: nat) {
    ideal >= 1 && forall i | 0 <= i < |bs| :: bs[i] == Redistributed(bs[i].count, ideal)
  }

  lemma OneBucket(count: nat, ideal: nat)
    requires 1 <= ideal <= 10
    ensures var b := Redistributed(count, ideal);
      count <= Threshold(b.mult) && (b.mult + Full(b)) * ideal <= count
  {
    var m := count / ideal;
    assert count == ideal * m + count % ideal;
    MulLe(ideal, 10, m + 1);
    assert ideal * (m + 1) == ideal * m + ideal;
    assert m * ideal == ideal * m;
  }

  lemma {:induction false} ExpandedSums(bs: seq<Counter>, ideal: nat)
    requires Expanded(bs, ideal) && ideal <= 10
    ensures Bounded(bs) && Thresholds(bs) >= 10 * |bs|
    ensures var e := (Thresholds(bs) - 10 * |bs|) / 10 + FullCount(bs);
      (Thresholds(bs) - 10 * |bs|) % 10 == 0 && e * ideal <= Items(bs)
  {
    if bs != [] {
      var c, r := bs[0], bs[1..];
      assert forall i | 0 <= i < |r| :: r[i] == bs[i + 1];
      ExpandedSums(r, ideal);
      OneBucket(c.count, ideal);
      TenMore(Thresholds(r) - 10 * |r|, c.mult);
      OneMoreBucket(c.mult + Full(c), (Thresholds(r) - 10 * |r|) / 10 + FullCount(r), ideal, c.count, Items(r));
    }
  }

  lemma TenMore(a: nat, m: nat)
    requires a % 10 == 0
    ensures (a + 10 * m) % 10 == 0 && (a + 10 * m) / 10 == a / 10 + m
  {
  }

  lemma OneMoreBucket(m: nat, e: nat, ideal: nat, count: nat, items: nat)
    requires m * ideal <= count && e * ideal <= items
    ensures (m + e) * ideal <= count + items
  {
    assert (m + e) * ideal == m * ideal + e * ideal;
  }

  /** The expansion restores the invariant for the doubled table: chains stay bounded. */
  lemma ExpandBalances(bs: seq<Counter>, ideal: nat)
    requires Expanded(bs, ideal) && ideal <= 10 && Items(bs) <= ideal * |bs|
    ensures Balanced(bs)
  {
    ExpandedSums(bs, ideal);
    var e := (Thresholds(bs) - 10 * |bs|) / 10 + FullCount(bs);
    MulCancel(e, |bs|, ideal);
  }
}
