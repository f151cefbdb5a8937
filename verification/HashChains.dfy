/** The bucket chains of include/hashtable.h: which element belongs where, and what pushing onto a
    chain, taking out of a chain and re-bucketing do, on a snapshot of the hh_prev/hh_next links. */
module HashChains {
  import opened Sequences
  import opened Dll
  import opened Bits
  import opened HashPolicy

  type Key = seq<bv8>

  /** An element with its UT_hash_handle; the key lives in the element and does not change. */
  class Elem {
    const key: Key
    var prev: Elem?
    var next: Elem?
    var hhPrev: Elem?
    var hhNext: Elem?
    var hashv: nat

    constructor (k: Key)
      ensures key == k
    {
      key := k;
      prev, next, hhPrev, hhNext := null, null, null, null;
      hashv := 0;
    }
  }

  /** UT_hash_bucket */
  datatype Bucket = Bucket(hhHead: Elem?, count: nat, expandMult: nat)

  type Chain = seq<Elem>
  type Hh = map<Elem?, Link<Elem?>>

  /** The hashv fields of the elements. */
  type Hashes = map<Elem, nat>

  ghost function At(hv: Hashes, e: Elem): nat { if e in hv then hv[e] else 0 }

  /** HASH_TO_BKT */
  function ToBkt(hashv: nat, numBkts: nat): nat
    requires numBkts >= 1
  {
    And(hashv, numBkts - 1)
  }

  /** The bucket a hash value selects among `n` buckets. */
  ghost function Slot(hashv: nat, n: nat): (i: nat)
    requires n > 0
    ensures i < n
  {
    hashv % n
  }

  /** HASH_TO_BKT selects by the remainder, the bucket count being a power of two. */
  lemma BktIsSlot(hashv: nat, n: nat, k: nat)
    requires n == Pow2(k)
    ensures ToBkt(hashv, n) == hashv % n == Slot(hashv, n)
  {
    MaskIsMod(hashv, k);
  }

  /** `hv` holds the elements' hash values: every element of `s` is in exactly the chain its hash value selects. */
  ghost predicate Placed(hv: Hashes, chains: seq<Chain>, s: set<Elem>) {
    && |chains| > 0
    && (forall i | 0 <= i < |chains| :: forall e | e in chains[i] :: e in s && Slot(At(hv, e), |chains|) == i)
    && (forall e | e in s :: e in chains[Slot(At(hv, e), |chains|)])
  }

  ghost predicate ChainsLinked(h: Hh, chains: seq<Chain>) {
    forall i | 0 <= i < |chains| :: Linked<Elem?>(h, chains[i], null)
  }

  /** The bucket array agrees with the chains: heads and exact counts. */
  ghost predicate Heads(bs: seq<Bucket>, chains: seq<Chain>) {
    |bs| == |chains| &&
        forall i | 0 <= i < |bs| :: bs[i].hhHead == First<Elem?>(chains[i], null) && bs[i].count == |chains[i]|
  }

  ghost function Counters(bs: seq<Bucket>): (cs: seq<Counter>)
    ensures |cs| == |bs| && forall i | 0 <= i < |bs| :: cs[i] == Counter(bs[i].count, bs[i].expandMult)
  {
    seq(|bs|, i requires 0 <= i < |bs| => Counter(bs[i].count, bs[i].expandMult))
  }

  // ----- pushing

  /** `e` has become the first node of chain `b`. */
  ghost predicate Pushed(h: Hh, k: Hh, c: Chain, e: Elem) {
    && e in k && k[e] == Link(null, First<Elem?>(c, null))
    && (c != [] ==> c[0] in h && c[0] in k && k[c[0]] == h[c[0]].(prev := e))
    && Same(h, k, {e, First<Elem?>(c, null)})
  }

  lemma PushLinked(h: Hh, k: Hh, hv: Hashes, chains: seq<Chain>, s: set<Elem>, b: nat, e: Elem)
    requires Placed(hv, chains, s) && ChainsLinked(h, chains) && e !in s && b < |chains|
    requires Pushed(h, k, chains[b], e)
    ensures ChainsLinked(k, chains[b := [e] + chains[b]])
  {
    var chains' := chains[b := [e] + chains[b]];
    forall i | 0 <= i < |chains|
      ensures Linked<Elem?>(k, chains'[i], null)
    {
      if i == b {
        PushFront<Elem?>(h, k, chains[b], e, null);
      } else {
        OtherChain(hv, chains, s, b, i);
        Frame<Elem?>(h, k, chains[i], null);
      }
    }
  }

  lemma OtherChain(hv: Hashes, chains: seq<Chain>, s: set<Elem>, b: nat, i: nat)
    requires Placed(hv, chains, s) && b < |chains| && i < |chains| && i != b
    ensures forall e | e in chains[i] :: e in s && e !in chains[b]
  {
  }

  lemma PushPlaced(hv: Hashes, chains: seq<Chain>, s: set<Elem>, e: Elem)
    requires Placed(hv, chains, s) && e !in s
    ensures var b := Slot(At(hv, e), |chains|); Placed(hv, chains[b := [e] + chains[b]], s + {e})
  {
    var b := Slot(At(hv, e), |chains|);
    var c' := chains[b := [e] + chains[b]];
    forall n | n in s + {e}
      ensures n in c'[Slot(At(hv, n), |chains|)]
    {
      if n == e { assert c'[b][0] == e; }
    }
  }

  lemma PushHeads(bs: seq<Bucket>, bs': seq<Bucket>, chains: seq<Chain>, b: nat, e: Elem)
    requires Heads(bs, chains) && b < |bs| && |bs'| == |bs|
    requires forall i | 0 <= i < |bs| && i != b :: bs'[i] == bs[i]
    requires bs'[b].hhHead == e && bs'[b].count == bs[b].count + 1
    ensures Heads(bs', chains[b := [e] + chains[b]])
  {
  }

  // ----- taking out

  /** The node at `i` of chain `c` has been unlinked from its neighbours. */
  ghost predicate Unlinked(h: Hh, k: Hh, c: Chain, i: nat)
    requires i < |c|
  {
    && Same(h, k, {c[i], Pred<Elem?>(c, i, null), Succ<Elem?>(c, i, null)})
    && (i > 0 ==> c[i - 1] in h && c[i - 1] in k && k[c[i - 1]] == h[c[i - 1]].(next := Succ<Elem?>(c, i, null)))
    && (i + 1 < |c| ==> c[i + 1] in h && c[i + 1] in k && k[c[i + 1]] == h[c[i + 1]].(prev := Pred<Elem?>(c, i, null)))
  }

  lemma UnlinkLinked(h: Hh, k: Hh, hv: Hashes, chains: seq<Chain>, s: set<Elem>, b: nat, i: nat)
    requires Placed(hv, chains, s) && ChainsLinked(h, chains) && b < |chains| && i < |chains[b]|
    requires Unlinked(h, k, chains[b], i)
    ensures ChainsLinked(k, chains[b := Without(chains[b], i)])
  {
    var chains' := chains[b := Without(chains[b], i)];
    forall j | 0 <= j < |chains|
      ensures Linked<Elem?>(k, chains'[j], null)
    {
      if j == b {
        Remove<Elem?>(h, k, chains[b], i, null);
      } else {
        OtherChain(hv, chains, s, b, j);
        Frame<Elem?>(h, k, chains[j], null);
      }
    }
  }

  lemma UnlinkPlaced(h: Hh, hv: Hashes, chains: seq<Chain>, s: set<Elem>, b: nat, i: nat)
    requires Placed(hv, chains, s) && ChainsLinked(h, chains) && b < |chains| && i < |chains[b]|
    ensures Placed(hv, chains[b := Without(chains[b], i)], s - {chains[b][i]})
  {
    var c := chains[b];
    WithoutElems(c, i);
    var c' := chains[b := Without(c, i)];
    forall n | n in s - {c[i]}
      ensures n in c'[Slot(At(hv, n), |chains|)]
    {
    }
  }

  // ----- counting

  /** Every element is in exactly one chain, so the chain lengths add up to the number of elements. */
  lemma CountAll(h: Hh, hv: Hashes, chains: seq<Chain>, s: set<Elem>, bs: seq<Bucket>)
    requires Placed(hv, chains, s) && ChainsLinked(h, chains) && Heads(bs, chains)
    ensures Items(Counters(bs)) == |s|
  {
    FreezeChains(h, chains);
    CountFrom(hv, chains, s, bs, 0);
    assert Counters(bs)[0..] == Counters(bs);
    assert From(hv, s, |chains|, 0) == s;
  }

  /** The elements whose bucket index is at least `i`. */
  ghost function From(hv: Hashes, s: set<Elem>, m: nat, i: nat): set<Elem>
    requires m > 0
  {
    set e | e in s && Slot(At(hv, e), m) >= i
  }

  lemma {:induction false} CountFrom(hv: Hashes, chains: seq<Chain>, s: set<Elem>, bs: seq<Bucket>, i: nat)
    requires Placed(hv, chains, s) && Heads(bs, chains) && i <= |chains|
    requires forall j | 0 <= j < |chains| :: NoDup<Elem?>(chains[j])
    ensures Items(Counters(bs)[i..]) == |From(hv, s, |chains|, i)|
    decreases |chains| - i
  {
    var cs := Counters(bs);
    if i == |chains| {
      assert From(hv, s, |chains|, i) == {};
    } else {
      CountFrom(hv, chains, s, bs, i + 1);
      ChainIsBucket(hv, chains, s, i);
      ChainCard(chains[i]);
      assert cs[i..][1..] == cs[i + 1..] && cs[i..][0] == cs[i];
    }
  }

  lemma ChainCard(c: Chain)
    requires NoDup<Elem?>(c)
    ensures |set e | e in c| == |c|
  {
    assert NoDup<Elem>(c);
    NoDupCard<Elem>(c);
  }

  lemma ChainIsBucket(hv: Hashes, chains: seq<Chain>, s: set<Elem>, i: nat)
    requires Placed(hv, chains, s) && i < |chains|
    ensures var here, later := (set e | e in chains[i]), From(hv, s, |chains|, i + 1);
      From(hv, s, |chains|, i) == here + later && here !! later
  {
  }

  // ----- re-bucketing

  ghost function TotalExcess(cs: seq<Counter>, ideal: nat): nat {
    if cs == [] then 0 else Excess(cs[0].count, ideal) + TotalExcess(cs[1..], ideal)
  }

  /** The places in the chains from the `k`-th on, by bucket and position, that lie beyond the ideal length. */
  ghost function BeyondFrom(cs: seq<Counter>, ideal: nat, k: nat): set<(nat, nat)> {
    set i: nat, p: nat | k <= i < |cs| && ideal <= p < cs[i].count :: (i, p)
  }

  lemma {:induction false} ExcessFrom(cs: seq<Counter>, ideal: nat, k: nat)
    requires k <= |cs|
    ensures TotalExcess(cs[k..], ideal) == |BeyondFrom(cs, ideal, k)|
    decreases |cs| - k
  {
    if k == |cs| {
      assert BeyondFrom(cs, ideal, k) == {};
    } else {
      ExcessFrom(cs, ideal, k + 1);
      assert cs[k..][1..] == cs[k + 1..] && cs[k..][0] == cs[k];
      assert BeyondFrom(cs, ideal, k) == InRow(k, ideal, cs[k].count) + BeyondFrom(cs, ideal, k + 1);
      assert InRow(k, ideal, cs[k].count) !! BeyondFrom(cs, ideal, k + 1);
      RowSize(k, ideal, cs[k].count);
    }
  }

  ghost function InRow(i: nat, low: nat, high: nat): set<(nat, nat)> { set p: nat | low <= p < high :: (i, p) }

  lemma {:induction false} RowSize(i: nat, low: nat, high: nat)
    ensures |InRow(i, low, high)| == if high > low then high - low else 0
  {
    if high > low {
      RowSize(i, low, high - 1);
      assert InRow(i, low, high) == InRow(i, low, high - 1) + {(i, high - 1)};
    } else {
      assert InRow(i, low, high) == {};
    }
  }

  lemma {:induction false} ExcessUpdate(cs: seq<Counter>, ideal: nat, i: nat, c: Counter)
    requires i < |cs|
    ensures TotalExcess(cs[i := c], ideal) ==
        TotalExcess(cs, ideal) - Excess(cs[i].count, ideal) + Excess(c.count, ideal)
  {
    if i > 0 {
      ExcessUpdate(cs[1..], ideal, i - 1, c);
      assert cs[i := c][1..] == cs[1..][i - 1 := c];
    } else {
      assert cs[i := c][1..] == cs[1..];
    }
  }

  lemma {:induction false} FreshExcess(n: nat, ideal: nat)
    ensures TotalExcess(Fresh(n), ideal) == 0
  {
    if n > 0 {
      assert Fresh(n)[1..] == Fresh(n - 1);
      FreshExcess(n - 1, ideal);
    }
  }

  /** The new buckets while an expansion is under way; `done` are the elements moved so far. */
  ghost predicate Moving(h: Hh, hv: Hashes, chains: seq<Chain>, done: set<Elem>, bs: seq<Bucket>, ideal: nat,
                         nonideal: nat) {
    && Placed(hv, chains, done) && ChainsLinked(h, chains) && Heads(bs, chains)
    && Expanded(Counters(bs), ideal) && nonideal == TotalExcess(Counters(bs), ideal)
  }

  lemma MovingFacts(h: Hh, hv: Hashes, chains: seq<Chain>, done: set<Elem>, bs: seq<Bucket>,
                                       ideal: nat, nonideal: nat, e: Elem)
    requires Moving(h, hv, chains, done, bs, ideal, nonideal) && e !in done
    ensures |bs| == |chains| > 0 && ideal >= 1 && nonideal == TotalExcess(Counters(bs), ideal)
    ensures var c := chains[Slot(At(hv, e), |chains|)];
      bs[Slot(At(hv, e), |chains|)].hhHead == First<Elem?>(c, null) && e !in c && (c != [] ==> c[0] in done)
  {
    var b := Slot(At(hv, e), |chains|);
    assert chains[b] != [] ==> chains[b][0] in chains[b];
  }

  /** The elements still to be moved: from position `p` of chain `i` on. Only their forward links matter. */
  ghost predicate Waiting(h: Hh, chains: seq<Chain>, i: nat, p: nat, done: set<Elem>) {
    && i <= |chains| && (if i < |chains| then p <= |chains[i]| else p == 0)
    && (forall j, q | 0 <= j < |chains| && 0 <= q < |chains[j]| :: chains[j][q] in done <==> j < i || (j == i && q < p))
    && (forall j, q | i <= j < |chains| && (j == i ==> p <= q) && 0 <= q < |chains[j]| ::
          chains[j][q] in h && h[chains[j][q]].next == Succ<Elem?>(chains[j], q, null))
  }

  lemma WaitingStart(h: Hh, chains: seq<Chain>)
    requires ChainsLinked(h, chains)
    ensures Waiting(h, chains, 0, 0, {})
  {
    forall j, q | 0 <= j < |chains| && 0 <= q < |chains[j]|
      ensures chains[j][q] in h && h[chains[j][q]].next == Succ<Elem?>(chains[j], q, null)
    {
      assert Linked<Elem?>(h, chains[j], null);
    }
  }

  lemma FreezeChains(h: Hh, chains: seq<Chain>)
    requires ChainsLinked(h, chains)
    ensures forall j | 0 <= j < |chains| :: NoDup<Elem?>(chains[j])
  {
  }

  lemma WaitingStep(h: Hh, k: Hh, hv: Hashes, chains: seq<Chain>, s: set<Elem>, i: nat,
                                       p: nat, done: set<Elem>)
    requires Waiting(h, chains, i, p, done) && i < |chains| && p < |chains[i]| && Placed(hv, chains, s)
    requires forall j | 0 <= j < |chains| :: NoDup<Elem?>(chains[j])
    requires forall n: Elem | n in h && n !in done && n != chains[i][p] :: n in k && k[n] == h[n]
    ensures Waiting(k, chains, i, p + 1, done + {chains[i][p]})
  {
    var e := chains[i][p];
    forall j, q | 0 <= j < |chains| && 0 <= q < |chains[j]|
      ensures chains[j][q] == e <==> j == i && q == p
    {
      if j != i { OtherChain(hv, chains, s, i, j); assert chains[j][q] in chains[j]; }
    }
  }

  lemma WaitingAt(h: Hh, hv: Hashes, chains: seq<Chain>, s: set<Elem>, i: nat, p: nat,
                                     done: set<Elem>)
    requires Waiting(h, chains, i, p, done) && i < |chains| && p < |chains[i]| && Placed(hv, chains, s)
    ensures var e := chains[i][p]; e in h && e in s && e !in done && h[e].next == Succ<Elem?>(chains[i], p, null)
  {
    assert chains[i][p] in chains[i];
  }

  lemma WaitingNext(h: Hh, chains: seq<Chain>, i: nat, done: set<Elem>)
    requires i < |chains| && Waiting(h, chains, i, |chains[i]|, done)
    ensures Waiting(h, chains, i + 1, 0, done)
  {
  }

  /** An expansion starts with empty new buckets. */
  lemma FreshMoving(h: Hh, hv: Hashes, chains: seq<Chain>, bs: seq<Bucket>, ideal: nat)
    requires |chains| == |bs| > 0 && ideal >= 1
    requires (forall i | 0 <= i < |chains| :: chains[i] == [])
    requires forall i | 0 <= i < |bs| :: bs[i] == Bucket(null, 0, 0)
    ensures Moving(h, hv, chains, {}, bs, ideal, 0)
  {
    assert Counters(bs) == Fresh(|bs|);
    FreshExcess(|bs|, ideal);
  }

  lemma WaitingEnd(h: Hh, hv: Hashes, chains: seq<Chain>, s: set<Elem>, done: set<Elem>)
    requires Waiting(h, chains, |chains|, 0, done) && Placed(hv, chains, s) && done <= s
    ensures done == s
  {
    forall e | e in s
      ensures e in done
    {
      var j := Slot(At(hv, e), |chains|);
      var q :| 0 <= q < |chains[j]| && chains[j][q] == e;
    }
  }

  lemma MoveCounters(bs: seq<Bucket>, bs': seq<Bucket>, b: nat, ideal: nat)
    requires b < |bs| && |bs'| == |bs| && forall i | 0 <= i < |bs| && i != b :: bs'[i] == bs[i]
    requires Expanded(Counters(bs), ideal) && bs'[b].count == bs[b].count + 1
    requires bs'[b].expandMult == if bs'[b].count > ideal then bs'[b].count / ideal else bs[b].expandMult
    ensures Expanded(Counters(bs'), ideal)
    ensures TotalExcess(Counters(bs'), ideal) ==
        TotalExcess(Counters(bs), ideal) + if bs'[b].count > ideal then 1 else 0
  {
    var cs, cs' := Counters(bs), Counters(bs');
    assert cs' == cs[b := cs'[b]];
    ExcessUpdate(cs, ideal, b, cs'[b]);
    assert cs[b] == Redistributed(cs[b].count, ideal);
  }

  lemma MoveStep(h: Hh, k: Hh, hv: Hashes, chains: seq<Chain>, done: set<Elem>,
                                    bs: seq<Bucket>, bs': seq<Bucket>, ideal: nat, e: Elem)
    requires Moving(h, hv, chains, done, bs, ideal, TotalExcess(Counters(bs), ideal)) && e !in done
    requires var b := Slot(At(hv, e), |chains|);
      && Pushed(h, k, chains[b], e)
      && |bs'| == |bs| && (forall i | 0 <= i < |bs| && i != b :: bs'[i] == bs[i])
      && bs'[b].hhHead == e && bs'[b].count == bs[b].count + 1
      && bs'[b].expandMult == if bs'[b].count > ideal then bs'[b].count / ideal else bs[b].expandMult
    ensures var b := Slot(At(hv, e), |chains|);
      Moving(k, hv, chains[b := [e] + chains[b]], done + {e}, bs', ideal,
             TotalExcess(Counters(bs), ideal) + if bs'[b].count > ideal then 1 else 0)
    ensures forall n: Elem | n in h && n !in done && n != e :: n in k && k[n] == h[n]
  {
    var b := Slot(At(hv, e), |chains|);
    assert chains[b] != [] ==> chains[b][0] in chains[b];
    PushLinked(h, k, hv, chains, done, b, e);
    PushPlaced(hv, chains, done, e);
    PushHeads(bs, bs', chains, b, e);
    MoveCounters(bs, bs', b, ideal);
  }

  /** Twice the chains, each old one spread over its old index and that index plus the old number. */
  ghost predicate Split(from: seq<Chain>, to: seq<Chain>) {
    && |to| == 2 * |from|
    && forall i | 0 <= i < |from| ::
         && (forall e | e in from[i] :: e in to[i] || e in to[i + |from|])
         && (forall e | e in to[i] :: e in from[i])
         && (forall e | e in to[i + |from|] :: e in from[i])
  }

  lemma Rebucketed(hv: Hashes, from: seq<Chain>, to: seq<Chain>, s: set<Elem>)
    requires Placed(hv, from, s) && Placed(hv, to, s) && |to| == 2 * |from|
    ensures Split(from, to)
  {
    forall e | e in s
      ensures var n, i := |from|, Slot(At(hv, e), |from|);
          Slot(At(hv, e), 2 * n) == i || Slot(At(hv, e), 2 * n) == i + n
    {
      DoubledIndex(At(hv, e), |from|);
    }
  }

  // ----- one bucket's counters

  lemma CountersUpdate(bs: seq<Bucket>, b: nat, d: Bucket)
    requires b < |bs|
    ensures Counters(bs[b := d]) == Counters(bs)[b := Counter(d.count, d.expandMult)]
  {
  }

  /** What an addition to bucket `b` needs to know of the table. */
  lemma BucketFacts(h: Hh, hv: Hashes, chains: seq<Chain>, s: set<Elem>, bs: seq<Bucket>, b: nat)
    requires Placed(hv, chains, s) && ChainsLinked(h, chains) && Heads(bs, chains) && b < |chains|
    ensures |bs| == |chains| && bs[b].hhHead == First<Elem?>(chains[b], null) && bs[b].count == |chains[b]|
    ensures (forall e | e in chains[b] :: e in s) && (chains[b] != [] ==> chains[b][0] in s)
  {
    assert chains[b] != [] ==> chains[b][0] in chains[b];
  }

  /** All of HASH_ADD_TO_BKT short of a possible expansion. */
  lemma AddStep(h: Hh, k: Hh, hv: Hashes, hv': Hashes, chains: seq<Chain>, s: set<Elem>,
                                   bs: seq<Bucket>, e: Elem)
    requires Placed(hv, chains, s) && ChainsLinked(h, chains) && Heads(bs, chains) && e !in s
    requires forall n | n in s :: At(hv', n) == At(hv, n)
    requires Pushed(h, k, chains[Slot(At(hv', e), |chains|)], e)
    ensures var b := Slot(At(hv', e), |chains|);
      var chains', bs' := chains[b := [e] + chains[b]], bs[b := Bucket(e, bs[b].count + 1, bs[b].expandMult)];
      Placed(hv', chains', s + {e}) && ChainsLinked(k, chains') && Heads(bs', chains')
  {
    var b := Slot(At(hv', e), |chains|);
    PlacedSame(hv, hv', chains, s);
    PushLinked(h, k, hv', chains, s, b, e);
    PushPlaced(hv', chains, s, e);
    PushHeads(bs, bs[b := Bucket(e, bs[b].count + 1, bs[b].expandMult)], chains, b, e);
  }

  lemma PlacedSame(hv: Hashes, hv': Hashes, chains: seq<Chain>, s: set<Elem>)
    requires Placed(hv, chains, s) && forall n | n in s :: At(hv', n) == At(hv, n)
    ensures Placed(hv', chains, s)
  {
  }

  lemma PushedSub(h: Hh, h2: Hh, k: Hh, c: Chain, e: Elem)
    requires Pushed(h2, k, c, e) && (c != [] ==> c[0] in h) && forall n | n in h :: n in h2 && h2[n] == h[n]
    ensures Pushed(h, k, c, e)
  {
  }

  /** Where an element stands in its chain, and what its neighbours are. */
  lemma PlaceOf(h: Hh, hv: Hashes, chains: seq<Chain>, s: set<Elem>, bs: seq<Bucket>, e: Elem)
    returns (i: nat)
    requires Placed(hv, chains, s) && ChainsLinked(h, chains) && Heads(bs, chains) && e in s
    ensures var b := Slot(At(hv, e), |chains|);
      && |bs| == |chains| && i < |chains[b]| && chains[b][i] == e && (e == chains[b][0] <==> i == 0)
      && bs[b].hhHead == First<Elem?>(chains[b], null) && bs[b].count > 0 && (forall n | n in chains[b] :: n in s)
      && e in h && h[e] == Link(Pred<Elem?>(chains[b], i, null), Succ<Elem?>(chains[b], i, null))
      && h[e].prev != e && h[e].next != e && (h[e].prev != null ==> h[e].prev != h[e].next) && NoDup<Elem?>(chains[b])
  {
    var b := Slot(At(hv, e), |chains|);
    i :| 0 <= i < |chains[b]| && chains[b][i] == e;
    assert Linked<Elem?>(h, chains[b], null);
  }

  /** All of HASH_DEL_IN_BKT. */
  lemma DelStep(h: Hh, k: Hh, hv: Hashes, hv': Hashes, chains: seq<Chain>, s: set<Elem>,
                                   bs: seq<Bucket>, b: nat, i: nat)
    requires Placed(hv, chains, s) && ChainsLinked(h, chains) && Heads(bs, chains) && b < |chains| && i < |chains[b]|
    requires bs[b].count > 0 && forall n | n in s && n != chains[b][i] :: At(hv', n) == At(hv, n)
    requires Unlinked(h, k, chains[b], i)
    ensures var c := Without(chains[b], i);
      var chains', bs' := chains[b := c], bs[b := Bucket(First<Elem?>(c, null), bs[b].count - 1, bs[b].expandMult)];
      Placed(hv', chains', s - {chains[b][i]}) && ChainsLinked(k, chains') && Heads(bs', chains')
  {
    UnlinkPlaced(h, hv, chains, s, b, i);
    PlacedSame(hv, hv', chains[b := Without(chains[b], i)], s - {chains[b][i]});
    UnlinkLinked(h, k, hv, chains, s, b, i);
  }

  lemma UnlinkedSub(h: Hh, k: Hh, k2: Hh, c: Chain, i: nat)
    requires i < |c| && Unlinked(h, k, c, i) && NoDup<Elem?>(c)
    requires forall n | n in k && n != c[i] :: n in k2 && k2[n] == k[n]
    ensures Unlinked(h, k2, c, i)
  {
  }

  lemma ChainFacts(h: Hh, hv: Hashes, chains: seq<Chain>, s: set<Elem>, bs: seq<Bucket>, b: nat)
    requires Placed(hv, chains, s) && ChainsLinked(h, chains) && Heads(bs, chains) && b < |chains|
    ensures |bs| == |chains| && bs[b].hhHead == First<Elem?>(chains[b], null)
    ensures forall i | 0 <= i < |chains[b]| :: var e := chains[b][i];
      e in s && e in h && h[e].next == Succ<Elem?>(chains[b], i, null)
  {
    assert Linked<Elem?>(h, chains[b], null);
  }
}
