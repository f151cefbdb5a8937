/** UT_hash_table and the operations on its buckets (include/hashtable.h). */
module HashTable {
  import opened Sequences
  import opened Dll
  import opened Bits
  import opened HashPolicy
  import opened HashChains

  /** How many of the latest expansions in a row were ineffective. */
  ghost function Streak(history: seq<bool>): nat {
    if history == [] || !history[|history| - 1] then 0 else 1 + Streak(history[..|history| - 1])
  }

  class Table {
    var buckets: array<Bucket>
    var numBuckets: nat
    var log2NumBuckets: nat
    var numItems: nat
    var tail: Elem?
    var idealChainMaxlen: nat
    var nonidealItems: nat
    var ineffExpands: nat
    var noexpand: nat

    ghost var elems: set<Elem>
    ghost var chains: seq<Chain>
    /** One entry per expansion so far: was it ineffective? */
    ghost var history: seq<bool>

    static ghost function HhSnap(s: set<Elem>): (h: Hh)
      reads s`hhPrev, s`hhNext
      ensures h.Keys == s && forall e | e in s :: h[e] == Link(e.hhPrev, e.hhNext)
    {
      map e: Elem? | e in s :: Link(e.hhPrev, e.hhNext)
    }

    static ghost function HvSnap(s: set<Elem>): (hv: Hashes)
      reads s`hashv
      ensures forall e | e in s :: At(hv, e) == e.hashv
    {
      map e | e in s :: e.hashv
    }

    ghost function Bkts(): seq<Bucket>
      reads this`buckets, buckets
    {
      buckets[..]
    }

    ghost predicate Sized()
      reads this`buckets, this`numBuckets, this`log2NumBuckets, this`chains
    {
      buckets.Length == numBuckets == Pow2(log2NumBuckets) && |chains| == numBuckets
    }

    /** The links, the bucket heads and the counts spell out the chains `chs` over the elements `s`. */
    ghost predicate Spelled(s: set<Elem>, chs: seq<Chain>)
      reads this`buckets, buckets, s`hhPrev, s`hhNext, s`hashv
    {
      Placed(HvSnap(s), chs, s) && ChainsLinked(HhSnap(s), chs) && Heads(Bkts(), chs)
    }

    /** The bucket half of HASH_FSCK: every chain doubly linked and acyclic,
        heads and counts exact, each element in the chain its hash value selects. */
    ghost predicate ChainsOk()
      reads this`buckets, this`numBuckets, this`log2NumBuckets, this`elems, this`chains
      reads buckets, elems`hhPrev, elems`hhNext, elems`hashv
    {
      Sized() && Spelled(elems, chains)
    }

    /** What stays of ChainsOk while an expansion takes the chains apart. */
    ghost predicate Frozen()
      reads this`buckets, this`numBuckets, this`log2NumBuckets, this`elems, this`chains, buckets, elems`hashv
    {
      && Sized()
      && Placed(HvSnap(elems), chains, elems) && Heads(Bkts(), chains)
      && forall j | 0 <= j < |chains| :: NoDup<Elem?>(chains[j])
    }

    /** The state of the expansion policy. */
    ghost predicate PolicyOk()
      reads this`buckets, this`ineffExpands, this`noexpand, this`history, buckets
    {
      && ineffExpands == Streak(history) && noexpand == (if ineffExpands > 1 then 1 else 0)
      && (noexpand != 1 ==> Balanced(Counters(Bkts())))
    }

    constructor ()
      ensures ChainsOk() && numBuckets == 32
      ensures PolicyOk() && fresh(buckets) && elems == {} && numItems == 0 && tail == null && history == []
    {
      buckets := new Bucket[INITIAL_NUM_BUCKETS](_ => Bucket(null, 0, 0));
      numBuckets, log2NumBuckets := INITIAL_NUM_BUCKETS, INITIAL_NUM_BUCKETS_LOG2;
      numItems, tail := 0, null;
      idealChainMaxlen, nonidealItems, ineffExpands, noexpand := 0, 0, 0, 0;
      elems, chains, history := {}, seq(INITIAL_NUM_BUCKETS, _ => []), [];
      new;
      FreshBalanced(numBuckets);
      assert Counters(Bkts()) == Fresh(numBuckets);
      assert Pow2(5) == 32;
    }

    /** An allocated and zeroed bucket array. */
    static method NewBuckets(n: nat) returns (nb: array<Bucket>)
      ensures fresh(nb) && nb.Length == n && forall j | 0 <= j < n :: nb[j] == Bucket(null, 0, 0)
    {
      nb := new Bucket[n](_ => Bucket(null, 0, 0));
    }

    /** Makes `e` the first node of the chain of bucket `b`. */
    static method PushNode(bs: array<Bucket>, b: nat, e: Elem, ghost s: set<Elem>, ghost c: Chain)
      requires e in s && b < bs.Length && bs[b].hhHead == First<Elem?>(c, null) && e !in c
      requires c != [] ==> c[0] in s
      modifies bs, s`hhPrev, s`hhNext
      ensures Pushed(old(HhSnap(s)), HhSnap(s), c, e)
      ensures bs[..] == old(bs[..])[b := old(bs[b]).(hhHead := e)]
    {
      e.hhPrev := null;
      e.hhNext := bs[b].hhHead;
      if bs[b].hhHead != null {
        bs[b].hhHead.hhPrev := e;
      }
      bs[b] := bs[b].(hhHead := e);
    }

    /** One turn of the inner loop of HASH_EXPAND_BUCKETS: the element becomes the first of its new chain. */
    method MoveOne(nb: array<Bucket>, e: Elem, ghost s: set<Elem>, ghost nch: seq<Chain>, ghost done: set<Elem>)
      requires e in s && done <= s && e !in done && nb.Length == 2 * numBuckets == Pow2(log2NumBuckets + 1)
      requires |nch| == nb.Length && Moving(HhSnap(s), HvSnap(s), nch, done, nb[..], idealChainMaxlen, nonidealItems)
      modifies this`nonidealItems, nb, s`hhPrev, s`hhNext
      ensures var b := Slot(e.hashv, nb.Length);
        Moving(HhSnap(s), HvSnap(s), nch[b := [e] + nch[b]], done + {e}, nb[..], idealChainMaxlen, nonidealItems)
      ensures forall n: Elem | n in s && n !in done && n != e :: HhSnap(s)[n] == old(HhSnap(s)[n])
    {
      hide Slot, Moving, Pow2, And, Placed, ChainsLinked, Linked, Expanded, HhSnap, TotalExcess, Counters, Pushed;
      ghost var h, bs := HhSnap(s), nb[..];
      MovingFacts(h, HvSnap(s), nch, done, bs, idealChainMaxlen, nonidealItems, e);
      BktIsSlot(e.hashv, numBuckets * 2, log2NumBuckets + 1);
      var b := ToBkt(e.hashv, numBuckets * 2);
      Count(nb, b);
      PushNode(nb, b, e, s, nch[b]);
      MoveStep(h, HhSnap(s), HvSnap(s), nch, done, bs, nb[..], idealChainMaxlen, e);
    }

    /** if (++(bkt->count) > ideal_chain_maxlen) ... */
    method Count(nb: array<Bucket>, b: nat)
      requires b < nb.Length && idealChainMaxlen >= 1
      modifies this`nonidealItems, nb
      ensures var o, c := old(nb[b]), old(nb[b].count) + 1;
        nb[..] == old(nb[..])
            [b := Bucket(o.hhHead, c, if c > idealChainMaxlen then c / idealChainMaxlen else o.expandMult)]
      ensures nonidealItems == old(nonidealItems) + if old(nb[b].count) + 1 > idealChainMaxlen then 1 else 0
    {
      nb[b] := nb[b].(count := nb[b].count + 1);
      if nb[b].count > idealChainMaxlen {
        nonidealItems := nonidealItems + 1;
        nb[b] := nb[b].(expandMult := nb[b].count / idealChainMaxlen);
      }
    }

    /** HASH_EXPAND_BUCKETS: twice the buckets, every element moved to the chain its hash value selects there. */
    method ExpandBuckets()
      requires ChainsOk() && numItems == |elems| >= 1
      modifies this, elems`hhPrev, elems`hhNext
      ensures ChainsOk() && fresh(buckets) && numBuckets == 2 * old(numBuckets) && Split(old(chains), chains)
      ensures elems == old(elems) && numItems == old(numItems) && tail == old(tail)
      ensures idealChainMaxlen == CeilDiv(numItems, numBuckets) >= 1
      ensures Expanded(Counters(Bkts()), idealChainMaxlen)
      ensures nonidealItems == TotalExcess(Counters(Bkts()), idealChainMaxlen)
      ensures (idealChainMaxlen - 1) * numBuckets < numItems <= idealChainMaxlen * numBuckets
      ensures forall b | 0 <= b < numBuckets ::
        var c, d := buckets[b].count, idealChainMaxlen; buckets[b].expandMult == if c > d then c / d else 0
      ensures nonidealItems ==
        |set i: nat, p: nat | i < numBuckets && idealChainMaxlen <= p < buckets[i].count :: (i, p)|
      ensures history == old(history) + [nonidealItems > numItems / 2]
      ensures ineffExpands == (if nonidealItems > numItems / 2 then old(ineffExpands) + 1 else 0)
      ensures noexpand == (if ineffExpands > 1 then 1 else old(noexpand))
    {
      hide ChainsOk, CeilDiv, Expanded, TotalExcess, Counters, Split;
      Redistribute();
      JudgeExpansion();
      SizedOf();
      Redistributions();
    }

    /** What an expansion leaves, bucket by bucket. */
    lemma Redistributions()
      requires ChainsOk() && numBuckets >= 1 && numItems >= 1 && idealChainMaxlen == CeilDiv(numItems, numBuckets) >= 1
      requires Expanded(Counters(Bkts()), idealChainMaxlen)
      ensures (idealChainMaxlen - 1) * numBuckets < numItems <= idealChainMaxlen * numBuckets
      ensures buckets.Length == numBuckets && forall b | 0 <= b < numBuckets ::
        var c, d := buckets[b].count, idealChainMaxlen; buckets[b].expandMult == if c > d then c / d else 0
      ensures TotalExcess(Counters(Bkts()), idealChainMaxlen) ==
        |set i: nat, p: nat | i < numBuckets && idealChainMaxlen <= p < buckets[i].count :: (i, p)|
    {
      hide Spelled, TotalExcess, Pow2;
      CeilBounds(numItems, numBuckets);
      ghost var cs, d := Counters(Bkts()), idealChainMaxlen;
      ExcessFrom(cs, d, 0);
      assert cs[0..] == cs;
      assert BeyondFrom(cs, d, 0) == set i: nat, p: nat | i < numBuckets && d <= p < buckets[i].count :: (i, p);
      forall b | 0 <= b < numBuckets
        ensures var c, d := buckets[b].count, idealChainMaxlen; buckets[b].expandMult == if c > d then c / d else 0
      {
        assert Counters(Bkts())[b] == Redistributed(buckets[b].count, idealChainMaxlen);
      }
    }

    /** The bucket half of the expansion. */
    method Redistribute()
      requires ChainsOk() && numItems == |elems| >= 1
      modifies this`buckets, this`numBuckets, this`log2NumBuckets, this`chains,
          this`idealChainMaxlen, this`nonidealItems
      modifies elems`hhPrev, elems`hhNext
      ensures ChainsOk() && fresh(buckets) && numBuckets == 2 * old(numBuckets) && Split(old(chains), chains)
      ensures idealChainMaxlen == CeilDiv(numItems, numBuckets) >= 1
      ensures Expanded(Counters(Bkts()), idealChainMaxlen)
      ensures nonidealItems == TotalExcess(Counters(Bkts()), idealChainMaxlen)
    {
      hide Slot, HhSnap, HvSnap, At, CeilDiv, Expanded, TotalExcess, Counters, Pow2, ChainsOk, Placed, Split, Bkts;
      ghost var ch := chains;
      PlacedOf();
      DoubleBuckets();
      PlacedOf();
      Rebucketed(HvSnap(elems), ch, chains, elems);
    }

    method DoubleBuckets()
      requires ChainsOk() && numItems == |elems| >= 1
      modifies this`buckets, this`numBuckets, this`log2NumBuckets, this`chains,
          this`idealChainMaxlen, this`nonidealItems
      modifies elems`hhPrev, elems`hhNext
      ensures ChainsOk() && fresh(buckets) && numBuckets == 2 * old(numBuckets)
      ensures idealChainMaxlen == CeilDiv(numItems, numBuckets) >= 1
      ensures Expanded(Counters(Bkts()), idealChainMaxlen)
      ensures nonidealItems == TotalExcess(Counters(Bkts()), idealChainMaxlen)
    {
      hide Slot, Moving, HhSnap, HvSnap, At, CeilDiv, Expanded, TotalExcess, Counters, Pow2, ChainsOk;
      SizedOf();
      var nb := NewBuckets(2 * numBuckets);
      idealChainMaxlen := IdealChain();
      nonidealItems := 0;
      ghost var nch := MoveAll(nb);
      Install(nb, nch);
    }

    lemma PlacedOf()
      requires ChainsOk()
      ensures Placed(HvSnap(elems), chains, elems) && |chains| == numBuckets
    {
    }

    lemma SizedOf()
      requires ChainsOk()
      ensures Sized() && numBuckets >= 1
    {
    }

    /** The ideal maximum chain length for twice the buckets, by shift and mask. */
    method IdealChain() returns (c: nat)
      requires Sized() && numBuckets >= 1 && numItems >= 1
      ensures c == CeilDiv(numItems, 2 * numBuckets) >= 1
    {
      c := Shr(numItems, log2NumBuckets + 1) + if And(numItems, numBuckets * 2 - 1) != 0 then 1 else 0;
      ShiftMaskIsCeil(numItems, log2NumBuckets + 1);
      CeilBounds(numItems, 2 * numBuckets);
    }

    /** The new array replaces the old one. */
    method Install(nb: array<Bucket>, ghost nch: seq<Chain>)
      requires Sized() && nb.Length == |nch| == 2 * numBuckets
      requires Moving(HhSnap(elems), HvSnap(elems), nch, elems, nb[..], idealChainMaxlen, nonidealItems)
      modifies this`buckets, this`numBuckets, this`log2NumBuckets, this`chains
      ensures ChainsOk() && buckets == nb && numBuckets == 2 * old(numBuckets)
      ensures Expanded(Counters(Bkts()), idealChainMaxlen)
      ensures nonidealItems == TotalExcess(Counters(Bkts()), idealChainMaxlen)
    {
      hide Slot, HhSnap, HvSnap, At, ChainsLinked, Placed, Heads, Expanded, TotalExcess, Counters;
      numBuckets := numBuckets * 2;
      log2NumBuckets := log2NumBuckets + 1;
      buckets := nb;
      chains := nch;
    }

    /** An expansion that leaves more than half the items beyond the ideal length is ineffective; two
        in a row end all further expansion. */
    method JudgeExpansion()
      modifies this`history, this`ineffExpands, this`noexpand
      ensures history == old(history) + [nonidealItems > numItems / 2]
      ensures ineffExpands == (if nonidealItems > numItems / 2 then old(ineffExpands) + 1 else 0)
      ensures noexpand == (if ineffExpands > 1 then 1 else old(noexpand))
      ensures old(ineffExpands) == Streak(old(history)) ==>
        && ineffExpands == Streak(history)
        && (ineffExpands > 1 <==> |history| >= 2 && history[|history| - 1] && history[|history| - 2])
    {
      StreakStep(history, nonidealItems > numItems / 2);
      ShrIsDiv(numItems, 1);
      assert Pow2(1) == 2;
      history := history + [nonidealItems > Shr(numItems, 1)];
      ineffExpands := if nonidealItems > Shr(numItems, 1) then ineffExpands + 1 else 0;
      if ineffExpands > 1 {
        noexpand := 1;
      }
      TwoInARow(history);
    }

    /** The outer loop of HASH_EXPAND_BUCKETS. */
    method MoveAll(nb: array<Bucket>) returns (ghost nch: seq<Chain>)
      requires ChainsOk() && buckets != nb && nb.Length == 2 * numBuckets && idealChainMaxlen >= 1 && nonidealItems == 0
      requires forall j | 0 <= j < nb.Length :: nb[j] == Bucket(null, 0, 0)
      modifies this`nonidealItems, nb, elems`hhPrev, elems`hhNext
      ensures |nch| == nb.Length
      ensures Moving(HhSnap(elems), HvSnap(elems), nch, elems, nb[..], idealChainMaxlen, nonidealItems)
    {
      hide Slot, Moving, HhSnap, HvSnap, At, ChainsLinked, Placed, Waiting;
      ghost var done := {};
      nch := seq(2 * numBuckets, _ => []);
      FreshMoving(HhSnap(elems), HvSnap(elems), nch, nb[..], idealChainMaxlen);
      WaitingStart(HhSnap(elems), chains);
      FreezeChains(HhSnap(elems), chains);
      var i := 0;
      while i < numBuckets
        invariant i <= numBuckets && Waiting(HhSnap(elems), chains, i, 0, done) && done <= elems && Frozen()
        invariant |nch| == nb.Length
        invariant Moving(HhSnap(elems), HvSnap(elems), nch, done, nb[..], idealChainMaxlen, nonidealItems)
      {
        nch, done := MoveChain(nb, i, nch, done);
        i := i + 1;
      }
      WaitingEnd(HhSnap(elems), HvSnap(elems), chains, elems, done);
    }

    /** The inner loop of HASH_EXPAND_BUCKETS: one old chain is moved. */
    method MoveChain(nb: array<Bucket>, i: nat, ghost nch0: seq<Chain>, ghost done0: set<Elem>)
      returns (ghost nch: seq<Chain>, ghost done: set<Elem>)
      requires Frozen() && i < numBuckets && buckets != nb && nb.Length == 2 * numBuckets
      requires Waiting(HhSnap(elems), chains, i, 0, done0) && done0 <= elems
      requires |nch0| == nb.Length
      requires Moving(HhSnap(elems), HvSnap(elems), nch0, done0, nb[..], idealChainMaxlen, nonidealItems)
      modifies this`nonidealItems, nb, elems`hhPrev, elems`hhNext
      ensures Waiting(HhSnap(elems), chains, i + 1, 0, done) && done <= elems
      ensures |nch| == nb.Length
      ensures Moving(HhSnap(elems), HvSnap(elems), nch, done, nb[..], idealChainMaxlen, nonidealItems)
    {
      hide Slot, Moving, HhSnap, HvSnap, At, Waiting, Placed, Pow2;
      nch, done := nch0, done0;
      var thh := buckets[i].hhHead;
      ghost var p := 0;
      while thh != null
        invariant p <= |chains[i]| && thh == (if p < |chains[i]| then chains[i][p] else null)
        invariant Waiting(HhSnap(elems), chains, i, p, done) && done <= elems
        invariant |nch| == nb.Length
        invariant Moving(HhSnap(elems), HvSnap(elems), nch, done, nb[..], idealChainMaxlen, nonidealItems)
        decreases |chains[i]| - p
      {
        thh, nch, done := MoveTurn(nb, thh, i, p, nch, done);
        p := p + 1;
      }
      WaitingNext(HhSnap(elems), chains, i, done);
    }

    method MoveTurn(nb: array<Bucket>, thh: Elem, ghost i: nat, ghost p: nat, ghost nch0: seq<Chain>,
                    ghost done0: set<Elem>)
      returns (next: Elem?, ghost nch: seq<Chain>, ghost done: set<Elem>)
      requires Frozen() && i < numBuckets && nb.Length == 2 * numBuckets
      requires p < |chains[i]| && thh == chains[i][p]
      requires Waiting(HhSnap(elems), chains, i, p, done0) && done0 <= elems
      requires |nch0| == nb.Length
      requires Moving(HhSnap(elems), HvSnap(elems), nch0, done0, nb[..], idealChainMaxlen, nonidealItems)
      modifies this`nonidealItems, nb, elems`hhPrev, elems`hhNext
      ensures next == Succ<Elem?>(chains[i], p, null)
      ensures Waiting(HhSnap(elems), chains, i, p + 1, done) && done <= elems
      ensures |nch| == nb.Length
      ensures Moving(HhSnap(elems), HvSnap(elems), nch, done, nb[..], idealChainMaxlen, nonidealItems)
    {
      hide Slot, Moving, HhSnap, HvSnap, At, Waiting, Placed;
      ghost var h := HhSnap(elems);
      WaitingAt(h, HvSnap(elems), chains, elems, i, p, done0);
      next := thh.hhNext;
      MoveOne(nb, thh, elems, nch0, done0);
      WaitingStep(h, HhSnap(elems), HvSnap(elems), chains, elems, i, p, done0);
      ghost var b := Slot(thh.hashv, nb.Length);
      nch, done := nch0[b := [thh] + nch0[b]], done0 + {thh};
    }

    // ----- HASH_ADD_TO_BKT

    /** The counters of the buckets. */
    ghost function Load(): seq<Counter>
      reads this`buckets, buckets
    {
      Counters(Bkts())
    }

    /** What an addition to a bucket with counter `c` did to the policy's state. */
    ghost predicate Grew(c: Counter, cs: seq<Counter>, b: nat, nb: nat, frozen: nat, hist: seq<bool>)
      requires b < |cs|
      reads this, buckets
    {
      if c.count + 1 >= Threshold(c.mult) && frozen != 1 then (
        && |history| == |hist| + 1 && numBuckets == 2 * nb >= 1
        && idealChainMaxlen == CeilDiv(numItems, numBuckets) && 1 <= idealChainMaxlen <= 10
        && Expanded(Load(), idealChainMaxlen) && nonidealItems == TotalExcess(Load(), idealChainMaxlen)
        && Balanced(Load())
      ) else (
        history == hist && numBuckets == nb && Load() == cs[b := Counter(c.count + 1, c.mult)]
      )
    }

    method AddToBkt(b: nat, addhh: Elem)
      requires ChainsOk() && PolicyOk() && addhh !in elems && numItems == |elems| + 1
      requires Sized() && b < numBuckets && b == Slot(addhh.hashv, numBuckets)
      modifies this, buckets, elems`hhPrev, elems`hhNext, addhh`hhPrev, addhh`hhNext
      ensures ChainsOk() && PolicyOk() && elems == old(elems) + {addhh}
      ensures numItems == old(numItems) && tail == old(tail) && (buckets == old(buckets) || fresh(buckets))
      ensures Grew(old(Load()[b]), old(Load()), b, old(numBuckets), old(noexpand), old(history))
      ensures var o := old(buckets[b]);
        numBuckets ==
          if o.count + 1 >= 10 * (o.expandMult + 1) && old(noexpand) != 1 then 2 * old(numBuckets) else old(numBuckets)
    {
      hide Slot, ChainsOk, Spelled, Counters, Balanced, CeilDiv, Expanded, TotalExcess, Streak, Pow2, Items;
      ghost var cs := Load();
      Prepend(b, addhh);
      if buckets[b].count >= Threshold(buckets[b].expandMult) && noexpand != 1 {
        Trigger(b, cs);
      } else if noexpand != 1 {
        AddKeeps(cs, b);
      }
    }

    /** The expansion at the end of HASH_ADD_TO_BKT. */
    method Trigger(ghost b: nat, ghost cs: seq<Counter>)
      requires ChainsOk() && b < |cs| == numBuckets && Balanced(cs) && Items(cs) + 1 == numItems == |elems|
      requires ineffExpands == Streak(history) <= 1 && noexpand == 0
      modifies this, elems`hhPrev, elems`hhNext
      ensures ChainsOk() && PolicyOk() && elems == old(elems)
      ensures numItems == old(numItems) && tail == old(tail) && fresh(buckets)
      ensures |history| == |old(history)| + 1 && numBuckets == 2 * old(numBuckets) >= 1
      ensures idealChainMaxlen == CeilDiv(numItems, numBuckets) && 1 <= idealChainMaxlen <= 10
      ensures Expanded(Load(), idealChainMaxlen) && nonidealItems == TotalExcess(Load(), idealChainMaxlen)
      ensures Balanced(Load())
    {
      hide Slot, ChainsOk, Spelled, Counters, Balanced, CeilDiv, Expanded, TotalExcess, Streak, Pow2, Items;
      TriggerBound(cs, b);
      StreakStep(history, true);
      StreakStep(history, false);
      ExpandBuckets();
      AfterExpand();
    }

    lemma CountItems()
      requires ChainsOk()
      ensures Items(Load()) == |elems|
    {
      CountAll(HhSnap(elems), HvSnap(elems), chains, elems, Bkts());
    }

    /** The new element becomes the first of its chain. */
    method Prepend(b: nat, addhh: Elem)
      requires ChainsOk() && addhh !in elems && Sized() && b < numBuckets && b == Slot(addhh.hashv, numBuckets)
      modifies this`elems, this`chains, buckets, elems`hhPrev, elems`hhNext, addhh`hhPrev, addhh`hhNext
      ensures ChainsOk() && elems == old(elems) + {addhh} && Sized()
      ensures old(Items(Load())) == |old(elems)|
      ensures var c := old(Load()[b]); Load() == old(Load())[b := Counter(c.count + 1, c.mult)]
      ensures buckets[b].count == old(buckets[b].count) + 1 && buckets[b].expandMult == old(buckets[b].expandMult)
    {
      hide Spelled, Bkts, Slot, Items, Counters, Pow2;
      CountItems();
      ghost var s, chs := PrependLinks(b, addhh);
      elems, chains := s, chs;
    }

    method PrependLinks(b: nat, addhh: Elem) returns (ghost s: set<Elem>, ghost chs: seq<Chain>)
      requires ChainsOk() && addhh !in elems && Sized() && b < numBuckets && b == Slot(addhh.hashv, numBuckets)
      modifies buckets, elems`hhPrev, elems`hhNext, addhh`hhPrev, addhh`hhNext
      ensures s == elems + {addhh} && |chs| == |chains|
      ensures Spelled(s, chs)
      ensures var c := old(Load()[b]); Load() == old(Load())[b := Counter(c.count + 1, c.mult)]
      ensures buckets[b].count == old(buckets[b].count) + 1 && buckets[b].expandMult == old(buckets[b].expandMult)
    {
      hide Slot, ChainsLinked, Placed, Heads, HhSnap, HvSnap, At, Pushed, Items, Counters, Pow2;
      s := elems + {addhh};
      ghost var h, hv, bs, c := HhSnap(elems), HvSnap(elems), buckets[..], chains[b];
      CountersUpdate(bs, b, Bucket(addhh, bs[b].count + 1, bs[b].expandMult));
      PushOnto(b, addhh, s, c);
      AddStep(h, HhSnap(s), hv, HvSnap(s), chains, elems, bs, addhh);
      chs := chains[b := [addhh] + c];
    }

    method PushOnto(b: nat, addhh: Elem, ghost s: set<Elem>, ghost c: Chain)
      requires ChainsOk() && addhh !in elems && b < numBuckets && s == elems + {addhh} && c == chains[b]
      modifies buckets, s`hhPrev, s`hhNext
      ensures Pushed(old(HhSnap(elems)), HhSnap(s), c, addhh)
      ensures buckets[..] == old(buckets[..])[b := Bucket(addhh, old(buckets[b].count) + 1, old(buckets[b].expandMult))]
    {
      hide Slot, ChainsLinked, Placed, Heads, HvSnap, At, Pushed, Items, Counters, Pow2;
      ghost var h, h2 := HhSnap(elems), HhSnap(s);
      BucketFacts(h, HvSnap(elems), chains, elems, buckets[..], b);
      CountAndPush(b, addhh, s, c);
      PushedSub(h, h2, HhSnap(s), c, addhh);
    }

    method CountAndPush(b: nat, addhh: Elem, ghost s: set<Elem>, ghost c: Chain)
      requires addhh in s && b < buckets.Length && buckets[b].hhHead == First<Elem?>(c, null) && addhh !in c
      requires c != [] ==> c[0] in s
      modifies buckets, s`hhPrev, s`hhNext
      ensures Pushed(old(HhSnap(s)), HhSnap(s), c, addhh)
      ensures buckets[..] == old(buckets[..])[b := Bucket(addhh, old(buckets[b].count) + 1, old(buckets[b].expandMult))]
    {
      buckets[b] := buckets[b].(count := buckets[b].count + 1);
      PushNode(buckets, b, addhh, s, c);
    }

    /** Until expansion is given up, every chain stays within its bucket's threshold; and it is given up
        exactly when the last two expansions were ineffective. */
    lemma ChainsBounded()
      requires ChainsOk() && PolicyOk()
      ensures noexpand != 1 ==> forall b | 0 <= b < numBuckets :: |chains[b]| <= 10 * (buckets[b].expandMult + 1)
      ensures noexpand == 1 <==> |history| >= 2 && history[|history| - 1] && history[|history| - 2]
    {
      hide HhSnap, HvSnap, Placed, ChainsLinked, Thresholds, FullCount;
      TwoInARow(history);
      forall b | noexpand != 1 && 0 <= b < numBuckets
        ensures |chains[b]| <= 10 * (buckets[b].expandMult + 1)
      {
        assert Counters(Bkts())[b] == Counter(buckets[b].count, buckets[b].expandMult);
      }
    }

    /** An element stands in chain `i` if and only if `i` is its hash value modulo the number of buckets. */
    lemma InItsBucket(e: Elem, i: nat)
      requires ChainsOk() && e in elems && i < |chains|
      ensures |chains| == numBuckets > 0 && (e in chains[i] <==> i == e.hashv % numBuckets)
    {
      hide HhSnap, ChainsLinked, Heads;
      assert At(HvSnap(elems), e) == e.hashv;
    }

    // ----- HASH_DEL_IN_BKT and HASH_FIND_IN_BKT

    method DelInBkt(b: nat, del: Elem)
      requires ChainsOk() && Sized() && PolicyOk() && del in elems && b < numBuckets && b == Slot(del.hashv, numBuckets)
      modifies this`elems, this`chains, buckets, elems`hhPrev, elems`hhNext
      ensures ChainsOk() && Sized() && PolicyOk() && elems == old(elems) - {del}
      ensures var c := old(Load()[b]); c.count > 0 && Load() == old(Load())[b := Counter(c.count - 1, c.mult)]
    {
      hide Spelled, Bkts, Slot, Items, Counters, Pow2, Balanced, Streak;
      ghost var s, chs := Unchain(b, del);
      elems, chains := s, chs;
    }

    method Unchain(b: nat, del: Elem) returns (ghost s: set<Elem>, ghost chs: seq<Chain>)
      requires ChainsOk() && del in elems && Sized() && b < numBuckets && b == Slot(del.hashv, numBuckets)
      modifies buckets, elems`hhPrev, elems`hhNext
      ensures s == elems - {del} && |chs| == |chains| && Spelled(s, chs)
      ensures var c := old(Load()[b]); c.count > 0 && Load() == old(Load())[b := Counter(c.count - 1, c.mult)]
      ensures noexpand != 1 && old(Balanced(Load())) ==> Balanced(Load())
    {
      hide Slot, ChainsLinked, Placed, Heads, HhSnap, HvSnap, At, Unlinked, NoDup, Items, Counters, Pow2, Balanced;
      ghost var h, hv, bs, c := HhSnap(elems), HvSnap(elems), Bkts(), chains[b];
      ghost var i := PlaceOf(h, hv, chains, elems, bs, del);
      UnhookCounted(b, del, elems, c, i);
      s, chs := elems - {del}, chains[b := Without(c, i)];
      UnlinkedSub(h, HhSnap(elems), HhSnap(s), c, i);
      DelStep(h, HhSnap(s), hv, HvSnap(s), chains, elems, bs, b, i);
    }

    method UnhookCounted(b: nat, del: Elem, ghost s: set<Elem>, ghost c: Chain, ghost i: nat)
      requires b < buckets.Length && i < |c| && c[i] == del && buckets[b].count > 0
      requires buckets[b].hhHead == First<Elem?>(c, null) && (del == c[0] <==> i == 0)
      requires del.hhPrev == Pred<Elem?>(c, i, null) && del.hhNext == Succ<Elem?>(c, i, null)
      requires (forall e | e in c :: e in s) && del.hhPrev != del && del.hhNext != del
      requires (del.hhPrev != null ==> del.hhPrev != del.hhNext)
      modifies buckets, s`hhPrev, s`hhNext
      ensures Unlinked(old(HhSnap(s)), HhSnap(s), c, i)
      ensures Bkts() == old(Bkts())
          [b := Bucket(First<Elem?>(Without(c, i), null), old(buckets[b].count) - 1, old(buckets[b].expandMult))]
      ensures var c := old(Load()[b]); c.count > 0 && Load() == old(Load())[b := Counter(c.count - 1, c.mult)]
      ensures old(Balanced(Load())) ==> Balanced(Load())
    {
      hide HhSnap, Unlinked, Balanced, Without;
      ghost var bs := Bkts();
      Unhook(b, del, s, c, i);
      CountersUpdate(bs, b, Bucket(First<Elem?>(Without(c, i), null), bs[b].count - 1, bs[b].expandMult));
      if Balanced(Counters(bs)) { DeleteKeeps(Counters(bs), b); }
    }

    method Unhook(b: nat, del: Elem, ghost s: set<Elem>, ghost c: Chain, ghost i: nat)
      requires b < buckets.Length && i < |c| && c[i] == del && buckets[b].count > 0
      requires buckets[b].hhHead == First<Elem?>(c, null) && (del == c[0] <==> i == 0)
      requires del.hhPrev == Pred<Elem?>(c, i, null) && del.hhNext == Succ<Elem?>(c, i, null)
      requires (forall e | e in c :: e in s) && del.hhPrev != del && del.hhNext != del
      requires (del.hhPrev != null ==> del.hhPrev != del.hhNext)
      modifies buckets, s`hhPrev, s`hhNext
      ensures Unlinked(old(HhSnap(s)), HhSnap(s), c, i)
      ensures Bkts() == old(Bkts())
          [b := Bucket(First<Elem?>(Without(c, i), null), old(buckets[b].count) - 1, old(buckets[b].expandMult))]
    {
      buckets[b] := buckets[b].(count := buckets[b].count - 1);
      if buckets[b].hhHead == del {
        buckets[b] := buckets[b].(hhHead := del.hhNext);
      }
      if del.hhPrev != null {
        del.hhPrev.hhNext := del.hhNext;
      }
      if del.hhNext != null {
        del.hhNext.hhPrev := del.hhPrev;
      }
    }

    /** HASH_FIND_IN_BKT: the first element of the chain with the key, comparing length and then bytes. */
    method FindInBkt(b: nat, key: Key) returns (out: Elem?)
      requires ChainsOk() && Sized() && b < numBuckets
      ensures out != null ==> out in elems && out.key == key
      ensures out == null ==> forall e | e in chains[b] :: e.key != key
    {
      hide Placed, Linked, HvSnap, HhSnap, Pow2;
      out := buckets[b].hhHead;
      ghost var i, c := 0, chains[b];
      ChainFacts(HhSnap(elems), HvSnap(elems), chains, elems, Bkts(), b);
      while out != null
        invariant i <= |c| && out == (if i < |c| then c[i] else null)
        invariant forall j | 0 <= j < i :: c[j].key != key
        decreases |c| - i
      {
        if |out.key| == |key| {
          if out.key == key {
            break;
          }
        }
        out := out.hhNext;
        i := i + 1;
      }
    }

    /** After an expansion triggered by an addition the chains are bounded again. */
    lemma AfterExpand()
      requires ChainsOk() && Expanded(Load(), idealChainMaxlen) && numItems == |elems|
      requires idealChainMaxlen == CeilDiv(numItems, numBuckets) <= 10 && numBuckets >= 1
      ensures Balanced(Load())
    {
      CountItems();
      CeilBounds(numItems, numBuckets);
      ExpandBalances(Load(), idealChainMaxlen);
    }
  }

  lemma TwoInARow(history: seq<bool>)
    ensures Streak(history) > 1 <==> |history| >= 2 && history[|history| - 1] && history[|history| - 2]
  {
    if history != [] && history[|history| - 1] {
      assert Streak(history) == 1 + Streak(history[..|history| - 1]);
    }
  }

  lemma StreakStep(history: seq<bool>, x: bool)
    ensures Streak(history + [x]) == if x then Streak(history) + 1 else 0
  {
    assert (history + [x])[..|history|] == history;
  }
}
