/** A whole uthash (include/hashtable.h): the user's head pointer, the insertion-order list and the
    bucket table, against a plain map from keys to elements. */
module HashMap {
  import opened Sequences
  import opened Dll
  import opened Bits
  import opened HashChains
  import opened HashTable
  import opened MergeOrder
  import opened BloomFilter
  import HashSort

  /** The dictionary a list of elements with distinct keys stands for. */
  ghost function DictOf(s: seq<Elem>): map<Key, Elem> {
    if s == [] then map[] else DictOf(s[..|s| - 1])[s[|s| - 1].key := s[|s| - 1]]
  }

  ghost predicate UniqueKeys(s: seq<Elem>) { forall i, j | 0 <= i < j < |s| :: s[i].key != s[j].key }

  lemma {:induction false} DictElems(s: seq<Elem>)
    requires UniqueKeys(s)
    ensures forall k | k in DictOf(s) :: DictOf(s)[k] in s && DictOf(s)[k].key == k
    ensures forall e | e in s :: e.key in DictOf(s) && DictOf(s)[e.key] == e
  {
    if s != [] {
      var t, x := s[..|s| - 1], s[|s| - 1];
      DictElems(t);
      assert s == t + [x];
      assert forall i | 0 <= i < |t| :: t[i] == s[i] && t[i].key != x.key;
    }
  }

  /** Two lists of the same elements stand for the same dictionary. */
  lemma DictSame(s: seq<Elem>, t: seq<Elem>)
    requires UniqueKeys(s) && UniqueKeys(t) && forall e: Elem :: e in s <==> e in t
    ensures DictOf(s) == DictOf(t)
  {
    DictElems(s);
    DictElems(t);
    forall k | k in DictOf(s) ensures k in DictOf(t) && DictOf(t)[k] == DictOf(s)[k] {
      var e := DictOf(s)[k];
      assert e in s && e in t && e.key == k;
    }
    forall k | k in DictOf(t) ensures k in DictOf(s) {
      var e := DictOf(t)[k];
      assert e in t && e in s && e.key == k;
    }
  }

  lemma DictAppend(s: seq<Elem>, x: Elem)
    ensures DictOf(s + [x]) == DictOf(s)[x.key := x]
  {
    assert (s + [x])[..|s|] == s;
  }

  lemma WithoutUnique(s: seq<Elem>, i: nat)
    requires UniqueKeys(s) && i < |s|
    ensures var t := Without(s, i);
      && UniqueKeys(t) && (forall e | e in t :: e in s && e.key != s[i].key)
      && (forall e | e in s && e != s[i] :: e in t && e.key != s[i].key)
  {
    var t := Without(s, i);
    assert forall j | 0 <= j < |t| :: t[j] == s[if j < i then j else j + 1];
    forall e | e in s && e != s[i] ensures e in t && e.key != s[i].key {
      var j :| 0 <= j < |s| && s[j] == e;
      assert t[if j < i then j else j - 1] == e;
    }
  }

  lemma DictWithout(s: seq<Elem>, i: nat)
    requires UniqueKeys(s) && i < |s|
    ensures UniqueKeys(Without(s, i)) && DictOf(Without(s, i)) == DictOf(s) - {s[i].key}
  {
    hide UniqueKeys, DictOf, Without;
    var t := Without(s, i);
    WithoutUnique(s, i);
    DictElems(s);
    DictElems(t);
    forall k | k in DictOf(s) && k != s[i].key ensures k in DictOf(t) && DictOf(t)[k] == DictOf(s)[k] {
      assert DictOf(s)[k] in t;
    }
    forall k | k in DictOf(t) ensures k in DictOf(s) && k != s[i].key {
      assert DictOf(t)[k] in s;
    }
  }

  class UtHash {
    /** HASH_FCN, any function of the key. */
    const hash: Key -> nat
    var head: Elem?
    /** (head)->hh.tbl, null together with the head. */
    var tbl: Table?
    /** bloom_bv, which lives and dies with the table; `bloomBits` is HASH_BLOOM. */
    var bloom: Bloom?
    const bloomBits: nat
    ghost var order: seq<Elem>
    ghost var elems: set<Elem>

    /** The insertion-order half of HASH_FSCK, and the ends of that list. */
    ghost predicate Ends()
      requires tbl != null
      reads this`head, this`tbl, this`order, this`elems, tbl`tail, elems`prev, elems`next
    {
      && order != [] && Linked<Elem?>(HashSort.AppSnap(elems), order, null)
      && head == order[0] && tbl.tail == order[|order| - 1]
    }

    /** The bucket half, with the item count, and the hash values, for the elements `es`. */
    ghost predicate Hashed(es: set<Elem>)
      requires tbl != null
      reads this`tbl, tbl`elems, tbl`numItems, tbl`chains, tbl`buckets, tbl`numBuckets, tbl`log2NumBuckets
      reads tbl`ineffExpands, tbl`noexpand, tbl`history, tbl.buckets, es`hhPrev, es`hhNext, es`hashv
    {
      && tbl.elems == es && tbl.numItems == |es| && tbl.ChainsOk() && tbl.PolicyOk()
      && forall e | e in es :: e.hashv == hash(e.key)
    }

    /** Every element has its bit in the Bloom filter. */
    ghost predicate Marked(es: set<Elem>)
      requires bloom != null
      reads this`bloom, bloom, bloom.bv, es`hashv
    {
      bloom.Valid() && forall e | e in es :: e.hashv in bloom.added
    }

    ghost predicate Valid()
      reads this, tbl, if tbl == null then {} else {tbl.buckets}, elems
      reads bloom, if bloom == null then {} else {bloom.bv}
    {
      && elems == (set e | e in order) && UniqueKeys(order)
      && (head == null ==> tbl == null && bloom == null && order == [])
      && (head != null ==> tbl != null && Ends() && Hashed(elems))
      && (head != null ==> bloom != null && Marked(elems) && bloom.bv as object != tbl.buckets as object)
    }

    /** Every element stands in the one chain its key's hash value selects, and is in the Bloom filter. */
    lemma Located(e: Elem, i: nat)
      requires Valid() && e in order && i < |tbl.chains|
      ensures e in tbl.chains[i] <==> i == hash(e.key) % tbl.numBuckets
      ensures e.hashv == hash(e.key) && hash(e.key) in bloom.added
    {
      hide Ends, Bloom.Valid, Table.PolicyOk, Table.ChainsOk, UniqueKeys;
      tbl.InItsBucket(e, i);
    }

    /** The dictionary this hash stands for. */
    ghost function Dict(): map<Key, Elem>
      reads this`order
    {
      DictOf(order)
    }

    constructor (hash: Key -> nat, bloomBits: nat)
      ensures Valid() && order == [] && elems == {} && tbl == null && bloom == null && this.hash == hash
    {
      this.hash := hash;
      this.bloomBits := bloomBits;
      head, tbl, bloom := null, null, null;
      order, elems := [], {};
    }

    /** HASH_FIND */
    method Find(key: Key) returns (out: Elem?)
      requires Valid()
      ensures out == if key in Dict() then Dict()[key] else null
    {
      out := null;
      DictElems(order);
      if head != null {
        out := Lookup(key);
      }
    }

    method Lookup(key: Key) returns (out: Elem?)
      requires Valid() && head != null
      ensures out != null ==> out in order && out.key == key
      ensures out == null ==> forall e | e in order :: e.key != key
    {
      hide Pow2, Bloom.Valid, Bloom.Low, Table.PolicyOk, Linked, UniqueKeys, HashSort.AppSnap;
      var hashv := hash(key);
      BktIsSlot(hashv, tbl.numBuckets, tbl.log2NumBuckets);
      var bkt := ToBkt(hashv, tbl.numBuckets);
      var hit := bloom.Test(hashv);
      out := null;
      if hit {
        out := tbl.FindInBkt(bkt, key);
      }
      forall e | e in order && out == null
        ensures e.key != key
      {
        assert e in elems && e in tbl.chains[Slot(e.hashv, |tbl.chains|)];
      }
    }

    // ----- HASH_ADD_KEYPTR

    /** Adds a fresh element with a fresh key. */
    method Add(add: Elem)
      requires Valid() && add !in order && add.key !in Dict()
      modifies this, tbl, if tbl == null then {} else {tbl.buckets}, elems, add
      modifies bloom, if bloom == null then {} else {bloom.bv}
      ensures Valid() && order == old(order) + [add] && Dict() == old(Dict())[add.key := add]
      ensures tbl != null && bloom != null && elems == old(elems) + {add}
      ensures if old(bloom) != null then bloom == old(bloom) else fresh(bloom) && fresh(bloom.bv)
      ensures old(tbl) != null ==> tbl == old(tbl) && (tbl.buckets == old(tbl.buckets) || fresh(tbl.buckets))
      ensures old(tbl) == null ==> fresh(tbl) && fresh(tbl.buckets)
    {
      hide Ends, Hashed, Marked, DictOf, UniqueKeys;
      DictAppend(order, add);
      FreshKey(order, add);
      ghost var es := elems;
      if head == null {
        StartTable(add);
      } else {
        LinkLast(add);
      }
      Record(add, es);
    }

    /** The part common to a first and a later element. */
    method Record(add: Elem, ghost es: set<Elem>)
      requires tbl != null && bloom != null && bloom.bv as object != tbl.buckets as object
      requires elems == es + {add} && add !in es && Ends() && Hashed(es) && Marked(es)
      modifies tbl, tbl.buckets, elems`hhPrev, elems`hhNext, add`hashv, bloom, bloom.bv
      ensures Ends() && Hashed(elems) && Marked(elems) && bloom.bv as object != tbl.buckets as object
      ensures tbl.buckets == old(tbl.buckets) || fresh(tbl.buckets)
    {
      hide Ends, Hashed, Marked;
      InsertHashed(add, es);
      MarkBloom(add, es);
    }

    /** The first element: HASH_MAKE_TABLE. */
    method StartTable(add: Elem)
      requires order == [] && elems == {}
      modifies this, add`prev, add`next
      ensures tbl != null && Ends() && head != null && order == old(order) + [add] && elems == {add}
      ensures Hashed({}) && fresh(tbl) && fresh(tbl.buckets)
      ensures bloom != null && Marked({}) && fresh(bloom) && fresh(bloom.bv)
      ensures bloom.bv as object != tbl.buckets as object
    {
      add.next := null;
      head := add;
      head.prev := null;
      tbl := new Table();
      bloom := new Bloom(bloomBits);
      tbl.tail := head;
      order, elems := [add], {add};
    }

    /** Any later element goes behind the tail. */
    method LinkLast(add: Elem)
      requires tbl != null && Ends() && Hashed(elems) && add !in order && add !in elems
      modifies this`order, this`elems, tbl`tail, elems`next, add`prev, add`next
      ensures Ends() && order == old(order) + [add] && elems == old(elems) + {add}
      ensures Hashed(old(elems))
    {
      hide *;
      ghost var s := ExtendApp(add);
      SetOrder(order + [add], s);
    }

    ghost method SetOrder(o: seq<Elem>, s: set<Elem>)
      requires tbl != null && o != [] && Linked<Elem?>(HashSort.AppSnap(s), o, null)
      requires head == o[0] && tbl.tail == o[|o| - 1]
      modifies this`order, this`elems
      ensures order == o && elems == s && Ends()
    {
      hide Linked, HashSort.AppSnap;
      order, elems := o, s;
    }

    method ExtendApp(add: Elem) returns (ghost s: set<Elem>)
      requires tbl != null && Ends() && add !in order && add !in elems
      modifies tbl`tail, elems`next, add`prev, add`next
      ensures s == elems + {add} && tbl.tail == add && Linked<Elem?>(HashSort.AppSnap(s), order + [add], null)
      ensures head == (order + [add])[0]
    {
      hide Linked, HashSort.AppSnap;
      EndsIn();
      s := elems + {add};
      ghost var h := HashSort.AppSnap(elems);
      LinkTail(tbl.tail, add, s);
      tbl.tail := add;
      Append<Elem?>(h, HashSort.AppSnap(s), order, add, null);
    }

    lemma EndsIn()
      requires tbl != null && Ends()
      ensures order != [] && (forall e | e in order :: e in elems) && head == order[0] && tbl.tail == order[|order| - 1]
    {
    }

    static method LinkTail(tail: Elem, add: Elem, ghost s: set<Elem>)
      requires tail in s && add in s && tail != add
      modifies s`next, add`prev
      ensures add.prev == tail && add.next == null && tail.next == add && tail.prev == old(tail.prev)
      ensures forall e | e in s && e != add && e != tail :: e.next == old(e.next)
    {
      add.next := null;
      tail.next := add;
      add.prev := tail;
    }

    /** The rest of an addition. */
    method InsertHashed(add: Elem, ghost es: set<Elem>)
      requires tbl != null && elems == es + {add} && add !in es && Hashed(es) && Ends()
      modifies tbl, tbl.buckets, elems`hhPrev, elems`hhNext, add`hashv
      ensures Hashed(elems) && Ends() && (tbl.buckets == old(tbl.buckets) || fresh(tbl.buckets))
    {
      hide Table.ChainsOk, Table.PolicyOk, Table.Grew, Table.Load, Ends;
      CountHashed(add, es);
      PutInBucket(add, es);
    }

    method CountHashed(add: Elem, ghost es: set<Elem>)
      requires tbl != null && add !in es && Hashed(es)
      modifies tbl`numItems, add`hashv
      ensures tbl.elems == es && tbl.numItems == |es| + 1 && tbl.ChainsOk() && tbl.PolicyOk()
      ensures add.hashv == hash(add.key) && forall e | e in es :: e.hashv == hash(e.key)
    {
      hide Table.ChainsOk, Table.PolicyOk;
      tbl.numItems := tbl.numItems + 1;
      add.hashv := hash(add.key);
    }

    method PutInBucket(add: Elem, ghost es: set<Elem>)
      requires tbl != null && add !in es && tbl.elems == es && tbl.numItems == |es| + 1 && tbl.ChainsOk()
      requires tbl.PolicyOk()
      modifies tbl, tbl.buckets, es`hhPrev, es`hhNext, add`hhPrev, add`hhNext
      ensures tbl.elems == es + {add} && tbl.numItems == |es| + 1 && tbl.ChainsOk() && tbl.PolicyOk()
      ensures tbl.tail == old(tbl.tail) && (tbl.buckets == old(tbl.buckets) || fresh(tbl.buckets))
    {
      hide Table.ChainsOk, Table.PolicyOk, Pow2, Slot, And, Table.Grew, Table.Load;
      tbl.SizedOf();
      BktIsSlot(add.hashv, tbl.numBuckets, tbl.log2NumBuckets);
      var bkt := ToBkt(add.hashv, tbl.numBuckets);
      tbl.AddToBkt(bkt, add);
    }

    /** HASH_BLOOM_ADD at the end of an addition. */
    method MarkBloom(add: Elem, ghost es: set<Elem>)
      requires bloom != null && elems == es + {add} && Marked(es)
      modifies bloom, bloom.bv
      ensures Marked(elems)
    {
      hide Bloom.Valid, Bloom.Low;
      bloom.Add(add.hashv);
    }

    lemma MarkedLess(es: set<Elem>)
      requires bloom != null && Marked(es) && elems <= es
      ensures Marked(elems)
    {
    }

    // ----- HASH_DELETE

    /** Takes an element out. */
    method Delete(del: Elem)
      requires Valid() && del in order
      modifies this, tbl, if tbl == null then {} else {tbl.buckets}, elems
      ensures Valid() && Dict() == old(Dict()) - {del.key}
      ensures RemovedFrom(old(order), del, order)
      ensures tbl == null || (tbl == old(tbl) && tbl.buckets == old(tbl.buckets))
      ensures (bloom == null || bloom == old(bloom)) && elems == old(elems) - {del}
    {
      hide Ends, Hashed, DictOf, UniqueKeys, Linked, Without, RemovedFrom, Pow2;
      ghost var i := PlaceInOrder(del);
      ghost var es := elems;
      if del.prev == null && del.next == null {
        head, tbl, bloom := null, null, null;
        order, elems := Without(order, i), {};
      } else {
        UnlinkApp(del, i);
        DeleteHashed(del, es);
        MarkedLess(es);
      }
    }

    /** Where an element stands in insertion order, and what remains without it; it is the only one
        exactly when both its links are null. */
    lemma PlaceInOrder(del: Elem) returns (i: nat)
      requires tbl != null && Ends() && del in order && UniqueKeys(order) && elems == set e | e in order
      ensures i < |order| && order[i] == del && del in elems && RemovedFrom(order, del, Without(order, i))
      ensures var o := Without(order, i);
        && UniqueKeys(o) && DictOf(o) == DictOf(order) - {del.key} && elems - {del} == (set e | e in o)
        && (if del.prev == null && del.next == null then |order| == 1 && o == [] && elems - {del} == {}
            else |order| > 1)
    {
      hide Linked, DictOf;
      i :| 0 <= i < |order| && order[i] == del;
      OrderFacts(i);
      DictWithout(order, i);
      WithoutElems<Elem>(order, i);
    }

    method UnlinkApp(del: Elem, ghost i: nat)
      requires tbl != null && Ends() && i < |order| && order[i] == del && |order| > 1
      requires elems == set e | e in order
      modifies this`head, this`order, this`elems, tbl`tail, elems`prev, elems`next
      ensures Ends() && order == Without(old(order), i) && elems == old(elems) - {del}
      ensures head != null
    {
      hide Ends, Linked, HashSort.AppSnap;
      RelinkApp(del, i);
      SetOrder(Without(order, i), elems - {del});
    }

    method RelinkApp(del: Elem, ghost i: nat)
      requires tbl != null && Ends() && i < |order| && order[i] == del && |order| > 1
      modifies this`head, tbl`tail, elems`prev, elems`next
      ensures Linked<Elem?>(HashSort.AppSnap(elems - {del}), Without(order, i), null)
      ensures head == Without(order, i)[0] && tbl.tail == Without(order, i)[|order| - 2]
    {
      hide Ends, Linked, HashSort.AppSnap, Unlinked;
      OrderFacts(i);
      ghost var h := HashSort.AppSnap(elems);
      UnhookApp(del, elems, order, i);
      LinksWithout(h, HashSort.AppSnap(elems), HashSort.AppSnap(elems - {del}), order, i);
    }

    lemma OrderFacts(i: nat)
      requires tbl != null && Ends() && i < |order|
      ensures Linked<Elem?>(HashSort.AppSnap(elems), order, null) && NoDup<Elem?>(order)
      ensures var e := order[i]; e.prev == Pred<Elem?>(order, i, null) && e.next == Succ<Elem?>(order, i, null)
      ensures head == order[0] && tbl.tail == order[|order| - 1] && forall e | e in order :: e in elems
    {
    }

    /** The "usual" patch-up of the insertion-order list. */
    method UnhookApp(del: Elem, ghost s: set<Elem>, ghost c: seq<Elem>, ghost i: nat)
      requires tbl != null && i < |c| && c[i] == del && |c| > 1 && NoDup<Elem?>(c)
      requires del.prev == Pred<Elem?>(c, i, null) && del.next == Succ<Elem?>(c, i, null)
      requires head == c[0] && tbl.tail == c[|c| - 1] && forall e | e in c :: e in s
      modifies this`head, tbl`tail, s`prev, s`next
      ensures Unlinked(old(HashSort.AppSnap(s)), HashSort.AppSnap(s), c, i)
      ensures head == Without(c, i)[0] && tbl.tail == Without(c, i)[|c| - 2]
    {
      if del == tbl.tail {
        tbl.tail := del.prev;
      }
      if del.prev != null {
        del.prev.next := del.next;
      } else {
        head := del.next;
      }
      if del.next != null {
        del.next.prev := del.prev;
      }
    }

    /** The bucket half of a deletion. */
    method DeleteHashed(del: Elem, ghost es: set<Elem>)
      requires tbl != null && Hashed(es) && del in es && elems == es - {del} && Ends()
      modifies tbl, tbl.buckets, es`hhPrev, es`hhNext
      ensures Hashed(elems) && Ends() && tbl.buckets == old(tbl.buckets)
    {
      hide Table.ChainsOk, Table.PolicyOk, Pow2, Slot, And, Linked, Table.Load, Ends;
      tbl.SizedOf();
      BktIsSlot(del.hashv, tbl.numBuckets, tbl.log2NumBuckets);
      var bkt := ToBkt(del.hashv, tbl.numBuckets);
      tbl.DelInBkt(bkt, del);
      tbl.numItems := tbl.numItems - 1;
    }

    // ----- HASH_SRT

    /** Sorts the insertion-order list; the buckets, and so every lookup, stay as they are. */
    method Srt(cmp: (Elem, Elem) -> int) returns (ghost calls: nat, ghost passes: nat)
      requires Valid() && TotalPreorder(cmp, elems)
      modifies this`head, this`order, this`elems, (if tbl == null then {} else {tbl})`tail, elems`prev, elems`next
      ensures Valid() && StableSort(cmp, order, old(order)) && Dict() == old(Dict()) && elems == old(elems)
      ensures HashSort.FewCalls(calls, passes, |order|)
    {
      hide Ends, Hashed, DictOf, UniqueKeys, Linked, StableSort;
      calls, passes := 0, 0;
      if head != null {
        ghost var o := order;
        calls, passes := SortLinks(cmp);
        SameElements(cmp, o, order);
        DictSame(o, order);
      } else {
        EmptySorted(cmp, order);
      }
    }

    method SortLinks(cmp: (Elem, Elem) -> int) returns (ghost calls: nat, ghost passes: nat)
      requires tbl != null && head != null && Ends() && TotalPreorder(cmp, elems)
      modifies this`head, this`order, this`elems, tbl`tail, elems`prev, elems`next
      ensures Ends() && head != null && StableSort(cmp, order, old(order)) && elems == old(elems)
      ensures |order| == |old(order)| && HashSort.FewCalls(calls, passes, |order|)
    {
      hide Linked, HashSort.AppSnap, HashSort.FewCalls, StableSort, TotalPreorder;
      OrderFacts(0);
      ghost var o;
      var tail;
      head, tail, o, calls, passes := HashSort.Sort(head, cmp, elems, order);
      tbl.tail := tail;
      SetOrder(o, elems);
    }

    /** HASH_COUNT */
    method Count() returns (n: nat)
      requires Valid()
      ensures n == |Dict()| == |order|
    {
      n := if head != null then tbl.numItems else 0;
      DictCard(order);
    }
  }

  lemma EmptySorted(cmp: (Elem, Elem) -> int, o: seq<Elem>)
    requires o == []
    ensures StableSort(cmp, o, o)
  {
  }

  lemma SameElements(cmp: (Elem, Elem) -> int, s: seq<Elem>, t: seq<Elem>)
    requires StableSort(cmp, t, s) && UniqueKeys(s)
    ensures UniqueKeys(t) && (forall e: Elem :: e in s <==> e in t)
  {
    forall e: Elem ensures e in s <==> e in t {
      assert e in multiset(s) <==> e in multiset(t);
    }
    assert forall i | 0 <= i < |t| :: t[i] in s;
    HashSort.NoDupPerm(s, t);
    forall i, j | 0 <= i < j < |t| ensures t[i].key != t[j].key {
      SameKeys(s, t[i], t[j]);
    }
  }

  lemma SameKeys(s: seq<Elem>, x: Elem, y: Elem)
    requires UniqueKeys(s) && x in s && y in s && x != y
    ensures x.key != y.key
  {
    var a :| 0 <= a < |s| && s[a] == x;
    var b :| 0 <= b < |s| && s[b] == y;
  }

  lemma SetOfAppend(t: seq<Elem>, x: Elem)
    ensures (set e | e in t + [x]) == (set e | e in t) + {x}
  {
  }

  lemma {:induction false} DictCard(s: seq<Elem>)
    requires UniqueKeys(s)
    ensures |DictOf(s)| == |s| == |set e | e in s|
  {
    if s != [] {
      var t, x := s[..|s| - 1], s[|s| - 1];
      assert s == t + [x];
      LastKey(t, x);
      DictCard(t);
      SetOfAppend(t, x);
      assert DictOf(s) == DictOf(t)[x.key := x];
    }
  }

  lemma LastKey(t: seq<Elem>, x: Elem)
    requires UniqueKeys(t + [x])
    ensures UniqueKeys(t) && x.key !in DictOf(t) && x !in t
  {
    var s := t + [x];
    assert forall i | 0 <= i < |t| :: s[i] == t[i] && s[i].key != s[|t|].key;
    DictElems(t);
  }

  lemma LinksWithout(h: HashSort.App, k: HashSort.App, k2: HashSort.App, c: seq<Elem>, i: nat)
    requires i < |c| && Linked<Elem?>(h, c, null) && Unlinked(h, k, c, i)
    requires forall n | n in k && n != c[i] :: n in k2 && k2[n] == k[n]
    ensures Linked<Elem?>(k2, Without(c, i), null)
  {
    Remove<Elem?>(h, k, c, i, null);
    Frame<Elem?>(k, k2, Without(c, i), null);
  }

  lemma FreshKey(s: seq<Elem>, x: Elem)
    requires UniqueKeys(s) && x.key !in DictOf(s)
    ensures UniqueKeys(s + [x])
  {
    DictElems(s);
  }
}
