/** The intrusive hash table: every element sits in the insertion-order list and
    in one bucket chain, and the table doubles its buckets adaptively. */
module Uthash {
  import opened Bits
  import opened Handles
  import opened LoadPolicy
  import opened Redistribution
  import opened Buckets
  import opened StableMerge
  import opened ListSort

  const INITIAL_NUM_BUCKETS: nat := 32
  const INITIAL_NUM_BUCKETS_LOG2: nat := 5

  lemma FewerElements(before: seq<Element>, after: seq<Element>)
    requires exists k :: 0 <= k < |before| && after == RemoveAt(before, k)
    ensures |after| < |before| && forall i :: 0 <= i < |after| ==> after[i] in before
  {
  }

  lemma MembersOfPermutation(r: seq<Element>, s: seq<Element>)
    requires multiset(r) == multiset(s)
    ensures Members(r) == Members(s)
  {
    SameMembers(r, s);
    assert forall e :: e in Members(r) <==> e in Members(s);
  }

  /** Sorting permutes the list. */
  lemma SortedMembers(s: seq<Element>, le: Order)
    requires TotalPreorder(le, Members(s))
    ensures StableSortOf(SortFrom(s, 1, le), s, le)
    ensures Members(SortFrom(s, 1, le)) == Members(s)
  {
    hide SortFrom;
    SingletonRuns(s, le);
    SortIsStable(s, 1, le, Members(s));
    MembersOfPermutation(SortFrom(s, 1, le), s);
  }

  lemma EmptyIsSorted(s: seq<Element>, le: Order)
    requires s == []
    ensures StableSortOf(s, s, le)
  {
  }

  class HashTable {
    const hashFn: string -> nat
    var head: Element?
    var tail: Element?
    var buckets: array<Bucket>
    var numBuckets: nat
    var log2NumBuckets: nat
    var numItems: nat
    var idealChainMaxlen: nat
    var nonidealItems: nat
    var ineffExpands: nat
    var noexpand: bool

    ghost var app: seq<Element>            // the elements in list order
    ghost var chains: seq<seq<Element>>    // the elements of each bucket in chain order

    ghost predicate ListOk()
      reads this`head, this`tail, this`app, app`next, app`prev
    {
      Distinct(app) && head == At(app, 0) && (head != null ==> tail == At(app, |app| - 1)) && Listed(app)
    }

    ghost predicate ChainsOk(items: set<Element>)
      reads this`buckets, this`numBuckets, this`log2NumBuckets, this`chains, buckets
      reads items`hhNext, items`hhPrev, items`hashv
    {
      && Bucketed(items, hashFn, buckets, chains)
      && numBuckets == buckets.Length == |chains| == Pow2(log2NumBuckets)
      && (forall e :: e in items ==> e.hashv == HashOf(hashFn, e.key))
    }

    ghost predicate CountsOk(n: nat)
      reads this`buckets, this`numItems, this`noexpand, buckets
    {
      numItems == n == SumCount(buckets[..]) && (!noexpand ==> LoadBound(buckets[..]))
    }

    /** While head is null there is no table: its memory has been freed. */
    ghost predicate Valid()
      reads this, buckets, app
    {
      ListOk() && (head != null ==> ChainsOk(Members(app)) && CountsOk(|app|))
    }

    constructor (hashFn: string -> nat)
      ensures Valid() && app == [] && this.hashFn == hashFn && fresh(buckets)
    {
      this.hashFn := hashFn;
      head, tail, app, chains := null, null, [], [];
      buckets := new Bucket[0];
      numBuckets, log2NumBuckets, numItems, idealChainMaxlen, nonidealItems := 0, 0, 0, 0, 0;
      ineffExpands, noexpand := 0, false;
    }

    method AppendToList(add: Element)
      requires ListOk() && add !in app
      modifies this`head, this`tail, this`app, app`next, add`next, add`prev
      ensures ListOk() && app == old(app) + [add] && head != null
      ensures Members(app) == Members(old(app)) + {add}
    {
      add.next := null;
      if head == null {
        head := add;
        add.prev := null;
      } else {
        tail.next := add;
        add.prev := tail;
      }
      tail := add;
      app := app + [add];
    }

    method InitTable()
      modifies this`buckets, this`chains, this`numBuckets, this`log2NumBuckets, this`numItems
      modifies this`ineffExpands, this`noexpand, this`idealChainMaxlen, this`nonidealItems
      ensures ChainsOk({}) && CountsOk(0) && fresh(buckets)
      ensures numBuckets == INITIAL_NUM_BUCKETS && !noexpand && ineffExpands == 0
      ensures chains == seq(INITIAL_NUM_BUCKETS, _ => [])
      ensures buckets.Length == INITIAL_NUM_BUCKETS && forall i :: 0 <= i < buckets.Length ==> buckets[i] == Bucket(null, 0, 0)
    {
      hide SumCount, Nonideal, LoadBound, Multiplied, Distinct, Chained, Tallied, Selects;
      numItems, ineffExpands, noexpand, idealChainMaxlen, nonidealItems := 0, 0, false, 0, 0;
      numBuckets, log2NumBuckets := INITIAL_NUM_BUCKETS, INITIAL_NUM_BUCKETS_LOG2;
      buckets, chains := NewBucketArray(INITIAL_NUM_BUCKETS, hashFn, {}, 1);
      assert Pow2(5) == 32;
    }

    /** Doubles the number of buckets and redistributes the elements. */
    method Redistribute(ghost items: set<Element>)
      requires ChainsOk(items) && numItems == SumCount(buckets[..]) > 0
      modifies this`buckets, this`chains, this`numBuckets, this`log2NumBuckets
      modifies this`idealChainMaxlen, this`nonidealItems, items`hhNext, items`hhPrev
      ensures ChainsOk(items) && fresh(buckets) && |chains| == 2 * |old(chains)| > 0
      ensures forall i :: 0 <= i < |chains| ==> chains[i] == NewChain(old(chains), hashFn, i)
      ensures idealChainMaxlen == CeilDiv(numItems, |chains|) > 0
      ensures nonidealItems == Nonideal(buckets[..], idealChainMaxlen)
      ensures forall i :: 0 <= i < buckets.Length ==> Multiplied(buckets[i], idealChainMaxlen)
      ensures SumCount(buckets[..]) == numItems
    {
      hide SumCount, Nonideal, Multiplied, NewChain, Bucketed, CeilDiv;
      CeilDivLeast(numItems, 2 * numBuckets);
      assert Pow2(log2NumBuckets + 1) == 2 * numBuckets;
      idealChainMaxlen := IdealChainLength(numItems, numBuckets, log2NumBuckets);
      buckets, nonidealItems, chains := FillNewBuckets(buckets, log2NumBuckets, idealChainMaxlen, items, chains, hashFn);
      numBuckets, log2NumBuckets := numBuckets * 2, log2NumBuckets + 1;
    }

    /** An expansion, and its effect: two ineffective ones in a row inhibit any further one. */
    method ExpandBuckets(ghost items: set<Element>)
      requires ChainsOk(items) && numItems == SumCount(buckets[..]) > 0
      modifies this`buckets, this`chains, this`numBuckets, this`log2NumBuckets
      modifies this`idealChainMaxlen, this`nonidealItems, this`ineffExpands, this`noexpand
      modifies items`hhNext, items`hhPrev
      ensures ChainsOk(items) && fresh(buckets) && |chains| == 2 * |old(chains)| > 0
      ensures forall i :: 0 <= i < |chains| ==> chains[i] == NewChain(old(chains), hashFn, i)
      ensures idealChainMaxlen == CeilDiv(numItems, |chains|) > 0
      ensures nonidealItems == Nonideal(buckets[..], idealChainMaxlen)
      ensures forall i :: 0 <= i < buckets.Length ==> Multiplied(buckets[i], idealChainMaxlen)
      ensures SumCount(buckets[..]) == numItems
      ensures ineffExpands == if nonidealItems > numItems / 2 then old(ineffExpands) + 1 else 0
      ensures noexpand == (old(noexpand) || ineffExpands > 1)
    {
      hide ChainsOk, SumCount, Nonideal, Multiplied, NewChain, CeilDiv;
      Redistribute(items);
      ineffExpands := if nonidealItems > Shr(numItems, 1) then ineffExpands + 1 else 0;
      if ineffExpands > 1 {
        noexpand := true;
      }
    }

    /** The bucket an element would be added to is full and the table may double. */
    ghost predicate Doubles(key: string)
      requires numBuckets == buckets.Length > 0
      reads this`buckets, this`numBuckets, this`noexpand, buckets
    {
      var b := buckets[BucketOf(hashFn, numBuckets, key)];
      b.count + 1 >= (b.expandMult + 1) * CAPACITY && !noexpand
    }

    /** The policy's fields after a doubling. */
    ghost predicate AfterDoubling(ineffBefore: nat)
      reads this`buckets, this`numBuckets, this`numItems, this`idealChainMaxlen, this`nonidealItems
      reads this`ineffExpands, this`noexpand, buckets
    {
      && numBuckets > 0 && 1 <= idealChainMaxlen == CeilDiv(numItems, numBuckets) <= CAPACITY
      && nonidealItems == Nonideal(buckets[..], idealChainMaxlen)
      && (forall i :: 0 <= i < buckets.Length ==> Multiplied(buckets[i], idealChainMaxlen))
      && ineffExpands == (if nonidealItems > numItems / 2 then ineffBefore + 1 else 0)
      && noexpand == (ineffExpands > 1)
    }

    /** The policy's fields have not changed. */
    ghost predicate SameLimits(bs: seq<Bucket>, noexpand: bool, ineff: nat)
      reads this`buckets, this`ineffExpands, this`noexpand, buckets
    {
      && this.noexpand == noexpand && ineffExpands == ineff && buckets.Length == |bs|
      && (forall i :: 0 <= i < |bs| ==> buckets[i].expandMult == bs[i].expandMult)
    }

    /** No bucket may exceed ten, and the table may double. */
    ghost predicate Unstrained()
      reads this`buckets, this`noexpand, buckets
    {
      !noexpand && forall i :: 0 <= i < buckets.Length ==> buckets[i].expandMult == 0
    }

    method AddToBucket(add: Element, ghost items: set<Element>)
      requires ChainsOk(items) && numItems == SumCount(buckets[..]) + 1
      requires !noexpand ==> LoadBound(buckets[..])
      requires add !in items && add.hashv == HashOf(hashFn, add.key)
      modifies this`buckets, this`chains, this`numBuckets, this`log2NumBuckets, buckets
      modifies this`idealChainMaxlen, this`nonidealItems, this`ineffExpands, this`noexpand
      modifies items`hhNext, items`hhPrev, add`hhNext, add`hhPrev
      ensures ChainsOk(items + {add}) && CountsOk(old(numItems))
      ensures buckets == old(buckets) || fresh(buckets)
      ensures ChainsAfterAdd(old(chains), add, hashFn, old(Doubles(add.key)), chains)
      ensures old(Doubles(add.key)) ==> AfterDoubling(old(ineffExpands))
      ensures !old(Doubles(add.key)) ==> buckets == old(buckets) && SameLimits(old(buckets[..]), old(noexpand), old(ineffExpands))
    {
      hide Bucketed, SumCount, Nonideal, LoadBound, CeilDiv, NewChain;
      ghost var bs := buckets[..];
      ghost var before := chains;
      var bkt;
      bkt, chains := PushOnChain(add, buckets, log2NumBuckets, items, chains, hashFn);
      ghost var full := Bucket(add, bs[bkt].count + 1, bs[bkt].expandMult);
      SumsOfUpdate(bs, bkt, full, 0);
      if buckets[bkt].count >= (buckets[bkt].expandMult + 1) * CAPACITY && !noexpand {
        IdealAtExpansion(bs, bkt, full, CeilDiv(SumCount(bs[bkt := full]), 2 * |bs|));
        ExpandBuckets(items + {add});
        ExpansionRestoresBound(buckets[..], idealChainMaxlen);
      } else if !noexpand {
        GrowKeepsBound(bs, bkt, full);
      }
    }

    lemma EmptyList()
      requires ListOk() && head == null
      ensures app == [] && Members(app) == {}
    {
    }

    lemma TableExists()
      requires ChainsOk(Members(app))
      ensures |chains| == numBuckets == buckets.Length > 0
    {
    }

    /** HASH_ADD: appends to the list, pushes on the chain, and doubles the table
        when the bucket is full. Adding to an empty table creates it. */
    method Add(add: Element)
      requires Valid() && add !in app
      modifies this, buckets, app, add
      ensures Valid() && app == old(app) + [add]
      ensures buckets == old(buckets) || fresh(buckets)
      ensures old(head) != null ==> ChainsAfterAdd(old(chains), add, hashFn, old(Doubles(add.key)), chains)
      ensures old(head) == null ==> ChainsAfterAdd(seq(INITIAL_NUM_BUCKETS, _ => []), add, hashFn, false, chains)
      ensures old(head != null && Doubles(add.key)) ==> AfterDoubling(old(ineffExpands))
      ensures old(head != null && !Doubles(add.key)) ==>
                buckets == old(buckets) && SameLimits(old(buckets[..]), old(noexpand), old(ineffExpands))
      ensures old(head) == null ==> Unstrained() && ineffExpands == 0
    {
      hide ListOk, ChainsOk, SumCount, LoadBound, CeilDiv, ChainsAfterAdd, BucketOf;
      if head == null {
        EmptyList();
        InitTable();
      } else {
        TableExists();
      }
      ghost var items := Members(app);
      AppendToList(add);
      numItems := numItems + 1;
      add.hashv := HashOf(hashFn, add.key);
      AddToBucket(add, items);
    }

    /** HASH_FIND: looks only at the chain the key's hash selects. */
    method Find(key: string) returns (out: Element?)
      requires Valid()
      ensures head != null ==> |chains| > 0 && out == FirstWithKey(chains[BucketOf(hashFn, |chains|, key)], key)
      ensures out == null <==> FirstWithKey(app, key) == null
      ensures out != null ==> out in app && out.key == key
      ensures UniqueKeys(app) ==> out == FirstWithKey(app, key)
    {
      out := head;
      if head != null {
        var bkt := ToBucket(HashOf(hashFn, key), numBuckets, log2NumBuckets, hashFn, key);
        out := FindInChain(buckets[bkt].hhHead, key, chains[bkt], Members(app));
        ChainScanAgrees(app, chains, hashFn, key);
        FirstWithKeyFound(chains[bkt], key);
      }
    }

    lemma NotEmpty(e: Element)
      requires Valid() && e in app
      ensures head != null && |chains| > 0
    {
    }

    lemma InItsChain(e: Element, items: set<Element>)
      requires ChainsOk(items) && e in items
      ensures |chains| > 0 && e in chains[BucketOf(hashFn, |chains|, e.key)]
    {
    }

    method DeleteFromList(del: Element)
      requires ListOk() && del in app
      modifies this`head, this`tail, this`app, app`next, app`prev
      ensures ListOk() && app == RemoveAt(old(app), IndexOf(old(app), del))
      ensures Members(app) == Members(old(app)) - {del}
      ensures |app| == |old(app)| - 1 && (head != null <==> |app| > 0)
    {
      hide Listed, Distinct;
      ghost var s, k := app, IndexOf(app, del);
      RemoveAtMembers(s, k);
      head, tail := UnlinkFromList(head, tail, del, app, k);
      app := RemoveAt(s, k);
    }

    method DeleteFromBucket(del: Element, ghost items: set<Element>)
      requires ChainsOk(items) && numItems == SumCount(buckets[..]) && del in items
      requires !noexpand ==> LoadBound(buckets[..])
      modifies this`chains, this`numItems, buckets, items`hhNext, items`hhPrev
      ensures ChainsOk(items - {del}) && numItems == old(numItems) - 1 && CountsOk(numItems)
      ensures |old(chains)| > 0 && ChainsAfterDelete(old(chains), del, hashFn, chains)
    {
      hide Bucketed, SumCount, LoadBound, RemoveAt, At, BucketOf;
      InItsChain(del, items);
      var bkt := ToBucket(del.hashv, numBuckets, log2NumBuckets, hashFn, del.key);
      ghost var bs := buckets[..];
      chains := UnlinkFromChain(del, buckets, bkt, items, chains, hashFn);
      SumsOfUpdate(bs, bkt, buckets[bkt], 0);
      if !noexpand {
        ShrinkKeepsBound(bs, bkt, buckets[bkt]);
      }
      numItems := numItems - 1;
    }

    /** HASH_DELETE: unlinks from both structures; deleting the last element frees the table. */
    method Delete(del: Element)
      requires Valid() && del in app
      modifies this, buckets, app
      ensures Valid() && app == RemoveAt(old(app), IndexOf(old(app), del))
      ensures buckets == old(buckets)
      ensures |old(chains)| > 0
      ensures head != null ==> ChainsAfterDelete(old(chains), del, hashFn, chains)
    {
      hide ListOk, ChainsOk, SumCount, LoadBound, RemoveAt, ChainsAfterDelete, BucketOf;
      NotEmpty(del);
      ghost var items := Members(app);
      DeleteFromList(del);
      if head != null {
        DeleteFromBucket(del, items);
      }
    }

    /** Deletes the head until the table is gone. */
    method DeleteAll()
      requires Valid()
      modifies this, buckets, app
      ensures Valid() && app == [] && head == null && buckets == old(buckets)
    {
      hide ListOk, ChainsOk, CountsOk, ChainsAfterDelete;
      HeadInList();
      while head != null
        invariant Valid() && buckets == old(buckets)
        invariant forall i :: 0 <= i < |app| ==> app[i] in old(app)
        invariant head != null ==> head in app
        decreases |app|
      {
        ghost var before := app;
        Delete(head);
        FewerElements(before, app);
        HeadInList();
      }
      HeadInList();
    }

    lemma HeadInList()
      requires Valid()
      ensures head == null <==> app == []
      ensures head != null ==> head in app
    {
    }

    /** HASH_SRT: sorts the insertion-order list; the chains keep their links. */
    method Sort(le: Order)
      requires Valid() && TotalPreorder(le, Members(app))
      modifies this`head, this`tail, this`app, app`next, app`prev
      ensures Valid() && StableSortOf(app, old(app), le)
      ensures chains == old(chains)
    {
      hide ChainsOk, SumCount, LoadBound, Listed, Distinct, SortFrom, StableSortOf;
      if head != null {
        ghost var s := app;
        head, tail := SortList(head, le, app);
        SortedMembers(s, le);
        app := SortFrom(s, 1, le);
      } else {
        HeadInList();
        EmptyIsSorted(app, le);
      }
    }

    /** While the table may still double, the multipliers and the buckets at their limit
        are together no more than the buckets, which bounds the load. */
    lemma LoadIsBounded()
      requires Valid() && head != null && !noexpand
      ensures |chains| == numBuckets == buckets.Length
      ensures forall b :: 0 <= b < numBuckets ==> |chains[b]| <= 10 * (buckets[b].expandMult + 1)
      ensures SumMult(buckets[..]) + AtLimit(buckets[..]) <= numBuckets
      ensures numItems <= 19 * numBuckets
    {
      hide SumCount, SumMult, AtLimit, Chained, Partition, Pow2, Distinct, Listed;
      LoadFactor(buckets[..]);
      forall b | 0 <= b < numBuckets
        ensures |chains[b]| <= 10 * (buckets[b].expandMult + 1)
      {
        assert buckets[..][b].count == |chains[b]|;
      }
    }
  }
}
