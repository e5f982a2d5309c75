/** HASH_FSCK, the table's own integrity check, and the proof that every valid
    table passes it. The check itself only needs to be able to walk the table. */
module Fsck {
  import opened Handles
  import opened LoadPolicy
  import opened Buckets
  import opened Uthash

  ghost function Total(chains: seq<seq<Element>>): nat {
    if chains == [] then 0 else Total(chains[..|chains| - 1]) + |chains[|chains| - 1]|
  }

  ghost predicate ForwardLinked(s: seq<Element>)
    reads s`next
  {
    forall i {:trigger s[i].next} :: 0 <= i < |s| ==> s[i].next == At(s, i + 1)
  }

  ghost predicate BackwardLinked(s: seq<Element>)
    reads s`prev
  {
    forall i {:trigger s[i].prev} :: 0 <= i < |s| ==> s[i].prev == At(s, i - 1)
  }

  ghost predicate ChainBackward(chain: seq<Element>)
    reads chain`hhPrev
  {
    forall j {:trigger chain[j].hhPrev} :: 0 <= j < |chain| ==> chain[j].hhPrev == At(chain, j - 1)
  }

  /** The chains can be walked forwards. */
  ghost predicate ChainsWalkable(t: HashTable)
    reads t, t.buckets, t.app
  {
    && t.numBuckets == t.buckets.Length == |t.chains|
    && (forall b {:trigger t.chains[b]} :: 0 <= b < |t.chains| ==>
          t.buckets[b].hhHead == At(t.chains[b], 0) && Forward(t.chains[b], Members(t.app)))
  }

  /** The table can be walked: forward links only. */
  ghost predicate Walkable(t: HashTable)
    reads t, t.buckets, t.app
  {
    t.head == At(t.app, 0) && ForwardLinked(t.app) && (t.head != null ==> ChainsWalkable(t))
  }

  /** The chain of bucket b is linked backwards and has as many elements as the bucket counts. */
  ghost predicate BucketSound(t: HashTable, b: nat)
    requires ChainsWalkable(t) && b < |t.chains|
    reads t, t.buckets, t.app
  {
    ChainBackward(t.chains[b]) && t.buckets[b].count == |t.chains[b]|
  }

  /** Everything the check looks at is in order. */
  ghost predicate Passes(t: HashTable)
    requires Walkable(t)
    reads t, t.buckets, t.app
  {
    t.head != null ==>
      && (forall b :: 0 <= b < |t.chains| ==> BucketSound(t, b))
      && Total(t.chains) == t.numItems
      && BackwardLinked(t.app)
      && |t.app| == t.numItems
  }

  /** Checks the hh_prev links of a chain and counts it. */
  method CheckChain(first: Element?, ghost chain: seq<Element>, ghost items: set<Element>) returns (ok: bool, count: nat)
    requires Forward(chain, items) && first == At(chain, 0)
    ensures count == |chain| && ok == ChainBackward(chain)
  {
    var thh, prev := first, null;
    ok, count := true, 0;
    while thh != null
      invariant count <= |chain| && thh == At(chain, count) && prev == At(chain, count - 1)
      invariant ok <==> forall j {:trigger chain[j].hhPrev} :: 0 <= j < count ==> chain[j].hhPrev == At(chain, j - 1)
      decreases |chain| - count
    {
      assert thh == chain[count];
      if prev != thh.hhPrev {
        ok := false;
      }
      count := count + 1;
      prev := thh;
      thh := thh.hhNext;
    }
  }

  /** Checks the prev links of the list and counts its elements. */
  method CheckList(head: Element?, ghost s: seq<Element>) returns (ok: bool, count: nat)
    requires ForwardLinked(s) && head == At(s, 0)
    ensures count == |s| && ok == BackwardLinked(s)
  {
    var thh, prev := head, null;
    ok, count := true, 0;
    while thh != null
      invariant count <= |s| && thh == At(s, count) && prev == At(s, count - 1)
      invariant ok <==> forall i {:trigger s[i].prev} :: 0 <= i < count ==> s[i].prev == At(s, i - 1)
      decreases |s| - count
    {
      assert thh == s[count];
      count := count + 1;
      if prev != thh.prev {
        ok := false;
      }
      prev := thh;
      thh := thh.next;
    }
  }

  /** HASH_FSCK answers whether the table it can walk passes. */
  method Check(t: HashTable) returns (ok: bool)
    requires Walkable(t)
    ensures ok == Passes(t)
  {
    hide Forward, ChainBackward, BackwardLinked, ForwardLinked;
    ok := true;
    if t.head != null {
      var keylen := 0;
      ghost var bad := 0;
      for b := 0 to t.numBuckets
        invariant keylen == Total(t.chains[..b])
        invariant ok ==> forall c :: 0 <= c < b ==> BucketSound(t, c)
        invariant !ok ==> bad < b && !BucketSound(t, bad)
      {
        var chainOk, count := CheckChain(t.buckets[b].hhHead, t.chains[b], Members(t.app));
        assert BucketSound(t, b) <==> chainOk && t.buckets[b].count == count;
        keylen := keylen + count;
        if !chainOk || t.buckets[b].count != count {
          ok, bad := false, b;
        }
        assert t.chains[..b + 1][..b] == t.chains[..b];
      }
      assert t.chains[..t.numBuckets] == t.chains;
      if keylen != t.numItems {
        ok := false;
      }
      var listOk, count := CheckList(t.head, t.app);
      if !listOk || count != t.numItems {
        ok := false;
      }
    }
  }

  lemma {:induction false} TotalIsSum(bs: seq<Bucket>, chains: seq<seq<Element>>)
    requires Tallied(bs, chains)
    ensures Total(chains) == SumCount(bs)
  {
    if bs != [] {
      TotalIsSum(bs[..|bs| - 1], chains[..|chains| - 1]);
    }
  }

  lemma ChainForward(chains: seq<seq<Element>>, items: set<Element>, b: nat)
    requires DrawnFrom(chains, items) && Chained(chains, items) && b < |chains|
    ensures Forward(chains[b], items) && ChainBackward(chains[b])
  {
  }

  /** Whatever operations led to it, a valid table passes. */
  lemma ValidPasses(t: HashTable)
    requires t.Valid()
    ensures Walkable(t) && Passes(t)
  {
    hide Forward, ChainBackward, Chained, Sifted, LoadBound;
    if t.head != null {
      TotalIsSum(t.buckets[..], t.chains);
      forall b | 0 <= b < |t.chains|
        ensures t.buckets[b].hhHead == At(t.chains[b], 0) && t.buckets[b].count == |t.chains[b]|
        ensures Forward(t.chains[b], Members(t.app)) && ChainBackward(t.chains[b])
      {
        ChainForward(t.chains, Members(t.app), b);
        assert t.buckets[..][b] == t.buckets[b];
      }
    }
  }
}
