/** The bucket chains: pushing, unlinking and walking them, and moving every
    element to a doubled bucket array. */
module Buckets {
  import opened Bits
  import opened Handles
  import opened LoadPolicy
  import opened Redistribution

  /** The new bucket array while an expansion is filling it: `chains` are its
      chains, their elements come from `items`, and every bucket carries the
      multiplier its count calls for. */
  ghost predicate Filling(items: set<Element>, h: string -> nat, buckets: array<Bucket>,
                          chains: seq<seq<Element>>, ideal: nat)
    requires ideal > 0
    reads buckets, items`hhNext, items`hhPrev
  {
    && |chains| == buckets.Length
    && DrawnFrom(chains, items) && Sifted(chains, h) && Chained(chains, items)
    && Tallied(buckets[..], chains)
    && (forall i :: 0 <= i < buckets.Length ==> Multiplied(buckets[i], ideal))
  }

  ghost predicate OnNoChain(chains: seq<seq<Element>>, e: Element) {
    forall b, j {:trigger chains[b][j]} :: 0 <= b < |chains| && 0 <= j < |chains[b]| ==> chains[b][j] != e
  }

  /** Links an element in at the front of chain b. */
  method LinkFront(add: Element, first: Element?, ghost items: set<Element>,
                   ghost chains: seq<seq<Element>>, ghost b: nat, ghost h: string -> nat)
    returns (ghost chains': seq<seq<Element>>)
    requires DrawnFrom(chains, items) && Chained(chains, items) && OnNoChain(chains, add)
    requires Sifted(chains, h)
    requires b < |chains| && first == At(chains[b], 0)
    modifies items`hhPrev, add`hhNext, add`hhPrev
    ensures chains' == chains[b := [add] + chains[b]]
    ensures DrawnFrom(chains', items + {add}) && Chained(chains', items + {add})
  {
    add.hhNext := first;
    add.hhPrev := null;
    if first != null {
      first.hhPrev := add;
    }
    chains' := chains[b := [add] + chains[b]];
  }

  /** The chain can be walked forwards. */
  ghost predicate Forward(chain: seq<Element>, items: set<Element>)
    reads items`hhNext
  {
    && (forall j :: 0 <= j < |chain| ==> chain[j] in items)
    && (forall j {:trigger chain[j].hhNext} :: 0 <= j < |chain| ==> chain[j].hhNext == At(chain, j + 1))
  }

  /** New chain i once the first k elements of an old chain have been moved. */
  ghost function MovedTo(c: seq<Element>, k: nat, h: string -> nat, filled: seq<seq<Element>>, i: nat): seq<Element>
    requires k <= |c| && i < |filled|
  {
    Reversed(Selected(c[..k], h, |filled|, i)) + filled[i]
  }

  lemma OneMoreMoved(c: seq<Element>, k: nat, h: string -> nat, filled: seq<seq<Element>>,
                     before: seq<seq<Element>>, after: seq<seq<Element>>)
    requires k < |c| && |before| == |filled| > 0
    requires forall i :: 0 <= i < |filled| ==> before[i] == MovedTo(c, k, h, filled, i)
    requires var x := BucketOf(h, |filled|, c[k].key); after == before[x := [c[k]] + before[x]]
    ensures forall i :: 0 <= i < |filled| ==> after[i] == MovedTo(c, k + 1, h, filled, i)
  {
    forall i | 0 <= i < |filled| ensures after[i] == MovedTo(c, k + 1, h, filled, i) {
      SelectedStep(c, k, h, |filled|, i);
    }
  }

  /** The bucket heads and counters agree with the chains. */
  ghost predicate Tallied(bs: seq<Bucket>, chains: seq<seq<Element>>) {
    && |bs| == |chains|
    && (forall i :: 0 <= i < |bs| ==> bs[i].hhHead == At(chains[i], 0) && bs[i].count == |chains[i]|)
  }

  lemma TallyPush(bs: seq<Bucket>, chains: seq<seq<Element>>, i: nat, e: Element, mult: nat)
    requires Tallied(bs, chains) && i < |bs|
    ensures Tallied(bs[i := Bucket(e, bs[i].count + 1, mult)], chains[i := [e] + chains[i]])
  {
  }

  lemma SiftPush(chains: seq<seq<Element>>, h: string -> nat, i: nat, e: Element)
    requires Sifted(chains, h) && i < |chains| && Selects(h, |chains|, i, e) && OnNoChain(chains, e)
    ensures Sifted(chains[i := [e] + chains[i]], h)
  {
  }

  /** Only the elements already walked have reached the new buckets. */
  lemma NotMovedYet(c: seq<Element>, k: nat, h: string -> nat, filled: seq<seq<Element>>, filled': seq<seq<Element>>)
    requires Distinct(c) && k < |c| && |filled'| == |filled| > 0
    requires forall i, j {:trigger filled[i][j]} :: 0 <= i < |filled| && 0 <= j < |filled[i]| ==> filled[i][j] !in c
    requires forall i :: 0 <= i < |filled| ==> filled'[i] == MovedTo(c, k, h, filled, i)
    ensures OnNoChain(filled', c[k])
  {
    forall i, j | 0 <= i < |filled'| && 0 <= j < |filled'[i]| ensures filled'[i][j] != c[k] {
      var s := Selected(c[..k], h, |filled|, i);
      ReversedMembers(s);
      SelectedMembers(c[..k], h, |filled|, i);
      if j < |s| {
        assert filled'[i][j] in Reversed(s);
      } else {
        assert filled'[i][j] == filled[i][j - |s|];
      }
    }
  }

  /** HASH_TO_BKT: selects a bucket with a mask. */
  method ToBucket(hashv: nat, numBuckets: nat, log2: nat, ghost h: string -> nat, ghost key: string) returns (bkt: nat)
    requires numBuckets == Pow2(log2) && hashv == HashOf(h, key)
    ensures bkt == BucketOf(h, numBuckets, key)
  {
    bkt := And(hashv, numBuckets - 1);
    MaskIsRemainder(hashv, log2);
  }

  /** Moves one element to the new bucket its hash selects. */
  method MoveElement(e: Element, buckets: array<Bucket>, log2: nat, ideal: nat, nonideal: nat,
                     ghost items: set<Element>, ghost chains: seq<seq<Element>>, ghost h: string -> nat)
    returns (nonideal': nat, ghost chains': seq<seq<Element>>)
    requires ideal > 0 && Filling(items, h, buckets, chains, ideal)
    requires buckets.Length == Pow2(log2)
    requires e in items && e.hashv == HashOf(h, e.key) && OnNoChain(chains, e)
    requires nonideal == Nonideal(buckets[..], ideal)
    modifies buckets, items`hhPrev, e`hhNext
    ensures Filling(items, h, buckets, chains', ideal)
    ensures |chains'| == |chains|
    ensures var i := BucketOf(h, |chains|, e.key); chains' == chains[i := [e] + chains[i]]
    ensures nonideal' == Nonideal(buckets[..], ideal)
    ensures SumCount(buckets[..]) == old(SumCount(buckets[..])) + 1
  {
    hide SumCount, Nonideal, BucketOf, Distinct, Pow2;
    var bkt := ToBucket(e.hashv, buckets.Length, log2, h, e.key);
    var b := buckets[bkt];
    var count := b.count + 1;
    var mult := b.expandMult;
    nonideal' := nonideal;
    if count > ideal {
      nonideal' := nonideal + 1;
      mult := count / ideal;
    }
    SumsOfUpdate(buckets[..], bkt, Bucket(e, count, mult), ideal);
    TallyPush(buckets[..], chains, bkt, e, mult);
    SiftPush(chains, h, bkt, e);
    chains' := LinkFront(e, b.hhHead, items, chains, bkt, h);
    assert items + {e} == items;
    assert Multiplied(Bucket(e, count, mult), ideal);
    buckets[bkt] := Bucket(e, count, mult);
    assert buckets[..] == old(buckets[..])[bkt := Bucket(e, count, mult)];
  }

  /** Moves every element of an old chain to the new buckets. */
  method MoveChain(first: Element?, buckets: array<Bucket>, log2: nat, ideal: nat, nonideal: nat,
                   ghost c: seq<Element>, ghost items: set<Element>, ghost filled: seq<seq<Element>>, ghost h: string -> nat)
    returns (nonideal': nat, ghost filled': seq<seq<Element>>)
    requires Distinct(c) && Forward(c, items) && first == At(c, 0)
    requires forall e :: e in items ==> e.hashv == HashOf(h, e.key)
    requires ideal > 0 && Filling(items, h, buckets, filled, ideal) && buckets.Length == Pow2(log2)
    requires forall i, j {:trigger filled[i][j]} :: 0 <= i < |filled| && 0 <= j < |filled[i]| ==> filled[i][j] !in c
    requires nonideal == Nonideal(buckets[..], ideal)
    modifies buckets, items`hhPrev, c`hhNext
    ensures Filling(items, h, buckets, filled', ideal)
    ensures |filled'| == |filled| && forall i :: 0 <= i < |filled| ==> filled'[i] == MovedTo(c, |c|, h, filled, i)
    ensures nonideal' == Nonideal(buckets[..], ideal)
    ensures SumCount(buckets[..]) == old(SumCount(buckets[..])) + |c|
  {
    hide Chained, Tallied, Multiplied, Selects, SumCount, Nonideal;
    ghost var k := 0;
    var thh := first;
    nonideal', filled' := nonideal, filled;
    while thh != null
      invariant k <= |c| && thh == At(c, k)
      invariant forall j {:trigger c[j].hhNext} :: k <= j < |c| ==> c[j].hhNext == At(c, j + 1)
      invariant Filling(items, h, buckets, filled', ideal)
      invariant |filled'| == |filled| && forall i :: 0 <= i < |filled| ==> filled'[i] == MovedTo(c, k, h, filled, i)
      invariant nonideal' == Nonideal(buckets[..], ideal)
      invariant SumCount(buckets[..]) == old(SumCount(buckets[..])) + k
      decreases |c| - k
    {
      var hhNxt := thh.hhNext;
      assert thh == c[k];
      ghost var before := filled';
      NotMovedYet(c, k, h, filled, filled');
      nonideal', filled' := MoveElement(thh, buckets, log2, ideal, nonideal', items, filled', h);
      OneMoreMoved(c, k, h, filled, before, filled');
      thh := hhNxt;
      k := k + 1;
    }
  }

  /** The bucket array holds the given chains, and they partition the items. */
  ghost predicate Bucketed(items: set<Element>, h: string -> nat, buckets: array<Bucket>, chains: seq<seq<Element>>)
    reads buckets, items`hhNext, items`hhPrev
  {
    Partition(items, chains, h) && Tallied(buckets[..], chains) && Chained(chains, items)
  }

  /** Pushes an element at the front of the chain its hash selects. */
  method PushOnChain(add: Element, buckets: array<Bucket>, log2: nat,
                     ghost items: set<Element>, ghost chains: seq<seq<Element>>, ghost h: string -> nat)
    returns (bkt: nat, ghost chains': seq<seq<Element>>)
    requires Bucketed(items, h, buckets, chains) && buckets.Length == Pow2(log2)
    requires add !in items && add.hashv == HashOf(h, add.key)
    modifies buckets, items`hhPrev, add`hhNext, add`hhPrev
    ensures Bucketed(items + {add}, h, buckets, chains')
    ensures bkt < buckets.Length == |chains| && bkt == BucketOf(h, buckets.Length, add.key)
    ensures chains' == chains[bkt := [add] + chains[bkt]]
    ensures var o := old(buckets[bkt]); buckets[..] == old(buckets[..])[bkt := Bucket(add, o.count + 1, o.expandMult)]
  {
    hide BucketOf, Pow2;
    bkt := ToBucket(add.hashv, buckets.Length, log2, h, add.key);
    var b := buckets[bkt];
    PushKeepsPartition(items, chains, h, add, bkt);
    TallyPush(buckets[..], chains, bkt, add, b.expandMult);
    chains' := LinkFront(add, b.hhHead, items, chains, bkt, h);
    buckets[bkt] := Bucket(add, b.count + 1, b.expandMult);
    assert buckets[..] == old(buckets[..])[bkt := Bucket(add, b.count + 1, b.expandMult)];
  }

  /** New chain i once the first b old chains have been moved. */
  ghost function FilledUpTo(chains: seq<seq<Element>>, h: string -> nat, b: nat, i: nat): seq<Element>
    requires |chains| > 0
  {
    if Fold(i, |chains|) < b then NewChain(chains, h, i) else []
  }

  /** Nothing of old chain b has reached the new buckets before its turn. */
  lemma NotFilledYet(chains: seq<seq<Element>>, h: string -> nat, b: nat, filled: seq<seq<Element>>)
    requires Sifted(chains, h) && b < |chains| && |filled| == 2 * |chains|
    requires forall i :: 0 <= i < |filled| ==> filled[i] == FilledUpTo(chains, h, b, i)
    ensures forall i, j {:trigger filled[i][j]} :: 0 <= i < |filled| && 0 <= j < |filled[i]| ==> filled[i][j] !in chains[b]
  {
    forall i, j | 0 <= i < |filled| && 0 <= j < |filled[i]| ensures filled[i][j] !in chains[b] {
      NewChainMembers(chains, h, i);
      var e := filled[i][j];
      assert e in chains[Fold(i, |chains|)];
      OneBucketOnly(chains, h, Fold(i, |chains|), b, e);
    }
  }

  lemma OneBucketOnly(chains: seq<seq<Element>>, h: string -> nat, b: nat, c: nat, e: Element)
    requires Sifted(chains, h) && b < |chains| && c < |chains| && b != c && e in chains[b]
    ensures e !in chains[c]
  {
    var j :| 0 <= j < |chains[b]| && chains[b][j] == e;
    assert Selects(h, |chains|, b, chains[b][j]);
    forall k | 0 <= k < |chains[c]| ensures chains[c][k] != e {
      assert Selects(h, |chains|, c, chains[c][k]);
    }
  }

  lemma LaterElsewhere(chains: seq<seq<Element>>, h: string -> nat, b: nat)
    requires Sifted(chains, h) && b < |chains|
    ensures forall c, j {:trigger chains[c][j]} :: b < c < |chains| && 0 <= j < |chains[c]| ==> chains[c][j] !in chains[b]
  {
    forall c, j | b < c < |chains| && 0 <= j < |chains[c]| ensures chains[c][j] !in chains[b] {
      OneBucketOnly(chains, h, c, b, chains[c][j]);
    }
  }

  lemma SumOfPrefix(bs: seq<Bucket>, b: nat)
    requires b <= |bs|
    ensures b < |bs| ==> SumCount(bs[..b + 1]) == SumCount(bs[..b]) + bs[b].count
    ensures bs[..|bs|] == bs
  {
    if b < |bs| {
      assert bs[..b + 1][..b] == bs[..b];
    }
  }

  /** Moving old chain b completes the new chains that fold back onto it. */
  lemma OneMoreFilled(chains: seq<seq<Element>>, h: string -> nat, b: nat,
                      before: seq<seq<Element>>, after: seq<seq<Element>>)
    requires Sifted(chains, h) && b < |chains| && |before| == |after| == 2 * |chains|
    requires forall i :: 0 <= i < |before| ==> before[i] == FilledUpTo(chains, h, b, i)
    requires forall i :: 0 <= i < |before| ==> after[i] == MovedTo(chains[b], |chains[b]|, h, before, i)
    ensures forall i :: 0 <= i < |after| ==> after[i] == FilledUpTo(chains, h, b + 1, i)
  {
    var c := chains[b];
    assert c[..|c|] == c;
    forall i | 0 <= i < |after| ensures after[i] == FilledUpTo(chains, h, b + 1, i) {
      if Fold(i, |chains|) != b {
        forall e | e in c ensures Selects(h, |chains|, b, e) {
          var j :| 0 <= j < |c| && c[j] == e;
          assert chains[b][j] == e;
        }
        SelectedElsewhere(c, h, |chains|, b, i);
      }
    }
  }

  /** The chains from b onwards can still be walked forwards. */
  ghost predicate ForwardFrom(chains: seq<seq<Element>>, b: nat, items: set<Element>)
    requires DrawnFrom(chains, items)
    reads items`hhNext
  {
    forall c, j {:trigger chains[c][j].hhNext} :: b <= c < |chains| && 0 <= j < |chains[c]| ==>
      chains[c][j].hhNext == At(chains[c], j + 1)
  }

  /** The length no chain would exceed if the items were spread evenly over the
      doubled buckets, computed with a shift and a mask. */
  method IdealChainLength(numItems: nat, numBuckets: nat, log2: nat) returns (ideal: nat)
    requires numBuckets == Pow2(log2)
    ensures ideal == CeilDiv(numItems, 2 * numBuckets)
  {
    assert Pow2(log2 + 1) == 2 * numBuckets;
    ideal := Shr(numItems, log2 + 1) + if And(numItems, numBuckets * 2 - 1) != 0 then 1 else 0;
    ShiftIsQuotient(numItems, log2 + 1);
    MaskIsRemainder(numItems, log2 + 1);
  }

  method NewBucketArray(n: nat, ghost h: string -> nat, ghost items: set<Element>, ghost ideal: nat)
    returns (buckets: array<Bucket>, ghost chains: seq<seq<Element>>)
    requires n > 0 && ideal > 0
    ensures fresh(buckets) && buckets.Length == n
    ensures chains == seq(n, _ => []) && forall i :: 0 <= i < n ==> buckets[i] == Bucket(null, 0, 0)
    ensures Filling(items, h, buckets, chains, ideal)
    ensures Nonideal(buckets[..], ideal) == SumCount(buckets[..]) == 0 && LoadBound(buckets[..])
  {
    buckets := new Bucket[n](_ => Bucket(null, 0, 0));
    chains := seq(n, _ => []);
    SumsOfEmpty(buckets[..], ideal);
  }

  /** The state of an expansion that has moved the first b old chains. */
  ghost predicate Migrating(bs: seq<Bucket>, newBuckets: array<Bucket>, b: nat, ideal: nat, nonideal: nat,
                            items: set<Element>, chains: seq<seq<Element>>, h: string -> nat, filled: seq<seq<Element>>)
    requires ideal > 0 && b <= |bs| == |chains|
    requires Sifted(chains, h) && DrawnFrom(chains, items)
    reads newBuckets, items`hhNext, items`hhPrev
  {
    && |filled| == 2 * |chains|
    && Filling(items, h, newBuckets, filled, ideal)
    && ForwardFrom(chains, b, items)
    && (forall i :: 0 <= i < |filled| ==> filled[i] == FilledUpTo(chains, h, b, i))
    && nonideal == Nonideal(newBuckets[..], ideal)
    && SumCount(newBuckets[..]) == SumCount(bs[..b])
  }

  lemma MigrationStarts(bs: seq<Bucket>, newBuckets: array<Bucket>, ideal: nat,
                        items: set<Element>, chains: seq<seq<Element>>, h: string -> nat, filled: seq<seq<Element>>)
    requires ideal > 0 && |bs| == |chains| && Sifted(chains, h)
    requires DrawnFrom(chains, items) && Chained(chains, items)
    requires filled == seq(2 * |chains|, _ => []) && Filling(items, h, newBuckets, filled, ideal)
    requires Nonideal(newBuckets[..], ideal) == SumCount(newBuckets[..]) == 0
    ensures Migrating(bs, newBuckets, 0, ideal, 0, items, chains, h, filled)
  {
    hide Filling, NewChain, Sifted;
  }

  lemma MigrationEnds(bs: seq<Bucket>, newBuckets: array<Bucket>, ideal: nat, nonideal: nat,
                      items: set<Element>, chains: seq<seq<Element>>, h: string -> nat, filled: seq<seq<Element>>)
    requires ideal > 0 && |bs| == |chains| && Sifted(chains, h) && DrawnFrom(chains, items)
    requires Migrating(bs, newBuckets, |bs|, ideal, nonideal, items, chains, h, filled)
    ensures |filled| == 2 * |chains| && Filling(items, h, newBuckets, filled, ideal)
    ensures forall i :: 0 <= i < |filled| ==> filled[i] == NewChain(chains, h, i)
    ensures nonideal == Nonideal(newBuckets[..], ideal)
    ensures SumCount(newBuckets[..]) == SumCount(bs)
  {
    hide Filling, NewChain, Sifted, Nonideal;
    SumOfPrefix(bs, |bs|);
  }

  /** Moves old chain b. */
  method MigrateChain(b: nat, first: Element?, newBuckets: array<Bucket>, log2: nat, ideal: nat, nonideal: nat,
                      ghost bs: seq<Bucket>, ghost items: set<Element>, ghost chains: seq<seq<Element>>,
                      ghost h: string -> nat, ghost filled: seq<seq<Element>>)
    returns (nonideal': nat, ghost filled': seq<seq<Element>>)
    requires ideal > 0 && b < |bs| == |chains| && newBuckets.Length == Pow2(log2)
    requires Sifted(chains, h) && DrawnFrom(chains, items)
    requires bs[b].count == |chains[b]| && first == At(chains[b], 0)
    requires forall e :: e in items ==> e.hashv == HashOf(h, e.key)
    requires Migrating(bs, newBuckets, b, ideal, nonideal, items, chains, h, filled)
    modifies newBuckets, items`hhNext, items`hhPrev
    ensures Migrating(bs, newBuckets, b + 1, ideal, nonideal', items, chains, h, filled')
  {
    hide FilledUpTo, MovedTo, SumCount, Nonideal, Multiplied, Tallied, Selects, Chained;
    NotFilledYet(chains, h, b, filled);
    LaterElsewhere(chains, h, b);
    SumOfPrefix(bs, b);
    nonideal', filled' := MoveChain(first, newBuckets, log2, ideal, nonideal, chains[b], items, filled, h);
    OneMoreFilled(chains, h, b, filled, filled');
  }

  /** The doubled bucket array holds the same items, in their new chains. */
  lemma FilledIsBucketed(items: set<Element>, h: string -> nat, buckets: array<Bucket>, ideal: nat,
                         chains: seq<seq<Element>>, filled: seq<seq<Element>>)
    requires Partition(items, chains, h) && |filled| == 2 * |chains|
    requires ideal > 0 && Filling(items, h, buckets, filled, ideal)
    requires forall i :: 0 <= i < |filled| ==> filled[i] == NewChain(chains, h, i)
    ensures Bucketed(items, h, buckets, filled)
    ensures forall i :: 0 <= i < buckets.Length ==> Multiplied(buckets[i], ideal)
  {
    hide Chained, Tallied, NewChain, Multiplied, Sifted, DrawnFrom;
    DoublingKeepsPartition(items, chains, h, filled);
  }

  /** Moves all elements into a bucket array of twice the size. */
  method FillNewBuckets(buckets: array<Bucket>, log2: nat, ideal: nat,
                        ghost items: set<Element>, ghost chains: seq<seq<Element>>, ghost h: string -> nat)
    returns (newBuckets: array<Bucket>, nonideal: nat, ghost filled: seq<seq<Element>>)
    requires ideal > 0 && Bucketed(items, h, buckets, chains) && buckets.Length == |chains| == Pow2(log2)
    requires forall e :: e in items ==> e.hashv == HashOf(h, e.key)
    modifies items`hhNext, items`hhPrev
    ensures fresh(newBuckets) && newBuckets.Length == |filled| == 2 * |chains|
    ensures Bucketed(items, h, newBuckets, filled)
    ensures forall i :: 0 <= i < newBuckets.Length ==> Multiplied(newBuckets[i], ideal)
    ensures forall i :: 0 <= i < |filled| ==> filled[i] == NewChain(chains, h, i)
    ensures nonideal == Nonideal(newBuckets[..], ideal)
    ensures SumCount(newBuckets[..]) == SumCount(buckets[..])
  {
    hide Migrating, Filling, SumCount, Nonideal, NewChain, Sifted, DrawnFrom, Chained;
    ghost var bs := buckets[..];
    newBuckets, filled := NewBucketArray(2 * buckets.Length, h, items, ideal);
    nonideal := 0;
    MigrationStarts(bs, newBuckets, ideal, items, chains, h, filled);
    for b := 0 to buckets.Length
      invariant Migrating(bs, newBuckets, b, ideal, nonideal, items, chains, h, filled)
    {
      nonideal, filled := MigrateChain(b, buckets[b].hhHead, newBuckets, log2 + 1, ideal, nonideal, bs, items, chains, h, filled);
    }
    MigrationEnds(bs, newBuckets, ideal, nonideal, items, chains, h, filled);
    FilledIsBucketed(items, h, newBuckets, ideal, chains, filled);
  }

  /** The first element of a sequence with the given key, as a linear scan finds it. */
  ghost function FirstWithKey(s: seq<Element>, key: string): Element? {
    if s == [] then null else if s[0].key == key then s[0] else FirstWithKey(s[1..], key)
  }

  lemma {:induction false} FirstWithKeyFound(s: seq<Element>, key: string)
    ensures FirstWithKey(s, key) == null <==> forall e :: e in s ==> e.key != key
    ensures FirstWithKey(s, key) != null ==> FirstWithKey(s, key) in s && FirstWithKey(s, key).key == key
  {
    if s != [] {
      FirstWithKeyFound(s[1..], key);
    }
  }

  ghost predicate UniqueKeys(s: seq<Element>) {
    forall i, j :: 0 <= i < j < |s| ==> s[i].key != s[j].key
  }

  /** Looking only at the chain the key's hash selects finds an element with that
      key exactly when the whole list holds one. */
  lemma ChainScanAgrees(app: seq<Element>, chains: seq<seq<Element>>, h: string -> nat, key: string)
    requires Partition(Members(app), chains, h)
    ensures var c := chains[BucketOf(h, |chains|, key)];
            && (FirstWithKey(c, key) == null <==> FirstWithKey(app, key) == null)
            && (FirstWithKey(c, key) != null ==> FirstWithKey(c, key) in app)
            && (UniqueKeys(app) ==> FirstWithKey(c, key) == FirstWithKey(app, key))
  {
    var c := chains[BucketOf(h, |chains|, key)];
    FirstWithKeyFound(c, key);
    FirstWithKeyFound(app, key);
    var x, y := FirstWithKey(c, key), FirstWithKey(app, key);
    if x != null {
      var j :| 0 <= j < |c| && c[j] == x;
      assert x in Members(app);
      var i :| 0 <= i < |app| && app[i] == x;
      if UniqueKeys(app) {
        var i' :| 0 <= i' < |app| && app[i'] == y;
      }
    }
    if y != null {
      assert y in Members(app);
    }
  }

  /** Walks a chain to the first element with the given key. */
  method FindInChain(first: Element?, key: string, ghost c: seq<Element>, ghost items: set<Element>) returns (out: Element?)
    requires Forward(c, items) && first == At(c, 0)
    ensures out == FirstWithKey(c, key)
  {
    ghost var k := 0;
    out := first;
    while out != null
      invariant k <= |c| && out == At(c, k)
      invariant FirstWithKey(c, key) == FirstWithKey(c[k..], key)
      decreases |c| - k
    {
      if |out.key| == |key| {
        if out.key == key {
          break;
        }
      }
      out := out.hhNext;
      k := k + 1;
    }
  }

  /** A position of e in s. */
  ghost function IndexOf(s: seq<Element>, e: Element): (i: nat)
    requires e in s
    ensures i < |s| && s[i] == e
  {
    var i :| 0 <= i < |s| && s[i] == e;
    i
  }

  /** Unlinks an element from chain b. */
  method UnlinkFromChain(del: Element, buckets: array<Bucket>, bkt: nat,
                         ghost items: set<Element>, ghost chains: seq<seq<Element>>, ghost h: string -> nat)
    returns (ghost chains': seq<seq<Element>>)
    requires Bucketed(items, h, buckets, chains) && bkt < buckets.Length && del in chains[bkt]
    modifies buckets, items`hhNext, items`hhPrev
    ensures chains' == chains[bkt := RemoveAt(chains[bkt], IndexOf(chains[bkt], del))]
    ensures Bucketed(items - {del}, h, buckets, chains')
    ensures var o := old(buckets[bkt]);
            o.count > 0 && buckets[..] == old(buckets[..])[bkt := Bucket(At(chains'[bkt], 0), o.count - 1, o.expandMult)]
  {
    ghost var j := IndexOf(chains[bkt], del);
    var b := buckets[bkt];
    var first := if b.hhHead == del then del.hhNext else b.hhHead;
    RemovalKeepsPartition(items, chains, h, bkt, j);
    TallyRemove(buckets[..], chains, bkt, j);
    UnlinkHandle(del, items, chains, bkt, j, h);
    buckets[bkt] := Bucket(first, b.count - 1, b.expandMult);
    chains' := chains[bkt := RemoveAt(chains[bkt], j)];
    assert buckets[..] == old(buckets[..])[bkt := Bucket(first, b.count - 1, b.expandMult)];
  }

  lemma TallyRemove(bs: seq<Bucket>, chains: seq<seq<Element>>, i: nat, j: nat)
    requires Tallied(bs, chains) && i < |bs| && j < |chains[i]|
    ensures bs[i].count > 0
    ensures Tallied(bs[i := Bucket(At(RemoveAt(chains[i], j), 0), bs[i].count - 1, bs[i].expandMult)],
                    chains[i := RemoveAt(chains[i], j)])
  {
  }

  method UnlinkHandle(del: Element, ghost items: set<Element>, ghost chains: seq<seq<Element>>,
                      ghost b: nat, ghost j: nat, ghost h: string -> nat)
    requires DrawnFrom(chains, items) && Sifted(chains, h) && Chained(chains, items)
    requires b < |chains| && j < |chains[b]| && chains[b][j] == del
    requires DrawnFrom(chains[b := RemoveAt(chains[b], j)], items - {del})
    modifies items`hhNext, items`hhPrev
    ensures Chained(chains[b := RemoveAt(chains[b], j)], items - {del})
  {
    if del.hhPrev != null {
      del.hhPrev.hhNext := del.hhNext;
    }
    if del.hhNext != null {
      del.hhNext.hhPrev := del.hhPrev;
    }
  }

  /** Unlinks position k from the insertion-order list. */
  method UnlinkFromList(head: Element?, tail: Element?, del: Element, ghost s: seq<Element>, ghost k: nat)
    returns (head': Element?, tail': Element?)
    requires Distinct(s) && Listed(s) && k < |s| && s[k] == del && head == s[0] && tail == s[|s| - 1]
    modifies s`next, s`prev
    ensures Listed(RemoveAt(s, k)) && head' == At(RemoveAt(s, k), 0)
    ensures |s| > 1 ==> tail' == At(RemoveAt(s, k), |s| - 2)
  {
    head', tail' := head, tail;
    if del.prev == null && del.next == null {
      head' := null;
    } else {
      if del == tail {
        tail' := del.prev;
      }
      if del.prev != null {
        del.prev.next := del.next;
      } else {
        head' := del.next;
      }
      if del.next != null {
        del.next.prev := del.prev;
      }
    }
  }

  /** The chains after adding an element to the front of its chain and, if that
      filled the bucket, doubling the table. */
  ghost predicate ChainsAfterAdd(before: seq<seq<Element>>, add: Element, h: string -> nat, doubled: bool,
                                 after: seq<seq<Element>>)
    requires |before| > 0
  {
    var b := BucketOf(h, |before|, add.key);
    var pushed := before[b := [add] + before[b]];
    if doubled
    then |after| == 2 * |pushed| && forall i :: 0 <= i < |after| ==> after[i] == NewChain(pushed, h, i)
    else after == pushed
  }

  /** The chains after unlinking an element from its chain. */
  ghost predicate ChainsAfterDelete(before: seq<seq<Element>>, del: Element, h: string -> nat, after: seq<seq<Element>>)
    requires |before| > 0
  {
    var b := BucketOf(h, |before|, del.key);
    del in before[b] && after == before[b := RemoveAt(before[b], IndexOf(before[b], del))]
  }

  /** The last element of a sequence with the given key. */
  ghost function LastWithKey(s: seq<Element>, key: string): Element? {
    if s == [] then null
    else if s[|s| - 1].key == key then s[|s| - 1]
    else LastWithKey(s[..|s| - 1], key)
  }

  lemma {:induction false} FirstOfReversed(s: seq<Element>, key: string)
    ensures FirstWithKey(Reversed(s), key) == LastWithKey(s, key)
  {
    if s != [] {
      FirstOfReversed(s[..|s| - 1], key);
      assert ([s[|s| - 1]] + Reversed(s[..|s| - 1]))[1..] == Reversed(s[..|s| - 1]);
    }
  }

  lemma {:induction false} LastOfSelected(chain: seq<Element>, h: string -> nat, n: nat, key: string)
    requires n > 0
    ensures LastWithKey(Selected(chain, h, n, BucketOf(h, n, key)), key) == LastWithKey(chain, key)
  {
    if chain != [] {
      var m := |chain| - 1;
      LastOfSelected(chain[..m], h, n, key);
      var s := Selected(chain[..m], h, n, BucketOf(h, n, key));
      assert (s + [chain[m]])[..|s|] == s;
      assert s + [] == s;
    }
  }

  lemma {:induction false} FirstWithKeyAppend(s: seq<Element>, e: Element, key: string)
    ensures FirstWithKey(s + [e], key) ==
              if FirstWithKey(s, key) != null then FirstWithKey(s, key) else if e.key == key then e else null
  {
    if s == [] {
      assert s + [e] == [e];
    } else {
      assert (s + [e])[1..] == s[1..] + [e];
      FirstWithKeyAppend(s[1..], e, key);
    }
  }

  lemma {:induction false} FirstOfSelected(chain: seq<Element>, h: string -> nat, n: nat, key: string)
    requires n > 0
    ensures FirstWithKey(Selected(chain, h, n, BucketOf(h, n, key)), key) == FirstWithKey(chain, key)
  {
    if chain != [] {
      var m := |chain| - 1;
      FirstOfSelected(chain[..m], h, n, key);
      var s := Selected(chain[..m], h, n, BucketOf(h, n, key));
      FirstWithKeyAppend(s, chain[m], key);
      FirstWithKeyAppend(chain[..m], chain[m], key);
      assert chain[..m] + [chain[m]] == chain;
      assert s + [] == s;
    }
  }

  lemma LastOfReversed(s: seq<Element>, key: string)
    ensures LastWithKey(Reversed(s), key) == FirstWithKey(s, key)
  {
    ReversedMembers(s);
    ReversedMembers(Reversed(s));
    assert Reversed(Reversed(s)) == s;
    FirstOfReversed(Reversed(s), key);
  }

  /** An expansion swaps the first and the last element of a key: a lookup, which finds the
      first of the chain, finds after it what was the last. */
  lemma LookupAfterDoubling(chains: seq<seq<Element>>, h: string -> nat, key: string)
    requires |chains| > 0
    ensures var c, c' := chains[BucketOf(h, |chains|, key)], NewChain(chains, h, BucketOf(h, 2 * |chains|, key));
            FirstWithKey(c', key) == LastWithKey(c, key) && LastWithKey(c', key) == FirstWithKey(c, key)
  {
    hide Selected, Reversed, FirstWithKey, LastWithKey, BucketOf, Fold;
    var n := |chains|;
    var c := chains[BucketOf(h, n, key)];
    BucketOfDouble(h, n, key);
    LastOfSelected(c, h, 2 * n, key);
    FirstOfSelected(c, h, 2 * n, key);
    FirstOfReversed(Selected(c, h, 2 * n, BucketOf(h, 2 * n, key)), key);
    LastOfReversed(Selected(c, h, 2 * n, BucketOf(h, 2 * n, key)), key);
  }

  /** At most one element has the key. */
  ghost predicate Once(s: seq<Element>, key: string) {
    forall i, j :: 0 <= i < j < |s| ==> !(s[i].key == key && s[j].key == key)
  }

  lemma {:induction false} FirstIsLast(s: seq<Element>, key: string)
    requires Distinct(s)
    ensures FirstWithKey(s, key) == LastWithKey(s, key) <==> Once(s, key)
  {
    if s != [] {
      var m := |s| - 1;
      var r := s[..m];
      FirstIsLast(r, key);
      FirstWithKeyAppend(r, s[m], key);
      assert r + [s[m]] == s;
      FirstWithKeyFound(r, key);
      if s[m].key == key && FirstWithKey(r, key) != null {
        var i :| 0 <= i < |r| && r[i] == FirstWithKey(r, key);
        assert s[i].key == key;
      }
    }
  }

  /** All elements of a key sit in one chain, so duplicates in the list are duplicates there. */
  lemma OnceInChain(app: seq<Element>, chains: seq<seq<Element>>, h: string -> nat, key: string)
    requires Distinct(app) && Partition(Members(app), chains, h)
    ensures Once(chains[BucketOf(h, |chains|, key)], key) <==> Once(app, key)
  {
    hide BucketOf;
    var b := BucketOf(h, |chains|, key);
    var c := chains[b];
    if i, j :| 0 <= i < j < |c| && c[i].key == key && c[j].key == key {
      assert chains[b][i] in Members(app) && chains[b][j] in Members(app);
      var k :| 0 <= k < |app| && app[k] == c[i];
      var l :| 0 <= l < |app| && app[l] == c[j];
      assert k < l || l < k;
    }
    if i, j :| 0 <= i < j < |app| && app[i].key == key && app[j].key == key {
      assert app[i] in Members(app) && app[j] in Members(app);
      var k :| 0 <= k < |c| && c[k] == app[i];
      var l :| 0 <= l < |c| && c[l] == app[j];
      assert k < l || l < k;
    }
  }

  /** A lookup gives the same answer before and after an expansion exactly when at most one
      element of the list has the key. */
  lemma LookupStable(app: seq<Element>, chains: seq<seq<Element>>, h: string -> nat, key: string)
    requires Distinct(app) && Partition(Members(app), chains, h)
    ensures FirstWithKey(NewChain(chains, h, BucketOf(h, 2 * |chains|, key)), key)
         == FirstWithKey(chains[BucketOf(h, |chains|, key)], key)
         <==> Once(app, key)
  {
    hide BucketOf, NewChain, FirstWithKey, LastWithKey;
    LookupAfterDoubling(chains, h, key);
    FirstIsLast(chains[BucketOf(h, |chains|, key)], key);
    OnceInChain(app, chains, h, key);
  }

  /** Two elements of one key: each expansion changes the answer. */
  lemma DuplicatesFlip(chains: seq<seq<Element>>, h: string -> nat, e: Element, e': Element)
    requires |chains| > 0 && e != e' && e.key == e'.key
    requires chains[BucketOf(h, |chains|, e.key)] == [e, e']
    ensures FirstWithKey(chains[BucketOf(h, |chains|, e.key)], e.key) == e
    ensures FirstWithKey(NewChain(chains, h, BucketOf(h, 2 * |chains|, e.key)), e.key) == e'
  {
    LookupAfterDoubling(chains, h, e.key);
  }
}
