/** The intrusive handles of the hash table and the two linked structures they
    form: the insertion-order list (`prev`/`next`) and the bucket chains
    (`hhPrev`/`hhNext`). */
module Handles {
  import opened Bits

  /** A client structure with its embedded hash handle. `key` and `data` belong
      to the client and do not change while the element sits in a table. */
  class Element {
    const key: string
    const data: nat
    var prev: Element?
    var next: Element?
    var hhPrev: Element?
    var hhNext: Element?
    var hashv: nat

    constructor (key: string, data: nat)
      ensures this.key == key && this.data == data
    {
      this.key, this.data := key, data;
      prev, next, hhPrev, hhNext, hashv := null, null, null, null, 0;
    }
  }

  datatype Bucket = Bucket(hhHead: Element?, count: nat, expandMult: nat)

  /** The element at position i, or null past either end. */
  ghost function At(s: seq<Element>, i: int): Element? {
    if 0 <= i < |s| then s[i] else null
  }

  ghost predicate Distinct(s: seq<Element>) {
    forall i, j :: 0 <= i < j < |s| ==> s[i] != s[j]
  }

  /** `s` is linked forwards and backwards through next and prev. */
  ghost predicate Listed(s: seq<Element>)
    reads s`next, s`prev
  {
    && (forall i {:trigger s[i].next} :: 0 <= i < |s| ==> s[i].next == At(s, i + 1))
    && (forall i {:trigger s[i].prev} :: 0 <= i < |s| ==> s[i].prev == At(s, i - 1))
  }

  ghost function Members(s: seq<Element>): set<Element> {
    set e | e in s
  }

  ghost predicate DrawnFrom(chains: seq<seq<Element>>, items: set<Element>) {
    forall b, j {:trigger chains[b][j]} :: 0 <= b < |chains| && 0 <= j < |chains[b]| ==> chains[b][j] in items
  }

  /** Every chain is linked forwards and backwards through hhNext and hhPrev. */
  ghost predicate Chained(chains: seq<seq<Element>>, items: set<Element>)
    requires DrawnFrom(chains, items)
    reads items`hhNext, items`hhPrev
  {
    && (forall b, j {:trigger chains[b][j].hhNext} :: 0 <= b < |chains| && 0 <= j < |chains[b]| ==>
          chains[b][j].hhNext == At(chains[b], j + 1))
    && (forall b, j {:trigger chains[b][j].hhPrev} :: 0 <= b < |chains| && 0 <= j < |chains[b]| ==>
          chains[b][j].hhPrev == At(chains[b], j - 1))
  }

  ghost function RemoveAt<T>(s: seq<T>, k: nat): seq<T>
    requires k < |s|
  {
    s[..k] + s[k + 1..]
  }

  lemma RemoveAtMembers(s: seq<Element>, k: nat)
    requires k < |s| && Distinct(s)
    ensures Distinct(RemoveAt(s, k))
    ensures forall e :: e in RemoveAt(s, k) <==> e in s && e != s[k]
  {
    var r := RemoveAt(s, k);
    forall e | e in s && e != s[k] ensures e in r {
      var i :| 0 <= i < |s| && s[i] == e;
      assert e == r[if i < k then i else i - 1];
    }
  }

  /** One entry more, at the end. */
  ghost predicate Appended(before: seq<Element>, after: seq<Element>, key: string, data: nat) {
    |after| == |before| + 1 && after[..|before|] == before && after[|before|].key == key && after[|before|].data == data
  }

  /** The hash of a key; the table works with any function of the key. */
  function HashOf(h: string -> nat, key: string): nat {
    h(key)
  }

  /** The bucket a key belongs to out of n. */
  function BucketOf(h: string -> nat, n: nat, key: string): (b: nat)
    requires n > 0
    ensures b < n
  {
    HashOf(h, key) % n
  }

  /** The old bucket that new bucket i is split from when n buckets are doubled. */
  function Fold(i: nat, n: nat): (b: nat)
    requires n > 0
    ensures b < n
  {
    i % n
  }

  /** Doubling n buckets splits each bucket in two. */
  lemma BucketOfDouble(h: string -> nat, n: nat, key: string)
    requires n > 0
    ensures Fold(BucketOf(h, 2 * n, key), n) == BucketOf(h, n, key)
  {
    RemainderOfDouble(HashOf(h, key), n);
  }

  /** The elements sitting in bucket b: those whose hash selects b out of n. */
  ghost predicate Selects(h: string -> nat, n: nat, b: nat, e: Element)
    requires n > 0
  {
    BucketOf(h, n, e.key) == b
  }

  /** Every element of a chain sits in the bucket its hash selects, once. */
  ghost predicate Sifted(chains: seq<seq<Element>>, h: string -> nat) {
    && |chains| > 0
    && (forall b :: 0 <= b < |chains| ==> Distinct(chains[b]))
    && (forall b, j {:trigger chains[b][j]} :: 0 <= b < |chains| && 0 <= j < |chains[b]| ==>
          Selects(h, |chains|, b, chains[b][j]))
  }

  /** The chains partition the elements by the bucket their hash selects. */
  ghost predicate Partition(items: set<Element>, chains: seq<seq<Element>>, h: string -> nat) {
    && DrawnFrom(chains, items)
    && Sifted(chains, h)
    && (forall e :: e in items ==> e in chains[BucketOf(h, |chains|, e.key)])
  }

  lemma ChainMember(items: set<Element>, chains: seq<seq<Element>>, h: string -> nat, b: nat, e: Element)
    requires DrawnFrom(chains, items) && Sifted(chains, h) && b < |chains| && e in chains[b]
    ensures e in items && Selects(h, |chains|, b, e)
  {
    var j :| 0 <= j < |chains[b]| && chains[b][j] == e;
  }
}
