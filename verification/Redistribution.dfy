/** What an expansion does to the chains, on sequences: the elements of an old
    chain whose hash selects a new bucket, in reversed chain order. */
module Redistribution {
  import opened Bits
  import opened Handles

  /** The elements of a chain that go to bucket i of n. */
  ghost function Selected(chain: seq<Element>, h: string -> nat, n: nat, i: nat): seq<Element>
    requires n > 0
  {
    if chain == [] then []
    else
      var m := |chain| - 1;
      Selected(chain[..m], h, n, i) + if Selects(h, n, i, chain[m]) then [chain[m]] else []
  }

  ghost function Reversed(s: seq<Element>): seq<Element> {
    if s == [] then [] else [s[|s| - 1]] + Reversed(s[..|s| - 1])
  }

  /** The chain of bucket i after doubling from n = |chains| buckets. */
  ghost function NewChain(chains: seq<seq<Element>>, h: string -> nat, i: nat): seq<Element>
    requires |chains| > 0
  {
    Reversed(Selected(chains[Fold(i, |chains|)], h, 2 * |chains|, i))
  }

  lemma {:induction false} SelectedMembers(chain: seq<Element>, h: string -> nat, n: nat, i: nat)
    requires n > 0
    ensures forall e :: e in Selected(chain, h, n, i) <==> e in chain && Selects(h, n, i, e)
    ensures Distinct(chain) ==> Distinct(Selected(chain, h, n, i))
  {
    if chain != [] {
      SelectedMembers(chain[..|chain| - 1], h, n, i);
    }
  }

  lemma {:induction false} ReversedMembers(s: seq<Element>)
    ensures |Reversed(s)| == |s|
    ensures forall k {:trigger Reversed(s)[k]} :: 0 <= k < |s| ==> Reversed(s)[k] == s[|s| - 1 - k]
    ensures forall e :: e in Reversed(s) <==> e in s
    ensures Distinct(s) ==> Distinct(Reversed(s))
  {
    if s != [] {
      ReversedMembers(s[..|s| - 1]);
    }
  }

  /** One element further along the old chain. */
  lemma SelectedStep(chain: seq<Element>, k: nat, h: string -> nat, n: nat, i: nat)
    requires n > 0 && k < |chain|
    ensures Reversed(Selected(chain[..k + 1], h, n, i))
         == (if Selects(h, n, i, chain[k]) then [chain[k]] else []) + Reversed(Selected(chain[..k], h, n, i))
  {
    assert chain[..k + 1][..k] == chain[..k];
    var s := Selected(chain[..k], h, n, i);
    assert (s + [chain[k]])[..|s|] == s;
    assert s + [] == s;
  }

  /** An old chain sends nothing to a new bucket that does not fold back onto it. */
  lemma {:induction false} SelectedElsewhere(chain: seq<Element>, h: string -> nat, n: nat, b: nat, i: nat)
    requires n > 0 && i < 2 * n && Fold(i, n) != b
    requires forall e :: e in chain ==> Selects(h, n, b, e)
    ensures Selected(chain, h, 2 * n, i) == []
  {
    if chain != [] {
      var m := |chain| - 1;
      SelectedElsewhere(chain[..m], h, n, b, i);
      assert chain[m] in chain && Selects(h, n, b, chain[m]);
      BucketOfDouble(h, n, chain[m].key);
    }
  }

  lemma NewChainMembers(chains: seq<seq<Element>>, h: string -> nat, i: nat)
    requires |chains| > 0
    ensures forall e :: e in NewChain(chains, h, i)
                   <==> e in chains[Fold(i, |chains|)] && Selects(h, 2 * |chains|, i, e)
    ensures Distinct(chains[Fold(i, |chains|)]) ==> Distinct(NewChain(chains, h, i))
  {
    SelectedMembers(chains[Fold(i, |chains|)], h, 2 * |chains|, i);
    ReversedMembers(Selected(chains[Fold(i, |chains|)], h, 2 * |chains|, i));
  }

  /** Doubling keeps the partition: no element is lost, none is duplicated. */
  lemma DoublingKeepsPartition(items: set<Element>, chains: seq<seq<Element>>, h: string -> nat,
                               doubled: seq<seq<Element>>)
    requires Partition(items, chains, h)
    requires |doubled| == 2 * |chains|
    requires forall i :: 0 <= i < |doubled| ==> doubled[i] == NewChain(chains, h, i)
    ensures Partition(items, doubled, h)
  {
    hide BucketOf, Fold, NewChain;
    var n := |chains|;
    forall i | 0 <= i < 2 * n ensures Distinct(doubled[i]) {
      NewChainMembers(chains, h, i);
    }
    forall i, j | 0 <= i < 2 * n && 0 <= j < |doubled[i]|
      ensures doubled[i][j] in items && Selects(h, 2 * n, i, doubled[i][j])
    {
      NewChainMembers(chains, h, i);
      ChainMember(items, chains, h, Fold(i, n), doubled[i][j]);
    }
    forall e | e in items ensures e in doubled[BucketOf(h, 2 * n, e.key)] {
      BucketOfDouble(h, n, e.key);
      NewChainMembers(chains, h, BucketOf(h, 2 * n, e.key));
    }
  }

  /** Pushing a new element onto the chain its hash selects keeps the partition. */
  lemma PushKeepsPartition(items: set<Element>, chains: seq<seq<Element>>, h: string -> nat, e: Element, b: nat)
    requires Partition(items, chains, h) && e !in items
    requires b < |chains| && Selects(h, |chains|, b, e)
    ensures Partition(items + {e}, chains[b := [e] + chains[b]], h)
  {
    assert forall j {:trigger chains[b][j]} :: 0 <= j < |chains[b]| ==> chains[b][j] != e;
  }

  /** Dropping an element from its chain keeps the partition of the others. */
  lemma RemovalKeepsPartition(items: set<Element>, chains: seq<seq<Element>>, h: string -> nat, b: nat, j: nat)
    requires Partition(items, chains, h)
    requires b < |chains| && j < |chains[b]|
    ensures Partition(items - {chains[b][j]}, chains[b := RemoveAt(chains[b], j)], h)
  {
    var gone := chains[b][j];
    RemoveAtMembers(chains[b], j);
    var chains' := chains[b := RemoveAt(chains[b], j)];
    assert Selects(h, |chains|, b, gone);
    forall c, i | 0 <= c < |chains'| && 0 <= i < |chains'[c]|
      ensures chains'[c][i] in items - {gone} && Selects(h, |chains'|, c, chains'[c][i])
    {
      assert chains'[c][i] in chains[c];
    }
    forall e | e in items - {gone} ensures e in chains'[BucketOf(h, |chains'|, e.key)] {
    }
  }
}
