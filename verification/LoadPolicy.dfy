/** The doubling policy of the hash table, on bucket counts alone: when a bucket
    reaches ten times (expand_mult + 1) elements the table doubles, and buckets
    that stay overfull get a larger multiplier. The policy bounds the load. */
module LoadPolicy {
  import opened Bits
  import opened Handles

  const CAPACITY: nat := 10

  function Limit(b: Bucket): nat {
    (b.expandMult + 1) * CAPACITY
  }

  function SumCount(bs: seq<Bucket>): nat {
    if bs == [] then 0 else SumCount(bs[..|bs| - 1]) + bs[|bs| - 1].count
  }

  function SumMult(bs: seq<Bucket>): nat {
    if bs == [] then 0 else SumMult(bs[..|bs| - 1]) + bs[|bs| - 1].expandMult
  }

  /** How many buckets are exactly at their limit. */
  function AtLimit(bs: seq<Bucket>): nat {
    if bs == [] then 0
    else AtLimit(bs[..|bs| - 1]) + if bs[|bs| - 1].count == Limit(bs[|bs| - 1]) then 1 else 0
  }

  /** How many elements sit deeper than the ideal chain length. */
  function Nonideal(bs: seq<Bucket>, ideal: nat): nat {
    if bs == [] then 0
    else Nonideal(bs[..|bs| - 1], ideal) + Excess(bs[|bs| - 1].count, ideal)
  }

  function Excess(count: nat, ideal: nat): nat {
    if count > ideal then count - ideal else 0
  }

  /** The load bound kept while expansion is allowed. */
  ghost predicate LoadBound(bs: seq<Bucket>) {
    && (forall i :: 0 <= i < |bs| ==> bs[i].count <= Limit(bs[i]))
    && SumMult(bs) + AtLimit(bs) <= |bs|
  }

  lemma {:induction false} SumsOfUpdate(bs: seq<Bucket>, i: nat, b: Bucket, ideal: nat)
    requires i < |bs|
    ensures SumCount(bs[i := b]) == SumCount(bs) - bs[i].count + b.count
    ensures SumMult(bs[i := b]) == SumMult(bs) - bs[i].expandMult + b.expandMult
    ensures AtLimit(bs[i := b]) == AtLimit(bs) - (if bs[i].count == Limit(bs[i]) then 1 else 0)
                                               + (if b.count == Limit(b) then 1 else 0)
    ensures Nonideal(bs[i := b], ideal) == Nonideal(bs, ideal) - Excess(bs[i].count, ideal) + Excess(b.count, ideal)
  {
    var m := |bs| - 1;
    if i == m {
      assert bs[i := b][..m] == bs[..m];
    } else {
      assert bs[i := b][..m] == bs[..m][i := b];
      SumsOfUpdate(bs[..m], i, b, ideal);
    }
  }

  lemma {:induction false} SumsOfEmpty(bs: seq<Bucket>, ideal: nat)
    requires forall i :: 0 <= i < |bs| ==> bs[i].count == 0 && bs[i].expandMult == 0
    ensures SumCount(bs) == SumMult(bs) == AtLimit(bs) == Nonideal(bs, ideal) == 0
    ensures LoadBound(bs)
  {
    if bs != [] {
      SumsOfEmpty(bs[..|bs| - 1], ideal);
    }
  }

  /** Each bucket below its limit leaves room for one element more. */
  lemma {:induction false} CountsUnderLimits(bs: seq<Bucket>)
    requires forall i :: 0 <= i < |bs| ==> bs[i].count <= Limit(bs[i])
    ensures SumCount(bs) <= CAPACITY * SumMult(bs) + (CAPACITY - 1) * |bs| + AtLimit(bs)
  {
    if bs != [] {
      CountsUnderLimits(bs[..|bs| - 1]);
    }
  }

  /** The load bound keeps the number of elements below nineteen per bucket. */
  lemma LoadFactor(bs: seq<Bucket>)
    requires LoadBound(bs)
    ensures SumCount(bs) <= 19 * |bs|
  {
    CountsUnderLimits(bs);
  }

  /** What an expansion leaves in a new bucket: the multiplier of its final count. */
  ghost predicate Multiplied(b: Bucket, ideal: nat)
    requires ideal > 0
  {
    b.expandMult == if b.count > ideal then b.count / ideal else 0
  }

  lemma MultiplierCost(b: Bucket, ideal: nat)
    requires 1 <= ideal <= CAPACITY && Multiplied(b, ideal)
    ensures b.count <= Limit(b)
    ensures (b.expandMult + if b.count == Limit(b) then 1 else 0) * ideal <= b.count
  {
    DivideWithRemainder(b.count, ideal);
    var m := b.expandMult;
    if b.count > ideal {
      assert b.count < (m + 1) * ideal;
      assert (m + 1) * ideal <= (m + 1) * CAPACITY by { MulMonotone(m + 1, ideal, CAPACITY); }
    }
  }

  lemma MulMonotone(m: nat, x: nat, y: nat)
    requires x <= y
    ensures m * x <= m * y
  {
  }

  lemma {:induction false} MultipliersWithinCounts(bs: seq<Bucket>, ideal: nat)
    requires 1 <= ideal <= CAPACITY
    requires forall i :: 0 <= i < |bs| ==> Multiplied(bs[i], ideal)
    ensures (SumMult(bs) + AtLimit(bs)) * ideal <= SumCount(bs)
  {
    if bs != [] {
      var m := |bs| - 1;
      MultipliersWithinCounts(bs[..m], ideal);
      MultiplierCost(bs[m], ideal);
      var x, y := SumMult(bs[..m]) + AtLimit(bs[..m]),
          bs[m].expandMult + if bs[m].count == Limit(bs[m]) then 1 else 0;
      assert (x + y) * ideal == x * ideal + y * ideal;
    }
  }

  /** An expansion re-establishes the load bound, because the ideal chain length
      it works with is at most ten. */
  lemma ExpansionRestoresBound(bs: seq<Bucket>, ideal: nat)
    requires bs != [] && SumCount(bs) > 0
    requires ideal == CeilDiv(SumCount(bs), |bs|) && ideal <= CAPACITY
    requires forall i :: 0 <= i < |bs| ==> ideal > 0 && Multiplied(bs[i], ideal)
    ensures LoadBound(bs)
  {
    CeilDivLeast(SumCount(bs), |bs|);
    MultipliersWithinCounts(bs, ideal);
    FewerThan(SumMult(bs) + AtLimit(bs), |bs|, ideal);
    forall i | 0 <= i < |bs| ensures bs[i].count <= Limit(bs[i]) {
      MultiplierCost(bs[i], ideal);
    }
  }

  lemma FewerThan(total: nat, n: nat, ideal: nat)
    requires ideal > 0 && total * ideal <= ideal * n
    ensures total <= n
  {
    if total > n {
      GapTooWide(n, total, ideal);
    }
  }

  /** Adding to a bucket that stays under its limit keeps the bound. */
  lemma GrowKeepsBound(bs: seq<Bucket>, i: nat, b: Bucket)
    requires i < |bs| && LoadBound(bs)
    requires b.expandMult == bs[i].expandMult && b.count < Limit(b)
    ensures LoadBound(bs[i := b])
  {
    SumsOfUpdate(bs, i, b, 0);
  }

  /** Removing from a bucket keeps the bound. */
  lemma ShrinkKeepsBound(bs: seq<Bucket>, i: nat, b: Bucket)
    requires i < |bs| && LoadBound(bs)
    requires b.expandMult == bs[i].expandMult && b.count < bs[i].count
    ensures LoadBound(bs[i := b])
  {
    SumsOfUpdate(bs, i, b, 0);
  }

  /** The add that triggers an expansion meets at most twenty elements per old
      bucket, so the ideal chain length after doubling is between 1 and 10. */
  lemma IdealAtExpansion(bs: seq<Bucket>, i: nat, b: Bucket, ideal: nat)
    requires i < |bs| && LoadBound(bs)
    requires b.count == bs[i].count + 1
    requires ideal == CeilDiv(SumCount(bs[i := b]), 2 * |bs|)
    ensures 1 <= ideal <= CAPACITY
  {
    SumsOfUpdate(bs, i, b, 0);
    LoadFactor(bs);
    var n := |bs|;
    CeilDivLeast(SumCount(bs[i := b]), 2 * n);
    if ideal > CAPACITY {
      GapTooWide(CAPACITY - 1, ideal - 1, 2 * n);
    }
  }
}
