/** Bottom-up merge sort on sequences: the specification of the table's list sort. */
module StableMerge {

  ghost predicate TotalPreorder<T>(le: (T, T) -> bool, s: set<T>) {
    && (forall x, y :: x in s && y in s ==> le(x, y) || le(y, x))
    && (forall x, y, z :: x in s && y in s && z in s && le(x, y) && le(y, z) ==> le(x, z))
  }

  ghost predicate Sorted<T>(s: seq<T>, le: (T, T) -> bool) {
    forall i, j :: 0 <= i < j < |s| ==> le(s[i], s[j])
  }

  function Min(a: nat, b: nat): nat {
    if a <= b then a else b
  }

  /** Merges two runs; on a tie the element of the first run goes first. */
  function Merge<T>(a: seq<T>, b: seq<T>, le: (T, T) -> bool): (r: seq<T>)
    ensures |r| == |a| + |b|
  {
    if a == [] then b
    else if b == [] then a
    else if le(a[0], b[0]) then [a[0]] + Merge(a[1..], b, le)
    else [b[0]] + Merge(a, b[1..], le)
  }

  /** One pass: merges neighbouring runs of length k. */
  function MergePass<T>(s: seq<T>, k: nat, le: (T, T) -> bool): (r: seq<T>)
    requires k > 0
    ensures |r| == |s|
  {
    if s == [] then []
    else
      var m, n := Min(k, |s|), Min(2 * k, |s|);
      Merge(s[..m], s[m..n], le) + MergePass(s[n..], k, le)
  }

  /** How many merges one pass makes. */
  function Merges(n: nat, k: nat): (m: nat)
    requires k > 0
    ensures (m <= 1) == (n <= 2 * k)
    ensures (m == 0) == (n == 0)
  {
    if n == 0 then 0 else 1 + Merges(n - Min(2 * k, n), k)
  }

  /** Doubles the run length until one merge covers the whole list. */
  function SortFrom<T>(s: seq<T>, k: nat, le: (T, T) -> bool): (r: seq<T>)
    requires k > 0
    ensures |r| == |s|
    decreases |s| - k
  {
    var r := MergePass(s, k, le);
    if |s| <= 2 * k then r else SortFrom(r, 2 * k, le)
  }

  /** The elements of s equivalent to x, in their order. */
  ghost function Equivalents<T>(x: T, s: seq<T>, le: (T, T) -> bool): seq<T> {
    if s == [] then []
    else (if le(x, s[0]) && le(s[0], x) then [s[0]] else []) + Equivalents(x, s[1..], le)
  }

  /** r is a permutation of s in which equivalent elements keep their order. */
  ghost predicate Rearranges<T>(r: seq<T>, s: seq<T>, le: (T, T) -> bool) {
    && multiset(r) == multiset(s)
    && (forall x :: x in s ==> Equivalents(x, r, le) == Equivalents(x, s, le))
  }

  ghost predicate StableSortOf<T>(r: seq<T>, s: seq<T>, le: (T, T) -> bool) {
    Sorted(r, le) && Rearranges(r, s, le)
  }

  ghost predicate RunsSorted<T>(s: seq<T>, k: nat, le: (T, T) -> bool)
    requires k > 0
  {
    s == [] || (Sorted(s[..Min(k, |s|)], le) && RunsSorted(s[Min(k, |s|)..], k, le))
  }

  ghost predicate Within<T>(s: seq<T>, d: set<T>) {
    forall y :: y in s ==> y in d
  }

  lemma {:induction false} MergeMembers<T>(a: seq<T>, b: seq<T>, le: (T, T) -> bool)
    ensures forall y :: y in Merge(a, b, le) ==> y in a || y in b
  {
    if a != [] && b != [] {
      if le(a[0], b[0]) {
        MergeMembers(a[1..], b, le);
      } else {
        MergeMembers(a, b[1..], le);
      }
    }
  }

  lemma MultisetOfCons<T>(s: seq<T>)
    requires s != []
    ensures multiset(s) == multiset{s[0]} + multiset(s[1..])
  {
    assert s == [s[0]] + s[1..];
  }

  lemma {:induction false} MergePermutes<T>(a: seq<T>, b: seq<T>, le: (T, T) -> bool)
    ensures multiset(Merge(a, b, le)) == multiset(a) + multiset(b)
  {
    if a != [] && b != [] {
      if le(a[0], b[0]) {
        MergePermutes(a[1..], b, le);
        MultisetOfCons(a);
      } else {
        MergePermutes(a, b[1..], le);
        MultisetOfCons(b);
      }
    }
  }

  lemma {:induction false} MergeSorted<T>(a: seq<T>, b: seq<T>, le: (T, T) -> bool, d: set<T>)
    requires TotalPreorder(le, d) && Within(a, d) && Within(b, d)
    requires Sorted(a, le) && Sorted(b, le)
    ensures Sorted(Merge(a, b, le), le)
  {
    if a != [] && b != [] {
      if le(a[0], b[0]) {
        MergeSorted(a[1..], b, le, d);
        MergeMembers(a[1..], b, le);
        HeadBelow(a, b, Merge(a[1..], b, le), le, d);
      } else {
        MergeSorted(a, b[1..], le, d);
        MergeMembers(a, b[1..], le);
        HeadBelow(b, a, Merge(a, b[1..], le), le, d);
      }
    }
  }

  /** The smaller head is below everything left to merge. */
  lemma HeadBelow<T>(own: seq<T>, other: seq<T>, m: seq<T>, le: (T, T) -> bool, d: set<T>)
    requires TotalPreorder(le, d) && Within(own, d) && Within(other, d)
    requires own != [] && other != [] && Sorted(own, le) && Sorted(other, le)
    requires le(own[0], other[0])
    requires Sorted(m, le)
    requires forall y :: y in m ==> y in own[1..] || y in other
    ensures Sorted([own[0]] + m, le)
  {
    forall y | y in m ensures le(own[0], y) {
      if y in other {
        var i :| 0 <= i < |other| && other[i] == y;
        assert i == 0 || le(other[0], y);
      }
    }
  }

  lemma EquivalentsCons<T>(x: T, y: T, s: seq<T>, le: (T, T) -> bool)
    ensures Equivalents(x, [y] + s, le) == (if le(x, y) && le(y, x) then [y] else []) + Equivalents(x, s, le)
  {
    assert ([y] + s)[1..] == s;
  }

  lemma {:induction false} EquivalentsConcat<T>(x: T, a: seq<T>, b: seq<T>, le: (T, T) -> bool)
    ensures Equivalents(x, a + b, le) == Equivalents(x, a, le) + Equivalents(x, b, le)
  {
    if a == [] {
      assert a + b == b;
    } else {
      EquivalentsConcat(x, a[1..], b, le);
      assert a + b == [a[0]] + (a[1..] + b);
      EquivalentsCons(x, a[0], a[1..] + b, le);
    }
  }

  lemma {:induction false} NoEquivalents<T>(x: T, s: seq<T>, le: (T, T) -> bool)
    requires forall y :: y in s ==> !(le(x, y) && le(y, x))
    ensures Equivalents(x, s, le) == []
  {
    if s != [] {
      NoEquivalents(x, s[1..], le);
    }
  }

  /** Taking a strictly smaller head from the second run overtakes no equivalent element. */
  lemma OvertakesNone<T>(x: T, a: seq<T>, y: T, le: (T, T) -> bool, d: set<T>)
    requires TotalPreorder(le, d) && x in d && y in d && Within(a, d)
    requires a != [] && Sorted(a, le) && !le(a[0], y)
    requires le(x, y) && le(y, x)
    ensures Equivalents(x, a, le) == []
  {
    var first := a[0];
    forall z | z in a ensures !le(z, x) {
      var i :| 0 <= i < |a| && a[i] == z;
      assert le(first, z);
      assert le(z, x) ==> le(first, x);
      assert le(first, x) ==> le(first, y);
    }
    NoEquivalents(x, a, le);
  }

  lemma TakeFromFirst<T>(x: T, a: seq<T>, b: seq<T>, m: seq<T>, le: (T, T) -> bool)
    requires a != [] && Equivalents(x, m, le) == Equivalents(x, a[1..], le) + Equivalents(x, b, le)
    ensures Equivalents(x, [a[0]] + m, le) == Equivalents(x, a, le) + Equivalents(x, b, le)
  {
    EquivalentsCons(x, a[0], m, le);
  }

  lemma TakeFromSecond<T>(x: T, a: seq<T>, b: seq<T>, m: seq<T>, le: (T, T) -> bool)
    requires b != [] && Equivalents(x, m, le) == Equivalents(x, a, le) + Equivalents(x, b[1..], le)
    requires le(x, b[0]) && le(b[0], x) ==> Equivalents(x, a, le) == []
    ensures Equivalents(x, [b[0]] + m, le) == Equivalents(x, a, le) + Equivalents(x, b, le)
  {
    EquivalentsCons(x, b[0], m, le);
  }

  /** Merging sorted runs keeps the order of equivalent elements. */
  lemma {:induction false} MergeStable<T>(x: T, a: seq<T>, b: seq<T>, le: (T, T) -> bool, d: set<T>)
    requires TotalPreorder(le, d) && x in d && Within(a, d) && Within(b, d)
    requires Sorted(a, le)
    ensures Equivalents(x, Merge(a, b, le), le) == Equivalents(x, a, le) + Equivalents(x, b, le)
  {
    if a != [] && b != [] {
      if le(a[0], b[0]) {
        MergeStable(x, a[1..], b, le, d);
        TakeFromFirst(x, a, b, Merge(a[1..], b, le), le);
      } else {
        MergeStable(x, a, b[1..], le, d);
        if le(x, b[0]) && le(b[0], x) {
          OvertakesNone(x, a, b[0], le, d);
        }
        TakeFromSecond(x, a, b, Merge(a, b[1..], le), le);
      }
    }
  }

  lemma {:induction false} PassPermutes<T>(s: seq<T>, k: nat, le: (T, T) -> bool)
    requires k > 0
    ensures multiset(MergePass(s, k, le)) == multiset(s)
  {
    if s != [] {
      var m, n := Min(k, |s|), Min(2 * k, |s|);
      MergePermutes(s[..m], s[m..n], le);
      PassPermutes(s[n..], k, le);
      ThreeParts(s, m, n);
    }
  }

  lemma ThreeParts<T>(s: seq<T>, m: nat, n: nat)
    requires m <= n <= |s|
    ensures multiset(s) == multiset(s[..m]) + multiset(s[m..n]) + multiset(s[n..])
  {
    assert s == s[..n] + s[n..];
    assert s[..n] == s[..m] + s[m..n];
  }

  /** A pass over sorted runs of length k leaves sorted runs of length 2k. */
  lemma {:induction false} PassSortsRuns<T>(s: seq<T>, k: nat, le: (T, T) -> bool, d: set<T>)
    requires k > 0 && TotalPreorder(le, d) && Within(s, d) && RunsSorted(s, k, le)
    ensures RunsSorted(MergePass(s, k, le), 2 * k, le)
  {
    if s != [] {
      var m, n := Min(k, |s|), Min(2 * k, |s|);
      SecondRun(s, k, le);
      MergeSorted(s[..m], s[m..n], le, d);
      PassSortsRuns(s[n..], k, le, d);
      var r, front := MergePass(s, k, le), Merge(s[..m], s[m..n], le);
      assert r[..n] == front && r[n..] == MergePass(s[n..], k, le);
    }
  }

  lemma SecondRun<T>(s: seq<T>, k: nat, le: (T, T) -> bool)
    requires k > 0 && s != [] && RunsSorted(s, k, le)
    ensures Sorted(s[Min(k, |s|)..Min(2 * k, |s|)], le)
    ensures RunsSorted(s[Min(2 * k, |s|)..], k, le)
  {
    var m, n := Min(k, |s|), Min(2 * k, |s|);
    var t := s[m..];
    if t != [] {
      assert t[..Min(k, |t|)] == s[m..n];
      assert t[Min(k, |t|)..] == s[n..];
    } else {
      assert s[n..] == t;
    }
  }

  lemma EquivalentsSplit<T>(x: T, s: seq<T>, m: nat, n: nat, le: (T, T) -> bool)
    requires m <= n <= |s|
    ensures Equivalents(x, s, le)
         == Equivalents(x, s[..m], le) + Equivalents(x, s[m..n], le) + Equivalents(x, s[n..], le)
  {
    assert s == s[..n] + s[n..];
    assert s[..n] == s[..m] + s[m..n];
    EquivalentsConcat(x, s[..n], s[n..], le);
    EquivalentsConcat(x, s[..m], s[m..n], le);
  }

  lemma {:induction false} PassStable<T>(x: T, s: seq<T>, k: nat, le: (T, T) -> bool, d: set<T>)
    requires k > 0 && TotalPreorder(le, d) && x in d && Within(s, d) && RunsSorted(s, k, le)
    ensures Equivalents(x, MergePass(s, k, le), le) == Equivalents(x, s, le)
  {
    if s != [] {
      var m, n := Min(k, |s|), Min(2 * k, |s|);
      SecondRun(s, k, le);
      MergeStable(x, s[..m], s[m..n], le, d);
      PassStable(x, s[n..], k, le, d);
      EquivalentsConcat(x, Merge(s[..m], s[m..n], le), MergePass(s[n..], k, le), le);
      EquivalentsSplit(x, s, m, n, le);
    }
  }

  lemma {:induction false} SingletonRuns<T>(s: seq<T>, le: (T, T) -> bool)
    ensures RunsSorted(s, 1, le)
  {
    if s != [] {
      SingletonRuns(s[1..], le);
    }
  }

  lemma SameMembers<T>(s: seq<T>, t: seq<T>)
    requires multiset(s) == multiset(t)
    ensures forall x :: x in s <==> x in t
  {
    forall x ensures x in s <==> x in t {
      assert x in multiset(s) <==> x in multiset(t);
    }
  }

  lemma StaysWithin<T>(r: seq<T>, s: seq<T>, d: set<T>)
    requires multiset(r) == multiset(s) && Within(s, d)
    ensures Within(r, d)
  {
    forall y | y in r ensures y in d {
      assert y in multiset(s);
    }
  }

  lemma PassRearranges<T>(s: seq<T>, k: nat, le: (T, T) -> bool, d: set<T>)
    requires k > 0 && TotalPreorder(le, d) && Within(s, d) && RunsSorted(s, k, le)
    ensures Rearranges(MergePass(s, k, le), s, le)
  {
    PassPermutes(s, k, le);
    forall x | x in s ensures Equivalents(x, MergePass(s, k, le), le) == Equivalents(x, s, le) {
      PassStable(x, s, k, le, d);
    }
  }

  lemma RearrangesTransitive<T>(r: seq<T>, s: seq<T>, t: seq<T>, le: (T, T) -> bool)
    requires Rearranges(r, s, le) && Rearranges(s, t, le)
    ensures Rearranges(r, t, le)
  {
    SameMembers(s, t);
  }

  /** The bottom-up merge sort is a stable sort, whatever the preorder. */
  lemma {:induction false} SortIsStable<T>(s: seq<T>, k: nat, le: (T, T) -> bool, d: set<T>)
    requires k > 0 && TotalPreorder(le, d) && Within(s, d) && RunsSorted(s, k, le)
    ensures StableSortOf(SortFrom(s, k, le), s, le)
    decreases |s| - k
  {
    var r := MergePass(s, k, le);
    PassRearranges(s, k, le, d);
    PassSortsRuns(s, k, le, d);
    if |s| <= 2 * k {
      OneRun(r, 2 * k, le);
    } else {
      StaysWithin(r, s, d);
      SortIsStable(r, 2 * k, le, d);
      RearrangesTransitive(SortFrom(r, 2 * k, le), r, s, le);
    }
  }

  lemma OneRun<T>(s: seq<T>, k: nat, le: (T, T) -> bool)
    requires |s| <= k && k > 0 && RunsSorted(s, k, le)
    ensures Sorted(s, le)
  {
    assert s[..|s|] == s;
  }
}
