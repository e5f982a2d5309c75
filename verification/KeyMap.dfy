/** The key map of the Cyberoam stub: an exchange sort under case-insensitive
    order, then binary search. */
module KeyMap {

  datatype Entry = Entry(key: string, offset: int, typecast: int, convert: int)

  function ToLower(c: char): char {
    if 'A' <= c <= 'Z' then (c as int + 32) as char else c
  }

  /** strcasecmp: the sign of the first difference after folding to lower case. */
  function CaseCompare(a: string, b: string): int {
    if a == [] && b == [] then 0
    else if a == [] then -1
    else if b == [] then 1
    else if ToLower(a[0]) < ToLower(b[0]) then -1
    else if ToLower(a[0]) > ToLower(b[0]) then 1
    else CaseCompare(a[1..], b[1..])
  }

  /** The same character, or the two cases of one letter. */
  predicate SameLetter(x: char, y: char) {
    x == y || ('A' <= x <= 'Z' && y as int - x as int == 'a' as int - 'A' as int)
           || ('A' <= y <= 'Z' && x as int - y as int == 'a' as int - 'A' as int)
  }

  lemma FoldingLetters(x: char, y: char)
    ensures ToLower(x) == ToLower(y) <==> SameLetter(x, y)
    ensures !('A' <= ToLower(x) <= 'Z')
  {
  }

  /** The two keys differ at most in the case of their letters. */
  ghost predicate SameKey(a: string, b: string) {
    |a| == |b| && forall i :: 0 <= i < |a| ==> SameLetter(a[i], b[i])
  }

  lemma {:induction false} CompareEqual(a: string, b: string)
    ensures CaseCompare(a, b) == 0 <==> SameKey(a, b)
  {
    if a != [] && b != [] {
      CompareEqual(a[1..], b[1..]);
      FoldingLetters(a[0], b[0]);
      if ToLower(a[0]) == ToLower(b[0]) {
        if SameKey(a[1..], b[1..]) {
          forall i | 0 <= i < |a| ensures SameLetter(a[i], b[i]) {
            if i > 0 {
              assert a[i] == a[1..][i - 1] && b[i] == b[1..][i - 1];
            }
          }
        }
      }
    }
  }

  /** A key comes before another at the first letter that is smaller when folded, or if it is a
      proper beginning of the other. */
  lemma {:induction false} CompareFirst(a: string, b: string, k: nat)
    requires k <= |a| && k < |b| && SameKey(a[..k], b[..k])
    requires k == |a| || ToLower(a[k]) < ToLower(b[k])
    ensures CaseCompare(a, b) < 0
  {
    if k > 0 {
      assert forall i :: 0 <= i < k ==> SameLetter(a[..k][i], b[..k][i]);
      assert a[1..][..k - 1] == a[..k][1..] && b[1..][..k - 1] == b[..k][1..];
      assert SameLetter(a[..k][0], b[..k][0]);
      FoldingLetters(a[0], b[0]);
      CompareFirst(a[1..], b[1..], k - 1);
    }
  }

  lemma {:induction false} CompareAntisymmetric(a: string, b: string)
    ensures CaseCompare(a, b) == -CaseCompare(b, a)
  {
    if a != [] && b != [] {
      CompareAntisymmetric(a[1..], b[1..]);
    }
  }

  lemma {:induction false} CompareTransitive(a: string, b: string, c: string)
    requires CaseCompare(a, b) <= 0 && CaseCompare(b, c) <= 0
    ensures CaseCompare(a, c) <= 0
    ensures CaseCompare(a, b) < 0 || CaseCompare(b, c) < 0 ==> CaseCompare(a, c) < 0
  {
    if a != [] && b != [] && c != [] && ToLower(a[0]) == ToLower(b[0]) == ToLower(c[0]) {
      CompareTransitive(a[1..], b[1..], c[1..]);
    }
  }

  ghost predicate Sorted(s: seq<Entry>) {
    forall i, j :: 0 <= i < j < |s| ==> CaseCompare(s[i].key, s[j].key) <= 0
  }

  method SwapEntries(a: array<Entry>, i: nat, j: nat)
    requires i < j < a.Length
    modifies a
    ensures a[..] == old(a[..])[i := old(a[j])][j := old(a[i])]
    ensures multiset(a[..]) == multiset(old(a[..]))
  {
    a[i], a[j] := a[j], a[i];
  }

  /** The first i entries are in place: in order, and below all that follow. */
  ghost predicate Placed(s: seq<Entry>, i: nat) {
    forall p, q :: 0 <= p < q < |s| && p < i ==> CaseCompare(s[p].key, s[q].key) <= 0
  }

  /** Entry i is below the entries between i and j. */
  ghost predicate Least(s: seq<Entry>, i: nat, j: nat) {
    i < |s| && forall q :: i < q < j && q < |s| ==> CaseCompare(s[i].key, s[q].key) <= 0
  }

  lemma SwapKeepsOrder(s: seq<Entry>, i: nat, j: nat)
    requires i < j < |s| && Placed(s, i) && Least(s, i, j) && CaseCompare(s[i].key, s[j].key) > 0
    ensures var t := s[i := s[j]][j := s[i]]; Placed(t, i) && Least(t, i, j + 1)
  {
    var t := s[i := s[j]][j := s[i]];
    CompareAntisymmetric(s[j].key, s[i].key);
    forall q | i < q < j + 1 ensures CaseCompare(t[i].key, t[q].key) <= 0 {
      if q < j {
        CompareTransitive(s[j].key, s[i].key, s[q].key);
      }
    }
  }

  lemma PlaceNext(s: seq<Entry>, i: nat)
    requires i < |s| && Placed(s, i) && Least(s, i, |s|)
    ensures Placed(s, i + 1)
  {
  }

  /** sort_map: exchanges each entry with every later one that is smaller. */
  method SortMap(a: array<Entry>)
    modifies a
    ensures Sorted(a[..]) && multiset(a[..]) == multiset(old(a[..]))
  {
    hide Placed, Least, CaseCompare;
    NothingPlaced(a[..]);
    for i := 0 to a.Length
      invariant Placed(a[..], i) && multiset(a[..]) == multiset(old(a[..]))
    {
      NothingAfter(a[..], i);
      for j := i + 1 to a.Length
        invariant Placed(a[..], i) && Least(a[..], i, j) && multiset(a[..]) == multiset(old(a[..]))
      {
        if CaseCompare(a[i].key, a[j].key) > 0 {
          SwapKeepsOrder(a[..], i, j);
          SwapEntries(a, i, j);
        } else {
          LeastExtends(a[..], i, j);
        }
      }
      PlaceNext(a[..], i);
    }
    AllPlaced(a[..]);
  }

  lemma NothingPlaced(s: seq<Entry>)
    ensures Placed(s, 0)
  {
  }

  lemma NothingAfter(s: seq<Entry>, i: nat)
    requires i < |s|
    ensures Least(s, i, i + 1)
  {
  }

  lemma LeastExtends(s: seq<Entry>, i: nat, j: nat)
    requires i < j < |s| && Least(s, i, j) && CaseCompare(s[i].key, s[j].key) <= 0
    ensures Least(s, i, j + 1)
  {
  }

  lemma AllPlaced(s: seq<Entry>)
    requires Placed(s, |s|)
    ensures Sorted(s)
  {
  }

  /** get_key_index over the whole map: finds an entry with the key exactly when a
      linear scan would, and answers -1 otherwise. */
  method GetKeyIndex(a: array<Entry>, key: string) returns (index: int)
    requires Sorted(a[..])
    ensures -1 <= index < a.Length
    ensures index >= 0 ==> SameKey(a[index].key, key)
    ensures index == -1 <==> forall k :: 0 <= k < a.Length ==> !SameKey(a[k].key, key)
  {
    var start, end := 0, a.Length - 1;
    while start <= end
      invariant 0 <= start <= end + 1 <= a.Length
      invariant forall k :: 0 <= k < start ==> CaseCompare(a[k].key, key) < 0
      invariant forall k :: end < k < a.Length ==> CaseCompare(a[k].key, key) > 0
    {
      var mid := (start + end) / 2;
      var cond := CaseCompare(a[mid].key, key);
      if cond == 0 {
        CompareEqual(a[mid].key, key);
        return mid;
      } else if cond < 0 {
        BelowIsBelow(a[..], mid, key);
        start := mid + 1;
      } else {
        AboveIsAbove(a[..], mid, key);
        end := mid - 1;
      }
    }
    forall k | 0 <= k < a.Length ensures !SameKey(a[k].key, key) {
      CompareEqual(a[k].key, key);
    }
    index := -1;
  }

  /** init_map and then get_key_index: finds an entry of the map as it was given exactly when a
      linear scan of that map would. */
  method InitAndFind(a: array<Entry>, key: string) returns (index: int)
    modifies a
    ensures Sorted(a[..]) && multiset(a[..]) == multiset(old(a[..])) && -1 <= index < a.Length
    ensures index >= 0 ==> SameKey(a[index].key, key) && a[index] in old(a[..])
    ensures index == -1 <==> forall e :: e in old(a[..]) ==> !SameKey(e.key, key)
  {
    hide SameKey, CaseCompare, Sorted;
    SortMap(a);
    SamePlaces(a[..], old(a[..]));
    index := GetKeyIndex(a, key);
    assert forall k :: 0 <= k < a.Length ==> a[k] in a[..];
  }

  lemma SamePlaces(s: seq<Entry>, t: seq<Entry>)
    requires multiset(s) == multiset(t)
    ensures forall e :: e in s <==> e in t
  {
    forall e ensures e in s <==> e in t {
      assert e in multiset(s) <==> e in multiset(t);
    }
  }

  lemma BelowIsBelow(s: seq<Entry>, mid: nat, key: string)
    requires Sorted(s) && mid < |s| && CaseCompare(s[mid].key, key) < 0
    ensures forall k :: 0 <= k <= mid ==> CaseCompare(s[k].key, key) < 0
  {
    forall k | 0 <= k < mid ensures CaseCompare(s[k].key, key) < 0 {
      CompareTransitive(s[k].key, s[mid].key, key);
    }
  }

  lemma AboveIsAbove(s: seq<Entry>, mid: nat, key: string)
    requires Sorted(s) && mid < |s| && CaseCompare(s[mid].key, key) > 0
    ensures forall k :: mid <= k < |s| ==> CaseCompare(s[k].key, key) > 0
  {
    forall k | mid < k < |s| ensures CaseCompare(s[k].key, key) > 0 {
      CompareAntisymmetric(s[mid].key, key);
      CompareAntisymmetric(s[k].key, key);
      CompareTransitive(key, s[mid].key, s[k].key);
    }
  }
}
