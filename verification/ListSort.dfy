/** HASH_SRT on the insertion-order list: a bottom-up merge sort that relinks the
    handles in place. Locals stand for the scratch pointers of the table. */
module ListSort {
  import opened Handles
  import opened StableMerge

  type Order = (Element, Element) -> bool

  /** The part of the list already written by a pass: linked both ways, except
      for the next pointer of its last element, which the pass writes later. */
  ghost predicate Written(out: seq<Element>)
    reads out`next, out`prev
  {
    && (forall i {:trigger out[i].next} :: 0 <= i < |out| - 1 ==> out[i].next == out[i + 1])
    && (forall i {:trigger out[i].prev} :: 0 <= i < |out| ==> out[i].prev == At(out, i - 1))
  }

  /** From position i on, s can still be walked through its next pointers. */
  ghost predicate Walkable(s: seq<Element>, lo: nat, hi: nat)
    reads s`next
  {
    forall i {:trigger s[i].next} :: lo <= i < hi && i < |s| ==> s[i].next == At(s, i + 1)
  }

  /** No element of s between lo and hi has been written yet. */
  ghost predicate Apart(out: seq<Element>, s: seq<Element>, lo: nat, hi: nat) {
    forall i :: lo <= i < hi && i < |s| ==> s[i] !in out
  }

  ghost predicate Within'(out: seq<Element>, s: seq<Element>) {
    forall i :: 0 <= i < |out| ==> out[i] in s
  }

  /** Steps q forward over at most insize elements from position lo. */
  method StepOver(p: Element, insize: nat, ghost s: seq<Element>, ghost lo: nat) returns (psize: nat, q: Element?)
    requires insize > 0 && lo < |s| && p == s[lo] && Walkable(s, lo, |s|)
    ensures psize == Min(insize, |s| - lo) && q == At(s, lo + psize)
  {
    q, psize := p, 0;
    var i := 0;
    while i < insize
      invariant i == psize <= insize && lo + psize < |s| && q == s[lo + psize]
    {
      psize := psize + 1;
      q := q.next;
      if q == null {
        break;
      }
      i := i + 1;
    }
  }

  /** Writes e behind the elements already written. */
  method Emit(e: Element, list: Element?, tale: Element?, ghost out: seq<Element>)
    returns (list': Element?, tale': Element?)
    requires Written(out) && Distinct(out) && e !in out
    requires list == At(out, 0) && tale == At(out, |out| - 1)
    modifies out`next, e`prev
    ensures Written(out + [e]) && Distinct(out + [e])
    ensures list' == At(out + [e], 0) && tale' == e
    ensures forall x :: x in out && x != tale ==> x.next == old(x.next)
  {
    list' := list;
    if tale != null {
      tale.next := e;
    } else {
      list' := e;
    }
    e.prev := tale;
    tale' := e;
  }

  lemma TakeLeft(s: seq<Element>, pi: nat, mid: nat, qi: nat, end: nat, le: Order)
    requires pi < mid <= qi <= end <= |s|
    requires qi == end || le(s[pi], s[qi])
    ensures Merge(s[pi..mid], s[qi..end], le) == [s[pi]] + Merge(s[pi + 1..mid], s[qi..end], le)
  {
    var a, b := s[pi..mid], s[qi..end];
    assert a[1..] == s[pi + 1..mid];
    if b == [] {
      assert a == [a[0]] + a[1..];
    }
  }

  lemma TakeRight(s: seq<Element>, pi: nat, mid: nat, qi: nat, end: nat, le: Order)
    requires pi <= mid <= qi < end <= |s|
    requires pi == mid || !le(s[pi], s[qi])
    ensures Merge(s[pi..mid], s[qi..end], le) == [s[qi]] + Merge(s[pi..mid], s[qi + 1..end], le)
  {
    var a, b := s[pi..mid], s[qi..end];
    assert b[1..] == s[qi + 1..end];
    if a == [] {
      assert b == [b[0]] + b[1..];
    }
  }

  /** The state inside a merge: the left run is at pi, the right run at qi, and
      what is written, followed by the merge of what remains, is the goal. */
  ghost predicate Merging(s: seq<Element>, pi: nat, mid: nat, qi: nat, end: nat, le: Order,
                          out: seq<Element>, list: Element?, tale: Element?, goal: seq<Element>)
    reads s`next, s`prev, out`next, out`prev
  {
    && pi <= mid <= qi <= end <= |s|
    && Distinct(s) && Distinct(out) && Within'(out, s)
    && Written(out) && list == At(out, 0) && tale == At(out, |out| - 1)
    && Walkable(s, pi, mid) && Walkable(s, qi, |s|)
    && Apart(out, s, pi, mid) && Apart(out, s, qi, |s|)
    && out + Merge(s[pi..mid], s[qi..end], le) == goal
  }

  /** The state between two merges: everything before lo has been written. */
  ghost predicate Passing(s: seq<Element>, lo: nat, out: seq<Element>, list: Element?, tale: Element?)
    reads s`next, s`prev, out`next, out`prev
  {
    && lo <= |s|
    && Distinct(s) && Distinct(out) && Within'(out, s)
    && Written(out) && list == At(out, 0) && tale == At(out, |out| - 1)
    && Walkable(s, lo, |s|) && Apart(out, s, lo, |s|)
  }

  /** Moves the head of the left run to the output. */
  method EmitLeft(list: Element?, tale: Element?, p: Element, ghost s: seq<Element>, ghost pi: nat, ghost mid: nat,
                  ghost qi: nat, ghost end: nat, ghost le: Order, ghost out: seq<Element>, ghost goal: seq<Element>)
    returns (list': Element?, tale': Element?)
    requires Merging(s, pi, mid, qi, end, le, out, list, tale, goal)
    requires pi < mid && p == s[pi] && (qi == end || le(s[pi], s[qi]))
    modifies s`next, s`prev
    ensures Merging(s, pi + 1, mid, qi, end, le, out + [p], list', tale', goal)
  {
    hide Merge, Written;
    TakeLeft(s, pi, mid, qi, end, le);
    assert out + ([p] + Merge(s[pi + 1..mid], s[qi..end], le)) == out + [p] + Merge(s[pi + 1..mid], s[qi..end], le);
    list', tale' := Emit(p, list, tale, out);
  }

  /** Moves the head of the right run to the output. */
  method EmitRight(list: Element?, tale: Element?, q: Element, ghost s: seq<Element>, ghost pi: nat, ghost mid: nat,
                   ghost qi: nat, ghost end: nat, ghost le: Order, ghost out: seq<Element>, ghost goal: seq<Element>)
    returns (list': Element?, tale': Element?)
    requires Merging(s, pi, mid, qi, end, le, out, list, tale, goal)
    requires qi < end && q == s[qi] && (pi == mid || !le(s[pi], s[qi]))
    modifies s`next, s`prev
    ensures Merging(s, pi, mid, qi + 1, end, le, out + [q], list', tale', goal)
  {
    hide Merge, Written;
    TakeRight(s, pi, mid, qi, end, le);
    assert out + ([q] + Merge(s[pi..mid], s[qi + 1..end], le)) == out + [q] + Merge(s[pi..mid], s[qi + 1..end], le);
    list', tale' := Emit(q, list, tale, out);
  }

  lemma MergeStarts(s: seq<Element>, lo: nat, mid: nat, end: nat, le: Order, out: seq<Element>, list: Element?, tale: Element?)
    requires Passing(s, lo, out, list, tale) && lo <= mid <= end <= |s|
    ensures Merging(s, lo, mid, mid, end, le, out, list, tale, out + Merge(s[lo..mid], s[mid..end], le))
  {
    hide Merge, Written, Distinct, Within';
  }

  lemma MergeEnds(s: seq<Element>, mid: nat, end: nat, le: Order, out: seq<Element>, list: Element?, tale: Element?, goal: seq<Element>)
    requires Merging(s, mid, mid, end, end, le, out, list, tale, goal)
    ensures out == goal && Passing(s, end, out, list, tale)
  {
    hide Written, Distinct, Within';
    assert s[mid..mid] == [] && s[end..end] == [];
    assert out + [] == out;
  }

  lemma NextInRuns(s: seq<Element>, pi: nat, mid: nat, qi: nat, end: nat, le: Order,
                   out: seq<Element>, list: Element?, tale: Element?, goal: seq<Element>)
    requires Merging(s, pi, mid, qi, end, le, out, list, tale, goal)
    ensures pi < mid ==> s[pi].next == At(s, pi + 1)
    ensures qi < |s| ==> s[qi].next == At(s, qi + 1)
  {
    hide Merge, Written, Distinct, Within', Apart;
  }

  /** Merges the run of insize elements at lo with the run behind it. */
  method MergeRuns(first: Element, insize: nat, list: Element?, tale: Element?, le: Order,
                   ghost s: seq<Element>, ghost lo: nat, ghost out: seq<Element>)
    returns (list': Element?, tale': Element?, q: Element?, ghost out': seq<Element>)
    requires insize > 0 && lo < |s| && first == s[lo]
    requires Passing(s, lo, out, list, tale)
    modifies s`next, s`prev
    ensures var m, n := lo + Min(insize, |s| - lo), lo + Min(2 * insize, |s| - lo);
            && q == At(s, n)
            && out' == out + Merge(s[lo..m], s[m..n], le)
            && Passing(s, n, out', list', tale')
  {
    hide Merging, Distinct, Merge, Written, Within', Apart;
    var psize;
    psize, q := StepOver(first, insize, s, lo);
    var qsize := insize;
    ghost var mid, end := lo + Min(insize, |s| - lo), lo + Min(2 * insize, |s| - lo);
    ghost var pi, qi := lo, mid;
    ghost var goal := out + Merge(s[lo..mid], s[mid..end], le);
    var p: Element? := first;
    list', tale', out' := list, tale, out;
    MergeStarts(s, lo, mid, end, le, out, list, tale);
    while psize > 0 || (qsize > 0 && q != null)
      invariant lo <= pi <= mid <= qi <= end <= |s|
      invariant psize == mid - pi && (psize > 0 ==> p == s[pi])
      invariant q == At(s, qi) && (qsize > 0 && q != null <==> qi < end)
      invariant qsize == insize - (qi - mid)
      invariant Merging(s, pi, mid, qi, end, le, out', list', tale', goal)
      decreases mid - pi + end - qi
    {
      NextInRuns(s, pi, mid, qi, end, le, out', list', tale', goal);
      var e: Element;
      if psize == 0 {
        e := q;
        q := q.next;
        qsize := qsize - 1;
        list', tale' := EmitRight(list', tale', e, s, pi, mid, qi, end, le, out', goal);
        qi := qi + 1;
      } else if qsize == 0 || q == null {
        e := p;
        p := p.next;
        psize := psize - 1;
        list', tale' := EmitLeft(list', tale', e, s, pi, mid, qi, end, le, out', goal);
        pi := pi + 1;
      } else if le(p, q) {
        e := p;
        p := p.next;
        psize := psize - 1;
        list', tale' := EmitLeft(list', tale', e, s, pi, mid, qi, end, le, out', goal);
        pi := pi + 1;
      } else {
        e := q;
        q := q.next;
        qsize := qsize - 1;
        list', tale' := EmitRight(list', tale', e, s, pi, mid, qi, end, le, out', goal);
        qi := qi + 1;
      }
      out' := out' + [e];
    }
    MergeEnds(s, mid, end, le, out', list', tale', goal);
  }

  lemma PassStarts(s: seq<Element>, insize: nat, le: Order)
    requires insize > 0 && Distinct(s) && Walkable(s, 0, |s|)
    ensures Passing(s, 0, [], null, null)
    ensures [] + MergePass(s[0..], insize, le) == MergePass(s, insize, le)
  {
    assert s[0..] == s;
  }

  /** One merge brings the output one step closer to the result of the pass. */
  lemma PassStep(s: seq<Element>, lo: nat, insize: nat, le: Order, before: seq<Element>, after: seq<Element>)
    requires insize > 0 && lo < |s|
    requires var m, n := lo + Min(insize, |s| - lo), lo + Min(2 * insize, |s| - lo);
             after == before + Merge(s[lo..m], s[m..n], le)
    ensures var n := lo + Min(2 * insize, |s| - lo);
            && before + MergePass(s[lo..], insize, le) == after + MergePass(s[n..], insize, le)
            && Merges(|s| - lo, insize) == 1 + Merges(|s| - n, insize)
            && |after| == |before| + n - lo
  {
    hide Merge, MergePass;
    var m, n := lo + Min(insize, |s| - lo), lo + Min(2 * insize, |s| - lo);
    var merged, rest := Merge(s[lo..m], s[m..n], le), MergePass(s[n..], insize, le);
    PassUnfolds(s, lo, insize, le);
    assert before + (merged + rest) == before + merged + rest;
  }

  lemma PassUnfolds(s: seq<Element>, lo: nat, insize: nat, le: Order)
    requires insize > 0 && lo < |s|
    ensures var m, n := lo + Min(insize, |s| - lo), lo + Min(2 * insize, |s| - lo);
            MergePass(s[lo..], insize, le) == Merge(s[lo..m], s[m..n], le) + MergePass(s[n..], insize, le)
  {
    hide Merge;
    var m, n := Min(insize, |s| - lo), Min(2 * insize, |s| - lo);
    SliceOfTail(s, lo, 0, m);
    SliceOfTail(s, lo, m, n);
    SliceOfTail(s, lo, n, |s| - lo);
  }

  lemma SliceOfTail(s: seq<Element>, lo: nat, a: nat, b: nat)
    requires lo <= |s| && a <= b <= |s| - lo
    ensures s[lo..][a..b] == s[lo + a..lo + b]
    ensures b == |s| - lo ==> s[lo..][a..] == s[lo + a..]
  {
  }

  lemma PassEnds(s: seq<Element>, insize: nat, le: Order, out: seq<Element>)
    requires insize > 0
    ensures out + MergePass(s[|s|..], insize, le) == out
    ensures Merges(0, insize) == 0
  {
  }

  method CloseList(tale: Element, ghost out: seq<Element>)
    requires Written(out) && Distinct(out) && out != [] && tale == out[|out| - 1]
    modifies tale`next
    ensures Listed(out)
  {
    tale.next := null;
  }

  /** One pass over the whole list. */
  method MergeOnce(list: Element, insize: nat, le: Order, ghost s: seq<Element>)
    returns (list': Element, tale: Element, nmerges: nat)
    requires insize > 0 && s != [] && list == s[0] && Distinct(s) && Walkable(s, 0, |s|)
    modifies s`next, s`prev
    ensures var r := MergePass(s, insize, le);
            Distinct(r) && Listed(r) && Within'(r, s) && list' == r[0] && tale == r[|s| - 1]
    ensures nmerges == Merges(|s|, insize)
  {
    hide Written, Walkable, Distinct, Apart, Merge, MergePass, Merges;
    var p: Element? := list;
    var l: Element?, t: Element? := null, null;
    ghost var lo, out := 0, [];
    nmerges := 0;
    PassStarts(s, insize, le);
    while p != null
      invariant lo <= |s| && p == At(s, lo)
      invariant Passing(s, lo, out, l, t) && |out| == lo
      invariant out + MergePass(s[lo..], insize, le) == MergePass(s, insize, le)
      invariant nmerges + Merges(|s| - lo, insize) == Merges(|s|, insize)
      decreases |s| - lo
    {
      nmerges := nmerges + 1;
      ghost var before := out;
      l, t, p, out := MergeRuns(p, insize, l, t, le, s, lo, out);
      PassStep(s, lo, insize, le, before, out);
      lo := lo + Min(2 * insize, |s| - lo);
    }
    PassEnds(s, insize, le, out);
    CloseList(t, out);
    list', tale := l, t;
  }

  lemma ListedIsWalkable(s: seq<Element>)
    requires Listed(s)
    ensures Walkable(s, 0, |s|)
  {
  }

  lemma StillWithin(r: seq<Element>, s: seq<Element>, t: seq<Element>)
    requires Within'(r, s) && Within'(s, t)
    ensures Within'(r, t)
  {
  }

  /** Passes with doubled run lengths until one merge covers the whole list. */
  method SortList(head: Element, le: Order, ghost s: seq<Element>) returns (head': Element, tail: Element)
    requires s != [] && head == s[0] && Distinct(s) && Listed(s)
    modifies s`next, s`prev
    ensures var r := SortFrom(s, 1, le);
            Distinct(r) && Listed(r) && head' == r[0] && tail == r[|s| - 1]
  {
    hide Listed, Walkable, Distinct, MergePass, Merges, Within';
    var insize, looping := 1, true;
    ghost var cur := s;
    var list := head;
    head', tail := head, head;
    Itself(s);
    while looping
      invariant insize > 0 && |cur| == |s| && (looping ==> insize <= |s|)
      invariant list == cur[0] && Distinct(cur) && Listed(cur) && Within'(cur, s)
      invariant if looping then SortFrom(cur, insize, le) == SortFrom(s, 1, le)
                else cur == SortFrom(s, 1, le) && head' == cur[0] && tail == cur[|s| - 1]
      decreases if looping then 1 + |s| - insize else 0
    {
      var tale, nmerges;
      ListedIsWalkable(cur);
      ghost var next := MergePass(cur, insize, le);
      list, tale, nmerges := MergeWithin(list, insize, le, cur, s);
      StillWithin(next, cur, s);
      cur := next;
      if nmerges <= 1 {
        looping := false;
        tail := tale;
        head' := list;
      }
      insize := insize * 2;
    }
  }

  lemma Itself(s: seq<Element>)
    ensures Within'(s, s)
  {
  }

  /** A pass over a list drawn from s relinks elements of s only. */
  method MergeWithin(list: Element, insize: nat, le: Order, ghost cur: seq<Element>, ghost s: seq<Element>)
    returns (list': Element, tale: Element, nmerges: nat)
    requires insize > 0 && cur != [] && list == cur[0] && Distinct(cur) && Walkable(cur, 0, |cur|) && Within'(cur, s)
    modifies s`next, s`prev
    ensures var r := MergePass(cur, insize, le);
            Distinct(r) && Listed(r) && Within'(r, cur) && list' == r[0] && tale == r[|cur| - 1]
    ensures (nmerges <= 1) == (|cur| <= 2 * insize)
  {
    list', tale, nmerges := MergeOnce(list, insize, le, cur);
  }
}
