/** Whole runs of a client that adds with and without looking, deletes keys and
    sorts: the table behaves as a list of entries, as a dictionary while no key is
    added twice, and every integrity check along the way succeeds, whatever the hash
    function and however often the table doubles. */
module TableRuns {
  import opened Handles
  import opened StableMerge
  import opened Buckets
  import opened Uthash
  import opened Fsck

  type Entry = (string, nat)

  datatype Op =
    | Insert(key: string, data: nat)
    | AddIfAbsent(key: string, data: nat)
    | DeleteKey(key: string)
    | SortBy(le: (Entry, Entry) -> bool)

  type Dictionary = map<string, nat>

  function Apply(d: Dictionary, op: Op): Dictionary {
    match op
    case Insert(key, data) => d[key := data]
    case AddIfAbsent(key, data) => if key in d then d else d[key := data]
    case DeleteKey(key) => d - {key}
    case SortBy(_) => d
  }

  function ApplyAll(d: Dictionary, ops: seq<Op>): Dictionary {
    if ops == [] then d else Apply(ApplyAll(d, ops[..|ops| - 1]), ops[|ops| - 1])
  }

  /** One element per key, and its data is the dictionary's value. */
  ghost predicate Implements(items: set<Element>, d: Dictionary) {
    && (forall e :: e in items ==> e.key in d && d[e.key] == e.data)
    && (forall e, e' :: e in items && e' in items && e.key == e'.key ==> e == e')
    && (forall key :: key in d ==> exists e :: e in items && e.key == key)
  }

  lemma ImplementsAdd(items: set<Element>, d: Dictionary, e: Element)
    requires Implements(items, d) && e.key !in d
    ensures Implements(items + {e}, d[e.key := e.data])
  {
    var d' := d[e.key := e.data];
    forall key | key in d' ensures exists x :: x in items + {e} && x.key == key {
      if key == e.key {
        assert e in items + {e};
      } else {
        var x :| x in items && x.key == key;
        assert x in items + {e};
      }
    }
  }

  lemma ImplementsRemove(items: set<Element>, d: Dictionary, e: Element)
    requires Implements(items, d) && e in items
    ensures Implements(items - {e}, d - {e.key})
  {
    forall key | key in d - {e.key} ensures exists x :: x in items - {e} && x.key == key {
      var x :| x in items && x.key == key;
      assert x in items - {e};
    }
  }

  lemma LookupFinds(app: seq<Element>, d: Dictionary, key: string)
    requires Implements(Members(app), d)
    ensures FirstWithKey(app, key) == null <==> key !in d
    ensures FirstWithKey(app, key) != null ==> FirstWithKey(app, key) in app && FirstWithKey(app, key).key == key && FirstWithKey(app, key).data == d[key]
  {
    FirstWithKeyFound(app, key);
    if key in d {
      var e :| e in Members(app) && e.key == key;
      assert e in app;
    } else if FirstWithKey(app, key) != null {
      assert FirstWithKey(app, key) in Members(app);
    }
  }

  lemma MembersAppend(s: seq<Element>, e: Element)
    ensures Members(s + [e]) == Members(s) + {e}
  {
  }

  lemma MembersRemove(s: seq<Element>, e: Element)
    requires Distinct(s) && e in s
    ensures Members(RemoveAt(s, IndexOf(s, e))) == Members(s) - {e}
  {
    RemoveAtMembers(s, IndexOf(s, e));
  }

  /** HASH_FIND finds an entry of the key if there is one; on a table that implements a
      dictionary it is the dictionary's lookup. */
  method Lookup(table: HashTable, key: string, ghost d: Dictionary) returns (out: Element?)
    requires table.Valid()
    ensures out == null <==> FirstWithKey(table.app, key) == null
    ensures out != null ==> out in table.app && out.key == key
    ensures Implements(Members(table.app), d) ==> if out == null then key !in d else key in d && out.data == d[key]
  {
    hide HashTable.Valid;
    out := table.Find(key);
    if Implements(Members(table.app), d) {
      LookupFinds(table.app, d, key);
      if out != null {
        assert out in Members(table.app);
      }
    }
  }

  /** The comparator of the client sees the entries. */
  function ByEntry(le: (Entry, Entry) -> bool): (Element, Element) -> bool {
    (a: Element, b: Element) => le((a.key, a.data), (b.key, b.data))
  }

  /** A comparator must be a total preorder. */
  ghost predicate Sound(op: Op) {
    op.SortBy? ==>
      && (forall x, y :: op.le(x, y) || op.le(y, x))
      && (forall x, y, z :: op.le(x, y) && op.le(y, z) ==> op.le(x, z))
  }

  lemma EntriesPreorder(op: Op, s: set<Element>)
    requires op.SortBy? && Sound(op)
    ensures TotalPreorder(ByEntry(op.le), s)
  {
  }

  /** What an operation does to the list of entries. */
  ghost predicate Moves(before: seq<Element>, op: Op, after: seq<Element>) {
    match op
    case Insert(key, data) => Appended(before, after, key, data)
    case AddIfAbsent(key, data) =>
      if FirstWithKey(before, key) != null then after == before else Appended(before, after, key, data)
    case DeleteKey(key) =>
      if FirstWithKey(before, key) == null then after == before
      else exists k :: 0 <= k < |before| && before[k].key == key && after == RemoveAt(before, k)
    case SortBy(le) => StableSortOf(after, before, ByEntry(le))
  }

  /** Not a second entry for a key. */
  predicate Fresh(d: Dictionary, op: Op) {
    op.Insert? ==> op.key !in d
  }

  method Append(table: HashTable, key: string, data: nat, ghost d: Dictionary)
    requires table.Valid()
    modifies table, table.buckets, table.app
    ensures table.Valid() && Appended(old(table.app), table.app, key, data)
    ensures old(Implements(Members(table.app), d)) && key !in d ==> Implements(Members(table.app), d[key := data])
    ensures table.buckets == old(table.buckets) || fresh(table.buckets)
    ensures forall k :: 0 <= k < |table.app| ==> table.app[k] in old(table.app) || fresh(table.app[k])
  {
    hide HashTable.Valid, Implements, ChainsAfterAdd;
    var entry := new Element(key, data);
    if Implements(Members(table.app), d) && key !in d {
      ImplementsAdd(Members(table.app), d, entry);
    }
    MembersAppend(table.app, entry);
    table.Add(entry);
  }

  method Remove(table: HashTable, key: string, ghost d: Dictionary)
    requires table.Valid()
    modifies table, table.buckets, table.app
    ensures table.Valid() && Moves(old(table.app), DeleteKey(key), table.app) && table.buckets == old(table.buckets)
    ensures old(Implements(Members(table.app), d)) ==> Implements(Members(table.app), d - {key})
    ensures forall k :: 0 <= k < |table.app| ==> table.app[k] in old(table.app)
  {
    hide HashTable.Valid, Implements, ChainsAfterDelete, FirstWithKey;
    var found := Lookup(table, key, d);
    if found != null {
      if Implements(Members(table.app), d) {
        ImplementsRemove(Members(table.app), d, found);
      }
      ListIsDistinct(table);
      MembersRemove(table.app, found);
      table.Delete(found);
    } else if Implements(Members(table.app), d) {
      assert d - {key} == d;
    }
  }

  lemma ListIsDistinct(table: HashTable)
    requires table.Valid()
    ensures Distinct(table.app)
  {
  }

  /** One operation of the client. */
  method Perform(table: HashTable, op: Op, ghost d: Dictionary)
    requires table.Valid() && Sound(op)
    modifies table, table.buckets, table.app
    ensures table.Valid() && Moves(old(table.app), op, table.app)
    ensures old(Implements(Members(table.app), d)) && Fresh(d, op) ==> Implements(Members(table.app), Apply(d, op))
    ensures table.buckets == old(table.buckets) || fresh(table.buckets)
    ensures forall k :: 0 <= k < |table.app| ==> table.app[k] in old(table.app) || fresh(table.app[k])
  {
    hide HashTable.Valid, Implements, StableSortOf, FirstWithKey, Appended;
    match op {
      case Insert(key, data) =>
        Append(table, key, data, d);
      case AddIfAbsent(key, data) =>
        var found := Lookup(table, key, d);
        if found == null {
          Append(table, key, data, d);
        }
      case DeleteKey(key) =>
        Remove(table, key, d);
      case SortBy(le) =>
        ghost var before := table.app;
        EntriesPreorder(op, Members(table.app));
        table.Sort(ByEntry(le));
        SortKeepsMembers(table.app, before, ByEntry(le));
    }
  }

  lemma SortKeepsMembers(r: seq<Element>, s: seq<Element>, le: (Element, Element) -> bool)
    requires StableSortOf(r, s, le)
    ensures Members(r) == Members(s)
    ensures forall k :: 0 <= k < |r| ==> r[k] in s
  {
    MembersOfPermutation(r, s);
    forall k | 0 <= k < |r| ensures r[k] in s {
      assert r[k] in Members(r);
    }
  }

  /** The lists a run goes through. */
  ghost predicate Trace(lists: seq<seq<Element>>, ops: seq<Op>) {
    && |lists| == |ops| + 1 && lists[0] == []
    && forall i :: 0 <= i < |ops| ==> Moves(lists[i], ops[i], lists[i + 1])
  }

  /** No key is added while it is there. */
  ghost predicate NoDuplicates(ops: seq<Op>) {
    forall i :: 0 <= i < |ops| ==> Fresh(ApplyAll(map[], ops[..i]), ops[i])
  }

  lemma TraceStep(lists: seq<seq<Element>>, ops: seq<Op>, i: nat, next: seq<Element>)
    requires i < |ops| && Trace(lists, ops[..i]) && Moves(lists[i], ops[i], next)
    ensures Trace(lists + [next], ops[..i + 1])
  {
    hide Moves;
  }

  lemma DictionaryStep(ops: seq<Op>, i: nat)
    requires i < |ops|
    ensures ApplyAll(map[], ops[..i + 1]) == Apply(ApplyAll(map[], ops[..i]), ops[i])
    ensures NoDuplicates(ops) ==> Fresh(ApplyAll(map[], ops[..i]), ops[i])
  {
    hide Apply;
    assert ops[..i + 1][..i] == ops[..i];
  }

  /** A whole run, checking the table's integrity after every operation. */
  method Run(table: HashTable, ops: seq<Op>) returns (ok: bool, ghost lists: seq<seq<Element>>)
    requires table.Valid() && table.app == [] && forall i :: 0 <= i < |ops| ==> Sound(ops[i])
    modifies table, table.buckets, table.app
    ensures ok && table.Valid() && Trace(lists, ops) && table.app == lists[|ops|]
    ensures NoDuplicates(ops) ==> Implements(Members(table.app), ApplyAll(map[], ops))
    ensures table.buckets == old(table.buckets) || fresh(table.buckets)
    ensures forall k :: 0 <= k < |table.app| ==> table.app[k] in old(table.app) || fresh(table.app[k])
  {
    hide HashTable.Valid, Apply, ApplyAll, Moves, Implements, NoDuplicates, Sound;
    ok, lists := true, [[]];
    NothingYet();
    assert ops[..0] == [];
    for i := 0 to |ops|
      invariant ok && table.Valid() && Trace(lists, ops[..i]) && table.app == lists[i]
      invariant NoDuplicates(ops) ==> Implements(Members(table.app), ApplyAll(map[], ops[..i]))
      invariant table.buckets == old(table.buckets) || fresh(table.buckets)
      invariant forall k :: 0 <= k < |table.app| ==> table.app[k] in old(table.app) || fresh(table.app[k])
    {
      DictionaryStep(ops, i);
      Perform(table, ops[i], ApplyAll(map[], ops[..i]));
      TraceStep(lists, ops, i, table.app);
      lists := lists + [table.app];
      ValidPasses(table);
      var sound := Check(table);
      ok := ok && sound;
    }
    assert ops[..|ops|] == ops;
  }

  lemma NothingYet()
    ensures Implements(Members([]), ApplyAll(map[], []))
  {
  }

  /** A run on a table of its own. */
  method RunFromNew(h: string -> nat, ops: seq<Op>) returns (ok: bool, ghost entries: seq<Entry>)
    requires forall i :: 0 <= i < |ops| ==> Sound(ops[i])
    ensures ok
    ensures NoDuplicates(ops) ==> Lists(entries, ApplyAll(map[], ops))
  {
    hide HashTable.Valid, Apply, ApplyAll, Moves, Implements, NoDuplicates, Sound, Lists;
    var table := new HashTable(h);
    ghost var lists;
    ok, lists := Run(table, ops);
    ghost var app := table.app;
    entries := seq(|app|, k requires 0 <= k < |app| => (app[k].key, app[k].data));
    ListIsDistinct(table);
    if NoDuplicates(ops) {
      EntriesOf(app, ApplyAll(map[], ops), entries);
    }
  }

  /** The entries are those of the dictionary, each once. */
  ghost predicate Lists(entries: seq<Entry>, d: Dictionary) {
    && (forall k :: 0 <= k < |entries| ==> entries[k].0 in d && d[entries[k].0] == entries[k].1)
    && (forall j, k :: 0 <= j < k < |entries| ==> entries[j].0 != entries[k].0)
    && (forall key :: key in d ==> (key, d[key]) in entries)
  }

  lemma EntriesOf(app: seq<Element>, d: Dictionary, entries: seq<Entry>)
    requires Distinct(app) && Implements(Members(app), d)
    requires |entries| == |app| && forall k :: 0 <= k < |app| ==> entries[k] == (app[k].key, app[k].data)
    ensures Lists(entries, d)
  {
    forall k | 0 <= k < |app|
      ensures app[k] in Members(app)
    {
    }
    forall key | key in d
      ensures (key, d[key]) in entries
    {
      var e :| e in Members(app) && e.key == key;
      var k :| 0 <= k < |app| && app[k] == e;
      assert entries[k] == (key, d[key]);
    }
  }
}
