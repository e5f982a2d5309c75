/** The device-discovery gate: events of registered devices pass, events of
    unregistered devices are dropped, and the first event of a new device raises
    one alert. */
module DeviceGate {
  import opened Bits
  import opened Handles
  import opened Redistribution
  import opened Buckets
  import opened Uthash

  const STATUS_NOT_FOUND: nat := 1
  const STATUS_REGISTERED: nat := 2
  const STATUS_UNREGISTERED: nat := 3

  const ACTION_DROP: nat := 1
  const ACTION_NEWDEV_ALERT: nat := 2

  datatype Event = Event(action: nat, deviceId: string, deviceName: string)

  type Known = map<string, nat>

  ghost predicate Statuses(known: Known) {
    forall id :: id in known ==> known[id] == STATUS_REGISTERED || known[id] == STATUS_UNREGISTERED
  }

  function StatusIn(known: Known, id: string): nat {
    if id in known then known[id] else STATUS_NOT_FOUND
  }

  /** A missing device id counts as "unknown". */
  function EffectiveId(id: string): string {
    if id == "" then "unknown" else id
  }

  datatype Outcome = Outcome(known: Known, event: Event)

  /** What the gate does with one event. */
  function Step(known: Known, ev: Event): Outcome {
    if ev.action == ACTION_NEWDEV_ALERT then Outcome(known, ev.(deviceId := "new"))
    else
      var id := EffectiveId(ev.deviceId);
      var seen := ev.(deviceId := id);
      if StatusIn(known, id) == STATUS_REGISTERED then Outcome(known, seen)
      else if StatusIn(known, id) == STATUS_UNREGISTERED then Outcome(known, seen.(action := ACTION_DROP))
      else if StatusIn(known, id) == STATUS_NOT_FOUND then
        var status := if StatusIn(known, ev.deviceName) == STATUS_REGISTERED && id != "unknown"
                      then STATUS_REGISTERED else STATUS_UNREGISTERED;
        Outcome(known[id := status], seen.(action := ACTION_NEWDEV_ALERT))
      else Outcome(known, seen)
  }

  /** What is known after a run of events. */
  function KnownAfter(known: Known, events: seq<Event>): Known {
    if events == [] then known else Step(KnownAfter(known, events[..|events| - 1]), events[|events| - 1]).known
  }

  /** The i-th event as the gate leaves it. */
  function Result(known: Known, events: seq<Event>, i: nat): Event
    requires i < |events|
  {
    Step(KnownAfter(known, events[..i]), events[i]).event
  }

  /** An event of the given device that reaches the status check. */
  predicate Concerns(ev: Event, id: string) {
    ev.action != ACTION_NEWDEV_ALERT && EffectiveId(ev.deviceId) == id
  }

  ghost predicate Alerts(known: Known, events: seq<Event>, i: nat, id: string)
    requires i < |events|
  {
    Concerns(events[i], id) && Result(known, events, i).action == ACTION_NEWDEV_ALERT
  }

  lemma StepGrows(known: Known, ev: Event)
    requires Statuses(known)
    ensures Statuses(Step(known, ev).known)
    ensures forall id :: id in known ==> id in Step(known, ev).known && Step(known, ev).known[id] == known[id]
  {
  }

  /** The set of known devices only grows, and no status ever changes. */
  lemma {:induction false} KnownGrows(known: Known, events: seq<Event>, i: nat, j: nat, id: string)
    requires Statuses(known) && i <= j <= |events|
    ensures Statuses(KnownAfter(known, events[..j]))
    ensures id in KnownAfter(known, events[..i]) ==>
              id in KnownAfter(known, events[..j])
              && KnownAfter(known, events[..j])[id] == KnownAfter(known, events[..i])[id]
    decreases j
  {
    hide Step, Statuses;
    if j == 0 {
      assert events[..0] == [];
    } else {
      assert events[..j][..j - 1] == events[..j - 1];
      if i < j {
        KnownGrows(known, events, i, j - 1, id);
      } else {
        KnownGrows(known, events, j - 1, j - 1, id);
      }
      StepGrows(KnownAfter(known, events[..j - 1]), events[j - 1]);
    }
  }

  /** An alert makes the device known. */
  lemma AlertRegisters(known: Known, events: seq<Event>, i: nat, id: string)
    requires Statuses(known) && i < |events| && Alerts(known, events, i, id)
    ensures id !in KnownAfter(known, events[..i])
    ensures id in KnownAfter(known, events[..i + 1])
  {
    KnownGrows(known, events, i, i, id);
    assert events[..i + 1][..i] == events[..i];
  }

  /** Over any run, each device id raises at most one alert. */
  lemma AtMostOneAlert(known: Known, events: seq<Event>, i: nat, j: nat, id: string)
    requires Statuses(known) && i < |events| && j < |events|
    requires Alerts(known, events, i, id) && Alerts(known, events, j, id)
    ensures i == j
  {
    AlertRegisters(known, events, i, id);
    AlertRegisters(known, events, j, id);
    if i < j {
      KnownGrows(known, events, i + 1, j, id);
    } else if j < i {
      KnownGrows(known, events, j + 1, i, id);
    }
  }

  /** Once a device is known, its events are all accepted or all dropped, for ever. */
  lemma SameTreatmentForEver(known: Known, events: seq<Event>, i: nat, j: nat, id: string)
    requires Statuses(known) && i <= j < |events|
    requires id in KnownAfter(known, events[..i]) && Concerns(events[j], id)
    ensures Result(known, events, j) ==
              var seen := events[j].(deviceId := id);
              if KnownAfter(known, events[..i])[id] == STATUS_REGISTERED then seen else seen.(action := ACTION_DROP)
  {
    KnownGrows(known, events, i, j, id);
  }

  /** After the alert of a device, two later events of it meet the same fate. */
  lemma AfterAlert(known: Known, events: seq<Event>, i: nat, j: nat, k: nat, id: string)
    requires Statuses(known) && i < j < |events| && i < k < |events|
    requires Alerts(known, events, i, id) && Concerns(events[j], id) && Concerns(events[k], id)
    ensures (Result(known, events, j) == events[j].(deviceId := id) && Result(known, events, k) == events[k].(deviceId := id))
         || (Result(known, events, j).action == ACTION_DROP && Result(known, events, k).action == ACTION_DROP)
  {
    AlertRegisters(known, events, i, id);
    SameTreatmentForEver(known, events, i + 1, j, id);
    SameTreatmentForEver(known, events, i + 1, k, id);
  }

  /** A device is known exactly when it was at the start or an event of it has come. */
  lemma {:induction false} KnownExactly(known: Known, events: seq<Event>, id: string)
    requires Statuses(known)
    ensures id in KnownAfter(known, events) <==> id in known || exists k :: 0 <= k < |events| && Concerns(events[k], id)
  {
    if events != [] {
      var m := |events| - 1;
      var before := KnownAfter(known, events[..m]);
      KnownExactly(known, events[..m], id);
      KnownGrows(known, events, m, m, id);
      StepKnows(before, events[m], id);
      if k :| 0 <= k < m && Concerns(events[..m][k], id) {
        assert Concerns(events[k], id);
      }
      if k :| 0 <= k < |events| && Concerns(events[k], id) && k < m {
        assert Concerns(events[..m][k], id);
      }
    }
  }

  lemma StepKnows(known: Known, ev: Event, id: string)
    requires Statuses(known)
    ensures id in Step(known, ev).known <==> id in known || Concerns(ev, id)
  {
  }

  /** An event that is an alert already passes with a new id and teaches nothing. */
  lemma AlertsPass(known: Known, ev: Event)
    requires ev.action == 2
    ensures Step(known, ev) == Outcome(known, ev.(deviceId := "new"))
  {
  }

  /** The fate of a new device: its first event is an alert; later ones are accepted exactly if
      the first one came with an id and under the name of a registered device. */
  lemma FateOfNewDevice(known: Known, events: seq<Event>, i: nat, j: nat, id: string)
    requires Statuses(known) && i < j < |events| && id !in KnownAfter(known, events[..i])
    requires Concerns(events[i], id) && Concerns(events[j], id)
    ensures Result(known, events, i) == events[i].(deviceId := id, action := ACTION_NEWDEV_ALERT)
    ensures Result(known, events, j) == Fate(events[j], id, Vouched(KnownAfter(known, events[..i]), events[i]))
  {
    assert events[..i + 1][..i] == events[..i];
    SameTreatmentForEver(known, events, i + 1, j, id);
  }

  /** The first event of a new device settles its status. */
  lemma StatusOfNewDevice(known: Known, events: seq<Event>, i: nat, j: nat, id: string)
    requires Statuses(known) && i < j <= |events| && id !in KnownAfter(known, events[..i]) && Concerns(events[i], id)
    ensures id in KnownAfter(known, events[..j])
    ensures KnownAfter(known, events[..j])[id] == if Vouched(KnownAfter(known, events[..i]), events[i]) then STATUS_REGISTERED else STATUS_UNREGISTERED
  {
    assert events[..i + 1][..i] == events[..i];
    KnownGrows(known, events, i + 1, j, id);
  }

  /** The event has an id and comes under the name of a registered device. */
  predicate Vouched(known: Known, ev: Event) {
    ev.deviceId != "" && ev.deviceId != "unknown" && ev.deviceName in known && known[ev.deviceName] == STATUS_REGISTERED
  }

  function Fate(ev: Event, id: string, accepted: bool): Event {
    if accepted then ev.(deviceId := id) else ev.(deviceId := id, action := ACTION_DROP)
  }

  /** The fate of a device of the start-up files. */
  lemma FateOfKnownDevice(known: Known, events: seq<Event>, j: nat, id: string)
    requires Statuses(known) && j < |events| && id in known && Concerns(events[j], id)
    ensures Result(known, events, j) == Fate(events[j], id, known[id] == STATUS_REGISTERED)
  {
    assert events[..0] == [];
    SameTreatmentForEver(known, events, 0, j, id);
  }

  /** The table holds exactly the known ids, and all entries of an id agree. */
  ghost predicate Represents(app: seq<Element>, known: Known) {
    && (forall e :: e in app ==> e.key in known && known[e.key] == e.data)
    && (forall id :: id in known ==> FirstWithKey(app, id) != null)
  }

  lemma RepresentsAppend(app: seq<Element>, known: Known, e: Element)
    requires Represents(app, known) && (e.key in known ==> known[e.key] == e.data)
    ensures Represents(app + [e], known[e.key := e.data])
  {
    forall id | id in known[e.key := e.data] ensures FirstWithKey(app + [e], id) != null {
      FirstWithKeyAppend(app, e, id);
    }
  }

  lemma HeadExists(table: HashTable)
    requires table.Valid()
    ensures table.head != null <==> table.app != []
    ensures table.head != null ==> |table.chains| == table.numBuckets == table.buckets.Length > 0
  {
    table.HeadInList();
    if table.head != null {
      table.TableExists();
    }
  }

  /** devid_hash_add: allocates an entry and adds it to the table, whether or not the id is
      there. If that gives no id two statuses, what is known grows by the id. */
  method DevidAdd(table: HashTable, devid: string, status: nat, ghost known: Known)
    requires table.Valid()
    modifies table, table.buckets, table.app
    ensures table.Valid() && Appended(old(table.app), table.app, devid, status)
    ensures old(Represents(table.app, known)) && (devid in known ==> known[devid] == status) ==>
              Represents(table.app, known[devid := status])
    ensures table.buckets == old(table.buckets) || fresh(table.buckets)
    ensures forall k :: 0 <= k < |table.app| ==> table.app[k] in old(table.app) || fresh(table.app[k])
    ensures old(table.head) != null ==>
              |old(table.chains)| > 0 && ChainsAfterAdd(old(table.chains), table.app[|table.app| - 1], table.hashFn, old(table.Doubles(devid)), table.chains)
    ensures old(table.head) == null ==>
              ChainsAfterAdd(seq(INITIAL_NUM_BUCKETS, _ => []), table.app[|table.app| - 1], table.hashFn, false, table.chains)
    ensures old(table.head) == null || old(table.Unstrained() && !table.Doubles(devid)) ==> table.Unstrained()
  {
    hide HashTable.Valid, FirstWithKey, ChainsAfterAdd, Represents;
    HeadExists(table);
    var entry := new Element(devid, status);
    if Represents(table.app, known) && (devid in known ==> known[devid] == status) {
      RepresentsAppend(table.app, known, entry);
    }
    table.Add(entry);
  }

  ghost function StatusOf(e: Element?): nat {
    if e == null then STATUS_NOT_FOUND else e.data
  }

  /** devid_hash_get_status: the status of the entry found, or the not-found status. */
  method DevidGetStatus(table: HashTable, devid: string, ghost known: Known) returns (status: nat)
    requires table.Valid()
    ensures table.head != null ==>
              |table.chains| > 0 && status == StatusOf(FirstWithKey(table.chains[BucketOf(table.hashFn, |table.chains|, devid)], devid))
    ensures Represents(table.app, known) ==> status == StatusIn(known, devid)
  {
    hide HashTable.Valid;
    var entry := table.Find(devid);
    FirstWithKeyFound(table.app, devid);
    status := if entry != null then entry.data else STATUS_NOT_FOUND;
  }

  /** devid_hash_delete: removes one entry of the id, if there is one. */
  method DevidDelete(table: HashTable, devid: string)
    requires table.Valid()
    modifies table, table.buckets, table.app
    ensures table.Valid() && table.buckets == old(table.buckets)
    ensures FirstWithKey(old(table.app), devid) == null ==> table.app == old(table.app)
    ensures FirstWithKey(old(table.app), devid) != null ==>
              exists k :: 0 <= k < |old(table.app)| && old(table.app)[k].key == devid && table.app == RemoveAt(old(table.app), k)
  {
    hide HashTable.Valid, FirstWithKey;
    var entry := table.Find(devid);
    if entry != null {
      table.Delete(entry);
    }
  }

  /** What is known once every id of a file has been added with one status. */
  function WithIds(known: Known, ids: seq<string>, status: nat): Known {
    known + map id | id in ids :: status
  }

  /** No id gets a second status. */
  ghost predicate Agrees(known: Known, ids: seq<string>, status: nat) {
    forall id :: id in ids && id in known ==> known[id] == status
  }

  /** The entries of a file follow what was there. */
  ghost predicate Loaded(before: seq<Element>, after: seq<Element>, ids: seq<string>, status: nat) {
    && |after| == |before| + |ids| && after[..|before|] == before
    && forall k :: |before| <= k < |after| ==> after[k].key == ids[k - |before|] && after[k].data == status
  }

  lemma LoadedStep(before: seq<Element>, mid: seq<Element>, after: seq<Element>, ids: seq<string>, i: nat, status: nat)
    requires i < |ids| && Loaded(before, mid, ids[..i], status) && Appended(mid, after, ids[i], status)
    ensures Loaded(before, after, ids[..i + 1], status)
  {
    assert after[..|before|] == mid[..|before|];
    assert forall k :: 0 <= k < |mid| ==> after[k] == mid[k];
  }

  lemma WithIdsStep(known: Known, ids: seq<string>, i: nat, status: nat)
    requires i < |ids|
    ensures WithIds(known, ids[..i + 1], status) == WithIds(known, ids[..i], status)[ids[i] := status]
    ensures Agrees(known, ids, status) && ids[i] in WithIds(known, ids[..i], status) ==> WithIds(known, ids[..i], status)[ids[i]] == status
  {
    assert ids[..i + 1] == ids[..i] + [ids[i]];
  }

  /** add_devids_from_file: adds every id of a start-up file with one status. */
  method AddDevids(table: HashTable, ids: seq<string>, status: nat, ghost known: Known)
    requires table.Valid()
    modifies table, table.buckets, table.app
    ensures table.Valid() && Loaded(old(table.app), table.app, ids, status)
    ensures old(Represents(table.app, known)) && Agrees(known, ids, status) ==>
              Represents(table.app, WithIds(known, ids, status))
    ensures table.buckets == old(table.buckets) || fresh(table.buckets)
    ensures forall k :: 0 <= k < |table.app| ==> table.app[k] in old(table.app) || fresh(table.app[k])
  {
    hide HashTable.Valid, Represents, ChainsAfterAdd, HashTable.Doubles, Appended, Loaded, WithIds, Agrees;
    ghost var was := table.app;
    NothingLoaded(was, ids, status, known);
    for i := 0 to |ids|
      invariant table.Valid() && Loaded(was, table.app, ids[..i], status)
      invariant old(Represents(table.app, known)) && Agrees(known, ids, status) ==> Represents(table.app, WithIds(known, ids[..i], status))
      invariant table.buckets == old(table.buckets) || fresh(table.buckets)
      invariant forall k :: 0 <= k < |table.app| ==> table.app[k] in old(table.app) || fresh(table.app[k])
    {
      ghost var before := table.app;
      DevidAdd(table, ids[i], status, WithIds(known, ids[..i], status));
      LoadedStep(was, before, table.app, ids, i, status);
      WithIdsStep(known, ids, i, status);
    }
    assert ids[..|ids|] == ids;
  }

  lemma NothingLoaded(app: seq<Element>, ids: seq<string>, status: nat, known: Known)
    ensures Loaded(app, app, ids[..0], status) && WithIds(known, ids[..0], status) == known
  {
  }

  /** plugin_data_postinit: the registered ids, then the unregistered ones. When no id is in
      both files, what is known is exactly what they say. */
  method LoadDevids(table: HashTable, registered: seq<string>, unregistered: seq<string>)
    requires table.Valid() && table.app == []
    modifies table, table.buckets, table.app
    ensures table.Valid() && FromFiles(table.app, registered, unregistered)
    ensures (forall id :: id in registered ==> id !in unregistered) ==>
              Represents(table.app, StartUp(registered, unregistered)) && Statuses(StartUp(registered, unregistered))
    ensures table.buckets == old(table.buckets) || fresh(table.buckets)
    ensures forall k :: 0 <= k < |table.app| ==> table.app[k] in old(table.app) || fresh(table.app[k])
  {
    hide HashTable.Valid, Represents, WithIds, ChainsAfterAdd;
    NothingKnown(table.app);
    OneStatusEach(registered, unregistered);
    AddDevids(table, registered, STATUS_REGISTERED, map[]);
    ghost var mid := table.app;
    AddDevids(table, unregistered, STATUS_UNREGISTERED, WithIds(map[], registered, STATUS_REGISTERED));
    assert forall k :: 0 <= k < |mid| ==> table.app[k] == table.app[..|mid|][k];
  }

  lemma OneStatusEach(registered: seq<string>, unregistered: seq<string>)
    ensures Agrees(map[], registered, STATUS_REGISTERED)
    ensures (forall id :: id in registered ==> id !in unregistered) ==>
              Agrees(WithIds(map[], registered, STATUS_REGISTERED), unregistered, STATUS_UNREGISTERED)
              && Statuses(StartUp(registered, unregistered))
  {
  }

  /** One entry for every line of the two files, in their order. */
  ghost predicate FromFiles(app: seq<Element>, registered: seq<string>, unregistered: seq<string>) {
    var n := |registered|;
    && |app| == n + |unregistered|
    && (forall k :: 0 <= k < n ==> app[k].key == registered[k] && app[k].data == STATUS_REGISTERED)
    && (forall k :: n <= k < |app| ==> app[k].key == unregistered[k - n] && app[k].data == STATUS_UNREGISTERED)
  }

  function StartUp(registered: seq<string>, unregistered: seq<string>): Known {
    WithIds(WithIds(map[], registered, STATUS_REGISTERED), unregistered, STATUS_UNREGISTERED)
  }

  lemma NothingKnown(app: seq<Element>)
    requires app == []
    ensures Represents(app, map[])
  {
  }

  // Ids with two statuses.

  /** The first and the last entry of the id have the two statuses, in some order. */
  ghost predicate TwoStatuses(table: HashTable, id: string)
    requires |table.chains| > 0
    reads table`chains
  {
    var c := table.chains[BucketOf(table.hashFn, |table.chains|, id)];
    var a, b := StatusOf(FirstWithKey(c, id)), StatusOf(LastWithKey(c, id));
    (a == STATUS_REGISTERED && b == STATUS_UNREGISTERED) || (a == STATUS_UNREGISTERED && b == STATUS_REGISTERED)
  }

  predicate NoRepeats(ids: seq<string>) {
    forall i, j :: 0 <= i < j < |ids| ==> ids[i] != ids[j]
  }

  lemma {:induction false} LastWithKeyFound(s: seq<Element>, key: string)
    ensures LastWithKey(s, key) == null <==> forall e :: e in s ==> e.key != key
    ensures LastWithKey(s, key) != null ==> LastWithKey(s, key) in s && LastWithKey(s, key).key == key
  {
    if s != [] {
      LastWithKeyFound(s[..|s| - 1], key);
    }
  }

  /** The first and the last element of a key that has duplicates are two elements of the list. */
  lemma FirstAndLastDiffer(table: HashTable, id: string)
    requires table.Valid() && !Once(table.app, id)
    ensures |table.chains| > 0
    ensures var c := table.chains[BucketOf(table.hashFn, |table.chains|, id)];
            var a, b := FirstWithKey(c, id), LastWithKey(c, id);
            a != b && a != null && b != null && a in table.app && b in table.app && a.key == b.key == id
  {
    hide HashTable.Valid, FirstWithKey, LastWithKey, BucketOf, Partition;
    HeadExists(table);
    Parts(table);
    var b := BucketOf(table.hashFn, |table.chains|, id);
    var c := table.chains[b];
    OnceInChain(table.app, table.chains, table.hashFn, id);
    ChainIsDistinct(Members(table.app), table.chains, table.hashFn, b);
    FirstIsLast(c, id);
    FirstWithKeyFound(c, id);
    LastWithKeyFound(c, id);
    ChainMember(Members(table.app), table.chains, table.hashFn, b, LastWithKey(c, id));
    ChainMember(Members(table.app), table.chains, table.hashFn, b, FirstWithKey(c, id));
  }

  /** However often the table doubled while it was loaded, an id in both files has two statuses. */
  lemma BothFilesTwoStatuses(table: HashTable, registered: seq<string>, unregistered: seq<string>, id: string)
    requires table.Valid() && FromFiles(table.app, registered, unregistered)
    requires NoRepeats(registered) && NoRepeats(unregistered) && id in registered && id in unregistered
    ensures |table.chains| > 0 && TwoStatuses(table, id)
  {
    hide HashTable.Valid, FirstWithKey, LastWithKey, BucketOf, NoRepeats;
    var app := table.app;
    var i :| 0 <= i < |registered| && registered[i] == id;
    var j :| 0 <= j < |unregistered| && unregistered[j] == id;
    assert app[i].key == id && app[|registered| + j].key == id;
    FirstAndLastDiffer(table, id);
    var c := table.chains[BucketOf(table.hashFn, |table.chains|, id)];
    var k :| 0 <= k < |app| && app[k] == FirstWithKey(c, id);
    var l :| 0 <= l < |app| && app[l] == LastWithKey(c, id);
    OneOfTwo(registered, unregistered, i, j, k);
    OneOfTwo(registered, unregistered, i, j, l);
  }

  lemma OneOfTwo(registered: seq<string>, unregistered: seq<string>, i: nat, j: nat, k: nat)
    requires NoRepeats(registered) && NoRepeats(unregistered)
    requires i < |registered| && j < |unregistered| && k < |registered| + |unregistered|
    requires (if k < |registered| then registered[k] == registered[i] else unregistered[k - |registered|] == unregistered[j])
    ensures k == i || k == |registered| + j
  {
  }

  lemma ChainIsDistinct(items: set<Element>, chains: seq<seq<Element>>, h: string -> nat, b: nat)
    requires Partition(items, chains, h) && b < |chains|
    ensures Distinct(chains[b]) && DrawnFrom(chains, items) && Sifted(chains, h)
  {
  }

  lemma Parts(table: HashTable)
    requires table.Valid() && table.head != null
    ensures Distinct(table.app) && Partition(Members(table.app), table.chains, table.hashFn)
  {
  }

  function Other(status: nat): nat {
    if status == STATUS_REGISTERED then STATUS_UNREGISTERED else STATUS_REGISTERED
  }

  /** The entry a lookup of the id finds. */
  ghost function Found(table: HashTable, id: string): Element?
    requires |table.chains| > 0
    reads table`chains
  {
    FirstWithKey(table.chains[BucketOf(table.hashFn, |table.chains|, id)], id)
  }

  ghost function LastEntry(table: HashTable, id: string): Element?
    requires |table.chains| > 0
    reads table`chains
  {
    LastWithKey(table.chains[BucketOf(table.hashFn, |table.chains|, id)], id)
  }

  ghost predicate InUse(table: HashTable)
    reads table, table.buckets, table.app
  {
    table.Valid() && table.head != null && |table.chains| == table.numBuckets == table.buckets.Length > 0
  }

  /** The status of an id around the add of another one: it becomes that of the last entry if
      the add doubles the table, and stays otherwise. */
  method StatusAroundAdd(table: HashTable, id: string, devid: string, status: nat) returns (before: nat, after: nat)
    requires InUse(table) && devid != id
    modifies table, table.buckets, table.app
    ensures InUse(table) && Appended(old(table.app), table.app, devid, status)
    ensures |table.chains| == (if old(table.Doubles(devid)) then 2 else 1) * old(|table.chains|) > 0
    ensures before == old(StatusOf(Found(table, id))) && after == StatusOf(Found(table, id))
    ensures after == if old(table.Doubles(devid)) then old(StatusOf(LastEntry(table, id))) else before
    ensures old(TwoStatuses(table, id)) ==> TwoStatuses(table, id) && after == if old(table.Doubles(devid)) then Other(before) else before
    ensures ChainsAfterAdd(old(table.chains), table.app[|table.app| - 1], table.hashFn, old(table.Doubles(devid)), table.chains)
    ensures old(table.Unstrained() && !table.Doubles(devid)) ==> table.Unstrained()
    ensures table.buckets == old(table.buckets) || fresh(table.buckets)
    ensures forall k :: 0 <= k < |table.app| ==> table.app[k] in old(table.app) || fresh(table.app[k])
  {
    hide HashTable.Valid, FirstWithKey, LastWithKey, Represents, HashTable.Doubles, HashTable.Unstrained, BucketOf, NewChain;
    HeadExists(table);
    before := DevidGetStatus(table, id, map[]);
    ghost var chains, doubled := table.chains, table.Doubles(devid);
    DevidAdd(table, devid, status, map[]);
    HeadExists(table);
    after := DevidGetStatus(table, id, map[]);
    OtherKeyAdded(chains, table.app[|table.app| - 1], table.hashFn, doubled, table.chains, id);
  }

  /** An id in both start-up files: as other ids are added it changes its status at every
      doubling and at no other time. */
  method ConflictingFiles(table: HashTable, registered: seq<string>, unregistered: seq<string>, id: string, others: seq<string>)
    returns (before: nat, after: nat, ghost loaded: nat, ghost doublings: nat)
    requires table.Valid() && table.app == []
    requires NoRepeats(registered) && NoRepeats(unregistered) && id in registered && id in unregistered && id !in others
    modifies table, table.buckets, table.app
    ensures InUse(table) && loaded > 0 && |table.chains| == Pow2(doublings) * loaded
    ensures before == STATUS_REGISTERED || before == STATUS_UNREGISTERED
    ensures after == if doublings % 2 == 0 then before else Other(before)
    ensures table.buckets == old(table.buckets) || fresh(table.buckets)
    ensures forall k :: 0 <= k < |table.app| ==> table.app[k] in old(table.app) || fresh(table.app[k])
  {
    hide InUse, Found, TwoStatuses, StatusOf, Represents, HashTable.Doubles, HashTable.Unstrained, ChainsAfterAdd, Pow2;
    before := LoadConflicting(table, registered, unregistered, id);
    after, loaded, doublings := before, |table.chains|, 0;
    assert Pow2(0) == 1 by {
      PowersOfTwo(0);
    }
    for i := 0 to |others|
      invariant InUse(table) && |table.chains| > 0 && TwoStatuses(table, id) && after == StatusOf(Found(table, id))
      invariant |table.chains| == Pow2(doublings) * loaded
      invariant after == if doublings % 2 == 0 then before else Other(before)
      invariant table.buckets == old(table.buckets) || fresh(table.buckets)
      invariant forall k :: 0 <= k < |table.app| ==> table.app[k] in old(table.app) || fresh(table.app[k])
    {
      InUseSizes(table);
      ghost var doubles := table.Doubles(others[i]);
      var last;
      last, after := StatusAroundAdd(table, id, others[i], STATUS_UNREGISTERED);
      if doubles {
        PowersOfTwo(doublings);
        doublings := doublings + 1;
      }
    }
  }

  lemma InUseSizes(table: HashTable)
    requires InUse(table)
    ensures |table.chains| == table.numBuckets == table.buckets.Length > 0
  {
  }

  /** Loads two files that share an id. */
  method LoadConflicting(table: HashTable, registered: seq<string>, unregistered: seq<string>, id: string) returns (status: nat)
    requires table.Valid() && table.app == []
    requires NoRepeats(registered) && NoRepeats(unregistered) && id in registered && id in unregistered
    modifies table, table.buckets, table.app
    ensures InUse(table) && |table.chains| > 0 && TwoStatuses(table, id) && status == StatusOf(Found(table, id))
    ensures status == STATUS_REGISTERED || status == STATUS_UNREGISTERED
    ensures table.buckets == old(table.buckets) || fresh(table.buckets)
    ensures forall k :: 0 <= k < |table.app| ==> table.app[k] in old(table.app) || fresh(table.app[k])
  {
    hide HashTable.Valid, FirstWithKey, LastWithKey, Represents, BucketOf;
    LoadDevids(table, registered, unregistered);
    BothFilesTwoStatuses(table, registered, unregistered, id);
    HeadExists(table);
    status := DevidGetStatus(table, id, map[]);
  }

  lemma PowersOfTwo(k: nat)
    ensures Pow2(k + 1) == 2 * Pow2(k) && Pow2(0) == 1
  {
  }

  /** While no bucket is strained, the add that makes a chain ten long doubles the table. */
  lemma DoublesAtTen(table: HashTable, key: string)
    requires InUse(table) && table.Unstrained()
    ensures table.Doubles(key) <==> |table.chains[BucketOf(table.hashFn, |table.chains|, key)]| + 1 >= 10
  {
    hide BucketOf;
    var b := BucketOf(table.hashFn, |table.chains|, key);
    assert table.buckets[..][b].count == |table.chains[b]|;
  }

  /** Two one-line files with the same id, and eight more ids of its bucket: the id reads as
      unregistered until the last of them turns it into a registered one. */
  method TurnsRegistered(h: string -> nat, id: string, others: seq<string>) returns (before: nat, after: nat)
    requires |others| == 8 && id !in others
    requires forall i :: 0 <= i < 8 ==> BucketOf(h, INITIAL_NUM_BUCKETS, others[i]) == BucketOf(h, INITIAL_NUM_BUCKETS, id)
    ensures before == STATUS_UNREGISTERED && after == STATUS_REGISTERED
  {
    hide HashTable.Valid, FirstWithKey, LastWithKey, Represents, HashTable.Doubles, HashTable.Unstrained, BucketOf, NewChain;
    var table := new HashTable(h);
    HeadExists(table);
    DevidAdd(table, id, STATUS_REGISTERED, map[]);
    HeadExists(table);
    ghost var b := BucketOf(h, INITIAL_NUM_BUCKETS, id);
    ghost var first := table.app[0];
    DoublesAtTen(table, id);
    DevidAdd(table, id, STATUS_UNREGISTERED, map[]);
    HeadExists(table);
    ghost var second := table.app[1];
    assert table.chains[b] == [second, first];
    TwoEntries(second, first);
    for i := 0 to 7
      invariant InUse(table) && table.hashFn == h && |table.chains| == INITIAL_NUM_BUCKETS && table.Unstrained()
      invariant |table.chains[b]| == 2 + i && TwoStatuses(table, id) && StatusOf(Found(table, id)) == STATUS_UNREGISTERED
      invariant fresh(table) && fresh(table.buckets) && forall k :: 0 <= k < |table.app| ==> fresh(table.app[k])
    {
      DoublesAtTen(table, others[i]);
      before, after := StatusAroundAdd(table, id, others[i], STATUS_UNREGISTERED);
    }
    DoublesAtTen(table, others[7]);
    before, after := StatusAroundAdd(table, id, others[7], STATUS_UNREGISTERED);
  }

  lemma TwoEntries(e: Element, e': Element)
    requires e.key == e'.key
    ensures FirstWithKey([e, e'], e.key) == e && LastWithKey([e, e'], e.key) == e'
  {
  }

  /** Adding another key leaves a key's lookup alone, unless the table doubles. */
  lemma OtherKeyAdded(before: seq<seq<Element>>, add: Element, h: string -> nat, doubled: bool,
                      after: seq<seq<Element>>, id: string)
    requires |before| > 0 && |after| > 0 && ChainsAfterAdd(before, add, h, doubled, after) && add.key != id
    ensures var c, c' := before[BucketOf(h, |before|, id)], after[BucketOf(h, |after|, id)];
            && FirstWithKey(c', id) == (if doubled then LastWithKey(c, id) else FirstWithKey(c, id))
            && LastWithKey(c', id) == (if doubled then FirstWithKey(c, id) else LastWithKey(c, id))
  {
    hide BucketOf, NewChain;
    var b := BucketOf(h, |before|, add.key);
    var pushed := before[b := [add] + before[b]];
    PushedOther(before[b], add, id);
    if doubled {
      LookupAfterDoubling(pushed, h, id);
    }
  }

  lemma {:induction false} PushedOther(c: seq<Element>, add: Element, id: string)
    requires add.key != id
    ensures FirstWithKey([add] + c, id) == FirstWithKey(c, id)
    ensures LastWithKey([add] + c, id) == LastWithKey(c, id)
  {
    assert ([add] + c)[1..] == c;
    if c == [] {
      assert ([add] + c)[..0] == [];
    } else {
      PushedOther(c[..|c| - 1], add, id);
      assert ([add] + c)[..|c|] == [add] + c[..|c| - 1];
    }
  }

  /** The body of the event loop. */
  method GateEvent(table: HashTable, ev: Event, ghost known: Known) returns (out: Event)
    requires table.Valid() && Represents(table.app, known) && Statuses(known)
    modifies table, table.buckets, table.app
    ensures out == Step(known, ev).event
    ensures table.Valid() && Represents(table.app, Step(known, ev).known)
    ensures table.buckets == old(table.buckets) || fresh(table.buckets)
    ensures forall k :: 0 <= k < |table.app| ==> table.app[k] in old(table.app) || fresh(table.app[k])
  {
    hide HashTable.Valid, Represents;
    out := ev;
    if out.action != 2 {
      if out.deviceId == "" {
        out := out.(deviceId := "unknown");
      }
      var status := DevidGetStatus(table, out.deviceId, known);
      if status == STATUS_REGISTERED {
      } else if status == STATUS_UNREGISTERED {
        out := out.(action := ACTION_DROP);
      } else if status == STATUS_NOT_FOUND {
        status := DevidGetStatus(table, out.deviceName, known);
        if status == STATUS_REGISTERED {
          if out.deviceId == "unknown" {
            DevidAdd(table, out.deviceId, STATUS_UNREGISTERED, known);
          } else {
            DevidAdd(table, out.deviceId, STATUS_REGISTERED, known);
          }
          out := out.(action := ACTION_NEWDEV_ALERT);
        } else {
          DevidAdd(table, out.deviceId, STATUS_UNREGISTERED, known);
          out := out.(action := ACTION_NEWDEV_ALERT);
        }
      }
    } else {
      out := out.(deviceId := "new");
    }
  }

  /** devdiscovery_output: rewrites a batch of events in place. */
  method Output(table: HashTable, events: array<Event>, ghost known: Known)
    requires table.Valid() && Represents(table.app, known) && Statuses(known)
    modifies table, table.buckets, table.app, events
    ensures table.Valid() && Represents(table.app, KnownAfter(known, old(events[..])))
    ensures table.buckets == old(table.buckets) || fresh(table.buckets)
    ensures forall k :: 0 <= k < |table.app| ==> table.app[k] in old(table.app) || fresh(table.app[k])
    ensures forall i :: 0 <= i < events.Length ==> events[i] == Result(known, old(events[..]), i)
  {
    hide HashTable.Valid, Represents, Step, Statuses;
    ghost var was := events[..];
    for i := 0 to events.Length
      invariant table.Valid() && Represents(table.app, KnownAfter(known, was[..i]))
      invariant forall j :: 0 <= j < i ==> events[j] == Result(known, was, j)
      invariant forall j :: i <= j < events.Length ==> events[j] == was[j]
      invariant table.buckets == old(table.buckets) || fresh(table.buckets)
      invariant forall k :: 0 <= k < |table.app| ==> table.app[k] in old(table.app) || fresh(table.app[k])
    {
      KnownGrows(known, was, i, i, "");
      var out := GateEvent(table, events[i], KnownAfter(known, was[..i]));
      events[i] := out;
      assert was[..i + 1][..i] == was[..i];
    }
    assert was[..events.Length] == was;
  }

  /** A batch processed after another is one run over both. */
  lemma {:induction false} BatchesCompose(known: Known, a: seq<Event>, b: seq<Event>)
    ensures KnownAfter(known, a + b) == KnownAfter(KnownAfter(known, a), b)
  {
    if b == [] {
      assert a + b == a;
    } else {
      var m := |b| - 1;
      assert (a + b)[..|a + b| - 1] == a + b[..m];
      BatchesCompose(known, a, b[..m]);
    }
  }

  /** ... and leaves the same events. */
  lemma ResultsCompose(known: Known, a: seq<Event>, b: seq<Event>, i: nat)
    requires i < |a| + |b|
    ensures Result(known, a + b, i) == if i < |a| then Result(known, a, i) else Result(KnownAfter(known, a), b, i - |a|)
  {
    if i < |a| {
      assert (a + b)[..i] == a[..i];
    } else {
      assert (a + b)[..i] == a + b[..i - |a|];
      BatchesCompose(known, a, b[..i - |a|]);
    }
  }

  function Joined(batches: seq<seq<Event>>): seq<Event> {
    if batches == [] then [] else Joined(batches[..|batches| - 1]) + batches[|batches| - 1]
  }

  /** The life of the gate: a new table is loaded from the start-up files and processes any
      sequence of batches; every rewritten event is that of one run over all of them. */
  method GateRun(h: string -> nat, registered: seq<string>, unregistered: seq<string>, batches: seq<seq<Event>>)
    returns (out: seq<Event>)
    requires forall id :: id in registered ==> id !in unregistered
    ensures Statuses(StartUp(registered, unregistered)) && |out| == |Joined(batches)|
    ensures forall i :: 0 <= i < |out| ==> out[i] == Result(StartUp(registered, unregistered), Joined(batches), i)
    ensures Fates(StartUp(registered, unregistered), Joined(batches), out)
    ensures forall id :: id in StartUp(registered, unregistered) <==> id in registered || id in unregistered
    ensures forall id :: id in StartUp(registered, unregistered) && StartUp(registered, unregistered)[id] == STATUS_REGISTERED <==> id in registered
  {
    hide HashTable.Valid, Represents, Step, Statuses, StartUp, Result, KnownAfter, FromFiles;
    var table := new HashTable(h);
    LoadDevids(table, registered, unregistered);
    ghost var known := StartUp(registered, unregistered);
    out := [];
    NothingAfter(known);
    for b := 0 to |batches|
      invariant table.Valid() && Represents(table.app, KnownAfter(known, Joined(batches[..b])))
      invariant |out| == |Joined(batches[..b])|
      invariant forall i :: 0 <= i < |out| ==> out[i] == Result(known, Joined(batches[..b]), i)
      invariant fresh(table) && fresh(table.buckets) && forall k :: 0 <= k < |table.app| ==> fresh(table.app[k])
    {
      ghost var all := Joined(batches[..b]);
      assert batches[..b + 1][..b] == batches[..b];
      var events := new Event[|batches[b]|](k requires 0 <= k < |batches[b]| => batches[b][k]);
      assert events[..] == batches[b];
      StatusesStay(known, all);
      Output(table, events, KnownAfter(known, all));
      BatchesCompose(known, all, batches[b]);
      forall i | 0 <= i < |all| + |batches[b]|
        ensures Result(known, all + batches[b], i)
             == if i < |all| then Result(known, all, i) else Result(KnownAfter(known, all), batches[b], i - |all|)
      {
        ResultsCompose(known, all, batches[b], i);
      }
      out := out + events[..];
    }
    assert batches[..|batches|] == batches;
    AllFates(known, Joined(batches), out);
    StartUpIs(registered, unregistered);
  }

  lemma StartUpIs(registered: seq<string>, unregistered: seq<string>)
    requires forall id :: id in registered ==> id !in unregistered
    ensures forall id :: id in StartUp(registered, unregistered) <==> id in registered || id in unregistered
    ensures forall id :: id in StartUp(registered, unregistered) && StartUp(registered, unregistered)[id] == STATUS_REGISTERED <==> id in registered
  {
  }

  /** What becomes of the events of a run: those of devices known from the start are accepted or
      dropped by their status; the first event of any other device is an alert and decides
      about the later ones. */
  ghost predicate Fates(known: Known, events: seq<Event>, out: seq<Event>) {
    && |out| == |events|
    && (forall i :: 0 <= i < |out| && events[i].action == ACTION_NEWDEV_ALERT ==> out[i] == events[i].(deviceId := "new"))
    && (forall j, id :: 0 <= j < |out| && id in known && Concerns(events[j], id) ==>
          out[j] == Fate(events[j], id, known[id] == STATUS_REGISTERED))
    && (forall i, id :: 0 <= i < |out| && First(known, events, i, id) ==>
          out[i] == events[i].(deviceId := id, action := ACTION_NEWDEV_ALERT))
    && (forall i, j, id :: 0 <= i < j < |out| && First(known, events, i, id) && Concerns(events[j], id) ==>
          out[j] == Fate(events[j], id, Vouched(KnownAfter(known, events[..i]), events[i])))
  }

  /** Event i is the first of a device that was not known from the start. */
  ghost predicate First(known: Known, events: seq<Event>, i: nat, id: string)
    requires i < |events|
  {
    id !in known && Concerns(events[i], id) && forall k :: 0 <= k < i ==> !Concerns(events[k], id)
  }

  lemma NewAtFirst(known: Known, events: seq<Event>, i: nat, id: string)
    requires Statuses(known) && i < |events| && First(known, events, i, id)
    ensures id !in KnownAfter(known, events[..i])
    ensures Result(known, events, i) == events[i].(deviceId := id, action := ACTION_NEWDEV_ALERT)
  {
    KnownExactly(known, events[..i], id);
    assert forall k :: 0 <= k < i ==> events[..i][k] == events[k];
    KnownGrows(known, events, i, i, id);
  }

  lemma AllFates(known: Known, events: seq<Event>, out: seq<Event>)
    requires Statuses(known) && |out| == |events|
    requires forall i :: 0 <= i < |out| ==> out[i] == Result(known, events, i)
    ensures Fates(known, events, out)
  {
    hide KnownAfter, Step, Statuses, First, Result;
    forall i | 0 <= i < |out| && events[i].action == ACTION_NEWDEV_ALERT
      ensures out[i] == events[i].(deviceId := "new")
    {
      ResultOfAlert(known, events, i);
    }
    forall j, id | 0 <= j < |out| && id in known && Concerns(events[j], id)
      ensures out[j] == Fate(events[j], id, known[id] == STATUS_REGISTERED)
    {
      FateOfKnownDevice(known, events, j, id);
    }
    forall i, id | 0 <= i < |out| && First(known, events, i, id)
      ensures out[i] == events[i].(deviceId := id, action := ACTION_NEWDEV_ALERT)
    {
      NewAtFirst(known, events, i, id);
    }
    forall i, j, id | 0 <= i < j < |out| && First(known, events, i, id) && Concerns(events[j], id)
      ensures out[j] == Fate(events[j], id, Vouched(KnownAfter(known, events[..i]), events[i]))
    {
      NewAtFirst(known, events, i, id);
      FirstConcerns(known, events, i, id);
      FateOfNewDevice(known, events, i, j, id);
    }
  }

  lemma FirstConcerns(known: Known, events: seq<Event>, i: nat, id: string)
    requires i < |events| && First(known, events, i, id)
    ensures Concerns(events[i], id)
  {
  }

  lemma ResultOfAlert(known: Known, events: seq<Event>, i: nat)
    requires i < |events| && events[i].action == ACTION_NEWDEV_ALERT
    ensures Result(known, events, i) == events[i].(deviceId := "new")
  {
    AlertsPass(KnownAfter(known, events[..i]), events[i]);
  }

  lemma NothingAfter(known: Known)
    ensures KnownAfter(known, Joined([])) == known && Joined([]) == []
  {
  }

  lemma StatusesStay(known: Known, events: seq<Event>)
    requires Statuses(known)
    ensures Statuses(KnownAfter(known, events))
  {
    KnownGrows(known, events, |events|, |events|, "");
    assert events[..|events|] == events;
  }
}
