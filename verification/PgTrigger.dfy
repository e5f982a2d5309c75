/** The asynchronous trigger plugin: on clock events it sends a stored procedure
    call to the server, at most one at a time and not too often. */
module PgTrigger {

  const UINT32: nat := 0x1_0000_0000

  /** Successive sends are at least `gap` clock events apart. */
  ghost predicate Spaced(sends: seq<nat>, gap: nat) {
    forall i, j :: 0 <= i < j < |sends| ==> sends[i] + gap <= sends[j]
  }

  /** What the connection and the network answer during one clock event: consuming input
      works, a query is still busy, the server accepts a connection, it can be made
      non-blocking, an open connection is still good, and a query can be sent. */
  datatype Answers = Answers(consumed: bool, busy: bool, up: bool, nonBlocking: bool, good: bool, sent: bool)

  class Trigger {
    const skipCount: nat
    var connected: bool        // DB_CONNECTED
    var hasHandle: bool
    var queryRunning: bool     // QUERY_RUNNING
    var eventCount: nat        // a 32-bit counter

    ghost var now: nat              // clock events received
    ghost var sends: seq<nat>       // the events at which a query was sent
    ghost var outstanding: nat      // queries sent on the open connection and not answered

    ghost predicate Valid()
      reads this
    {
      && (queryRunning ==> connected)
      && (connected ==> hasHandle)
      && outstanding == (if queryRunning then 1 else 0)
      && Spaced(sends, skipCount)
      && (sends != [] ==> sends[|sends| - 1] <= now && eventCount <= now - sends[|sends| - 1])
    }

    constructor (skipCount: nat)
      ensures Valid() && this.skipCount == skipCount && sends == [] && now == 0 && !connected && eventCount == 0
    {
      this.skipCount := skipCount;
      connected, hasHandle, queryRunning, eventCount := false, false, false, 0;
      now, sends, outstanding := 0, [], 0;
    }

    /** oppgtrigger_db_release_client: closing the connection abandons its query. */
    method Release()
      modifies this`connected, this`hasHandle, this`outstanding
      ensures !connected && (old(connected) && old(hasHandle) ==> outstanding == 0 && !hasHandle)
      ensures !old(connected) ==> outstanding == old(outstanding) && hasHandle == old(hasHandle)
    {
      if connected {
        if hasHandle {
          hasHandle := false;
          outstanding := 0;
        }
        connected := false;
      }
    }

    /** oppgtrigger_db_init_client: a connection that cannot be made non-blocking is
        released before its flag is set, so it stays open. */
    method InitClient(a: Answers) returns (ok: bool)
      requires !connected
      modifies this`connected, this`hasHandle, this`outstanding
      ensures !connected && outstanding == old(outstanding) && hasHandle == a.up
      ensures ok == (a.up && a.nonBlocking)
    {
      hasHandle := a.up;
      ok := hasHandle;
      if ok {
        if !a.nonBlocking {
          Release();
          ok := false;
        }
      }
    }

    /** oppgtrigger_db_check_status: true when the next query may be sent. */
    method CheckStatus(a: Answers) returns (ok: bool)
      requires Valid()
      modifies this`connected, this`hasHandle, this`queryRunning, this`outstanding
      ensures Valid()
      ensures ok == (!old(queryRunning) || (a.consumed && !a.busy))
      ensures queryRunning == (old(queryRunning) && a.consumed && a.busy)
      ensures connected == (old(connected) && (old(queryRunning) ==> a.consumed))
    {
      if !connected {
        return true;
      }
      if queryRunning {
        if !a.consumed {
          Release();
          queryRunning := false;
          return false;
        }
        if a.busy {
          return false;
        }
        outstanding := 0;
      }
      queryRunning := false;
      ok := true;
    }

    /** oppgtrigger_db_send_trigger: connects and sends one query. */
    method SendTrigger(a: Answers) returns (ok: bool, ghost rounds: nat)
      requires Valid() && !queryRunning && eventCount >= skipCount
      modifies this`connected, this`hasHandle, this`queryRunning, this`outstanding, this`sends
      ensures rounds <= 2 && outstanding <= 1
      ensures ok == (((old(connected) && a.good) || (a.up && a.nonBlocking)) && a.sent)
      ensures ok ==> connected && hasHandle && queryRunning && outstanding == 1 && sends == old(sends) + [now]
      ensures !ok ==> Valid() && !queryRunning && sends == old(sends)
    {
      var ready := false;
      rounds := 0;
      while !ready
        invariant !queryRunning && outstanding == 0 && sends == old(sends) && (connected ==> hasHandle) && (ready ==> connected)
        invariant if ready then rounds <= 2 else rounds <= (if connected then 0 else 1)
        invariant !ready ==> connected == (old(connected) && rounds == 0)
        invariant !ready && rounds > 0 ==> old(connected) && !a.good
        invariant ready ==> (old(connected) && a.good) || (a.up && a.nonBlocking)
        decreases if ready then 0 else 2 - rounds
      {
        rounds := rounds + 1;
        if !connected {
          var up := InitClient(a);
          if !up {
            return false, rounds;
          }
          connected := true;
          ready := true;
        } else {
          ready := a.good;
          if !ready {
            Release();
          }
        }
      }
      if !a.sent {
        return false, rounds;
      }
      outstanding := outstanding + 1;
      sends := sends + [now];
      queryRunning := true;
      ok := true;
    }

    /** oppgtrigger_event: one clock event. A query goes out exactly when none is left running,
        the counter has reached skipCount and the server takes it. */
    method ClockEvent(a: Answers)
      requires Valid()
      modifies this
      ensures Valid() && now == old(now) + 1 && outstanding <= 1
      ensures var count := (old(eventCount) + 1) % UINT32;
              if (!old(queryRunning) || (a.consumed && !a.busy)) && count >= skipCount && a.up && a.nonBlocking && a.sent
              then sends == old(sends) + [now] && queryRunning && eventCount == 0 && outstanding == 1
              else sends == old(sends) && eventCount == count && queryRunning == (old(queryRunning) && a.consumed && a.busy)
      ensures (!old(queryRunning) || (a.consumed && !a.busy)) && (old(eventCount) + 1) % UINT32 < skipCount ==> !connected
    {
      hide Spaced;
      ghost var was := sends;
      now := now + 1;
      eventCount := (eventCount + 1) % UINT32;
      var ok := CheckStatus(a);
      if !ok {
        return;
      }
      if connected {
        Release();
      }
      if eventCount < skipCount {
        return;
      }
      ghost var rounds;
      ok, rounds := SendTrigger(a);
      if !ok {
        return;
      }
      eventCount := 0;
      SpacedAppend(was, skipCount, now);
    }

    /** Any run of clock events. */
    method Run(answers: seq<Answers>)
      requires Valid()
      modifies this
      ensures Valid() && now == old(now) + |answers|
      ensures old(sends) <= sends && Spaced(sends, skipCount)
    {
      for i := 0 to |answers|
        invariant Valid() && now == old(now) + i && old(sends) <= sends
      {
        ClockEvent(answers[i]);
      }
    }

    /** The number of sends is bounded by the number of clock events. */
    lemma SendsAreRare()
      requires Valid() && sends != []
      ensures sends[0] + (|sends| - 1) * skipCount <= now
    {
      SpacedSpan(sends, skipCount);
    }
  }

  lemma SpacedAppend(sends: seq<nat>, gap: nat, t: nat)
    requires Spaced(sends, gap) && (sends != [] ==> sends[|sends| - 1] + gap <= t)
    ensures Spaced(sends + [t], gap)
  {
  }

  lemma {:induction false} SpacedSpan(sends: seq<nat>, gap: nat)
    requires Spaced(sends, gap) && sends != []
    ensures sends[0] + (|sends| - 1) * gap <= sends[|sends| - 1]
  {
    var m := |sends| - 1;
    if m > 0 {
      SpacedSpan(sends[..m], gap);
      assert m * gap == (m - 1) * gap + gap;
    }
  }
}
