/** The PostgreSQL output plugin: inserts are batched into transactions, tables
    are rotated when full, and the client's flags and counters stay consistent
    with a server that can fail any statement. */
module PgBatch {
  import opened PgServer

  const MAX_ROTATE_PER_CONNECTION: nat := 1

  lemma SubsetSize(a: set<nat>, b: set<nat>)
    requires a <= b
    ensures |a| <= |b|
  {
    assert b == a + (b - a);
  }

  lemma InsertSucceeded(s: Server, row: nat, s': Server)
    requires InsertStep(s, row, true, s') && row !in s.discarded
    ensures |Batch(s')| <= |Batch(s)| + 1 && row in Rows(s') && row !in s'.discarded
    ensures s'.discarded == s.discarded && s.prepared && s'.prepared && !s'.txn.Aborted?
    ensures s.txn.Open? ==> s'.txn.Open? && s'.committed == s.committed && Batch(s') == Batch(s) + {row}
  {
  }

  lemma InsertFailed(s: Server, row: nat, s': Server)
    requires InsertStep(s, row, false, s')
    ensures s'.prepared ==> s.prepared
  {
  }

  /** A failed insert loses nothing but the batch. */
  lemma LossOfFailure(acked: set<nat>, s: Server, s': Server, row: nat)
    requires AtRisk(s') <= AtRisk(s) + {row} && row !in acked
    ensures |acked * s'.discarded - s.discarded| <= |Batch(s)|
  {
    var lost := acked * s'.discarded - s.discarded;
    assert lost <= Batch(s);
    SubsetSize(lost, Batch(s));
  }

  /** A call that first replaces the connection and then stores a row loses the old batch or
      the new one, not both. */
  lemma LossOfCall(acked: set<nat>, s0: Server, s1: Server, s2: Server, row: nat, cap: nat)
    requires AtRisk(s1) <= AtRisk(s0) && AtRisk(s2) <= AtRisk(s1) + {row}
    requires |Batch(s0)| < cap && |acked * s2.discarded - s1.discarded| < cap
    requires s1 == s0 || Batch(s0) == {} || (Batch(s1) == {} && row !in acked * s2.discarded)
    ensures |acked * s2.discarded - s0.discarded| < cap
  {
    var lost := acked * s2.discarded - s0.discarded;
    if s1 == s0 || Batch(s0) == {} {
      assert s1.discarded <= AtRisk(s0);
      assert lost <= acked * s2.discarded - s1.discarded;
      SubsetSize(lost, acked * s2.discarded - s1.discarded);
    } else {
      assert lost <= Batch(s0);
      SubsetSize(lost, Batch(s0));
    }
  }

  /** What an insert finds out about the connection: the status of an open one is good, and a
      new one can be made non-blocking. */
  datatype Link = Link(good: bool, nonBlocking: bool)

  datatype Call = Events(links: seq<Link>) | Clock

  class Client {
    const maxRecords: nat
    const maxUncommitted: nat

    var connected: bool        // DB_CONNECTED
    var hasHandle: bool        // db_handle is not null
    var tableCreated: bool     // TABLE_CREATED
    var hasTableName: bool     // table_name is not null
    var recordCount: nat
    var uncommitted: nat
    var rotateCount: nat
    var srv: Server

    ghost var acked: set<nat>      // rows whose insert returned 0
    var nextRow: nat               // rows are numbered in the order they are sent
    ghost var risk: set<nat>       // rows rolled back, or at risk since the current call began
    ghost var onTable: nat         // acknowledged rows since the current table was prepared
    ghost var generation: nat      // how many tables have been prepared
    ghost var connects: nat        // how many connections have been attempted
    ghost var offered: set<nat>    // rows of batches for which END was sent

    ghost predicate Consistent()
      reads this`srv, this`acked, this`nextRow, this`risk
    {
      maxUncommitted >= 1 && Sound(srv, acked, nextRow, maxUncommitted - 1, risk)
    }

    ghost predicate Valid()
      reads this
    {
      && Consistent()
      && |Batch(srv)| <= uncommitted && |Batch(srv)| < maxUncommitted && |Batch(srv)| <= onTable
      && (connected ==> hasHandle)
      && (!connected ==> !tableCreated && srv.txn.Idle?)
      && (!tableCreated ==> !srv.prepared) && (!srv.prepared ==> Batch(srv) == {})
      && Counted() && (srv.prepared ==> uncommitted < maxUncommitted && srv.txn.Open?)
      && rotateCount == 0
    }

    constructor (maxRecords: nat, maxUncommitted: nat)
      requires maxUncommitted >= 1
      ensures Valid() && acked == {} && this.maxRecords == maxRecords && this.maxUncommitted == maxUncommitted
    {
      this.maxRecords, this.maxUncommitted := maxRecords, maxUncommitted;
      connected, hasHandle, tableCreated, hasTableName := false, false, false, false;
      recordCount, uncommitted, rotateCount := 0, 0, 0;
      srv := Server(false, Idle, false, {}, {}, 0);
      acked, risk, nextRow, onTable, generation, connects := {}, {}, 0, 0, 0, 0;
      offered := {};
    }

    // Statements. The server may answer with any outcome its step relation allows.

    method End() returns (ok: bool)
      requires Consistent()
      modifies this`offered, this`srv
      ensures offered == old(offered) + old(Batch(srv))
      ensures Consistent() && EndStep(old(srv), ok, srv)
    {
      hide Sound;
      offered := offered + Batch(srv);
      var was := srv;
      ok, srv := *, *;
      if !EndStep(was, ok, srv) {
        ok, srv := false, Lost(was);
      }
      EndKeepsSound(was, ok, srv, acked, nextRow, maxUncommitted - 1, risk);
    }

    method Begin() returns (ok: bool)
      requires Consistent()
      modifies this`srv
      ensures Consistent() && BeginStep(old(srv), ok, srv)
    {
      hide Sound;
      var was := srv;
      ok, srv := *, *;
      if !BeginStep(was, ok, srv) {
        ok, srv := false, Lost(was);
      }
      BeginKeepsSound(was, ok, srv, acked, nextRow, maxUncommitted - 1, risk);
    }

    method Plain() returns (ok: bool)
      requires Consistent()
      modifies this`srv
      ensures Consistent() && PlainStep(old(srv), ok, srv)
    {
      hide Sound;
      var was := srv;
      ok, srv := *, *;
      if !PlainStep(was, ok, srv) {
        ok, srv := false, Lost(was);
      }
      PlainKeepsSound(was, ok, srv, acked, nextRow, maxUncommitted - 1, risk);
    }

    method Prepare() returns (ok: bool)
      requires Consistent()
      modifies this`srv
      ensures Consistent() && PrepareStep(old(srv), ok, srv)
    {
      hide Sound;
      var was := srv;
      ok, srv := *, *;
      if !PrepareStep(was, ok, srv) {
        ok, srv := false, Lost(was);
      }
      PrepareKeepsSound(was, ok, srv, acked, nextRow, maxUncommitted - 1, risk);
    }

    method Deallocate() returns (ok: bool)
      requires Consistent()
      modifies this`srv
      ensures Consistent() && DeallocateStep(old(srv), ok, srv)
    {
      hide Sound;
      var was := srv;
      ok, srv := *, *;
      if !DeallocateStep(was, ok, srv) {
        ok, srv := false, Lost(was);
      }
      PrepareKeepsSound(was, ok, srv, acked, nextRow, maxUncommitted - 1, risk);
    }

    /** Executes the prepared insert: 0 on success, -2 after a cancelled time-out, -1 otherwise. */
    method Insert() returns (code: int)
      requires Consistent()
      modifies this`srv, this`nextRow, this`risk
      ensures Consistent() && nextRow == old(nextRow) + 1 && risk == old(risk) + {old(nextRow)}
      ensures code == 0 || code == -1 || code == -2
      ensures InsertStep(old(srv), old(nextRow), code == 0, srv)
    {
      hide Sound;
      var was := srv;
      code, srv := *, *;
      if !(-2 <= code <= 0 && InsertStep(was, nextRow, code == 0, srv)) {
        code, srv := -1, Lost(was);
      }
      InsertKeepsSound(was, code == 0, srv, acked, nextRow, maxUncommitted - 1, risk);
      nextRow, risk := nextRow + 1, risk + {nextRow};
    }

    method Connect() returns (ok: bool)
      requires Consistent()
      modifies this`srv, this`connects
      ensures Consistent() && ConnectStep(old(srv), ok, srv) && connects == old(connects) + 1
    {
      hide Sound;
      connects := connects + 1;
      var was := srv;
      ok, srv := *, *;
      if !ConnectStep(was, ok, srv) {
        ok, srv := false, Lost(was);
      }
      ConnectKeepsSound(was, ok, srv, acked, nextRow, maxUncommitted - 1, risk);
    }

    /** The status libpq remembers; a broken connection is noticed here or by a statement. */
    method Status(link: Link) returns (ok: bool)
      requires Consistent()
      modifies this`srv
      ensures Consistent() && ok == link.good && (if ok then srv == old(srv) else Broken(old(srv), srv))
    {
      hide Sound;
      LostIsSound(srv, acked, nextRow, maxUncommitted - 1, risk);
      ok := link.good;
      if !ok {
        srv := Lost(srv);
      }
    }

    // The protocol.

    /** reset_transaction: commits (or rolls back) the batch and opens the next one. */
    method ResetTransaction() returns (ok: bool)
      requires Consistent()
      modifies this`offered, this`srv
      ensures Consistent() && Batch(srv) == {}
      ensures ok ==> srv.alive && srv.txn == Open({}) && srv.prepared == old(srv.prepared)
      ensures !ok ==> !srv.alive && !srv.prepared && srv.txn.Idle?
      ensures ok && !old(srv.txn.Aborted?) ==>
                srv.committed == old(srv.committed) + old(Batch(srv)) && srv.discarded == old(srv.discarded)
      ensures old(offered) + old(Batch(srv)) <= offered
    {
      hide Ledger, Below;
      ok := End();
      if ok {
        ok := Begin();
      }
    }

    /** The transaction has been ended: an open batch is committed, an aborted one rolled back. */
    ghost predicate Ended(before: Server)
      reads this`srv
    {
      if before.txn.Aborted? then srv.committed == before.committed && srv.discarded == before.discarded + Batch(before)
      else srv.committed == before.committed + Batch(before) && srv.discarded == before.discarded
    }

    /** move_table_to_usedqueue: ends the transaction and gives the table away. */
    method MoveTable() returns (ghost ended: bool)
      requires Consistent()
      modifies this`offered, this`srv, this`tableCreated
      ensures Consistent() && !tableCreated && (ended ==> Ended(old(srv)))
      ensures if old(tableCreated) then srv.txn.Idle? && !srv.prepared else srv == old(srv)
      ensures old(Batch(srv)) == {} ==> srv.committed == old(srv.committed) && srv.discarded == old(srv.discarded)
      ensures old(offered) <= offered && (old(tableCreated) ==> old(Batch(srv)) <= offered)
    {
      hide Ledger, Below;
      ended := false;
      if !tableCreated {
        return;
      }
      var ok := End();
      ended := ok;
      ok := Deallocate();
      tableCreated := false;
      ok := Plain();
    }

    /** release_postgres_client: ends the transaction, gives the table away and disconnects. */
    method Release() returns (ghost ended: bool)
      requires Consistent() && (connected ==> hasHandle)
      requires !connected ==> !tableCreated && !srv.prepared
      modifies this`offered, this`srv, this`tableCreated, this`connected, this`hasHandle
      ensures Consistent()
      ensures !connected && !tableCreated && srv.txn.Idle? && !srv.prepared
      ensures ended ==> Ended(old(srv))
      ensures old(Batch(srv)) == {} ==> srv.committed == old(srv.committed) && srv.discarded == old(srv.discarded)
      ensures old(offered) + old(Batch(srv)) <= offered
    {
      hide Ledger, Below;
      var ok := End();
      ended := ok;
      if tableCreated {
        ghost var again := MoveTable();
      }
      if connected {
        if hasHandle {
          LostIsSound(srv, acked, nextRow, maxUncommitted - 1, risk);
          srv := Lost(srv);
          hasHandle := false;
        }
        connected := false;
      }
    }

    /** init_postgres_client: connects; if the socket cannot be made non-blocking the
        new connection is released before its flag is set, so it stays open. */
    method InitClient(link: Link) returns (ok: bool)
      requires Consistent() && !connected && !tableCreated && srv.txn.Idle?
      modifies this`offered, this`srv, this`tableCreated, this`connected, this`hasHandle, this`connects
      ensures Consistent() && !connected && !tableCreated && connects == old(connects) + 1
      ensures srv.txn.Idle? && !srv.prepared
      ensures ok == (hasHandle && link.nonBlocking) && (ok ==> srv.alive)
    {
      hide Ledger, Below;
      ok := Connect();
      hasHandle := ok;
      if ok {
        if !link.nonBlocking {
          ghost var ended := Release();
          ok := false;
        }
      }
    }

    /** get_next_available_table: picks a table from the queue or creates one. The flag is
        set at once for a table found in the queue, and not for a new one. */
    method NextAvailableTable() returns (ok: bool, ghost found: bool)
      requires Consistent() && !tableCreated && !hasTableName && Batch(srv) == {} && !srv.prepared
      modifies this`srv, this`tableCreated, this`hasTableName
      ensures Consistent() && Batch(srv) == {} && !srv.prepared
      ensures Picked(old(srv), found, ok, srv) && tableCreated == found
      ensures ok ==> hasTableName && !Deaf(srv)
      ensures !ok ==> !found && Deaf(srv)
      ensures old(Deaf(srv)) ==> !ok && !hasTableName
    {
      hide Ledger, Below;
      found := false;
      ok := Plain();
      if !ok {
        return;
      }
      var listed := *;
      if listed {
        hasTableName := true;
        tableCreated := true;
        found := true;
      }
      if !hasTableName {
        hasTableName := true;
        ok := Plain();
        if !ok {
          return;
        }
        ok := Plain();
        if !ok {
          var dropped := Plain();
          return;
        }
      }
    }

    /** prepare_next_table: a table, a transaction and a prepared statement. When it fails no
        statement can follow but END, and the flag is left set exactly if the table was
        found in the queue. */
    method PrepareNextTable() returns (ok: bool, ghost found: bool)
      requires Consistent() && !tableCreated && Batch(srv) == {} && !srv.prepared
      modifies this`srv, this`tableCreated, this`hasTableName, this`recordCount, this`uncommitted, this`onTable, this`generation
      ensures Consistent() && Batch(srv) == {}
      ensures ok ==> tableCreated && srv.prepared && srv.alive && srv.txn.Open?
      ensures ok ==> recordCount == uncommitted == onTable == 0 && generation == old(generation) + 1
      ensures !ok ==> !srv.prepared && onTable == old(onTable) && generation == old(generation)
      ensures !ok ==> recordCount == old(recordCount) && uncommitted == old(uncommitted)
      ensures Preparation(old(srv), found, ok, srv)
      ensures !ok ==> Deaf(srv) && tableCreated == found
      ensures old(Deaf(srv)) ==> !ok && !found && !hasTableName
    {
      hide Ledger, Below, Picked;
      hasTableName := false;
      ok, found := NextAvailableTable();
      if !ok {
        return;
      }
      ok := Begin();
      if !ok {
        return;
      }
      ok := Prepare();
      if !ok {
        return;
      }
      uncommitted := 0;
      recordCount := 0;
      tableCreated := true;
      onTable, generation := 0, generation + 1;
    }

    /** The connection counts as up, but no statement of a preparation can succeed on it. */
    ghost predicate Stuck()
      reads this
    {
      connected && !tableCreated && Deaf(srv)
    }

    /** ... and no table name is left that would make the clock reset the connection. */
    ghost predicate Wedged()
      reads this
    {
      Stuck() && !hasTableName
    }

    /** Nothing can be acknowledged before a new connection is attempted. */
    ghost predicate Stalled()
      reads this
    {
      !tableCreated && (connected ==> Deaf(srv))
    }

    /** The retry_conn part of do_datainsert: keeps the connection if its status is good,
        replaces it otherwise. */
    method EnsureConnection(link: Link) returns (ok: bool, ghost rounds: nat)
      requires Valid()
      modifies this`offered, this`srv, this`tableCreated, this`connected, this`hasHandle, this`connects
      ensures rounds <= 2 && old(connects) <= connects <= old(connects) + 1
      ensures Consistent()
      ensures if ok then connected && hasHandle else !connected
      ensures rounds == 2 <==> old(connected) && connects > old(connects)
      ensures connects == old(connects) <==> old(connected) && link.good
      ensures connects > old(connects) ==> ok == (hasHandle && link.nonBlocking)
      ensures connects == old(connects) ==> ok && old(connected) && srv == old(srv) && tableCreated == old(tableCreated)
      ensures connects > old(connects) ==> !tableCreated && srv.txn.Idle? && !srv.prepared && (ok ==> srv.alive)
    {
      hide Sound, Lost, Batch;
      rounds, ok := 0, false;
      while !ok
        invariant Consistent() && (connected ==> hasHandle) && (ok ==> connected)
        invariant old(connects) <= connects <= old(connects) + (if ok then 1 else 0)
        invariant rounds <= 2 && (!ok ==> rounds == if old(connected) && !connected then 1 else 0)
        invariant ok ==> (rounds == 2 <==> old(connected) && connects > old(connects))
        invariant connected ==> old(connected) || connects > old(connects)
        invariant (!ok && rounds > 0) || connects > old(connects) ==> !(old(connected) && link.good)
        invariant ok && connects == old(connects) ==> old(connected) && link.good
        invariant connects > old(connects) ==> hasHandle && link.nonBlocking
        invariant !connected ==> !tableCreated && srv.txn.Idle? && !srv.prepared
        invariant connected && connects == old(connects) ==> srv == old(srv) && tableCreated == old(tableCreated)
        invariant connects > old(connects) ==> !tableCreated && srv.txn.Idle? && !srv.prepared && srv.alive
        decreases if ok then 0 else 2 - rounds
      {
        rounds := rounds + 1;
        if !connected {
          var up := InitClient(link);
          if !up {
            return;
          }
          connected := true;
          tableCreated := false;
          ok := true;
        } else {
          ok := Status(link);
          if !ok {
            ghost var ended := Release();
          }
        }
      }
    }

    /** The record counter agrees with the table in use. */
    ghost predicate Counted()
      reads this`srv, this`recordCount, this`onTable
    {
      srv.prepared ==> recordCount == onTable && (recordCount < maxRecords || recordCount == 0)
    }

    /** After a failed insert the batch is committed or rolled back, and unless the
        insert merely timed out the connection is given up. */
    method AbandonBatch(code: int)
      requires Consistent() && connected && hasHandle && tableCreated && Counted() && rotateCount == 0 && code < 0
      modifies this`offered, this`srv, this`tableCreated, this`connected, this`hasHandle, this`uncommitted
      ensures Valid() && !srv.txn.Aborted? && uncommitted == 0
      ensures connected <==> code == -2
      ensures old(Batch(srv)) <= offered
    {
      hide Sound;
      var ok := ResetTransaction();
      uncommitted := 0;
      if code != -2 {
        ghost var ended := Release();
      }
    }

    /** Commits a full batch. */
    method CommitIfFull() returns (ok: bool)
      requires Consistent() && connected && hasHandle && tableCreated && rotateCount == 0
      requires |Batch(srv)| <= uncommitted
      modifies this`offered, this`srv, this`tableCreated, this`connected, this`hasHandle, this`uncommitted
      ensures Consistent()
      ensures ok ==> connected && hasHandle && tableCreated && |Batch(srv)| <= uncommitted < maxUncommitted
      ensures ok && !old(srv.txn.Aborted?) ==> srv.discarded == old(srv.discarded) && Rows(srv) == old(Rows(srv))
      ensures ok ==> if old(uncommitted) < maxUncommitted then srv == old(srv) && uncommitted == old(uncommitted)
                     else srv.txn == Open({}) && Batch(srv) == {} && srv.prepared == old(srv.prepared) && uncommitted == 0
      ensures ok && !old(srv.txn.Aborted?) && old(uncommitted) >= maxUncommitted ==>
                srv.committed == old(srv.committed) + old(Batch(srv))
      ensures !ok ==> Valid() && !srv.txn.Aborted? && !connected && old(uncommitted) >= maxUncommitted
      ensures old(uncommitted) >= maxUncommitted ==> old(Batch(srv)) <= offered
    {
      hide Sound;
      ok := true;
      if uncommitted >= maxUncommitted {
        ok := ResetTransaction();
        if !ok {
          ghost var ended := Release();
          return;
        }
        uncommitted := 0;
      }
    }

    /** Acknowledging a stored row keeps the books balanced. */
    lemma AckKeepsSound(row: nat)
      requires Consistent() && row in Rows(srv) && row !in srv.discarded && |Batch(srv)| < maxUncommitted
      ensures Sound(srv, acked + {row}, nextRow, maxUncommitted - 1, risk)
    {
      var a, b := acked + {row}, Batch(srv);
      assert a * srv.discarded == acked * srv.discarded;
      assert a * b <= b;
      SubsetSize(a * b, b);
    }

    /** The first half of do_datainsert: a connection and a prepared table. */
    method EnsureTable(link: Link) returns (ret: int, ghost rounds: nat, ghost found: bool)
      requires Valid()
      modifies this`offered, this`srv, this`tableCreated, this`connected, this`hasHandle, this`hasTableName, this`connects
      modifies this`recordCount, this`uncommitted, this`onTable, this`generation
      ensures Valid() && (ret == 0 || ret == 1 || ret == -1)
      ensures rounds <= 2 && (rounds == 2 <==> old(connected) && connects > old(connects))
      ensures old(connects) <= connects <= old(connects) + 1
      ensures ret == 0 ==> connected && tableCreated
      ensures connects == old(connects) <==> old(connected) && link.good
      ensures connects == old(connects) && old(tableCreated) ==> ret == 0
      ensures ret == 0 ==> if old(tableCreated) && connects == old(connects)
                           then srv == old(srv) && SameTable(old(generation), old(onTable)) && uncommitted == old(uncommitted)
                           else Batch(srv) == {} && NewTable(old(generation)) && uncommitted == 0
      ensures ret == 1 <==> !connected
      ensures ret == -1 ==> Deaf(srv) && tableCreated == found
      ensures old(Stuck()) && connects == old(connects) ==> ret == -1 && Wedged()
    {
      hide Sound, Preparation, Rows, AtRisk;
      var ok;
      ok, rounds := EnsureConnection(link);
      ret, found := 0, false;
      if !ok {
        ret := 1;
      } else if !tableCreated {
        ok, found := PrepareNextTable();
        if !ok {
          ret := -1;
        }
      }
    }

    ghost predicate SameTable(generation: nat, onTable: nat)
      reads this`generation, this`onTable
    {
      this.generation == generation && this.onTable == onTable
    }

    ghost predicate NewTable(generation: nat)
      reads this`generation, this`onTable
    {
      this.generation == generation + 1 && this.onTable == 0
    }

    /** The row joined the batch, or filled it and was committed with it. */
    ghost predicate Batched(before: Server, uncommittedBefore: nat, row: nat)
      reads this`srv, this`uncommitted
    {
      if uncommittedBefore + 1 < maxUncommitted
      then uncommitted == uncommittedBefore + 1 && srv.committed == before.committed && Batch(srv) == Batch(before) + {row}
      else uncommitted == 0 && srv.committed == before.committed + Batch(before) + {row} && Batch(srv) == {}
    }

    /** Stores the row and commits the batch when it is full. */
    method StoreRow() returns (ok: bool, code: int)
      requires Valid() && connected && tableCreated
      modifies this`offered, this`srv, this`nextRow, this`risk, this`uncommitted, this`tableCreated, this`connected, this`hasHandle
      ensures Consistent() && nextRow == old(nextRow) + 1 && risk == old(risk) + {old(nextRow)}
      ensures ok ==> connected && tableCreated && hasHandle && old(srv.prepared) && srv.prepared
      ensures ok ==> old(nextRow) in Rows(srv) && srv.discarded == old(srv.discarded) && old(nextRow) !in srv.discarded
      ensures ok ==> |Batch(srv)| <= uncommitted < maxUncommitted && |Batch(srv)| <= onTable + 1
      ensures !srv.txn.Aborted? && (!ok ==> Valid())
      ensures ok ==> srv.txn.Open? && Batched(old(srv), old(uncommitted), old(nextRow))
      ensures !ok ==> (connected <==> code == -2)
    {
      hide Sound, InsertStep, AtRisk, Batch, Rows;
      NextIsNew();
      ghost var before := srv;
      code := Insert();
      if code < 0 {
        InsertFailed(before, nextRow - 1, srv);
        AbandonBatch(code);
        ok := false;
      } else {
        uncommitted := uncommitted + 1;
        InsertSucceeded(before, nextRow - 1, srv);
        ok := CommitIfFull();
      }
    }

    /** Fewer than maxUncommitted acknowledged rows have been rolled back since. */
    ghost predicate FewLostSince(before: Server)
      reads this`srv, this`acked
    {
      |acked * srv.discarded - before.discarded| < maxUncommitted
    }

    /** Counts an acknowledged row and gives the table away when it is full. */
    method Acknowledge(ghost row: nat)
      requires Consistent() && connected && hasHandle && tableCreated && rotateCount == 0
      requires row in Rows(srv) && row !in srv.discarded && row !in acked && srv.txn.Open? && srv.prepared
      requires |Batch(srv)| <= uncommitted < maxUncommitted && recordCount == onTable && |Batch(srv)| <= onTable + 1
      modifies this`offered, this`acked, this`onTable, this`recordCount, this`srv, this`tableCreated, this`risk
      ensures Valid() && acked == old(acked) + {row} && |Batch(srv)| <= uncommitted && !srv.txn.Aborted?
      ensures recordCount == onTable == old(onTable) + 1 && (recordCount < maxRecords || !tableCreated)
      ensures if recordCount < maxRecords then srv == old(srv) && tableCreated else srv.txn.Idle? && !srv.prepared && !tableCreated
      ensures FewLostSince(old(srv)) && AtRisk(srv) <= old(AtRisk(srv))
    {
      hide Sound, AtRisk;
      AckKeepsSound(row);
      acked, onTable := acked + {row}, onTable + 1;
      recordCount := recordCount + 1;
      RiskRestarts();
      risk := AtRisk(srv);
      ghost var before := srv;
      if recordCount >= maxRecords {
        ghost var ended := MoveTable();
      }
      RiskIsBounded();
      LossWithinBatch(acked, before, srv);
    }

    /** The second half of do_datainsert: sends the row and counts it. */
    method InsertRow() returns (ok: bool, code: int)
      requires Valid() && connected && tableCreated
      modifies this`offered, this`srv, this`nextRow, this`risk, this`uncommitted, this`tableCreated, this`connected, this`hasHandle
      modifies this`acked, this`onTable, this`recordCount
      ensures Valid() && nextRow == old(nextRow) + 1 && !srv.txn.Aborted?
      ensures ok ==> old(nextRow) !in old(acked) && acked == old(acked) + {old(nextRow)} && old(srv.prepared)
      ensures ok ==> |Batch(srv)| <= uncommitted < maxUncommitted
      ensures ok ==> recordCount == onTable == old(onTable) + 1 && (recordCount < maxRecords || !tableCreated)
      ensures !ok ==> acked == old(acked) && old(nextRow) !in acked
      ensures AtRisk(srv) <= old(AtRisk(srv)) + {old(nextRow)}
      ensures FewLostSince(old(srv))
      ensures ok && recordCount < maxRecords ==> old(nextRow) !in srv.discarded && tableCreated
      ensures ok && recordCount < maxRecords ==> Batched(old(srv), old(uncommitted), old(nextRow))
      ensures ok ==> uncommitted == if old(uncommitted) + 1 < maxUncommitted then old(uncommitted) + 1 else 0
      ensures !ok ==> (connected <==> code == -2)
    {
      hide Sound, Batch, AtRisk, Rows;
      NextIsNew();
      ghost var row, before := nextRow, srv;
      RiskRestarts();
      risk := AtRisk(srv);
      ok, code := StoreRow();
      RiskIsBounded();
      if ok {
        Acknowledge(row);
      } else {
        LossOfFailure(acked, before, srv, row);
      }
    }

    /** do_datainsert. Returns 0 when the row is acknowledged, 1 when there is no
        connection and -1 on any other failure. Whatever it returns, it loses fewer than
        maxUncommitted acknowledged rows. `code` is the result of the insert. */
    method DataInsert(link: Link) returns (ret: int, ghost rounds: nat, ghost found: bool, ghost code: int)
      requires Valid()
      modifies this
      ensures Valid() && (ret == 0 || ret == 1 || ret == -1)
      ensures rounds <= 2 && (rounds == 2 <==> old(connected) && connects > old(connects))
      ensures connects == old(connects) + if old(connected) && link.good then 0 else 1
      ensures ret == 0 ==> old(nextRow) !in old(acked) && acked == old(acked) + {old(nextRow)}
      ensures ret != 0 ==> acked == old(acked)
      ensures ret == 1 ==> !connected && nextRow == old(nextRow)
      ensures ret == 0 ==> |Batch(srv)| <= uncommitted < maxUncommitted
      ensures ret == 0 ==> recordCount == onTable && (recordCount < maxRecords <==> tableCreated)
      ensures ret == 0 && generation == old(generation) && tableCreated ==> Batched(old(srv), old(uncommitted), old(nextRow))
      ensures ret == 0 ==> var was := if generation == old(generation) then old(uncommitted) else 0;
                           uncommitted == if was + 1 < maxUncommitted then was + 1 else 0
      ensures ret == -1 && nextRow > old(nextRow) ==> (connected <==> code == -2)
      ensures ret == 0 ==> onTable == if generation == old(generation) then old(onTable) + 1 else 1
      ensures ret == 0 ==> old(generation) <= generation <= old(generation) + 1
      ensures ret == 0 && !old(tableCreated) ==> generation == old(generation) + 1
      ensures FewLostSince(old(srv)) && AtRisk(srv) <= old(AtRisk(srv)) + {old(nextRow)}
      // A preparation that fails on a connection still up: stuck exactly without a table from the queue.
      ensures ret == -1 && nextRow == old(nextRow) ==> Deaf(srv) && (Stuck() <==> !found)
      ensures old(Stuck()) && connects == old(connects) ==> ret == -1 && Wedged()
      ensures old(Stalled()) && connects == old(connects) ==> ret == -1 && Stalled()
      // With the flag set, an aborted transaction is left behind.
      ensures old(tableCreated) && connects == old(connects) ==> !srv.txn.Aborted? && (!old(srv.prepared) ==> ret == -1)
    {
      hide Sound, Batch, AtRisk, Deaf, Batched, Rows, Preparation, Counted, Lost;
      ghost var s0 := srv;
      BatchNeedsRoom();
      BatchIsBounded();
      RiskRestarts();
      risk := AtRisk(srv);
      code := 0;
      ret, rounds, found := EnsureTable(link);
      RiskIsBounded();
      ghost var s1 := srv;
      LossWithinBatch(acked, s0, s1);
      if ret == 0 {
        ghost var row := nextRow;
        var ok;
        ok, code := InsertRow();
        LossOfCall(acked, s0, s1, srv, row, maxUncommitted);
        if !ok {
          ret := -1;
        }
      }
    }

    /** A batch with rows in it means a prepared table that takes more than one row. */
    lemma BatchNeedsRoom()
      requires Valid()
      ensures Batch(srv) == {} || maxRecords >= 2
    {
    }

    lemma BatchIsBounded()
      requires Valid()
      ensures |Batch(srv)| < maxUncommitted && (!tableCreated ==> Batch(srv) == {})
    {
    }

    lemma RiskRestarts()
      requires Consistent()
      ensures Sound(srv, acked, nextRow, maxUncommitted - 1, AtRisk(srv))
    {
    }

    lemma RiskIsBounded()
      requires Consistent()
      ensures AtRisk(srv) <= risk
    {
    }

    lemma NextIsNew()
      requires Consistent()
      ensures nextRow !in acked && nextRow !in Rows(srv) && nextRow !in srv.discarded
    {
      AckedAreRows(srv, acked, maxUncommitted - 1);
    }

    /** oppostgres_output: inserts events in order until one of them fails; a missing
        connection only skips the event. `rets` are the results of the inserts. */
    method Output(links: seq<Link>) returns (ghost rets: seq<int>)
      requires Valid()
      modifies this
      ensures Valid() && old(acked) <= acked && |acked| == |old(acked)| + Count(rets)
      ensures Stopped(rets, |links|)
      ensures StuckSince(old(connects), old(Wedged()), old(Stalled()), old(acked))
    {
      hide Consistent, Counted, Batch, Deaf, FewLostSince, Batched;
      rets := [];
      var i := 0;
      while i < |links|
        invariant i == |rets| <= |links| && Valid() && old(acked) <= acked && |acked| == |old(acked)| + Count(rets)
        invariant forall k :: 0 <= k < i ==> rets[k] >= 0
        invariant StuckSince(old(connects), old(Wedged()), old(Stalled()), old(acked))
      {
        var ret;
        ghost var rounds, found, code;
        ret, rounds, found, code := DataInsert(links[i]);
        ghost var was := rets;
        rets := rets + [ret];
        assert rets[..i] == was;
        if ret < 0 {
          return;
        }
        i := i + 1;
      }
    }

    /** All of n events have results, or those up to the first negative one. */
    ghost predicate Stopped(rets: seq<int>, n: nat) {
      && |rets| <= n && (|rets| < n ==> rets != [] && rets[|rets| - 1] < 0)
      && forall i :: 0 <= i < |rets| - 1 ==> rets[i] >= 0
    }

    /** How many inserts were acknowledged. */
    ghost function Count(rets: seq<int>): nat {
      if rets == [] then 0 else Count(rets[..|rets| - 1]) + if rets[|rets| - 1] == 0 then 1 else 0
    }

    /** As long as no new connection has been attempted, a wedged or stalled client is still
        that and has acknowledged nothing. */
    ghost predicate StuckSince(connects: nat, wedged: bool, stalled: bool, acked: set<nat>)
      reads this
    {
      && connects <= this.connects
      && (connects == this.connects && wedged ==> Wedged())
      && (connects == this.connects && stalled ==> Stalled() && this.acked == acked)
    }

    /** The second half of the clock event: a connection that had a table is reset. */
    method CountRotation()
      requires Consistent() && (connected ==> hasHandle) && !tableCreated && !srv.prepared && rotateCount == 0
      modifies this`offered, this`srv, this`tableCreated, this`connected, this`hasHandle, this`rotateCount
      ensures Consistent() && !tableCreated && rotateCount == 0
      ensures old(offered) + (if old(connected && hasTableName) then old(Batch(srv)) else {}) <= offered
      ensures if old(connected) && hasTableName then !connected && srv.txn.Idle? && !srv.prepared
              else srv == old(srv) && connected == old(connected) && hasHandle == old(hasHandle)
      ensures old(Batch(srv)) == {} ==> srv.committed == old(srv.committed) && srv.discarded == old(srv.discarded)
    {
      hide Sound;
      if connected {
        if hasTableName {
          rotateCount := rotateCount + 1;
          if rotateCount >= MAX_ROTATE_PER_CONNECTION {
            ghost var again := Release();
            rotateCount := 0;
          }
        }
      }
    }

    /** oppostgres_event: the clock rotates the table and resets the connection. */
    method ClockEvent() returns (ghost ended: bool)
      requires Valid()
      modifies this`offered, this`srv, this`tableCreated, this`connected, this`hasHandle, this`rotateCount, this`risk
      ensures Valid() && !tableCreated && connected == (old(connected) && !hasTableName)
      ensures ended ==> Ended(old(srv))
      ensures AtRisk(srv) <= old(AtRisk(srv)) && FewLostSince(old(srv))
      ensures old(Wedged()) ==> Wedged() && srv == old(srv)
      ensures old(Stalled()) ==> Stalled()
      ensures old(Batch(srv)) <= offered
    {
      hide Sound, AtRisk;
      ghost var before := srv;
      RiskRestarts();
      risk := AtRisk(srv);
      ended := MoveTable();
      CountRotation();
      RiskIsBounded();
      LossWithinBatch(acked, before, srv);
    }

    /** The results of a batch: none beyond the first negative one is missing. */
    ghost predicate Answered(c: Call, rets: seq<int>) {
      match c
      case Clock => rets == []
      case Events(links) => Stopped(rets, |links|)
    }

    ghost function CountAll(rets: seq<seq<int>>): nat {
      if rets == [] then 0 else CountAll(rets[..|rets| - 1]) + Count(rets[|rets| - 1])
    }

    /** Any run of output batches and clock events. */
    method Run(calls: seq<Call>) returns (ghost rets: seq<seq<int>>)
      requires Valid()
      modifies this
      ensures Valid() && old(acked) <= acked && |acked| == |old(acked)| + CountAll(rets)
      ensures |rets| == |calls| && forall i :: 0 <= i < |calls| ==> Answered(calls[i], rets[i])
      ensures |acked| == |acked * srv.committed| + |acked * Batch(srv)| + |acked * srv.discarded|
      ensures |acked * srv.discarded| <= (maxUncommitted - 1) * srv.rollbacks
      ensures StuckSince(old(connects), old(Wedged()), old(Stalled()), old(acked))
    {
      rets := RunCalls(calls);
      AckedRowsAccountedFor(srv, acked, maxUncommitted - 1);
    }

    method RunCalls(calls: seq<Call>) returns (ghost rets: seq<seq<int>>)
      requires Valid()
      modifies this
      ensures Valid() && old(acked) <= acked && |acked| == |old(acked)| + CountAll(rets)
      ensures |rets| == |calls| && forall i :: 0 <= i < |calls| ==> Answered(calls[i], rets[i])
      ensures StuckSince(old(connects), old(Wedged()), old(Stalled()), old(acked))
    {
      hide Consistent, Counted, Batch, Deaf, FewLostSince, Ended, AtRisk, Stopped;
      rets := [];
      for i := 0 to |calls|
        invariant Valid() && old(acked) <= acked && |acked| == |old(acked)| + CountAll(rets)
        invariant |rets| == i && forall k :: 0 <= k < i ==> Answered(calls[k], rets[k])
        invariant StuckSince(old(connects), old(Wedged()), old(Stalled()), old(acked))
      {
        ghost var was := rets;
        match calls[i] {
          case Events(links) =>
            ghost var some := Output(links);
            rets := rets + [some];
          case Clock =>
            ghost var ended := ClockEvent();
            rets := rets + [[]];
        }
        assert rets[..i] == was;
      }
    }
  }
}
