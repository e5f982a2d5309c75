/** The PostgreSQL server as its client sees it: any statement can fail, a failed
    statement aborts the open transaction, and a lost connection rolls it back. */
module PgServer {

  /** The transaction of the connection, with the rows it holds. */
  datatype Txn = Idle | Open(rows: set<nat>) | Aborted(rows: set<nat>)

  datatype Server = Server(
    alive: bool,            // the connection is up
    txn: Txn,
    prepared: bool,         // the insert statement is prepared on the connection
    committed: set<nat>,    // rows durably stored
    discarded: set<nat>,    // rows rolled back
    rollbacks: nat          // how many non-empty batches have been rolled back
  )

  function Batch(s: Server): set<nat> {
    if s.txn.Idle? then {} else s.txn.rows
  }

  /** The open rows are gone. */
  function RolledBack(s: Server): Server {
    s.(txn := Idle, discarded := s.discarded + Batch(s),
       rollbacks := if Batch(s) == {} then s.rollbacks else s.rollbacks + 1)
  }

  /** The connection is gone, and with it the open rows and the prepared statement. */
  function Lost(s: Server): Server {
    RolledBack(s).(alive := false, prepared := false)
  }

  function Committed(s: Server): Server {
    s.(txn := Idle, committed := s.committed + Batch(s))
  }

  /** A statement that cannot reach the server, or whose connection breaks. */
  predicate Broken(s: Server, s': Server) {
    s' == Lost(s) || (!s.alive && s' == s)
  }

  /** END: commits an open transaction, rolls back an aborted one. When the
      connection breaks the commit may or may not have happened. */
  predicate EndStep(s: Server, ok: bool, s': Server) {
    if ok then s.alive && s' == if s.txn.Aborted? then RolledBack(s) else Committed(s)
    else Broken(s, s') || (s.alive && s.txn.Open? && s' == Lost(Committed(s)))
  }

  /** BEGIN: inside an open transaction it only warns, inside an aborted one it fails. */
  predicate BeginStep(s: Server, ok: bool, s': Server) {
    if ok then s.alive && !s.txn.Aborted? && s' == if s.txn.Idle? then s.(txn := Open({})) else s
    else Broken(s, s') || (s.alive && s.txn.Aborted? && s' == s)
  }

  /** What a statement that fails for its own sake does to the transaction. */
  function Failed(s: Server): Server {
    if s.txn.Open? then s.(txn := Aborted(s.txn.rows)) else s
  }

  /** Any statement that changes neither rows of the batch nor prepared statements.
      Outside a transaction it fails only when the connection is lost. */
  predicate PlainStep(s: Server, ok: bool, s': Server) {
    if ok then s.alive && !s.txn.Aborted? && s' == s
    else Broken(s, s') || (s.alive && !s.txn.Idle? && s' == Failed(s))
  }

  /** PREPARE: fails on a name already in use. */
  predicate PrepareStep(s: Server, ok: bool, s': Server) {
    if ok then s.alive && !s.txn.Aborted? && !s.prepared && s' == s.(prepared := true)
    else Broken(s, s') || (s.alive && (s.prepared || !s.txn.Idle?) && s' == Failed(s))
  }

  /** DEALLOCATE: fails on a name not in use. */
  predicate DeallocateStep(s: Server, ok: bool, s': Server) {
    if ok then s.alive && !s.txn.Aborted? && s.prepared && s' == s.(prepared := false)
    else Broken(s, s') || (s.alive && (!s.prepared || !s.txn.Idle?) && s' == Failed(s))
  }

  /** The row has been stored: in the open transaction, or at once outside one. */
  function Stored(s: Server, row: nat): Server {
    if s.txn.Open? then s.(txn := Open(s.txn.rows + {row})) else s.(committed := s.committed + {row})
  }

  /** Executing the prepared insert. A caller that gives up cannot tell whether
      the row was stored. */
  predicate InsertStep(s: Server, row: nat, ok: bool, s': Server) {
    if ok then s.alive && s.prepared && !s.txn.Aborted? && s' == Stored(s, row)
    else
      || Broken(s, s')
      || (s.alive && s' == s)
      || (s.alive && s' == Failed(s))
      || (s.alive && s.prepared && !s.txn.Aborted? && s' == Stored(s, row))
  }

  /** A new connection replaces the old one. */
  predicate ConnectStep(s: Server, ok: bool, s': Server) {
    s' == if ok then Lost(s).(alive := true) else Lost(s)
  }

  /** The rows the server has ever stored. */
  function Rows(s: Server): set<nat> {
    s.committed + s.discarded + Batch(s)
  }

  /** Every acknowledged row is in exactly one place, at most `cap` of them are in
      the open batch, and each rollback has cost at most `cap` of them. */
  ghost predicate Balanced(committed: set<nat>, batch: set<nat>, discarded: set<nat>, rollbacks: nat,
                           acked: set<nat>, cap: nat)
  {
    && committed !! discarded && committed !! batch && discarded !! batch
    && acked <= committed + batch + discarded
    && |acked * batch| <= cap
    && |acked * discarded| <= cap * rollbacks
  }

  ghost predicate Ledger(s: Server, acked: set<nat>, cap: nat) {
    Balanced(s.committed, Batch(s), s.discarded, s.rollbacks, acked, cap)
  }

  /** Acknowledged rows = durably committed + still in the open batch + rolled back. */
  lemma AckedRowsAccountedFor(s: Server, acked: set<nat>, cap: nat)
    requires Ledger(s, acked, cap)
    ensures |acked| == |acked * s.committed| + |acked * Batch(s)| + |acked * s.discarded|
  {
    assert acked == acked * s.committed + acked * Batch(s) + acked * s.discarded;
  }

  lemma RollbackCost(acked: set<nat>, discarded: set<nat>, batch: set<nat>, cap: nat, rollbacks: nat)
    requires discarded !! batch && |acked * discarded| <= cap * rollbacks && |acked * batch| <= cap
    ensures |acked * (discarded + batch)| <= cap * (if batch == {} then rollbacks else rollbacks + 1)
  {
    assert acked * (discarded + batch) == acked * discarded + acked * batch;
    if batch != {} {
      calc {
        cap * (rollbacks + 1);
        cap * rollbacks + cap;
      }
    }
  }

  lemma RollbackKeepsLedger(s: Server, acked: set<nat>, cap: nat)
    requires Ledger(s, acked, cap)
    ensures Ledger(RolledBack(s), acked, cap) && Ledger(Lost(s), acked, cap)
  {
    RollbackCost(acked, s.discarded, Batch(s), cap, s.rollbacks);
    assert acked * {} == {};
  }

  lemma CommitKeepsLedger(s: Server, acked: set<nat>, cap: nat)
    requires Ledger(s, acked, cap) && !s.txn.Aborted?
    ensures Ledger(Committed(s), acked, cap)
  {
    assert acked * Batch(Committed(s)) == {};
  }

  /** A row nobody has acknowledged yet can be stored. */
  lemma StoreKeepsLedger(s: Server, row: nat, acked: set<nat>, cap: nat)
    requires Ledger(s, acked, cap) && !s.txn.Aborted? && row !in acked
    requires row !in s.committed + s.discarded + Batch(s)
    ensures Ledger(Stored(s, row), acked, cap)
  {
    assert acked * Batch(Stored(s, row)) == acked * Batch(s);
  }

  /** The rows rolled back already and those a rollback would take. */
  function AtRisk(s: Server): set<nat> {
    s.discarded + Batch(s)
  }

  ghost predicate Below(rows: set<nat>, next: nat) {
    forall r :: r in rows ==> r < next
  }

  /** The books are in order, rows are numbered below `next`, a dead connection
      holds nothing, and the rows rolled back or at risk of it are among `risk`. */
  ghost predicate Sound(s: Server, acked: set<nat>, next: nat, cap: nat, risk: set<nat>) {
    && Ledger(s, acked, cap)
    && Below(Rows(s), next)
    && (!s.alive ==> s.txn.Idle? && !s.prepared)
    && AtRisk(s) <= risk
  }

  lemma LostIsSound(s: Server, acked: set<nat>, next: nat, cap: nat, risk: set<nat>)
    requires Sound(s, acked, next, cap, risk)
    ensures Sound(Lost(s), acked, next, cap, risk) && Sound(RolledBack(s), acked, next, cap, risk)
    ensures Sound(Failed(s), acked, next, cap, risk)
  {
    hide Balanced;
    RollbackKeepsLedger(s, acked, cap);
    FailedKeepsLedger(s, acked, cap);
    assert Rows(Lost(s)) == Rows(RolledBack(s)) == Rows(Failed(s)) == Rows(s);
    assert AtRisk(Lost(s)) == AtRisk(RolledBack(s)) == AtRisk(Failed(s)) == AtRisk(s);
  }

  lemma FailedKeepsLedger(s: Server, acked: set<nat>, cap: nat)
    requires Ledger(s, acked, cap)
    ensures Ledger(Failed(s), acked, cap)
  {
    assert Batch(Failed(s)) == Batch(s);
  }

  lemma CommittedIsSound(s: Server, acked: set<nat>, next: nat, cap: nat, risk: set<nat>)
    requires Sound(s, acked, next, cap, risk) && !s.txn.Aborted?
    ensures Sound(Committed(s), acked, next, cap, risk) && Sound(Lost(Committed(s)), acked, next, cap, risk)
  {
    hide Balanced;
    CommitKeepsLedger(s, acked, cap);
    assert Rows(Committed(s)) == Rows(s);
    assert AtRisk(Committed(s)) <= AtRisk(s);
    LostIsSound(Committed(s), acked, next, cap, risk);
  }

  lemma StoredIsSound(s: Server, acked: set<nat>, next: nat, cap: nat, risk: set<nat>)
    requires Sound(s, acked, next, cap, risk) && s.alive && !s.txn.Aborted? && acked <= Rows(s)
    ensures Sound(Stored(s, next), acked, next + 1, cap, risk + {next})
  {
    hide Balanced;
    StoreKeepsLedger(s, next, acked, cap);
    assert Rows(Stored(s, next)) == Rows(s) + {next};
    assert AtRisk(Stored(s, next)) <= AtRisk(s) + {next};
  }

  lemma EndKeepsSound(s: Server, ok: bool, s': Server, acked: set<nat>, next: nat, cap: nat, risk: set<nat>)
    requires Sound(s, acked, next, cap, risk) && EndStep(s, ok, s')
    ensures Sound(s', acked, next, cap, risk)
  {
    hide Sound, Lost, RolledBack, Committed;
    LostIsSound(s, acked, next, cap, risk);
    if !s.txn.Aborted? {
      CommittedIsSound(s, acked, next, cap, risk);
    }
  }

  lemma BeginKeepsSound(s: Server, ok: bool, s': Server, acked: set<nat>, next: nat, cap: nat, risk: set<nat>)
    requires Sound(s, acked, next, cap, risk) && BeginStep(s, ok, s')
    ensures Sound(s', acked, next, cap, risk)
  {
    hide Balanced, Below, Lost, Failed;
    LostIsSound(s, acked, next, cap, risk);
  }

  lemma PlainKeepsSound(s: Server, ok: bool, s': Server, acked: set<nat>, next: nat, cap: nat, risk: set<nat>)
    requires Sound(s, acked, next, cap, risk) && PlainStep(s, ok, s')
    ensures Sound(s', acked, next, cap, risk)
  {
    hide Sound, Lost, Failed;
    LostIsSound(s, acked, next, cap, risk);
  }

  lemma PrepareKeepsSound(s: Server, ok: bool, s': Server, acked: set<nat>, next: nat, cap: nat, risk: set<nat>)
    requires Sound(s, acked, next, cap, risk) && (PrepareStep(s, ok, s') || DeallocateStep(s, ok, s'))
    ensures Sound(s', acked, next, cap, risk)
  {
    hide Balanced, Below, Lost, Failed;
    LostIsSound(s, acked, next, cap, risk);
  }

  lemma InsertKeepsSound(s: Server, ok: bool, s': Server, acked: set<nat>, next: nat, cap: nat, risk: set<nat>)
    requires Sound(s, acked, next, cap, risk) && InsertStep(s, next, ok, s')
    ensures Sound(s', acked, next + 1, cap, risk + {next})
  {
    hide Lost, Failed, Stored, Balanced;
    LostIsSound(s, acked, next, cap, risk);
    AckedAreRows(s, acked, cap);
    if s.alive && !s.txn.Aborted? {
      StoredIsSound(s, acked, next, cap, risk);
    }
  }

  lemma AckedAreRows(s: Server, acked: set<nat>, cap: nat)
    requires Ledger(s, acked, cap)
    ensures acked <= Rows(s)
  {
  }

  lemma ConnectKeepsSound(s: Server, ok: bool, s': Server, acked: set<nat>, next: nat, cap: nat, risk: set<nat>)
    requires Sound(s, acked, next, cap, risk) && ConnectStep(s, ok, s')
    ensures Sound(s', acked, next, cap, risk)
  {
    hide Balanced, Below, RolledBack;
    LostIsSound(s, acked, next, cap, risk);
  }

  /** No statement but END can succeed: the connection is broken, or its transaction is aborted. */
  predicate Deaf(s: Server) {
    !s.alive || s.txn.Aborted?
  }

  // The statements of a preparation, as one relation.

  /** The new table's name goes to the queue, or the table is dropped. */
  ghost predicate Queued(s: Server, ok: bool, s': Server) {
    exists r, c :: PlainStep(s, r, c) && if r then ok && s' == c else !ok && (PlainStep(c, true, s') || PlainStep(c, false, s'))
  }

  ghost predicate Created(s: Server, ok: bool, s': Server) {
    exists r, b :: PlainStep(s, r, b) && if r then Queued(b, ok, s') else !ok && s' == b
  }

  /** A table is found in the queue, or a new one is created. */
  ghost predicate Picked(s: Server, found: bool, ok: bool, s': Server) {
    exists r, a :: PlainStep(s, r, a) &&
      if !r then !ok && !found && s' == a else if found then ok && s' == a else Created(a, ok, s')
  }

  ghost predicate Begun(s: Server, ok: bool, s': Server) {
    exists r, b :: BeginStep(s, r, b) && if r then PrepareStep(b, ok, s') else !ok && s' == b
  }

  ghost predicate Preparation(s: Server, found: bool, ok: bool, s': Server) {
    exists r, a :: Picked(s, found, r, a) && if r then Begun(a, ok, s') else !ok && s' == a
  }

  /** A failed preparation makes the connection deaf, and on a deaf connection none succeeds. */
  lemma PreparationFails(s: Server, found: bool, ok: bool, s': Server)
    requires Preparation(s, found, ok, s')
    ensures !ok ==> Deaf(s')
    ensures Deaf(s) ==> !ok && !found
  {
  }

  /** A run that makes a live connection deaf: SELECT, CREATE TABLE, INSERT and BEGIN
      succeed and PREPARE fails. From then on no preparation and no insert can succeed,
      each can fail for ever without breaking the connection, and the END that a preparation
      does not send would help. */
  lemma PreparationCanGetStuck(s: Server, row: nat) returns (stuck: Server)
    requires s.alive && s.txn.Idle? && !s.prepared
    ensures Preparation(s, false, false, stuck) && stuck.alive && Deaf(stuck)
    ensures forall found, s' :: !Preparation(stuck, found, true, s')
    ensures forall s' :: !InsertStep(stuck, row, true, s')
    ensures Preparation(stuck, false, false, stuck)
    ensures EndStep(stuck, true, s)
  {
    var open := s.(txn := Open({}));
    stuck := open.(txn := Aborted({}));
    assert PlainStep(s, true, s) && BeginStep(s, true, open) && PrepareStep(open, false, stuck);
    assert Queued(s, true, s);
    assert Created(s, true, s);
    assert Picked(s, false, true, s);
    assert Begun(s, false, stuck);
    assert PlainStep(stuck, false, stuck);
    assert Picked(stuck, false, false, stuck);
    assert s.discarded + {} == s.discarded;
    forall found, s' | Preparation(stuck, found, true, s')
      ensures false
    {
      PreparationFails(stuck, found, true, s');
    }
  }

  /** What a step that adds no row can lose was in the batch. */
  lemma LossWithinBatch(acked: set<nat>, s: Server, s': Server)
    requires AtRisk(s') <= AtRisk(s)
    ensures |acked * s'.discarded - s.discarded| <= |Batch(s)|
  {
    var lost := acked * s'.discarded - s.discarded;
    assert lost <= Batch(s);
    assert Batch(s) == lost + (Batch(s) - lost);
  }
}
