/**
  Transactions of the data provider: one running transaction per thread,
  begun, committed or rolled back through the provider, and the scope
  guard `create_transaction` that rolls back on destruction unless it was
  committed or rolled back first.
 */
module Transactions {
  import opened Wrappers
  import opened Store
  import opened Provider

  /** A running transaction: its view of the tables and whether it may write. */
  datatype Txn = Txn(tables: Tables, writable: bool)

  /** The provider: the committed tables, whether the store's map is full,
      the result code the store's commit returns (0 for success), and the
      calling thread's running transaction, if any. */
  datatype DataProvider = DataProvider(committed: Tables, mapFull: bool, commitCode: int, current: Option<Txn>)

  /** Calling through a null transaction pointer. */
  datatype Fault = NullTransaction

  /** What the running transaction allows. */
  function ModeOf(p: DataProvider): (m: Mode)
    requires p.current.Some?
    ensures m.writable == p.current.value.writable && m.mapFull == p.mapFull
  {
    Mode(p.current.value.writable, p.mapFull)
  }

  /** `begin_trans`: a new transaction on the committed tables; one already
      running is dropped, and so rolled back. */
  function BeginTrans(p: DataProvider, writable: bool): (q: DataProvider)
    ensures q.committed == p.committed && q.mapFull == p.mapFull && q.commitCode == p.commitCode
    ensures q.current == Some(Txn(p.committed, writable))
  {
    p.(current := Some(Txn(p.committed, writable)))
  }

  /** The running transaction's tables after an operation inside it. */
  function Apply(p: DataProvider, o: Outcome): (q: DataProvider)
    requires p.current.Some?
    ensures q.committed == p.committed && q.mapFull == p.mapFull && q.commitCode == p.commitCode
    ensures q.current == Some(Txn(o.tables, p.current.value.writable))
  {
    p.(current := Some(p.current.value.(tables := o.tables)))
  }

  /** Ending a running transaction by commit: the transaction is released
      either way; a writable one publishes its tables when the store's
      commit succeeds, and a failed commit publishes nothing. */
  function Publish(p: DataProvider, txn: Txn): (q: DataProvider)
    ensures q.current.None? && q.mapFull == p.mapFull && q.commitCode == p.commitCode
    ensures q.committed == (if txn.writable && p.commitCode == 0 then txn.tables else p.committed)
  {
    p.(committed := if txn.writable && p.commitCode == 0 then txn.tables else p.committed, current := None)
  }

  /** What `commit` throws: `DataProviderException(COMMIT, code)` when a
      running transaction's commit fails in the store, nothing otherwise. */
  function CommitThrown(p: DataProvider): (e: Option<DbError>)
    ensures e.Some? <==> p.current.Some? && p.commitCode != 0
    ensures e.Some? ==> e.value == Failure(DbCall.Commit, p.commitCode)
  {
    if p.current.Some? && p.commitCode != 0 then Some(Failure(DbCall.Commit, p.commitCode)) else None
  }

  /** `commit` as written: releases the transaction pointer and calls
      through it even when it is null. */
  function CommitAsWritten(p: DataProvider): (r: Result<DataProvider, Fault>)
    ensures p.current.None? <==> r == Err(NullTransaction)
    ensures r.Ok? ==> r.value == Commit(p)
  {
    match p.current
    case None => Err(NullTransaction)
    case Some(txn) => Ok(Publish(p, txn))
  }

  /** `commit` as its warning describes it: without a running transaction
      the call is ignored. A failed store commit still releases the
      transaction, and `CommitThrown` says what escapes. */
  function Commit(p: DataProvider): (q: DataProvider)
    ensures q.current.None? && q.mapFull == p.mapFull && q.commitCode == p.commitCode
    ensures p.current.None? ==> q == p
    ensures p.current.Some? && p.current.value.writable && p.commitCode == 0 ==> q.committed == p.current.value.tables
    ensures p.current.Some? && !p.current.value.writable ==> q.committed == p.committed
    ensures p.commitCode != 0 ==> q.committed == p.committed
  {
    match p.current
    case None => p
    case Some(txn) => Publish(p, txn)
  }

  /** `rollback` as written: the same null call as `commit`. */
  function RollbackAsWritten(p: DataProvider): (r: Result<DataProvider, Fault>)
    ensures p.current.None? <==> r == Err(NullTransaction)
    ensures r.Ok? ==> r.value == Rollback(p)
  {
    match p.current
    case None => Err(NullTransaction)
    case Some(_) => Ok(p.(current := None))
  }

  /** `rollback` as intended: the running transaction, if any, is dropped
      and the committed tables stay as they were. */
  function Rollback(p: DataProvider): (q: DataProvider)
    ensures q.current.None? && q.committed == p.committed && q.mapFull == p.mapFull
  {
    p.(current := None)
  }

  /** Rolling back discards whatever the transaction wrote: beginning,
      writing and rolling back leaves the provider idle on the same
      committed tables. */
  lemma RollbackDiscards(p: DataProvider, writable: bool, o: Outcome)
    ensures Rollback(Apply(BeginTrans(p, writable), o)) == p.(current := None)
  {
  }

  /** Committing a writable transaction publishes exactly what it wrote
      when the store's commit succeeds; when it fails, the commit throws
      and the committed tables stay as they were. Either way the
      transaction has ended. */
  lemma CommitPublishes(p: DataProvider, o: Outcome)
    ensures Commit(Apply(BeginTrans(p, true), o)).committed == (if p.commitCode == 0 then o.tables else p.committed)
    ensures Commit(Apply(BeginTrans(p, true), o)).current.None?
    ensures CommitThrown(Apply(BeginTrans(p, true), o)).Some? <==> p.commitCode != 0
  {
  }

  /** Beginning while a transaction runs throws away its writes: the new
      transaction sees only the committed tables. */
  lemma BeginDropsRunning(p: DataProvider, writable: bool, o: Outcome, again: bool)
    ensures BeginTrans(Apply(BeginTrans(p, writable), o), again).current.value.tables == p.committed
  {
  }

  /** The scope guard: armed while it still owns the transaction it began
      (its provider pointer is not null). */
  datatype Guard = Guard(armed: bool)

  /** A guard and the provider it acts on. */
  datatype Scope = Scope(guard: Guard, provider: DataProvider)

  /** `create_transaction(p, flags)`: begins a transaction and arms the guard. */
  function CreateTransaction(p: DataProvider, writable: bool): (s: Scope)
    ensures s.guard.armed
    ensures s.provider == BeginTrans(p, writable)
  {
    Scope(Guard(true), BeginTrans(p, writable))
  }

  /** `create_transaction::commit`: an armed guard disarms and commits; a
      disarmed one does nothing. */
  function GuardCommit(s: Scope): (r: Scope)
    ensures !r.guard.armed
    ensures s.guard.armed ==> r.provider == Commit(s.provider)
    ensures !s.guard.armed ==> r == s
  {
    if s.guard.armed then Scope(Guard(false), Commit(s.provider)) else s
  }

  /** `create_transaction::rollback`: as `commit`, rolling back instead. */
  function GuardRollback(s: Scope): (r: Scope)
    ensures !r.guard.armed
    ensures s.guard.armed ==> r.provider == Rollback(s.provider)
    ensures !s.guard.armed ==> r == s
  {
    if s.guard.armed then Scope(Guard(false), Rollback(s.provider)) else s
  }

  /** The guard's destructor: an armed guard rolls back. */
  function GuardDestroy(s: Scope): (p: DataProvider)
    ensures s.guard.armed ==> p == Rollback(s.provider)
    ensures !s.guard.armed ==> p == s.provider
  {
    if s.guard.armed then Rollback(s.provider) else s.provider
  }

  /** The guard ends its transaction at most once: after a commit or a
      rollback, further commits, rollbacks and the destructor change
      nothing. */
  lemma GuardEndsOnce(s: Scope)
    ensures GuardCommit(GuardCommit(s)) == GuardCommit(s)
    ensures GuardRollback(GuardCommit(s)) == GuardCommit(s)
    ensures GuardDestroy(GuardCommit(s)) == GuardCommit(s).provider
    ensures GuardDestroy(GuardRollback(s)) == GuardRollback(s).provider
  {
  }

  /** The usual use of the guard: begin, run one operation, commit if it
      threw nothing, and let the destructor roll back otherwise. */
  function WithTransaction(p: DataProvider, writable: bool, op: (Mode, Tables) -> Outcome): (r: (DataProvider, Option<DbError>))
    ensures r.0.current.None? && r.0.mapFull == p.mapFull
    ensures op(Mode(writable, p.mapFull), p.committed).thrown.Some? ==> r.1 == op(Mode(writable, p.mapFull), p.committed).thrown
    ensures op(Mode(writable, p.mapFull), p.committed).thrown.None? ==>
              (r.1.Some? <==> p.commitCode != 0) && (r.1.Some? ==> r.1.value == Failure(DbCall.Commit, p.commitCode))
  {
    var s := CreateTransaction(p, writable);
    var o := op(ModeOf(s.provider), s.provider.current.value.tables);
    var s1 := Scope(s.guard, Apply(s.provider, o));
    if o.thrown.Some? then (GuardDestroy(s1), o.thrown)
    else (GuardDestroy(GuardCommit(s1)), CommitThrown(s1.provider))
  }

  /** A guarded operation is atomic: when anything throws, the operation or
      the commit, the committed tables are untouched; when nothing throws in
      a writable transaction, everything it wrote is committed. */
  lemma WithTransactionAtomic(p: DataProvider, writable: bool, op: (Mode, Tables) -> Outcome)
    ensures WithTransaction(p, writable, op).1.Some? ==> WithTransaction(p, writable, op).0.committed == p.committed
    ensures var o := op(Mode(writable, p.mapFull), p.committed);
      WithTransaction(p, writable, op).1.None? && writable ==> WithTransaction(p, writable, op).0.committed == o.tables
    ensures !writable ==> WithTransaction(p, writable, op).0.committed == p.committed
  {
  }

  /** Two guards nested on one thread: the inner guard's transaction
      replaces the outer one, and once the inner guard commits, no
      transaction is running while the outer guard is still armed. */
  function NestedScopes(p: DataProvider): (r: (Scope, Scope))
    ensures r.0.guard.armed && !r.1.guard.armed
    ensures r.1.provider.current.None?
  {
    var outer := CreateTransaction(p, true);
    var inner := GuardCommit(CreateTransaction(outer.provider, true));
    (outer, inner)
  }

  /** As written, the outer guard's destructor then calls `rollback`
      through a null transaction pointer; as intended it is ignored. */
  lemma NestedGuardsNullRollback(p: DataProvider)
    ensures var (outer, inner) := NestedScopes(p);
      && RollbackAsWritten(inner.provider) == Err(NullTransaction)
      && GuardDestroy(Scope(outer.guard, inner.provider)) == inner.provider
  {
  }
}
