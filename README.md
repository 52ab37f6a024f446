# Nested transactions over one physical transaction (sqlx-transactionmanager)

This project models the transaction manager of `transaction_manager.go` in
Dafny. A `DB` hands out `Txm` handles. Any caller, at any depth, may call
`BeginTxm`, but only the outermost begin starts a physical transaction. Nested
begins add one to a depth counter (`activeTx`) that the DB and every handle
share. They get back the same `*Txm` together with a `NestedBeginTxErr`.
`Commit` and `Rollback` take one off that counter. They reach the physical
transaction only when the counter gets to 0. A nested `Rollback` poisons the
transaction: it adds one to the handle's `rollbacked` counter, and from then on
`Commit` refuses with `NestedCommitErr` and leaves the depth alone.

Three modules:

- `TxSpec` (`tx_spec.dfy`) is the state machine as pure values. A `Machine` is
  what one handle sees: the shared depth, its transaction's poison counter,
  whether its physical transaction is finished, and a log of the physical
  events (`Began`, `Committed`, `RolledBack`) that reached the database. Each
  Go method is one step function. Its contract states when a physical event
  happens (both directions) and what happens to the two counters. Both
  counters are Go `uint64`. Increments wrap around explicitly, and the depth
  decrement saturates at 0.
- `TxTraces` (`tx_traces.dfy`) runs sequences of calls through the step
  functions. It proves the invariant that physical begins and finishes
  alternate. It also proves the balanced runs of the repository's tests and the
  poison rule.
- `TransactionManager` (`transaction_manager.dfy`) holds the objects. It has
  the counter classes `ActiveTx` and `Rollbacked`, the raw handle `Conn`, the
  physical transaction `PhysTx`, plus `Txm` and `DB`. A `Txm` holds references
  to the DB's own `ActiveTx` object, so the counter is shared as in the source.
  The `Txm` methods `Commit`, `Rollback`, `Reset`, `MustCommit` and
  `MustRollback` are proved to move `View()` (what the handle sees) exactly as
  the `TxSpec` step function of the same name does. `DB.BeginTxm`, `BeginTxmx`
  and `MustBeginTxm` are proved to move the DB's `View()` as `TxSpec.Begin`
  does. `SetTx`, `GetTxm` and the counter methods state their effect on the
  fields directly. Two client methods replay the tests on the objects, proved
  with loop invariants. A third, `StaleHandleScenario`, shows what the shared
  counter does to a handle kept after its transaction finished.

The database driver is a parameter. `began` is its answer to a begin, and
`answer` is its answer to a commit or rollback (`None` is success). A
`PhysTx` behaves like database/sql's `Tx`. Once it is finished, Commit and
Rollback return `ErrTxDone` (`TxDone`) and do not reach the database.

Behaviour of the code worth noting:

- A nested begin returns a `NestedBeginTxErr` next to the usable handle. So
  `MustBeginTxm` panics on every nested begin. (`TestNestedCommit` in
  transaction_manager_test.go:197-254 treats that error as fatal, which the
  code as written would trip.)
- A rollback that takes the depth to 0 does not reset the poison counter. Only
  `reset` (through `MustCommit`/`MustRollback`) and the next outermost begin,
  which creates a new `rollbacked`, clear it. So "depth 0 implies not
  poisoned" is not an invariant of the code, and a `Commit` through a poisoned
  handle keeps failing after its transaction has rolled back.
- A failed physical begin does not touch the depth, because the increment comes
  after the driver call. It does not need to be undone.
- `NestedBeginTxErr` is not defined in transaction_error.go. Its message is
  taken to be `beginTxErrMsg`.

## Model

| member | source | states |
|---|---|---|
| TxSpec.Inc | transaction_manager.go:210-212 | the counter increment adds one modulo 2^64 |
| TxSpec.Dec | transaction_manager.go:214-218 | the depth decrement lowers a positive count by exactly one and leaves 0 at 0, never below |
| TxSpec.Message | transaction_error.go:3-14 | NestedCommitErr reads commitErrMsg, the nested-begin error reads beginTxErrMsg, ErrTxDone reads database/sql's text, and a driver failure keeps its own text |
| TxSpec.Begin | transaction_manager.go:85-95 | a physical begin happens exactly for a begin at depth 0 that the driver grants, and only that call succeeds, giving depth 1, poison 0 and an open transaction; a failed driver begin returns the driver's error and changes nothing; a nested begin leaves the driver alone, adds exactly one to the depth (mod 2^64) and returns NestedBeginTxErr |
| TxSpec.Commit | transaction_manager.go:136-145 | when poisoned, it returns NestedCommitErr with depth, poison and log untouched; otherwise the depth drops by one (saturating), and a physical commit happens exactly when the depth reaches 0 on an open transaction; reaching 0 leaves the physical transaction finished and returns the driver's answer (ErrTxDone if already finished), above that nil |
| TxSpec.Rollback | transaction_manager.go:156-166 | at depth 0 it is a no-op returning nil; above depth 1 it lowers the depth, adds one to the poison counter, does nothing physical and returns nil; at depth 1 it reaches 0 and performs the physical rollback, returning the driver's answer; it never commits |
| TxSpec.Finish | transaction_manager.go:142 | database/sql's Tx.Commit or Tx.Rollback as the manager calls it (here and at lines 150, 165 and 171): on a finished transaction it returns ErrTxDone and changes nothing; on an open one it finishes it, logs exactly that one physical event and returns the driver's answer; the counters are untouched |
| TxSpec.Reset | transaction_manager.go:176-180 | both counters become 0 and the physical transaction is untouched |
| TxSpec.MustCommit | transaction_manager.go:147-153 | commits the physical transaction whatever the depth, then both counters are 0; the panic value is the driver's answer (ErrTxDone if already finished) |
| TxSpec.MustRollback | transaction_manager.go:168-174 | rolls back the physical transaction whatever the depth, then both counters are 0; the panic value is the driver's answer |
| TxTraces.ApplyKeepsInv | transaction_manager.go:85-180 | every operation keeps "a physical transaction is open exactly while depth > 0, and physical begins and finishes alternate", unless a nested begin wraps the depth counter |
| TxTraces.RunKeepsInv | transaction_manager.go:85-180 | every sequence of operations that cannot wrap the depth keeps that invariant |
| TxTraces.RunFromInitial | transaction_manager.go:36-42 | from a newly opened DB, in any run of calls made through the DB's current Txm, each physical begin is followed by exactly one physical commit or rollback before the next begin |
| TxTraces.NestedBeginsAddK | transaction_manager_atomic_test.go:10-33 | k nested begins on an open transaction add exactly k to the depth, each returning NestedBeginTxErr, with no physical event |
| TxTraces.CommitsUnwind | transaction_manager.go:136-145 | at depth k+1 without poison, k+1 commits produce exactly one physical commit, on the last call, which returns the driver's answer; the others return nil |
| TxTraces.RollbacksUnwind | transaction_manager.go:156-166 | at depth k+1, k+1 rollbacks produce exactly one physical rollback, on the last call; the k before it each return nil and add one to the poison counter |
| TxTraces.NestedCommitRun | transaction_manager_test.go:236-253 | one begin, k nested begins and k+1 commits give exactly [Began, Committed], with the commit on the last call; one more commit returns ErrTxDone |
| TxTraces.AtomicCountRun | transaction_manager_atomic_test.go:9-49 | one begin, times-1 nested begins and times rollbacks leave depth 0 with exactly [Began, RolledBack], every rollback returning nil when the driver succeeds; one more rollback is a no-op returning nil |
| TxTraces.PoisonBlocksCommit | transaction_manager.go:136-166 | once poisoned, in any run of Commit and Rollback calls every commit returns NestedCommitErr, the poison stays, and the only physical event still possible is one rollback, never a commit, and a run that brings an open transaction back to depth 0 has logged exactly that rollback (MustCommit skips the poison check and does commit) |
| TxTraces.NestedRollbackPoisons | transaction_manager.go:137-163 | the rollback that poisons (lines 160-163) and the commit's poison check (lines 137-139): a rollback at depth d > 1 leaves depth d-1 and poison 1, and the commit after it is refused with the depth still d-1 |
| TransactionManager.ActiveTx.Get | transaction_manager.go:220-222 | returns the current shared depth |
| TransactionManager.ActiveTx.Has | transaction_manager.go:224-226 | true exactly when the shared depth is positive |
| TransactionManager.ActiveTx.Increment | transaction_manager.go:210-212 | the shared depth grows by one modulo 2^64 |
| TransactionManager.ActiveTx.Decrement | transaction_manager.go:214-218 | the shared depth drops by one when positive and stays 0 at 0 |
| TransactionManager.ActiveTx.Reset | transaction_manager.go:206-208 | the shared depth becomes 0 |
| TransactionManager.Rollbacked.Times | transaction_manager.go:194-196 | returns the current poison count |
| TransactionManager.Rollbacked.Already | transaction_manager.go:198-200 | true exactly when the poison count is positive, i.e. a nested rollback has happened since the counter was created or last reset |
| TransactionManager.Rollbacked.Increment | transaction_manager.go:190-192 | the poison counter grows by one modulo 2^64 |
| TransactionManager.Rollbacked.Reset | transaction_manager.go:186-188 | the poison counter becomes 0 |
| TransactionManager.Conn.Beginx | transaction_manager.go:87-90 | the driver either grants a new open transaction on this connection, logging one physical begin, or fails and returns none with the log unchanged |
| TransactionManager.PhysTx.Commit | transaction_manager.go:142 | a finished transaction answers ErrTxDone and logs nothing; an open one is finished, logs one physical commit and returns the driver's answer |
| TransactionManager.PhysTx.Rollback | transaction_manager.go:165 | the same for a physical rollback |
| TransactionManager.Txm.constructor | transaction_manager.go:68-72 | a new handle on the given physical transaction and shared depth counter, with its own fresh poison counter at 0 |
| TransactionManager.DB.Open | transaction_manager.go:41 | a new DB has a fresh depth counter at 0 and no Txm |
| TransactionManager.DB.SetTx | transaction_manager.go:67-73 | installs a fresh Txm on the new physical transaction, sharing the DB's depth counter, with poison 0 |
| TransactionManager.DB.GetTxm | transaction_manager.go:77-80 | increments the shared depth and returns the current Txm |
| TransactionManager.DB.BeginTxm | transaction_manager.go:85-95 | moves the DB's view as TxSpec.Begin does; an outermost begin returns a newly created Txm, a nested one returns the same db.tx, and a driver failure returns nil with the old Txm kept |
| TransactionManager.DB.BeginTxmx | transaction_manager.go:113-123 | the same as BeginTxm, with the context and options going only to the driver |
| TransactionManager.DB.MustBeginTxm | transaction_manager.go:99-105 | panics exactly when BeginTxm returns an error, which includes every nested begin |
| TransactionManager.Txm.Commit | transaction_manager.go:136-145 | moves the handle's view exactly as TxSpec.Commit does |
| TransactionManager.Txm.Rollback | transaction_manager.go:156-166 | moves the handle's view exactly as TxSpec.Rollback does |
| TransactionManager.Txm.Reset | transaction_manager.go:177-180 | sets both the poison counter and the shared depth to 0 |
| TransactionManager.Txm.MustCommit | transaction_manager.go:148-153 | moves the handle's view exactly as TxSpec.MustCommit does |
| TransactionManager.Txm.MustRollback | transaction_manager.go:169-174 | moves the handle's view exactly as TxSpec.MustRollback does |
| TransactionManager.NestedCommitScenario | transaction_manager_test.go:197-254 | on the objects: one begin, k nested begins each returning the same Txm, and k+1 commits log exactly [Began, Committed]; the last commit returns the driver's answer and one more returns ErrTxDone |
| TransactionManager.AtomicCountScenario | transaction_manager_atomic_test.go:8-50 | on the objects, one call after another: one begin and times-1 nested begins give depth times, and times rollbacks give depth 0, nil, and exactly [Began, RolledBack] |
| TransactionManager.StaleHandleScenario | transaction_manager.go:67-80 | every Txm shares the DB's depth counter: after t1's transaction commits and t2 begins, an unpoisoned commit through t1 takes the shared depth to 0 and gets ErrTxDone, while t2's transaction stays open; the next BeginTxm then starts a second physical transaction, logging [Began, Committed, Began, Began] |

## Left out

- TxTraces.RunFromInitial: the trace model covers only calls through the DB's current Txm (`db.tx`). A Txm kept after its transaction finished still shares the depth counter, and calls through it can break the alternation of physical begins and finishes (`StaleHandleScenario` shows two begins in a row).
- TxTraces.PoisonBlocksCommit: covers runs of Commit and Rollback only. `MustCommit` does not check the poison counter and commits a poisoned transaction, and a begin after the transaction is finished starts a new, unpoisoned one.
- Goroutine concurrency and the atomicity of `sync/atomic`: the counters are plain fields updated one call at a time. The concurrent test is modelled as the same calls made one after another (`AtomicCountRun`, `AtomicCountScenario`).
- The check-then-act races (for example in `decrement` and in `BeginTxm`'s depth test) exist only under concurrency, so they are not modelled.
- The embedded `*sqlx.DB`/`*sqlx.Tx` passthroughs, `Open`'s driver name and data source, `MustOpen`, `Close` and `SQL` are foreign library calls. `DB.Open` only builds the state `Open` leaves.
- The context and `*sql.TxOptions` of `BeginTxmx` and `MustBeginTxmx` are forwarded to the driver, whose answer is the `began` parameter. `MustBeginTxmx` behaves like `MustBeginTxm` and has no member of its own.
- Cancelling a context makes the driver roll back on its own. This is not modelled; in the model it only shows up as a driver answer.
- The `String()` methods of both counters only format text for display.
- `DB.rollbacked` is never initialised by `Open`, so the model tracks poison only through each `Txm`'s own counter.
- A panic is modelled as the value `MustCommit`, `MustRollback` or `MustBeginTxm` would panic with. Unwinding and `recover` are not modelled.
- tm/transaction_block.go (`Run`/`Runx`) and its `Executor` interfaces are thin wrappers over database/sql and sqlx. They are not part of this model.
- eg/main.go, eg/utils.go, utils_for_test.go and the SQL, schema and fixture parts of the tests are I/O against real databases.
- Wrap-around of the depth counter after 2^64 nested begins is modelled, but the invariant lemmas assume it does not happen. If it did, depth 0 would mean a transaction is open, and the next begin would start a second physical transaction.
