/** The nesting state machine of transaction_manager.go, as pure values.

    A `Machine` is what one transaction manager handle can observe: the
    shared nesting depth (`activeTx.count`), the poison counter of the
    current transaction (`rollbacked.count`), whether its physical
    transaction is finished, and the log of physical events that reached
    the database.  Each step function below is one Go method; the classes
    in module TransactionManager are proved to follow them. */
module TxSpec {

  /** Go's uint64, the type of both counters. */
  newtype u64 = x: int | 0 <= x < 0x1_0000_0000_0000_0000

  const U64_MAX: u64 := 0xFFFF_FFFF_FFFF_FFFF

  /** atomic.AddUint64(&count, 1): one more, wrapping to 0 past U64_MAX. */
  function Inc(x: u64): (r: u64)
    ensures r as int == (x as int + 1) % 0x1_0000_0000_0000_0000
  {
    if x == U64_MAX then 0 else x + 1
  }

  /** activeTx.decrement: one less, but never below zero. */
  function Dec(x: u64): (r: u64)
    ensures r <= x && x - r <= 1
    ensures r == x <==> x == 0
  {
    if x > 0 then x - 1 else 0
  }

  datatype Option<T> = None | Some(value: T)

  /** What the database driver can answer when asked to begin, commit or
      roll back.  `TxDone` is database/sql's ErrTxDone, returned by a
      commit or rollback on a transaction that is already finished. */
  datatype DriverError = TxDone | Failure(reason: string)

  /** The errors the manager returns: its own two, and the driver's,
      passed through unchanged. */
  datatype TxError = NestedBegin | NestedCommit | Driver(cause: DriverError)

  const CommitErrMsg := "Tried to commit but already rollbacked in nested transaction"
  const BeginTxErrMsg := "Trying to start a transaction in nested state"
  const TxDoneMsg := "sql: transaction has already been committed or rolled back"

  /** The text `Error()` gives for each error. */
  function Message(e: TxError): (msg: string)
    ensures e == NestedCommit ==> msg == CommitErrMsg
    ensures e == NestedBegin ==> msg == BeginTxErrMsg
    ensures e == Driver(TxDone) ==> msg == TxDoneMsg
    ensures e.Driver? && e.cause.Failure? ==> msg == e.cause.reason
  {
    match e
    case NestedBegin => BeginTxErrMsg
    case NestedCommit => CommitErrMsg
    case Driver(TxDone) => TxDoneMsg
    case Driver(Failure(reason)) => reason
  }

  /** A driver answer, as the error the manager returns for it. */
  function Surface(answer: Option<DriverError>): Option<TxError>
  {
    match answer
    case None => None
    case Some(e) => Some(Driver(e))
  }

  /** Physical events, in the order they reach the database. */
  datatype Event = Began | Committed | RolledBack

  /** depth: activeTx.count, shared by the DB and every handle.
      poison: rollbacked.count of the handle's transaction.
      done:   the physical transaction is finished (or there is none).
      log:    the physical events so far. */
  datatype Machine = Machine(depth: u64, poison: u64, done: bool, log: seq<Event>)

  /** A new state and the error the call returned (None is Go's nil). */
  datatype Step = Step(m: Machine, err: Option<TxError>)

  /** A freshly opened DB: no transaction yet. */
  const Initial := Machine(0, 0, true, [])

  /** sql.Tx's Commit or Rollback (event `ev`): ErrTxDone once the
      transaction is finished; otherwise it finishes it and returns what
      the database answered. */
  function Finish(m: Machine, ev: Event, answer: Option<DriverError>): (s: Step)
    ensures m.done ==> s == Step(m, Some(Driver(TxDone)))
    ensures !m.done ==> s.m.done && s.m.log == m.log + [ev] && s.err == Surface(answer)
    ensures s.m.depth == m.depth && s.m.poison == m.poison
  {
    if m.done then Step(m, Some(Driver(TxDone)))
    else Step(m.(done := true, log := m.log + [ev]), Surface(answer))
  }

  /** DB.BeginTxm (and BeginTxmx): at depth 0 ask the driver (`began` is
      its answer) and, on success, install a new handle with a fresh
      poison counter; deeper, only count one more level. */
  function Begin(m: Machine, began: Option<DriverError>): (s: Step)
    // a physical begin happens exactly for an outermost begin the driver grants
    ensures s.m.log == m.log + [Began] <==> m.depth == 0 && began.None?
    ensures s.m.log == m.log || s.m.log == m.log + [Began]
    // success only at the outermost level, with a new open transaction
    ensures s.err.None? <==> m.depth == 0 && began.None?
    ensures s.err.None? ==> s.m.depth == 1 && s.m.poison == 0 && !s.m.done
    // a failed physical begin changes nothing: the depth stays 0
    ensures m.depth == 0 && began.Some? ==> s == Step(m, Some(Driver(began.value)))
    // a nested begin does not consult the driver and adds exactly one level
    ensures m.depth > 0 ==> s.err == Some(NestedBegin) && s.m == m.(depth := s.m.depth)
    ensures m.depth > 0 ==> s.m.depth as int == (m.depth as int + 1) % 0x1_0000_0000_0000_0000
  {
    if m.depth == 0 then
      match began
      case Some(e) => Step(m, Some(Driver(e)))
      case None => Step(Machine(Inc(0), 0, false, m.log + [Began]), None)
    else
      Step(m.(depth := Inc(m.depth)), Some(NestedBegin))
  }

  /** Txm.Commit. */
  function Commit(m: Machine, answer: Option<DriverError>): (s: Step)
    // the poison check refuses and leaves everything as it was
    ensures m.poison > 0 ==> s == Step(m, Some(NestedCommit))
    // otherwise one level less, saturating at 0
    ensures m.poison == 0 ==> s.m.depth == Dec(m.depth) && s.m.poison == 0
    // a physical commit happens exactly when an unpoisoned commit reaches depth 0
    // on a transaction that is still open
    ensures s.m.log == m.log + [Committed] <==> m.poison == 0 && m.depth <= 1 && !m.done
    ensures s.m.log == m.log || s.m.log == m.log + [Committed]
    // reaching depth 0 returns the driver's own answer
    ensures m.poison == 0 && m.depth <= 1 ==>
      s.err == (if m.done then Some(Driver(TxDone)) else Surface(answer))
    // and leaves the physical transaction finished
    ensures m.poison == 0 && m.depth <= 1 ==> s.m.done
    // above depth 1 nothing physical happens and the call succeeds
    ensures m.poison == 0 && m.depth > 1 ==> s == Step(m.(depth := m.depth - 1), None)
  {
    if m.poison > 0 then Step(m, Some(NestedCommit))
    else
      var d := Dec(m.depth);
      if d == 0 then Finish(m.(depth := d), Committed, answer)
      else Step(m.(depth := d), None)
  }

  /** Txm.Rollback. */
  function Rollback(m: Machine, answer: Option<DriverError>): (s: Step)
    // at depth 0 a rollback is a no-op that succeeds
    ensures m.depth == 0 ==> s == Step(m, None)
    // above depth 1 it poisons the transaction and does nothing physical
    ensures m.depth > 1 ==> s == Step(m.(depth := m.depth - 1, poison := Inc(m.poison)), None)
    // at depth 1 it reaches depth 0 and finishes the physical transaction
    ensures m.depth == 1 ==> s.m.depth == 0 && s.m.poison == m.poison && s.m.done
    ensures m.depth == 1 ==> s.err == (if m.done then Some(Driver(TxDone)) else Surface(answer))
    ensures s.m.log == m.log + [RolledBack] <==> m.depth == 1 && !m.done
    ensures s.m.log == m.log || s.m.log == m.log + [RolledBack]
  {
    if m.depth == 0 then Step(m, None)
    else
      var d := Dec(m.depth);
      if d > 0 then Step(m.(depth := d, poison := Inc(m.poison)), None)
      else Finish(m.(depth := d), RolledBack, answer)
  }

  /** Txm.reset: both counters back to 0. */
  function Reset(m: Machine): (r: Machine)
    ensures r.depth == 0 && r.poison == 0
    ensures r.done == m.done && r.log == m.log
  {
    m.(depth := 0, poison := 0)
  }

  /** Txm.MustCommit: commit the physical transaction whatever the depth,
      then reset both counters (the reset is deferred, so it happens even
      when the commit fails).  The error is the value MustCommit panics with. */
  function MustCommit(m: Machine, answer: Option<DriverError>): (s: Step)
    ensures s.m.depth == 0 && s.m.poison == 0 && s.m.done
    ensures s.m.log == if m.done then m.log else m.log + [Committed]
    ensures s.err == if m.done then Some(Driver(TxDone)) else Surface(answer)
  {
    var f := Finish(m, Committed, answer);
    Step(Reset(f.m), f.err)
  }

  /** Txm.MustRollback: as MustCommit, with a physical rollback. */
  function MustRollback(m: Machine, answer: Option<DriverError>): (s: Step)
    ensures s.m.depth == 0 && s.m.poison == 0 && s.m.done
    ensures s.m.log == if m.done then m.log else m.log + [RolledBack]
    ensures s.err == if m.done then Some(Driver(TxDone)) else Surface(answer)
  {
    var f := Finish(m, RolledBack, answer);
    Step(Reset(f.m), f.err)
  }
}
