/** The objects of transaction_manager.go: a DB that owns the shared depth
    counter, and Txm handles that all point at that same counter object,
    each with the physical transaction and poison counter it was created
    with.  The Txm methods Commit, Rollback, Reset, MustCommit and
    MustRollback are proved to follow the TxSpec step function of the same
    name, applied to the state the handle can see; DB.BeginTxm, BeginTxmx
    and MustBeginTxm follow TxSpec.Begin on the state the DB can see.
    SetTx, GetTxm, Conn.Beginx, PhysTx and the counter methods state their
    effect on the fields directly.  Two scenarios at the end replay the
    tests' call sequences on the objects; a third shows what the shared
    counter does to a handle kept after its transaction finished. */
module TransactionManager {
  import opened TxSpec

  /** activeTx: the nesting depth, one object per DB shared by every Txm. */
  class ActiveTx {
    var count: u64

    constructor ()
      ensures count == 0
    {
      count := 0;
    }

    /** get: the current depth. */
    function Get(): (r: u64)
      reads this
      ensures r == count
    {
      count
    }

    /** has: some transaction scope is open. */
    predicate Has()
      reads this
      ensures Has() <==> count > 0
    {
      Get() > 0
    }

    /** atomic.AddUint64(&count, 1), which wraps around. */
    method Increment()
      modifies this
      ensures count as int == (old(count) as int + 1) % 0x1_0000_0000_0000_0000
    {
      if count == U64_MAX {
        count := 0;
      } else {
        count := count + 1;
      }
    }

    /** Subtracts one only when positive: decrementing 0 is a no-op. */
    method Decrement()
      modifies this
      ensures count == Dec(old(count))
      ensures old(count) > 0 ==> count as int == old(count) as int - 1
      ensures old(count) == 0 ==> count == 0
    {
      if Has() {
        count := count - 1;
      }
    }

    method Reset()
      modifies this
      ensures count == 0
    {
      count := 0;
    }
  }

  /** rollbacked: how many nested rollbacks the transaction has seen. */
  class Rollbacked {
    var count: u64

    constructor ()
      ensures count == 0
    {
      count := 0;
    }

    /** times: how many nested rollbacks so far. */
    function Times(): (r: u64)
      reads this
      ensures r == count
    {
      count
    }

    /** already: the transaction is poisoned. */
    predicate Already()
      reads this
      ensures Already() <==> count > 0
    {
      Times() > 0
    }

    method Increment()
      modifies this
      ensures count as int == (old(count) as int + 1) % 0x1_0000_0000_0000_0000
    {
      if count == U64_MAX {
        count := 0;
      } else {
        count := count + 1;
      }
    }

    method Reset()
      modifies this
      ensures count == 0
    {
      count := 0;
    }
  }

  /** The raw database handle.  Only its Beginx is modelled; `log` records
      every physical event that reaches the database through it. */
  class Conn {
    ghost var log: seq<Event>

    constructor ()
      ensures log == []
    {
      log := [];
    }

    /** Beginx, whose outcome is the driver's answer `began`. */
    method Beginx(began: Option<DriverError>) returns (tx: PhysTx?)
      modifies this
      ensures began.None? ==> tx != null && fresh(tx) && tx.conn == this && !tx.done
      ensures began.None? ==> log == old(log) + [Began]
      ensures began.Some? ==> tx == null && log == old(log)
    {
      if began.Some? {
        return null;
      }
      tx := new PhysTx(this);
      log := log + [Began];
    }
  }

  /** A physical transaction (database/sql's Tx): it can be finished once;
      finishing it again returns ErrTxDone without reaching the database. */
  class PhysTx {
    const conn: Conn
    var done: bool

    constructor (conn: Conn)
      ensures this.conn == conn && !done
    {
      this.conn := conn;
      done := false;
    }

    method Commit(answer: Option<DriverError>) returns (err: Option<DriverError>)
      modifies this, conn
      ensures old(done) ==> err == Some(TxDone) && done && conn.log == old(conn.log)
      ensures !old(done) ==> err == answer && done && conn.log == old(conn.log) + [Committed]
    {
      if done {
        return Some(TxDone);
      }
      done := true;
      conn.log := conn.log + [Committed];
      err := answer;
    }

    method Rollback(answer: Option<DriverError>) returns (err: Option<DriverError>)
      modifies this, conn
      ensures old(done) ==> err == Some(TxDone) && done && conn.log == old(conn.log)
      ensures !old(done) ==> err == answer && done && conn.log == old(conn.log) + [RolledBack]
    {
      if done {
        return Some(TxDone);
      }
      done := true;
      conn.log := conn.log + [RolledBack];
      err := answer;
    }
  }

  /** Txm: a handle on one physical transaction, with that transaction's
      poison counter and the DB's shared depth counter. */
  class Txm {
    const tx: PhysTx
    const rollbacked: Rollbacked
    const activeTx: ActiveTx

    constructor (tx: PhysTx, activeTx: ActiveTx)
      ensures this.tx == tx && this.activeTx == activeTx
      ensures fresh(rollbacked) && rollbacked.count == 0
    {
      this.tx := tx;
      this.activeTx := activeTx;
      rollbacked := new Rollbacked();
    }

    /** What this handle sees. */
    ghost function View(): Machine
      reads activeTx, rollbacked, tx, tx.conn
    {
      Machine(activeTx.count, rollbacked.count, tx.done, tx.conn.log)
    }

    method Commit(answer: Option<DriverError>) returns (err: Option<TxError>)
      modifies activeTx, tx, tx.conn
      ensures Step(View(), err) == TxSpec.Commit(old(View()), answer)
    {
      if rollbacked.Already() {
        return Some(NestedCommit);
      }
      activeTx.Decrement();
      if !activeTx.Has() {
        var e := tx.Commit(answer);
        return Surface(e);
      }
      return None;
    }

    method Rollback(answer: Option<DriverError>) returns (err: Option<TxError>)
      modifies activeTx, rollbacked, tx, tx.conn
      ensures Step(View(), err) == TxSpec.Rollback(old(View()), answer)
    {
      if !activeTx.Has() {
        return None;
      }
      activeTx.Decrement();
      if activeTx.Has() {
        rollbacked.Increment();
        return None;
      }
      var e := tx.Rollback(answer);
      return Surface(e);
    }

    method Reset()
      modifies rollbacked, activeTx
      ensures View() == TxSpec.Reset(old(View()))
    {
      rollbacked.Reset();
      activeTx.Reset();
    }

    /** `panic` is the value MustCommit panics with, after the deferred reset. */
    method MustCommit(answer: Option<DriverError>) returns (panic: Option<TxError>)
      modifies activeTx, rollbacked, tx, tx.conn
      ensures Step(View(), panic) == TxSpec.MustCommit(old(View()), answer)
    {
      var e := tx.Commit(answer);
      Reset();
      panic := Surface(e);
    }

    method MustRollback(answer: Option<DriverError>) returns (panic: Option<TxError>)
      modifies activeTx, rollbacked, tx, tx.conn
      ensures Step(View(), panic) == TxSpec.MustRollback(old(View()), answer)
    {
      var e := tx.Rollback(answer);
      Reset();
      panic := Surface(e);
    }
  }

  /** DB: the raw handle, the shared depth counter and the current Txm. */
  class DB {
    const conn: Conn
    const activeTx: ActiveTx
    var tx: Txm?

    /** The current Txm, once there is one, shares this DB's counter and
        connection; before the first begin the depth is 0. */
    ghost predicate Valid()
      reads this, activeTx
    {
      (tx == null ==> activeTx.count == 0) &&
      (tx != null ==> tx.activeTx == activeTx && tx.tx.conn == conn)
    }

    /** What the DB sees: its depth, and the current Txm's transaction. */
    ghost function View(): Machine
      reads this, activeTx, conn
      reads if tx == null then {} else {tx.rollbacked, tx.tx}
    {
      if tx == null then Machine(activeTx.count, 0, true, conn.log)
      else Machine(activeTx.count, tx.rollbacked.count, tx.tx.done, conn.log)
    }

    /** The state Open leaves: a depth counter at 0 and no Txm yet. */
    constructor Open(conn: Conn)
      ensures Valid() && this.conn == conn && tx == null && fresh(activeTx)
      ensures View() == Machine(0, 0, true, conn.log)
    {
      this.conn := conn;
      activeTx := new ActiveTx();
      tx := null;
    }

    method SetTx(ptx: PhysTx)
      modifies this
      ensures tx != null && fresh(tx) && fresh(tx.rollbacked)
      ensures tx.tx == ptx && tx.activeTx == activeTx && tx.rollbacked.count == 0
    {
      tx := new Txm(ptx, activeTx);
    }

    method GetTxm() returns (t: Txm?)
      modifies activeTx
      ensures t == tx
      ensures activeTx.count == Inc(old(activeTx.count))
    {
      activeTx.Increment();
      t := tx;
    }

    /** BeginTxm, where `began` is the driver's answer if it is asked. */
    method BeginTxm(began: Option<DriverError>) returns (t: Txm?, err: Option<TxError>)
      requires Valid()
      modifies this, activeTx, conn
      ensures Valid()
      ensures Step(View(), err) == TxSpec.Begin(old(View()), began)
      // a failed physical begin returns nil and keeps the old Txm
      ensures err.Some? && err.value.Driver? ==> t == null && tx == old(tx)
      // an outermost begin installs a new Txm with its own physical transaction
      ensures old(activeTx.count) == 0 && began.None? ==>
        t == tx && fresh(t) && fresh(t.tx) && fresh(t.rollbacked)
      // a nested begin returns the same shared Txm
      ensures old(activeTx.count) > 0 ==> t == tx == old(tx) && t != null
      ensures t != null ==> t == tx && t.View() == View()
    {
      if !activeTx.Has() {
        var ptx := conn.Beginx(began);
        if ptx == null {
          return null, Surface(began);
        }
        SetTx(ptx);
        t := GetTxm();
        return t, None;
      }
      t := GetTxm();
      err := Some(NestedBegin);
    }

    /** BeginTxmx: as BeginTxm; the context and options only reach the
        driver, whose answer is `began`. */
    method BeginTxmx(began: Option<DriverError>) returns (t: Txm?, err: Option<TxError>)
      requires Valid()
      modifies this, activeTx, conn
      ensures Valid()
      ensures Step(View(), err) == TxSpec.Begin(old(View()), began)
      ensures err.Some? && err.value.Driver? ==> t == null && tx == old(tx)
      ensures old(activeTx.count) == 0 && began.None? ==>
        t == tx && fresh(t) && fresh(t.tx) && fresh(t.rollbacked)
      ensures old(activeTx.count) > 0 ==> t == tx == old(tx) && t != null
      ensures t != null ==> t == tx && t.View() == View()
    {
      t, err := BeginTxm(began);
    }

    /** MustBeginTxm: BeginTxm, panicking with any error it returns, so a
        nested MustBeginTxm panics with NestedBeginTxErr. */
    method MustBeginTxm(began: Option<DriverError>) returns (t: Txm?, panic: Option<TxError>)
      requires Valid()
      modifies this, activeTx, conn
      ensures Valid()
      ensures Step(View(), panic) == TxSpec.Begin(old(View()), began)
      ensures panic.Some? <==> old(activeTx.count) > 0 || began.Some?
      ensures panic.None? ==> t == tx && t != null && fresh(t)
    {
      t, panic := BeginTxm(began);
    }
  }

  /** TestNestedCommit as written against the objects: one outer begin, k
      nested begins (each handing back the same Txm), then k+1 commits
      through the first handle.  Exactly one physical begin and one
      physical commit reach the database, the commit on the last call, and
      one commit more returns ErrTxDone. */
  method NestedCommitScenario(db: DB, k: nat, answer: Option<DriverError>)
      returns (last: Option<TxError>, extra: Option<TxError>)
    requires db.Valid() && db.activeTx.count == 0
    requires k < U64_MAX as int
    modifies db, db.activeTx, db.conn
    ensures db.conn.log == old(db.conn.log) + [Began, Committed]
    ensures db.activeTx.count == 0
    ensures last == Surface(answer) && extra == Some(Driver(TxDone))
  {
    var t, err := db.BeginTxm(None);
    ghost var log0 := db.conn.log;
    var i := 0;
    while i < k
      invariant 0 <= i <= k
      invariant db.Valid() && db.tx == t && t != null
      invariant fresh(t) && fresh(t.tx) && fresh(t.rollbacked)
      invariant t.View() == Machine((i + 1) as u64, 0, false, log0)
      invariant log0 == old(db.conn.log) + [Began]
    {
      var t2, e2 := db.BeginTxm(None);
      assert t2 == t && e2 == Some(NestedBegin);
      i := i + 1;
    }
    i := 0;
    while i < k
      invariant 0 <= i <= k
      invariant t.activeTx == db.activeTx && t.tx.conn == db.conn
      invariant fresh(t.tx)
      invariant t.View() == Machine((k + 1 - i) as u64, 0, false, log0)
    {
      var e := t.Commit(answer);
      assert e == None;
      i := i + 1;
    }
    last := t.Commit(answer);
    extra := t.Commit(answer);
  }

  /** TestAtomicCount run one call after another: one outer begin and
      times-1 nested begins leave the depth at times; times rollbacks bring
      it back to 0 with one physical rollback, on the last call. */
  method AtomicCountScenario(db: DB, times: nat)
      returns (depthAfterBegins: u64, last: Option<TxError>)
    requires db.Valid() && db.activeTx.count == 0
    requires 1 <= times <= U64_MAX as int
    modifies db, db.activeTx, db.conn
    ensures depthAfterBegins as int == times
    ensures db.conn.log == old(db.conn.log) + [Began, RolledBack]
    ensures db.activeTx.count == 0 && last == None
  {
    var t, err := db.BeginTxm(None);
    ghost var log0 := db.conn.log;
    var i := 1;
    while i < times
      invariant 1 <= i <= times
      invariant db.Valid() && db.tx == t && t != null
      invariant fresh(t) && fresh(t.tx) && fresh(t.rollbacked)
      invariant t.View() == Machine(i as u64, 0, false, log0)
      invariant log0 == old(db.conn.log) + [Began]
    {
      var t2, e2 := db.BeginTxm(None);
      assert t2 == t && e2 == Some(NestedBegin);
      i := i + 1;
    }
    depthAfterBegins := db.activeTx.count;
    i := 1;
    while i < times
      invariant 1 <= i <= times
      invariant t.activeTx == db.activeTx && t.tx.conn == db.conn
      invariant fresh(t.tx) && fresh(t.rollbacked)
      invariant t.View() == Machine((times - i + 1) as u64, (i - 1) as u64, false, log0)
    {
      var e := t.Rollback(None);
      assert e == None;
      i := i + 1;
    }
    last := t.Rollback(None);
  }

  /** Every Txm shares the DB's depth counter, including one whose
      transaction is already finished.  After t1's transaction commits and
      a new outermost begin hands out t2, an unpoisoned Commit through t1
      takes t2's depth back to 0 and gets ErrTxDone from t1's finished
      transaction.  t2's transaction stays open, and the next BeginTxm,
      seeing depth 0, starts a second physical transaction beside it. */
  method StaleHandleScenario(db: DB) returns (t1: Txm?, t2: Txm?, t3: Txm?, stale: Option<TxError>)
    requires db.Valid() && db.activeTx.count == 0
    modifies db, db.activeTx, db.conn
    ensures t1 != null && t2 != null && t1 != t2 && t1.activeTx == t2.activeTx
    ensures stale == Some(Driver(TxDone))
    ensures t3 != null && t3 != t2 && t3.tx != t2.tx && db.tx == t3
    ensures !t2.tx.done && !t3.tx.done && db.activeTx.count == 1
    ensures db.conn.log == old(db.conn.log) + [Began, Committed, Began, Began]
  {
    var e;
    t1, e := db.BeginTxm(None);
    e := t1.Commit(None);
    t2, e := db.BeginTxm(None);
    stale := t1.Commit(None);
    t3, e := db.BeginTxm(None);
  }
}
