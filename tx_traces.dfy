/** Sequences of calls on one DB and its current handle, and what they
    add up to: the invariant that keeps one physical transaction per
    outermost scope, the balanced begin/commit and begin/rollback runs of
    transaction_manager_test.go and transaction_manager_atomic_test.go,
    and the poison rule. */
module TxTraces {
  import opened TxSpec

  /** One call, with the driver's answer for it. */
  datatype Call =
    | BeginCall(began: Option<DriverError>)
    | CommitCall(answer: Option<DriverError>)
    | RollbackCall(answer: Option<DriverError>)
    | MustCommitCall(answer: Option<DriverError>)
    | MustRollbackCall(answer: Option<DriverError>)

  function Apply(m: Machine, c: Call): Step
  {
    match c
    case BeginCall(began) => Begin(m, began)
    case CommitCall(answer) => Commit(m, answer)
    case RollbackCall(answer) => Rollback(m, answer)
    case MustCommitCall(answer) => MustCommit(m, answer)
    case MustRollbackCall(answer) => MustRollback(m, answer)
  }

  /** The final state and the error each call returned, in order. */
  datatype Trace = Trace(m: Machine, errs: seq<Option<TxError>>)

  function Run(m: Machine, calls: seq<Call>): (t: Trace)
    ensures |t.errs| == |calls|
    decreases |calls|
  {
    if calls == [] then Trace(m, [])
    else
      var s := Apply(m, calls[0]);
      var rest := Run(s.m, calls[1..]);
      Trace(rest.m, [s.err] + rest.errs)
  }

  function Repeat<T>(x: T, k: nat): (r: seq<T>)
    ensures |r| == k
    ensures forall i | 0 <= i < k :: r[i] == x
  {
    if k == 0 then [] else [x] + Repeat(x, k - 1)
  }

  /** Running two call sequences one after the other. */
  lemma {:induction false} RunAppend(m: Machine, a: seq<Call>, b: seq<Call>)
    ensures Run(m, a + b) == Trace(Run(Run(m, a).m, b).m, Run(m, a).errs + Run(Run(m, a).m, b).errs)
    decreases |a|
  {
    if a == [] {
      assert a + b == b;
    } else {
      var s := Apply(m, a[0]);
      var ab := a + b;
      assert ab[0] == a[0];
      assert ab[1..] == a[1..] + b;
      RunAppend(s.m, a[1..], b);
      var ra := Run(s.m, a[1..]);
      var rb := Run(ra.m, b);
      assert Run(m, a) == Trace(ra.m, [s.err] + ra.errs);
      assert Run(m, ab) == Trace(rb.m, [s.err] + (ra.errs + rb.errs));
      assert [s.err] + (ra.errs + rb.errs) == ([s.err] + ra.errs) + rb.errs;
    }
  }

  // ---------------------------------------------------------------------
  // One physical transaction per outermost scope

  /** Physical begins and finishes alternate, starting with a begin. */
  ghost predicate Alternating(log: seq<Event>)
  {
    forall i | 0 <= i < |log| :: log[i].Began? <==> i % 2 == 0
  }

  /** A physical transaction is open exactly while the depth is positive,
      and exactly when the log ends with a begin. */
  ghost predicate Inv(m: Machine)
  {
    Alternating(m.log) && (m.done <==> m.depth == 0) && (m.done <==> |m.log| % 2 == 0)
  }

  lemma AppendKeepsAlternating(log: seq<Event>, ev: Event)
    requires Alternating(log)
    requires ev.Began? <==> |log| % 2 == 0
    ensures Alternating(log + [ev])
  {
    forall i | 0 <= i < |log + [ev]|
      ensures (log + [ev])[i].Began? <==> i % 2 == 0
    {
      if i < |log| { assert (log + [ev])[i] == log[i]; }
    }
  }

  /** Every call keeps the invariant, as long as a nested begin does not
      wrap the depth counter around; no call raises the depth by more than one. */
  lemma ApplyKeepsInv(m: Machine, c: Call)
    requires Inv(m)
    requires c.BeginCall? ==> m.depth < U64_MAX
    ensures Inv(Apply(m, c).m)
    ensures Apply(m, c).m.depth as int <= m.depth as int + 1
  {
    var s := Apply(m, c);
    if s.m.log != m.log {
      AppendKeepsAlternating(m.log, s.m.log[|m.log|]);
      assert s.m.log == m.log + [s.m.log[|m.log|]];
    }
  }

  /** Any run of calls from a state that satisfies the invariant keeps it. */
  lemma {:induction false} RunKeepsInv(m: Machine, calls: seq<Call>)
    requires Inv(m)
    requires m.depth as int + |calls| <= U64_MAX as int
    ensures Inv(Run(m, calls).m)
    decreases |calls|
  {
    if calls != [] {
      ApplyKeepsInv(m, calls[0]);
      RunKeepsInv(Apply(m, calls[0]).m, calls[1..]);
    }
  }

  /** So from a newly opened DB, every run alternates physical begins
      with exactly one physical commit or rollback each. */
  lemma RunFromInitial(calls: seq<Call>)
    requires |calls| <= U64_MAX as int
    ensures Alternating(Run(Initial, calls).m.log)
    ensures Run(Initial, calls).m.depth == 0 <==> |Run(Initial, calls).m.log| % 2 == 0
  {
    RunKeepsInv(Initial, calls);
  }

  // ---------------------------------------------------------------------
  // Balanced runs

  /** k nested begins on an open transaction add exactly k to the depth,
      each returning NestedBeginTxErr, without reaching the driver. */
  lemma {:induction false} NestedBeginsAddK(m: Machine, began: Option<DriverError>, k: nat)
    requires m.depth > 0 && m.depth as int + k <= U64_MAX as int
    ensures Run(m, Repeat(BeginCall(began), k))
         == Trace(m.(depth := (m.depth as int + k) as u64), Repeat(Some(NestedBegin), k))
    decreases k
  {
    if k > 0 {
      var m1 := m.(depth := m.depth + 1);
      assert Apply(m, BeginCall(began)) == Step(m1, Some(NestedBegin));
      assert Repeat(BeginCall(began), k)[1..] == Repeat(BeginCall(began), k - 1);
      NestedBeginsAddK(m1, began, k - 1);
    }
  }

  /** At depth k+1 and unpoisoned, k+1 commits perform one physical commit,
      on the last call, which returns the driver's answer; the others
      return nil. */
  lemma {:induction false} CommitsUnwind(m: Machine, answer: Option<DriverError>, k: nat)
    requires m.poison == 0 && m.depth as int == k + 1 && !m.done
    ensures Run(m, Repeat(CommitCall(answer), k + 1))
         == Trace(m.(depth := 0, done := true, log := m.log + [Committed]),
                  Repeat(None, k) + [Surface(answer)])
    decreases k
  {
    var calls := Repeat(CommitCall(answer), k + 1);
    assert calls[1..] == Repeat(CommitCall(answer), k);
    if k == 0 {
      assert calls[1..] == [];
    } else {
      var m1 := m.(depth := m.depth - 1);
      assert Apply(m, calls[0]) == Step(m1, None);
      CommitsUnwind(m1, answer, k - 1);
      assert [None] + (Repeat(None, k - 1) + [Surface(answer)]) == Repeat(None, k) + [Surface(answer)];
    }
  }

  /** At depth k+1, k+1 rollbacks perform one physical rollback, on the
      last call; the k before it each add one to the poison counter. */
  lemma {:induction false} RollbacksUnwind(m: Machine, answer: Option<DriverError>, k: nat)
    requires m.depth as int == k + 1 && !m.done
    requires m.poison as int + k <= U64_MAX as int
    ensures Run(m, Repeat(RollbackCall(answer), k + 1))
         == Trace(m.(depth := 0, poison := (m.poison as int + k) as u64, done := true,
                     log := m.log + [RolledBack]),
                  Repeat(None, k) + [Surface(answer)])
    decreases k
  {
    var calls := Repeat(RollbackCall(answer), k + 1);
    assert calls[1..] == Repeat(RollbackCall(answer), k);
    if k == 0 {
      assert calls[1..] == [];
    } else {
      var m1 := m.(depth := m.depth - 1, poison := m.poison + 1);
      assert Apply(m, calls[0]) == Step(m1, None);
      RollbacksUnwind(m1, answer, k - 1);
      assert [None] + (Repeat(None, k - 1) + [Surface(answer)]) == Repeat(None, k) + [Surface(answer)];
    }
  }

  /** One outer begin, k nested begins and k+1 commits: exactly one
      physical begin and one physical commit, the commit on the last call;
      one commit more returns the driver's ErrTxDone. */
  lemma NestedCommitRun(m: Machine, answer: Option<DriverError>, k: nat)
    requires m.depth == 0 && k < U64_MAX as int
    ensures var t := Run(m, [BeginCall(None)] + Repeat(BeginCall(None), k)
                            + Repeat(CommitCall(answer), k + 1) + [CommitCall(answer)]);
            t.m.log == m.log + [Began, Committed] && t.m.depth == 0 &&
            t.errs == [None] + Repeat(Some(NestedBegin), k) + Repeat(None, k)
                      + [Surface(answer), Some(Driver(TxDone))]
  {
    var begins := [BeginCall(None)] + Repeat(BeginCall(None), k);
    var commits := Repeat(CommitCall(answer), k + 1);
    var m1 := Begin(m, None).m;
    assert Run(m, [BeginCall(None)]) == Trace(m1, [None]);
    NestedBeginsAddK(m1, None, k);
    RunAppend(m, [BeginCall(None)], Repeat(BeginCall(None), k));
    var m2 := m1.(depth := (k + 1) as u64);
    assert Run(m, begins) == Trace(m2, [None] + Repeat(Some(NestedBegin), k));
    CommitsUnwind(m2, answer, k);
    RunAppend(m, begins, commits);
    var m3 := m2.(depth := 0, done := true, log := m2.log + [Committed]);
    assert Run(m3, [CommitCall(answer)]) == Trace(m3, [Some(Driver(TxDone))]);
    RunAppend(m, begins + commits, [CommitCall(answer)]);
  }

  /** One outer begin, times-1 nested begins and times rollbacks: exactly
      one physical begin and one physical rollback, on the last call; one
      rollback more is a no-op that returns nil. */
  lemma AtomicCountRun(m: Machine, answer: Option<DriverError>, times: nat)
    requires m.depth == 0 && 1 <= times <= U64_MAX as int
    ensures var t := Run(m, [BeginCall(None)] + Repeat(BeginCall(None), times - 1)
                            + Repeat(RollbackCall(answer), times) + [RollbackCall(answer)]);
            t.m.log == m.log + [Began, RolledBack] && t.m.depth == 0 &&
            t.errs == [None] + Repeat(Some(NestedBegin), times - 1) + Repeat(None, times - 1)
                      + [Surface(answer), None]
  {
    var k := times - 1;
    var begins := [BeginCall(None)] + Repeat(BeginCall(None), k);
    var rollbacks := Repeat(RollbackCall(answer), k + 1);
    var m1 := Begin(m, None).m;
    assert Run(m, [BeginCall(None)]) == Trace(m1, [None]);
    NestedBeginsAddK(m1, None, k);
    RunAppend(m, [BeginCall(None)], Repeat(BeginCall(None), k));
    var m2 := m1.(depth := (k + 1) as u64);
    assert Run(m, begins) == Trace(m2, [None] + Repeat(Some(NestedBegin), k));
    RollbacksUnwind(m2, answer, k);
    RunAppend(m, begins, rollbacks);
    var m3 := m2.(depth := 0, poison := k as u64, done := true, log := m2.log + [RolledBack]);
    assert Run(m3, [RollbackCall(answer)]) == Trace(m3, [None]);
    RunAppend(m, begins + rollbacks, [RollbackCall(answer)]);
  }

  // ---------------------------------------------------------------------
  // Poison

  /** Once a nested rollback has poisoned the transaction, every later
      commit through the handle fails with NestedCommitErr, and the only
      physical action that can still happen is one rollback, which has
      happened once an open transaction is back at depth 0. */
  lemma {:induction false} PoisonBlocksCommit(m: Machine, calls: seq<Call>)
    requires m.poison > 0
    requires forall i | 0 <= i < |calls| :: calls[i].CommitCall? || calls[i].RollbackCall?
    requires m.poison as int + |calls| <= U64_MAX as int
    ensures var t := Run(m, calls);
            t.m.poison > 0 &&
            (t.m.log == m.log || t.m.log == m.log + [RolledBack]) &&
            (m.done ==> t.m.log == m.log) &&
            (!m.done && m.depth > 0 && t.m.depth == 0 ==> t.m.log == m.log + [RolledBack]) &&
            forall i | 0 <= i < |calls| && calls[i].CommitCall? :: t.errs[i] == Some(NestedCommit)
    decreases |calls|
  {
    if calls != [] {
      var s := Apply(m, calls[0]);
      assert s.m.poison > 0 && s.m.poison as int <= m.poison as int + 1;
      PoisonBlocksCommit(s.m, calls[1..]);
      var rest := Run(s.m, calls[1..]);
      assert s.m.log != m.log ==> s.m.done && rest.m.log == s.m.log;
      forall i | 0 <= i < |calls| && calls[i].CommitCall?
        ensures Run(m, calls).errs[i] == Some(NestedCommit)
      {
        if i > 0 { assert calls[1..][i - 1] == calls[i]; }
      }
    }
  }

  /** The nested rollback that poisons: from depth d > 1 with no poison,
      a rollback leaves depth d-1 and poison 1, and the commit after it is
      refused without changing the depth. */
  lemma NestedRollbackPoisons(m: Machine, answer: Option<DriverError>)
    requires m.depth > 1 && m.poison == 0
    ensures var t := Run(m, [RollbackCall(answer), CommitCall(answer)]);
            t.errs == [None, Some(NestedCommit)] &&
            t.m == m.(depth := m.depth - 1, poison := 1)
  {
    var m1 := m.(depth := m.depth - 1, poison := 1);
    assert Apply(m, RollbackCall(answer)) == Step(m1, None);
    assert Run(m1, [CommitCall(answer)]) == Trace(m1, [Some(NestedCommit)]);
  }
}
