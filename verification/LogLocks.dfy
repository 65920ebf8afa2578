/**
  The two locks of the provisioning logs, as each operation takes and drops them.
 */
module LogLocks {
  import opened Text
  import opened SiteLocks
  import opened NestedLocks

  const LOGS := "logs"
  const OWNERS := "owners"

  datatype Operation = Register | Forget | Open | Emit | Retire | Sweep

  /** Guards are dropped in the reverse of the order in which they were bound. */
  function LocksOf(op: Operation): Program {
    match op
    case Register | Forget | Open => [Lock(LOGS), Lock(OWNERS), Work({LOGS, OWNERS}), Unlock(OWNERS), Unlock(LOGS)]
    case Emit | Retire => Single(LOGS)
    case Sweep => Nested(LOGS, OWNERS)   // the log map is pruned before the owners' lock is taken
  }

  /** What each operation locks and then works on: both maps, the logs alone, or the logs and then both. */
  lemma OperationsWritten()
    ensures forall op :: op in {Register, Forget, Open} ==>
              LocksOf(op) == [Lock("logs"), Lock("owners"), Work({"logs", "owners"}), Unlock("owners"), Unlock("logs")]
    ensures forall op :: op in {Emit, Retire} ==> LocksOf(op) == [Lock("logs"), Work({"logs"}), Unlock("logs")]
    ensures LocksOf(Sweep) == [Lock("logs"), Work({"logs"}), Lock("owners"), Work({"owners"}),
                               Unlock("owners"), Unlock("logs")]
  {
    hide Single, Nested;
    SingleIs("logs");
    NestedIs("logs", "owners");
  }

  function LocksOfAll(ops: seq<Operation>): Program {
    if ops == [] then [] else LocksOf(ops[0]) + LocksOfAll(ops[1..])
  }

  predicate LogsThenOwners(a: string, b: string) {
    a == LOGS && b == OWNERS
  }

  lemma LogsThenOwnersIsStrict()
    ensures Strict(LogsThenOwners)
  {
    assert LOGS[0] != OWNERS[0];
  }

  lemma BothAscend()
    ensures var ops := [Lock(LOGS), Lock(OWNERS), Work({LOGS, OWNERS}), Unlock(OWNERS), Unlock(LOGS)];
            Ascends(ops, {}, LogsThenOwners) && Scoped(ops, multiset{})
  {
    var a, b := multiset{LOGS}, multiset{OWNERS};
    var unlocks := [Unlock(OWNERS)] + [Unlock(LOGS)];
    var worked := [Work({LOGS, OWNERS})] + unlocks;
    AscendsUnlocks([OWNERS, LOGS], {} + {LOGS} + {OWNERS}, LogsThenOwners);
    AscendsCons(Work({LOGS, OWNERS}), unlocks, {} + {LOGS} + {OWNERS}, LogsThenOwners);
    AscendsCons(Lock(OWNERS), worked, {} + {LOGS}, LogsThenOwners);
    AscendsCons(Lock(LOGS), [Lock(OWNERS)] + worked, {}, LogsThenOwners);
    assert a + b - b == a && a - a == multiset{} && multiset{} + a == a && AllHeld({LOGS, OWNERS}, a + b)
        && OWNERS in a + b;
    ScopedCons(Unlock(LOGS), [], a);
    assert [Unlock(LOGS)] + [] == [Unlock(LOGS)];
    ScopedCons(Unlock(OWNERS), [Unlock(LOGS)], a + b);
    ScopedCons(Work({LOGS, OWNERS}), unlocks, a + b);
    ScopedCons(Lock(OWNERS), worked, a);
    ScopedCons(Lock(LOGS), [Lock(OWNERS)] + worked, multiset{});
    assert [Lock(LOGS), Lock(OWNERS), Work({LOGS, OWNERS}), Unlock(OWNERS), Unlock(LOGS)]
        == [Lock(LOGS)] + ([Lock(OWNERS)] + worked);
  }

  /** Each operation takes the owners' lock, if at all, while holding the logs' lock. */
  lemma OperationAscends(op: Operation)
    ensures Ascends(LocksOf(op), {}, LogsThenOwners) && Scoped(LocksOf(op), multiset{})
  {
    hide Single, Nested, Ascends, Scoped;
    match op
    case Register | Forget | Open => BothAscend();
    case Emit | Retire => SingleAscends(LOGS, LogsThenOwners);
    case Sweep =>
      NestedAscends(LOGS, OWNERS, LogsThenOwners);
      NestedIsScoped(LOGS, OWNERS);
  }

  lemma {:induction false} OperationsAscend(ops: seq<Operation>)
    ensures Ascends(LocksOfAll(ops), {}, LogsThenOwners) && Scoped(LocksOfAll(ops), multiset{})
  {
    hide LocksOf, Strict;
    if ops != [] {
      var none: set<string> := {};
      assert multiset(none) == multiset{};
      LogsThenOwnersIsStrict();
      OperationAscends(ops[0]);
      OperationsAscend(ops[1..]);
      ScopedAppend(LocksOf(ops[0]), LocksOfAll(ops[1..]), multiset{});
      AscendsAppend(LocksOf(ops[0]), LocksOfAll(ops[1..]), {}, LogsThenOwners);
    }
  }

  /** Tasks about to make the given operations, with neither lock taken. */
  ghost predicate AboutTo(s: State, ops: seq<seq<Operation>>) {
    && s.registry == map[] && s.owner == map[] && |s.tasks| == |ops|
    && forall t :: 0 <= t < |ops| ==> s.tasks[t] == Task(LocksOfAll(ops[t]), map[], None)
  }

  lemma AboutToIsInitial(s: State, ops: seq<seq<Operation>>)
    requires AboutTo(s, ops)
    ensures Initial(s)
  {
    forall t | 0 <= t < |s.tasks| ensures Scoped(s.tasks[t].ops, multiset{}) {
      OperationsAscend(ops[t]);
    }
  }

  /**
    Any number of tasks, each making any of the operations one after another, interleaved anyhow: while one
    is unfinished some step is enabled, and a run that cannot go on has finished them all.
   */
  lemma LockOrderNeverDeadlocks(s0: State, ops: seq<seq<Operation>>, run: seq<Action>, s: State)
    requires AboutTo(s0, ops) && Run(s0, run, s)
    ensures SomeBusy(s) ==> CanStep(s)
    ensures |run| <= TotalRemaining(s0.tasks)
    ensures (forall a :: !Enabled(s, a)) ==> s.owner == map[] && forall t :: 0 <= t < |s.tasks| ==> !s.tasks[t].Busy()
  {
    hide Ascends, Strict, Enabled, LocksOfAll;
    forall t | 0 <= t < |s0.tasks| ensures Ascends(s0.tasks[t].ops, s0.tasks[t].guards.Keys, LogsThenOwners) {
      OperationsAscend(ops[t]);
      assert s0.tasks[t].guards.Keys == {};
    }
    LogsThenOwnersIsStrict();
    AboutToIsInitial(s0, ops);
    ReachedInv(s0, run, s);
    InitialInv(s0);
    RunAscends(s0, run, s, LogsThenOwners);
    RunsEnd(s0, run, s);
    if t :| 0 <= t < |s.tasks| && s.tasks[t].Busy() {
      var a := SomeStepEnabled(s, t, LogsThenOwners);
    }
    if forall a :: !Enabled(s, a) {
      MaximalRunsFinish(s0, run, s, LogsThenOwners);
    }
  }

  /** The order matters: one task that takes the owners' lock first can come to a standstill with a sweep. */
  lemma OwnersFirstDeadlocks() returns (s0: State, run: seq<Action>, s: State)
    ensures Initial(s0) && |s0.tasks| == 2
    ensures s0.tasks[0].ops == LocksOf(Sweep) && s0.tasks[1].ops == Nested(OWNERS, LOGS)
    ensures Run(s0, run, s) && Deadlocked(s)
  {
    hide Initial, Run, Deadlocked, Nested;
    assert LOGS[0] != OWNERS[0];
    s0, run, s := OppositeOrdersDeadlock(LOGS, OWNERS);
  }
}
