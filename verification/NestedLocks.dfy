/**
  Locks taken while others are held: which programs can come to a standstill, and which of the agent's do.
 */
module NestedLocks {
  import opened Text
  import opened SiteLocks

  // ------------------------------------------------------------------ calls nested

  function Single(key: string): Program {
    Guarded(One(key), [])
  }

  /** One lock taken, and dropped, while another is held. */
  function Nested(outer: string, inner: string): Program {
    Guarded(One(outer), Single(inner))
  }

  lemma OneLock(key: string)
    ensures Locks([key]) == [Lock(key)] && Unlocks([key]) == [Unlock(key)]
  {
    assert [key][1..] == [];
  }

  lemma SingleIs(key: string)
    ensures Single(key) == [Lock(key), Work({key}), Unlock(key)]
  {
    ElementsOfOne(key);
    OneLock(key);
  }

  lemma ElementsOfOne(key: string)
    ensures Elements([key]) == {key}
  {
  }

  lemma NestedIs(outer: string, inner: string)
    ensures Nested(outer, inner) ==
            [Lock(outer), Work({outer}), Lock(inner), Work({inner}), Unlock(inner), Unlock(outer)]
  {
    SingleIs(inner);
    ElementsOfOne(outer);
    OneLock(outer);
  }

  // ------------------------------------------------------------- a ring of tasks

  ghost predicate Reaches(s: State, s': State)
    requires Registered(s.registry, s.next)
  {
    exists run :: Run(s, run, s')
  }

  lemma {:induction false} RunThen(s: State, run: seq<Action>, s': State, a: Action)
    requires Inv(s) && Run(s, run, s') && Registered(s'.registry, s'.next) && Enabled(s', a)
    ensures Run(s, run + [a], Apply(s', a))
    decreases |run|
  {
    if run == [] {
      assert ([] + [a])[1..] == [];
      assert Run(Apply(s, a), [], Apply(s', a));
    } else {
      StepInv(s, run[0]);
      RunThen(Apply(s, run[0]), run[1..], s', a);
      assert (run + [a])[1..] == run[1..] + [a];
    }
  }

  lemma ReachesThen(s: State, s': State, a: Action)
    requires Inv(s) && Reaches(s, s') && Registered(s'.registry, s'.next) && Enabled(s', a)
    ensures Reaches(s, Apply(s', a))
  {
    var run :| Run(s, run, s');
    RunThen(s, run, s', a);
  }

  predicate Distinct(keys: seq<string>) {
    forall i, j :: 0 <= i < j < |keys| ==> keys[i] != keys[j]
  }

  function After(i: nat, n: nat): (j: nat)
    requires i < n
    ensures j < n
  {
    if i + 1 == n then 0 else i + 1
  }

  /** The mutexes of the first `i` keys, in the order in which the tasks asked for them. */
  function RingRegistry(keys: seq<string>, i: nat): (r: map<string, Mutex>)
    requires i <= |keys| && Distinct(keys)
    ensures forall k :: k in r <==> exists j :: 0 <= j < i && keys[j] == k
    ensures forall j :: 0 <= j < i ==> keys[j] in r && r[keys[j]] == j
  {
    if i == 0 then map[] else RingRegistry(keys, i - 1)[keys[i - 1] := i - 1]
  }

  function RingOwners(i: nat): (r: map<Mutex, nat>)
    ensures forall m: Mutex :: m < i ==> m in r
    ensures forall m: Mutex :: m in r ==> m < i && r[m] == m
  {
    if i == 0 then map[] else RingOwners(i - 1)[i - 1 := i - 1]
  }

  /** Task `j` of the ring: at its start, holding its first key, or also waiting for the next task's. */
  function RingTask(keys: seq<string>, j: nat, stage: nat): Task
    requires j < |keys|
  {
    var a, b := keys[j], keys[After(j, |keys|)];
    if stage == 0 then Task(Nested(a, b), map[], None)
    else
      var waiting := if stage == 1 then None else Some(After(j, |keys|));
      Task([Lock(b), Work({b}), Unlock(b), Unlock(a)], map[a := j], waiting)
  }

  /** The first `i` tasks are one stage ahead of the others. */
  function RingTasks(keys: seq<string>, i: nat, stage: nat): (ts: seq<Task>)
    ensures |ts| == |keys|
    ensures forall j :: 0 <= j < |ts| ==> ts[j] == RingTask(keys, j, if j < i then stage + 1 else stage)
  {
    seq(|keys|, j requires 0 <= j < |keys| => RingTask(keys, j, if j < i then stage + 1 else stage))
  }

  function Locking(keys: seq<string>, i: nat): State
    requires i <= |keys| && Distinct(keys)
  {
    State(RingRegistry(keys, i), i, RingOwners(i), RingTasks(keys, i, 0))
  }

  function Blocking(keys: seq<string>, i: nat): State
    requires Distinct(keys)
  {
    State(RingRegistry(keys, |keys|), |keys| + i, RingOwners(|keys|), RingTasks(keys, i, 1))
  }

  lemma RingStart(keys: seq<string>)
    requires Distinct(keys)
    ensures Initial(Locking(keys, 0)) && Inv(Locking(keys, 0))
  {
    var s := Locking(keys, 0);
    forall t | 0 <= t < |s.tasks| ensures Scoped(s.tasks[t].ops, multiset{}) {
      NestedIsScoped(keys[t], keys[After(t, |keys|)]);
    }
    InitialInv(s);
  }

  lemma ScopedCons(op: Op, ops: Program, held: multiset<string>)
    ensures op.Lock? ==> (Scoped([op] + ops, held) <==> Scoped(ops, held + multiset{op.key}))
    ensures op.Work? ==> (Scoped([op] + ops, held) <==> AllHeld(op.needs, held) && Scoped(ops, held))
    ensures op.Unlock? ==> (Scoped([op] + ops, held) <==> op.key in held && Scoped(ops, held - multiset{op.key}))
  {
    assert ([op] + ops)[1..] == ops;
  }

  lemma TwoHeld(outer: string, inner: string)
    ensures var o, i := multiset{outer}, multiset{inner};
            && o - o == multiset{} && o + i - i == o && multiset{} + o == o
            && AllHeld({inner}, o + i) && AllHeld({outer}, o) && inner in o + i
  {
    assert inner in multiset{outer} + multiset{inner};
  }

  lemma NothingScoped()
    ensures Scoped([], multiset{})
  {
  }

  lemma NestedIsScoped(outer: string, inner: string)
    ensures Scoped(Nested(outer, inner), multiset{})
  {
    NestedIs(outer, inner);
    var o, i := multiset{outer}, multiset{inner};
    TwoHeld(outer, inner);
    var unlocks := [Unlock(inner)] + [Unlock(outer)];
    var locked := [Lock(inner)] + ([Work({inner})] + unlocks);
    hide Scoped, AllHeld, Nested;
    ScopedCons(Unlock(outer), [], o);
    assert Scoped([], multiset{}) by { NothingScoped(); }
    assert [Unlock(outer)] + [] == [Unlock(outer)];
    ScopedCons(Unlock(inner), [Unlock(outer)], o + i);
    ScopedCons(Work({inner}), unlocks, o + i);
    ScopedCons(Lock(inner), [Work({inner})] + unlocks, o);
    ScopedCons(Work({outer}), locked, o);
    ScopedCons(Lock(outer), [Work({outer})] + locked, multiset{});
    assert Nested(outer, inner) == [Lock(outer)] + ([Work({outer})] + locked);
  }

  lemma RingRegistered(keys: seq<string>, i: nat, next: Mutex)
    requires i <= |keys| && Distinct(keys) && i <= next
    ensures Registered(RingRegistry(keys, i), next)
  {
  }

  /** The next task of the ring takes its first key. */
  lemma RingLocks(keys: seq<string>, i: nat)
    requires i < |keys| && Distinct(keys) && Reaches(Locking(keys, 0), Locking(keys, i)) && Inv(Locking(keys, 0))
    ensures Reaches(Locking(keys, 0), Locking(keys, i + 1))
  {
    hide Reaches, Inv, Scoped, RingRegistry, RingOwners, Guarded;
    var s0, s := Locking(keys, 0), Locking(keys, i);
    var a, b := keys[i], keys[After(i, |keys|)];
    NestedIs(a, b);
    RingRegistered(keys, i, i);
    ReachesThen(s0, s, Enter(i));
    var entered := Apply(s, Enter(i));
    assert a !in RingRegistry(keys, i);
    ReachesThen(s0, entered, Grant(i));
    var granted := Apply(entered, Grant(i));
    ReachesThen(s0, granted, Proceed(i));
    var after := Apply(granted, Proceed(i));
    assert after.registry == RingRegistry(keys, i + 1) by { RingGrows(keys, i); }
    assert after.owner == RingOwners(i + 1) by { RingOwnersGrow(i); }
    assert after.tasks == RingTasks(keys, i + 1, 0);
    assert after == Locking(keys, i + 1);
  }

  lemma RingGrows(keys: seq<string>, i: nat)
    requires i < |keys| && Distinct(keys)
    ensures RingRegistry(keys, i + 1) == RingRegistry(keys, i)[keys[i] := i]
  {
  }

  lemma RingOwnersGrow(i: nat)
    ensures RingOwners(i + 1) == RingOwners(i)[i := i]
  {
  }

  lemma {:induction false} RingReachesLocked(keys: seq<string>, i: nat)
    requires i <= |keys| && Distinct(keys) && Inv(Locking(keys, 0))
    ensures Reaches(Locking(keys, 0), Locking(keys, i))
  {
    hide Locking;
    if i == 0 {
      assert Run(Locking(keys, 0), [], Locking(keys, 0));
    } else {
      RingReachesLocked(keys, i - 1);
      RingLocks(keys, i - 1);
    }
  }

  /** The next task of the ring asks for the key after its own, which is taken. */
  lemma RingBlocks(keys: seq<string>, i: nat)
    requires i < |keys| && Distinct(keys) && Reaches(Locking(keys, 0), Blocking(keys, i)) && Inv(Locking(keys, 0))
    ensures Reaches(Locking(keys, 0), Blocking(keys, i + 1))
  {
    hide Reaches, Inv, Scoped, RingRegistry, RingOwners, Guarded;
    var s := Blocking(keys, i);
    var n := |keys|;
    RingRegistered(keys, n, n + i);
    assert keys[After(i, n)] in s.registry && s.registry[keys[After(i, n)]] == After(i, n);
    ReachesThen(Locking(keys, 0), s, Enter(i));
    var entered := Apply(s, Enter(i));
    assert entered.tasks == RingTasks(keys, i + 1, 1);
    assert entered == Blocking(keys, i + 1);
  }

  lemma {:induction false} RingReachesBlocked(keys: seq<string>, i: nat)
    requires i <= |keys| && Distinct(keys) && Inv(Locking(keys, 0))
    ensures Reaches(Locking(keys, 0), Blocking(keys, i))
  {
    hide Inv, Reaches;
    if i == 0 {
      RingReachesLocked(keys, |keys|);
      assert RingTasks(keys, |keys|, 0) == RingTasks(keys, 0, 1);
    } else {
      RingReachesBlocked(keys, i - 1);
      RingBlocks(keys, i - 1);
    }
  }

  lemma RingIsStuck(keys: seq<string>, a: Action)
    requires Distinct(keys)
    ensures !Enabled(Blocking(keys, |keys|), a)
  {
    hide RingRegistry, RingOwners, Guarded;
    var s, n := Blocking(keys, |keys|), |keys|;
    if a.t < n {
      assert s.tasks[a.t] == RingTask(keys, a.t, 2);
      assert After(a.t, n) in s.owner;
    }
  }

  /**
    One task per key, each holding its key while it asks for the next one's: some run ends with every task
    unfinished and no step possible. With one key this is a call nested in a call for the same key, with two
    it is a-then-b against b-then-a.
   */
  lemma RingDeadlocks(keys: seq<string>) returns (run: seq<Action>)
    requires keys != [] && Distinct(keys)
    ensures Initial(Locking(keys, 0)) && Run(Locking(keys, 0), run, Blocking(keys, |keys|))
    ensures RingTasksOf(Locking(keys, 0), keys) && Deadlocked(Blocking(keys, |keys|))
  {
    hide Inv, Run, RingTask, Initial;
    RingStart(keys);
    RingReachesBlocked(keys, |keys|);
    run :| Run(Locking(keys, 0), run, Blocking(keys, |keys|));
    forall t | 0 <= t < |keys|
      ensures RingTask(keys, t, 0).ops == Nested(keys[t], keys[After(t, |keys|)]) && RingTask(keys, t, 2).Busy()
    {
      RingTaskShape(keys, t);
    }
    forall a ensures !Enabled(Blocking(keys, |keys|), a) {
      RingIsStuck(keys, a);
    }
  }

  /** One task per key, nesting the next one's. */
  predicate RingTasksOf(s: State, keys: seq<string>) {
    |s.tasks| == |keys| && forall t :: 0 <= t < |keys| ==> s.tasks[t].ops == Nested(keys[t], keys[After(t, |keys|)])
  }

  /** Work is left for every task, and for none a step. */
  ghost predicate Deadlocked(s: State) {
    && s.tasks != [] && (forall t :: 0 <= t < |s.tasks| ==> s.tasks[t].Busy())
    && forall a :: !Enabled(s, a)
  }

  lemma RingTaskShape(keys: seq<string>, t: nat)
    requires t < |keys|
    ensures RingTask(keys, t, 0).ops == Nested(keys[t], keys[After(t, |keys|)]) && RingTask(keys, t, 2).Busy()
  {
  }

  /** One task nesting `b` in `a` and one nesting `a` in `b` can come to wait for each other. */
  lemma OppositeOrdersDeadlock(a: string, b: string) returns (s0: State, run: seq<Action>, s: State)
    requires a != b
    ensures Initial(s0) && |s0.tasks| == 2 && s0.tasks[0].ops == Nested(a, b) && s0.tasks[1].ops == Nested(b, a)
    ensures Run(s0, run, s) && Deadlocked(s) && Holds(s, 0, a) && Holds(s, 1, b)
  {
    hide Run, Initial, Deadlocked, Nested;
    run := RingDeadlocks([a, b]);
    s0, s := Locking([a, b], 0), Blocking([a, b], 2);
  }

  /** A task that nests a key in itself comes to wait for its own lock, alone. */
  lemma SameKeyDeadlocks(key: string) returns (s0: State, run: seq<Action>, s: State)
    ensures Initial(s0) && |s0.tasks| == 1 && s0.tasks[0].ops == Nested(key, key)
    ensures Run(s0, run, s) && Deadlocked(s) && Holds(s, 0, key)
    ensures s.tasks[0].waiting == Some(s.tasks[0].guards[key])
  {
    hide Run, Initial, Deadlocked, Nested;
    run := RingDeadlocks([key]);
    s0, s := Locking([key], 0), Blocking([key], 1);
  }

  // ------------------------------------------------ when nested pairs can deadlock

  /** A closed chain of nested pairs. */
  ghost predicate Ring(pairs: set<(string, string)>, ring: seq<string>) {
    ring != [] && forall i :: 0 <= i < |ring| ==> (ring[i], ring[After(i, |ring|)]) in pairs
  }

  ghost predicate Chain(pairs: set<(string, string)>, path: seq<string>) {
    |path| >= 2 && forall i :: 0 <= i < |path| - 1 ==> (path[i], path[i + 1]) in pairs
  }

  ghost predicate Leads(pairs: set<(string, string)>, a: string, b: string) {
    exists path :: Chain(pairs, path) && path[0] == a && path[|path| - 1] == b
  }

  lemma LeadsTransitive(pairs: set<(string, string)>, a: string, b: string, c: string)
    requires Leads(pairs, a, b) && Leads(pairs, b, c)
    ensures Leads(pairs, a, c)
  {
    var p :| Chain(pairs, p) && p[0] == a && p[|p| - 1] == b;
    var q :| Chain(pairs, q) && q[0] == b && q[|q| - 1] == c;
    var path := p + q[1..];
    forall i | 0 <= i < |path| - 1 ensures (path[i], path[i + 1]) in pairs {
      if i < |p| - 1 {
        assert (p[i], p[i + 1]) in pairs;
      } else {
        assert (q[i - |p| + 1], q[i - |p| + 2]) in pairs;
      }
    }
    assert Chain(pairs, path);
  }

  lemma LoopIsRing(pairs: set<(string, string)>, a: string) returns (ring: seq<string>)
    requires Leads(pairs, a, a)
    ensures Ring(pairs, ring)
  {
    var p :| Chain(pairs, p) && p[0] == a && p[|p| - 1] == a;
    ring := p[..|p| - 1];
    forall i | 0 <= i < |ring| ensures (ring[i], ring[After(i, |ring|)]) in pairs {
      assert (p[i], p[i + 1]) in pairs;
    }
  }

  /** Every ring has a part that is a ring and visits no key twice. */
  lemma {:induction false} SimpleRing(pairs: set<(string, string)>, ring: seq<string>) returns (simple: seq<string>)
    requires Ring(pairs, ring)
    ensures Ring(pairs, simple) && Distinct(simple)
    decreases |ring|
  {
    if i, j :| 0 <= i < j < |ring| && ring[i] == ring[j] {
      var part := ring[i..j];
      forall k | 0 <= k < |part| ensures (part[k], part[After(k, |part|)]) in pairs {
        assert (ring[i + k], ring[After(i + k, |ring|)]) in pairs;
      }
      simple := SimpleRing(pairs, part);
    } else {
      simple := ring;
    }
  }

  /** Tasks that each nest one of the given pairs. */
  ghost predicate NestPairs(s: State, pairs: set<(string, string)>) {
    forall t :: 0 <= t < |s.tasks| ==> exists p :: p in pairs && s.tasks[t].ops == Nested(p.0, p.1)
  }

  ghost predicate SomeBusy(s: State) {
    exists t :: 0 <= t < |s.tasks| && s.tasks[t].Busy()
  }

  ghost predicate CanStep(s: State) {
    exists a :: Enabled(s, a)
  }

  lemma NestedAscends(outer: string, inner: string, below: KeyOrder)
    requires below(outer, inner)
    ensures Ascends(Nested(outer, inner), {}, below)
  {
    NestedIs(outer, inner);
    var unlocks := [Unlock(inner)] + [Unlock(outer)];
    var locked := [Lock(inner)] + ([Work({inner})] + unlocks);
    AscendsUnlocks([inner, outer], {} + {outer} + {inner}, below);
    AscendsCons(Work({inner}), unlocks, {} + {outer} + {inner}, below);
    AscendsCons(Lock(inner), [Work({inner})] + unlocks, {} + {outer}, below);
    AscendsCons(Work({outer}), locked, {} + {outer}, below);
    AscendsCons(Lock(outer), [Work({outer})] + locked, {}, below);
    assert Nested(outer, inner) == [Lock(outer)] + ([Work({outer})] + locked);
  }

  lemma AscendsCons(op: Op, ops: Program, held: set<string>, below: KeyOrder)
    ensures op.Lock? ==> (Ascends([op] + ops, held, below) <==>
                            (forall h :: h in held ==> below(h, op.key)) && Ascends(ops, held + {op.key}, below))
    ensures op.Work? ==> (Ascends([op] + ops, held, below) <==> Ascends(ops, held, below))
    ensures op.Unlock? ==> (Ascends([op] + ops, held, below) <==> Ascends(ops, held - {op.key}, below))
  {
    assert ([op] + ops)[1..] == ops;
  }

  lemma AscendsUnlocks(keys: seq<string>, held: set<string>, below: KeyOrder)
    ensures |keys| == 2 ==> Ascends([Unlock(keys[0])] + [Unlock(keys[1])], held, below)
  {
    if |keys| == 2 {
      AscendsCons(Unlock(keys[0]), [Unlock(keys[1])], held, below);
      AscendsCons(Unlock(keys[1]), [], held - {keys[0]}, below);
      assert [Unlock(keys[1])] + [] == [Unlock(keys[1])];
    }
  }

  /**
    Exactly when can tasks that nest one lock in another deadlock? No interleaving of any number of tasks
    drawn from the pairs does so if and only if the pairs form no ring.
   */
  lemma PairsNeverDeadlockIff(pairs: set<(string, string)>)
    ensures (forall ring :: !Ring(pairs, ring)) <==>
            forall s0, run, s :: Initial(s0) && NestPairs(s0, pairs) && Run(s0, run, s) && SomeBusy(s) ==> CanStep(s)
  {
    hide Ring, Run, NestPairs, SomeBusy, CanStep;
    if forall ring :: !Ring(pairs, ring) {
      forall s0, run, s | Initial(s0) && NestPairs(s0, pairs) && Run(s0, run, s) && SomeBusy(s) ensures CanStep(s) {
        NoRingNoDeadlock(pairs, s0, run, s);
      }
    }
    if ring :| Ring(pairs, ring) {
      var s0, run, s := RingOfPairsDeadlocks(pairs, ring);
    }
  }

  lemma RingOfPairsDeadlocks(pairs: set<(string, string)>, ring: seq<string>)
    returns (s0: State, run: seq<Action>, s: State)
    requires Ring(pairs, ring)
    ensures Initial(s0) && NestPairs(s0, pairs) && Run(s0, run, s) && SomeBusy(s) && !CanStep(s)
  {
    hide Nested, Run, Initial;
    var keys := SimpleRing(pairs, ring);
    run := RingDeadlocks(keys);
    s0, s := Locking(keys, 0), Blocking(keys, |keys|);
    forall t | 0 <= t < |s0.tasks| ensures exists p :: p in pairs && s0.tasks[t].ops == Nested(p.0, p.1) {
      var p := (keys[t], keys[After(t, |keys|)]);
      assert p in pairs && s0.tasks[t].ops == Nested(p.0, p.1);
    }
    assert s.tasks[0].Busy();
  }

  lemma NoRingNoDeadlock(pairs: set<(string, string)>, s0: State, run: seq<Action>, s: State)
    requires forall ring :: !Ring(pairs, ring)
    requires Initial(s0) && NestPairs(s0, pairs) && Run(s0, run, s) && SomeBusy(s)
    ensures CanStep(s)
  {
    hide Nested;
    var below: KeyOrder := (a, b) => Leads(pairs, a, b);
    forall a ensures !below(a, a) {
      if Leads(pairs, a, a) {
        var ring := LoopIsRing(pairs, a);
      }
    }
    forall a, b, c | below(a, b) && below(b, c) ensures below(a, c) {
      LeadsTransitive(pairs, a, b, c);
    }
    forall t | 0 <= t < |s0.tasks| ensures Ascends(s0.tasks[t].ops, s0.tasks[t].guards.Keys, below) {
      var p :| p in pairs && s0.tasks[t].ops == Nested(p.0, p.1);
      assert Chain(pairs, [p.0, p.1]);
      NestedAscends(p.0, p.1, below);
      assert s0.tasks[t].guards.Keys == {};
    }
    InitialInv(s0);
    RunInv(s0, run, s);
    RunAscends(s0, run, s, below);
    var t :| 0 <= t < |s.tasks| && s.tasks[t].Busy();
    var a := SomeStepEnabled(s, t, below);
  }

  // ---------------------------------------------------------- the agent's own calls

  const DEPLOY := "git-deploy:"

  /** The operations that take site locks, by what they lock and what they call while holding it. */
  datatype AgentCall =
    | Site(request: Request)                               // one or two domains, nothing nested
    | Volume(name: string)
    | CleanUp(name: string)
    | Deploy(name: string, domain: string, autoTls: bool)  // enables TLS for the domain inside
    | Expose(domain: string, autoTls: bool)                // the same, holding that domain

  function ProgramOf(c: AgentCall): Program {
    match c
    case Site(r) => Guarded(r, [])
    case Volume(name) => Single("volume:" + name)
    case CleanUp(name) => Single(DEPLOY + name)
    case Deploy(name, domain, autoTls) => if autoTls then Nested(DEPLOY + name, domain) else Single(DEPLOY + name)
    case Expose(domain, autoTls) => if autoTls then Nested(domain, domain) else Single(domain)
  }

  /** What each operation does, lock by lock. */
  lemma CallsWritten(name: string, domain: string, other: string)
    ensures ProgramOf(Volume(name)) == [Lock("volume:" + name), Work({"volume:" + name}), Unlock("volume:" + name)]
    ensures ProgramOf(CleanUp(name)) == ProgramOf(Deploy(name, domain, false))
    ensures var key := "git-deploy:" + name;
            && ProgramOf(CleanUp(name)) == [Lock(key), Work({key}), Unlock(key)]
            && ProgramOf(Deploy(name, domain, true)) ==
               [Lock(key), Work({key}), Lock(domain), Work({domain}), Unlock(domain), Unlock(key)]
    ensures ProgramOf(Expose(domain, false)) == [Lock(domain), Work({domain}), Unlock(domain)]
    ensures ProgramOf(Expose(domain, false)) == ProgramOf(Site(One(domain)))
    ensures ProgramOf(Expose(domain, true)) ==
            [Lock(domain), Work({domain}), Lock(domain), Work({domain}), Unlock(domain), Unlock(domain)]
    ensures Less(domain, other) ==>
              && ProgramOf(Site(Two(domain, other))) == ProgramOf(Site(Two(other, domain)))
              && ProgramOf(Site(Two(domain, other))) ==
                 [Lock(domain), Lock(other), Work({domain, other}), Unlock(domain), Unlock(other)]
  {
    hide Single, Nested, Guarded, Less;
    SingleIs("volume:" + name);
    SingleIs(DEPLOY + name);
    NestedIs(DEPLOY + name, domain);
    SingleIs(domain);
    NestedIs(domain, domain);
    SingleIsGuarded(domain);
    if Less(domain, other) {
      PairIs(domain, other);
    }
  }

  function ProgramOfAll(calls: seq<AgentCall>): Program {
    if calls == [] then [] else ProgramOf(calls[0]) + ProgramOfAll(calls[1..])
  }

  predicate DeployKey(key: string) {
    StartsWith(key, DEPLOY)
  }

  /** Domains hold no colon, so none is a deploy key. */
  predicate ValidDomains(c: AgentCall) {
    match c
    case Site(One(k)) => ':' !in k
    case Site(Two(a, b)) => ':' !in a && ':' !in b
    case Deploy(_, domain, _) => ':' !in domain
    case Expose(domain, _) => ':' !in domain
    case _ => true
  }

  /** Deploy keys before all others, each kind in string order. */
  predicate AgentOrder(a: string, b: string) {
    (DeployKey(a) && !DeployKey(b)) || ((DeployKey(a) <==> DeployKey(b)) && Less(a, b))
  }

  lemma AgentOrderIsStrict()
    ensures Strict(AgentOrder)
  {
    forall k ensures !AgentOrder(k, k) {
      LessTrichotomy(k, k);
    }
    forall a, b, c | AgentOrder(a, b) && AgentOrder(b, c) ensures AgentOrder(a, c) {
      if Less(a, b) && Less(b, c) {
        LessTransitive(a, b, c);
      }
    }
  }

  predicate SelfNesting(c: AgentCall) {
    c.Expose? && c.autoTls
  }

  lemma NoColonNoDeploy(domain: string)
    requires ':' !in domain
    ensures !DeployKey(domain)
  {
    if |DEPLOY| <= |domain| {
      assert domain[..|DEPLOY|][10] == domain[10];
    }
  }

  lemma SingleAscends(key: string, below: KeyOrder)
    ensures Ascends(Single(key), {}, below) && Scoped(Single(key), multiset{})
  {
    SingleIs(key);
    var m := multiset{key};
    assert m - m == multiset{} && multiset{} + m == m && AllHeld({key}, m);
    AscendsCons(Unlock(key), [], {key}, below);
    AscendsCons(Work({key}), [Unlock(key)], {key}, below);
    AscendsCons(Lock(key), [Work({key})] + [Unlock(key)], {}, below);
    ScopedCons(Unlock(key), [], m);
    ScopedCons(Work({key}), [Unlock(key)], m);
    ScopedCons(Lock(key), [Work({key})] + [Unlock(key)], multiset{});
    assert [Unlock(key)] + [] == [Unlock(key)] && {} + {key} == {key};
    assert Single(key) == [Lock(key)] + ([Work({key})] + [Unlock(key)]);
  }

  /** Two sites locked by one call: in key order, both held while the work is done. */
  lemma PairIs(x: string, y: string)
    requires Less(x, y)
    ensures forall r :: r == Two(x, y) || r == Two(y, x) ==>
              Guarded(r, []) == [Lock(x), Lock(y), Work({x, y}), Unlock(x), Unlock(y)]
  {
    LessTrichotomy(x, y);
    var ks := [x, y];
    OneLock(y);
    assert ks[1..] == [y] && Locks(ks) == [Lock(x)] + [Lock(y)] && Unlocks(ks) == [Unlock(x)] + [Unlock(y)];
    assert Elements(ks) == {x, y};
  }

  lemma PairAscends(x: string, y: string, below: KeyOrder)
    requires below(x, y)
    ensures var ops := [Lock(x), Lock(y), Work({x, y}), Unlock(x), Unlock(y)];
            Ascends(ops, {}, below) && Scoped(ops, multiset{})
  {
    var a, b := multiset{x}, multiset{y};
    var unlocks := [Unlock(x)] + [Unlock(y)];
    var worked := [Work({x, y})] + unlocks;
    AscendsUnlocks([x, y], {} + {x} + {y}, below);
    AscendsCons(Work({x, y}), unlocks, {} + {x} + {y}, below);
    AscendsCons(Lock(y), worked, {} + {x}, below);
    AscendsCons(Lock(x), [Lock(y)] + worked, {}, below);
    assert a + b - a == b && b - b == multiset{} && multiset{} + a == a && AllHeld({x, y}, a + b) && x in a + b;
    ScopedCons(Unlock(y), [], b);
    assert [Unlock(y)] + [] == [Unlock(y)];
    ScopedCons(Unlock(x), [Unlock(y)], a + b);
    ScopedCons(Work({x, y}), unlocks, a + b);
    ScopedCons(Lock(y), worked, a);
    ScopedCons(Lock(x), [Lock(y)] + worked, multiset{});
    assert [Lock(x), Lock(y), Work({x, y}), Unlock(x), Unlock(y)] == [Lock(x)] + ([Lock(y)] + worked);
  }

  lemma SiteCallAscends(r: Request)
    requires ValidDomains(Site(r))
    ensures Ascends(Guarded(r, []), {}, AgentOrder) && Scoped(Guarded(r, []), multiset{})
  {
    hide Guarded, Less;
    match r
    case One(k) => SingleAscends(k, AgentOrder);
      assert Single(k) == Guarded(One(k), []) by { SingleIsGuarded(k); }
    case Two(a, b) =>
      NoColonNoDeploy(a);
      NoColonNoDeploy(b);
      if a == b {
        SingleAscends(a, AgentOrder);
        SameSiteTwice(a);
      } else {
        LessTrichotomy(a, b);
        var x, y := if Less(a, b) then a else b, if Less(a, b) then b else a;
        PairIs(x, y);
        PairAscends(x, y, AgentOrder);
      }
  }

  lemma SingleIsGuarded(k: string)
    ensures Single(k) == Guarded(One(k), [])
  {
  }

  lemma SameSiteTwice(a: string)
    ensures Guarded(Two(a, a), []) == Single(a)
  {
  }

  lemma ReentersCons(op: Op, ops: Program, held: set<string>)
    ensures op.Lock? ==> (Reenters([op] + ops, held) <==> op.key in held || Reenters(ops, held + {op.key}))
    ensures op.Work? ==> (Reenters([op] + ops, held) <==> Reenters(ops, held))
    ensures op.Unlock? ==> (Reenters([op] + ops, held) <==> Reenters(ops, held - {op.key}))
  {
    assert ([op] + ops)[1..] == ops;
  }

  lemma SameKeyNestedReenters(key: string)
    ensures Reenters(Nested(key, key), {})
  {
    NestedIs(key, key);
    var rest := [Work({key}), Unlock(key), Unlock(key)];
    ReentersCons(Lock(key), rest, {key});
    ReentersCons(Work({key}), [Lock(key)] + rest, {key});
    ReentersCons(Lock(key), [Work({key})] + ([Lock(key)] + rest), {});
    assert {} + {key} == {key};
    assert Nested(key, key) == [Lock(key)] + ([Work({key})] + ([Lock(key)] + rest));
  }

  /**
    Every operation of the agent ascends in its order, except exposing a domain with automatic TLS, which takes
    that domain again.
   */
  lemma CallAscendsIff(c: AgentCall)
    requires ValidDomains(c)
    ensures Scoped(ProgramOf(c), multiset{})
    ensures Ascends(ProgramOf(c), {}, AgentOrder) <==> !SelfNesting(c)
    ensures Reenters(ProgramOf(c), {}) <==> SelfNesting(c)
  {
    hide Single, Nested, Guarded, Ascends, Scoped, Reenters, Strict, Less;
    AgentOrderIsStrict();
    match c {
      case Site(r) => SiteCallAscends(r);
      case Volume(name) => SingleAscends("volume:" + name, AgentOrder);
      case CleanUp(name) => SingleAscends(DEPLOY + name, AgentOrder);
      case Deploy(name, domain, autoTls) =>
        NoColonNoDeploy(domain);
        assert DeployKey(DEPLOY + name);
        SingleAscends(DEPLOY + name, AgentOrder);
        NestedAscends(DEPLOY + name, domain, AgentOrder);
        NestedIsScoped(DEPLOY + name, domain);
      case Expose(domain, autoTls) =>
        SingleAscends(domain, AgentOrder);
        NestedIsScoped(domain, domain);
        SameKeyNestedReenters(domain);
    }
    if Ascends(ProgramOf(c), {}, AgentOrder) {
      AscendingNeverReenters(ProgramOf(c), {}, AgentOrder);
    }
  }

  // ---------------------------------------------------------- calls one after another

  lemma {:induction false} ScopedAppend(a: Program, b: Program, held: multiset<string>)
    requires Scoped(a, held) && Scoped(b, multiset{})
    ensures Scoped(a + b, held)
  {
    if a == [] {
      assert a + b == b;
    } else {
      assert (a + b)[1..] == a[1..] + b;
      match a[0]
      case Lock(k) => ScopedAppend(a[1..], b, held + multiset{k});
      case Work(_) => ScopedAppend(a[1..], b, held);
      case Unlock(k) => ScopedAppend(a[1..], b, held - multiset{k});
    }
  }

  lemma {:induction false} AscendsAppend(a: Program, b: Program, held: set<string>, below: KeyOrder)
    requires Scoped(a, multiset(held)) && Ascends(a, held, below) && Ascends(b, {}, below) && Strict(below)
    ensures Ascends(a + b, held, below)
  {
    hide Strict;
    if a == [] {
      SetOf(held);
      assert a + b == b;
    } else {
      assert (a + b)[1..] == a[1..] + b;
      match a[0]
      case Lock(k) =>
        assert k !in held by { NotBelowItself(k, below); }
        assert multiset(held + {k}) == multiset(held) + multiset{k};
        AscendsAppend(a[1..], b, held + {k}, below);
      case Work(_) => AscendsAppend(a[1..], b, held, below);
      case Unlock(k) =>
        assert multiset(held - {k}) == multiset(held) - multiset{k};
        AscendsAppend(a[1..], b, held - {k}, below);
    }
  }

  lemma NotBelowItself(k: string, below: KeyOrder)
    requires Strict(below)
    ensures !below(k, k)
  {
  }

  lemma SetOf(held: set<string>)
    requires multiset(held) == multiset{}
    ensures held == {}
  {
    assert forall k :: k in held ==> k in multiset(held);
  }

  lemma {:induction false} ReentersAppend(a: Program, b: Program, held: set<string>)
    requires Reenters(a, held) || (Scoped(a, multiset(held)) && Reenters(b, {}))
    ensures Reenters(a + b, held)
  {
    if a == [] {
      SetOf(held);
      assert a + b == b;
    } else {
      assert (a + b)[1..] == a[1..] + b;
      match a[0]
      case Lock(k) =>
        if k !in held {
          assert multiset(held + {k}) == multiset(held) + multiset{k};
          ReentersAppend(a[1..], b, held + {k});
        }
      case Work(_) => ReentersAppend(a[1..], b, held);
      case Unlock(k) =>
        assert multiset(held - {k}) == multiset(held) - multiset{k};
        ReentersAppend(a[1..], b, held - {k});
    }
  }

  ghost predicate AllValid(calls: seq<AgentCall>) {
    forall i :: 0 <= i < |calls| ==> ValidDomains(calls[i])
  }

  ghost predicate SomeSelfNesting(calls: seq<AgentCall>) {
    exists i :: 0 <= i < |calls| && SelfNesting(calls[i])
  }

  lemma {:induction false} ProgramsAscendIff(calls: seq<AgentCall>)
    requires AllValid(calls)
    ensures Scoped(ProgramOfAll(calls), multiset{})
    ensures SomeSelfNesting(calls) ==> Reenters(ProgramOfAll(calls), {})
    ensures !SomeSelfNesting(calls) ==> Ascends(ProgramOfAll(calls), {}, AgentOrder)
  {
    hide Ascends, Scoped, Reenters, ProgramOf, Strict, SelfNesting, ValidDomains;
    if calls == [] {
      EmptyProgram();
    } else {
      var a, b := ProgramOf(calls[0]), ProgramOfAll(calls[1..]);
      assert forall i :: 1 <= i < |calls| ==> calls[i] == calls[1..][i - 1];
      CallAscendsIff(calls[0]);
      AgentOrderIsStrict();
      ProgramsAscendIff(calls[1..]);
      ScopedAppend(a, b, multiset{});
      var none: set<string> := {};
      assert multiset(none) == multiset{};
      if SelfNesting(calls[0]) || SomeSelfNesting(calls[1..]) {
        ReentersAppend(a, b, {});
      } else {
        AscendsAppend(a, b, {}, AgentOrder);
      }
    }
  }

  lemma EmptyProgram()
    ensures Scoped([], multiset{}) && Ascends([], {}, AgentOrder)
  {
  }

  /** Tasks about to make the given calls, with no lock taken. */
  ghost predicate AboutTo(s: State, calls: seq<seq<AgentCall>>) {
    && s.registry == map[] && s.owner == map[] && |s.tasks| == |calls|
    && forall t :: 0 <= t < |calls| ==> AllValid(calls[t]) && s.tasks[t] == Task(ProgramOfAll(calls[t]), map[], None)
  }

  /**
    For any tasks, each making any of the agent's calls one after another, and any run that cannot go on:
    every task has finished if and only if none of them exposed a domain with automatic TLS. A task that did
    is still waiting, for the lock it holds.
   */
  lemma AgentRunsFinishIff(s0: State, calls: seq<seq<AgentCall>>, run: seq<Action>, s: State)
    requires AboutTo(s0, calls) && Run(s0, run, s) && forall a :: !Enabled(s, a)
    ensures |s.tasks| == |calls|
    ensures (forall t :: 0 <= t < |calls| ==> !s.tasks[t].Busy()) <==>
            forall t :: 0 <= t < |calls| ==> !SomeSelfNesting(calls[t])
    ensures forall t :: 0 <= t < |calls| && SomeSelfNesting(calls[t]) ==> s.tasks[t].Busy()
  {
    hide Run, Ascends, Scoped, Reenters, SomeSelfNesting, AllValid, ProgramOfAll, Strict, Enabled;
    forall t | 0 <= t < |calls|
      ensures Scoped(s0.tasks[t].ops, multiset{})
      ensures SomeSelfNesting(calls[t]) ==> Reenters(s0.tasks[t].ops, {})
      ensures !SomeSelfNesting(calls[t]) ==> Ascends(s0.tasks[t].ops, {}, AgentOrder)
    {
      ProgramsAscendIff(calls[t]);
    }
    ReachedInv(s0, run, s);
    forall t | 0 <= t < |calls| && SomeSelfNesting(calls[t]) ensures s.tasks[t].Busy() {
      ReentrantNeverFinishes(s0, run, s, t);
    }
    if forall t :: 0 <= t < |calls| ==> !SomeSelfNesting(calls[t]) {
      assert AllAscend(s0, AgentOrder) by {
        assert forall t :: 0 <= t < |calls| ==> s0.tasks[t].guards.Keys == {};
      }
      AgentOrderIsStrict();
      MaximalRunsFinish(s0, run, s, AgentOrder);
    }
  }
}
