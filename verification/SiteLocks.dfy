/**
  Per-site locking: a registry of mutexes keyed by string and a two-lock acquire in key order.

  `Registry` is the static table with `entry`, `lock_site` and `lock_sites` on the uncontended path.
  The rest of the module is the protocol: any number of tasks, each running a program of lock, work and
  unlock steps, interleaved one micro-step at a time. A program may call for a lock while it holds others.
 */
module SiteLocks {
  import opened Text

  type Mutex = nat

  // ------------------------------------------------------------ key ordering

  /** Rust's `<` on strings. */
  predicate Less(a: string, b: string) {
    b != [] && (a == [] || a[0] < b[0] || (a[0] == b[0] && Less(a[1..], b[1..])))
  }

  /** `<` is a strict total order: exactly one of the three cases holds. */
  lemma {:induction false} LessTrichotomy(a: string, b: string)
    ensures a != b ==> Less(a, b) || Less(b, a)
    ensures !(Less(a, b) && Less(b, a)) && !Less(a, a)
  {
    if a != [] && b != [] && a[0] == b[0] {
      LessTrichotomy(a[1..], b[1..]);
      assert a == [a[0]] + a[1..] && b == [b[0]] + b[1..];
    }
    if a != [] {
      LessTrichotomy(a[1..], a[1..]);
    }
  }

  /** The order is lexicographic: at the first place where the strings differ, or the shorter of two that agree. */
  lemma {:induction false} LessIff(a: string, b: string, n: nat)
    requires n <= |a| && n <= |b| && a[..n] == b[..n] && (n < |a| && n < |b| ==> a[n] != b[n])
    ensures Less(a, b) <==> n < |b| && (n == |a| || a[n] < b[n])
  {
    if n > 0 {
      assert a[0] == a[..n][0] == b[..n][0] == b[0];
      assert a[1..][..n - 1] == a[..n][1..] == b[..n][1..] == b[1..][..n - 1];
      LessIff(a[1..], b[1..], n - 1);
    }
  }

  lemma {:induction false} LessTransitive(a: string, b: string, c: string)
    requires Less(a, b) && Less(b, c)
    ensures Less(a, c)
  {
    if a != [] && a[0] == b[0] == c[0] {
      LessTransitive(a[1..], b[1..], c[1..]);
    }
  }

  // ---------------------------------------------------------------- requests

  /** One call of `lock_site` or `lock_sites`. */
  datatype Request = One(key: string) | Two(a: string, b: string)

  /** The keys a request locks, in the order it locks them. */
  function Order(r: Request): (ks: seq<string>)
  {
    match r
    case One(k) => [k]
    case Two(a, b) => if a == b then [a] else if Less(a, b) then [a, b] else [b, a]
  }

  predicate Increasing(ks: seq<string>) {
    forall i, j :: 0 <= i < j < |ks| ==> Less(ks[i], ks[j])
  }

  /** Every request locks exactly its keys, each once, smallest first, whatever the argument order. */
  lemma OrderIsSorted(r: Request)
    ensures Order(r) != [] && Increasing(Order(r))
    ensures forall k :: k in Order(r) <==> (if r.One? then k == r.key else k == r.a || k == r.b)
    ensures r.Two? ==> Order(r) == Order(Two(r.b, r.a))
  {
    if r.Two? {
      LessTrichotomy(r.a, r.b);
    }
  }

  // ------------------------------------------------------------- the registry

  /** Different keys have different mutexes; `next` stands for the next fresh allocation. */
  predicate Registered(registry: map<string, Mutex>, next: Mutex) {
    && (forall k :: k in registry ==> registry[k] < next)
    && (forall k, l :: k in registry && l in registry && registry[k] == registry[l] ==> k == l)
  }

  /** `entry`: look the key up, inserting a fresh mutex the first time. */
  function WithEntry(registry: map<string, Mutex>, next: Mutex, key: string): (r: map<string, Mutex>)
    requires Registered(registry, next)
    ensures key in r && Registered(r, next + 1)
    ensures forall k :: k in registry ==> k in r && r[k] == registry[k]
    ensures r.Keys == registry.Keys + {key}
  {
    if key in registry then registry else registry[key := next]
  }

  class Registry {
    var locks: map<string, Mutex>
    var next: Mutex
    var owner: map<Mutex, nat>     // which task holds each taken mutex
    ghost var taken: seq<string>   // keys in the order they were acquired

    ghost predicate Valid()
      reads this
    {
      Registered(locks, next)
    }

    constructor ()
      ensures Valid() && locks == map[] && owner == map[] && taken == []
    {
      locks, next, owner, taken := map[], 0, map[], [];
    }

    method Entry(key: string) returns (m: Mutex)
      requires Valid()
      modifies this`locks, this`next
      ensures Valid() && locks == WithEntry(old(locks), old(next), key) && m == locks[key]
    {
      if key !in locks {
        locks, next := locks[key := next], next + 1;
      }
      m := locks[key];
    }

    ghost predicate Free(key: string)
      reads this
    {
      key in locks ==> locks[key] !in owner
    }

    /** `lock_site` when nobody holds the key. */
    method LockSite(task: nat, key: string) returns (guard: Mutex)
      requires Valid() && Free(key)
      modifies this
      ensures Valid() && locks == WithEntry(old(locks), old(next), key) && guard == locks[key]
      ensures owner == old(owner)[guard := task] && taken == old(taken) + [key]
    {
      guard := Entry(key);
      owner := owner[guard := task];
      taken := taken + [key];
    }

    /** Two different free keys, `k` before `l`. */
    method LockInOrder(task: nat, k: string, l: string) returns (g: Mutex, h: Mutex)
      requires Valid() && Free(k) && Free(l) && k != l
      modifies this
      ensures Valid() && locks.Keys == old(locks).Keys + {k, l}
      ensures forall x :: x in old(locks) ==> locks[x] == old(locks)[x]
      ensures g == locks[k] && h == locks[l] && g != h
      ensures owner == old(owner)[g := task][h := task] && taken == old(taken) + [k, l]
    {
      g := LockSite(task, k);
      h := LockSite(task, l);
      assert old(taken) + [k] + [l] == old(taken) + [k, l];
    }

    /**
      `lock_sites` when nobody holds either key: the first guard is always `a`'s, the second
      `b`'s (absent when they are one key), and the keys are taken in sorted order.
     */
    method LockSites(task: nat, a: string, b: string) returns (guardA: Mutex, guardB: seq<Mutex>)
      requires Valid() && Free(a) && Free(b)
      modifies this
      ensures Valid() && locks.Keys == old(locks).Keys + {a, b}
      ensures forall k :: k in old(locks) ==> locks[k] == old(locks)[k]
      ensures guardA == locks[a] && guardB == if a == b then [] else [locks[b]]
      ensures owner.Keys == old(owner).Keys + {locks[a], locks[b]} && owner[locks[a]] == owner[locks[b]] == task
      ensures forall m :: m in old(owner) && m != locks[a] && m != locks[b] ==> owner[m] == old(owner)[m]
      ensures taken == old(taken) + Order(Two(a, b))
    {
      if a == b {
        guardA := LockSite(task, a);
        return guardA, [];
      }
      var g: Mutex;
      if Less(a, b) {
        guardA, g := LockInOrder(task, a, b);
      } else {
        g, guardA := LockInOrder(task, b, a);
      }
      guardB := [g];
    }
  }

  // ----------------------------------------------------------------- programs

  /** One step of a task: lock a key, do work that relies on some keys being held, or drop a guard. */
  datatype Op = Lock(key: string) | Work(needs: set<string>) | Unlock(key: string)

  type Program = seq<Op>

  function Locks(keys: seq<string>): Program {
    if keys == [] then [] else [Lock(keys[0])] + Locks(keys[1..])
  }

  function Unlocks(keys: seq<string>): Program {
    if keys == [] then [] else [Unlock(keys[0])] + Unlocks(keys[1..])
  }

  function Elements(keys: seq<string>): set<string> {
    set k | k in keys
  }

  /** A call of `lock_site` or `lock_sites` and what is done with its guards bound; `body` may hold further calls. */
  function Guarded(r: Request, body: Program): Program {
    Locks(Order(r)) + ([Work(Elements(Order(r)))] + body + Unlocks(Order(r)))
  }

  predicate AllHeld(needs: set<string>, held: multiset<string>) {
    forall k :: k in needs ==> k in held
  }

  /** Every dropped guard is held, work finds the keys it needs, and nothing is held at the end. */
  predicate Scoped(ops: Program, held: multiset<string>) {
    if ops == [] then held == multiset{}
    else
      match ops[0]
      case Lock(k) => Scoped(ops[1..], held + multiset{k})
      case Work(needs) => AllHeld(needs, held) && Scoped(ops[1..], held)
      case Unlock(k) => k in held && Scoped(ops[1..], held - multiset{k})
  }

  type KeyOrder = (string, string) -> bool

  ghost predicate Strict(below: KeyOrder) {
    && (forall k :: !below(k, k))
    && (forall a, b, c :: below(a, b) && below(b, c) ==> below(a, c))
  }

  /** Every key is locked only while holding keys below it. */
  predicate Ascends(ops: Program, held: set<string>, below: KeyOrder) {
    if ops == [] then true
    else
      match ops[0]
      case Lock(k) => (forall h :: h in held ==> below(h, k)) && Ascends(ops[1..], held + {k}, below)
      case Work(_) => Ascends(ops[1..], held, below)
      case Unlock(k) => Ascends(ops[1..], held - {k}, below)
  }

  /** Some key is locked while it is held. */
  predicate Reenters(ops: Program, held: set<string>) {
    ops != [] &&
    match ops[0]
    case Lock(k) => k in held || Reenters(ops[1..], held + {k})
    case Work(_) => Reenters(ops[1..], held)
    case Unlock(k) => Reenters(ops[1..], held - {k})
  }

  // ------------------------------------------------------------- the protocol

  /** The steps left, the guards held, and the mutex awaited once `entry` has given its handle. */
  datatype Task = Task(ops: Program, guards: map<string, Mutex>, waiting: Option<Mutex>)
  {
    predicate Busy() { ops != [] }
  }

  datatype State = State(registry: map<string, Mutex>, next: Mutex, owner: map<Mutex, nat>, tasks: seq<Task>)

  datatype Action = Enter(t: nat) | Grant(t: nat) | Proceed(t: nat) | Drop(t: nat)

  predicate Enabled(s: State, a: Action) {
    && a.t < |s.tasks|
    && var task := s.tasks[a.t];
       task.Busy() &&
       match a
       case Enter(_) => task.ops[0].Lock? && task.waiting.None?
       case Grant(_) => task.ops[0].Lock? && task.waiting.Some? && task.waiting.value !in s.owner
       case Proceed(_) => task.ops[0].Work?
       case Drop(_) => task.ops[0].Unlock? && task.ops[0].key in task.guards
  }

  function Apply(s: State, a: Action): (s': State)
    requires Registered(s.registry, s.next) && Enabled(s, a)
    ensures Registered(s'.registry, s'.next)
    ensures |s'.tasks| == |s.tasks| && forall u :: 0 <= u < |s.tasks| && u != a.t ==> s'.tasks[u] == s.tasks[u]
  {
    var task := s.tasks[a.t];
    match a
    case Enter(t) =>
      var registry := WithEntry(s.registry, s.next, task.ops[0].key);
      s.(registry := registry, next := s.next + 1,
         tasks := s.tasks[t := task.(waiting := Some(registry[task.ops[0].key]))])
    case Grant(t) =>
      var m := task.waiting.value;
      s.(owner := s.owner[m := t],
         tasks := s.tasks[t := Task(task.ops[1..], task.guards[task.ops[0].key := m], None)])
    case Proceed(t) =>
      s.(tasks := s.tasks[t := task.(ops := task.ops[1..])])
    case Drop(t) =>
      var k := task.ops[0].key;
      s.(owner := s.owner - {task.guards[k]},
         tasks := s.tasks[t := task.(ops := task.ops[1..], guards := task.guards - {k})])
  }

  ghost predicate Initial(s: State) {
    && s.registry == map[] && s.owner == map[]
    && forall t :: 0 <= t < |s.tasks| ==>
         s.tasks[t].guards == map[] && s.tasks[t].waiting == None && Scoped(s.tasks[t].ops, multiset{})
  }

  /** `run` is a legal interleaving from `s`, ending in `s'`. */
  ghost predicate Run(s: State, run: seq<Action>, s': State)
    requires Registered(s.registry, s.next)
    decreases |run|
  {
    if run == [] then s == s'
    else Enabled(s, run[0]) && Run(Apply(s, run[0]), run[1..], s')
  }

  // ------------------------------------------------------------- the invariant

  predicate TaskOk(s: State, t: nat)
    requires t < |s.tasks|
  {
    var task := s.tasks[t];
    && (forall k :: k in task.guards ==>
          && k in s.registry && task.guards[k] == s.registry[k]
          && task.guards[k] in s.owner && s.owner[task.guards[k]] == t)
    && Scoped(task.ops, multiset(task.guards.Keys))
    && (task.waiting.Some? ==>
          && task.ops != [] && task.ops[0].Lock? && task.ops[0].key in s.registry
          && task.waiting.value == s.registry[task.ops[0].key])
  }

  predicate OwnerOk(s: State, m: Mutex)
    requires m in s.owner
  {
    s.owner[m] < |s.tasks| && m in s.tasks[s.owner[m]].guards.Values
  }

  ghost predicate Inv(s: State) {
    && Registered(s.registry, s.next)
    && (forall t :: 0 <= t < |s.tasks| ==> TaskOk(s, t))
    && (forall m :: m in s.owner ==> OwnerOk(s, m))
  }

  lemma InitialInv(s: State)
    requires Initial(s)
    ensures Inv(s)
  {
    forall t | 0 <= t < |s.tasks| ensures TaskOk(s, t) {
      assert multiset(s.tasks[t].guards.Keys) == multiset{};
    }
  }

  /** The other tasks' part of the invariant survives any step. */
  lemma FrameOther(s: State, a: Action, u: nat)
    requires Inv(s) && Enabled(s, a) && u < |s.tasks| && u != a.t
    ensures TaskOk(Apply(s, a), u)
  {
    hide Scoped;
    var s' := Apply(s, a);
    var task := s.tasks[u];
    assert TaskOk(s, u) && TaskOk(s, a.t);
    forall k | k in task.guards ensures task.guards[k] in s'.owner && s'.owner[task.guards[k]] == u {
      assert s.owner[task.guards[k]] == u;
    }
  }

  lemma StepOwn(s: State, a: Action)
    requires Inv(s) && Enabled(s, a)
    ensures TaskOk(Apply(s, a), a.t)
  {
    assert TaskOk(s, a.t);
    var s', task, task' := Apply(s, a), s.tasks[a.t], Apply(s, a).tasks[a.t];
    match a
    case Enter(t) =>
    case Grant(t) =>
      assert task.ops[0].key !in task.guards;
      assert multiset(task'.guards.Keys) == multiset(task.guards.Keys) + multiset{task.ops[0].key};
    case Proceed(t) =>
    case Drop(t) =>
      assert multiset(task'.guards.Keys) == multiset(task.guards.Keys) - multiset{task.ops[0].key};
  }

  lemma StepOwners(s: State, a: Action, m: Mutex)
    requires Inv(s) && Enabled(s, a) && m in Apply(s, a).owner
    ensures OwnerOk(Apply(s, a), m)
  {
    hide Scoped;
    assert TaskOk(s, a.t);
    var s', task, task' := Apply(s, a), s.tasks[a.t], Apply(s, a).tasks[a.t];
    if a.Grant? && m == task.waiting.value {
      assert task'.guards[task.ops[0].key] == m;
    } else {
      assert OwnerOk(s, m);
      if s.owner[m] == a.t {
        var k :| k in task.guards && task.guards[k] == m;
        assert k in task'.guards && task'.guards[k] == m;
      }
    }
  }

  lemma StepInv(s: State, a: Action)
    requires Inv(s) && Enabled(s, a)
    ensures Inv(Apply(s, a))
  {
    hide TaskOk, OwnerOk;
    var s' := Apply(s, a);
    forall u | 0 <= u < |s'.tasks| ensures TaskOk(s', u) {
      if u == a.t { StepOwn(s, a); } else { FrameOther(s, a, u); }
    }
    forall m | m in s'.owner ensures OwnerOk(s', m) {
      StepOwners(s, a, m);
    }
  }

  lemma {:induction false} RunInv(s: State, run: seq<Action>, s': State)
    requires Inv(s) && Run(s, run, s')
    ensures Inv(s') && |s'.tasks| == |s.tasks|
    decreases |run|
  {
    if run != [] {
      StepInv(s, run[0]);
      RunInv(Apply(s, run[0]), run[1..], s');
    }
  }

  lemma ReachedInv(s0: State, run: seq<Action>, s: State)
    requires Initial(s0) && Run(s0, run, s)
    ensures Inv(s) && |s.tasks| == |s0.tasks|
  {
    InitialInv(s0);
    RunInv(s0, run, s);
  }

  // ------------------------------------------------------------------ exclusion

  /** Task `t` holds the lock of `key`. */
  ghost predicate Holds(s: State, t: nat, key: string) {
    t < |s.tasks| && key in s.tasks[t].guards
  }

  /** In every reachable state, two tasks never hold the lock of one key, nested calls or not. */
  lemma MutualExclusion(s0: State, run: seq<Action>, s: State, t: nat, u: nat, key: string)
    requires Initial(s0) && Run(s0, run, s)
    requires Holds(s, t, key) && Holds(s, u, key)
    ensures t == u
  {
    ReachedInv(s0, run, s);
    assert TaskOk(s, t) && TaskOk(s, u);
  }

  /** A task about to do its work holds every key the work needs: of a guarded call, every key of its request. */
  lemma WorkingHoldsAll(s0: State, run: seq<Action>, s: State, t: nat)
    requires Initial(s0) && Run(s0, run, s)
    requires t < |s.tasks| && s.tasks[t].Busy() && s.tasks[t].ops[0].Work?
    ensures forall key :: key in s.tasks[t].ops[0].needs ==> Holds(s, t, key)
  {
    ReachedInv(s0, run, s);
    assert TaskOk(s, t);
  }

  // ------------------------------------------------------------- ascending calls

  ghost predicate AllAscend(s: State, below: KeyOrder) {
    forall t :: 0 <= t < |s.tasks| ==> Ascends(s.tasks[t].ops, s.tasks[t].guards.Keys, below)
  }

  lemma StepAscends(s: State, a: Action, below: KeyOrder)
    requires Inv(s) && Enabled(s, a) && AllAscend(s, below)
    ensures AllAscend(Apply(s, a), below)
  {
    var s', task, task' := Apply(s, a), s.tasks[a.t], Apply(s, a).tasks[a.t];
    assert Ascends(task.ops, task.guards.Keys, below);
    match a
    case Enter(t) =>
    case Grant(t) =>
      assert task'.guards.Keys == task.guards.Keys + {task.ops[0].key};
    case Proceed(t) =>
    case Drop(t) =>
      assert task'.guards.Keys == task.guards.Keys - {task.ops[0].key};
  }

  lemma {:induction false} RunAscends(s: State, run: seq<Action>, s': State, below: KeyOrder)
    requires Inv(s) && Run(s, run, s') && AllAscend(s, below)
    ensures AllAscend(s', below)
    decreases |run|
  {
    hide AllAscend;
    if run != [] {
      StepInv(s, run[0]);
      StepAscends(s, run[0], below);
      RunAscends(Apply(s, run[0]), run[1..], s', below);
    }
  }

  /** A waiting task of ascending calls holds only keys below the one it waits for. */
  lemma WaitingHoldsSmaller(s: State, t: nat, key: string, below: KeyOrder)
    requires Inv(s) && AllAscend(s, below) && t < |s.tasks| && s.tasks[t].waiting.Some? && Holds(s, t, key)
    ensures s.tasks[t].Busy() && s.tasks[t].ops[0].Lock? && below(key, s.tasks[t].ops[0].key)
  {
    assert TaskOk(s, t);
    assert Ascends(s.tasks[t].ops, s.tasks[t].guards.Keys, below);
  }

  /** Waiting for a mutex that someone holds. */
  ghost predicate Stuck(s: State, t: nat) {
    && t < |s.tasks| && s.tasks[t].Busy() && s.tasks[t].ops[0].Lock?
    && s.tasks[t].waiting.Some? && s.tasks[t].waiting.value in s.owner
  }

  function Wanted(s: State, t: nat): string
    requires t < |s.tasks|
  {
    if s.tasks[t].Busy() && s.tasks[t].ops[0].Lock? then s.tasks[t].ops[0].key else ""
  }

  /** If every busy task is stuck, the holder of a stuck task's mutex is stuck on a key above. */
  lemma HolderWantsMore(s: State, t: nat, below: KeyOrder) returns (u: nat)
    requires Inv(s) && AllAscend(s, below) && Stuck(s, t)
    requires forall v :: 0 <= v < |s.tasks| && s.tasks[v].Busy() ==> Stuck(s, v)
    ensures Stuck(s, u) && below(Wanted(s, t), Wanted(s, u))
  {
    var m := s.tasks[t].waiting.value;
    assert TaskOk(s, t) && OwnerOk(s, m);
    u := s.owner[m];
    assert TaskOk(s, u);
    var k :| k in s.tasks[u].guards && s.tasks[u].guards[k] == m;
    WaitingHoldsSmaller(s, u, k, below);
  }

  /** Among the first `n` tasks, a stuck one whose wanted key is below no other stuck one's. */
  lemma {:induction false} LargestWanted(s: State, n: nat, t: nat, below: KeyOrder) returns (w: nat)
    requires Strict(below) && t < n <= |s.tasks| && Stuck(s, t)
    ensures w < n && Stuck(s, w)
    ensures forall v :: 0 <= v < n && Stuck(s, v) ==> !below(Wanted(s, w), Wanted(s, v))
    decreases n
  {
    hide Stuck, Wanted;
    var last := n - 1;
    if v :| 0 <= v < last && Stuck(s, v) {
      w := LargestWanted(s, last, v, below);
      if Stuck(s, last) && below(Wanted(s, w), Wanted(s, last)) {
        w := last;
      }
    } else {
      w := t;
    }
  }

  /**
    Deadlock freedom: if all nested calls ascend in one strict order on keys, then while any task is
    unfinished some step is enabled.
   */
  lemma SomeStepEnabled(s: State, t: nat, below: KeyOrder) returns (a: Action)
    requires Inv(s) && AllAscend(s, below) && Strict(below) && t < |s.tasks| && s.tasks[t].Busy()
    ensures Enabled(s, a)
  {
    if v :| 0 <= v < |s.tasks| && s.tasks[v].Busy() && !Stuck(s, v) {
      assert TaskOk(s, v);
      a := match s.tasks[v].ops[0]
           case Lock(_) => if s.tasks[v].waiting.None? then Enter(v) else Grant(v)
           case Work(_) => Proceed(v)
           case Unlock(_) => Drop(v);
    } else {
      var w := LargestWanted(s, |s.tasks|, t, below);
      var u := HolderWantsMore(s, w, below);
      assert false;
    }
  }

  // --------------------------------------------------------------- termination

  /** Micro-steps of a program: two per lock, one for anything else. */
  function Cost(ops: Program): nat {
    if ops == [] then 0 else (if ops[0].Lock? then 2 else 1) + Cost(ops[1..])
  }

  /** Micro-steps a task still has to make. */
  function Remaining(task: Task): int {
    Cost(task.ops) - if task.waiting.Some? then 1 else 0
  }

  function TotalRemaining(tasks: seq<Task>): int {
    if tasks == [] then 0 else Remaining(tasks[0]) + TotalRemaining(tasks[1..])
  }

  lemma {:induction false} TotalUpdate(tasks: seq<Task>, t: nat, task: Task)
    requires t < |tasks|
    ensures TotalRemaining(tasks[t := task]) == TotalRemaining(tasks) - Remaining(tasks[t]) + Remaining(task)
  {
    hide Remaining;
    if t == 0 {
      assert tasks[0 := task][1..] == tasks[1..];
    } else {
      assert tasks[t := task][1..] == tasks[1..][t - 1 := task];
      TotalUpdate(tasks[1..], t - 1, task);
    }
  }

  /** Every step uses up exactly one unit of the measure, whatever the programs. */
  lemma StepCost(s: State, a: Action)
    requires Inv(s) && Enabled(s, a)
    ensures TotalRemaining(Apply(s, a).tasks) == TotalRemaining(s.tasks) - 1
  {
    assert TaskOk(s, a.t);
    TotalUpdate(s.tasks, a.t, Apply(s, a).tasks[a.t]);
    assert Apply(s, a).tasks == s.tasks[a.t := Apply(s, a).tasks[a.t]];
  }

  lemma {:induction false} RunCost(s: State, run: seq<Action>, s': State)
    requires Inv(s) && Run(s, run, s')
    ensures TotalRemaining(s'.tasks) == TotalRemaining(s.tasks) - |run|
    decreases |run|
  {
    if run != [] {
      StepCost(s, run[0]);
      StepInv(s, run[0]);
      RunCost(Apply(s, run[0]), run[1..], s');
    }
  }

  lemma {:induction false} RemainingNonNegative(s: State, n: nat)
    requires Inv(s) && n <= |s.tasks|
    ensures TotalRemaining(s.tasks[n..]) >= 0
    ensures (forall t :: n <= t < |s.tasks| ==> !s.tasks[t].Busy()) ==> TotalRemaining(s.tasks[n..]) == 0
    decreases |s.tasks| - n
  {
    if n < |s.tasks| {
      assert TaskOk(s, n);
      assert s.tasks[n..][1..] == s.tasks[n + 1..];
      RemainingNonNegative(s, n + 1);
    }
  }

  /** Every run is bounded by the initial measure, however the tasks are interleaved and whatever they nest. */
  lemma RunsEnd(s0: State, run: seq<Action>, s: State)
    requires Initial(s0) && Run(s0, run, s)
    ensures |run| <= TotalRemaining(s0.tasks)
  {
    InitialInv(s0);
    RunCost(s0, run, s);
    RunInv(s0, run, s);
    RemainingNonNegative(s, 0);
    assert s.tasks[0..] == s.tasks;
  }

  lemma HolderIsBusy(s: State, m: Mutex)
    requires Inv(s) && m in s.owner
    ensures s.owner[m] < |s.tasks| && s.tasks[s.owner[m]].Busy()
  {
    assert OwnerOk(s, m) && TaskOk(s, s.owner[m]);
    var task := s.tasks[s.owner[m]];
    var k :| k in task.guards && task.guards[k] == m;
    assert k in multiset(task.guards.Keys);
  }

  lemma NothingHeld(s: State)
    requires Inv(s) && forall t :: 0 <= t < |s.tasks| ==> !s.tasks[t].Busy()
    ensures s.owner == map[]
  {
    if s.owner.Keys != {} {
      var m :| m in s.owner;
      HolderIsBusy(s, m);
      assert false;
    }
  }

  /**
    With calls that ascend in one strict order, a run that cannot be extended has finished every task, made
    the same number of steps as any other such run, and left no mutex taken.
   */
  lemma MaximalRunsFinish(s0: State, run: seq<Action>, s: State, below: KeyOrder)
    requires Initial(s0) && AllAscend(s0, below) && Strict(below) && Run(s0, run, s)
    requires forall a :: !Enabled(s, a)
    ensures forall t :: 0 <= t < |s.tasks| ==> !s.tasks[t].Busy()
    ensures s.owner == map[] && |run| == TotalRemaining(s0.tasks)
  {
    hide AllAscend, Strict;
    InitialInv(s0);
    RunInv(s0, run, s);
    RunCost(s0, run, s);
    RunAscends(s0, run, s, below);
    forall t | 0 <= t < |s.tasks| ensures !s.tasks[t].Busy() {
      if s.tasks[t].Busy() {
        var a := SomeStepEnabled(s, t, below);
      }
    }
    RemainingNonNegative(s, 0);
    assert s.tasks[0..] == s.tasks;
    NothingHeld(s);
  }

  // ------------------------------------------------------- re-entering a held lock

  /** A task that waits for a key it holds keeps both for ever: no step of any run touches it again. */
  lemma {:induction false} SameKeyWaitsForever(s: State, run: seq<Action>, s': State, t: nat)
    requires Inv(s) && Run(s, run, s') && t < |s.tasks|
    requires s.tasks[t].waiting.Some? && s.tasks[t].Busy() && s.tasks[t].ops[0].Lock?
    requires Holds(s, t, s.tasks[t].ops[0].key)
    ensures t < |s'.tasks| && s'.tasks[t] == s.tasks[t]
    decreases |run|
  {
    if run != [] {
      assert TaskOk(s, t);
      StepInv(s, run[0]);
      SameKeyWaitsForever(Apply(s, run[0]), run[1..], s', t);
    }
  }

  lemma StepReenters(s: State, a: Action, t: nat)
    requires Inv(s) && Enabled(s, a) && t < |s.tasks| && Reenters(s.tasks[t].ops, s.tasks[t].guards.Keys)
    ensures Reenters(Apply(s, a).tasks[t].ops, Apply(s, a).tasks[t].guards.Keys)
  {
    assert TaskOk(s, t);
    if a.t == t {
      var task, task' := s.tasks[t], Apply(s, a).tasks[t];
      match a
      case Enter(_) =>
      case Grant(_) =>
        assert task.ops[0].key !in task.guards;
        assert task'.guards.Keys == task.guards.Keys + {task.ops[0].key};
      case Proceed(_) =>
      case Drop(_) =>
        assert task'.guards.Keys == task.guards.Keys - {task.ops[0].key};
    }
  }

  lemma {:induction false} RunReenters(s: State, run: seq<Action>, s': State, t: nat)
    requires Inv(s) && Run(s, run, s') && t < |s.tasks| && Reenters(s.tasks[t].ops, s.tasks[t].guards.Keys)
    ensures t < |s'.tasks| && Reenters(s'.tasks[t].ops, s'.tasks[t].guards.Keys)
    decreases |run|
  {
    hide Reenters;
    if run != [] {
      StepReenters(s, run[0], t);
      StepInv(s, run[0]);
      RunReenters(Apply(s, run[0]), run[1..], s', t);
    }
  }

  /** A task whose program locks a key it holds never finishes, in any run with any other tasks. */
  lemma ReentrantNeverFinishes(s0: State, run: seq<Action>, s: State, t: nat)
    requires Initial(s0) && Run(s0, run, s) && t < |s0.tasks| && Reenters(s0.tasks[t].ops, {})
    ensures t < |s.tasks| && s.tasks[t].Busy()
  {
    InitialInv(s0);
    assert s0.tasks[t].guards.Keys == {};
    RunReenters(s0, run, s, t);
  }

  /** Calls that ascend in a strict order never take a held key again. */
  lemma {:induction false} AscendingNeverReenters(ops: Program, held: set<string>, below: KeyOrder)
    requires Ascends(ops, held, below) && Strict(below)
    ensures !Reenters(ops, held)
  {
    if ops != [] {
      match ops[0]
      case Lock(k) => AscendingNeverReenters(ops[1..], held + {k}, below);
      case Work(_) => AscendingNeverReenters(ops[1..], held, below);
      case Unlock(k) => AscendingNeverReenters(ops[1..], held - {k}, below);
    }
  }
}
