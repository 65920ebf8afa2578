/**
  Provisioning logs: a map of live logs (history + broadcast channel) and a map of their owners,
  each behind its own lock, with jobs that emit, readers that attach late, and a janitor that sweeps.

  Every critical section is one atomic action here; module `LogLocks` covers the two locks.
 */
module ProvisionLogs {
  import opened Text

  type Id = nat
  type User = nat
  type Instant = nat   // nanoseconds

  const LOG_TTL: nat := 3600 * 1_000_000_000

  datatype ProvisionStep = ProvisionStep(step: string, caption: string, status: string, message: Option<string>)

  /** One entry of the log map. The sender is the index of its channel. */
  datatype Log = Log(history: seq<ProvisionStep>, sender: nat, created: Instant)

  /**
    A broadcast channel: `sent` is everything ever sent on it, of which the ring keeps the last
    `capacity` (the slots it really has). It is open while the map holds its sender. `registrant`
    records, for the theorems only, who registered the log it was made for.
   */
  datatype Channel = Channel(capacity: nat, sent: seq<ProvisionStep>, open: bool, registrant: User)

  /** An SSE reader: what it has shown (snapshot, then live steps), its place in the channel. */
  datatype Reader = Reader(user: User, channel: nat, shown: seq<ProvisionStep>, next: nat, lagged: bool, ended: bool)

  datatype State = State(now: Instant, logs: map<Id, Log>, owners: map<Id, User>,
                         channels: seq<Channel>, readers: seq<Reader>)

  const EMPTY := State(0, map[], map[], [], [])

  datatype Action =
    | Tick(elapsed: nat)
    | Register(id: Id, owner: User, capacity: nat)
    | Forget(id: Id)
    | Retire(id: Id)                      // a job's terminal `remove`: only the log goes
    | Emit(id: Id, step: ProvisionStep)
    | Open(id: Id, caller: User)
    | Receive(r: nat)
    | Sweep(at: Instant)                  // `at` was read before the locks were taken

  function Closed(channels: seq<Channel>, c: nat): (r: seq<Channel>)
    ensures |r| == |channels|
  {
    if c < |channels| then channels[c := channels[c].(open := false)] else channels
  }

  /** Dropping a map entry drops the last sender of its channel. */
  function WithoutLog(s: State, id: Id): State {
    if id in s.logs then s.(logs := s.logs - {id}, channels := Closed(s.channels, s.logs[id].sender)) else s
  }

  /** A state that got a new log, on a new channel. */
  function WithLog(t: State, id: Id, owner: User, capacity: nat): State {
    t.(logs := t.logs[id := Log([], |t.channels|, t.now)], owners := t.owners[id := owner],
       channels := t.channels + [Channel(capacity, [], true, owner)])
  }

  /** `now.duration_since(created) < 1h`, saturating at zero. */
  predicate Young(log: Log, at: Instant) {
    (if at < log.created then 0 else at - log.created) < LOG_TTL
  }

  function Opened(s: State, id: Id, caller: User): (r: Option<Reader>) {
    if id in s.owners && s.owners[id] == caller && id in s.logs && s.logs[id].sender < |s.channels| then
      var log := s.logs[id];
      Some(Reader(caller, log.sender, log.history, |s.channels[log.sender].sent|, false, false))
    else None
  }

  /** One `recv`. A reader further behind than the ring is told so once, and resumes at the oldest step kept. */
  function Received(c: Channel, reader: Reader): Reader {
    if reader.next < |c.sent| then
      if |c.sent| - reader.next > c.capacity then reader.(next := |c.sent| - c.capacity, lagged := true)
      else reader.(shown := reader.shown + [c.sent[reader.next]], next := reader.next + 1)
    else if c.open then reader
    else reader.(ended := true)
  }

  predicate Enabled(s: State, a: Action) {
    match a
    case Register(_, _, capacity) => capacity > 0     // the channel constructor refuses zero
    case Receive(r) => r < |s.readers| && s.readers[r].channel < |s.channels|
    case Sweep(at) => at <= s.now
    case _ => true
  }

  function Apply(s: State, a: Action): (s': State)
    requires Enabled(s, a)
  {
    match a
    case Tick(elapsed) => s.(now := s.now + elapsed)
    case Register(id, owner, capacity) => WithLog(WithoutLog(s, id), id, owner, capacity)
    case Forget(id) => var t := WithoutLog(s, id); t.(owners := t.owners - {id})
    case Retire(id) => WithoutLog(s, id)
    case Emit(id, step) =>
      if id in s.logs && s.logs[id].sender < |s.channels| then
        var log := s.logs[id];
        var c := s.channels[log.sender];
        s.(logs := s.logs[id := log.(history := log.history + [step])],
           channels := s.channels[log.sender := c.(sent := c.sent + [step])])
      else s
    case Open(id, caller) =>
      (match Opened(s, id, caller)
       case None => s
       case Some(reader) => s.(readers := s.readers + [reader]))
    case Receive(r) => s.(readers := s.readers[r := Received(s.channels[s.readers[r].channel], s.readers[r])])
    case Sweep(at) => Swept(s, at)
  }

  /** The janitor: logs past their hour go, then every owner without a log goes. */
  function Swept(s: State, at: Instant): State {
    var kept := YoungLogs(s.logs, at);
    s.(logs := kept, owners := OwnersOf(s.owners, kept), channels := AllClosed(s.channels, OldSenders(s.logs, at)))
  }

  function YoungLogs(logs: map<Id, Log>, at: Instant): (r: map<Id, Log>)
    ensures forall id :: id in r <==> id in logs && Young(logs[id], at)
    ensures forall id :: id in r ==> r[id] == logs[id]
  {
    map id | id in logs && Young(logs[id], at) :: logs[id]
  }

  function OldSenders(logs: map<Id, Log>, at: Instant): (r: set<nat>)
    ensures forall c :: c in r <==> exists id :: id in logs && !Young(logs[id], at) && logs[id].sender == c
  {
    set id | id in logs && !Young(logs[id], at) :: logs[id].sender
  }

  function OwnersOf(owners: map<Id, User>, logs: map<Id, Log>): (r: map<Id, User>)
    ensures forall id :: id in r <==> id in owners && id in logs
    ensures forall id :: id in r ==> r[id] == owners[id]
  {
    map id | id in owners && id in logs :: owners[id]
  }

  function AllClosed(channels: seq<Channel>, dropped: set<nat>): (r: seq<Channel>)
    ensures |r| == |channels|
    ensures forall c :: 0 <= c < |r| ==> r[c] == if c in dropped then channels[c].(open := false) else channels[c]
  {
    seq(|channels|, c requires 0 <= c < |channels| =>
      if c in dropped then channels[c].(open := false) else channels[c])
  }

  /** `run` is a legal interleaving from `s`, ending in `s'`. */
  ghost predicate Run(s: State, run: seq<Action>, s': State)
    decreases |run|
  {
    if run == [] then s == s'
    else Enabled(s, run[0]) && Run(Apply(s, run[0]), run[1..], s')
  }

  ghost predicate Reachable(run: seq<Action>, s: State) {
    Run(EMPTY, run, s)
  }

  // ------------------------------------------------------------- the invariant

  ghost predicate LogOk(s: State, id: Id)
    requires id in s.logs
  {
    var log := s.logs[id];
    && log.sender < |s.channels| && s.channels[log.sender].open
    && log.history == s.channels[log.sender].sent
    && id in s.owners && s.owners[id] == s.channels[log.sender].registrant
  }

  /**
    What a reader has shown is the channel's steps up to its place, unless it ever lagged, in which case steps
    are missing.
   */
  ghost predicate ReaderOk(s: State, r: Reader) {
    && r.channel < |s.channels|
    && var c := s.channels[r.channel];
       && r.next <= |c.sent| && r.user == c.registrant
       && (!r.lagged ==> r.shown == c.sent[..r.next])
       && (r.lagged ==> |r.shown| < r.next)
       && (r.ended ==> !c.open && r.next == |c.sent|)
  }

  ghost predicate Inv(s: State) {
    && (forall id :: id in s.logs ==> LogOk(s, id))
    && (forall i, j :: i in s.logs && j in s.logs && s.logs[i].sender == s.logs[j].sender ==> i == j)
    && (forall k :: 0 <= k < |s.readers| ==> ReaderOk(s, s.readers[k]))
    && (forall c :: 0 <= c < |s.channels| ==> s.channels[c].capacity > 0)
    && (forall c :: 0 <= c < |s.channels| && s.channels[c].open ==> exists id :: id in s.logs && s.logs[id].sender == c)
  }

  lemma RemovalOthers(s: State, id: Id)
    requires Inv(s)
    ensures var t := WithoutLog(s, id);
            && (forall i :: i in t.logs ==> LogOk(t, i))
            && (forall k :: 0 <= k < |t.readers| ==> ReaderOk(t, t.readers[k]))
  {
    var t := WithoutLog(s, id);
    forall i | i in t.logs ensures LogOk(t, i) {
      assert LogOk(s, i);
    }
    forall k | 0 <= k < |t.readers| ensures ReaderOk(t, t.readers[k]) {
      assert ReaderOk(s, s.readers[k]);
    }
  }

  lemma RemovalChannel(s: State, id: Id, c: nat)
    requires Inv(s) && c < |WithoutLog(s, id).channels| && WithoutLog(s, id).channels[c].open
    ensures exists i :: i in WithoutLog(s, id).logs && WithoutLog(s, id).logs[i].sender == c
  {
    var i :| i in s.logs && s.logs[i].sender == c;
    assert i in WithoutLog(s, id).logs;
  }

  lemma RemovalInv(s: State, id: Id)
    requires Inv(s)
    ensures Inv(WithoutLog(s, id)) && id !in WithoutLog(s, id).logs
  {
    hide LogOk, ReaderOk;
    var t := WithoutLog(s, id);
    RemovalOthers(s, id);
    forall c | 0 <= c < |t.channels| && t.channels[c].open ensures exists i :: i in t.logs && t.logs[i].sender == c {
      RemovalChannel(s, id, c);
    }
  }

  lemma NewLogOk(t: State, id: Id, owner: User, capacity: nat, i: Id)
    requires Inv(t) && id !in t.logs && i in WithLog(t, id, owner, capacity).logs
    ensures LogOk(WithLog(t, id, owner, capacity), i)
    ensures i != id ==> WithLog(t, id, owner, capacity).logs[i].sender < |t.channels|
  {
    if i != id {
      assert LogOk(t, i);
    }
  }

  lemma NewLogChannels(t: State, id: Id, owner: User, capacity: nat, c: nat)
    requires Inv(t) && id !in t.logs && c <= |t.channels|
    ensures var s := WithLog(t, id, owner, capacity);
            s.channels[c].open ==> exists i :: i in s.logs && s.logs[i].sender == c
  {
    var s := WithLog(t, id, owner, capacity);
    if c < |t.channels| && s.channels[c].open {
      var i :| i in t.logs && t.logs[i].sender == c;
      assert i in s.logs && s.logs[i].sender == c;
    } else if c == |t.channels| {
      assert id in s.logs && s.logs[id].sender == c;
    }
  }

  lemma NewLogInv(t: State, id: Id, owner: User, capacity: nat)
    requires Inv(t) && id !in t.logs && capacity > 0
    ensures Inv(WithLog(t, id, owner, capacity))
  {
    var s := WithLog(t, id, owner, capacity);
    forall i | i in s.logs ensures LogOk(s, i) && (i != id ==> s.logs[i].sender < |t.channels|) {
      NewLogOk(t, id, owner, capacity, i);
    }
    forall k | 0 <= k < |s.readers| ensures ReaderOk(s, s.readers[k]) {
      assert ReaderOk(t, t.readers[k]);
    }
    forall c | 0 <= c < |s.channels| && s.channels[c].open ensures exists i :: i in s.logs && s.logs[i].sender == c {
      NewLogChannels(t, id, owner, capacity, c);
    }
  }

  lemma RegisterInv(s: State, id: Id, owner: User, capacity: nat)
    requires Inv(s) && capacity > 0
    ensures Inv(Apply(s, Register(id, owner, capacity)))
  {
    hide Inv;
    RemovalInv(s, id);
    NewLogInv(WithoutLog(s, id), id, owner, capacity);
  }

  lemma EmitInv(s: State, id: Id, step: ProvisionStep)
    requires Inv(s)
    ensures Inv(Apply(s, Emit(id, step)))
  {
    var s' := Apply(s, Emit(id, step));
    if id in s.logs {
      assert LogOk(s, id);
      forall i | i in s'.logs ensures LogOk(s', i) {
        assert LogOk(s, i);
      }
      forall k | 0 <= k < |s'.readers| ensures ReaderOk(s', s'.readers[k]) {
        assert ReaderOk(s, s.readers[k]);
      }
      forall c | 0 <= c < |s'.channels| && s'.channels[c].open
        ensures exists i :: i in s'.logs && s'.logs[i].sender == c
      {
        assert s.channels[c].open;
        var i :| i in s.logs && s.logs[i].sender == c;
        assert i in s'.logs && s'.logs[i].sender == c;
      }
    }
  }

  /** A sweep closes the channels of the logs it drops and touches nothing else of any channel. */
  lemma SweptChannels(s: State, at: Instant)
    requires Inv(s)
    ensures var s' := Swept(s, at);
      && |s'.channels| == |s.channels|
      && (forall c :: 0 <= c < |s.channels| ==> s'.channels[c] == s.channels[c].(open := s'.channels[c].open))
      && (forall i :: i in s'.logs ==> LogOk(s, i) && s'.channels[s'.logs[i].sender].open)
      && (forall c :: 0 <= c < |s'.channels| && s'.channels[c].open ==>
            s.channels[c].open && exists i :: i in s'.logs && s'.logs[i].sender == c)
  {
    var s' := Swept(s, at);
    forall i | i in s'.logs ensures LogOk(s, i) && s'.channels[s'.logs[i].sender].open {
      assert LogOk(s, i);
    }
    forall c | 0 <= c < |s'.channels| && s'.channels[c].open
      ensures s.channels[c].open && exists i :: i in s'.logs && s'.logs[i].sender == c
    {
      assert s.channels[c].open;
      var i :| i in s.logs && s.logs[i].sender == c;
      assert i in s'.logs;
    }
  }

  lemma SweptLog(s: State, at: Instant, i: Id)
    requires Inv(s) && i in Swept(s, at).logs
    ensures LogOk(Swept(s, at), i)
  {
    SweptChannels(s, at);
  }

  lemma SweptReader(s: State, at: Instant, k: nat)
    requires Inv(s) && k < |s.readers|
    ensures ReaderOk(Swept(s, at), s.readers[k])
  {
    assert ReaderOk(s, s.readers[k]);
    SweptChannels(s, at);
    var c, c' := s.channels[s.readers[k].channel], Swept(s, at).channels[s.readers[k].channel];
    assert c'.sent == c.sent;
  }

  lemma SweepInv(s: State, at: Instant)
    requires Inv(s)
    ensures Inv(Swept(s, at))
  {
    var s' := Swept(s, at);
    SweptChannels(s, at);
    forall i | i in s'.logs ensures LogOk(s', i) {
      SweptLog(s, at, i);
    }
    forall k | 0 <= k < |s'.readers| ensures ReaderOk(s', s'.readers[k]) {
      SweptReader(s, at, k);
    }
    assert s'.logs.Keys <= s.logs.Keys;
    assert forall i :: i in s'.logs ==> s'.logs[i] == s.logs[i];
  }

  /** A state that differs from a good one in its readers only, all of them good. */
  lemma NewReaders(s: State, s': State)
    requires Inv(s) && s' == s.(readers := s'.readers)
    requires forall k :: 0 <= k < |s'.readers| ==> ReaderOk(s, s'.readers[k])
    ensures Inv(s')
  {
    assert forall id :: id in s.logs ==> LogOk(s, id) && LogOk(s', id);
    assert forall k :: 0 <= k < |s'.readers| ==> ReaderOk(s', s'.readers[k]);
  }

  lemma OpenInv(s: State, a: Action)
    requires Inv(s) && Enabled(s, a) && a.Open?
    ensures Inv(Apply(s, a))
  {
    var s' := Apply(s, a);
    forall k | 0 <= k < |s'.readers| ensures ReaderOk(s, s'.readers[k]) {
      if k < |s.readers| {
        assert ReaderOk(s, s.readers[k]);
      } else {
        assert LogOk(s, a.id);
        var c := s.channels[s'.readers[k].channel];
        assert c.sent[..|c.sent|] == c.sent;
      }
    }
    NewReaders(s, s');
  }

  lemma ReceiveInv(s: State, a: Action)
    requires Inv(s) && Enabled(s, a) && a.Receive?
    ensures Inv(Apply(s, a))
  {
    var s' := Apply(s, a);
    forall k | 0 <= k < |s'.readers| ensures ReaderOk(s, s'.readers[k]) {
      assert ReaderOk(s, s.readers[k]);
      if a == Receive(k) && s.readers[k].next < |s.channels[s.readers[k].channel].sent| {
        var r, c := s.readers[k], s.channels[s.readers[k].channel];
        assert c.sent[..r.next] + [c.sent[r.next]] == c.sent[..r.next + 1];
      }
    }
    NewReaders(s, s');
  }

  lemma StepInv(s: State, a: Action)
    requires Inv(s) && Enabled(s, a)
    ensures Inv(Apply(s, a))
  {
    match a
    case Tick(_) =>
      assert forall id :: id in s.logs ==> LogOk(s, id) && LogOk(Apply(s, a), id);
      assert forall k :: 0 <= k < |s.readers| ==> ReaderOk(s, s.readers[k]) && ReaderOk(Apply(s, a), s.readers[k]);
    case Register(id, owner, capacity) => RegisterInv(s, id, owner, capacity);
    case Forget(id) =>
      RemovalInv(s, id);
      var t, s' := WithoutLog(s, id), Apply(s, a);
      assert forall i :: i in t.logs ==> LogOk(t, i) && LogOk(s', i);
      assert forall k :: 0 <= k < |t.readers| ==> ReaderOk(t, t.readers[k]) && ReaderOk(s', s'.readers[k]);
    case Retire(id) => RemovalInv(s, id);
    case Emit(id, step) => EmitInv(s, id, step);
    case Open(_, _) => OpenInv(s, a);
    case Receive(_) => ReceiveInv(s, a);
    case Sweep(at) => SweepInv(s, at);
  }

  lemma {:induction false} RunInv(s: State, run: seq<Action>, s': State)
    requires Inv(s) && Run(s, run, s')
    ensures Inv(s')
    decreases |run|
  {
    if run != [] {
      StepInv(s, run[0]);
      RunInv(Apply(s, run[0]), run[1..], s');
    }
  }

  lemma ReachableInv(run: seq<Action>, s: State)
    requires Reachable(run, s)
    ensures Inv(s)
  {
    RunInv(EMPTY, run, s);
  }

  // ------------------------------------------------------------------ streaming

  /** The reader is further behind than the ring keeps. */
  predicate Behind(s: State, k: nat) {
    && k < |s.readers| && s.readers[k].channel < |s.channels|
    && |s.channels[s.readers[k].channel].sent| - s.readers[k].next > s.channels[s.readers[k].channel].capacity
  }

  /** Somewhere along the run the reader receives while it is behind. */
  ghost predicate ReceivesBehind(s: State, run: seq<Action>, k: nat)
    decreases |run|
  {
    && run != [] && Enabled(s, run[0])
    && ((run[0] == Receive(k) && Behind(s, k)) || ReceivesBehind(Apply(s, run[0]), run[1..], k))
  }

  /** A step makes a reader lag iff it is a receive further behind than the ring's size. */
  lemma LagsOnlyBeyondCapacity(s: State, a: Action, k: nat)
    requires Inv(s) && Enabled(s, a) && k < |s.readers|
    ensures k < |Apply(s, a).readers|
    ensures Apply(s, a).readers[k].lagged <==> s.readers[k].lagged || (a == Receive(k) && Behind(s, k))
  {
    assert ReaderOk(s, s.readers[k]);
    if a.Open? && a.id in s.logs {
      assert LogOk(s, a.id);
    }
  }

  lemma {:induction false} LagsIff(s: State, run: seq<Action>, s': State, k: nat)
    requires Inv(s) && Run(s, run, s') && k < |s'.readers|
    ensures s'.readers[k].lagged <==> (k < |s.readers| && s.readers[k].lagged) || ReceivesBehind(s, run, k)
    decreases |run|
  {
    hide Inv, Behind;
    if run != [] {
      var t := Apply(s, run[0]);
      StepInv(s, run[0]);
      LagsIff(t, run[1..], s', k);
      if k < |s.readers| {
        LagsOnlyBeyondCapacity(s, run[0], k);
      } else {
        NewReaderNeverBehind(s, run[0], k);
      }
    }
  }

  lemma NewReaderNeverBehind(s: State, a: Action, k: nat)
    requires Inv(s) && Enabled(s, a) && |s.readers| <= k
    ensures k < |Apply(s, a).readers| ==> !Apply(s, a).readers[k].lagged
    ensures !(a == Receive(k) && Behind(s, k))
  {
    if a.Open? && a.id in s.logs {
      assert LogOk(s, a.id);
    }
  }

  /**
    In every reachable state a reader's output is the log's steps, first to last, up to its place — nothing
    missing, nothing twice — exactly when it never received while further behind than its channel's capacity;
    once its stream has ended, that output is the whole log on the same condition.
   */
  lemma NoGapNoRepeat(run: seq<Action>, s: State, k: nat)
    requires Reachable(run, s) && k < |s.readers|
    ensures s.readers[k].channel < |s.channels|
    ensures var r, c := s.readers[k], s.channels[s.readers[k].channel];
            && r.next <= |c.sent|
            && (r.shown == c.sent[..r.next] <==> !ReceivesBehind(EMPTY, run, k))
            && (r.ended ==> !c.open && (r.shown == c.sent <==> !ReceivesBehind(EMPTY, run, k)))
  {
    hide ReceivesBehind;
    ReachableInv(run, s);
    LagsIff(EMPTY, run, s, k);
    assert ReaderOk(s, s.readers[k]);
    var r, c := s.readers[k], s.channels[s.readers[k].channel];
    assert r.next == |c.sent| ==> c.sent[..r.next] == c.sent;
  }

  /**
    A step emitted while the log is live goes on the end of its history and of its channel; afterwards it goes
    nowhere.
   */
  lemma EmitReaches(s: State, id: Id, step: ProvisionStep)
    requires Inv(s)
    ensures id in s.logs ==>
      var s' := Apply(s, Emit(id, step));
      && id in s'.logs && s'.logs[id].sender == s.logs[id].sender < |s.channels|
      && s'.channels[s.logs[id].sender].sent == s.channels[s.logs[id].sender].sent + [step]
      && (forall i :: i in s.logs && i != id ==> s'.logs[i] == s.logs[i])
      && (forall c :: 0 <= c < |s.channels| && c != s.logs[id].sender ==> s'.channels[c] == s.channels[c])
    ensures id !in s.logs ==> Apply(s, Emit(id, step)) == s
  {
    if id in s.logs {
      assert LogOk(s, id);
    }
  }

  /** However the entry goes — remove, forget, re-registration, sweep — its readers' channel closes with it. */
  lemma RemovalEndsStream(s: State, a: Action, id: Id)
    requires Inv(s) && Enabled(s, a) && id in s.logs
    ensures s.logs[id].sender < |s.channels| <= |Apply(s, a).channels|
    ensures var s' := Apply(s, a);
            id !in s'.logs || s'.logs[id].sender != s.logs[id].sender ==> !s'.channels[s.logs[id].sender].open
  {
    assert LogOk(s, id);
    if a.Register? || a.Forget? || a.Retire? {
      RemovalInv(s, a.id);
    }
  }

  /** A closed channel is never opened again, and nothing more is ever sent on it. */
  lemma {:induction false} ClosedForever(s: State, run: seq<Action>, s': State, c: nat)
    requires Inv(s) && Run(s, run, s') && c < |s.channels| && !s.channels[c].open
    ensures c < |s'.channels| && s'.channels[c] == s.channels[c]
    decreases |run|
  {
    if run != [] {
      ClosedStep(s, run[0], c);
      StepInv(s, run[0]);
      ClosedForever(Apply(s, run[0]), run[1..], s', c);
    }
  }

  lemma ClosedStep(s: State, a: Action, c: nat)
    requires Inv(s) && Enabled(s, a) && c < |s.channels| && !s.channels[c].open
    ensures c < |Apply(s, a).channels| && Apply(s, a).channels[c] == s.channels[c]
  {
    forall id | id in s.logs ensures s.logs[id].sender != c {
      assert LogOk(s, id);
    }
  }

  /** A reader after `n` receives on an unchanging channel. */
  function Drained(c: Channel, r: Reader, n: nat): Reader
    decreases n
  {
    if n == 0 then r else Drained(c, Received(c, r), n - 1)
  }

  function Receives(run: seq<Action>, k: nat): nat {
    if run == [] then 0 else (if run[0] == Receive(k) then 1 else 0) + Receives(run[1..], k)
  }

  /** On a closed channel only the reader's own receives matter to it, whatever else the run does. */
  lemma {:induction false} ReaderDrains(s: State, run: seq<Action>, s': State, k: nat)
    requires Inv(s) && Run(s, run, s') && k < |s.readers|
    requires s.readers[k].channel < |s.channels| && !s.channels[s.readers[k].channel].open
    ensures k < |s'.readers|
    ensures s'.readers[k] == Drained(s.channels[s.readers[k].channel], s.readers[k], Receives(run, k))
    decreases |run|
  {
    hide Inv;
    if run != [] {
      ClosedStep(s, run[0], s.readers[k].channel);
      StepInv(s, run[0]);
      ReaderDrains(Apply(s, run[0]), run[1..], s', k);
    }
  }

  /** Receives until a reader of a closed channel has ended: what the ring still has for it, and two notices at most. */
  function ReceivesToEnd(c: Channel, r: Reader): nat
    requires r.next <= |c.sent|
  {
    var left := |c.sent| - r.next;
    if left <= c.capacity then left + 1 else c.capacity + 2
  }

  /** What such a reader has shown by then: all that is left, or the last `capacity` steps if it was further behind. */
  function ShownAtEnd(c: Channel, r: Reader): seq<ProvisionStep>
    requires r.next <= |c.sent|
  {
    r.shown + if |c.sent| - r.next <= c.capacity then c.sent[r.next..] else c.sent[|c.sent| - c.capacity..]
  }

  lemma {:induction false} DrainsWithinCapacity(c: Channel, r: Reader, n: nat)
    requires !c.open && r.next <= |c.sent| && |c.sent| - r.next <= c.capacity && n > |c.sent| - r.next
    ensures var d := Drained(c, r, n);
            d.ended && d.next == |c.sent| && d.lagged == r.lagged && d.shown == r.shown + c.sent[r.next..]
    decreases n
  {
    var r' := Received(c, r);
    if r.next == |c.sent| {
      assert r.shown + c.sent[r.next..] == r.shown;
      if n > 1 {
        DrainsWithinCapacity(c, r', n - 1);
        assert r'.shown + c.sent[r'.next..] == r'.shown;
      }
    } else {
      DrainsWithinCapacity(c, r', n - 1);
      assert r'.shown + c.sent[r'.next..] == r.shown + c.sent[r.next..];
    }
  }

  /** On a closed channel every reader ends, however far behind it is. */
  lemma ClosedStreamEnds(c: Channel, r: Reader, n: nat)
    requires !c.open && r.next <= |c.sent| && n >= ReceivesToEnd(c, r)
    ensures var d := Drained(c, r, n); d.ended && d.next == |c.sent| && d.shown == ShownAtEnd(c, r)
    ensures Drained(c, r, n).lagged <==> r.lagged || |c.sent| - r.next > c.capacity
  {
    if |c.sent| - r.next <= c.capacity {
      DrainsWithinCapacity(c, r, n);
    } else {
      DrainsWithinCapacity(c, Received(c, r), n - 1);
    }
  }

  /**
    In any run after its log is gone, a reader that makes enough receives has ended: with the whole log if it
    never received while behind, and otherwise with the last steps the ring kept.
   */
  lemma RemovedStreamEnds(s: State, run: seq<Action>, s': State, k: nat)
    requires Inv(s) && Run(s, run, s') && k < |s.readers|
    requires s.readers[k].channel < |s.channels| && !s.channels[s.readers[k].channel].open
    requires s.readers[k].next <= |s.channels[s.readers[k].channel].sent|
    requires Receives(run, k) >= ReceivesToEnd(s.channels[s.readers[k].channel], s.readers[k])
    ensures k < |s'.readers| && s'.readers[k].ended
    ensures s'.readers[k].shown == ShownAtEnd(s.channels[s.readers[k].channel], s.readers[k])
  {
    ReaderDrains(s, run, s', k);
    ClosedStreamEnds(s.channels[s.readers[k].channel], s.readers[k], Receives(run, k));
  }

  // ------------------------------------------------------------------ ownership

  /** In every reachable state a log opens for a caller exactly when it is live and that caller registered it. */
  lemma OpensOnlyForRegistrant(run: seq<Action>, s: State, id: Id, caller: User)
    requires Reachable(run, s)
    ensures Opened(s, id, caller).Some? <==>
            id in s.logs && s.logs[id].sender < |s.channels| && s.channels[s.logs[id].sender].registrant == caller
    ensures id in s.logs ==> id in s.owners
    ensures forall k :: 0 <= k < |s.readers| ==>
              s.readers[k].channel < |s.channels| && s.channels[s.readers[k].channel].registrant == s.readers[k].user
  {
    ReachableInv(run, s);
    if id in s.logs {
      assert LogOk(s, id);
    }
    forall k | 0 <= k < |s.readers|
      ensures s.readers[k].channel < |s.channels| && s.channels[s.readers[k].channel].registrant == s.readers[k].user
    {
      assert ReaderOk(s, s.readers[k]);
    }
  }

  // ------------------------------------------------------------------ lifetimes

  /** The clock after a run. */
  function Elapsed(run: seq<Action>): Instant {
    if run == [] then 0
    else Elapsed(run[..|run| - 1]) + match run[|run| - 1] case Tick(n) => n case _ => 0
  }

  /** The steps that a run's jobs emit to `id`, in order. */
  function EmittedTo(run: seq<Action>, id: Id): seq<ProvisionStep> {
    if run == [] then [] else EmittedTo(run[..|run| - 1], id) + StepTo(run[|run| - 1], id)
  }

  function StepTo(a: Action, id: Id): seq<ProvisionStep> {
    if a.Emit? && a.id == id then [a.step] else []
  }

  /** An action that does not end a log registered at `t`: no removal of it, and no sweep an hour later or more. */
  predicate Spares(a: Action, id: Id, t: Instant) {
    match a
    case Register(i, _, _) => i != id
    case Forget(i) => i != id
    case Retire(i) => i != id
    case Sweep(at) => at < t + 3_600_000_000_000
    case _ => true
  }

  /** Action `k` registers `id`, and nothing after it ends that log. */
  ghost predicate LiveSince(run: seq<Action>, id: Id, k: nat) {
    && k < |run| && run[k].Register? && run[k].id == id
    && forall j :: k < j < |run| ==> Spares(run[j], id, Elapsed(run[..k]))
  }

  /** The log of `id` is the one registered by action `k`: its clock, its owner, its capacity, and its steps since. */
  ghost predicate IsLogOf(run: seq<Action>, s: State, id: Id, k: nat)
    requires k < |run| && run[k].Register?
  {
    && id in s.logs && s.logs[id].created == Elapsed(run[..k])
    && s.logs[id].history == EmittedTo(run[k + 1..], id)
    && id in s.owners && s.owners[id] == run[k].owner
    && s.logs[id].sender < |s.channels|
    && var c := s.channels[s.logs[id].sender];
       c.open && c.capacity == run[k].capacity && c.registrant == run[k].owner && c.sent == s.logs[id].history
  }

  lemma {:induction false} LastAction(s: State, run: seq<Action>, s': State) returns (t: State)
    requires Run(s, run, s') && run != []
    ensures Run(s, run[..|run| - 1], t) && Enabled(t, run[|run| - 1]) && s' == Apply(t, run[|run| - 1])
    decreases |run|
  {
    hide Apply, Enabled;
    if |run| == 1 {
      t := s;
      assert run[..0] == [] && run[1..] == [];
    } else {
      t := LastAction(Apply(s, run[0]), run[1..], s');
      assert run[1..][..|run| - 2] == run[..|run| - 1][1..];
    }
  }

  lemma {:induction false} ClockIsElapsed(run: seq<Action>, s: State)
    requires Reachable(run, s)
    ensures s.now == Elapsed(run)
    decreases |run|
  {
    if run != [] {
      var t := LastAction(EMPTY, run, s);
      ClockIsElapsed(run[..|run| - 1], t);
    }
  }

  /** A step that spares a log leaves all that it is. */
  lemma SparedStep(run: seq<Action>, t: State, a: Action, id: Id, k: nat)
    requires Inv(t) && Enabled(t, a) && k < |run| && run[k].Register? && IsLogOf(run, t, id, k)
    requires Spares(a, id, Elapsed(run[..k]))
    ensures IsLogOf(run + [a], Apply(t, a), id, k)
  {
    hide Inv, Elapsed, Apply, Enabled, Spares, EmittedTo, StepTo;
    var all := run + [a];
    assert all[..k] == run[..k];
    assert all[k + 1..] == run[k + 1..] + [a];
    EmittedOneMore(run[k + 1..], a, id);
    SparedLog(t, a, id, Elapsed(run[..k]));
  }

  lemma EmittedOneMore(run: seq<Action>, a: Action, id: Id)
    ensures EmittedTo(run + [a], id) == EmittedTo(run, id) + StepTo(a, id)
  {
    assert (run + [a])[..|run|] == run;
  }

  lemma SparedLog(t: State, a: Action, id: Id, created: Instant)
    requires Inv(t) && Enabled(t, a) && id in t.logs && t.logs[id].created == created && Spares(a, id, created)
    ensures var s := Apply(t, a); var log := t.logs[id];
      && id in s.logs && id in s.owners && id in t.owners && s.owners[id] == t.owners[id]
      && log.sender < |t.channels| && log.sender < |s.channels|
      && var more, c := StepTo(a, id), t.channels[log.sender];
         s.logs[id] == log.(history := log.history + more) && s.channels[log.sender] == c.(sent := c.sent + more)
  {
    assert LogOk(t, id);
    var c := t.channels[t.logs[id].sender];
    assert t.logs[id].history + [] == t.logs[id].history && c.sent + [] == c.sent;
  }

  lemma {:induction false} SparedLives(run: seq<Action>, s: State, id: Id, k: nat)
    requires Reachable(run, s) && LiveSince(run, id, k)
    ensures IsLogOf(run, s, id, k)
    decreases |run|
  {
    hide Inv, Spares, Elapsed, EmittedTo;
    var n := |run| - 1;
    var t := LastAction(EMPTY, run, s);
    assert run == run[..n] + [run[n]];
    if k == n {
      ClockIsElapsed(run[..n], t);
      NothingEmitted(id);
      assert run[k + 1..] == [];
    } else {
      assert run[..n][..k] == run[..k];
      SparedLives(run[..n], t, id, k);
      ReachableInv(run[..n], t);
      SparedStep(run[..n], t, run[n], id, k);
    }
  }

  lemma NothingEmitted(id: Id)
    ensures EmittedTo([], id) == []
  {
  }

  /** Only a registration brings a log, and only a log that was spared is left. */
  lemma LeftWasThere(t: State, a: Action, id: Id)
    requires Inv(t) && Enabled(t, a) && id in Apply(t, a).logs && !(a.Register? && a.id == id)
    ensures id in t.logs && Spares(a, id, t.logs[id].created)
  {
  }

  lemma {:induction false} LivesSinceRegistration(run: seq<Action>, s: State, id: Id) returns (k: nat)
    requires Reachable(run, s) && id in s.logs
    ensures LiveSince(run, id, k)
    decreases |run|
  {
    hide Inv, Spares, Elapsed, Apply;
    var n := |run| - 1;
    var t := LastAction(EMPTY, run, s);
    if run[n].Register? && run[n].id == id {
      k := n;
    } else {
      ReachableInv(run[..n], t);
      LeftWasThere(t, run[n], id);
      k := LivesSinceRegistration(run[..n], t, id);
      SparedLives(run[..n], t, id, k);
      assert run[..n][..k] == run[..k];
      forall j | k < j < |run| ensures Spares(run[j], id, Elapsed(run[..k])) {
        assert j < n ==> run[..n][j] == run[j];
      }
    }
  }

  /**
    The lifetime of a log, over every run: it is live exactly when some registration of its id was followed by no
    other removal or registration of it and by no sweep at an instant an hour past that registration or later.
    It is then that registration's log, with its clock, owner and capacity and every step emitted since, and
    opens for that owner and for nobody else.
   */
  lemma LiveIff(run: seq<Action>, s: State, id: Id, caller: User)
    requires Reachable(run, s)
    ensures id in s.logs <==> exists k: nat :: LiveSince(run, id, k)
    ensures forall k: nat :: LiveSince(run, id, k) ==>
              IsLogOf(run, s, id, k) && (Opened(s, id, caller).Some? <==> caller == run[k].owner)
  {
    hide Run, LiveSince, IsLogOf, Opened;
    if id in s.logs {
      var _ := LivesSinceRegistration(run, s, id);
    }
    forall k: nat | LiveSince(run, id, k)
      ensures k < |run| && run[k].Register? && IsLogOf(run, s, id, k) && id in s.logs
      ensures Opened(s, id, caller).Some? <==> caller == run[k].owner
    {
      assert k < |run| && run[k].Register? by { IsRegistration(run, id, k); }
      SparedLives(run, s, id, k);
      OpensForOwner(run, s, id, k, caller);
    }
  }

  lemma IsRegistration(run: seq<Action>, id: Id, k: nat)
    requires LiveSince(run, id, k)
    ensures k < |run| && run[k].Register?
  {
  }

  lemma OpensForOwner(run: seq<Action>, s: State, id: Id, k: nat, caller: User)
    requires k < |run| && run[k].Register? && IsLogOf(run, s, id, k)
    ensures id in s.logs && (Opened(s, id, caller).Some? <==> caller == run[k].owner)
  {
  }

  /**
    A sweep keeps exactly the logs younger than an hour, each unchanged and still its owner's, and leaves no
    other owner.
   */
  lemma SweepStrandsNothing(run: seq<Action>, s: State, at: Instant, id: Id)
    requires Reachable(run, s) && at <= s.now
    ensures var s' := Swept(s, at);
      && s' == Apply(s, Sweep(at)) && s'.owners.Keys == s'.logs.Keys
      && (id in s'.logs <==> id in s.logs && at < s.logs[id].created + 3_600_000_000_000)
      && (id in s'.logs ==>
            && s'.logs[id] == s.logs[id] && id in s.owners && s'.owners[id] == s.owners[id]
            && s'.logs[id].sender < |s'.channels| && s'.channels[s'.logs[id].sender].open)
  {
    hide Inv, LogOk, AllClosed, OldSenders, Run;
    ReachableInv(run, s);
    SweepKeys(s, at);
    if id in Swept(s, at).logs {
      SweptLogKept(s, at, id);
    }
  }

  lemma SweptLogKept(s: State, at: Instant, id: Id)
    requires Inv(s) && id in Swept(s, at).logs
    ensures id in s.owners && Swept(s, at).owners[id] == s.owners[id]
    ensures var s' := Swept(s, at); s'.logs[id].sender < |s'.channels| && s'.channels[s'.logs[id].sender].open
  {
    assert LogOk(s, id);
    hide Inv, AllClosed, OldSenders;
    SweptLog(s, at, id);
  }

  lemma SweepKeys(s: State, at: Instant)
    requires Inv(s)
    ensures Swept(s, at).owners.Keys == Swept(s, at).logs.Keys
  {
    forall id | id in s.logs ensures id in s.owners {
      assert LogOk(s, id);
    }
  }

  /** What a sweep leaves, entry by entry. */
  lemma SweptMeans(s: State, at: Instant)
    requires Inv(s) && at <= s.now
    ensures var s' := Swept(s, at);
            && (forall id :: id in s'.logs <==> id in s.logs && at < s.logs[id].created + 3_600_000_000_000)
            && (forall id :: id in s'.logs ==>
                  s'.logs[id] == s.logs[id] && id in s'.owners && s'.owners[id] == s.owners[id])
            && s'.owners.Keys == s'.logs.Keys && |s'.channels| == |s.channels|
            && (forall c :: 0 <= c < |s'.channels| ==>
                  && s'.channels[c].sent == s.channels[c].sent
                  && (s'.channels[c].open <==> exists id :: id in s'.logs && s'.logs[id].sender == c))
  {
    hide Inv, AllClosed, OldSenders, LogOk;
    SweepKeys(s, at);
    SweptChannels(s, at);
    forall id | id in Swept(s, at).logs ensures id in s.owners && Swept(s, at).owners[id] == s.owners[id] {
      SweptLogKept(s, at, id);
    }
  }

  // ----------------------------------------------------------- the shared maps

  /** The two maps and the channels behind them, updated in place. */
  class ProvisionTables {
    var now: Instant
    var logs: map<Id, Log>
    var owners: map<Id, User>
    var channels: seq<Channel>
    var readers: seq<Reader>

    ghost function Abstract(): State
      reads this
    {
      State(now, logs, owners, channels, readers)
    }

    constructor ()
      ensures Abstract() == EMPTY && Reachable([], Abstract())
    {
      now, logs, owners, channels, readers := 0, map[], map[], [], [];
    }

    /** The map's own drop of a replaced or removed entry. */
    method DropEntry(id: Id)
      modifies this`logs, this`channels
      ensures Abstract() == WithoutLog(old(Abstract()), id)
    {
      if id in logs {
        channels := Closed(channels, logs[id].sender);
        logs := logs - {id};
      }
    }

    method RegisterProvisionLog(id: Id, owner: User, capacity: nat)
      requires capacity > 0
      modifies this
      ensures Abstract() == Apply(old(Abstract()), Register(id, owner, capacity))
      ensures id in logs && logs[id].history == [] && logs[id].created == now == old(now)
      ensures id in owners && owners[id] == owner
      ensures logs[id].sender < |channels| && channels[logs[id].sender] == Channel(capacity, [], true, owner)
    {
      DropEntry(id);
      logs := logs[id := Log([], |channels|, now)];
      channels := channels + [Channel(capacity, [], true, owner)];
      owners := owners[id := owner];
    }

    method ForgetProvisionLog(id: Id)
      modifies this
      ensures Abstract() == Apply(old(Abstract()), Forget(id))
      ensures logs == old(logs) - {id} && owners == old(owners) - {id}
    {
      DropEntry(id);
      owners := owners - {id};
    }

    /** `None` stands for the one 404 given both to strangers and for absent logs. */
    method OpenProvisionLog(id: Id, caller: User) returns (r: Option<Reader>)
      requires Inv(Abstract())
      modifies this`readers
      ensures r == Opened(old(Abstract()), id, caller)
      ensures Abstract() == Apply(old(Abstract()), Open(id, caller))
    {
      var owned := id in owners && owners[id] == caller;
      if id in logs && owned {
        assert LogOk(Abstract(), id);
        var log := logs[id];
        var reader := Reader(caller, log.sender, log.history, |channels[log.sender].sent|, false, false);
        readers := readers + [reader];
        r := Some(reader);
      } else {
        r := None;
      }
    }

    method EmitStep(id: Id, step: ProvisionStep)
      requires Inv(Abstract())
      modifies this`logs, this`channels
      ensures Inv(Abstract()) && Abstract() == Apply(old(Abstract()), Emit(id, step))
    {
      EmitInv(Abstract(), id, step);
      if id in logs {
        assert LogOk(Abstract(), id);
        var log := logs[id];
        channels := channels[log.sender := channels[log.sender].(sent := channels[log.sender].sent + [step])];
        logs := logs[id := log.(history := log.history + [step])];
      }
    }

    /** The janitor's pass over both maps, under both locks. */
    method Sweep(at: Instant)
      requires at <= now && Inv(Abstract())
      modifies this`logs, this`owners, this`channels
      ensures Inv(Abstract()) && Abstract() == Apply(old(Abstract()), Action.Sweep(at))
      ensures forall id :: id in logs <==> id in old(logs) && at < old(logs)[id].created + 3_600_000_000_000
      ensures forall id :: id in logs ==> logs[id] == old(logs)[id] && id in owners && owners[id] == old(owners)[id]
      ensures owners.Keys == logs.Keys && |channels| == |old(channels)|
      ensures forall c :: 0 <= c < |channels| ==>
                && channels[c].sent == old(channels)[c].sent
                && (channels[c].open <==> exists id :: id in logs && logs[id].sender == c)
    {
      hide Inv, AllClosed, OldSenders, YoungLogs, OwnersOf, LogOk;
      SweepInv(Abstract(), at);
      SweptMeans(Abstract(), at);
      RetainYoung(at);
      RetainOwned();
    }

    /** `retain` on the log map: entries are visited once each, in no order. */
    method RetainYoung(at: Instant)
      modifies this`logs, this`channels
      ensures logs == YoungLogs(old(logs), at)
      ensures channels == AllClosed(old(channels), OldSenders(old(logs), at))
    {
      hide AllClosed, OldSenders, YoungLogs, Closed, Young, SendersOf;
      var pending := logs.Keys;
      ghost var gone: set<Id> := {};
      NoneClosed(logs, channels);
      assert logs == old(logs) - gone;
      while pending != {}
        invariant pending <= logs.Keys && gone <= old(logs).Keys && logs == old(logs) - gone
        invariant forall id :: id in logs && id !in pending ==> Young(old(logs)[id], at)
        invariant forall id :: id in gone ==> !Young(old(logs)[id], at)
        invariant channels == AllClosed(old(channels), SendersOf(old(logs), gone))
        decreases |pending|
      {
        var id :| id in pending;
        pending := pending - {id};
        if !Young(logs[id], at) {
          OneMoreClosed(old(logs), old(channels), gone, id);
          channels := Closed(channels, logs[id].sender);
          logs := logs - {id};
          gone := gone + {id};
        }
      }
      OldAreGone(old(logs), at, gone);
    }

    /** `retain` on the owner map. */
    method RetainOwned()
      modifies this`owners
      ensures owners == OwnersOf(old(owners), logs)
    {
      hide OwnersOf;
      var pending := owners.Keys;
      while pending != {}
        invariant pending <= owners.Keys <= old(owners).Keys
        invariant forall id :: id in owners ==> owners[id] == old(owners)[id] && (id in pending || id in logs)
        invariant forall id :: id in old(owners) && id in logs ==> id in owners
        decreases |pending|
      {
        var id :| id in pending;
        pending := pending - {id};
        if id !in logs {
          owners := owners - {id};
        }
      }
      assert owners == OwnersOf(old(owners), logs);
    }
  }

  function SendersOf(logs: map<Id, Log>, ids: set<Id>): set<nat> {
    set id | id in ids && id in logs :: logs[id].sender
  }

  lemma NoneClosed(logs: map<Id, Log>, channels: seq<Channel>)
    ensures AllClosed(channels, SendersOf(logs, {})) == channels
  {
    assert SendersOf(logs, {}) == {};
  }

  lemma OneMoreClosed(logs: map<Id, Log>, channels: seq<Channel>, ids: set<Id>, id: Id)
    requires id in logs
    ensures Closed(AllClosed(channels, SendersOf(logs, ids)), logs[id].sender)
            == AllClosed(channels, SendersOf(logs, ids + {id}))
  {
    assert SendersOf(logs, ids + {id}) == SendersOf(logs, ids) + {logs[id].sender};
  }

  lemma OldAreGone(logs: map<Id, Log>, at: Instant, gone: set<Id>)
    requires forall id :: id in logs ==> (id in gone <==> !Young(logs[id], at))
    ensures logs - gone == YoungLogs(logs, at) && SendersOf(logs, gone) == OldSenders(logs, at)
  {
  }
}
