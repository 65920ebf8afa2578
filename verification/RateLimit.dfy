/**
  The per-server rate limit of the agent routes, and the janitor that evicts its entries.
 */
module RateLimit {
  import opened Text

  type Server = nat
  type Instant = nat   // nanoseconds

  const WINDOW: nat := 60 * 1_000_000_000
  const LIMIT: nat := 120

  datatype Entry = Entry(count: nat, start: Instant)
  type Limits = map<Server, Entry>

  /**
    A call made at `at`, or a janitor pass running at `at` with the clock it read at `clock`, before it got the
    lock.
   */
  datatype Event = Call(server: Server, at: Instant) | Evict(at: Instant, clock: Instant)

  /** What one call got, and the start of the window it was counted in. */
  datatype Outcome = Outcome(server: Server, at: Instant, ok: bool, window: Instant)

  /** `now.duration_since(start)`, saturating at zero. */
  function Elapsed(now: Instant, start: Instant): nat {
    if now < start then 0 else now - start
  }

  function Counted(limits: Limits, server: Server, now: Instant): Entry {
    var e := if server in limits then limits[server] else Entry(0, now);
    if Elapsed(now, e.start) >= WINDOW then Entry(1, now) else Entry(e.count + 1, e.start)
  }

  function Evicted(limits: Limits, clock: Instant): Limits {
    map s | s in limits && Elapsed(clock, limits[s].start) < WINDOW :: limits[s]
  }

  /** The verdicts of all calls among `events`, in order. */
  function Outcomes(limits: Limits, events: seq<Event>): seq<Outcome>
    decreases |events|
  {
    if events == [] then []
    else match events[0]
      case Call(server, at) =>
        var e := Counted(limits, server, at);
        [Outcome(server, at, e.count <= LIMIT, e.start)] + Outcomes(limits[server := e], events[1..])
      case Evict(_, clock) => Outcomes(Evicted(limits, clock), events[1..])
  }

  /** Time does not run backwards, and no clock is read ahead of time. */
  predicate Timely(events: seq<Event>, from: Instant)
    decreases |events|
  {
    events != [] ==>
      && from <= events[0].at
      && (events[0].Evict? ==> events[0].clock <= events[0].at)
      && Timely(events[1..], events[0].at)
  }

  function CallsOnly(events: seq<Event>): seq<Event> {
    if events == [] then [] else (if events[0].Call? then [events[0]] else []) + CallsOnly(events[1..])
  }

  class AgentRateLimits {
    var limits: Limits

    constructor ()
      ensures limits == map[]
    {
      limits := map[];
    }

    method AgentRateLimit(server: Server, now: Instant) returns (ok: bool)
      modifies this
      ensures limits == old(limits)[server := Counted(old(limits), server, now)]
      ensures var afresh := server !in old(limits) || now >= old(limits)[server].start + 60_000_000_000;
              && server in limits && (ok <==> limits[server].count <= 120)
              && limits[server] == if afresh then Entry(1, now)
                                   else Entry(old(limits)[server].count + 1, old(limits)[server].start)
    {
      if server !in limits {
        limits := limits[server := Entry(0, now)];
      }
      var entry := limits[server];
      if Elapsed(now, entry.start) >= WINDOW {
        limits := limits[server := Entry(1, now)];
        return true;
      }
      limits := limits[server := Entry(entry.count + 1, entry.start)];
      ok := entry.count + 1 <= LIMIT;
    }

    /** The janitor's `retain`: entries are visited once each, in no order. */
    method Cleanup(clock: Instant)
      modifies this
      ensures limits == Evicted(old(limits), clock)
      ensures forall s :: s in limits <==> s in old(limits) && clock < old(limits)[s].start + 60_000_000_000
      ensures forall s :: s in limits ==> limits[s] == old(limits)[s]
    {
      var pending := limits.Keys;
      while pending != {}
        invariant pending <= limits.Keys <= old(limits).Keys
        invariant forall s :: s in limits ==> limits[s] == old(limits)[s]
        invariant forall s :: s in limits && s !in pending ==> Elapsed(clock, limits[s].start) < WINDOW
        invariant forall s :: s in old(limits) && s !in limits ==> Elapsed(clock, old(limits)[s].start) >= WINDOW
        decreases |pending|
      {
        var s :| s in pending;
        pending := pending - {s};
        if Elapsed(clock, limits[s].start) >= WINDOW {
          limits := limits - {s};
        }
      }
    }
  }

  // --------------------------------------------------------- the janitor is invisible

  /** `swept` is `full` without some entries that have already run out. */
  ghost predicate SweptFrom(swept: Limits, full: Limits, now: Instant) {
    && (forall s :: s in swept ==> s in full && swept[s] == full[s])
    && (forall s :: s in full && s !in swept ==> full[s].start + WINDOW <= now)
  }

  lemma {:induction false} SweepingChangesNothing(swept: Limits, full: Limits, events: seq<Event>, now: Instant)
    requires SweptFrom(swept, full, now) && Timely(events, now)
    ensures Outcomes(swept, events) == Outcomes(full, CallsOnly(events))
    decreases |events|
  {
    if events != [] {
      var rest, at := events[1..], events[0].at;
      match events[0]
      case Call(server, _) =>
        var e := Counted(full, server, at);
        assert Counted(swept, server, at) == e;
        SweepingChangesNothing(swept[server := e], full[server := e], rest, at);
        assert CallsOnly(events) == [events[0]] + CallsOnly(rest);
        assert ([events[0]] + CallsOnly(rest))[1..] == CallsOnly(rest);
      case Evict(_, clock) =>
        SweepingChangesNothing(Evicted(swept, clock), full, rest, at);
        assert CallsOnly(events) == CallsOnly(rest);
    }
  }

  /** Wherever the janitor's passes fall, every call gets the answer it would get without a janitor. */
  lemma JanitorIsInvisible(events: seq<Event>)
    requires Timely(events, 0)
    ensures Outcomes(map[], events) == Outcomes(map[], CallsOnly(events))
  {
    SweepingChangesNothing(map[], map[], events, 0);
  }

  lemma {:induction false} CallsStayTimely(events: seq<Event>, from: Instant)
    requires Timely(events, from)
    ensures Timely(CallsOnly(events), from)
    ensures forall k :: 0 <= k < |CallsOnly(events)| ==> CallsOnly(events)[k].Call?
    decreases |events|
  {
    if events != [] {
      CallsStayTimely(events[1..], events[0].at);
      var rest := CallsOnly(events[1..]);
      if events[0].Call? {
        assert ([events[0]] + rest)[1..] == rest;
      } else {
        assert CallsOnly(events) == rest;
      }
    }
  }

  // ------------------------------------------------------------------- the bounds

  /** Accepted calls of `server` in the window that began at `w`. */
  function AcceptedInWindow(outs: seq<Outcome>, server: Server, w: Instant): nat {
    if outs == [] then 0
    else (if outs[0].ok && outs[0].server == server && outs[0].window == w then 1 else 0)
         + AcceptedInWindow(outs[1..], server, w)
  }

  /** Accepted calls of `server` in the closed span of sixty seconds from `lo`. */
  function AcceptedInSpan(outs: seq<Outcome>, server: Server, lo: Instant): nat {
    if outs == [] then 0
    else (if outs[0].ok && outs[0].server == server && lo <= outs[0].at <= lo + 60_000_000_000 then 1 else 0)
         + AcceptedInSpan(outs[1..], server, lo)
  }

  predicate Calls(events: seq<Event>) {
    forall k :: 0 <= k < |events| ==> events[k].Call?
  }

  function Used(e: Entry): nat {
    if e.count > LIMIT then LIMIT else e.count
  }

  lemma {:induction false} WindowRoom(limits: Limits, calls: seq<Event>, now: Instant, server: Server, w: Instant)
    requires Timely(calls, now) && Calls(calls)
    requires server in limits ==> limits[server].start <= now
    ensures AcceptedInWindow(Outcomes(limits, calls), server, w) <=
            if server !in limits || limits[server].start < w then LIMIT
            else if limits[server].start == w then LIMIT - Used(limits[server])
            else 0
    decreases |calls|
  {
    if calls != [] {
      var c := calls[0];
      var e := Counted(limits, c.server, c.at);
      assert Calls(calls[1..]);
      WindowRoom(limits[c.server := e], calls[1..], c.at, server, w);
      assert Outcomes(limits, calls)[1..] == Outcomes(limits[c.server := e], calls[1..]);
    }
  }

  lemma {:induction false} NothingAfterSpan(limits: Limits, calls: seq<Event>, now: Instant, server: Server,
      lo: Instant)
    requires Timely(calls, now) && Calls(calls) && now > lo + WINDOW
    ensures AcceptedInSpan(Outcomes(limits, calls), server, lo) == 0
    decreases |calls|
  {
    if calls != [] {
      var c := calls[0];
      var e := Counted(limits, c.server, c.at);
      assert Calls(calls[1..]);
      NothingAfterSpan(limits[c.server := e], calls[1..], c.at, server, lo);
      assert Outcomes(limits, calls)[1..] == Outcomes(limits[c.server := e], calls[1..]);
    }
  }

  /**
    `prev` calls in the span were accepted in the window before the current one, `cur` in the current
    one; a window started after both began has room in the span only if `prev` is zero.
   */
  lemma {:induction false} SpanRoom(limits: Limits, calls: seq<Event>, now: Instant, server: Server, lo: Instant,
      prev: nat, cur: nat)
    requires Timely(calls, now) && Calls(calls)
    requires server !in limits ==> prev == cur == 0
    requires server in limits ==>
      var e := limits[server];
      && e.start <= now && cur <= Used(e) && prev <= LIMIT
      && (cur > 0 ==> lo < e.start + WINDOW) && (prev > 0 ==> lo < e.start)
    ensures prev + cur + AcceptedInSpan(Outcomes(limits, calls), server, lo) <= 2 * LIMIT
    decreases |calls|
  {
    if calls != [] {
      var c, rest := calls[0], calls[1..];
      var e := Counted(limits, c.server, c.at);
      var limits' := limits[c.server := e];
      assert Calls(rest);
      assert Outcomes(limits, calls)[1..] == Outcomes(limits', rest);
      if c.server != server {
        SpanRoom(limits', rest, c.at, server, lo, prev, cur);
      } else if c.at > lo + WINDOW {
        NothingAfterSpan(limits', rest, c.at, server, lo);
      } else {
        var hit := if e.count <= LIMIT && lo <= c.at then 1 else 0;
        if server in limits && e.start != limits[server].start {
          SpanRoom(limits', rest, c.at, server, lo, cur, hit);
        } else {
          SpanRoom(limits', rest, c.at, server, lo, prev, cur + hit);
        }
      }
    }
  }

  /** Over every run, janitor included: at most 120 accepted per window, at most 240 in any sixty seconds. */
  lemma AcceptanceBounds(events: seq<Event>, server: Server, w: Instant)
    requires Timely(events, 0)
    ensures AcceptedInWindow(Outcomes(map[], events), server, w) <= 120
    ensures AcceptedInSpan(Outcomes(map[], events), server, w) <= 240
  {
    JanitorIsInvisible(events);
    CallsStayTimely(events, 0);
    WindowRoom(map[], CallsOnly(events), 0, server, w);
    SpanRoom(map[], CallsOnly(events), 0, server, w, 0, 0);
  }

  function Burst(server: Server, at: Instant, n: nat): seq<Event> {
    if n == 0 then [] else [Call(server, at)] + Burst(server, at, n - 1)
  }

  /** Calls at one instant of an open window pass while there is room. */
  lemma {:induction false} BurstPasses(limits: Limits, server: Server, at: Instant, n: nat, rest: seq<Event>,
      lo: Instant)
    requires server in limits && Elapsed(at, limits[server].start) < WINDOW && limits[server].count + n <= LIMIT
    requires lo <= at <= lo + WINDOW
    ensures var e := limits[server];
            AcceptedInSpan(Outcomes(limits, Burst(server, at, n) + rest), server, lo)
            == n + AcceptedInSpan(Outcomes(limits[server := Entry(e.count + n, e.start)], rest), server, lo)
    decreases n
  {
    var e := limits[server];
    if n == 0 {
      assert Burst(server, at, n) + rest == rest && limits[server := e] == limits;
    } else {
      var next := limits[server := Entry(e.count + 1, e.start)];
      var calls := Burst(server, at, n - 1) + rest;
      assert Burst(server, at, n) + rest == [Call(server, at)] + calls;
      assert ([Call(server, at)] + calls)[1..] == calls;
      BurstPasses(next, server, at, n - 1, rest, lo);
      assert next[server := Entry(e.count + n, e.start)] == limits[server := Entry(e.count + n, e.start)];
      var outs := Outcomes(limits, [Call(server, at)] + calls);
      assert outs[1..] == Outcomes(next, calls);
    }
  }

  /** A burst that opens a window, of its server's whole allowance. */
  lemma FreshBurstPasses(limits: Limits, server: Server, at: Instant, rest: seq<Event>, lo: Instant)
    requires server in limits ==> Elapsed(at, limits[server].start) >= WINDOW
    requires lo <= at <= lo + WINDOW
    ensures AcceptedInSpan(Outcomes(limits, Burst(server, at, LIMIT) + rest), server, lo)
            == LIMIT + AcceptedInSpan(Outcomes(limits[server := Entry(LIMIT, at)], rest), server, lo)
  {
    var started := limits[server := Entry(1, at)];
    var calls := Burst(server, at, LIMIT - 1) + rest;
    assert Burst(server, at, LIMIT) + rest == [Call(server, at)] + calls;
    assert ([Call(server, at)] + calls)[1..] == calls;
    BurstPasses(started, server, at, LIMIT - 1, rest, lo);
    assert started[server := Entry(LIMIT, at)] == limits[server := Entry(LIMIT, at)];
    assert Outcomes(limits, [Call(server, at)] + calls)[1..] == Outcomes(started, calls);
  }

  lemma {:induction false} BurstIsTimely(server: Server, at: Instant, n: nat, rest: seq<Event>, from: Instant)
    requires from <= at && Timely(rest, at)
    ensures Timely(Burst(server, at, n) + rest, from)
    decreases n
  {
    if n == 0 {
      assert Burst(server, at, n) + rest == rest;
    } else {
      BurstIsTimely(server, at, n - 1, rest, at);
      assert Burst(server, at, n) + rest == [Call(server, at)] + (Burst(server, at, n - 1) + rest);
      assert (Burst(server, at, n) + rest)[1..] == Burst(server, at, n - 1) + rest;
    }
  }

  /** Both bounds are met: a full window, and another as soon as the first is over. */
  lemma BoundsAreReached(server: Server)
    ensures var events := Burst(server, 0, 120) + Burst(server, 60_000_000_000, 120);
            Timely(events, 0) && AcceptedInSpan(Outcomes(map[], events), server, 0) == 240
  {
    var later := Burst(server, WINDOW, LIMIT);
    assert later + [] == later;
    BurstIsTimely(server, WINDOW, LIMIT, [], 0);
    BurstIsTimely(server, WINDOW, LIMIT, [], WINDOW);
    BurstIsTimely(server, 0, LIMIT, later, 0);
    FreshBurstPasses(map[], server, 0, later, 0);
    FreshBurstPasses(map[server := Entry(LIMIT, 0)], server, WINDOW, [], 0);
  }

  // ---------------------------------------------------------------- which calls pass

  /** Calls of the same server and window among the first `n`, accepted or not. */
  function Earlier(outs: seq<Outcome>, n: nat, server: Server, w: Instant): nat
    requires n <= |outs|
  {
    if n == 0 then 0
    else Earlier(outs, n - 1, server, w) + if outs[n - 1].server == server && outs[n - 1].window == w then 1 else 0
  }

  lemma {:induction false} EarlierCons(o: Outcome, outs: seq<Outcome>, n: nat, server: Server, w: Instant)
    requires n <= |outs|
    ensures Earlier([o] + outs, n + 1, server, w) ==
            (if o.server == server && o.window == w then 1 else 0) + Earlier(outs, n, server, w)
  {
    if n == 0 {
      assert Earlier([o] + outs, 0, server, w) == 0;
    } else {
      EarlierCons(o, outs, n - 1, server, w);
      assert ([o] + outs)[n] == outs[n - 1];
    }
  }

  lemma {:induction false} PassesFrom(limits: Limits, calls: seq<Event>, now: Instant, i: nat)
    requires Timely(calls, now) && Calls(calls) && i < |Outcomes(limits, calls)|
    requires forall s :: s in limits ==> limits[s].start <= now
    ensures var o := Outcomes(limits, calls)[i];
            var base := if o.server in limits && limits[o.server].start == o.window then limits[o.server].count else 0;
            && (o.server in limits ==> limits[o.server].start <= o.window)
            && (o.ok <==> base + Earlier(Outcomes(limits, calls), i, o.server, o.window) < LIMIT)
    decreases |calls|
  {
    var c, rest := calls[0], calls[1..];
    var e := Counted(limits, c.server, c.at);
    var limits' := limits[c.server := e];
    var outs, outs' := Outcomes(limits, calls), Outcomes(limits', rest);
    var first := Outcome(c.server, c.at, e.count <= LIMIT, e.start);
    assert Calls(rest) && outs == [first] + outs';
    if i > 0 {
      assert outs[i] == outs'[i - 1];
      PassesFrom(limits', rest, c.at, i - 1);
      EarlierCons(first, outs', i - 1, outs[i].server, outs[i].window);
    }
  }

  /** A call passes exactly when fewer than 120 calls of its server came before it in its window. */
  lemma FirstHundredTwentyPass(events: seq<Event>, i: nat)
    requires Timely(events, 0) && i < |Outcomes(map[], events)|
    ensures var outs := Outcomes(map[], events);
            outs[i].ok <==> Earlier(outs, i, outs[i].server, outs[i].window) < 120
  {
    JanitorIsInvisible(events);
    CallsStayTimely(events, 0);
    PassesFrom(map[], CallsOnly(events), 0, i);
  }

  /** The window of the last of the first `n` outcomes that is this server's. */
  function LastWindow(outs: seq<Outcome>, n: nat, server: Server): Option<Instant>
    requires n <= |outs|
  {
    if n == 0 then None
    else if outs[n - 1].server == server then Some(outs[n - 1].window)
    else LastWindow(outs, n - 1, server)
  }

  lemma {:induction false} LastWindowCons(o: Outcome, outs: seq<Outcome>, n: nat, server: Server)
    requires n <= |outs|
    ensures LastWindow([o] + outs, n + 1, server) ==
            if LastWindow(outs, n, server).Some? then LastWindow(outs, n, server)
            else if o.server == server then Some(o.window) else None
  {
    if n == 0 {
      assert LastWindow([o] + outs, 0, server) == None;
    } else {
      LastWindowCons(o, outs, n - 1, server);
      assert ([o] + outs)[n] == outs[n - 1];
    }
  }

  lemma {:induction false} WindowFrom(limits: Limits, calls: seq<Event>, i: nat)
    requires Calls(calls) && i < |Outcomes(limits, calls)|
    ensures var outs := Outcomes(limits, calls);
            var o, last := outs[i], LastWindow(outs, i, outs[i].server);
            var start := if last.Some? then last
                         else if o.server in limits then Some(limits[o.server].start) else None;
            o.window == if start.Some? && o.at < start.value + 60_000_000_000 then start.value else o.at
    decreases |calls|
  {
    var c, rest := calls[0], calls[1..];
    var e := Counted(limits, c.server, c.at);
    var limits' := limits[c.server := e];
    var outs, outs' := Outcomes(limits, calls), Outcomes(limits', rest);
    var first := Outcome(c.server, c.at, e.count <= LIMIT, e.start);
    assert Calls(rest) && outs == [first] + outs';
    if i > 0 {
      assert outs[i] == outs'[i - 1];
      WindowFrom(limits', rest, i - 1);
      LastWindowCons(first, outs', i - 1, outs[i].server);
    }
  }

  /** A call is counted in its server's last window for sixty seconds from its start, and then opens one of its own. */
  lemma WindowsLastAMinute(events: seq<Event>, i: nat)
    requires Timely(events, 0) && i < |Outcomes(map[], events)|
    ensures var outs := Outcomes(map[], events);
            var o, last := outs[i], LastWindow(outs, i, outs[i].server);
            o.window == if last.Some? && o.at < last.value + 60_000_000_000 then last.value else o.at
  {
    JanitorIsInvisible(events);
    CallsStayTimely(events, 0);
    WindowFrom(map[], CallsOnly(events), i);
  }
}
