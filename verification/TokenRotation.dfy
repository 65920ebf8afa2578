/**
  Rotating the agent's bearer token while requests authenticate against it.

  A rotation is five separate steps and an authentication two, because each takes its locks one at a
  time; rotations do not overlap each other, requests may fall anywhere.
 */
module TokenRotation {
  import opened Text

  type Token = string
  type Instant = nat   // nanoseconds

  const GRACE: nat := 60 * 1_000_000_000

  datatype Previous = Previous(token: Token, at: Instant)

  datatype Rotation = Idle
                    | Begun(replaced: Token, next: Token)   // the current token has been read
                    | Stored(next: Token)              // it is now also the previous token
                    | Written(next: Token)             // the new one is in the temporary file
                    | Renamed(next: Token)             // the new one is in the token file

  datatype Request = Asked(token: Token) | Missed(token: Token) | Answered(token: Token, ok: bool)

  datatype State = State(now: Instant, current: Token, previous: Option<Previous>, disk: Token,
                         rotation: Rotation, issued: set<Token>, requests: seq<Request>)

  function Start(token: Token): State {
    State(0, token, None, token, Idle, {token}, [])
  }

  datatype Action =
    | Tick(elapsed: nat)
    | Begin(next: Token)
    | StorePrevious
    | WriteTemporary(ok: bool)
    | Rename(ok: bool)
    | Install
    | Ask(token: Token)
    | ReadCurrent(i: nat)
    | ReadPrevious(i: nat)

  predicate Enabled(s: State, a: Action) {
    match a
    case Tick(_) => true
    case Begin(next) => s.rotation.Idle? && next !in s.issued    // a new random UUID
    case StorePrevious => s.rotation.Begun?
    case WriteTemporary(_) => s.rotation.Stored?
    case Rename(_) => s.rotation.Written?
    case Install => s.rotation.Renamed?
    case Ask(_) => true
    case ReadCurrent(i) => i < |s.requests| && s.requests[i].Asked?
    case ReadPrevious(i) => i < |s.requests| && s.requests[i].Missed?
  }

  predicate InGrace(previous: Option<Previous>, token: Token, now: Instant) {
    previous.Some? && now < previous.value.at + GRACE && previous.value.token == token
  }

  function Apply(s: State, a: Action): State
    requires Enabled(s, a)
  {
    match a
    case Tick(elapsed) => s.(now := s.now + elapsed)
    case Begin(next) => s.(rotation := Begun(s.current, next), issued := s.issued + {next})
    case StorePrevious =>
      s.(previous := Some(Previous(s.rotation.replaced, s.now)), rotation := Stored(s.rotation.next))
    case WriteTemporary(ok) => s.(rotation := if ok then Written(s.rotation.next) else Idle)
    case Rename(ok) =>
      if ok then s.(disk := s.rotation.next, rotation := Renamed(s.rotation.next)) else s.(rotation := Idle)
    case Install => s.(current := s.rotation.next, rotation := Idle)
    case Ask(token) => s.(requests := s.requests + [Asked(token)])
    case ReadCurrent(i) =>
      var t := s.requests[i].token;
      s.(requests := s.requests[i := if t == s.current then Answered(t, true) else Missed(t)])
    case ReadPrevious(i) =>
      var t := s.requests[i].token;
      s.(requests := s.requests[i := Answered(t, InGrace(s.previous, t, s.now))])
  }

  /** `run` is a legal interleaving from `s`, ending in `s'`. */
  ghost predicate Run(s: State, run: seq<Action>, s': State)
    decreases |run|
  {
    if run == [] then s == s'
    else Enabled(s, run[0]) && Run(Apply(s, run[0]), run[1..], s')
  }

  predicate Pending(s: State, token: Token) {
    !s.rotation.Idle? && s.rotation.next == token
  }

  ghost predicate Inv(s: State) {
    && s.current in s.issued && s.disk in s.issued
    && (s.previous.Some? ==> s.previous.value.token in s.issued && s.previous.value.at <= s.now)
    && (!s.rotation.Idle? ==>
          && s.rotation.next in s.issued && s.rotation.next != s.current
          && (s.previous.Some? ==> s.previous.value.token != s.rotation.next))
    && (s.rotation.Begun? ==> s.rotation.replaced == s.current)
    && (s.rotation.Stored? || s.rotation.Written? || s.rotation.Renamed? ==>
          s.previous.Some? && s.previous.value.token == s.current)
    && s.disk == (if s.rotation.Renamed? then s.rotation.next else s.current)
  }

  lemma {:induction false} RunInv(s: State, run: seq<Action>, s': State)
    requires Inv(s) && Run(s, run, s')
    ensures Inv(s')
    decreases |run|
  {
    if run != [] {
      RunInv(Apply(s, run[0]), run[1..], s');
    }
  }

  /**
    The token accepted by a request whose two reads nothing separates: the current one, or the previous one
    within its grace.
   */
  predicate Live(s: State, token: Token) {
    token == s.current || InGrace(s.previous, token, s.now)
  }

  lemma UndividedRequest(s: State, token: Token)
    ensures var i, asked := |s.requests|, Apply(s, Ask(token));
            var read := Apply(asked, ReadCurrent(i));
            var done := if read.requests[i].Missed? then Apply(read, ReadPrevious(i)) else read;
            done.requests == s.requests + [Answered(token, Live(s, token))]
  {
    var i, asked := |s.requests|, Apply(s, Ask(token));
    var read := Apply(asked, ReadCurrent(i));
    assert asked.requests[..i] == s.requests;
  }

  // ---------------------------------------------------------- tokens that are done

  /** Issued, not accepted now, and not about to be installed. */
  ghost predicate Dead(s: State, token: Token) {
    token in s.issued && !Live(s, token) && !Pending(s, token)
  }

  /** A replaced token is dead once its grace is over. */
  lemma ExpiryKills(s: State)
    requires Inv(s) && s.previous.Some? && s.previous.value.token != s.current
    requires s.now >= s.previous.value.at + 60_000_000_000
    ensures Dead(s, s.previous.value.token)
  {
  }

  /** A rotation's first write kills every token but the one being replaced and its successor. */
  lemma TwiceReplacedDies(s: State, token: Token)
    requires Inv(s) && Enabled(s, StorePrevious)
    requires token in s.issued && token != s.current && !Pending(s, token)
    ensures Dead(Apply(s, StorePrevious), token)
  {
  }

  ghost predicate NeverAccepted(s: State, token: Token, from: nat) {
    forall i :: from <= i < |s.requests| ==> s.requests[i] != Answered(token, true)
  }

  /** A dead token is dead in every later state, and no request carrying it is accepted again. */
  lemma {:induction false} DeadForever(s: State, run: seq<Action>, s': State, token: Token, from: nat)
    requires Inv(s) && Run(s, run, s') && Dead(s, token) && NeverAccepted(s, token, from)
    ensures Dead(s', token) && NeverAccepted(s', token, from)
    decreases |run|
  {
    if run != [] {
      DeadForever(Apply(s, run[0]), run[1..], s', token, from);
    }
  }

  // -------------------------------------------------------------------- the grace

  /** Some rotation makes its first write after an install, counting one made before `run` if `installed`. */
  predicate StoredAfterInstall(run: seq<Action>, installed: bool)
    decreases |run|
  {
    run != [] && ((installed && run[0].StorePrevious?) || StoredAfterInstall(run[1..], installed || run[0].Install?))
  }

  lemma {:induction false} GraceFrom(s: State, run: seq<Action>, s': State, token: Token, at: Instant, installed: bool)
    requires Inv(s) && Run(s, run, s') && s'.now < at + GRACE
    requires token in s.issued && !Pending(s, token)
    requires s.previous.Some? && s.previous.value.token == token && at <= s.previous.value.at
    requires installed <==> s.current != token
    ensures Live(s', token) <==> !StoredAfterInstall(run, installed)
    decreases |run|
  {
    if run != [] {
      RunTime(Apply(s, run[0]), run[1..], s');
      if installed && run[0].StorePrevious? {
        DeadForever(Apply(s, run[0]), run[1..], s', token, |s.requests| + |run|);
      } else {
        GraceFrom(Apply(s, run[0]), run[1..], s', token, at, installed || run[0].Install?);
      }
    }
  }

  lemma {:induction false} RunTime(s: State, run: seq<Action>, s': State)
    requires Run(s, run, s')
    ensures s.now <= s'.now && |s'.requests| <= |s.requests| + |run|
    decreases |run|
  {
    if run != [] {
      RunTime(Apply(s, run[0]), run[1..], s');
    }
  }

  /**
    Within sixty seconds of a rotation's first write, in any state of any run, the replaced token is
    still accepted exactly when no later rotation has made its own first write after this one installed.
   */
  lemma GraceExactly(s: State, run: seq<Action>, s': State)
    requires Inv(s) && s.rotation.Begun? && Run(Apply(s, StorePrevious), run, s')
    requires s'.now < s.now + 60_000_000_000
    ensures Live(s', s.current) <==> !StoredAfterInstall(run, false)
  {
    GraceFrom(Apply(s, StorePrevious), run, s', s.current, s.now, false);
  }

  /** A second rotation inside the grace cuts it short, even one that then fails to write its file. */
  lemma SecondRotationCutsGrace(first: Token, second: Token, third: Token)
    requires first != second && second != third && first != third
    ensures exists run, s :: Run(Start(first), run, s) && s.now == 0
                             && s.current == second && !Live(s, first) && s.rotation.Idle?
  {
    var s := State(0, second, Some(Previous(second, 0)), second, Idle, {first, second, third}, []);
    var s6 := State(0, second, Some(Previous(first, 0)), second, Begun(second, third), {first, second, third}, []);
    var s5 := State(0, second, Some(Previous(first, 0)), second, Idle, {first, second}, []);
    var s3 := State(0, first, Some(Previous(first, 0)), first, Written(second), {first, second}, []);
    var s2 := State(0, first, Some(Previous(first, 0)), first, Stored(second), {first, second}, []);
    var run7 := [WriteTemporary(false)];
    assert run7[1..] == [] && Run(Apply(s6, StorePrevious), run7, s);
    RunCons(s6, StorePrevious, run7, s);
    RunCons(s5, Begin(third), [StorePrevious] + run7, s);
    var run5 := [Begin(third)] + ([StorePrevious] + run7);
    assert Apply(Apply(s3, Rename(true)), Install) == s5;
    RunCons(Apply(s3, Rename(true)), Install, run5, s);
    RunCons(s3, Rename(true), [Install] + run5, s);
    var run3 := [Rename(true)] + ([Install] + run5);
    RunCons(s2, WriteTemporary(true), run3, s);
    assert Apply(Start(first), Begin(second))
        == State(0, first, None, first, Begun(first, second), {first, second}, []);
    RunCons(Apply(Start(first), Begin(second)), StorePrevious, [WriteTemporary(true)] + run3, s);
    RunCons(Start(first), Begin(second), [StorePrevious] + ([WriteTemporary(true)] + run3), s);
  }

  lemma RunCons(s: State, a: Action, run: seq<Action>, s': State)
    requires Enabled(s, a) && Run(Apply(s, a), run, s')
    ensures Run(s, [a] + run, s')
  {
    assert ([a] + run)[1..] == run;
  }

  ghost predicate LiveThroughout(s: State, run: seq<Action>, token: Token)
    decreases |run|
  {
    Live(s, token) && (run != [] && Enabled(s, run[0]) ==> LiveThroughout(Apply(s, run[0]), run[1..], token))
  }

  ghost predicate NeverRefused(s: State, token: Token, from: nat) {
    && (forall i :: from <= i < |s.requests| ==> s.requests[i] != Answered(token, false))
    && (s.current == token ==> forall i :: from <= i < |s.requests| ==> s.requests[i] != Missed(token))
  }

  /**
    Requests begun after a state are never refused a token that stays live, however a rotation falls between
    their two reads.
   */
  lemma {:induction false} LiveIsNeverRefused(s: State, run: seq<Action>, s': State, token: Token, from: nat)
    requires Inv(s) && Run(s, run, s') && LiveThroughout(s, run, token)
    requires NeverRefused(s, token, from)
    ensures NeverRefused(s', token, from)
    decreases |run|
  {
    if run != [] {
      assert !Pending(s, token);
      LiveIsNeverRefused(Apply(s, run[0]), run[1..], s', token, from);
    }
  }

  /** Between rotations the token file and the running agent agree, whichever writes failed. */
  lemma FileAgrees(token: Token, run: seq<Action>, s: State)
    requires Run(Start(token), run, s)
    ensures s.rotation.Idle? ==> s.disk == s.current
  {
    RunInv(Start(token), run, s);
  }

  // ------------------------------------------------------------ the stored tokens

  class AgentTokens {
    var token: Token
    var previous: Option<Previous>
    var disk: Token

    constructor (stored: Token)
      ensures token == stored && previous == None && disk == stored
    {
      token, previous, disk := stored, None, stored;
    }

    method Authenticate(provided: Token, now: Instant) returns (ok: bool)
      ensures ok <==> provided == token || InGrace(previous, provided, now)
    {
      if provided == token {
        return true;
      }
      if previous.Some? && (now < previous.value.at || (now - previous.value.at) / 1_000_000_000 < 60) {
        return provided == previous.value.token;
      }
      ok := false;
    }

    /** One rotation on its own; the two flags are whether the file system takes the write and the rename. */
    method RotateToken(next: Token, now: Instant, writes: bool, renames: bool) returns (r: Option<Token>)
      modifies this
      ensures previous == Some(Previous(old(token), now))
      ensures r == if writes && renames then Some(next) else None
      ensures token == if r.Some? then next else old(token)
      ensures disk == if r.Some? then next else old(disk)
    {
      var old_token := token;
      previous := Some(Previous(old_token, now));
      if !writes {
        return None;
      }
      if !renames {
        return None;
      }
      disk := next;
      token := next;
      r := Some(next);
    }
  }

  /** Run step by step, a rotation does what `RotateToken` promises. */
  lemma RotationSteps(s: State, next: Token, writes: bool, renames: bool)
    requires Inv(s) && s.rotation.Idle? && next !in s.issued
    ensures var w := Apply(Apply(Apply(s, Begin(next)), StorePrevious), WriteTemporary(writes));
            var n := if writes then Apply(w, Rename(renames)) else w;
            var e := if writes && renames then Apply(n, Install) else n;
            && e.rotation.Idle? && e.previous == Some(Previous(s.current, s.now))
            && e.current == (if writes && renames then next else s.current) && e.disk == e.current
  {
  }
}
