/**
  Suspending an account stashes its role; un-suspending gives it back in two separate statements.
 */
module Suspension {
  import opened Text

  /** The two columns of one `users` row. */
  datatype Row = Row(role: string, prior: Option<string>)

  const SUSPENDED := "suspended"
  const ASSIGNABLE_ROLES := ["admin", "reseller", "user", "client"]

  /** Which role an un-suspend may restore. */
  function RoleToRestore(stashed: Option<string>, deny: seq<string>): (r: Option<string>) {
    if stashed.None? || stashed.value !in ASSIGNABLE_ROLES || stashed.value in deny then None else stashed
  }

  /** The suspend statement; `allowed` is what the caller's extra predicate says of this row. */
  function Suspended(row: Row, allowed: bool): Row {
    if row.role != SUSPENDED && allowed then Row(SUSPENDED, Some(row.role)) else row
  }

  /** The conditional write of an un-suspend that read `role`. */
  function Restored(row: Row, role: string): Row {
    if row.role == SUSPENDED then Row(role, None) else row
  }

  /** The row, and the un-suspends that have read a restorable role and not yet written it. */
  datatype State = State(row: Row, pending: seq<string>)

  datatype Action =
    | Suspend(allowed: bool)
    | ReadStash(deny: seq<string>)
    | WriteRole(i: nat)
    | ChangeRole(role: string)   // an administrator's update: the role column only

  predicate Enabled(s: State, a: Action) {
    && (a.WriteRole? ==> a.i < |s.pending|)
    && (a.ChangeRole? ==> a.role in ASSIGNABLE_ROLES)
  }

  function Apply(s: State, a: Action): State
    requires Enabled(s, a)
  {
    match a
    case Suspend(allowed) => s.(row := Suspended(s.row, allowed))
    case ReadStash(deny) =>
      (match RoleToRestore(s.row.prior, deny)
       case None => s
       case Some(role) => s.(pending := s.pending + [role]))
    case WriteRole(i) =>
      State(Restored(s.row, s.pending[i]), s.pending[..i] + s.pending[i + 1..])
    case ChangeRole(role) => s.(row := s.row.(role := role))
  }

  /** Nobody assigns a role. */
  predicate NoRoleChange(run: seq<Action>) {
    forall k :: 0 <= k < |run| ==> !run[k].ChangeRole?
  }

  /** `run` is a legal interleaving from `s`, ending in `s'`. */
  ghost predicate Run(s: State, run: seq<Action>, s': State)
    decreases |run|
  {
    if run == [] then s == s'
    else Enabled(s, run[0]) && Run(Apply(s, run[0]), run[1..], s')
  }

  class UserRow {
    var role: string
    var prior: Option<string>

    ghost function Contents(): Row
      reads this
    {
      Row(role, prior)
    }

    method SuspendAccount(allowed: bool) returns (changed: nat)
      modifies this
      ensures Contents() == Suspended(old(Contents()), allowed)
      ensures if old(role) != "suspended" && allowed
              then role == "suspended" && prior == Some(old(role)) && changed == 1
              else role == old(role) && prior == old(prior) && changed == 0
    {
      changed := 0;
      if role != SUSPENDED && allowed {
        prior := Some(role);
        role := SUSPENDED;
        changed := 1;
      }
    }

    /** An un-suspend with nothing else touching the row between its two statements. */
    method UnsuspendAccount(deny: seq<string>) returns (r: Option<string>)
      modifies this
      ensures r == RoleToRestore(old(prior), deny)
      ensures r.Some? <==> old(prior).Some? && old(prior).value in ["admin", "reseller", "user", "client"]
                           && old(prior).value !in deny
      ensures r.Some? ==> r == old(prior) && role == if old(role) == "suspended" then r.value else old(role)
      ensures r.None? ==> Contents() == old(Contents())
      ensures r.Some? ==> Contents() == Restored(old(Contents()), r.value)
    {
      r := RoleToRestore(prior, deny);
      if r.Some? && role == SUSPENDED {
        role := r.value;
        prior := None;
      }
    }
  }

  // ------------------------------------------------------------------ all runs

  /** Only the original role is ever stashed, awaited by an un-suspend, or held beside `suspended`. */
  ghost predicate Faithful(s: State, original: string) {
    && (s.row == Row(original, None) || s.row == Row(SUSPENDED, Some(original)))
    && forall k :: 0 <= k < |s.pending| ==> s.pending[k] == original
  }

  lemma {:induction false} FaithfulForever(s: State, run: seq<Action>, s': State, original: string)
    requires original != SUSPENDED && Faithful(s, original) && Run(s, run, s') && NoRoleChange(run)
    ensures Faithful(s', original)
    decreases |run|
  {
    if run != [] {
      FaithfulForever(Apply(s, run[0]), run[1..], s', original);
    }
  }

  /**
    However suspends and un-suspends interleave, the row is the original role unstashed, or suspended with it
    stashed.
   */
  lemma RestoreNeverInvents(original: string, run: seq<Action>, s: State)
    requires original != SUSPENDED && Run(State(Row(original, None), []), run, s) && NoRoleChange(run)
    ensures s.row == Row(original, None) || s.row == Row(SUSPENDED, Some(original))
  {
    FaithfulForever(State(Row(original, None), []), run, s, original);
  }

  /** A stash left beside a live role can override that role only if it is another, assignable one. */
  ghost predicate HarmlessStash(row: Row) {
    row.prior.None? || row.prior.value == row.role || row.prior.value !in ASSIGNABLE_ROLES
  }

  ghost predicate KeepsTo(s: State, original: string, stale: Option<string>) {
    && (s.row.role == original || s.row == Row(SUSPENDED, Some(original)))
    && (s.row.role == original ==> s.row.prior in {None, Some(original), stale})
    && forall k :: 0 <= k < |s.pending| ==> s.pending[k] == original
  }

  lemma {:induction false} KeepsToForever(s: State, run: seq<Action>, s': State, original: string,
      stale: Option<string>)
    requires original != SUSPENDED && KeepsTo(s, original, stale) && Run(s, run, s') && NoRoleChange(run)
    requires stale.None? || stale.value == original || stale.value !in ASSIGNABLE_ROLES
    ensures KeepsTo(s', original, stale)
    decreases |run|
  {
    if run != [] {
      KeepsToForever(Apply(s, run[0]), run[1..], s', original, stale);
    }
  }

  /**
    For any row of a live account: every run keeps its role to the original or `suspended` exactly
    when the stash beside it is harmless. (Changing the role of a suspended account leaves the old
    stash in place, which is how a harmful one arises.)
   */
  lemma RestoreFaithfulIffStashHarmless(row: Row)
    requires row.role != SUSPENDED
    ensures HarmlessStash(row) <==>
            forall run, s :: Run(State(row, []), run, s) && NoRoleChange(run) ==>
              s.row.role == row.role || s.row.role == SUSPENDED
  {
    if HarmlessStash(row) {
      forall run, s | Run(State(row, []), run, s) && NoRoleChange(run)
        ensures s.row.role == row.role || s.row.role == SUSPENDED
      {
        KeepsToForever(State(row, []), run, s, row.role, row.prior);
      }
    } else {
      StaleStashOverrides(row);
    }
  }

  /** Read the stale stash, suspend, then write it: the account comes back with the stale role. */
  lemma StaleStashOverrides(row: Row)
    requires row.role != SUSPENDED && !HarmlessStash(row)
    ensures exists run, s :: Run(State(row, []), run, s) && NoRoleChange(run)
                             && s.row.role != row.role && s.row.role != SUSPENDED
  {
    var run := [ReadStash([]), Suspend(true), WriteRole(0)];
    var s0 := State(row, []);
    var s1 := Apply(s0, run[0]);
    var s2 := Apply(s1, run[1]);
    var s3 := Apply(s2, run[2]);
    assert run[1..] == [run[1], run[2]] && run[1..][1..] == [run[2]] && run[1..][1..][1..] == [];
    assert Run(s3, [], s3) && Run(s2, [run[2]], s3) && Run(s1, run[1..], s3);
    assert Run(s0, run, s3);
  }

  // ------------------------------------------------------------ single properties

  /** A second suspend leaves the stash of the first. */
  lemma SuspendTwiceKeepsStash(row: Row, first: bool, second: bool)
    requires row.role != SUSPENDED
    ensures Suspended(Suspended(row, first), second) == Suspended(row, first || second)
    ensures Suspended(row, true) != row && Suspended(Suspended(row, true), true).prior == Some(row.role)
  {
  }

  /** Suspending and then un-suspending gives the role back, or leaves the account suspended, exactly by this rule. */
  lemma RoundTrip(original: string, deny: seq<string>)
    requires original != "suspended"
    ensures var s := Apply(Apply(State(Row(original, None), []), Suspend(true)), ReadStash(deny));
            if original in ["admin", "reseller", "user", "client"] && original !in deny
            then s.pending == [original] && Apply(s, WriteRole(0)) == State(Row(original, None), [])
            else s == State(Row("suspended", Some(original)), [])
  {
    var s := Apply(Apply(State(Row(original, None), []), Suspend(true)), ReadStash(deny));
    if original in ASSIGNABLE_ROLES && original !in deny {
      assert s.pending == [] + [original];
      assert s.pending[..0] + s.pending[1..] == [];
    }
  }

  ghost predicate AllRefuse(run: seq<Action>, role: string) {
    forall k :: 0 <= k < |run| && run[k].ReadStash? ==> role !in ASSIGNABLE_ROLES || role in run[k].deny
  }

  /** While every un-suspend denies the stashed role, or it is not assignable, the account stays suspended. */
  lemma {:induction false} RefusedStaysSuspended(role: string, run: seq<Action>, s: State)
    requires AllRefuse(run, role) && NoRoleChange(run) && Run(State(Row(SUSPENDED, Some(role)), []), run, s)
    ensures s == State(Row(SUSPENDED, Some(role)), [])
    decreases |run|
  {
    if run != [] {
      var s0 := State(Row(SUSPENDED, Some(role)), []);
      assert run[0].ReadStash? ==> role !in ASSIGNABLE_ROLES || role in run[0].deny;
      assert Apply(s0, run[0]) == s0;
      assert AllRefuse(run[1..], role);
      RefusedStaysSuspended(role, run[1..], s);
    }
  }

  // -------------------------------------------------------- what a late write does

  /** Only assignable roles are ever awaited. */
  predicate PendingAssignable(s: State) {
    forall k :: 0 <= k < |s.pending| ==> s.pending[k] in ASSIGNABLE_ROLES
  }

  /** Whether a run leaves the account suspended: its last effective suspend has no restore or role change behind it. */
  function LeavesSuspended(run: seq<Action>, before: bool): bool {
    if run == [] then before
    else
      LeavesSuspended(run[1..],
        match run[0]
        case Suspend(allowed) => before || allowed
        case ReadStash(_) => before
        case WriteRole(_) => false
        case ChangeRole(_) => false)
  }

  lemma {:induction false} SuspendedIff(s: State, run: seq<Action>, s': State)
    requires PendingAssignable(s) && Run(s, run, s')
    ensures PendingAssignable(s')
    ensures s'.row.role == SUSPENDED <==> LeavesSuspended(run, s.row.role == SUSPENDED)
    decreases |run|
  {
    if run != [] {
      StepAssignable(s, run[0]);
      SuspendedIff(Apply(s, run[0]), run[1..], s');
    }
  }

  lemma StepAssignable(s: State, a: Action)
    requires PendingAssignable(s) && Enabled(s, a)
    ensures PendingAssignable(Apply(s, a))
    ensures Apply(s, a).row.role == SUSPENDED <==>
            match a
            case Suspend(allowed) => s.row.role == SUSPENDED || allowed
            case ReadStash(_) => s.row.role == SUSPENDED
            case WriteRole(_) => false
            case ChangeRole(_) => false
  {
    assert SUSPENDED !in ASSIGNABLE_ROLES;
  }

  /**
    In every run the write of a waiting un-suspend changes the row exactly when the account is suspended as
    it lands; after the write of another one, that is exactly when an allowed suspend came in between and no
    further restore or role change after it. The un-suspend reports its role as restored either way.
   */
  lemma LateWriteChangesIff(row: Row, run: seq<Action>, s: State, i: nat, between: seq<Action>, t: State, j: nat)
    requires Run(State(row, []), run, s) && i < |s.pending|
    requires Run(Apply(s, WriteRole(i)), between, t) && j < |t.pending|
    ensures Apply(s, WriteRole(i)).row != s.row <==> s.row.role == SUSPENDED
    ensures Apply(t, WriteRole(j)).row != t.row <==> t.row.role == SUSPENDED
    ensures Apply(t, WriteRole(j)).row != t.row <==> LeavesSuspended(between, false)
  {
    SuspendedIff(State(row, []), run, s);
    StepAssignable(s, WriteRole(i));
    SuspendedIff(Apply(s, WriteRole(i)), between, t);
    StepAssignable(t, WriteRole(j));
  }

  const TWO_READS := [Suspend(true), ReadStash([]), ReadStash([]), WriteRole(0)]

  lemma TwoReadsSteps(role: string)
    requires role in ASSIGNABLE_ROLES
    ensures var live, down := Row(role, None), Row(SUSPENDED, Some(role));
            && Apply(State(live, []), Suspend(true)) == State(down, [])
            && Apply(State(down, []), ReadStash([])) == State(down, [role])
            && Apply(State(down, [role]), ReadStash([])) == State(down, [role, role])
            && Apply(State(down, [role, role]), WriteRole(0)) == State(live, [role])
            && Apply(State(live, [role]), Suspend(true)) == State(down, [role])
  {
    assert SUSPENDED !in ASSIGNABLE_ROLES;
    assert [role, role][..0] + [role, role][1..] == [role] && [] + [role] == [role] && [role] + [role] == [role, role];
  }

  /** A suspended account whose role two un-suspends have read, and the write of the first. */
  lemma TwoReads(role: string, more: seq<Action>, end: State)
    requires role in ASSIGNABLE_ROLES && Run(State(Row(role, None), [role]), more, end)
    ensures Run(State(Row(role, None), []), TWO_READS + more, end)
  {
    hide Apply, Run;
    TwoReadsSteps(role);
    var down := Row(SUSPENDED, Some(role));
    var write, both := [WriteRole(0)] + more, [ReadStash([])] + ([WriteRole(0)] + more);
    RunOne(State(down, [role, role]), WriteRole(0), more, end);
    RunOne(State(down, [role]), ReadStash([]), write, end);
    RunOne(State(down, []), ReadStash([]), both, end);
    RunOne(State(Row(role, None), []), Suspend(true), [ReadStash([])] + both, end);
    assert [Suspend(true)] + ([ReadStash([])] + both) == TWO_READS + more;
  }

  /** Two un-suspends that both read the stash: the first restores; the second does too iff a suspend falls between. */
  lemma SecondWriteBothWays(role: string)
    requires role in ASSIGNABLE_ROLES
    ensures Run(State(Row(role, None), []), TWO_READS, State(Row(role, None), [role]))
    ensures Apply(State(Row(role, None), [role]), WriteRole(0)).row == Row(role, None)
    ensures Run(State(Row(role, None), []), TWO_READS + [Suspend(true)], State(Row(SUSPENDED, Some(role)), [role]))
    ensures Apply(State(Row(SUSPENDED, Some(role)), [role]), WriteRole(0)).row == Row(role, None)
  {
    assert SUSPENDED !in ASSIGNABLE_ROLES;
    var live, down := State(Row(role, None), [role]), State(Row(SUSPENDED, Some(role)), [role]);
    assert Run(live, [], live) && Run(down, [], down);
    TwoReads(role, [], live);
    assert TWO_READS + [] == TWO_READS;
    RunOne(live, Suspend(true), [], down);
    assert [Suspend(true)] + [] == [Suspend(true)];
    TwoReads(role, [Suspend(true)], down);
  }

  lemma RunOne(s: State, a: Action, run: seq<Action>, s': State)
    requires Enabled(s, a) && Run(Apply(s, a), run, s')
    ensures Run(s, [a] + run, s')
  {
    assert ([a] + run)[1..] == run;
  }

  /** Alone, an un-suspend that reports a role has changed the row exactly when the account was suspended. */
  lemma ReportedRestoreMayBeNone(row: Row, deny: seq<string>)
    requires RoleToRestore(row.prior, deny).Some?
    ensures var s := Apply(State(row, []), ReadStash(deny));
            s.pending == [row.prior.value] && (Apply(s, WriteRole(0)).row == row <==> row.role != SUSPENDED)
  {
    assert SUSPENDED !in ASSIGNABLE_ROLES;
    assert [] + [row.prior.value] == [row.prior.value];
  }

  // ------------------------------------------------------ roles chosen in between

  /** The role the account last held while live, `held` being that before the run. */
  function LastLive(s: State, run: seq<Action>, held: string): string
    decreases |run|
  {
    var now := if s.row.role != SUSPENDED then s.row.role else held;
    if run == [] || !Enabled(s, run[0]) then now else LastLive(Apply(s, run[0]), run[1..], now)
  }

  lemma {:induction false} StashIsLastLive(s: State, run: seq<Action>, s': State, held: string)
    requires PendingAssignable(s) && Run(s, run, s')
    requires s.row.role == SUSPENDED ==> s.row.prior == Some(held)
    ensures s'.row.role == SUSPENDED ==> s'.row.prior == Some(LastLive(s, run, held))
    ensures s'.row.role != SUSPENDED ==> s'.row.role == LastLive(s, run, held)
    decreases |run|
  {
    if run != [] {
      StepAssignable(s, run[0]);
      StashIsLastLive(Apply(s, run[0]), run[1..], s', if s.row.role != SUSPENDED then s.row.role else held);
    }
  }

  /**
    In every run from a live account, role changes included: a restore brings back another role than the one
    the account last held exactly when the stash it read is no longer the row's.
   */
  lemma RestoreOverridesIff(row: Row, run: seq<Action>, s: State, i: nat)
    requires row.role != SUSPENDED && Run(State(row, []), run, s)
    requires s.row.role == SUSPENDED && i < |s.pending|
    ensures Apply(s, WriteRole(i)).row.role != LastLive(State(row, []), run, row.role) <==>
            s.row.prior != Some(s.pending[i])
  {
    StashIsLastLive(State(row, []), run, s, row.role);
  }

  /**
    Assigning a role to a suspended account makes it live again beside the old stash, which an un-suspend then
    reports.
   */
  lemma RoleChangeLeavesStash(original: string, chosen: string)
    requires original in ASSIGNABLE_ROLES && chosen in ASSIGNABLE_ROLES
    ensures var end := State(Row(chosen, Some(original)), []);
            Run(State(Row(original, None), []), [Suspend(true), ChangeRole(chosen)], end)
    ensures RoleToRestore(Some(original), []) == Some(original)
    ensures original != chosen ==> !HarmlessStash(Row(chosen, Some(original)))
  {
    assert SUSPENDED !in ASSIGNABLE_ROLES;
    var end := State(Row(chosen, Some(original)), []);
    assert Run(end, [], end);
    RunOne(State(Row(SUSPENDED, Some(original)), []), ChangeRole(chosen), [], end);
    assert [ChangeRole(chosen)] + [] == [ChangeRole(chosen)];
    RunOne(State(Row(original, None), []), Suspend(true), [ChangeRole(chosen)], end);
    assert [Suspend(true)] + [ChangeRole(chosen)] == [Suspend(true), ChangeRole(chosen)];
  }

  /**
    A role chosen while an un-suspend is under way is overridden if the account is suspended again before its
    write.
   */
  lemma ChosenRoleIsOverridden(original: string, chosen: string)
    requires original in ASSIGNABLE_ROLES && chosen in ASSIGNABLE_ROLES && original != chosen
    ensures var run := [Suspend(true), ReadStash([]), ChangeRole(chosen), Suspend(true)];
            var s := State(Row(SUSPENDED, Some(chosen)), [original]);
            && Run(State(Row(original, None), []), run, s) && Apply(s, WriteRole(0)).row == Row(original, None)
            && LastLive(State(Row(original, None), []), run, original) == chosen
  {
    assert SUSPENDED !in ASSIGNABLE_ROLES;
    var s := State(Row(SUSPENDED, Some(chosen)), [original]);
    var s2 := State(Row(SUSPENDED, Some(original)), [original]);
    assert Run(s, [], s) && [] + [original] == [original];
    RunOne(State(Row(chosen, Some(original)), [original]), Suspend(true), [], s);
    assert [Suspend(true)] + [] == [Suspend(true)];
    RunOne(s2, ChangeRole(chosen), [Suspend(true)], s);
    RunOne(State(Row(SUSPENDED, Some(original)), []), ReadStash([]), [ChangeRole(chosen)] + [Suspend(true)], s);
    var later := [ReadStash([])] + ([ChangeRole(chosen)] + [Suspend(true)]);
    RunOne(State(Row(original, None), []), Suspend(true), later, s);
    var run := [Suspend(true), ReadStash([]), ChangeRole(chosen), Suspend(true)];
    assert run == [Suspend(true)] + ([ReadStash([])] + ([ChangeRole(chosen)] + [Suspend(true)]));
    StashIsLastLive(State(Row(original, None), []), run, s, original);
  }
}
