# DockPanel: verified models of its protocols and text formats

DockPanel manages web hosts. A backend keeps users, servers and jobs; an agent on each host edits the
host's configuration files and runs commands; a CLI talks to both over HTTP. Most of that is plumbing,
but some of it is a protocol between concurrent tasks, or a text format that one function prints and
another reads back. This project models those parts in Dafny and proves what they guarantee.

| file | what it models |
|---|---|
| `SiteLocks.dfy` | the agent's per-site locks: a registry of mutexes, one or two locks per call, taken in key order, calls nested in calls |
| `NestedLocks.dfy` | which nested calls can come to a standstill, and which of the agent's own do |
| `ProvisionLogs.dfy` | the backend's provisioning logs: history and broadcast channel in one map, owners in another, a janitor over both |
| `LogLocks.dfy` | the two locks of those maps, as each operation takes and drops them |
| `MainCf.dfy`, `Milters.dfy` | Postfix's `main.cf`, rewritten by independent filter-and-append handlers and read back by status handlers |
| `SenderLogins.dfy` | the sender-login table the agent prints and the lookup by which Postfix reads it |
| `Crontab.dfy` | root's crontab, merged by one site's payload at a time, and the two readers of its lines |
| `Chunked.dfy` | the CLI's decoder of chunked HTTP bodies (section 7.1 of RFC 9112) |
| `ProgressStream.dfy` | the CLI's reader of a server-sent event stream (section 9.2 of the WHATWG HTML standard) |
| `TailLines.dfy` | the agent's follower of a growing capture file |
| `AnsiEscapes.dfy` | removal of terminal control sequences (section 5.4 of ECMA-48) |
| `RateLimit.dfy` | the agent rate limiter and the janitor that evicts its entries |
| `TokenRotation.dfy` | agent token rotation, step by step, with requests in between |
| `Suspension.dfy` | suspending and un-suspending an account through a stashed role |
| `UnsandboxedArgv.dfy` | the argument vector given to `systemd-run` |
| `IpAllowlist.dfy` | CIDR matching for the panel's allowlist, and the internal-address tests (RFC 4632, RFC 4291, RFC 6052, RFC 3056) |
| `Text.dfy` | the string operations of the Rust standard library that the above use |

Concurrent parts are state machines whose steps are what happens under one lock, in one SQL statement or
in one file operation; the theorems quantify over every interleaving. Code that updates fields, vectors or
buffers in place is a class or a method proved against the function the theorems are about. Time is a
natural number, text a sequence of characters or bytes, and `is_safe_cron_command`, the IP address parser
and the JSON parser of a step are parameters. Table functions cite the code by path and line.

## Where the code and its description differ

Each of these is stated as a lemma about the code as it is, with the exact condition under which the
described behaviour holds and, where the condition alone does not show it, a lemma at a concrete input that fails.

- **Nested site locks.** The module forbids taking a lock for a key already held. Exposing a Docker app with
  automatic TLS does so: it holds the domain and enables TLS for it, which locks the domain again. Such a task
  never finishes, and among the agent's calls it is the only one of that kind
  (`NestedLocks.AgentRunsFinishIff`, `NestedLocks.SameKeyDeadlocks`).
- **Token grace.** The comment promises the replaced token sixty seconds. It keeps them exactly when no
  later rotation makes its first write in that time, and that rotation need not succeed
  (`TokenRotation.GraceExactly`, `TokenRotation.SecondRotationCutsGrace`).
- **Chunked bodies.** A body decodes to its data exactly when no chunk has an extension, which recipients must
  ignore; and a chunk size close to `usize::MAX` overflows the addition to its offset
  (`Chunked.DecodesIffNoExtension`, `Chunked.ExtensionLosesBody`; `Chunked.OverflowIff`,
  `Chunked.OversizeHeaderOverflows`).
- **Control sequences.** A CSI sequence may end in any byte from `@` to `~`; the code waits for a letter,
  and otherwise eats the text up to the next one (`AnsiEscapes.CsiLeavesTextIffLetterFinal`,
  `AnsiEscapes.TildeFinalEatsText`).
- **Relay host.** The status handler shows a configured endpoint exactly when the host has no `=`, and the
  setting outlives the removal of a rate limit exactly when the host does not hold that limit's marker
  (`MainCf.ReportedIff`, `MainCf.HostWithEqualsIsCutShort`; `MainCf.RelayOutlivesRateEditIff`,
  `MainCf.MarkedHostLosesRelay`).
- **Rate limits.** A limit of more than one message a second becomes a delay of zero, that is no limit
  (`MainCf.RateBlockMeans`, `MainCf.FastRateIsNoDelay`).
- **Milters.** `add_milter` is idempotent exactly when every terminated line that still ends in a carriage
  return is one it rewrites (`Milters.AddedTwiceIff`, `Milters.SecondAddDiffers`).
- **Removing relay or rate settings.** A removal drops a trailing blank line of the file with them, so it
  is not quite undone by setting and removing again (`MainCf.LaterEditWinsIff`, `MainCf.SecondRemovalDiffers`).
- **Crontab.** Syncs of disjoint payloads commute exactly when neither order empties the file and then
  refills it, which leaves one blank line more (`Crontab.DisjointSyncsCommute`,
  `Crontab.EmptyPayloadFirstDiffers`). The export splits at single spaces although the validator accepts any
  white space (`Crontab.ExportsScheduleIffSingleSpaced`, `Crontab.TwoSpacesAreNotExported`).
- **Tailing.** The final read is made after the writer exits, but a final read that fails loses what it
  would have read (`TailLines.ReturnsWholeFile`, `TailLines.FailedLastReadLosesLines`).
- **Unsuspend.** The result is the role of the earlier read even when the conditional write changed nothing.
  Alone, it changes nothing exactly when the account is live, as after a role change that left the stash
  (`Suspension.ReportedRestoreMayBeNone`, `Suspension.RoleChangeLeavesStash`); after another un-suspend's write,
  exactly when no allowed suspend came between (`Suspension.LateWriteChangesIff`,
  `Suspension.SecondWriteBothWays`). A restore overrides the role last held exactly when the stash it read is no
  longer the row's (`Suspension.RestoreOverridesIff`, `Suspension.ChosenRoleIsOverridden`).
- **`systemd-run`.** The program name, and arguments that are not UTF-8, are passed without doubling
  dollars, so the command line survives every expansion exactly when these have none
  (`UnsandboxedArgv.VectorMeans`, `UnsandboxedArgv.UnescapedSurvivesIffNoDollar`).
- **IPv4-compatible addresses.** `::1` is internal although the address it embeds, 0.0.0.1, is not
  (`InternalAddresses.EmbeddingsKeepInternal`).

## Model

| member | source | states |
|---|---|---|
| SiteLocks.LessTrichotomy | panel/agent/src/site_lock.rs:74-84 | string `<` is trichotomous, so the comparison always picks one order |
| SiteLocks.LessIff | panel/agent/src/site_lock.rs:74-84 | that order is lexicographic: by the first place where two strings differ, a prefix before its extensions |
| SiteLocks.OrderIsSorted | panel/agent/src/site_lock.rs:70-85 | a request locks exactly its keys, each once, smallest first, whatever the argument order |
| SiteLocks.Registry.Entry | panel/agent/src/site_lock.rs:43-51 | the key's mutex: the one registered, or a new one no other key has; other keys keep theirs |
| SiteLocks.Registry.LockSite | panel/agent/src/site_lock.rs:64-66 | an uncontended call leaves the task holding the key's mutex and no other lock changed |
| SiteLocks.Registry.LockSites | panel/agent/src/site_lock.rs:72-85 | an uncontended call holds both keys' mutexes (one guard if they are equal) and returns the guards in argument order |
| SiteLocks.StepInv | panel/agent/src/site_lock.rs:43-85 | every step of every task keeps: a guard is its key's registered mutex, held by its task alone; a waiting task has its key's mutex; what is left of a program fits the guards held |
| SiteLocks.MutualExclusion | panel/agent/src/site_lock.rs:53-66 | for any number of tasks running any scoped programs of lock calls, nested or not, and any interleaving, two tasks never hold one key |
| SiteLocks.WorkingHoldsAll | panel/agent/src/site_lock.rs:53-85 | a task at its work holds every key that work needs: of a guarded call, all keys of its request |
| SiteLocks.WaitingHoldsSmaller | panel/agent/src/site_lock.rs:68-85 | if nested calls ascend in some order on keys, a waiting task holds only keys below the one it waits for |
| SiteLocks.SomeStepEnabled | panel/agent/src/site_lock.rs:68-85 | deadlock freedom: if all nested calls ascend in one strict order on keys, some step is enabled while a task is unfinished |
| SiteLocks.StepCost | panel/agent/src/site_lock.rs:43-85 | each step lowers the measure by exactly one, whatever the programs |
| SiteLocks.RunsEnd | panel/agent/src/site_lock.rs:43-85 | every run is at most as long as the initial measure, whatever is nested |
| SiteLocks.MaximalRunsFinish | panel/agent/src/site_lock.rs:43-85 | with ascending calls, a run that cannot go on has finished every task and holds no lock |
| SiteLocks.SameKeyWaitsForever | panel/agent/src/site_lock.rs:19-22 | a task that waits for a key it holds is in the same place, holding it, in every later state of every run |
| SiteLocks.ReentrantNeverFinishes | panel/agent/src/site_lock.rs:19-22 | a task whose program locks a key it holds is unfinished in every reachable state, whatever the other tasks do |
| NestedLocks.SameKeyDeadlocks | panel/agent/src/routes/docker_apps.rs:341-601 | a run in which a call nested in a call for the same key waits for its own lock |
| NestedLocks.OppositeOrdersDeadlock | panel/agent/src/site_lock.rs:68-71 | a run of two tasks nesting a-then-b and b-then-a that reaches a state with no step enabled |
| NestedLocks.RingDeadlocks | panel/agent/src/site_lock.rs:68-71 | the same for any number of tasks, each nesting the next one's key in its own |
| NestedLocks.PairsNeverDeadlockIff | panel/agent/src/site_lock.rs:68-85 | tasks that each nest one of a set of key pairs never deadlock, in any number and interleaving, iff the pairs form no ring |
| NestedLocks.CallsWritten | panel/agent/src/services/git_build.rs:545-552 | the locks each of the agent's operations takes and drops, in order, and what it works on while it holds them |
| NestedLocks.CallAscendsIff | panel/agent/src/services/git_build.rs:545-552 | each of the agent's locking operations ascends in the order deploy keys first, then key order, iff it does not expose a domain with automatic TLS |
| NestedLocks.AgentRunsFinishIff | panel/agent/src/routes/docker_apps.rs:330-601 | for any tasks making any of these operations in sequence, a run that cannot go on has finished them all iff none exposes a domain with automatic TLS; one that does is still waiting |
| ProvisionLogs.StepInv | panel/backend/src/helpers.rs:1981-2043 | every step keeps: each live log has an owner (its registrant), an open channel of its own, and a history equal to all that was sent on it |
| ProvisionLogs.NoGapNoRepeat | panel/backend/src/helpers.rs:2016-2043 | over every run a reader's snapshot and what it received are exactly the first steps of its log iff it never received while further behind than the channel's capacity; once it has ended, the whole log on the same condition |
| ProvisionLogs.LagsIff | panel/backend/src/helpers.rs:1979-1980 | over every run a reader has lagged iff some receive of its found it more than the channel's capacity behind |
| ProvisionLogs.EmitReaches | panel/backend/src/helpers.rs:2212-2223 | an emit appends to the live log's history and channel alike; after removal it reaches nothing |
| ProvisionLogs.RemovalEndsStream | panel/backend/src/helpers.rs:1956-1962 | however an entry goes (remove, forget, re-register, sweep), its channel closes with it |
| ProvisionLogs.ClosedForever | panel/backend/src/helpers.rs:1956-1962 | in every later state a closed channel is closed and holds the same steps |
| ProvisionLogs.RemovedStreamEnds | panel/backend/src/helpers.rs:1956-1962 | in every run after its log is gone a reader, however far behind, has ended after as many receives as the ring has steps for it and two; it has shown all that was left, or the last `capacity` steps |
| ProvisionLogs.OpensOnlyForRegistrant | panel/backend/src/helpers.rs:2016-2043 | in every reachable state a log opens for a caller iff it is live and that caller registered it; every reader reads a log of its own user |
| ProvisionLogs.SweepStrandsNothing | panel/backend/src/main.rs:592-597 | a sweep keeps exactly the logs younger than an hour, unchanged, still owned and still open; afterwards both maps have the same keys |
| ProvisionLogs.LiveIff | panel/backend/src/helpers.rs:1981-2005 | over every run a log is live iff some registration of its id was followed by no removal or registration of it and by no sweep 3600 seconds past that registration or later; it then has that registration's clock, owner and capacity and every step emitted since, and opens for that owner alone |
| LogLocks.OperationsWritten | panel/backend/src/helpers.rs:1988-2033 | the locks each log operation takes and drops, in order, and the maps it works on while it holds them |
| LogLocks.LockOrderNeverDeadlocks | panel/backend/src/helpers.rs:1964-1969 | any tasks making any sequence of the log operations, each with its own lock and unlock steps, never deadlock and always finish |
| LogLocks.OwnersFirstDeadlocks | panel/backend/src/helpers.rs:1964-1969 | one task taking the owners' lock first can come to a standstill with a sweep |
| ProvisionLogs.ProvisionTables.RegisterProvisionLog | panel/backend/src/helpers.rs:1981-1993 | an empty log on a new channel of that capacity, created now and owned by the registrant; an entry replaced is dropped with its channel; the rest as the register step |
| ProvisionLogs.ProvisionTables.ForgetProvisionLog | panel/backend/src/helpers.rs:2000-2005 | drops exactly the log and the owner row of the id and closes the channel |
| ProvisionLogs.ProvisionTables.OpenProvisionLog | panel/backend/src/helpers.rs:2020-2043 | the history and a receiver positioned behind it, for the owner of a live log; the same refusal otherwise |
| ProvisionLogs.ProvisionTables.EmitStep | panel/backend/src/helpers.rs:2212-2223 | pushes to history and channel in one step, keeping the invariant |
| ProvisionLogs.ProvisionTables.Sweep | panel/backend/src/main.rs:592-597 | two `retain` loops leave exactly the logs younger than an hour, unchanged and with their owners, no other owner, every other channel closed, and the invariant |
| RateLimit.AgentRateLimits.AgentRateLimit | panel/backend/src/auth.rs:429-445 | counts the call in its server's window, opening a new one 60 seconds after its start, and accepts up to the 120th |
| RateLimit.AgentRateLimits.Cleanup | panel/backend/src/main.rs:557-559 | the `retain` loop keeps exactly the entries whose window is still open, each unchanged |
| RateLimit.SweepingChangesNothing | panel/backend/src/main.rs:557-559 | tables that differ only in entries already over give every later call the same answer |
| RateLimit.JanitorIsInvisible | panel/backend/src/main.rs:557-559 | wherever the janitor's passes fall, every call gets the answer it would get without a janitor |
| RateLimit.AcceptanceBounds | panel/backend/src/auth.rs:427-445 | over every run, per server at most 120 accepted calls per window and 240 in any closed span of 60 seconds |
| RateLimit.BoundsAreReached | panel/backend/src/auth.rs:427-445 | a run in which 240 calls are accepted in 60 seconds |
| RateLimit.FirstHundredTwentyPass | panel/backend/src/auth.rs:427-445 | a call is accepted iff fewer than 120 calls of its server came before it in its window |
| RateLimit.WindowsLastAMinute | panel/backend/src/auth.rs:429-440 | over every run a call is counted in its server's last window if that began less than 60 seconds ago, and otherwise opens one of its own |
| Suspension.UserRow.SuspendAccount | panel/backend/src/helpers.rs:218-238 | one atomic update: stash the role and suspend, unless suspended already or the caller's predicate fails; reports the rows changed |
| Suspension.UserRow.UnsuspendAccount | panel/backend/src/helpers.rs:294-330 | alone, restores exactly the stashed role if it is one of admin, reseller, user and client and not denied, and the account is suspended; reports it even when the account is live |
| Suspension.RestoreNeverInvents | panel/backend/src/helpers.rs:218-330 | however suspends and two-step un-suspends interleave, without role changes, the row is the original role, or suspended with the original stashed |
| Suspension.RestoreFaithfulIffStashHarmless | panel/backend/src/helpers.rs:311-318 | from a live row with some stash, that holds for all runs iff the stash is absent, unassignable or the same role |
| Suspension.StaleStashOverrides | panel/backend/src/helpers.rs:299-309 | a run by which any other assignable stash replaces the live role |
| Suspension.SuspendTwiceKeepsStash | panel/backend/src/helpers.rs:223-226 | a repeated suspend keeps the first stash |
| Suspension.RoundTrip | panel/backend/src/helpers.rs:218-330 | suspend then un-suspend gives the role back iff it may be restored; otherwise the row stays suspended with it stashed |
| Suspension.RefusedStaysSuspended | panel/backend/src/helpers.rs:249-262 | over every run whose un-suspends refuse a role, a row suspended from that role stays so |
| Suspension.ReportedRestoreMayBeNone | panel/backend/src/helpers.rs:314-329 | alone, an un-suspend that reports a role leaves the row unchanged iff the account was live |
| Suspension.LateWriteChangesIff | panel/backend/src/helpers.rs:314-329 | in every run the write of a waiting un-suspend changes the row iff the account is suspended as it lands; after another's write, iff an allowed suspend came between with no restore or role change after it |
| Suspension.SecondWriteBothWays | panel/backend/src/helpers.rs:314-329 | two un-suspends in flight: a run in which only the first restores, and one in which both do |
| Suspension.RestoreOverridesIff | panel/backend/src/routes/users.rs:240-262 | in every run with role changes a restore brings back another role than the one last held iff the stash it read is no longer the row's |
| Suspension.ChosenRoleIsOverridden | panel/backend/src/routes/users.rs:254-262 | a run in which a role chosen while an un-suspend is under way is overridden |
| Suspension.RoleChangeLeavesStash | panel/backend/src/routes/users.rs:254-262 | a role change of a suspended account leaves it live beside its old stash, which an un-suspend then reports |
| TokenRotation.UndividedRequest | panel/agent/src/routes/mod.rs:166-208 | a request read in one go is accepted iff its token is the current one or the previous one within sixty seconds |
| TokenRotation.ExpiryKills | panel/agent/src/routes/mod.rs:193-202 | the previous token is refused from the sixtieth second on |
| TokenRotation.TwiceReplacedDies | panel/agent/src/routes/mod.rs:217-222 | a rotation's first write leaves only the token being replaced and its successor alive |
| TokenRotation.DeadForever | panel/agent/src/routes/mod.rs:166-249 | a dead token stays dead in every run, and no later request carrying it is accepted |
| TokenRotation.GraceExactly | panel/agent/src/routes/mod.rs:210-249 | within sixty seconds of a rotation's first write the replaced token is accepted iff no later rotation has made its own first write |
| TokenRotation.SecondRotationCutsGrace | panel/agent/src/routes/mod.rs:217-234 | a run in which a second, failing rotation ends the first token's grace at once |
| TokenRotation.LiveIsNeverRefused | panel/agent/src/routes/mod.rs:185-204 | a token that stays live is never refused, even when a rotation falls between the two reads of a request |
| TokenRotation.FileAgrees | panel/agent/src/routes/mod.rs:224-245 | between rotations the token file and the running agent agree, whichever writes failed |
| TokenRotation.AgentTokens.Authenticate | panel/agent/src/routes/mod.rs:181-207 | the accept decision on the stored tokens |
| TokenRotation.AgentTokens.RotateToken | panel/agent/src/routes/mod.rs:212-249 | the stored tokens and file after success and after each of the two failures |
| TokenRotation.RotationSteps | panel/agent/src/routes/mod.rs:212-249 | the step-by-step rotation, run alone, ends where the method says |
| MainCf.ConfigFile.ConfigureRelay | panel/agent/src/routes/mail.rs:1855-1893 | refused exactly for an empty host or forbidden characters; otherwise a tidy file's lines are those that no relay setting and no relay comment claims, then the seven lines of the relay, and only the relay and outbound readings change |
| MainCf.ConfigFile.RemoveRelay | panel/agent/src/routes/mail.rs:1909-1924 | on a tidy file leaves the lines that no relay setting and no relay comment claims, less a blank last one, and clears exactly the relay and outbound readings |
| MainCf.ConfigFile.RelayStatus | panel/agent/src/routes/mail.rs:1896-1906 | the value of the first `relayhost` line; configured iff it is not empty |
| MainCf.ConfigFile.SetRateLimit | panel/agent/src/routes/mail.rs:2038-2070 | accepted iff a positive 32-bit number, a slash and minute, hour or day; then a tidy file's lines are those without the rate comment and the two rate settings, then the comment, the delay and the limit, and only the rate reading changes |
| MainCf.ConfigFile.RemoveRateLimit | panel/agent/src/routes/mail.rs:2082-2091 | on a tidy file leaves the lines without the rate comment and the two rate settings, less a blank last one, and clears exactly the rate reading |
| MainCf.ConfigFile.RateLimitStatus | panel/agent/src/routes/mail.rs:2073-2079 | the value of the first line that holds the rate comment and a colon, or none |
| MainCf.ConfigFile.EnforceTls | panel/agent/src/routes/mail.rs:2471-2493 | accepted iff both levels are may, encrypt or none; then a tidy file's lines are those that start with neither security level, then the two levels, and no other reading changes |
| MainCf.ConfigFile.TlsStatus | panel/agent/src/routes/mail.rs:2244-2264 | the inbound and outbound readings, whether each is `encrypt`, and the value of the first line of Dovecot's file that starts with `ssl` |
| MainCf.ConfigFile.InstallMilter | panel/agent/src/routes/mail.rs:1486-1500 | succeeds iff a milter list exists; on a tidy file changes no reading |
| MainCf.StepRefines | panel/agent/src/routes/mail.rs:1855-1923 | one request on a tidy file does to the four readings what it does to an abstract record, and leaves the file tidy |
| MainCf.RunRefines | panel/agent/src/routes/mail.rs:2038-2091 | after any sequence of relay, rate, TLS and milter requests the readings are those of the record |
| MainCf.RunKeepsOthers | panel/agent/src/routes/mail.rs:1876-1879 | over any such sequence, every non-blank line that starts with none of the named settings, holds neither comment and sets no milter key keeps its content and order |
| MainCf.LaterEditWinsIff | panel/agent/src/routes/mail.rs:1909-1916 | an edit after another by the same handler gives what it would have given alone, iff the first was no removal that took a trailing blank line |
| MainCf.SecondRemovalDiffers | panel/agent/src/routes/mail.rs:1909-1916 | a file from which removing the relay twice takes one more line than removing it once |
| MainCf.ReportedIff | panel/agent/src/routes/mail.rs:1896-1900 | the relay reader reports `[host]:port` iff the host has no `=` |
| MainCf.HostWithEqualsIsCutShort | panel/agent/src/routes/mail.rs:1855-1900 | an accepted host with `=` that is not reported as configured |
| MainCf.RelayOutlivesRateEditIff | panel/agent/src/routes/mail.rs:2082-2086 | for any accepted host, a configured relay survives the removal of a rate limit iff the host does not hold the rate marker |
| MainCf.MarkedHostLosesRelay | panel/agent/src/routes/mail.rs:2082-2086 | an accepted host whose relay is gone once a rate limit is removed |
| MainCf.RateBlockMeans | panel/agent/src/routes/mail.rs:2041-2061 | the printed delay d and limit of N per period P satisfy d·N ≤ P < (d+1)·N, d is zero iff N > P, and the limit is N or fifty |
| MainCf.FastRateIsNoDelay | panel/agent/src/routes/mail.rs:2041-2061 | 61 messages a minute are accepted and printed as a delay of zero |
| MainCf.DropsWhatItOwns | panel/agent/src/routes/mail.rs:2480-2482 | on a tidy line, a handler's filter drops a line some reader stops at iff that reading is the handler's own; the outbound level is both relay's and TLS's |
| MainCf.DropsExactly | panel/agent/src/routes/mail.rs:2480-2482 | of any line, tidy or not: TLS enforcement drops it iff a TLS reading stops at it; the relay filter iff it starts with `relayhost`, `smtp_sasl_` or `smtp_tls_` or holds the relay comment; the rate filter iff it starts with one of the two settings a rate writes or holds the rate comment |
| MainCf.TlsEditLines | panel/agent/src/routes/mail.rs:2471-2488 | the levels accepted, and the exact lines of a tidy file afterwards |
| MainCf.RelayAcceptedIff | panel/agent/src/routes/mail.rs:1856-1862 | which relay requests are accepted |
| MainCf.RelayEditLines | panel/agent/src/routes/mail.rs:1876-1887 | the exact lines of a tidy file once a relay is configured |
| MainCf.RateIff | panel/agent/src/routes/mail.rs:2041-2053 | a rate parses to N per P iff it is a spelling of a positive 32-bit N, a slash, and minute, hour or day for P of 60, 3600 or 86400 seconds |
| MainCf.RateEditLines | panel/agent/src/routes/mail.rs:2054-2064 | the exact lines of a tidy file once a rate is set |
| MainCf.RemovalLines | panel/agent/src/routes/mail.rs:1909-1916 | the exact lines of a tidy file after either removal, which loses a blank last line |
| MainCf.ValueBehindMeans | panel/agent/src/routes/mail.rs:1897-1900 | a line's value is the trimmed text between its first separator and the next one or the end; without a separator it is empty |
| Milters.AddMilter | panel/agent/src/routes/mail.rs:1411-1441 | the loop computes the edited text, and finds nothing iff no line sets either key |
| Milters.MilterLineIff | panel/agent/src/routes/mail.rs:1416-1420 | a line sets a milter key to a value iff it is `smtpd_milters` or `non_smtpd_milters`, white space or none, an equals sign and a text that trims to the value |
| Milters.LineKeepsMilters | panel/agent/src/routes/mail.rs:1416-1433 | an edited line sets the same key, to the same list if the milter was in it, else to that list, a comma, a space and the milter |
| Milters.AddedTwiceIff | panel/agent/src/routes/mail.rs:1402-1410 | adding a milter twice equals adding it once iff every terminated line of the text that ends in a carriage return is a milter line lacking the milter |
| Milters.SecondAddDiffers | panel/agent/src/routes/mail.rs:1402-1410 | a text on which it does not |
| SenderLogins.CheckSync | panel/agent/src/routes/mail.rs:1120-1163 | passes a request iff every account, alias and catch-all is as the lemmas below describe; the first bad account is refused before any alias, and a bad alias before any catch-all |
| SenderLogins.AccountPassesIff | panel/agent/src/routes/mail.rs:1108-1144 | an account passes iff its address is `local@domain` with one `@`, both parts non-empty, local not only dots, and letters, digits, `.`, `_`, `-`, `+` throughout, its hash has no colon, line end, NUL or tab, and its forward target has only those characters and `@` |
| SenderLogins.AccountVerdict | panel/agent/src/routes/mail.rs:1120-1144 | which refusal any account gets, by the parts of its address around the first `@` |
| SenderLogins.AliasPassesIff | panel/agent/src/routes/mail.rs:1145-1156 | an alias passes iff its source has non-empty parts around its first `@`, the first not only dots, and the same characters, and its destination has those and commas |
| SenderLogins.DomainPassesIff | panel/agent/src/routes/mail.rs:1157-1164 | a catch-all passes iff it is absent or has only those characters and slashes |
| SenderLogins.PassesIff | panel/agent/src/routes/mail.rs:1120-1164 | the checks let through exactly the requests so described |
| SenderLogins.BuildSenderLoginMap | panel/agent/src/routes/mail.rs:2326-2351 | prints one row per enabled mailbox, then one per enabled domain with its enabled logins |
| SenderLogins.SuffixIsDomain | panel/agent/src/routes/mail.rs:2334-2340 | for an address with one `@`, ending in `@domain` is being at that domain, never at a subdomain |
| SenderLogins.TableGrantsExactly | panel/agent/src/routes/mail.rs:2284-2313 | for every validated request with safe domain names the printed table lets L send as S iff S is an enabled mailbox equal to L, or no mailbox and L an enabled mailbox of S's enabled domain |
| SenderLogins.NoCrossDomainSending | panel/agent/src/routes/mail.rs:2322-2325 | a login that is an address and may send as S is an enabled mailbox of S's domain |
| SenderLogins.UnsafeLocalPartShadowsDomain | panel/agent/src/routes/mail.rs:1102-1115 | without the local-part check a mailbox `@d` would take over the row of domain `d` |
| Crontab.SyncCrons | panel/agent/src/routes/crons.rs:76-168 | the new file is the lines whose id was not sent, in order, then one printed line per job that is enabled and has five schedule fields, a command, and the filter's word for it; skipped names the other enabled jobs in order, synced counts the printed |
| Crontab.SentLinesAreDue | panel/agent/src/routes/crons.rs:87-152 | after a sync the lines whose id was sent are exactly the printed lines of the enabled jobs with five schedule fields, a command and the filter's word for it |
| Crontab.ValidIffFiveFields | panel/agent/src/routes/crons.rs:279-288 | a schedule is valid iff it is five non-empty fields of digits, `*`, `/`, `-` and `,` with white space between them, and some or none around |
| Crontab.MarkedLineId | panel/agent/src/routes/crons.rs:272-276 | the id of a marked line is the first word between its first marker and the next one or the end, if there is one |
| Crontab.PrintedId | panel/agent/src/routes/crons.rs:272-276 | the id read off a printed line is the job's, for any command and caption free of the marker |
| Crontab.SyncedLines | panel/agent/src/routes/crons.rs:87-152 | the synced file's lines are the foreign ones in order, unchanged but for one final carriage return, then one per scheduled job |
| Crontab.ForeignLinesSurvive | panel/agent/src/routes/crons.rs:87-97 | lines whose id was not sent survive a sync unchanged and in order iff none still ends in a carriage return and the file is left with some line |
| Crontab.SyncIsIdempotentIff | panel/agent/src/routes/crons.rs:76-168 | syncing a payload twice gives the same text as syncing it once iff no foreign line still ends in a carriage return |
| Crontab.DisjointSyncsCommute | panel/agent/src/routes/crons.rs:76-168 | syncs of disjoint ids commute as multisets of lines iff neither order refills a file it has emptied |
| Crontab.EmptyPayloadFirstDiffers | panel/agent/src/routes/crons.rs:76-168 | an empty crontab and an empty payload for which the order shows |
| Crontab.RemoveDropsExactly | panel/agent/src/routes/crons.rs:249-264 | removal drops exactly the lines of that id and keeps the rest in order, unchanged but for one final carriage return |
| Crontab.ListRoundTrip | panel/agent/src/routes/crons.rs:222-243 | the listing recovers id, schedule with command, and caption of a printed job, each trimmed; exactly as printed iff they were trimmed already |
| Crontab.ExportRoundTrip | panel/agent/src/routes/iac.rs:281-311 | the export recovers id, single-spaced schedule, command without what trails it, and trimmed caption |
| Crontab.ExportsScheduleIffSingleSpaced | panel/agent/src/routes/iac.rs:295-302 | the export recovers the schedule iff it has exactly four spaces and no leading white space and the command is not blank |
| Crontab.TwoSpacesAreNotExported | panel/agent/src/routes/iac.rs:295-302 | a valid schedule that it does not recover |
| Chunked.DecodeChunked | panel/cli/src/client.rs:141-175 | the loop stays in bounds, ends on every input, and computes the decoding the lemmas below are about, or stops where the offset would overflow |
| Chunked.DecodesEncodings | panel/cli/src/client.rs:141-175 | decoding any extension-free encoding of non-empty chunks gives their concatenation, whatever bytes they hold; decoding any truncation gives a prefix |
| Chunked.DecodeCut | panel/cli/src/client.rs:164-171 | the same for chunks followed by any ending that decodes to nothing, wherever the wire is cut |
| Chunked.LastChunkDecodesToNothing | panel/cli/src/client.rs:160-162 | the zero chunk and everything behind it decode to nothing, however cut |
| Chunked.PlainChunksAreWellFormed | panel/cli/src/client.rs:154-158 | a chunk behind any spelling of its size (either case, mixed; leading zeros; a plus; white space without CR) is read as one of that size, whatever bytes it holds |
| Chunked.SpelledSizeIsRead | panel/cli/src/client.rs:154-158 | every spelling of a size in the digits `0-9a-fA-F`, with leading zeros, a plus and white space around it or not, is read as that size, and refused past `usize` |
| Chunked.ReadSizeIsSpelled | panel/cli/src/client.rs:154-158 | whatever is read as a size is such a spelling of it |
| Chunked.DecodesSpelledChunks | panel/cli/src/client.rs:141-175 | a body cut into chunks, each behind its size in any spelling, decodes to itself, and a truncation of the wire to a prefix of it |
| Chunked.OverflowIff | panel/cli/src/client.rs:164-165 | the decoder overflows iff some chunk met at a chunk boundary announces more than `usize` has left above its offset |
| Chunked.OversizeHeaderOverflows | panel/cli/src/client.rs:155-165 | sixteen hexadecimal `f`s and a line end are enough |
| Chunked.DecodesIffNoExtension | panel/cli/src/client.rs:141-175 | a body of chunks with or without extensions decodes to its data iff no chunk has one |
| Chunked.ExtensionLosesBody | panel/cli/src/client.rs:154-158 | a wire with one extension whose whole body is lost |
| ProgressStream.ShowFrame | panel/cli/src/backend_client.rs:159-185 | shows a frame's steps in order up to and including the first `complete` |
| ProgressStream.FollowProgress | panel/cli/src/backend_client.rs:146-189 | the steps shown and the verdict are a function of the concatenated bytes, not of how the transport cut them |
| ProgressStream.StreamCarries | panel/cli/src/backend_client.rs:155-161 | the steps of a stream of events are those its `data: ` payloads parse to, in order, whatever other lines stand between; an event whose blank line has not arrived counts for nothing |
| Text.CutExtends | panel/cli/src/backend_client.rs:153-156 | bytes that arrive later join the leftover and leave what was already cut, for frames and lines alike |
| Text.CutConserves | panel/cli/src/backend_client.rs:155-156 | the parts cut and the leftover are the bytes received; each part ends at its only separator and the leftover has none |
| ProgressStream.VerdictStands | panel/cli/src/backend_client.rs:178-184 | once a verdict is reached no later byte changes it or what was shown |
| ProgressStream.VerdictIsFirstComplete | panel/cli/src/backend_client.rs:178-184 | the verdict is that of the first step named `complete`, failed iff its status is `error`, whatever earlier steps said, and that step is the last shown |
| ProgressStream.NoVerdictWithoutComplete | panel/cli/src/backend_client.rs:189 | without a `complete` step there is no verdict |
| TailLines.Tailer.Read | panel/agent/src/safe_cmd.rs:365-385 | one read sends the complete lines of carry and new text, in order, and carries the rest; a gone receiver stops it after the lines it took |
| TailLines.Tailer.Flush | panel/agent/src/safe_cmd.rs:386-390 | the last act sends a non-empty carry as it stands |
| TailLines.FileLinesAre | panel/agent/src/safe_cmd.rs:371-390 | the lines of a file are its texts in order without their line ends, carriage returns included, and a last unterminated one as it stands |
| TailLines.NothingLostNorRepeated | panel/agent/src/safe_cmd.rs:355-394 | in every schedule of appends, polls and the flag, lines sent plus carry are the file up to `pos` |
| TailLines.ReturnsWholeFile | panel/agent/src/safe_cmd.rs:312-320 | a tailer that returned has sent the lines of the file up to `pos`: exactly the final file's iff nothing was left unread, as after a successful last read, or only the end of a line already sent |
| TailLines.FailedLastReadLosesLines | panel/agent/src/safe_cmd.rs:365-391 | a schedule in which the last read fails and the only line is never sent |
| TailLines.StopsSoonAfterDone | panel/agent/src/safe_cmd.rs:364-391 | once the flag is set the tailer begins at most one more poll |
| AnsiEscapes.StripAnsiEscapes | panel/agent/src/routes/logs.rs:673-715 | the iterator loop computes the text with its escapes removed |
| AnsiEscapes.StripIsIdempotent | panel/agent/src/routes/logs.rs:673-715 | the output has no ESC, stripping twice is stripping once, and a text is unchanged iff it has no ESC |
| AnsiEscapes.StripsInsertedSequences | panel/agent/src/routes/logs.rs:671-709 | text with letter-terminated CSI, BEL- or ESC-backslash-terminated OSC and two-character sequences inserted anywhere comes back as the text |
| AnsiEscapes.CsiLeavesTextIffLetterFinal | panel/agent/src/routes/logs.rs:681-687 | a standard CSI sequence before ESC-free text leaves that text iff its final byte is a letter or the text is empty |
| AnsiEscapes.TildeFinalEatsText | panel/agent/src/routes/logs.rs:681-687 | the delete-key sequence, which ends in `~`, takes the text behind it up to its first letter |
| UnsandboxedArgv.UnsandboxedCommand.constructor | panel/agent/src/safe_cmd.rs:442-460 | a fresh vector is the options, the separator and the program |
| UnsandboxedArgv.OptionsText | panel/agent/src/safe_cmd.rs:445-456 | the options are three flags, six fixed `--setenv`, written out, and one `--setenv` per variable |
| UnsandboxedArgv.UnsandboxedCommand.Arg | panel/agent/src/safe_cmd.rs:169-172 | appends the escaped argument and nothing else |
| UnsandboxedArgv.UnsandboxedCommand.Args | panel/agent/src/safe_cmd.rs:175-184 | appends every argument, escaped, in order |
| UnsandboxedArgv.UnsandboxedCommand.InsertUnitArg | panel/agent/src/safe_cmd.rs:481-497 | one `--unit=` more before the separator, the rest as it was; returns the program |
| UnsandboxedArgv.UnitGoesBeforeSeparator | panel/agent/src/safe_cmd.rs:481-497 | naming the unit puts one `--unit=` option right ahead of the `--` and the program and changes nothing else |
| UnsandboxedArgv.SeparatorIsFirst | panel/agent/src/safe_cmd.rs:472-480 | the first `--` is the separator whatever the environment and unit names hold: before it the options, behind it the program and the arguments |
| UnsandboxedArgv.ArgumentsSurvive | panel/agent/src/safe_cmd.rs:137-155 | whatever variables mean, an escaped UTF-8 argument expands to the argument the caller gave |
| UnsandboxedArgv.UnescapedSurvivesIffNoDollar | panel/agent/src/safe_cmd.rs:150-155 | text passed as it stands survives every expansion iff it has no dollar |
| UnsandboxedArgv.VectorMeans | panel/agent/src/safe_cmd.rs:442-497 | after any sequence of calls the inner command gets the program and the caller's arguments, whatever variables mean, iff neither the program nor an argument that is not UTF-8 has a dollar |
| UnsandboxedArgv.RunsAreEven | panel/agent/src/safe_cmd.rs:150-155 | in an escaped argument every maximal run of dollars has even length |
| IpAllowlist.MaskTestIsPrefixEquality | panel/backend/src/helpers.rs:757-771 | the bit-vector mask test is equality of the integers' leading bits, for every prefix length from 0 to the full width |
| IpAllowlist.BlockCovers | panel/backend/src/helpers.rs:744-774 | a block covers a client iff it parses, the families match, the length fits and the prefixes are equal |
| IpAllowlist.ValidIffCoversSomething | panel/backend/src/helpers.rs:791-804 | an entry validates iff some address is covered by it |
| IpAllowlist.ListAdmitsIffEntryCovers | panel/backend/src/helpers.rs:778-789 | a comma-joined list admits a client iff its address parses and some non-blank entry covers it |
| InternalAddresses.EmbeddingsKeepInternal | panel/backend/src/helpers.rs:683-729 | under each of the four embeddings an address is internal iff the IPv4 address is, save for `::1` |
| InternalAddresses.InternalV4AreBlocks | panel/backend/src/helpers.rs:672-681 | as numbers, the internal IPv4 addresses are exactly 127/8, 10/8, 172.16/12, 192.168/16, 169/8, 100.64/10, 0.0.0.0 and 255.255.255.255 |
| InternalAddresses.InternalV6Iff | panel/backend/src/helpers.rs:697-729 | an IPv6 address is internal iff it is `::1`, in fc00::/7 or fe80::/10, or embeds an internal IPv4 address in one of the four ways |
| InternalAddresses.MasksAreBlocks | panel/backend/src/helpers.rs:679-728 | the bit masks are the blocks 100.64.0.0/10, fc00::/7 and fe80::/10 |
| Text.LinesOfJoin | panel/agent/src/routes/mail.rs:1911-1913 | lines joined by line feeds and read again are the same lines, less a blank last one |
| Text.LinesOfJoinedThen | panel/agent/src/routes/mail.rs:1877-1886 | lines joined, a line feed and more text read back as the lines (one blank line for none) and the lines of the rest |
| Text.LineEnds | panel/agent/src/routes/crons.rs:90-91 | a line ends in a line feed or in a carriage return and a line feed, and loses that one carriage return only |
| Text.WhiteSpaceIff | panel/agent/src/routes/crons.rs:280 | white space is Unicode's twenty-five characters |
| Text.ParseU32Iff | panel/agent/src/routes/mail.rs:2045 | a text parses as an unsigned 32-bit number iff it is digits that spell one, after a plus or none |
| Text.DecimalIsNumeral | panel/agent/src/routes/mail.rs:1881-1884 | a printed number is its decimal digits, without a leading zero |

## Left out

- HTTP routing, JSON shapes, SQL beyond the updates of a user's role, Docker, nginx, systemd and DNS: unseen tools.
- SiteLocks.Registry.LockSite: stated for a key nobody holds; waiting is in the state machine, since a method cannot wait.
- SiteLocks.Registry.LockSites: stated for two keys nobody holds, for the same reason.
- SiteLocks: a freed mutex goes to any waiter, not to the first; tasks that drop a future while waiting are not modelled.
- NestedLocks.AgentRunsFinishIff: an operation that may or may not reach its nested call, depending on DNS or the certificate authority, is two operations here.
- ProvisionLogs: a channel's capacity is the number of steps its ring really keeps, which the library may round up from the number asked for; the delay after which a feature removes its finished log is any delay.
- ProvisionLogs.ProvisionTables: dropping the last sender is modelled as closing the channel in the same step.
- MainCf.StepRefines: assumes a tidy file (the two marker comments stand on lines of their own, and no line ends in a carriage return once its line end is cut) and a relay host without a marker; `RelayOutlivesRateEditIff` says what another host loses. A host with `=` is included, by what the reader shows of it.
- MainCf.TlsEditLines: assumes a tidy file, like the other laws that give the lines of an edited file; which lines an editor drops (`DropsExactly`) is stated for any line.
- MainCf.RunRefines: assumes the same of the first file and of every host.
- MainCf.RunKeepsOthers: assumes the same of the first file and of every host.
- MainCf.LaterEditWinsIff: assumes the same of the file and of the first host.
- MainCf.RelayOutlivesRateEditIff: assumes a tidy file before the relay is set.
- MainCf: `sasl_passwd` and Postfix's own reading of continuation lines are not part of this model; a failed write is a request that changes nothing.
- SenderLogins: Postfix's case folding, address extensions and the comment and continuation syntax of `postmap` are not modelled; safe domain names are what the domain handlers accept. The other maps that `sync_config` writes are left out.
- Crontab.SyncedLines: assumes, of scheduled jobs only, an id without white space, fields without line feeds, a caption that does not end in a carriage return, and no marker in the command or in id and caption together.
- Crontab.ForeignLinesSurvive: assumes the same of scheduled jobs.
- Crontab.SyncIsIdempotentIff: assumes the same of scheduled jobs.
- Crontab.DisjointSyncsCommute: assumes the same of both payloads' scheduled jobs.
- Crontab.PrintedId: assumes the same of the job; so do the two round trips.
- Crontab: the crontab subprocess is a read or write of the whole text.
- Chunked.DecodeChunked: lossy UTF-8 decoding of a size line and non-ASCII white space around it are not modelled.
- ProgressStream.StreamCarries: assumes that no line of an event ends in a carriage return, which the reader cuts off.
- ProgressStream, TailLines: text is characters; cuts inside a multi-byte character, and lossy decoding of them, are not modelled.
- TailLines: the relaxed atomic flag is read and written in program order; the library does not promise it, the spawned task's scheduling gives it.
- RateLimit: counts are unbounded, so the 2^32-th call of one window is not modelled. The login, two-factor, webhook and OAuth maps of the same janitor follow the same pattern.
- TokenRotation: rotations do not overlap each other; two at once could install either token. Permissions of the token file are left out.
- Suspension: a role change is the update of the role column; the last-administrator guard, which may refuse it, and session revocation are left out.
- UnsandboxedArgv: capture files, timeouts and the unit's own parsing of `ExecStart` beyond dollar expansion are left out.
- IpAllowlist: address syntax is the parser's, a parameter.
- `log_stats` counters, the active stream guard, supervised restarts with growing delay, site scanning in the export, validators and pagination: a reading of the branches settles them.
