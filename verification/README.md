# Verified models of the zaz daemon, log store, splicer and supervisor

zaz runs groups of tasks and services that depend on each other, restarts them when files
change, keeps their output in a bounded in-memory log with an optional SQLite table behind
it, and can put a supervisor in front of several daemons. This project models the parts of
zaz in which state, graphs and bounds interact, and proves what they are for. Check it with
`dafny verify dfyconfig.toml`.

| modules | what they cover |
|---|---|
| `Graph`, `CycleCheck`, `TopoSort`, `RootFilter` | the dependency graph, the validator's cycle search, the engine's topological sort, and the choice of root groups for a file change |
| `Resolver`, `Wave`, `WaveEngine` | the dependency resolver as a class, one wave of starts as a transition system over all event orders, and the engine calls that drive the resolver, proved to be runs of that system |
| `TaskRuns`, `GroupReports`, `RestartCascade` | at most one execution of a task at a time with one remembered re-run, how the results of tasks become one report of their group, and the cascade of restarts to dependents |
| `LogLines`, `LogBuffer`, `LogDisk`, `HybridLog` | the ring buffers with their memory counter and eviction, the table with atomic batches and the retention sweep, and the two together |
| `LogSort`, `LogQuery`, `QueryAgreement` | what a query finds in memory and in SQL, when the answers agree, and paging |
| `Splicer`, `DocsCli`, `Workspace` | splicing text between markers, regenerating a document, and addressing groups across projects |
| `Common`, `Strings` | sequences, suffixes, first occurrences, splitting at a separator |

How the main results hang together:

- **A wave.** `Wave.State` holds the resolver's waiting sets and statuses, the groups that have
  been started and not reported, and the groups found to be doomed and not yet marked.
  `Wave.RunInv` gives, for every run, where each group is and why. `Wave.Final` is the
  recursive specification of a group's last status; `Wave.CompleteIsFinal` and
  `Wave.OrderIndependence` say that every complete run ends there, `Wave.Progress` and
  `Wave.RunsFinish` that runs get there. `WaveEngine.Engine.InStep` ties the
  fields of resolver and engine to a run; every engine method keeps it and extends the run.
  `WaveEngine.BootAndRun` puts it together: from a configuration to the end of its first
  wave, with the groups reporting in any order.
- **Cascades.** `Resolver.SkipSet` is a least set; the worklist of `CascadeSkipFrom` computes it
  on any graph, cyclic or not.
- **Logs.** Ghost histories record what was pushed, or committed, for each process since it was last
  cleared; hot buffers and table rows are suffixes of them in every reachable state. The
  buffers start empty over whatever an earlier daemon left in the table.
- **Bounds that are casts.** The table's limits, the bounds on time and the paging parameters are
  unsigned numbers cast to signed ones. The casts are modelled (`LogLines.AsI64`), and above
  2^63-1 they are visible: a row cap deletes rows instead of keeping all of them
  (`LogDisk.LeftWithinCap`), a size budget empties the table
  (`LogDisk.OversizedBudgetEmpties`), a lower bound on time lets every row pass and an upper
  one none, where memory does the opposite (`QueryAgreement.OneProcessAgrees`,
  `QueryAgreement.HugeUntilDiffers`), and an offset starts again from the first row
  (`QueryAgreement.PagesAgree`).

Properties that fail for some inputs are stated with the exact condition under which they
hold:

- every request for a task is served: `TaskRuns.RequestsServed`;
- a group whose tasks all succeed reports success: `GroupReports.ReportsFailure`. A task that
  was not run this time and is left as failed from earlier makes the group fail
  (`GroupReports.OldFailureFailsAgain`);
- memory and table answer a query alike, page by page: `QueryAgreement.OneProcessAgrees` and
  `QueryAgreement.AllProcessesAgree` for one query, `QueryAgreement.OneProcessAlwaysAgrees` and
  `QueryAgreement.AllProcessesAlwaysAgree` for all of them, `QueryAgreement.PagesAgree` for paging;
- a sweep leaves a table within its limits alone: `LogDisk.WithinBudgetKept` for the size budget,
  `LogDisk.LeftWithinCap` for the row cap, `LogDisk.LeftAlone` for both. A size budget of
  2^63 bytes and more can be configured, as it is written as a string
  (crates/zaz-config/src/user.rs:134-151); such a row cap cannot be written in TOML, whose
  integers end at 2^63-1, and concerns callers that build a policy themselves;
- a second splice changes nothing: `Splicer.Idempotent`;
- a qualified name leads back to its group: `Workspace.QualifiedRoutesBack`. The failing case, a
  group without a name, is refused by the validator (crates/zaz-config/src/validate.rs:67-85), so
  every group of a validated member is addressable.

Where comments and code of the repository differ, the model follows the code. The comment on
`splice` (crates/xtask/src/splicer.rs:13-14) says the content goes in as it is; the code trims
its newlines and adds its own. The comment on `enforce_retention`
(crates/zaz-daemon/src/log_storage_sqlite.rs:289-291) promises to delete only rows beyond the
cap; the casts above delete more. The comment on `cascade_skip`
(crates/zaz-daemon/src/engine.rs:3039-3042) speaks of all dependents that waited for the group;
the code skips those that wait for nothing else any more, and the others are
skipped when their last dependency reports.

## Model

| member | source | states |
|---|---|---|
| `CycleCheck.DetectCycle` | crates/zaz-config/src/validate.rs:177-205 | No cycle is reported exactly when the dependency graph has none; a reported list is a walk along dependency edges whose first and last node coincide and which repeats no other node. |
| `CycleCheck.CycleSearch.DfsCycle` | crates/zaz-config/src/validate.rs:207-240 | Throughout the search `path` is a walk whose nodes are exactly `visiting`, so the position looked up for the cycle always exists; finished nodes have only finished dependencies; a search that finds nothing leaves `path` as it was and its node finished. |
| `Graph.AdjacencyAt` | crates/zaz-daemon/src/engine.rs:3403 | A group is looked up with all its dependencies in their order, the last group of a name winning. |
| `Graph.DfsClosesCycle` | crates/zaz-config/src/validate.rs:213-220 | Meeting a node of the walk under exploration closes a simple cycle from its first position. |
| `Graph.OrderedIsAcyclic` | crates/zaz-daemon/src/engine.rs:3398-3445 | A graph whose nodes can be listed dependencies first has no cycle of any length. |
| `TopoSort.TopologicalSort` | crates/zaz-daemon/src/engine.rs:3398-3445 | Succeeds exactly on acyclic graphs; an order lists each group and each named dependency once, every dependency before its dependents; an error names a group on a cycle. |
| `TopoSort.Sorter.Visit` | crates/zaz-daemon/src/engine.rs:3405-3432 | Terminates by the names not on the stack, keeps the marks equal to the stack and the result, keeps the result in dependency order and adds the visited name; an error names a node on a cycle. |
| `TopoSort.ReloadOrder` | crates/zaz-daemon/src/engine.rs:2352-2416 | The two searches agree: a configuration the validator accepts never reaches the reload branch that fails after services were stopped. |
| `RootFilter.KeepRoots` | crates/zaz-daemon/src/engine.rs:3317-3333 | Keeps exactly the affected groups none of whose direct dependencies are affected. |
| `RootFilter.KeepRootsConcat` | crates/zaz-daemon/src/engine.rs:3324-3332 | In their order, as often as they were listed: the roots of a list are the roots of its parts one after the other. |
| `RootFilter.RootPositions` | crates/zaz-daemon/src/engine.rs:3317-3333 | The roots are the affected groups without an affected dependency, each exactly as often and in the order as it was listed. |
| `RootFilter.RootsAreIndependent` | crates/zaz-daemon/src/engine.rs:3317-3333 | No kept root depends directly on an affected group. |
| `RootFilter.RootsCover` | crates/zaz-daemon/src/engine.rs:3317-3333 | In an acyclic configuration every affected group has a walk of affected groups to a kept root. |
| `RootFilter.CycleHasNoRoots` | crates/zaz-daemon/src/engine.rs:3317-3333 | Acyclicity is needed: affected groups that all depend on affected groups keep no root. |
| `Resolver.DependencyResolver.AddGroup` | crates/zaz-daemon/src/dependency.rs:78-93 | Records dependencies and status, and extends the reverse index. |
| `Resolver.IndexUnderExact` | crates/zaz-daemon/src/dependency.rs:83-89 | The reverse index gains the new group under each of its dependencies and nothing else. |
| `Resolver.IndexUnderCount` | crates/zaz-daemon/src/dependency.rs:83-89 | Under each dependency the group is appended to the dependents listed so far, as often as the dependency is given. |
| `Resolver.FromGroups` | crates/zaz-daemon/src/dependency.rs:64-75 | All groups Pending, nothing waits; with unique names the reverse index is the inverse of the dependency relation. |
| `Resolver.DependencyResolver.HasWaitingDependents` | crates/zaz-daemon/src/dependency.rs:128-141 | True exactly when some waiting set contains the group, in every reachable state, although only the reverse index is searched. |
| `Resolver.DependencyResolver.MarkWaiting` | crates/zaz-daemon/src/dependency.rs:154-165 | A group waits for exactly its dependencies that are not Ready, or is told it waits for none and nothing changes. |
| `Resolver.DependencyResolver.MarkComplete` | crates/zaz-daemon/src/dependency.rs:172-199 | Every group that waited for this one alone is released, on exactly one of two duplicate-free lists according to whether a dependency failed; every other waiting set loses the group; repeated dependency entries make no difference. |
| `Resolver.DependencyResolver.CascadeSkipFrom` | crates/zaz-daemon/src/dependency.rs:232-254 | Terminates on any graph; returns, without repeats, the least set of groups that wait only for the source and each other; marks exactly those Skipped; every other waiter stops waiting for them. |
| `Resolver.SkipSetIsLeast` | crates/zaz-daemon/src/dependency.rs:232-254 | The skipped set is closed and contained in every closed set. |
| `Resolver.SkipSetBacked` | crates/zaz-daemon/src/dependency.rs:232-254 | Nothing is skipped without cause: a skipped group waited only for the source and other skipped groups. |
| `Resolver.CascadeRound` | crates/zaz-daemon/src/dependency.rs:236-251 | One round of the worklist keeps the partial fixpoint and the list free of repeats, and the number of waiters falls unless nothing is released. |
| `Resolver.DependencyResolver.MarkFailed` | crates/zaz-daemon/src/dependency.rs:215-218 | The failed group is Failed, exactly the least set behind it Skipped. |
| `Resolver.DependencyResolver.MarkSkipped` | crates/zaz-daemon/src/dependency.rs:205-208 | The same with Skipped for the source. |
| `Resolver.DependencyResolver.ResetForRerun` | crates/zaz-daemon/src/dependency.rs:221-226 | Nothing waits, every known group is Pending. |
| `Wave.RunInv` | crates/zaz-daemon/src/dependency.rs:154-254 | In every state of every run each group waits for exactly its undecided dependencies, or is started with all of them Ready, or is doomed by one that is not, or is decided for the matching reason. |
| `Wave.StartsAndSkipsJustified` | crates/zaz-daemon/src/dependency.rs:172-254 | A group is started only when all its dependencies are Ready and skipped only when one is Failed or Skipped. |
| `Wave.Progress` | crates/zaz-daemon/src/dependency.rs:172-254 | While any group waits, a started group has yet to report or a decided skip has yet to be applied. |
| `Wave.DecidedIsFinal` | crates/zaz-daemon/src/dependency.rs:154-254 | A status once decided is the one the recursive specification gives. |
| `Wave.CompleteIsFinal` | crates/zaz-daemon/src/engine.rs:2980-3009 | When nothing is left to happen nobody waits and every group is Ready, Failed or Skipped exactly as specified: Skipped behind a dependency that is not finally Ready, otherwise its own outcome. |
| `Wave.OrderIndependence` | crates/zaz-daemon/src/engine.rs:2980-3009 | Any two complete runs end in the same state. |
| `Wave.ReadyClosedForm` | crates/zaz-daemon/src/dependency.rs:154-254 | A group ends Ready exactly when it and everything reachable along dependencies succeeds. |
| `Wave.RunsAreShort` | crates/zaz-daemon/src/engine.rs:1326-1357 | A run has at most as many events as there are groups, less those still undecided. |
| `Wave.RunsFinish` | crates/zaz-daemon/src/engine.rs:1326-1357 | Every run can be extended to a complete one: the wave never gets stuck. |
| `Wave.ReportedGroups` | crates/zaz-daemon/src/dependency.rs:172-254 | At any time the groups that have reported are exactly those that are Ready or Failed. |
| `Wave.EventsOnce` | crates/zaz-daemon/src/dependency.rs:172-254 | No group reports or is skipped twice. |
| `Wave.ReleasedOnce` | crates/zaz-daemon/src/dependency.rs:172-199 | Over a complete wave each group with dependencies stops waiting at exactly one event, however often `depends_on` repeats an entry. |
| `Wave.StaleReportStartsTooEarly` | crates/zaz-daemon/src/dependency.rs:172-199 | Why nothing of an earlier wave may be in flight: a waiting group that reports as complete lets go of a group that waits for it alone, while it still waits itself. |
| `WaveEngine.Engine.AskGroups` | crates/zaz-daemon/src/engine.rs:1333-1352 | From a fresh or reset resolver, asking every group in dependency order leads to the initial wave state, and returns, once each, exactly the groups that are to be started. |
| `WaveEngine.Engine.Startup` | crates/zaz-daemon/src/engine.rs:1326-1357 | The daemon's start leaves a legal run in which every started group has been taken up, those in flight have tasks or services, and every decided skip has been applied; waiting groups are shown as Waiting, groups whose tasks run as Running. |
| `WaveEngine.Engine.RestartAll` | crates/zaz-daemon/src/engine.rs:2316-2337 | The same, statuses shown included, from whatever an earlier wave left behind; what it left at work is stale from then on. |
| `WaveEngine.Engine.SetToWork` | crates/zaz-daemon/src/engine.rs:1473-1483 | A group at work becomes Running if it has tasks, and no other group's shown status changes. |
| `WaveEngine.Engine.WhatIsShown` | crates/zaz-daemon/src/engine.rs:1326-1357 | In every settled state of a wave the engine shows Waiting for groups that wait, Running for groups whose tasks run, and the specified final status for all that are done. |
| `WaveEngine.Engine.ExecuteGroups` | crates/zaz-daemon/src/engine.rs:1409-1462 | Exactly the listed groups are taken up: set to work, or done at once if they have nothing to wait for, along with whatever that releases. |
| `WaveEngine.Engine.ExecuteGroup` | crates/zaz-daemon/src/engine.rs:1418-1460 | One group is taken up; a group whose services are up when the call returns is done in the same call. |
| `WaveEngine.Engine.TriggerDependents` | crates/zaz-daemon/src/engine.rs:2980-3009 | One call is one or more legal events: the completed group reports, all released groups are taken up or skipped, nothing else is, and none is left doomed and unmarked; the mutual recursion with starting groups terminates by the groups not yet decided. |
| `WaveEngine.Engine.StartWaitingGroup` | crates/zaz-daemon/src/engine.rs:3012-3037 | A released group is set to work if it has tasks or services and is otherwise done at once, releasing others. |
| `WaveEngine.Engine.SetReady` | crates/zaz-daemon/src/engine.rs:2808-2813 | Engine and resolver both show a group with nothing to do as Ready, ahead of its completion, and no other group differently; both stay in step with the run. |
| `WaveEngine.Engine.CascadeSkip` | crates/zaz-daemon/src/engine.rs:3043-3052 | Applies one decided skip as one event, keeping resolver and engine in step with the run. |
| `WaveEngine.Engine.CascadeFailure` | crates/zaz-daemon/src/engine.rs:3059-3067 | A failed report is one event; nothing else started or doomed changes. |
| `WaveEngine.Engine.SyncSkipped` | crates/zaz-daemon/src/engine.rs:3070-3076 | The engine shows Skipped for exactly the listed groups. |
| `WaveEngine.Engine.Propagate` | crates/zaz-daemon/src/engine.rs:2949-2973 | Whichever lifecycle phase is chosen, a completion during a wave is a legal event; in the phase that does not tell the resolver, the cascade of restarts has no dependents to go to. |
| `WaveEngine.NoWaitersNoDependents` | crates/zaz-daemon/src/engine.rs:2949-2973 | A group not yet decided for which nobody waits has no dependents at all, so not telling the resolver loses nothing. |
| `WaveEngine.Engine.ReportGroup` | crates/zaz-daemon/src/engine.rs:1649-1713 | A group's result, good or bad, extends the run legally, takes the group out of flight, and leaves no started group without being taken up. Where the result comes from is the subject of `GroupReports`. |
| `WaveEngine.Engine.FinalStatuses` | crates/zaz-daemon/src/engine.rs:3043-3076 | With nothing in flight the engine shows every group its specified final status. |
| `WaveEngine.Engine.FinishWave` | crates/zaz-daemon/src/engine.rs:1589-1800 | Whatever the order in which groups report, the wave ends, and then every group shows its specified final status. |
| `WaveEngine.Boot` | crates/zaz-daemon/src/engine.rs:1326-1357 | From configuration to started daemon: refused exactly when there is a cycle, otherwise a wave in step with resolver and engine. |
| `WaveEngine.BootAndRun` | crates/zaz-daemon/src/engine.rs:1326-1357 | End to end: an acyclic configuration ends its first wave with every group shown as specified, for every order of reports. |
| `TaskRuns.RerunTarget` | crates/zaz-daemon/src/engine.rs:1717-1754 | Whatever a pending id is run again as has that same id. |
| `TaskRuns.RerunTargetIs` | crates/zaz-daemon/src/engine.rs:1717-1754 | An id is run again as a task exactly when it is that task's id, the group's name has no colon, and the task is configured and its command expands. |
| `TaskRuns.TaskRunner.SpawnTask` | crates/zaz-daemon/src/engine.rs:1528-1575 | A task whose id is running becomes pending and nothing else changes; otherwise one execution starts. |
| `TaskRuns.TaskRunner.RequestTask` | crates/zaz-daemon/src/engine.rs:1486-1521 | A request extends the legal run the fields stand for. |
| `TaskRuns.TaskRunner.ProcessCompletion` | crates/zaz-daemon/src/engine.rs:1589-1755 | A completion extends the legal run: the id stops running and, if it was pending and leads to a task, one execution starts. |
| `TaskRuns.TaskRunner.OneAtATime` | crates/zaz-daemon/src/engine.rs:1539-1549 | In every state of the daemon no id is in flight twice, and what is running is what is in flight. |
| `TaskRuns.TaskRunner.IdleMeansServed` | crates/zaz-daemon/src/engine.rs:1528-1755 | When nothing runs any more, every request for a task that returns has been followed by a start. |
| `TaskRuns.RunInv` | crates/zaz-daemon/src/engine.rs:1528-1755 | Over every run of requests and completions, for any names: at most one execution per task id in flight, pending ids are running, and every request for a task whose id leads back to it has been followed by a start or is pending. |
| `TaskRuns.RequestsServed` | crates/zaz-daemon/src/engine.rs:1528-1755 | For a configured task, every request in every run that becomes idle is followed by a start of that task if and only if the group's name has no colon and the command expands. |
| `TaskRuns.LosesRequest` | crates/zaz-daemon/src/engine.rs:1717-1754 | Otherwise a run of two overlapping requests loses the second one. |
| `TaskRuns.CompletionsDrain` | crates/zaz-daemon/src/engine.rs:1589-1755 | Without new requests each completion uses up a running or pending task, in any order, so the daemon becomes idle. |
| `TaskRuns.RunAccounted` | crates/zaz-daemon/src/engine.rs:1528-1755 | Under every id, executions started are those finished plus those in flight, and never more than the requests that came in. |
| `TaskRuns.PrefixTestExact` | crates/zaz-daemon/src/engine.rs:1652-1657 | For names without colons the prefix test for running tasks sees a group's own tasks and no others. |
| `GroupReports.GroupTracker.TaskDone` | crates/zaz-daemon/src/engine.rs:1644-1713 | The id stops running; a completion of the group's own task is recorded, and the group reported exactly when no running id has its prefix, as success exactly when none of its tasks shows a failure. |
| `GroupReports.RunningSeen` | crates/zaz-daemon/src/engine.rs:1652-1657 | In every state of a run the prefix test on running ids is true exactly when one of the group's spawned tasks still runs. |
| `GroupReports.ReportsOnce` | crates/zaz-daemon/src/engine.rs:1640-1713 | A group whose tasks have been spawned reports at most once, and has reported exactly when all of them are done, whatever their order and whatever other groups do meanwhile. |
| `GroupReports.ReportsFailure` | crates/zaz-daemon/src/engine.rs:3338-3356 | The report is a failure if and only if a spawned task failed or another task of the group is left as failed from earlier. |
| `GroupReports.TasksShown` | crates/zaz-daemon/src/engine.rs:1645-1650 | Every task that is done shows how it ended, every other task what it showed before. |
| `GroupReports.OldFailureFailsAgain` | crates/zaz-daemon/src/engine.rs:1486-1492 | A task that is skipped in this run, and had failed before, makes the group fail although everything that ran succeeded. |
| `RestartCascade.IndexIsOrdered` | crates/zaz-daemon/src/dependency.rs:78-93 | An exact reverse index of a topologically sorted configuration has the order the cascade's termination needs. |
| `RestartCascade.Engine.CascadeServiceRestart` | crates/zaz-daemon/src/engine.rs:3109-3168 | Terminates; spawns, once each even across diamonds, exactly the targets reached through relays, and signals exactly the relays, once for each chain and in the order of the chains. |
| `RestartCascade.Engine.Restart` | crates/zaz-daemon/src/engine.rs:3109-3168 | On the groups' own fields: tasks are spawned for exactly the reached Ready groups with startup tasks, services signalled for exactly the reached Ready groups without startup tasks and with running services; a group that is not Ready is neither started, signalled nor changed. |
| `RestartCascade.Engine.SpawnGroupTasks` | crates/zaz-daemon/src/engine.rs:1467-1524 | Moves the group to Running, which is what keeps a second path from spawning it again. |
| `RestartCascade.CoversRelay` | crates/zaz-daemon/src/engine.rs:3143-3163 | Going on behind a group that passes the restart on adds exactly what it leads to, less what had been started. |
| `RestartCascade.ChainsListed` | crates/zaz-daemon/src/engine.rs:3143-3163 | The list of chains signalled along holds exactly the chains of dependents through, and ending in, Ready groups without startup tasks and with running services. |
| `RestartCascade.ChainsOnce` | crates/zaz-daemon/src/engine.rs:3143-3163 | It holds each of them once, if nobody is listed twice as a dependent of the same group. |
| `RestartCascade.SignalsRelay` | crates/zaz-daemon/src/engine.rs:3143-3163 | Going on behind a group that passes the restart on adds its own signal and then one for every chain behind it. |
| `RestartCascade.ReachedUnchanged` | crates/zaz-daemon/src/engine.rs:3109-3168 | Starting some targets changes nothing about what is reached. |
| `LogLines.SizeGrows` | crates/zaz-daemon/src/log_store.rs:227-232 | Every character of a line's process, content or group adds one to its size, and the empty line has the size of the structure. |
| `LogLines.TotalUpdate` | crates/zaz-daemon/src/log_store.rs:203-219 | Replacing one buffer changes the sum over all buffers by the difference of the two. |
| `LogBuffer.LogStore.PushInternal` | crates/zaz-daemon/src/log_store.rs:194-224 | The process's buffer has the newest of its old lines followed by the pushed one, up to the cap, and no other buffer changes, unless a limit is set and exceeded, when one eviction pass follows; the counter stays the exact sum of line sizes, memory is at most the threshold, every buffer is a suffix of its process's history. Without a limit and under one cap, each buffer always holds as much of its history as the cap allows. |
| `LogBuffer.LogStore.TrimBuffer` | crates/zaz-daemon/src/log_store.rs:209-216 | Leaves the newest lines up to the cap and an exact counter, so no subtraction saturates. |
| `LogBuffer.LogStore.MaybeEvictForMemory` | crates/zaz-daemon/src/log_store.rs:238-279 | Does nothing within the threshold; otherwise terminates with memory at most the target, takes only oldest lines, is fair, and needed its last eviction; its early exits are unreachable. |
| `LogBuffer.EvictOne` | crates/zaz-daemon/src/log_store.rs:256-278 | Taking the oldest line of a longest buffer keeps every buffer that lost a line at most one shorter than any other is long, and the target would be missed without it. |
| `LogBuffer.PassKeeps` | crates/zaz-daemon/src/log_store.rs:238-279 | After a pass memory is within the threshold and buffers are within cap and history. |
| `LogBuffer.PassWithin` | crates/zaz-daemon/src/log_store.rs:247-249 | Within the threshold nothing is evicted. |
| `LogBuffer.PushedBuffered` | crates/zaz-daemon/src/log_store.rs:194-216 | A push keeps every buffer a suffix of the extended history within the cap. |
| `LogBuffer.LogStore.SetMemoryLimit` | crates/zaz-daemon/src/log_store.rs:519-525 | Returns the old limit; one eviction pass under the new one restores the bound. |
| `LogBuffer.LogStore.SetMaxLinesPerProcess` | crates/zaz-daemon/src/log_store.rs:531-545 | Returns the old cap; every buffer is cut to exactly its newest lines within the new one, none is lost or added, the counter stays exact. |
| `LogBuffer.LogStore.Clear` | crates/zaz-daemon/src/log_store.rs:477-484 | No buffer, no history, the counter exact. |
| `LogBuffer.LogStore.ClearProcess` | crates/zaz-daemon/src/log_store.rs:486-495 | One process is forgotten, the others are not touched, the counter stays exact. |
| `LogDisk.SqliteLog.Open` | crates/zaz-daemon/src/log_storage_sqlite.rs:74-92 | A table may be opened with rows in it: they are the history it starts from. |
| `LogDisk.SqliteLog.PushBatch` | crates/zaz-daemon/src/log_storage_sqlite.rs:119-150 | Fails exactly when a statement or the commit fails, and then leaves no row; otherwise appends one row per line in order. |
| `LogDisk.SqliteLog.PrunePerProcess` | crates/zaz-daemon/src/log_storage_sqlite.rs:311-362 | Exactly the rows stay that are among the newest of their process, as many as `LogDisk.Left` says, in their order; if a statement fails, some of the processes over the cap have been cut and nothing else. |
| `LogDisk.SurvivorsLines` | crates/zaz-daemon/src/log_storage_sqlite.rs:346-360 | For each process what stays is a suffix of its lines, of the length of its quota. |
| `LogDisk.LeftWithinCap` | crates/zaz-daemon/src/log_storage_sqlite.rs:311-345 | The cap is never exceeded; rows within it are kept exactly when the cap fits a signed 64-bit number, the process has no rows, or it has so many that the subtraction wraps, and otherwise none is left. |
| `LogDisk.DropOldestOfLines` | crates/zaz-daemon/src/log_storage_sqlite.rs:346-360 | Deleting the oldest rows of one process leaves the newer ones in order and no other process changed. |
| `LogDisk.SqliteLog.PruneToSize` | crates/zaz-daemon/src/log_storage_sqlite.rs:364-393 | Terminates for any size function; rows go oldest first in chunks of 1000, each only while over budget; ends within budget or with an empty table, or where a statement failed. |
| `LogDisk.DeletesThousands` | crates/zaz-daemon/src/log_storage_sqlite.rs:370-387 | What a size pass leaves, unless it is nothing, is the table without a whole number of thousands of its oldest rows, the last thousand deleted while over budget. |
| `LogDisk.SqliteLog.EnforceRetention` | crates/zaz-daemon/src/log_storage_sqlite.rs:301-309 | Without a policy nothing changes, with one both passes run in turn unless a statement fails; a table within both limits is left alone exactly when it is empty or the limits that concern it survive their casts. |
| `LogDisk.SweptProcess` | crates/zaz-daemon/src/log_storage_sqlite.rs:276-309 | After a sweep each process's rows are a suffix of what they were, at most the cap; the table is within budget or empty, whatever the casts do. |
| `LogDisk.PartlySweptProcess` | crates/zaz-daemon/src/log_storage_sqlite.rs:301-393 | A sweep that failed half-way leaves each process a suffix of its rows, too. |
| `LogDisk.WithinBudgetKept` | crates/zaz-daemon/src/log_storage_sqlite.rs:364-393 | The size pass leaves a table within its budget alone if and only if the budget fits a signed 64-bit number or the table is empty. |
| `LogDisk.OversizedBudgetEmpties` | crates/zaz-daemon/src/log_storage_sqlite.rs:370-374 | A budget that does not fit empties the table, whatever it holds. |
| `LogDisk.LeftAlone` | crates/zaz-daemon/src/log_storage_sqlite.rs:301-393 | The same for a whole sweep: a non-empty table within both limits keeps all rows if and only if the budget fits and, for each process, the cap holds. |
| `LogDisk.SqliteLog.Clear` | crates/zaz-daemon/src/log_storage_sqlite.rs:248-253 | No rows, no history. |
| `LogDisk.SqliteLog.ClearProcess` | crates/zaz-daemon/src/log_storage_sqlite.rs:256-261 | Exactly the rows of one process go, the others stay as they are, in their order. |
| `HybridLog.HybridLog.constructor` | crates/zaz-daemon/src/engine.rs:1125-1160 | The daemon starts with empty buffers over any table, and the two are in step. |
| `HybridLog.HybridLog.PushBatch` | crates/zaz-daemon/src/log_store.rs:371-389 | Whatever happens to the table, each hot buffer then has the newest of its old lines followed by its lines of the batch, up to the cap, if there is no memory limit; a failed transaction leaves the table as it was; a committed one appends its rows, which are swept, or swept in part if the sweep fails with an error of its own; every committed batch keeps the two in step. |
| `HybridLog.HybridLog.HotAndDiskComparable` | crates/zaz-daemon/src/log_store.rs:371-389 | As long as every batch has committed, for each process the hot buffer is a suffix of the persisted rows or the other way round: after any start over an existing table, any sweep, and any DELETE, failed or not. |
| `HybridLog.RecordedOnBoth` | crates/zaz-daemon/src/log_store.rs:371-380 | Recording a batch on both sides keeps the newer history a suffix of the older for every process. |
| `HybridLog.HybridLog.Clear` | crates/zaz-daemon/src/log_store.rs:477-484 | The hot buffers are emptied in any case and the two sides are in step afterwards; if the DELETE succeeds the table is empty, and if it fails it is as it was. |
| `HybridLog.HybridLog.ClearProcess` | crates/zaz-daemon/src/log_store.rs:486-495 | The same for one process; no other process is touched on either side, and the sides stay in step if they were. |
| `LogSort.SortByTimeSorts` | crates/zaz-daemon/src/log_store.rs:290 | The result ascends, has the same lines, and keeps the order of lines with one timestamp. |
| `LogSort.AscendingUnique` | crates/zaz-daemon/src/log_store.rs:290 | An ascending list is determined by its lines at each timestamp. |
| `LogQuery.Retain` | crates/zaz-daemon/src/log_store.rs:334-348 | Keeps exactly the lines that pass, in order. |
| `LogQuery.LowerIgnoresCase` | crates/zaz-daemon/src/log_store.rs:345-348 | Folding makes two texts equal exactly when they differ in the case of ASCII letters only. |
| `LogQuery.SearchIgnoresCase` | crates/zaz-daemon/src/log_store.rs:344-348 | Among ASCII texts, in memory and in SQL, a search finds whatever contains it in any case of either, and case never matters to what is found. |
| `LogQuery.QueryInternal` | crates/zaz-daemon/src/log_store.rs:325-353 | For any folding of case, the four filters in turn find exactly the lines that match the whole query, in the order of the base list. |
| `QueryAgreement.MemFinds` | crates/zaz-daemon/src/log_store.rs:325-353 | Field by field: memory finds a line exactly when it is buffered for a process the query names, or for any if it names none or `*`, and meets the query's group, its inclusive bounds on time and its search. |
| `QueryAgreement.SqlFinds` | crates/zaz-daemon/src/log_storage_sqlite.rs:655-692 | Field by field: the table finds a line exactly when a row holds it that meets the same conditions, with times compared as signed numbers. |
| `QueryAgreement.SqlSelectLines` | crates/zaz-daemon/src/log_storage_sqlite.rs:158-213 | For numbers in range, the SELECT finds the matching rows' lines, stably sorted by time: ordering by time and id is a stable sort. |
| `QueryAgreement.SqlMatchesLine` | crates/zaz-daemon/src/log_storage_sqlite.rs:655-692 | For bounds that fit, and ASCII text if there is a search, the WHERE clause with its casts and `instr` asks of a row what the in-memory filters ask of a line. |
| `QueryAgreement.HugeBounds` | crates/zaz-daemon/src/log_storage_sqlite.rs:669-676 | Bounds that do not fit: a lower one finds nothing in memory and is ignored by the table, an upper one the other way round. |
| `QueryAgreement.OneProcessAgrees` | crates/zaz-daemon/src/log_storage_sqlite.rs:158-213 | On the same lines, every page of a query for one process is answered alike, with count and `has_more`, if and only if: both bounds fit and the process's matching lines are in timestamp order; or one bound does not fit and no line matches without it; or neither fits. |
| `QueryAgreement.OneProcessAlwaysAgrees` | crates/zaz-daemon/src/log_store.rs:404-427 | Every query for a process whose numbers fit is answered alike if and only if the process's lines are in timestamp order. |
| `QueryAgreement.AllProcessesAgree` | crates/zaz-daemon/src/log_store.rs:282-302 | The same for all processes and every order in which the hash map yields the buffers, with ties of two processes on a matching timestamp in the place of lines out of order. |
| `QueryAgreement.AllProcessesAlwaysAgree` | crates/zaz-daemon/src/log_store.rs:282-302 | Every query for all processes whose numbers fit is answered alike, in every order of the buffers, if and only if no two processes logged at the same time. |
| `QueryAgreement.HugeUntilDiffers` | crates/zaz-daemon/src/log_storage_sqlite.rs:673-676 | With one stored line and the first upper bound that does not fit, memory finds the line and the table does not. |
| `QueryAgreement.PageIs` | crates/zaz-daemon/src/log_store.rs:411-426 | A page in memory is the slice of the lines found from the offset on, up to the limit if there is one; the count is that of all lines found; `has_more` says whether any come after the page. |
| `QueryAgreement.PagesAgree` | crates/zaz-daemon/src/log_store.rs:411-426 | Given the same lines, page, total count and `has_more` agree exactly when the offset fits a signed number, nothing was found, or no lines were asked for. |
| `QueryAgreement.WalkSeesAll` | crates/zaz-daemon/src/log_store.rs:408-427 | In-memory pages of any size from one up, read until `has_more` is false, concatenate to the lines found. |
| `QueryAgreement.SqlWalkSeesAll` | crates/zaz-daemon/src/log_storage_sqlite.rs:158-213 | So do pages from the table, for every page size an unsigned 64-bit number can express. |
| `QueryAgreement.EmptyPagesGoNowhere` | crates/zaz-daemon/src/log_store.rs:411-419 | Pages of size zero never end: nothing is returned and `has_more` stays true. |
| `Splicer.FormatBody` | crates/xtask/src/splicer.rs:45-52 | A body starts and ends with a newline. |
| `Splicer.BodyOf` | crates/xtask/src/splicer.rs:45-52 | The content without the newlines around it stands between one newline and two; without any there is just one newline. |
| `Splicer.TrimmedParts` | crates/xtask/src/splicer.rs:46 | Every content can be taken apart into newlines, trimmed content and newlines. |
| `Splicer.CleanBody` | crates/xtask/src/splicer.rs:45-52 | Trimming and fencing neither bring in nor remove a newline-free marker. |
| `Splicer.LocateIsBlock` | crates/xtask/src/splicer.rs:19-36 | What is located is the block of the first begin marker, up to the first end marker after it, with no begin marker inside. |
| `Splicer.BlockIsLocated` | crates/xtask/src/splicer.rs:19-36 | Such a block is always the one located. |
| `Splicer.FailsWhen` | crates/xtask/src/splicer.rs:19-36 | A missing begin marker is reported exactly when there is none; a missing end marker exactly when none follows the first begin marker; a repeated begin marker, with its offset, exactly when the next one lies before the first end marker; a splice succeeds exactly when there is a block. |
| `Splicer.SplicesWrittenBlock` | crates/xtask/src/splicer.rs:15-43 | A text written out as before, `<!-- BEGIN: name -->`, inner, `<!-- END: name -->`, after, in which that begin marker is the first, that end marker the first after it, and no begin marker is in between, splices to the same text with inner replaced by the formatted content. |
| `Splicer.SplicesOrdinaryBlock` | crates/xtask/src/splicer.rs:15-43 | For newline-free names and a block that is empty or ends in a newline it is enough that neither marker is inside. |
| `Splicer.EndMarkerMayOverlap` | crates/xtask/src/splicer.rs:23-27 | Otherwise it is not: a name that contains markers lets an end marker start inside and overlap the closing one. |
| `Splicer.MarkersDiffer` | crates/xtask/src/splicer.rs:16-17 | Different names have different markers, and no begin marker is an end marker. |
| `Splicer.KeepsOutside` | crates/xtask/src/splicer.rs:15-43 | Text before and after the block and both markers are kept verbatim; exactly the text between them becomes the formatted content. |
| `Splicer.OccursAfterReplace` | crates/xtask/src/splicer.rs:37-42 | After a splice a newline-free marker occurs exactly where it did outside the block or where the new body contains it, never across its ends. |
| `Splicer.Idempotent` | crates/xtask/src/splicer.rs:15-43 | For a newline-free name, splicing the result again changes nothing if and only if the content contains neither marker. |
| `DocsCli.Regenerate` | crates/xtask/src/docs_cli.rs:39-56 | The sections are spliced in turn, the first failure is the result. |
| `DocsCli.RegeneratedMore` | crates/xtask/src/docs_cli.rs:39-56 | No section leaves the text as it is; one more is spliced into what the others gave, unless one of them failed. |
| `DocsCli.OtherSection` | crates/xtask/src/docs_cli.rs:39-56 | Splicing one section leaves a section with a disjoint block located and its body untouched. |
| `DocsCli.Commutes` | crates/xtask/src/docs_cli.rs:39-56 | Two sections with disjoint blocks and no foreign markers in their contents can be spliced in either order. |
| `DocsCli.AnyOrder` | crates/xtask/src/docs_cli.rs:39-56 | Any number of sections with pairwise disjoint blocks regenerate to the same text in every order. |
| `DocsCli.OnePassIsEnough` | crates/xtask/src/docs_cli.rs:39-56 | Over sections with pairwise disjoint blocks a pass succeeds, leaves every section's formatted content between its literal markers, and a second pass changes nothing. |
| `DocsCli.NestedSectionIsLost` | crates/xtask/src/docs_cli.rs:39-56 | Disjointness is needed: a section whose begin marker lies inside another's block is missing after that one is spliced. |
| `Workspace.ResolveToken` | src/supervisor.rs:43-74 | The token is the configured name, or without one the directory's, exactly when that is neither empty nor contains a slash; otherwise the error says which of these it is. |
| `Workspace.MemberByToken` | src/supervisor.rs:145-147 | The first member with the token, or none exactly when there is none. |
| `Workspace.Supervisor.CheckTokenUniqueness` | src/supervisor.rs:152-165 | Accepts exactly the sets with distinct tokens; otherwise names two members that share one. |
| `Workspace.Supervisor.AggregateStatus` | src/supervisor.rs:397-427 | Merges every reachable member's groups under qualified names and a marker for every other, sums watched files, and reports the latest change any member reports, whatever order a member's groups come in. |
| `Workspace.WatchedAddUp` | src/supervisor.rs:406 | The watched files of two lists of members add up; a member counts what it reports, and nothing if it does not answer. |
| `Workspace.NothingOverwritten` | src/supervisor.rs:403-424 | With unique slash-free tokens no entry is overwritten: every contribution is in the merge unchanged, nothing else is, and the counts add up. |
| `Workspace.TargetsResolve` | src/supervisor.rs:76-97 | Without a project a field resolves exactly when it is a non-empty slash-free project, a slash and a non-empty name, and to those; with one it resolves to the field itself exactly when the project is not empty; every other target is an error of its kind. |
| `Workspace.QualifiedRoutesBack` | src/supervisor.rs:76-97 | A qualified name routes to the member and group it was made from, slashes in the group's name included, exactly when the group's name is not empty; with a project given it always does. |
| `Workspace.MergedKeysRoute` | src/supervisor.rs:91-147 | A key that routes to a group is in the merged status exactly when a reachable member reports that group, and then shows that group's state. |
| `Workspace.MarkersRouteNowhere` | src/supervisor.rs:413-423 | An unreachable member is shown under its token, with that name, as Failed, without tasks and services, and the entry routes to no group. |
| `Strings.SplitJoin` | src/supervisor.rs:76-84 | Splitting at the first separator undoes joining exactly when the first part does not contain it. |

## Left out

- Processes, signals, terminals, hooks, readiness probes, notifications, channels and timers: what they deliver appears as events or as values given to the methods.
- Service starts that fail, a task whose command does not expand when its group is first started, and a daemon that stops in the middle of a wave: in a wave each started group reports exactly once, which for groups with tasks is `GroupReports.ReportsOnce`.
- Manual restarts and file changes during a wave, which may start a waiting group directly.
- WaveEngine.Engine.SetToWork: a group with services only may or may not be shown as Running while they start.
- Resolver.DependencyResolver.MarkComplete: the released groups come in the order of the reverse index, which is not stated, nor is that of the skipped ones.
- WaveEngine.Engine.RestartAll: the reports of groups that were still at work are not followed into the new wave; what one that comes too early would do is `Wave.StaleReportStartsTooEarly`.
- Whether resolver and engine show the same status outside a wave: the code does not keep them in step there.
- Duplicate task names within one group.
- GroupReports.ReportsOnce: no task of the group is requested again while its group is at work; a task that is gets its group reported before it is run again, and once more after.
- LogBuffer.LogStore.MaybeEvictForMemory: the fractions 0.9 and 0.8 of the limit are floating-point in the source; any target <= threshold <= limit is allowed here.
- LogBuffer.LogStore.PushInternal: lengths are in characters, the fixed size of a line is a parameter, sums do not overflow, and the builders that change the limits are taken to be used before the first push only.
- The broadcast of pushed lines, the verbose callback, the recent tail of `get` and the statistics.
- LogDisk.SqliteLog.EnforceRetention: the two pragmas that measure size are one arbitrary function and count as one statement, and a database without a page size is not modelled.
- LogDisk.LeftWithinCap: where the subtraction would overflow the model wraps, as an optimised build does; a build with overflow checks stops instead.
- SQLite itself: write-ahead log, pragmas, migrations, locking.
- QueryAgreement.OneProcessAgrees: searches are for ASCII text in ASCII text, since the two sides fold the case of other letters differently; lines were logged before 2^63 ms; both sides hold the same lines.
- Offsets in Splicer and sizes in LogLines count characters where the source counts bytes.
- The order in which merged groups are listed, attaching and detaching members, and fanning requests out.
- The recursive searches pass several mutable references along; here they are the fields of one object, and entering and leaving a node are methods of their own.
- Other validators, configuration differences, log-file rotation, rendering, and the command line: easier than what is here.
