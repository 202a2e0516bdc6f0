# winsw process helper, modelled in Dafny

This project models the process-management helper of the winsw service wrapper
(`ProcessHelper.cs`). The helper does four things:

- it looks up a process's start time;
- it discovers the children of a process, fenced by a start time so that reused pids are not mistaken for children;
- it stops one process: a cooperative interrupt first, then a forced kill;
- it stops a whole process tree, children first or parent first.

It also covers the configuration part of launching a process: the start parameters, the environment overrides, the priority, and whether an exit watcher is started.

The operating system becomes a **process table**: a sequence of `ProcessEntry(pid, parentPid, startTime)` rows.

- The rows are the live processes, in the order in which the process-table query enumerates them.
- Pids are distinct, and start times are integers.
- Stopping a process removes its row.

The helper cannot see three answers, so they are inputs. They form an `Oracle`, given per pid:

- whether the interrupt made the process exit;
- how a kill ended: killed, raised after the process had exited, or raised while it was still alive;
- where, if anywhere, the child enumeration throws.

A ghost trace records what the helper did, in order:

- `Stopping`
- `Interrupt`
- `Kill`
- `Enumerate(pid, fence)`

The modules are:

- `Processes`: the table, the start-time lookup and fenced child discovery, as functions.
- `TreeStop`: the single-process stop and the recursive tree stop, as ghost functions over `(table, trace)`. The lemmas about stopping are stated over these functions:
  - the fence;
  - post-order and pre-order;
  - subtree containment;
  - failure.
- `TreeOrder`: whole-trace order lemmas. Sibling subtrees are handled in discovery order; children first, nothing below a process is touched after it is stopped; parent first, every process is stopped before its children are looked up.
- `StopTermination`: the children-first recursion on a cyclic parent relation, and a corrected stop that does not descend into a process already open on the current path.
- `ProcessHelper`: the class `ProcessTable` holds the mutable table. Its methods are written as the source does it, with the discovery loop, the interrupt/kill state machine and the recursion over the children. Each method is proved equal to the function that specifies it, so the lemmas in `TreeStop` are facts about the methods.
- `Launch`: the classes `StartInfo`, `Process` and `Host` (the helper's own environment and its exit watchers), and `StartProcessAndCallbackForExit`. The environment is written key by key in a loop.

Whether the recursion of the tree stop ends depends on the order:

- Parent first, every process is stopped before its children are looked up, and a stopped process leaves the table. A cycle of parent links is therefore broken as soon as it is entered, and the recursion ends whatever the parent links are.
- Children first, nothing is stopped until the lookups return. On a cycle whose start times the fence admits, the recursion never ends (`StopTermination.CycleNeverFinishes`).

The model writes the tree stop as a recursive function whose termination is proved from a ghost `rank`: every row of the table ranks below its recorded parent (`TreeStop.Ranked`). This rules out every cycle in the table, including the ones parent-first handles. `StopTermination.StopTreeCorrected` needs no rank and agrees with the tree stop whenever a rank exists (`StopTermination.CorrectedAgrees`).

In four places the model follows the code rather than its documented intent:

- **Enumeration failure.** When the enumeration of children throws, discovery returns the children collected before the failure, not necessarily an empty list. It is empty only when the failure comes before the first candidate (`Processes.DiscoveredPrefix`).
- **Fence resolution.** Every level of the tree stop evaluates `fence ?? start time of its own pid`. Once the root has a fence, it is passed unchanged to every level (`TreeStop.TreeFence`). When the root's start time is unknown, each child resolves its own fence again.
- **Cycles.** Children first, the recursion has no record of the processes whose stop is still pending, so a cycle of parent links admitted by the fence is followed forever (see Findings).
- **Kill failures.** A kill failure escapes from every level, because there is no per-subtree catch. It aborts the remaining siblings and every ancestor still to be stopped (`TreeStop.TreeFailure`).

## Model

| member | source | states |
|---|---|---|
| Processes.GetProcessById | src/Core/WinSWCore/Util/ProcessHelper.cs:101-110 | resolving a pid finds a process exactly when the pid is live, and the row found has that pid |
| Processes.TryGetProcessStartTime | src/Core/WinSWCore/Util/ProcessHelper.cs:77-89 | there is a start time exactly when the pid is live, and it is that process's recorded creation time; the lookup never fails |
| Processes.Without | src/Core/WinSWCore/Util/ProcessHelper.cs:113-134 | an exited process leaves the table; every other row stays, and pids stay distinct |
| Processes.Candidates | src/Core/WinSWCore/Util/ProcessHelper.cs:41-42 | the child query returns no more rows than the table has, and every row it returns names the pid as its parent |
| Processes.CandidatesDistinct | src/Core/WinSWCore/Util/ProcessHelper.cs:41-42 | the child query of a table with distinct pids has distinct pids |
| Processes.Skipped | src/Core/WinSWCore/Util/ProcessHelper.cs:46-55 | without a fence nothing is skipped; a child whose start time is not earlier than the fence is never skipped |
| Processes.Admitted | src/Core/WinSWCore/Util/ProcessHelper.cs:46-61 | a collected child never has pid 0; without a fence, a child is collected iff its pid is not 0 |
| Processes.Harvest | src/Core/WinSWCore/Util/ProcessHelper.cs:42-61 | after n candidates at most n pids are collected |
| Processes.CandidateMembers | src/Core/WinSWCore/Util/ProcessHelper.cs:41-42 | the child query yields exactly the rows whose recorded parent is the pid |
| Processes.HarvestMembers | src/Core/WinSWCore/Util/ProcessHelper.cs:42-61 | after n candidates the loop has collected exactly those candidates that the fence does not skip and whose pid is not 0; 0 is never collected |
| Processes.HarvestPrefix | src/Core/WinSWCore/Util/ProcessHelper.cs:42-61 | the list only grows: what is collected after fewer candidates is a prefix of what is collected after more |
| Processes.ChildPids | src/Core/WinSWCore/Util/ProcessHelper.cs:41-61 | without failure, a pid is reported iff some row records the pid as parent, is non-zero and is not skipped; every reported pid is a child; with no fence, every non-zero child is reported |
| Processes.Discovered | src/Core/WinSWCore/Util/ProcessHelper.cs:35-70 | whatever the failure, every reported pid is a non-zero process whose recorded parent is the pid |
| Processes.DiscoveredPrefix | src/Core/WinSWCore/Util/ProcessHelper.cs:39-69 | a failing enumeration returns a prefix of the full answer, without raising; with no failure it is the full answer; failing at the first candidate gives the empty list |
| Processes.DiscoveredNoRepeats | src/Core/WinSWCore/Util/ProcessHelper.cs:35-70 | on a table with distinct pids, discovery reports no pid twice, whatever the failure |
| Processes.FenceDecides | src/Core/WinSWCore/Util/ProcessHelper.cs:46-61 | with a fence, a child row is reported iff its start time is not earlier than the fence |
| Processes.OwnStartTimeFence | src/Core/WinSWCore/Util/ProcessHelper.cs:24-27 | fenced by the parent's own start time, a child is reported iff it was not created before the parent; a parent that is not live reports all its children |
| TreeStop.StopOne | src/Core/WinSWCore/Util/ProcessHelper.cs:98-138 | an absent pid is neither interrupted nor killed; a live one is interrupted; it is killed iff the interrupt did not make it exit; the failure escapes iff the kill raised while the process was alive, and then the process is still live and the kill is the last action; otherwise the process is gone; no other row changes |
| TreeStop.ResolveFence | src/Core/WinSWCore/Util/ProcessHelper.cs:150 | a given fence is kept; without one, there is a fence iff the pid is live, and it is that process's start time |
| TreeStop.StopTree | src/Core/WinSWCore/Util/ProcessHelper.cs:148-168 | a tree stop only removes rows, keeps pids distinct and only extends the trace; a completed one leaves the root not live |
| TreeStop.StopForest | src/Core/WinSWCore/Util/ProcessHelper.cs:153-156 | stopping the children in turn only removes rows and keeps pids distinct; once it completes, none of the children is live |
| TreeStop.TreeEventsBelow | src/Core/WinSWCore/Util/ProcessHelper.cs:148-168 | a tree stop touches only the root and its descendants |
| TreeStop.ChildrenFirstEventsBelow | src/Core/WinSWCore/Util/ProcessHelper.cs:151-159 | a children-first tree stop touches only the root and its descendants |
| TreeStop.ParentFirstEventsBelow | src/Core/WinSWCore/Util/ProcessHelper.cs:159-167 | a parent-first tree stop touches only the root and its descendants |
| TreeStop.ForestEventsBelow | src/Core/WinSWCore/Util/ProcessHelper.cs:153-156 | stopping a list of children touches only those children and their descendants |
| TreeStop.ForestStrictlyBelow | src/Core/WinSWCore/Util/ProcessHelper.cs:163-166 | stopping the discovered children of a parent never touches the parent itself, only its proper descendants |
| TreeStop.TreeFence | src/Core/WinSWCore/Util/ProcessHelper.cs:150-167 | once the root's fence is resolved (given, or the root's start time), every child lookup at every depth uses that same fence |
| TreeStop.ChildrenFirstFence | src/Core/WinSWCore/Util/ProcessHelper.cs:150-156 | the same single fence for a children-first stop |
| TreeStop.ParentFirstFence | src/Core/WinSWCore/Util/ProcessHelper.cs:159-167 | the same single fence for a parent-first stop |
| TreeStop.ParentFirstFenceAfterRoot | src/Core/WinSWCore/Util/ProcessHelper.cs:161-167 | after the root is stopped, the parent-first child lookups still use the fence resolved before it was stopped |
| TreeStop.ForestFence | src/Core/WinSWCore/Util/ProcessHelper.cs:153-156 | a given fence is passed unchanged to every lookup below the children |
| TreeStop.TreeFailure | src/Core/WinSWCore/Util/ProcessHelper.cs:125-130 | a kill failure ends the whole tree stop: the failed kill is the last action, and the process it names is still live |
| TreeStop.ForestFailure | src/Core/WinSWCore/Util/ProcessHelper.cs:153-156 | a kill failure in one child's subtree aborts the remaining siblings |
| TreeStop.ChildrenFirstOrder | src/Core/WinSWCore/Util/ProcessHelper.cs:151-159 | children-first is a post-order: the children are looked up first; every action before the root's stop concerns a proper descendant; after it only the root is touched; a completed run stopped the root |
| TreeStop.ParentFirstOrder | src/Core/WinSWCore/Util/ProcessHelper.cs:159-167 | parent-first is a pre-order: the root's stop comes first; before the root's child lookup only the root is touched, and after it only proper descendants; a run not failing on the root looks up its children |
| TreeStop.ParentFirstOrderAfterRoot | src/Core/WinSWCore/Util/ProcessHelper.cs:161-167 | when the root's own stop completed, the child lookup under the resolved fence happens and the run is a pre-order |
| TreeOrder.ForestSiblingOrder | src/Core/WinSWCore/Util/ProcessHelper.cs:153-156 | siblings are handled in discovery order: an action on the subtree of an earlier child never follows an action on the subtree of a later child |
| TreeOrder.ChildrenFirstPostOrder | src/Core/WinSWCore/Util/ProcessHelper.cs:151-159 | children first, at every depth: once a process is stopped, no later action concerns any of its descendants |
| TreeOrder.ParentFirstStopsBeforeLookup | src/Core/WinSWCore/Util/ProcessHelper.cs:159-167 | parent first, at every depth: every child lookup of a process comes after that process's stop |
| StopTermination.WithinAgrees | src/Core/WinSWCore/Util/ProcessHelper.cs:148-168 | the tree stop cut off at a given depth gives the same run as the tree stop whenever the depth covers the root's rank |
| StopTermination.CycleNeverFinishes | src/Core/WinSWCore/Util/ProcessHelper.cs:148-168 | children first, with no start time given, on two processes that name each other as parent, no depth is enough: the recursion does not end |
| StopTermination.CorrectedAgrees | src/Core/WinSWCore/Util/ProcessHelper.cs:148-168 | the stop that skips a child already open on the current path is the tree stop whenever the parent links are ranked |
| StopTermination.CorrectedFinishesCycle | src/Core/WinSWCore/Util/ProcessHelper.cs:148-168 | on the two-process cycle, the corrected children-first stop completes and leaves no process live |
| TreeStop.StopLeavesOnlySkippedChildren | src/Core/WinSWCore/Util/ProcessHelper.cs:148-168 | after a completed tree stop whose enumeration of the root does not fail, whatever a new lookup still finds below the root is a row that the fence had skipped |
| TreeStop.ChildrenFirstStopClearsChildren | src/Test/winswTests/Util/ProcessHelperTest.cs:120-122 | after a completed children-first stop with no skipped child, the children lookup of the root returns the empty list |
| ProcessHelper.ProcessTable.GetChildPidsFiltered | src/Core/WinSWCore/Util/ProcessHelper.cs:35-70 | the discovery loop returns exactly the specified discovery: a prefix of the full answer; without failure, the non-zero unskipped children; every pid is a child |
| ProcessHelper.ProcessTable.GetChildPids | src/Core/WinSWCore/Util/ProcessHelper.cs:24-27 | discovery fenced by the pid's own start time: every result is a child, and without failure a child is reported iff it is not older than the parent |
| ProcessHelper.ProcessTable.StopProcess | src/Core/WinSWCore/Util/ProcessHelper.cs:98-138 | the new table, trace and outcome are exactly those of TreeStop.StopOne; distinct pids are kept |
| ProcessHelper.ProcessTable.StopProcessAndChildren | src/Core/WinSWCore/Util/ProcessHelper.cs:148-168 | the new table, trace and outcome are exactly those of TreeStop.StopTree and of StopTermination.StopTreeCorrected, so the fence, order and failure lemmas hold for the method |
| ProcessHelper.ProcessTable.StopChildren | src/Core/WinSWCore/Util/ProcessHelper.cs:153-156 | the loop over the children is exactly TreeStop.StopForest: it stops each subtree in turn and returns at the first kill failure |
| Launch.Configured | src/Core/WinSWCore/Util/ProcessHelper.cs:187-195 | a given executable, arguments or working directory replaces the old value, an absent one keeps it; never a new window or a shell; stdin redirected as asked; stdout and stderr redirected iff a log handler is given |
| Launch.StartInfo.Configure | src/Core/WinSWCore/Util/ProcessHelper.cs:187-195 | the start parameters afterwards are exactly Launch.Configured of those before |
| Launch.Accepted | src/Core/WinSWCore/Util/ProcessHelper.cs:201 | an accepted write has a non-empty name, without '=', shorter than the limit; a valid name with a deleting value is always accepted |
| Launch.SetVariable | src/Core/WinSWCore/Util/ProcessHelper.cs:201 | a write succeeds iff it is accepted; it then maps the exact key to the value, or deletes it for an empty value or one starting with a null character; every other variable is unchanged |
| Launch.SetVariableCommutes | src/Core/WinSWCore/Util/ProcessHelper.cs:199-204 | writes to different keys commute, so the order in which the dictionary's keys are visited does not matter |
| Launch.Overlay | src/Core/WinSWCore/Util/ProcessHelper.cs:197-205 | after writing a set of overrides, every variable was there before or is one of the written keys |
| Launch.Overridden | src/Core/WinSWCore/Util/ProcessHelper.cs:197-205 | without overrides the environment is unchanged; with them, each override key holds its value or is gone, and every other key is as before |
| Launch.OverlayMeaning | src/Core/WinSWCore/Util/ProcessHelper.cs:197-205 | key by key, after writing a set of overrides: written keys hold their override or are gone, all other keys are as before |
| Launch.OverlayStep | src/Core/WinSWCore/Util/ProcessHelper.cs:199-204 | writing one more override extends the overlay by exactly that key |
| Launch.Host.SetEnvironmentVariable | src/Core/WinSWCore/Util/ProcessHelper.cs:201 | the write succeeds iff it is accepted; then the environment is Launch.SetVariable of the one before, otherwise it is unchanged |
| Launch.Host.SetEnvironmentVariables | src/Core/WinSWCore/Util/ProcessHelper.cs:197-205 | the loop succeeds iff every override is accepted, and then leaves every override applied and nothing else changed; a refused write stops the loop with only some of the overrides applied |
| Launch.StartProcessAndCallbackForExit | src/Core/WinSWCore/Util/ProcessHelper.cs:184-231 | the start parameters are configured; the process is started iff every environment write is accepted and the system accepts the start; after accepted writes the overrides are in the environment, after a refused one only some are; after a start the priority is set iff one other than Normal is given, and a watcher is added iff a callback is given; a refused start changes nothing after the environment |

## Findings

| source | as written | input that shows it | evidently intended | confidence | as-written member | corrected member |
|---|---|---|---|---|---|---|
| src/Core/WinSWCore/Util/ProcessHelper.cs:148-168 | children first, each level looks up and recurses into its children before stopping anything, with no record of the levels still open | processes 100 (parent 200, start 10) and 200 (parent 100, start 20); stop 100 children first with no start time: the fence is 10, so 100 finds 200 and 200 finds 100 again | do not descend into a process whose stop is already pending on the current path | not executed | StopTermination.CycleNeverFinishes | StopTermination.CorrectedFinishesCycle |

## Left out

- The WMI query and the conversion of its creation-date strings are foreign library calls. The query is the table's row order, and its failure is a position in the oracle.
- The interrupt helper is not part of this model. Its success is taken to mean that the process exited, and whether it succeeds is an oracle answer. The stop timeout and all timing are not modelled.
- Reading a start time can fail for reasons other than the process being gone, for example access denied. The model returns a time for every live process.
- The kill is taken to take effect at once. In Windows it is asynchronous.
- Processes that appear or exit on their own during a stop are not modelled. The table changes only through the helper.
- The watcher thread, waiting for the exit and calling the callback are concurrency. Only the decision to start a watcher is modelled.
- Forwarding of the output streams to the log handler is left out. Only the redirect flags it implies are modelled.
- All logging is left out, including the skip message, which prints the zeroed pid instead of the child's.
- Environment variable names are compared exactly. Windows treats them case-insensitively, so keys differing only in case are distinct here.
- Launch.StartProcessAndCallbackForExit: the started process's own environment (inherited from the helper) is not modelled, nor is a priority assignment that throws.
- TreeStop.ChildrenFirstStopClearsChildren: requires that no child of the root was skipped by the fence and that enumerating the root does not fail. A child older than the fence survives the stop, and a later lookup without the (now dead) root's start time reports it (TreeStop.StopLeavesOnlySkippedChildren).
- TreeStop.StopTree: requires a ghost rank under which every row of the table ranks below its recorded parent. This is stronger than termination needs: a parent-first stop ends on any table, and a children-first stop loops only on a cycle reachable from the root. StopTermination.StopTreeCorrected needs no rank but is itself the corrected behaviour, not the source's.
- Launch.SetVariable: the acceptance rules for names and values are those of the .NET Framework runtime, not of this repository. A null value is not represented, failures of the underlying operating-system call are not modelled, and the dictionary's key order is left open: an aborted loop is only said to have applied some subset of the overrides.
- Launch.StartProcessAndCallbackForExit: a refused environment write raises out of the method in the source; the model returns `started == false` with the environment partly written.
