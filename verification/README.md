# PaiHuo: a verified model of its scheduler

PaiHuo hands queued tasks to coding agents. Tasks live in one SQLite table behind a
single connection, so every store method is an atomic step; the HTTP layer, the
executor and the workflow monitor interleave those steps. This project models that
core in Dafny and proves what its steps keep.

A store transaction is a method on `Tasks.Store` that either commits or leaves the
store untouched, and its contract ties the new state to a function or predicate of the
old one. What the source promises is then proved about those functions, for all inputs
and for whole runs of steps. Code that works by loops and in-place updates is written
as classes and loops with invariants.

| file | part of the program |
|---|---|
| `Digraph.dfy` | graphs with at most one successor: reachability, cycles, single-edge changes |
| `Tasks.dfy`, `ProjectOrder.dfy` | the rows, and the ORDER BY of a project's tasks |
| `DependencyGraph.dfy`, `DependencyEditing.dfy`, `TaskCreation.dfy`, `Reordering.dfy`, `TaskDeletion.dfy` | the transactions that touch `depends_on` |
| `TaskRemoval.dfy`, `TaskRemovalLaws.dfy` | removing the rows of a deleted tree under foreign keys, and when that goes through |
| `ReorderingLaws.dfy`, `DependencyRuns.dfy`, `DependencyExamples.dfy`, `DeletionExamples.dfy` | what a reorder means; whole runs of those transactions, and runs in which a promise fails |
| `Delivery.dfy`, `MergeTransactions.dfy`, `MergeProtocol.dfy`, `MergeLaws.dfy`, `MergeExamples.dfy` | delivery through merge tasks, as a state machine over every interleaving |
| `WorkflowPolicy.dfy`, `WorkflowRuns.dfy`, `WorkflowLaws.dfy` | validating a workflow graph, turning it into tasks, monitoring the run |
| `DispatchSlots.dfy`, `WaitLoop.dfy` | the executor's slot counters and the loop that waits for an agent |
| `Utf8.dfy`, `LogPolling.dfy`, `Quoting.dfy` | incremental log reading, shell and TOML quoting |
| `Transcript.dfy`, `TranscriptLaws.dfy`, `TranscriptBuilder.dfy` | agent event history to transcript entries |
| `EventLog.dfy`, `SseDelivery.dfy`, `SseLaws.dfy` | the event stream and what a live client sees |
| `QueueOrder.dfy` | the order in which queued tasks compete |
| `SkillNames.dfy`, `RoleSkills.dfy` | reconciling a role's mounted skills |
| `Wrappers.dfy`, `Sequences.dfy` | optional values and results, shared facts about sequences |

## What the proofs found

Some promises hold only under a condition. For each, the exact condition is proved, and
a lemma at a concrete input shows the failure:

- A project move is guarded by a read (`internal/server/task_patch_authorize.go:85-98`)
  and written later under the task's own revision only
  (`internal/server/task_patch.go:131-136`). A dependent created in between is missed: its
  edge then crosses projects, and two such moves let two edits commit a dependency cycle,
  because the cycle check reads one project (`OvertakenMoveCrossesProjects`,
  `OvertakenMovesCommitCycle`). A new version of a workflow definition rewrites its project
  without any guard (`internal/store/workflows.go:67-83`), though an automatic task may wait for
  it (`RedefinitionCrossesProjects`). A run stays sound exactly when every move is written, and
  every definition moved, while no task depends on the row (`WriteKeepsSoundExactly`,
  `ProjectChangeKeepsSoundExactly`, `RunsStaySoundExactly`).
- An edit that names a project as well keeps a sound table sound exactly when it moves no
  task that others depend on (`EditKeepsSoundExactly`, `MovingEditBreaksSoundness`).
- A task that nobody outside its tree waits for cannot always be deleted. The rows go one
  DELETE at a time (`internal/store/task_delete.go:221-251`), each checked against the
  foreign keys of `internal/store/schema.go:39-72`, so the removal goes through exactly when no
  row is listed twice and whatever names a row goes before it (`RemovalSucceedsExactly`). Two
  subtasks, the later of which waits for the earlier, as automatic dependencies make them,
  keep their parent from ever being deleted (`WaitingSiblingPreventsDeletion`,
  `SubtasksPreventDeletion`); so does a spawned task that was moved below a sibling, because its
  row is already gone when its own turn comes (`MovedSpawnPreventsDeletion`). The removal never
  ends when a task was made its own ancestor, which a PATCH of `parent_id` allows
  (`OwnParentHasNoRank`).
- A new automatic task waits for its predecessor in the project order exactly when the
  project is empty or some task of it has a slot, and joins the end of the order exactly
  when none lacks one (`NewTaskFollowsExactly`, `CreateAppendsExactly`). A task moved in
  from outside any project has no slot, and is overtaken (`UnslottedTaskIsOvertaken`).
- A drag-and-drop reorder is always honoured exactly when the queued tasks' slots are
  strictly ascending (`RequestsHonouredExactly`). A move can bring two tasks with one slot
  together (`TiedSlotsIgnoreRequest`).
- A delivered task stays delivered exactly when it has a worktree branch or a merge task
  (`DeliveryIsPermanentExactly`, `PlainDeliveryIsTakenBack`).
- `ApproveTaskAndCreateMerge` does not exclude merge tasks: approval succeeds on one exactly
  when its permission is review (`ApprovalReliesOnPermission`, `ReviewedMergeTaskIsMerged`).
- `queuedTaskLess` is transitive exactly when no equally placed task of another project
  lies, in age, between two reordered tasks of one project (`TransitiveExactly`,
  `TiedKeysCanCycle`).
- A live event client misses events exactly when one never reached its channel or was
  overtaken there by a later one, which two concurrent publishers can bring about
  (`ClientMissesNothingExactly`, `OvertakenEventIsLost`).
- A transcript shows every tool call exactly when each has an id and no id was reused while
  its call waited (`EveryCallSurfacesExactly`, `ReusedIdLosesCall`, `NamelessCallIsLost`).
- `tomlQuote` is undone by TOML exactly for strings without raw control characters other
  than newline, carriage return and tab (`TomlReadsBackExactly`, `RawControlIsRefused`).
- Reconciling a role's skills gives the directory the selection asks for, whatever was
  mounted before, exactly when the old one was healthy: kept entries whole but for missing or
  dangling links, flags on kept links only (`SettlesExactly`). From an empty directory every
  sequence of selections stays healthy (`RunsSettle`). Otherwise a broken flag passes to the
  entry that takes its name (`StaleFlagIsCarriedOver`), and the mirror of a kept entry is not
  made again (`MissingMirrorStaysMissing`).

Two comments in the source disagree with its code, which the model follows:

- `internal/exec/skills.go:428-431` says that a mount whose source is gone is marked broken.
  The code skips such a source and never sets the flag; it only clears or carries over a
  flag it finds.
- `internal/exec/executor.go:605-609` says that a task not marked concurrent overlaps with
  no task of its project. The gate is one-sided: a concurrent task may join it while it
  runs (`LaterTasksAreConcurrent`, `ConcurrentTaskJoinsSerialOne`).

## Model

| member | source | states |
|---|---|---|
| Digraph.SetEdgeAcyclic | internal/store/task_update.go:149-158 | Pointing one task at a target keeps an acyclic graph acyclic if and only if the target does not already lead to the task: the reason the pointer chase is the right check. |
| Digraph.DropEdgeAcyclic | internal/store/task_update.go:125-127 | Clearing one task's dependency never creates a cycle. |
| ProjectOrder.SortedListingIsUnique | internal/store/task_update.go:194-216 | The project order is determined by the rows: any listing of the tasks sorted by slot, creation time and id is the listing. |
| ProjectOrder.PredecessorOfListed | internal/store/task_update.go:194-216 | The automatic predecessor of a listed task is its immediate predecessor in the order, none for the first. |
| ProjectOrder.PredecessorOfUnlisted | internal/store/task_update.go:194-216 | A task outside the order gets the last task of the order as predecessor. |
| DependencyGraph.DependencyReaches | internal/store/task_update.go:218-243 | The pointer chase with its `seen` set ends, and decides reachability along `depends_on`, on cyclic tables too. |
| DependencyGraph.CycleSearch.Visit | internal/store/task_update.go:453-468 | One coloured depth-first visit: success leaves the node finished and the nodes under way as they were; failure exhibits a cycle. |
| DependencyGraph.ValidateProjectDependencies | internal/store/task_update.go:432-475 | The check accepts if and only if the project's dependency map is acyclic. |
| DependencyGraph.ProjectCheckSuffices | internal/store/task_update.go:432-475 | When edges stay inside projects and one project's edges changed, checking that project alone proves the whole table acyclic. |
| DependencyEditing.ChooseTarget | internal/store/task_update.go:98-159 | The target an edit leaves, or the exact refusal, for every mode, project and target combination. |
| DependencyEditing.UpdateTaskAtRevision | internal/store/task_update.go:20-192 | The transaction commits the outcome stated in terms of reachability, acyclicity and existing keys, or reports that error and changes nothing. |
| DependencyEditing.EditCommitsExactly | internal/store/task_update.go:20-192 | An edit turns a row into a given one if and only if it was asked of the current revision of an ordinary unscheduled task and names existing rows; the row has what the edit sets and otherwise what it had, and the mode asked for or that of the old row; it waits for nothing, for its immediate predecessor, or for an eligible task of its project that does not lead back; and the project has no cycle. |
| DependencyEditing.EditChangesOneEdge | internal/store/task_update.go:161-185 | A committed edit changes the dependency graph in the edited task's edge only. |
| DependencyEditing.EditAcyclicExactly | internal/store/task_update.go:125-192 | On any acyclic table a committed edit leaves the table acyclic if and only if the new target does not lead back to the task. |
| DependencyEditing.EditKeepsSoundExactly | internal/store/task_update.go:125-192 | From a sound table (edges inside projects, acyclic) a committed edit is sound again if and only if it does not move a task that others depend on to another project. |
| DependencyEditing.CrossProjectCycleCommits | internal/store/task_update.go:432-475 | A concrete acyclic table with edges across projects on which an automatic-dependency edit commits a cycle. |
| TaskCreation.NextSlot | internal/store/task_create.go:69-83 | The next sort order is one above the largest of the project's ordered tasks. |
| TaskCreation.AssignNextSortOrder | internal/store/task_create.go:69-83 | A project task without a slot gets the next one; merge tasks, loose tasks and explicit slots are left alone. |
| TaskCreation.LatestTask | internal/store/task_create.go:165-179 | The automatic target is the last ordered task by slot, creation time and id, none in an empty project. |
| TaskCreation.ResolveNewTaskDependency | internal/store/task_create.go:140-182 | Success names the right target for each mode; failure is the exact rejection. |
| TaskCreation.CreateTaskWithProjectDependency | internal/store/task_create.go:111-138 | Either the exact rejection, a missing foreign key among them, with an unchanged store, or one new row under a fresh key that fits its draft. |
| TaskCreation.AcceptedExactly | internal/store/task_create.go:111-210 | A draft is accepted if and only if its project is known and, unless it is scheduled or a merge, its mode is known, it asks for no dependency outside a project, and a target it names is an ordinary unscheduled task of its project. |
| TaskCreation.DraftIsCompleted | internal/store/task_create.go:19-48 | A row that fits its draft keeps every field but mode, target, slot and revision; an unset mode becomes explicit with a target, automatic in a project, independent otherwise, and scheduled and merge tasks wait for nothing. |
| TaskCreation.CreateKeepsSound | internal/store/task_create.go:111-182 | A new row keeps edges inside projects and the graph acyclic: nothing can point at it yet. |
| TaskCreation.NewTaskFollowsExactly | internal/store/task_create.go:165-179 | A new automatic task waits for its immediate predecessor in the new project order if and only if the project is empty or some ordered task has a slot. |
| TaskCreation.CreateAppendsExactly | internal/store/task_create.go:69-83 | It joins the end of the order if and only if no task there lacks a slot, and then waits for the task that was last. |
| TaskCreation.NextSlotPlace | internal/store/task_create.go:69-83 | A row with the next slot enters the order behind exactly the tasks that have one. |
| Reordering.RebuildQueuedWeakDependencies | internal/store/task_update.go:398-430 | The loop over the rows leaves exactly the chained table: queued automatic tasks point at their neighbour, nothing else changes. |
| Reordering.CollectQueued | internal/store/task_update.go:356-368 | One pass over the project collects exactly the queued tasks and their slots. |
| Reordering.SlotsAsHeld | internal/store/task_update.go:356-368 | The k-th slot handed out is the one the k-th queued task of the project order holds, or its place in that order when it holds none. |
| Reordering.NamesEachOnce | internal/store/task_update.go:369-378 | The request is accepted if and only if all its ids are eligible and none repeats. |
| Reordering.WriteSlots | internal/store/task_update.go:379-385 | The i-th task of the request is written into the i-th slot. |
| Reordering.ReorderProjectTasks | internal/store/task_update.go:309-393 | The transaction commits the stated outcome or reports the exact error and changes nothing: a stale or duplicate request is refused. |
| ReorderingLaws.ReorderTouchesOnlyQueued | internal/store/task_update.go:379-430 | Every row outside the project's queued tasks is unchanged, and of a queued row only slot, target and revision change. |
| ReorderingLaws.ReorderCommitsExactly | internal/store/task_update.go:309-393 | A reorder commits if and only if the project exists, the request names each waiting task of it exactly once and nothing else, and the new order leaves no cycle in the project. |
| ReorderingLaws.ReorderHandsOutSlots | internal/store/task_update.go:379-385 | The queued tasks permute the slots they held: the i-th of the request ends with the i-th slot. |
| ReorderingLaws.ReorderHonoursRequest | internal/store/task_update.go:309-393 | With strictly ascending slots the queued tasks end in exactly the requested order. |
| ReorderingLaws.RequestsHonouredExactly | internal/store/task_update.go:309-393 | Every full request is honoured if and only if the queued tasks' slots are strictly ascending. |
| ReorderingLaws.ReorderChainsNeighbours | internal/store/task_update.go:398-430 | Afterwards each queued automatic task waits for its immediate predecessor in the new project order. |
| ReorderingLaws.ReorderKeepsOtherPlaces | internal/store/task_update.go:309-393 | When all slots are assigned and distinct, the new order is the old one with only the queued places exchanged. |
| ReorderingLaws.OthersKeepTheirPlace | internal/store/task_update.go:309-393 | Place by place: a task that is not queued keeps its index, and the i-th queued place holds the i-th task of the request. |
| ReorderingLaws.TieDefiesRequest | internal/store/task_update.go:332-336 | Two neighbours of a request that get equal slots against their age are not put in the order asked for. |
| ReorderingLaws.ReorderAdvances | internal/store/task_update.go:379-430 | Whatever a reorder changes in a row gives it a newer revision. |
| ReorderingLaws.ReorderKeepsSound | internal/store/task_update.go:309-393 | A committed reorder of a sound table is sound. |
| TaskDeletion.CollectTaskTree | internal/store/task_delete.go:32-67 | The recursion into a shared `seen` set ends with the smallest child-closed set that holds what was seen and the task. |
| TaskDeletion.DependencyReplacement | internal/store/task_delete.go:87-113 | The pointer chase finds the first survivor beyond the deleted rows, none when the chain ends or loops inside them. |
| TaskDeletion.MovePast | internal/store/task_delete.go:145-163 | One dependent of a deleted row is moved past the tree, or blocks when it asked for it explicitly. |
| TaskDeletion.UnlinkFrom | internal/store/task_delete.go:119-164 | All dependents of one deleted row are moved, or a blocking one is named. |
| TaskDeletion.UnlinkTaskDependencies | internal/store/task_delete.go:117-166 | Success rewires every surviving dependent; failure happens only with a surviving strong dependent, which it names. |
| TaskDeletion.DeleteTask | internal/store/task_delete.go:5-28 | Commits if and only if the task exists, no surviving strong dependent exists and the removal of the rows goes through; otherwise reports which of these failed and changes nothing. A commit leaves the detached rows, takes workflow edges along, and leaves no key of a removed row behind. |
| TaskDeletion.DeletionTouchesOnlyLinks | internal/store/task_delete.go:69-166 | Of a surviving row a deletion changes only the target, a session link into the tree, and the revision; a row without links into the tree stays as it was, and a changed one gets a newer revision. |
| TaskRemoval.DeleteTaskTree | internal/store/task_delete.go:221-251 | The recursion over the remaining rows, children by key and before their owner, has exactly the outcome of issuing one DELETE after another in that order: success, or the first row that is gone or still referred to. |
| TaskRemovalLaws.RemovalSucceedsExactly | internal/store/schema.go:39-72 | A series of DELETEs under immediate foreign keys succeeds if and only if no row is listed twice, none is the definition of a run, and whatever names a row goes before it. |
| TaskRemovalLaws.OrderTakesOwnedTree | internal/store/task_delete.go:221-251 | The rows listed are the smallest set that holds the task and everything below it along the parent, merge, session and spawn columns. |
| TaskRemovalLaws.OwnersGoLast | internal/store/task_delete.go:238-242 | Everything a listed row owns is listed before it. |
| TaskRemovalLaws.LowerSiblingGoesFirst | internal/store/task_delete.go:222-222 | Of two rows the task owns, the one with the lower key is listed first. |
| TaskRemovalLaws.OwnedOnceIsListedOnce | internal/store/task_delete.go:238-250 | When every row has one owner, no row is listed twice. |
| TaskRemovalLaws.ChildOwnedTwiceIsListedTwice | internal/store/task_delete.go:238-250 | When the task owns two rows and the one with the lower key owns the other as well, that other is listed twice. |
| TaskRemoval.SameOwnersSameOrder | internal/store/task_delete.go:222-222 | The order depends on the owner columns alone. |
| TaskDeletion.RemovalGoesThroughExactly | internal/store/task_delete.go:5-28 | When only the collected tree is removed, an unblocked deletion commits if and only if no row is listed twice, no run names a removed definition, and every row of the tree that waits for, resumes or follows a removed row goes before it. |
| TaskDeletion.WaitingSiblingPreventsDeletion | internal/store/task_delete.go:146-148 | A task two of whose children wait one for the other, in key order, can never be deleted. |
| TaskDeletion.ChildOwnedTwicePreventsDeletion | internal/store/task_delete.go:222-250 | Nor can a task one of whose children an earlier child owns as well. |
| DeletionExamples.SubtasksPreventDeletion | internal/store/task_delete.go:145-148 | A reachable table of a task and two automatic subtasks: nobody outside waits for the tree, and its deletion cannot commit. |
| DeletionExamples.MovedSpawnPreventsDeletion | internal/server/task_patch_authorize.go:114-123 | A reachable table of two spawned tasks, one moved below the other, whose spawner cannot be deleted. |
| DeletionExamples.OwnParentHasNoRank | internal/server/task_patch_authorize.go:114-123 | A reachable table in which a task is its own parent, so that nothing bounds the descent of its removal. |
| TaskDeletion.ContractionKeepsReach | internal/store/task_delete.go:87-166 | Contracting the deleted rows keeps "u leads to v" unchanged for all survivors, in both directions. |
| TaskDeletion.ContractionKeepsAcyclic | internal/store/task_delete.go:87-166 | Contraction never creates a cycle. |
| TaskDeletion.DeletionKeepsWaiting | internal/store/task_delete.go:84-166 | After a deletion no survivor points at a deleted row and waiting, directly or not, is unchanged between survivors. |
| TaskDeletion.DeletionKeepsSound | internal/store/task_delete.go:84-166 | A deletion keeps edges inside projects and the graph acyclic. |
| DependencyRuns.PlainMoveKeepsSoundExactly | internal/store/revision.go:41-82 | A plain project move of a task without a target keeps the table sound if and only if nothing depends on the task or its project does not change. |
| DependencyRuns.ProjectChangeKeepsSoundExactly | internal/store/workflows.go:67-83 | Rewriting a row's project, with its target left alone, keeps a sound table sound if and only if the project is the same or the row has neither target nor dependents. |
| DependencyRuns.WriteKeepsSoundExactly | internal/server/task_patch.go:131-136 | The later write of a guarded move, plain or with a dependency edit, keeps the table sound if and only if the task has no dependents at that moment or stays where it is. |
| DependencyRuns.StepKeepsTidy | internal/server/task_patch_authorize.go:85-98 | Every step keeps what a pending move relies on: while its task has the revision the guard read, the task has no target. |
| DependencyRuns.StepAdvances | internal/store/revision.go:41-82 | Whatever a committed operation changes in a row that stays, the row gets a newer revision, which is what the guards rely on. |
| DependencyRuns.EmptyingKeepsSound | internal/store/projects.go:68-75 | Deleting a project turns exactly its tasks into tasks without one, changes nothing else, and keeps every edge between tasks of one project. |
| DependencyRuns.StepKeepsInv | internal/store/task_update.go:432-475 | Every committed create, edit, update, reorder, clean-up, task or project deletion, guard or harmless write keeps edges inside projects and the graph acyclic. |
| DependencyRuns.RunsStayAcyclic | internal/store/task_update.go:432-475 | From an empty table every sequence of those operations whose moves are harmless keeps all edges inside one project and the graph acyclic. |
| DependencyRuns.RunsStaySoundExactly | internal/server/task_patch.go:131-136 | A run, with guards and writes of moves interleaved at will, stays sound throughout if and only if each move is written, and each definition moved, while nothing depends on the row. |
| DependencyExamples.OvertakenMoveCrossesProjects | internal/server/task_patch_authorize.go:89-97 | A run of committed operations from an empty table in which a dependent created between guard and write ends in another project than its target. |
| DependencyExamples.OvertakenMovesCommitCycle | internal/store/task_update.go:432-475 | A run of committed operations from an empty table that ends with a dependency cycle. |
| DependencyExamples.RedefinitionCrossesProjects | internal/store/workflows.go:67-83 | A run of committed operations from an empty table in which a definition moves to another project while a task waits for it. |
| DependencyExamples.MovingEditBreaksSoundness | internal/store/task_update.go:161-191 | A committed edit of a sound table that moves a task with a dependent and leaves the table unsound. |
| DependencyExamples.TiedSlotsIgnoreRequest | internal/store/task_update.go:309-393 | A reachable table on which a full reorder request is not honoured. |
| DependencyExamples.UnslottedTaskIsOvertaken | internal/store/task_create.go:165-179 | A reachable table in which a new automatic task waits for a task that stands after it. |
| Delivery.MergeIsTheOnlyOne | internal/store/task_dependency.go:18-30 | Under the unique index the merge task found for a source is the only one. |
| Delivery.DeliveredExactly | internal/store/task_dependency.go:186-226 | A task counts as delivered if and only if it is no merge task, has succeeded, and its merge was skipped, has succeeded, or is not called for because there is no worktree branch; it counts as undelivered if and only if it is a merge task, failed or was cancelled, or its merge task did. |
| Delivery.DependencyDecides | internal/store/task_dependency.go:123-163 | What a task with a target is told, in terms of the delivery of the target: ready when it is delivered, or under an automatic dependency when it is gone or ended undelivered without being set to block; blocked when it ended undelivered under an explicit dependency or a blocking target; otherwise it waits. |
| Delivery.FailedMergeHoldsUp | internal/store/task_dependency.go:143-161 | A target whose merge task failed or was cancelled blocks an explicit dependent, and an automatic one if and only if the target is set to block; otherwise the automatic one is released as having skipped it. |
| Delivery.WorkflowCheckMeans | internal/store/task_dependency.go:89-122 | A workflow task is released if and only if every dependency passes, and is held back only by a pending one. |
| Delivery.FirstUnpassedDecides | internal/store/task_dependency.go:97-122 | The first dependency that does not pass decides between error, waiting and blocked; a release is marked as skipping if and only if a tolerated failure was passed. |
| MergeTransactions.CompleteTaskAndCreateMerge | internal/store/task_merge.go:8-37 | Finishes a running task and inserts its merge task in one step, or fails and changes nothing. The new row is queued, independent and serial, carries the role, project, run and failure policy of its source, and leaves the delivery of the source pending. |
| MergeTransactions.InsertMergeTask | internal/store/task_merge.go:125-169 | Inserts the system-owned merge row, queued and independent and with the role, project, run and failure policy of its source, unless the unique index objects; a source that has succeeded then awaits its merge. |
| MergeTransactions.DeliverTaskAndCreateMerge | internal/store/task_merge.go:44-73 | The same for a session's delivery: afterwards a queued merge task stands for the source, whose delivery is pending. |
| MergeTransactions.ApproveTaskAndCreateMerge | internal/store/task_merge.go:78-106 | The same for an approval, guarded by the revision that was read. |
| MergeTransactions.EnsureMergeTask | internal/store/task_dependency.go:259-310 | Returns the existing merge task or creates a queued one for a finished Git source, whose delivery is then pending, and changes nothing otherwise. |
| MergeTransactions.OwingMeansUndeliveredSuccess | internal/store/task_dependency.go:232-254 | The reconciler's list is exactly the succeeded sources whose delivery is pending for want of a merge task. |
| MergeTransactions.InsertionSettlesOne | internal/store/task_dependency.go:259-310 | Ensuring one owing source removes it, and nothing else, from the owing ones and changes no existing row. |
| MergeTransactions.ReconcileMergeTasks | internal/exec/executor.go:117-159 | One pass leaves exactly the owing sources whose worktree could not be saved and changes no existing row. |
| MergeProtocol.InsertKeepsInv | internal/store/task_merge.go:125-169 | A merge insert for a finished source never violates the index and keeps the invariant, provided no pending request could still restart the source. |
| MergeProtocol.WriteKeepsInv | internal/application/task_transitions.go:79-242 | The delayed, revision-guarded write of an approve, requeue, resume or cancel request keeps the invariant. |
| MergeProtocol.StepKeepsInv | internal/application/task_transitions.go:79-319 | Every step of the machine keeps the invariant: one merge task per source, merge tasks are no sources, a source with a merge task has succeeded. |
| MergeProtocol.RunKeepsInv | internal/application/task_transitions.go:79-319 | So does every interleaving. |
| MergeLaws.ReachableStatesAreSound | internal/store/task_merge.go:8-145 | From an empty table, in every reachable state each source has at most one merge task, no merge task is a source, and a source with one has succeeded. |
| MergeLaws.IndexIsNeverViolated | internal/store/schema.go:118-118 | No completion, delivery, approval or ensure step can meet the unique index on `merge_of`. |
| MergeLaws.EnsureIsIdempotent | internal/store/task_dependency.go:259-310 | Repeating EnsureMergeTask finds the task it made and changes nothing. |
| MergeLaws.ApprovalReliesOnPermission | internal/store/task_merge.go:78-106 | On a merge task awaiting review, approval would create a merge task of a merge task if and only if its permission were review. |
| MergeLaws.StepRespects | internal/application/task_transitions.go:295-319 | No step removes a row or its links, and a row whose code is merged or owed to a merge keeps its outcome. |
| MergeLaws.DeliveredSurvivesRun | internal/application/task_transitions.go:204-242 | Once a Git source counts as delivered, every interleaving keeps it delivered. |
| MergeLaws.DeliveredByFinishingExactly | internal/store/task_merge.go:8-169 | One step makes a Git source count as delivered if and only if it finishes, with success, the claimed or running merge task of that source. |
| MergeLaws.DeliveryTakesAMerge | internal/store/task_merge.go:8-169 | In every interleaving a Git source that was not delivered at first and is delivered in the end had its merge task finished by some step in between: nothing else delivers it. |
| MergeLaws.MergeNeedsApproval | internal/store/task_merge.go:78-145 | A task under review permission gets a merge task only by an approval of the very revision that awaits review, or by the repair of a source that has succeeded with a branch. |
| MergeLaws.ReviewNeedsApproval | internal/store/task_merge.go:78-106 | A Git source under review that succeeds, its code not found unchanged, does so by the approval of the very revision that awaits review. |
| MergeLaws.SkippingNeedsReason | internal/store/task_merge.go:108-123 | A merge is skipped only for a Git source that ends without changes, or by the approval, as unchanged, of the very revision that awaits review. |
| MergeLaws.SucceedsWithoutMerge | internal/exec/executor.go:1287-1352 | A source succeeds, unskipped, without a merge task of its own only when it has no worktree branch, or by the fallback that leaves it to the reconciler. |
| MergeLaws.PlainFinishDelivers | internal/exec/executor.go:1346-1354 | A running task without a branch counts as delivered as soon as it finishes. |
| MergeLaws.MarkedSourceIsOwing | internal/store/task_dependency.go:312-328 | The fallback for a failed completion makes every eligible source one that the reconciler will find, and no other; on any other task it changes nothing. |
| MergeLaws.DeliveryIsPermanentExactly | internal/application/task_transitions.go:295-319 | Delivery is permanent if and only if the task has a worktree branch or a merge task. |
| MergeLaws.CheckSurvivesUntilClaim | internal/exec/executor.go:506-569 | A dependency check that passed on a delivered Git source still passes after any interleaving, so checking and claiming separately is safe. |
| MergeExamples.PlainDeliveryIsTakenBack | internal/application/task_transitions.go:145-180 | A run from the empty table that delivers a task without a branch, after which a requeue takes the delivery back. |
| MergeExamples.ReviewedMergeTaskIsMerged | internal/store/task_merge.go:78-106 | A merge task that had review permission would, on approval, get a merge task of its own. |
| MergeExamples.CancelledSourceCannotFinishAgain | internal/application/task_delete.go:45-69 | A merged source that a half-finished deletion left cancelled may be requeued and started, and its completion then meets the unique index. |
| WorkflowPolicy.DepthSearch.Visit | internal/workflow/policy.go:138-163 | The memoised visit measures a node or exhibits a cycle; measured depths are realised by a chain and exceed all depths below. |
| WorkflowPolicy.GraphDepth | internal/workflow/policy.go:135-175 | Reports a cycle if and only if the known-node graph has one; otherwise the length of the longest dependency chain. |
| WorkflowPolicy.DepthIsUnique | internal/workflow/policy.go:135-175 | That length is one number, whatever order the map is walked in. |
| WorkflowPolicy.NodeViolations | internal/workflow/policy.go:60-81 | No violation if and only if ids are distinct and every node's fields are allowed. |
| WorkflowPolicy.DependencyViolations | internal/workflow/policy.go:113-125 | No violation if and only if a node names known nodes other than itself, each once. |
| WorkflowPolicy.Validate | internal/workflow/policy.go:36-133 | The list of structural violations is empty if and only if the definition is acceptable: limits, fields, edges, no cycle, depth within both bounds. |
| WorkflowRuns.SortNodes | internal/store/workflows.go:167-168 | The nodes are permuted into the order of their ids. |
| WorkflowRuns.BeforeExactly | internal/store/workflows.go:167-168 | The order of ids goes by the first character in which they differ, a prefix before what it begins. |
| WorkflowRuns.InsertNodeTasks | internal/store/workflows.go:169-189 | Inserts one fresh queued task per node with the fields its definition asks for, one by one, and leaves all other rows alone; each takes the next slot of the project as it stands then. |
| WorkflowRuns.InsertNodeEdges | internal/store/workflows.go:190-205 | A node's edges are exactly its dependencies, each going on after a failure if and only if the node's policy says continue; a well-formed node never fails. |
| WorkflowRuns.InsertRunEdges | internal/store/workflows.go:190-205 | The run's edges mirror the definition and existing edges stay. |
| WorkflowRuns.WriteRun | internal/store/workflows.go:167-205 | The new rows and edges are exactly those of the nodes, under fresh keys in the order of the node ids; they mirror the definition, everything else stays, and a valid definition never fails. The slots of the new tasks ascend with the node ids and lie above every slot of the project before. |
| WorkflowRuns.InstantiateWorkflow | internal/store/workflows.go:132-219 | One transaction from an adopted, unchanged definition and an active project to a run whose tasks and edges mirror it; any error leaves the store untouched, and a valid definition never fails. |
| WorkflowRuns.ComputeRunStatus | internal/application/workflow_service.go:277-320 | The run has succeeded if and only if every node is there and delivered; it has failed if and only if some queued node is blocked, or no node is pending and some node is gone or undelivered; otherwise it is undecided. |
| WorkflowRuns.VerdictJudges | internal/application/workflow_service.go:277-320 | The verdict used in the laws about stuck runs meets the same two equivalences, stated over the delivery of the nodes alone. |
| WorkflowRuns.FinishWorkflowRun | internal/store/workflows.go:306-319 | Settles a run at most once, guarded by revision and running status. |
| WorkflowRuns.CancelQueued | internal/application/workflow_service.go:255-266 | Cancels exactly the run's queued tasks. |
| WorkflowRuns.ReconcileRun | internal/application/workflow_service.go:249-275 | One look of the monitor: a decided run is settled as succeeded if and only if every node is delivered, and as failed under the two conditions above; exactly the queued tasks of a blocked run are cancelled, and every other row and run stays as it was. |
| WorkflowLaws.LowestPending | internal/workflow/policy.go:135-175 | In an acyclic bounded graph, following pending dependencies from a pending node ends at one whose dependencies are all settled. |
| WorkflowLaws.SettledNodeMoves | internal/store/task_dependency.go:93-122 | A queued node with only settled dependencies is reported ready or blocked. |
| WorkflowLaws.UndecidedRunMoves | internal/application/workflow_service.go:277-320 | While the monitor calls a run undecided, some node is being worked on or some queued node is ready. |
| WorkflowLaws.RunIsNeverStuck | internal/application/workflow_service.go:277-320 | A run whose tasks and edges mirror an accepted definition is never stuck, after every interleaving of the delivery protocol. |
| WorkflowLaws.WrittenRunKeepsInv | internal/store/workflows.go:132-219 | Writing a run keeps the invariant of the delivery protocol, whatever requests are pending. |
| WorkflowLaws.InstantiatedRunIsNeverStuck | internal/store/workflows.go:132-219 | From an accepted definition, through a successful instantiation in any reachable state, to a run that is never stuck. |
| Utf8.CutLeavesAtMostThree | internal/exec/tmux.go:825-834 | Cutting UTF-8 text anywhere leaves at most three bytes of an unfinished character (section 4 of RFC 3629). |
| Utf8.ValidExactly | internal/exec/tmux.go:825-842 | Bytes are valid if and only if they are the encodings of some characters, surrogates excluded, one after another, by the table of section 3 of RFC 3629. |
| Utf8.ToValidIsValid | internal/exec/tmux.go:838-842 | Replacing bad runs yields valid UTF-8. |
| Utf8.ToValidKeepsText | internal/exec/tmux.go:838-842 | Valid text is left alone by the replacement. |
| Utf8.BadRunIsReplacedOnce | internal/exec/tmux.go:838-842 | A run of bytes that start no character, between text and the next character, becomes exactly one replacement character. |
| LogPolling.ReadBatch | internal/exec/tmux.go:850-869 | One poll emits exactly the complete lines after the offset, and with `flushTail` the unfinished one too: joined with their ends the lines give back the bytes read, no line holds a newline, and an end is a newline, a carriage return or both. |
| LogPolling.LinesAreLines | internal/exec/tmux.go:850-869 | What the polls call the lines of a stretch of bytes are its lines: joined with their ends they are the stretch, only the last may lack a newline, and each loses exactly one newline and one carriage return at its end. |
| LogPolling.BatchPollingEmitsEveryLine | internal/exec/tmux.go:850-869 | Any appends and polls that end in one flushing poll emit exactly the lines of the final file, each once, and end at its size; joined with their ends they are the file. |
| LogPolling.ReadInteractive | internal/exec/tmux.go:805-848 | One poll emits at most one chunk of a 256 KiB window and advances the offset by what it consumed. |
| LogPolling.ChunkIsText | internal/exec/tmux.go:823-847 | Whatever the bytes, an emitted chunk is valid UTF-8. |
| LogPolling.TextWindow | internal/exec/tmux.go:823-847 | On text that may still grow, a chunk is exactly a prefix of the window and at most three bytes are held back. |
| LogPolling.InteractivePollingLosesNothing | internal/exec/tmux.go:805-848 | For a log of UTF-8 text and any interleaving of appends and polls, all chunks are valid and together are exactly the bytes before the offset. |
| LogPolling.PollAdvances | internal/exec/tmux.go:813-848 | Polling makes progress: only an unfinished character of at most three bytes can wait. |
| Quoting.LexCommandLine | internal/exec/tmux.go:513-518 | The joined line lexes to the quoted words, whatever words came before. |
| Quoting.ShellReadsBackExactly | internal/exec/tmux.go:1080-1083 | Lexing the space-joined quoted arguments by POSIX rules gives back the arguments if and only if none holds a NUL. |
| Quoting.ChainIsOnePass | internal/exec/runtime_codex.go:92-99 | The five chained replacements equal one single-pass escape. |
| Quoting.TomlReadsBackExactly | internal/exec/runtime_codex.go:92-99 | A TOML v1.0.0 basic-string reader returns the string if and only if it has no raw control character other than newline, CR and tab. |
| Quoting.RawControlIsRefused | internal/exec/runtime_codex.go:92-99 | A quoted bell character is refused by the TOML reader. |
| DispatchSlots.GivingBackUndoes | internal/exec/executor.go:574-603 | Releasing what was just reserved restores the counter map itself. |
| DispatchSlots.Executor.ReserveRoleSlot | internal/exec/executor.go:574-585 | With a limit of at least one it succeeds if and only if fewer instances are counted than the limit, with a smaller limit if and only if none is; success takes exactly one slot. |
| DispatchSlots.Executor.ReserveProjectSlot | internal/exec/executor.go:610-622 | A serial task needs an idle project; concurrent and project-less tasks always pass. |
| DispatchSlots.Executor.ReserveWorkflowSlot | internal/exec/executor.go:651-666 | Succeeds if and only if there is no run, nothing of the run is counted, or less than its limit; success takes exactly one slot. |
| DispatchSlots.Executor.ReleaseAll | internal/exec/executor.go:691-698 | The end of a task returns one slot of each kind it took. |
| DispatchSlots.Executor.Admit | internal/exec/executor.go:549-567 | Role and project slot and claim together, or all counters of the task rolled back. |
| DispatchSlots.Executor.Consider | internal/exec/executor.go:514-567 | One queued task is admitted if and only if it is ready, all three slots are free to it under the limits in force and its claim succeeds; then it takes one slot of each kind, otherwise every counter is as it was. |
| DispatchSlots.Executor.Dispatch | internal/exec/executor.go:506-569 | A pass starts exactly the tasks admitted at their turn, in queue order, and raises every counter by the tasks started. |
| DispatchSlots.StartedExactly | internal/exec/executor.go:514-569 | A task is started if and only if it was admitted at its turn against the counters that the tasks before it left. |
| DispatchSlots.StartedTaskIsClear | internal/exec/executor.go:521-567 | A pass starts only ready tasks whose claim succeeded, and a serial one only into a project that was idle and got no task earlier in the pass. |
| DispatchSlots.PassStaysWithinLimits | internal/exec/executor.go:526-550 | A role or a run of which a pass started a task ends the pass at or below the limit that the pass read, or at one. |
| DispatchSlots.LimitsAreAnswers | internal/exec/executor.go:511-548 | Every limit a pass has learned is the store's answer for one of its tasks, and is not asked for again. |
| DispatchSlots.NothingIsLeftBehind | internal/exec/executor.go:514-567 | A task the pass did not start still has something in its way when the pass ends: it is not ready, its claim failed, a limit was not answered, its role or run is at its limit, or its project is busy. |
| DispatchSlots.StepKeepsInv | internal/exec/executor.go:574-680 | Every critical section keeps each counter equal to the number of instances that hold its slot. |
| DispatchSlots.RunKeepsInv | internal/exec/executor.go:574-698 | So does every interleaving of reservations, rollbacks, claims and releases. |
| DispatchSlots.SlotsTakenExactly | internal/exec/executor.go:574-666 | Whatever interleaves, a slot is granted if and only if the instances that hold it are none or fewer than the limit; a project slot of a serial task if and only if no running task is of the project. |
| DispatchSlots.LaterTasksAreConcurrent | internal/exec/executor.go:610-637 | Of two tasks of one project that run at once, the one started later is concurrent; so two serial tasks never overlap. |
| DispatchSlots.ConcurrentTaskJoinsSerialOne | internal/exec/executor.go:610-622 | A concurrent task is admitted while a serial task of its project runs. |
| DispatchSlots.RoleStaysWithinLimit | internal/exec/executor.go:574-585 | A role never runs more tasks than the largest limit in force while it was reserved, and with limits below one never more than one. |
| DispatchSlots.RunStaysWithinLimit | internal/exec/executor.go:651-666 | A workflow run never has more tasks running than the largest limit in force while it was reserved, and with limits below one never more than one. |
| WaitLoop.WaitTmux | internal/exec/executor.go:1102-1207 | The loop with its timers ends at the first tick whose history decides. It answers an exit code if and only if the first look of that tick, or the second look at a lost window, was done with that code; cancelled, stopping and poll failure if and only if the tick was; a lost window only when the tick was in doubt or a second look found it gone. |
| WaitLoop.GivesUpExactlyAfterQuietWindow | internal/exec/executor.go:1132-1174 | In doubt about a detached agent the loop gives up on a tick if and only if a full timeout of the same doubt without output growth ends there. |
| WaitLoop.ProgressedExactly | internal/exec/executor.go:1132-1158 | Output counts as progress if and only if it is larger than at every earlier tick of the wait. |
| WaitLoop.ExitCodeIsNeverLost | internal/exec/executor.go:1122-1200 | A tick that carried an exit code is never reported as a lost window. |
| WaitLoop.BusyAgentIsKept | internal/exec/executor.go:1132-1174 | An agent whose output grew within the timeout is not given up. |
| TranscriptLaws.StepKeepsValid | internal/session/dshchannel.go:316-322 | `toolOrder` stays duplicate-free and equal to the keys of `pendingTools`, and entries stay numbered. |
| TranscriptLaws.EverythingSaidSurfacesInOrder | internal/session/dshchannel.go:396-531 | Assistant text, user messages, thoughts and compactions surface exactly once each, in input order. |
| TranscriptLaws.EntriesAreDated | internal/session/dshchannel.go:324-531 | A tool entry carries the sequence number of its call, and gathered text that of the message its first block came from. |
| TranscriptLaws.ResultsLandOnTheirCalls | internal/session/dshchannel.go:446-515 | The waiting calls are exactly the open ones, and each result lands on the call open under its id, in order of arrival. |
| TranscriptLaws.CallsAreConserved | internal/session/dshchannel.go:446-531 | Calls shown or waiting, calls displaced by id reuse and calls without an id are together exactly the calls of the input, as multisets. |
| TranscriptLaws.EveryCallSurfacesExactly | internal/session/dshchannel.go:446-531 | The finished transcript shows each call of the input exactly once if and only if every call has an id and no waiting call's id was reused. |
| TranscriptLaws.ReusedIdLosesCall | internal/session/dshchannel.go:463-468 | Of two calls under one id without a result in between, only the second is shown. |
| TranscriptLaws.NamelessCallIsLost | internal/session/dshchannel.go:454-456 | A call without an id is shown nowhere, though nothing displaced it. |
| TranscriptLaws.EntryIdsAreDistinct | internal/session/dshchannel.go:318-322 | Entry ids are pairwise distinct. |
| Transcript.UnansweredEntries | internal/session/dshchannel.go:382-390 | Flushing the waiting tools adds exactly the waiting calls, in order, and nothing else. |
| Transcript.WithoutIsRemoval | internal/session/dshchannel.go:509-515 | Removing a call id from the order removes one occurrence and keeps the rest in place. |
| TranscriptBuilder.Builder.FlushText | internal/session/dshchannel.go:324-333 | The in-place flush leaves the value `TextFlushed` of the old state. |
| TranscriptBuilder.Builder.FlushTools | internal/session/dshchannel.go:382-390 | The loop over `toolOrder` leaves the value `ToolsFlushed` of the old state. |
| TranscriptBuilder.Builder.AddBlocks | internal/session/dshchannel.go:428-445 | The loop over a message's blocks, gathering text and flushing it before each thought. |
| TranscriptBuilder.Builder.AddCall | internal/session/dshchannel.go:446-468 | Flushes text and records the call; a reused id keeps its place in the order. |
| TranscriptBuilder.Builder.AddResult | internal/session/dshchannel.go:501-515 | Emits the call with its result and forgets it; unknown or empty ids change nothing. |
| TranscriptBuilder.Builder.Add | internal/session/dshchannel.go:410-528 | One event, whatever its type, moves the state as `Step` says and keeps it valid. |
| TranscriptBuilder.BuildTranscript | internal/session/dshchannel.go:293-532 | The whole translation: what was said in order, answers on their calls, calls conserved, entries numbered from one. |
| EventLog.AfterSelects | internal/store/logs_events.go:20-39 | A query after a cursor selects exactly the later events, ascending. |
| EventLog.TrimmingIsInvisibleExactly | internal/events/stream.go:104-107 | A page of the retained events is the page of all published events if and only if nothing after the cursor was trimmed. |
| EventLog.KeepsOneMore | internal/events/stream.go:98-108 | Appending and trimming keeps the memory a contiguous, bounded end of all numbered events. |
| EventLog.MemoryLog.Publish | internal/events/stream.go:81-116 | Numbers the event, keeps the contiguous end, cut back to 1000 events when it held 2000, and offers it to every subscriber with fewer than 256 waiting events, dropping it for full ones. |
| EventLog.MemoryLog.FanOut | internal/events/stream.go:109-114 | Exactly the subscribers with fewer than 256 waiting events receive the event. |
| EventLog.MemoryLog.History | internal/events/stream.go:119-151 | Returns the first events of the memory after the cursor, as many as asked for when that is between 1 and 1000 and otherwise 500; complete if and only if nothing needed was trimmed. |
| SseDelivery.Relay | internal/server/event_handlers.go:43-68 | The two loops of a connection write the backlog and then exactly the records of the channel, ending at the largest number seen. |
| SseDelivery.RecordBeatsEarlier | internal/server/event_handlers.go:60-68 | A relayed event exceeds everything received before it. |
| SseDelivery.StepKeepsInv | internal/events/stream.go:81-116 | Persisting, broadcasting, subscribing, reading history and receiving each keep the delivery invariant. |
| SseLaws.ClientSeesIncreasingNumbers | internal/server/event_handlers.go:36-68 | Under any interleaving of any publishers a client sees strictly increasing numbers beyond its cursor, all of them logged. |
| SseLaws.ClientMissesNothingExactly | internal/server/event_handlers.go:36-68 | With its channel empty, a client has seen every event after its cursor exactly once if and only if all later ones reached its channel and none was overtaken there. |
| SseLaws.SerialRunsMissNothing | internal/server/event_handlers.go:36-68 | With serial publishers, a backlog of at most one page and no overflow, a drained client has seen exactly the events after its cursor. |
| SseLaws.OverflowsExactly | internal/events/stream.go:66-114 | The channel never holds more than 256 events, and an event is dropped if and only if one was broadcast to a full channel. |
| SseLaws.TruncatedExactly | internal/events/stream.go:119-151 | The backlog is cut off if and only if the history was read while more than 1000 events came after the cursor. |
| SseLaws.OvertakenEventIsLost | internal/events/stream.go:87-115 | A concrete run of two publishers in which an overtaken event never reaches the client. |
| QueueOrder.OneWayOnly | internal/store/task_query.go:113-133 | Of two tasks with different ids exactly one goes first. |
| QueueOrder.TransitiveExactly | internal/store/task_query.go:113-133 | The comparison is transitive on a queue if and only if no level task straddles a reordered pair of one project. |
| QueueOrder.KeysApartIsTransitive | internal/store/task_query.go:138-145 | Distinct project keys suffice for transitivity. |
| QueueOrder.SortedQueueIsUnique | internal/store/task_query.go:109-110 | A sorted queue is determined by its tasks, whatever the sorting algorithm. |
| QueueOrder.ProjectsStayTogether | internal/store/task_query.go:98-110 | With keys apart a sorted queue keeps each project contiguous. |
| QueueOrder.MergesGoFirst | internal/store/task_query.go:113-133 | Within a project merge tasks come first, then slots, then age. |
| QueueOrder.CollectEarliest | internal/store/task_query.go:101-108 | The loop finds, for each project in the queue, the creation time of its oldest queued task. |
| QueueOrder.ListQueued | internal/store/task_query.go:77-111 | The listing is a permutation of the queue, ordered by the queueing times of the tasks' projects as they are in the queue, and fully sorted whenever the comparison is transitive; within one insertion block neighbours are in order even when it is not. |
| QueueOrder.OldestQueuedFirst | internal/store/task_query.go:98-117 | In the listing the groups go by waiting time: of two tasks, the project of the earlier one has had a task queued at least as long as the project of the later one; a task without a project counts from its own creation. |
| QueueOrder.LevelGroupsGoByAge | internal/store/task_query.go:118-133 | Of two tasks of different groups that have waited equally long, a merge task goes first, then the older, then the lower key. |
| QueueOrder.TiedKeysCanCycle | internal/store/task_query.go:113-133 | Three concrete tasks with tied keys, each before the next, so that every rotation looks sorted. |
| SkillNames.SlugSkillName | internal/exec/skills.go:935-959 | The loop computes a slug that is ASCII kebab-case. |
| SkillNames.OwnSlugExactly | internal/exec/skills.go:580-592 | A name equals its own slug if and only if it is kebab-case, which is what the frontmatter check relies on. |
| SkillNames.SlugIsStable | internal/exec/skills.go:935-959 | Slugging twice changes nothing. |
| SkillNames.DecimalIsInjective | internal/exec/skills.go:595-604 | Different suffix numbers give different names, so the search cannot cycle. |
| SkillNames.UniqueSkillSlug | internal/exec/skills.go:595-604 | The search ends with a free name that has the smallest free suffix. |
| RoleSkills.DesiredNamesAreDistinct | internal/exec/skills.go:440-457 | The names given to the selected skills are pairwise distinct. |
| RoleSkills.DesiredCoversLoaded | internal/exec/skills.go:440-457 | Every selected source that loads is mounted once, in order, and nothing else is. |
| RoleSkills.BuildDesired | internal/exec/skills.go:440-457 | The loop over the selection computes exactly that list. |
| RoleSkills.ShowsIsUnique | internal/exec/skills.go:428-432 | What is mounted is determined by the selection and by what stands under names outside it. |
| RoleSkills.SettlesExactly | internal/exec/skills.go:428-540 | The directory left is the one asked for if and only if, before the call, every kept entry had its mirror and was whole but for a missing or dangling link, and broken flags stood on kept links only. |
| RoleSkills.SettledIsHealthy | internal/exec/skills.go:477-524 | A directory settled for one selection, its links frayed since, meets that condition for every other selection. |
| RoleSkills.RunsSettle | internal/exec/skills.go:428-540 | From an empty directory every sequence of selections, with links breaking in between, ends with exactly what the last one asks for. |
| RoleSkills.StaleFlagIsCarriedOver | internal/exec/skills.go:525-532 | A broken flag of a replaced entry passes to the entry that takes its name. |
| RoleSkills.MissingMirrorStaysMissing | internal/exec/skills.go:480-501 | The mirror of a kept entry is not made again when it is gone. |
| RoleSkills.RoleDir.RemoveUnwanted | internal/exec/skills.go:468-475 | Removes exactly the recorded entries that are no longer wanted, on disk and in the records. |
| RoleSkills.RoleDir.MountOne | internal/exec/skills.go:478-523 | A new or replaced skill stands under its name with its mirror, a kept one is touched only if its link leads nowhere, and the caller learns whether its record changed. |
| RoleSkills.RoleDir.MountAll | internal/exec/skills.go:477-524 | The loop does this for every wanted skill, leaves other names alone, and reports a change if and only if some record was outdated. |
| RoleSkills.RoleDir.Align | internal/exec/skills.go:468-524 | Removing and mounting together: of the recorded names only wanted ones are left, each as its old entry and the selection determine. |
| RoleSkills.RoleDir.WriteManifest | internal/exec/skills.go:526-538 | The records afterwards are those of the selection, and an unchanged manifest is not rewritten. |
| RoleSkills.RoleDir.Reconcile | internal/exec/skills.go:432-540 | Skills, mirrors, prompt names and records afterwards are determined exactly, and unrecorded entries under other names are left alone; the result is what the selection asks for if and only if the old directory was healthy, and a settled directory is left as it is. |

## Left out

- tmux, systemd, git, command-line and HTTP calls, the web console, model probing, tokens and login: effects outside the store. Git appears as "branch changed or not", a terminal as a stream of observations, a log as a growing sequence of bytes.
- SQL text, migrations and JSON decoding: rows are records and a transaction is one atomic method. Columns that no modelled decision reads are not in `Task`.
- Integer width: keys, slots and counters are unbounded; `NewTaskFollowsExactly` and `CreateAppendsExactly` assume a new slot below the largest 64-bit integer, which the order uses for tasks without one. Timestamps are integers supplied by the caller; the source compares ISO strings, which order the same way.
- Unconditional `UpdateTask` status writes by the executor (`finishRun`, `markInterrupted`): each is one atomic step by the task's owner, so a claim that a cancelled task is never overwritten is neither made nor proved.
- Session and workflow-definition rows in a project's order: the model's order is over rows the query selects by project, cron and merge link.
- TaskDeletion.DeleteTask: requires that owners form no cycle, witnessed by a rank; on a cycle the source recurses without end. Cancelling the tasks and cleaning their worktrees beforehand, and the revision check of the caller, are not modelled.
- DependencyEditing.UpdateTaskAtRevision: the foreign keys covered are those of project and parent; the role key and columns that no decision reads are not.
- TaskCreation.CreateTaskWithProjectDependency: the foreign keys covered are those of project and of other tasks; the role and workflow-run keys are not.
- DependencyRuns.RunsStaySoundExactly: a project counts as dropped when no task names it; the keys of workflow runs, which may also keep its row, only make fewer drops commit.
- TaskDeletion.UnlinkTaskDependencies: requires that a row has a target only under an automatic or explicit dependency, which every modelled transaction keeps. Which blocking dependent an error names depends on row order and is left open.
- WorkflowPolicy.Validate: covers limits, node fields that matter to scheduling, edges, cycles and depth. Goals, actions, references and the budget sum are not modelled.
- WorkflowPolicy.NodeViolations: covers duplicate ids, permission, timeout and failure policy. Slug patterns, intents, role capabilities, actions, references and budgets are not modelled.
- WorkflowRuns.InstantiateWorkflow: requires distinct node ids, which validation has established; prompts are not rendered.
- WorkflowLaws.RunIsNeverStuck: "ready" is the dependency check's answer. Whether the node's role is enabled and has a free slot is the dispatcher's business.
- MergeProtocol.StepKeepsInv: session starts, scheduled copies, restart recovery and deletion are not steps of the machine. A deletion first writes cancelled on the task (`internal/application/task_delete.go:45-61`) and can then stop; a merged source left like that breaks the invariant (`CancelledSourceCannotFinishAgain`).
- DispatchSlots.Executor.Dispatch: the queue it is given holds the tasks with a role; the source passes over the others. A role that is gone or disabled is one whose limit is not answered.
- Slot conservation across sessions and restart recovery: `DispatchSlots` covers dispatch and `runTask` only.
- LogPolling.InteractivePollingLosesNothing: covers non-final polls; a final flush with more than 256 KiB unread has no clean property.
- Quoting.TomlReadsBackExactly: the reader knows the short escapes; numeric escapes never occur in the quoted form.
- TranscriptBuilder.BuildTranscript: events arrive decoded; a tool result carries the call id and text its blocks were reduced to, and the rendering of arguments as text is left out. A result may overtake text gathered before it.
- SseLaws.SerialRunsMissNothing: write errors, pings, disconnects and shutdown end a connection early and are not steps; the client then reconnects with its last number.
- QueueOrder.ListQueued: sorts by insertion, which is what Go's stable sort does within one block; on longer queues with an intransitive comparison nothing is promised about the order. With a transitive one every algorithm gives the same queue.
- SkillNames.SlugSkillName: starts from the lower-cased name; Unicode case folding is not modelled.
- RoleSkills.RoleDir.Reconcile: requires that nothing unrecorded stands under a name of the selection, and file operations that succeed; an unrecorded entry there would make its mount fail. Copied contents, the plugin manifest, unreadable or foreign-version manifests, and the trimming of blank or repeated selections beforehand are not modelled.
