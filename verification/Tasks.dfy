/**
  The rows of the task store.  Sessions, workflow definitions and merge tasks
  live in the same table as ordinary tasks; `kind` and `mergeOf` tell them apart.
  A row does not repeat its primary key: `Rows` maps the key to the row.
 */
module Tasks {
  import opened Wrappers
  import opened Digraph

  datatype Kind = OrdinaryTask | Session | WorkflowDefinition

  /** `OtherStatus` stands for the states only sessions and definitions use. */
  datatype Status =
    | Queued | Claimed | Running | AwaitingReview
    | Succeeded | Failed | Cancelled | OtherStatus(name: string)

  datatype Permission = Full | Review

  /** `Unset` is the empty string of legacy rows, `UnknownMode` any other text. */
  datatype DependencyMode = Unset | Independent | Weak | Strong | UnknownMode

  datatype Task = Task(
    kind: Kind,
    status: Status,
    perm: Permission,
    concurrent: bool,
    role: Option<Id>,
    project: Option<Id>,
    parent: Option<Id>,
    dependsOn: Option<Id>,
    mode: DependencyMode,
    blockOnFailure: bool,
    mergeOf: Option<Id>,
    mergeSkipped: bool,
    session: Option<Id>,
    run: Option<Id>,
    worktreeBranch: string,
    cron: string,
    sortOrder: int,
    createdAt: int,
    revision: nat,
    resumeOf: Option<Id> := None,
    parentSession: Option<Id> := None,
    parentTask: Option<Id> := None
  )

  /** The row with another dependency target; every update advances the revision. */
  function Relinked(t: Task, target: Option<Id>): Task {
    t.(dependsOn := target, revision := t.revision + 1)
  }

  type Rows = map<Id, Task>

  /** The `depends_on` column as a graph. */
  function Dependencies(rows: Rows): (g: Graph)
    ensures forall id :: id in g <==> id in rows && rows[id].dependsOn.Some?
    ensures forall id :: id in g ==> g[id] == rows[id].dependsOn.value
  {
    map id | id in rows && rows[id].dependsOn.Some? :: rows[id].dependsOn.value
  }

  /** Keys come from AUTOINCREMENT: positive, and never above the counter. */
  ghost predicate KeysIssued(rows: Rows, lastId: Id) {
    forall id :: id in rows ==> 0 < id <= lastId
  }

  // ---- Workflow runs ----

  type NodeId = string

  datatype OnFailure = Block | Continue

  /** Workflow edges, keyed as the table is: one row per task and dependency. */
  type Edges = map<Id, map<Id, OnFailure>>

  datatype RunStatus = RunRunning | RunSucceeded | RunFailed | RunCancelled

  datatype WorkflowRun = WorkflowRun(workflow: Id, project: Id, status: RunStatus, taskIds: map<NodeId, Id>, revision: nat)

  type Runs = map<Id, WorkflowRun>

  /** The single connection makes every method below one atomic transaction. */
  class Store {
    var tasks: Rows
    var lastId: Id
    var projects: set<Id>
    var archived: set<Id>
    var edges: Edges
    var runs: Runs
    var lastRunId: Id

    ghost predicate Valid()
      reads this
    {
      && KeysIssued(tasks, lastId)
      && (forall id :: id in edges ==> id <= lastId)
      && forall id :: id in runs ==> id <= lastRunId
    }

    constructor ()
      ensures Valid() && tasks == map[] && projects == {} && archived == {} && edges == map[] && runs == map[]
    {
      tasks, lastId := map[], 0;
      projects, archived := {}, {};
      edges, runs, lastRunId := map[], map[], 0;
    }
  }
}
