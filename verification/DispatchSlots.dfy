/**
  The executor's admission control: counters of active tasks per role, per project
  and per workflow run, taken one after another and rolled back on refusal.
 */
module DispatchSlots {
  import opened Wrappers

  type Id = nat

  type Counters = map<Id, nat>

  datatype QueuedTask = QueuedTask(id: Id, role: Id, project: Option<Id>, run: Option<Id>, concurrent: bool)

  // ---- Counters ----

  function Count(m: Counters, k: Id): nat {
    if k in m then m[k] else 0
  }

  /** A counter that drops to zero is removed, so stored counts are positive. */
  ghost predicate Positive(m: Counters) {
    forall k :: k in m ==> m[k] > 0
  }

  function Taken(m: Counters, k: Id): (r: Counters)
    ensures Positive(m) ==> Positive(r)
    ensures forall x :: Count(r, x) == Count(m, x) + if x == k then 1 else 0
  {
    m[k := Count(m, k) + 1]
  }

  function Given(m: Counters, k: Id): (r: Counters)
    ensures Positive(m) ==> Positive(r)
    ensures forall x :: Count(r, x) == Count(m, x) - if x == k && Count(m, k) > 0 then 1 else 0
  {
    if Count(m, k) <= 1 then m - {k} else m[k := m[k] - 1]
  }

  /** Rolling back a reservation restores the counter map itself. */
  lemma GivingBackUndoes(m: Counters, k: Id)
    requires Positive(m)
    ensures Given(Taken(m, k), k) == m
  {
    assert Count(m, k) == 0 ==> k !in m;
  }

  function Effective(limit: int): nat {
    if limit < 1 then 1 else limit
  }

  function TakenIf(m: Counters, k: Option<Id>): Counters {
    if k.Some? then Taken(m, k.value) else m
  }

  function GivenIf(m: Counters, k: Option<Id>): Counters {
    if k.Some? then Given(m, k.value) else m
  }

  // ---- The executor ----

  /** What the store answers about one queued task, in the order it is asked. */
  datatype Answers = Answers(ready: bool, runLimit: Option<int>, roleLimit: Option<int>, claimed: bool)

  /** The counters, and the limits a pass over the queue has read so far. */
  datatype Pass = Pass(
    active: Counters, projects: Counters, runs: Counters, limits: map<Id, int>, runLimits: map<Id, int>)

  /** A limit is read once per pass; the store may not answer. */
  function Known(limits: map<Id, int>, k: Id, answer: Option<int>): Option<int> {
    if k in limits then Some(limits[k]) else answer
  }

  /** One slot is always granted to a holder that has none, whatever the limit says. */
  predicate HasRoom(m: Counters, k: Id, limit: Option<int>) {
    limit.Some? && (Count(m, k) == 0 || Count(m, k) < limit.value)
  }

  predicate RunHasRoom(p: Pass, t: QueuedTask, a: Answers) {
    t.run.Some? ==> HasRoom(p.runs, t.run.value, Known(p.runLimits, t.run.value, a.runLimit))
  }

  /** A queued task is started exactly when it is ready, all three slots are free to it, and its claim succeeds. */
  predicate Admits(p: Pass, t: QueuedTask, a: Answers) {
    && a.ready && a.claimed && RunHasRoom(p, t, a)
    && HasRoom(p.active, t.role, Known(p.limits, t.role, a.roleLimit))
    && (t.project.Some? && !t.concurrent ==> Count(p.projects, t.project.value) == 0)
  }

  function Learned(limits: map<Id, int>, k: Id, answer: Option<int>): map<Id, int> {
    if k !in limits && answer.Some? then limits[k := answer.value] else limits
  }

  /** The run's limit is asked for before the role's, and the role's only when the run has room. */
  function Considered(p: Pass, t: QueuedTask, a: Answers): Pass {
    var runLimits := if a.ready && t.run.Some? then Learned(p.runLimits, t.run.value, a.runLimit) else p.runLimits;
    var limits := if a.ready && RunHasRoom(p, t, a) then Learned(p.limits, t.role, a.roleLimit) else p.limits;
    if Admits(p, t, a) then
      Pass(Taken(p.active, t.role), TakenIf(p.projects, t.project), TakenIf(p.runs, t.run), limits, runLimits)
    else p.(limits := limits, runLimits := runLimits)
  }

  function Passed(p: Pass, tasks: seq<QueuedTask>, answers: seq<Answers>): Pass
    requires |answers| == |tasks|
  {
    if tasks == [] then p
    else
      var n := |tasks| - 1;
      Considered(Passed(p, tasks[..n], answers[..n]), tasks[n], answers[n])
  }

  /** The tasks admitted, each against the counters that the tasks before it left. */
  function Started(p: Pass, tasks: seq<QueuedTask>, answers: seq<Answers>): seq<QueuedTask>
    requires |answers| == |tasks|
  {
    if tasks == [] then []
    else
      var n := |tasks| - 1;
      Started(p, tasks[..n], answers[..n]) +
      if Admits(Passed(p, tasks[..n], answers[..n]), tasks[n], answers[n]) then [tasks[n]] else []
  }

  function OfRole(tasks: seq<QueuedTask>, role: Id): nat {
    if tasks == [] then 0
    else OfRole(tasks[..|tasks| - 1], role) + if tasks[|tasks| - 1].role == role then 1 else 0
  }

  function OfProject(tasks: seq<QueuedTask>, project: Id): nat {
    if tasks == [] then 0
    else OfProject(tasks[..|tasks| - 1], project) + if tasks[|tasks| - 1].project == Some(project) then 1 else 0
  }

  function OfRun(tasks: seq<QueuedTask>, run: Id): nat {
    if tasks == [] then 0
    else OfRun(tasks[..|tasks| - 1], run) + if tasks[|tasks| - 1].run == Some(run) then 1 else 0
  }

  class Executor {
    var active: Counters
    var activeProjects: Counters
    var activeRuns: Counters

    ghost predicate Valid()
      reads this
    {
      Positive(active) && Positive(activeProjects) && Positive(activeRuns)
    }

    constructor ()
      ensures Valid() && active == map[] && activeProjects == map[] && activeRuns == map[]
    {
      active, activeProjects, activeRuns := map[], map[], map[];
    }

    method ReserveWorkflowSlot(t: QueuedTask, limit: int) returns (ok: bool)
      requires Valid()
      modifies this`activeRuns
      ensures Valid()
      ensures ok <==> t.run.None? || HasRoom(old(activeRuns), t.run.value, Some(limit))
      ensures activeRuns == if ok then TakenIf(old(activeRuns), t.run) else old(activeRuns)
    {
      if t.run.None? { return true; }
      if Count(activeRuns, t.run.value) >= Effective(limit) { return false; }
      activeRuns := Taken(activeRuns, t.run.value);
      return true;
    }

    method ReserveRoleSlot(role: Id, limit: int) returns (ok: bool)
      requires Valid()
      modifies this`active
      ensures Valid()
      ensures ok <==> HasRoom(old(active), role, Some(limit))
      ensures limit >= 1 ==> (ok <==> Count(old(active), role) < limit)
      ensures limit < 1 ==> (ok <==> Count(old(active), role) == 0)
      ensures active == if ok then Taken(old(active), role) else old(active)
    {
      if Count(active, role) >= Effective(limit) { return false; }
      active := Taken(active, role);
      return true;
    }

    method ReserveProjectSlot(t: QueuedTask) returns (ok: bool)
      requires Valid()
      modifies this`activeProjects
      ensures Valid()
      ensures ok <==> t.project.None? || t.concurrent || Count(old(activeProjects), t.project.value) == 0
      ensures activeProjects == if ok then TakenIf(old(activeProjects), t.project) else old(activeProjects)
    {
      if t.project.None? { return true; }
      if !t.concurrent && Count(activeProjects, t.project.value) > 0 { return false; }
      activeProjects := Taken(activeProjects, t.project.value);
      return true;
    }

    /** The end of `runTask`: all three slots at once. */
    method ReleaseAll(t: QueuedTask)
      requires Valid()
      modifies this
      ensures Valid()
      ensures active == Given(old(active), t.role)
      ensures activeProjects == GivenIf(old(activeProjects), t.project)
      ensures activeRuns == GivenIf(old(activeRuns), t.run)
    {
      active := Given(active, t.role);
      activeProjects := GivenIf(activeProjects, t.project);
      activeRuns := GivenIf(activeRuns, t.run);
    }

    /** The role and project slots of a task that holds its run slot; a refusal gives that back too. */
    method Admit(t: QueuedTask, roleLimit: int, claimed: bool) returns (admitted: bool)
      requires Valid()
      modifies this
      ensures Valid()
      ensures admitted ==>
                && active == Taken(old(active), t.role)
                && activeProjects == TakenIf(old(activeProjects), t.project)
                && activeRuns == old(activeRuns)
      ensures !admitted ==>
                && active == old(active) && activeProjects == old(activeProjects)
                && activeRuns == GivenIf(old(activeRuns), t.run)
      ensures admitted <==>
                && claimed
                && HasRoom(old(active), t.role, Some(roleLimit))
                && (t.project.Some? && !t.concurrent ==> Count(old(activeProjects), t.project.value) == 0)
    {
      GivingBackUndoes(active, t.role);
      if t.project.Some? { GivingBackUndoes(activeProjects, t.project.value); }
      var ok := ReserveRoleSlot(t.role, roleLimit);
      if !ok {
        activeRuns := GivenIf(activeRuns, t.run);
        return false;
      }
      ok := ReserveProjectSlot(t);
      if !ok {
        active := Given(active, t.role);
        activeRuns := GivenIf(activeRuns, t.run);
        return false;
      }
      if !claimed {
        active := Given(active, t.role);
        activeProjects := GivenIf(activeProjects, t.project);
        activeRuns := GivenIf(activeRuns, t.run);
        return false;
      }
      return true;
    }

    /**
      One queued task.  A limit is read once per pass, when first needed.  Either the
      task takes one slot of each kind, or all counters are as they were.
     */
    method Consider(t: QueuedTask, a: Answers, limits0: map<Id, int>, runLimits0: map<Id, int>)
      returns (admitted: bool, limits: map<Id, int>, runLimits: map<Id, int>)
      requires Valid()
      modifies this
      ensures Valid()
      ensures var before := Pass(old(active), old(activeProjects), old(activeRuns), limits0, runLimits0);
              && admitted == Admits(before, t, a)
              && Pass(active, activeProjects, activeRuns, limits, runLimits) == Considered(before, t, a)
    {
      ghost var before := Pass(active, activeProjects, activeRuns, limits0, runLimits0);
      admitted, limits, runLimits := false, limits0, runLimits0;
      if !a.ready { return; }
      if t.run.Some? {
        if t.run.value !in runLimits {
          if a.runLimit.None? { return; }
          runLimits := runLimits[t.run.value := a.runLimit.value];
        }
        GivingBackUndoes(activeRuns, t.run.value);
      }
      var reserved := ReserveWorkflowSlot(t, if t.run.Some? then runLimits[t.run.value] else 0);
      assert reserved == RunHasRoom(before, t, a);
      if !reserved { return; }
      if t.role !in limits {
        if a.roleLimit.None? {
          activeRuns := GivenIf(activeRuns, t.run);
          return;
        }
        limits := limits[t.role := a.roleLimit.value];
      }
      admitted := Admit(t, limits[t.role], a.claimed);
    }

    /** Every counter is its value before the pass plus the tasks claimed since. */
    twostate predicate Accounts(started: seq<QueuedTask>)
      reads this
    {
      && (forall r :: Count(active, r) == Count(old(active), r) + OfRole(started, r))
      && (forall p :: Count(activeProjects, p) == Count(old(activeProjects), p) + OfProject(started, p))
      && (forall w :: Count(activeRuns, w) == Count(old(activeRuns), w) + OfRun(started, w))
    }

    /**
      One pass over the queue starts exactly the tasks that are admitted at their turn, and
      every counter ends at its old value plus the tasks started.
     */
    method Dispatch(tasks: seq<QueuedTask>, answers: seq<Answers>) returns (started: seq<QueuedTask>)
      requires Valid() && |answers| == |tasks|
      modifies this
      ensures Valid() && Accounts(started)
      ensures started == Started(Pass(old(active), old(activeProjects), old(activeRuns), map[], map[]), tasks, answers)
    {
      started := [];
      var limits: map<Id, int>, runLimits: map<Id, int> := map[], map[];
      ghost var start := Pass(active, activeProjects, activeRuns, map[], map[]);
      for i := 0 to |tasks|
        invariant Valid()
        invariant started == Started(start, tasks[..i], answers[..i])
        invariant Pass(active, activeProjects, activeRuns, limits, runLimits) == Passed(start, tasks[..i], answers[..i])
      {
        assert tasks[..i + 1][..i] == tasks[..i] && answers[..i + 1][..i] == answers[..i];
        var admitted;
        admitted, limits, runLimits := Consider(tasks[i], answers[i], limits, runLimits);
        if admitted { started := started + [tasks[i]]; }
      }
      assert tasks[..|tasks|] == tasks && answers[..|tasks|] == answers;
      PassAccounts(start, tasks, answers);
    }
  }

  /** A pass raises each counter by the number of tasks it started that use the slot. */
  lemma {:induction false} PassAccounts(p: Pass, tasks: seq<QueuedTask>, answers: seq<Answers>)
    requires |answers| == |tasks|
    ensures var q, started := Passed(p, tasks, answers), Started(p, tasks, answers);
            && (forall r :: Count(q.active, r) == Count(p.active, r) + OfRole(started, r))
            && (forall x :: Count(q.projects, x) == Count(p.projects, x) + OfProject(started, x))
            && (forall w :: Count(q.runs, w) == Count(p.runs, w) + OfRun(started, w))
    decreases |tasks|
  {
    if tasks != [] {
      var n := |tasks| - 1;
      PassAccounts(p, tasks[..n], answers[..n]);
      OneMore(Started(p, tasks[..n], answers[..n]), tasks[n]);
      assert Started(p, tasks[..n], answers[..n]) + [] == Started(p, tasks[..n], answers[..n]);
    }
  }

  /** The task is admitted at its turn, against the counters that the tasks before it left. */
  predicate AdmittedAt(p: Pass, tasks: seq<QueuedTask>, answers: seq<Answers>, i: nat)
    requires |answers| == |tasks|
  {
    i < |tasks| && Admits(Passed(p, tasks[..i], answers[..i]), tasks[i], answers[i])
  }

  lemma EarlierTurns(p: Pass, tasks: seq<QueuedTask>, answers: seq<Answers>, n: nat, i: nat)
    requires |answers| == |tasks| && i < n <= |tasks|
    ensures AdmittedAt(p, tasks[..n], answers[..n], i) <==> AdmittedAt(p, tasks, answers, i)
  {
    assert tasks[..n][..i] == tasks[..i] && answers[..n][..i] == answers[..i];
  }

  lemma {:induction false} StartedExactly(p: Pass, tasks: seq<QueuedTask>, answers: seq<Answers>, t: QueuedTask)
    requires |answers| == |tasks|
    ensures t in Started(p, tasks, answers) <==> exists i: nat :: AdmittedAt(p, tasks, answers, i) && tasks[i] == t
    decreases |tasks|
  {
    if tasks != [] {
      var n := |tasks| - 1;
      StartedExactly(p, tasks[..n], answers[..n], t);
      forall i | 0 <= i < n ensures AdmittedAt(p, tasks[..n], answers[..n], i) <==> AdmittedAt(p, tasks, answers, i) {
        EarlierTurns(p, tasks, answers, n, i);
      }
      if i: nat :| AdmittedAt(p, tasks, answers, i) && tasks[i] == t {
        assert i == n || AdmittedAt(p, tasks[..n], answers[..n], i);
      }
      assert AdmittedAt(p, tasks, answers, n) <==> Admits(Passed(p, tasks[..n], answers[..n]), tasks[n], answers[n]);
    }
  }

  lemma OneMore(tasks: seq<QueuedTask>, t: QueuedTask)
    ensures forall r: Id :: OfRole(tasks + [t], r) == OfRole(tasks, r) + if r == t.role then 1 else 0
    ensures forall p: Id :: OfProject(tasks + [t], p) == OfProject(tasks, p) + if t.project == Some(p) then 1 else 0
    ensures forall w: Id :: OfRun(tasks + [t], w) == OfRun(tasks, w) + if t.run == Some(w) then 1 else 0
  {
    assert (tasks + [t])[..|tasks|] == tasks;
  }

  // ---- Releases interleaved with a pass ----

  /** How far the dispatcher has got with the task in hand. */
  datatype Stage = Idle | HoldsRun(task: QueuedTask) | HoldsRole(task: QueuedTask) | HoldsAll(task: QueuedTask)

  /** Each claim starts an instance of its own; `running` holds those whose `runTask` has not returned. */
  datatype State = State(
    active: Counters, activeProjects: Counters, activeRuns: Counters,
    running: map<nat, QueuedTask>, started: nat, stage: Stage)

  /** Every step is one critical section of the executor's lock. */
  datatype Step =
    | TakeRun(t: QueuedTask, limit: int)
    | TakeRole(limit: int)
    | TakeProject
    | GiveUp
    | Claimed
    | Finished(instance: nat)

  function Next(s: State, step: Step): State {
    match step
    case TakeRun(t, limit) =>
      if s.stage.Idle? && (t.run.None? || HasRoom(s.activeRuns, t.run.value, Some(limit)))
      then s.(activeRuns := TakenIf(s.activeRuns, t.run), stage := HoldsRun(t)) else s
    case TakeRole(limit) =>
      if s.stage.HoldsRun? && HasRoom(s.active, s.stage.task.role, Some(limit))
      then s.(active := Taken(s.active, s.stage.task.role), stage := HoldsRole(s.stage.task)) else s
    case TakeProject =>
      if s.stage.HoldsRole? && (s.stage.task.project.None? || s.stage.task.concurrent
                                || Count(s.activeProjects, s.stage.task.project.value) == 0)
      then s.(activeProjects := TakenIf(s.activeProjects, s.stage.task.project), stage := HoldsAll(s.stage.task)) else s
    case GiveUp =>
      (match s.stage
       case Idle => s
       case HoldsRun(t) => s.(activeRuns := GivenIf(s.activeRuns, t.run), stage := Idle)
       case HoldsRole(t) => s.(active := Given(s.active, t.role), stage := HoldsRun(t))
       case HoldsAll(t) => s.(activeProjects := GivenIf(s.activeProjects, t.project), stage := HoldsRole(t)))
    case Claimed =>
      if s.stage.HoldsAll? then s.(running := s.running[s.started := s.stage.task], started := s.started + 1, stage := Idle) else s
    case Finished(i) =>
      if i in s.running
      then s.(active := Given(s.active, s.running[i].role),
              activeProjects := GivenIf(s.activeProjects, s.running[i].project),
              activeRuns := GivenIf(s.activeRuns, s.running[i].run),
              running := s.running - {i})
      else s
  }

  function Run(s: State, steps: seq<Step>): State
    decreases |steps|
  {
    if steps == [] then s else Run(Next(s, steps[0]), steps[1..])
  }

  /** The three kinds of slot under one name. */
  datatype Slot = RoleSlot(id: Id) | ProjectSlot(id: Id) | RunSlot(id: Id)

  predicate Uses(t: QueuedTask, slot: Slot) {
    match slot
    case RoleSlot(r) => t.role == r
    case ProjectSlot(p) => t.project == Some(p)
    case RunSlot(w) => t.run == Some(w)
  }

  function CounterOf(s: State, slot: Slot): nat {
    match slot
    case RoleSlot(r) => Count(s.active, r)
    case ProjectSlot(p) => Count(s.activeProjects, p)
    case RunSlot(w) => Count(s.activeRuns, w)
  }

  /** The running instances, and the task in hand as one more once it has passed that kind of slot. */
  function Holders(s: State, slot: Slot): map<nat, QueuedTask> {
    var inHand :=
      match slot
      case RoleSlot(_) => s.stage.HoldsRole? || s.stage.HoldsAll?
      case ProjectSlot(_) => s.stage.HoldsAll?
      case RunSlot(_) => !s.stage.Idle?;
    if inHand then s.running[s.started := s.stage.task] else s.running
  }

  function Using(m: map<nat, QueuedTask>, slot: Slot): set<nat> {
    set i | i in m && Uses(m[i], slot)
  }

  /** Whoever joins a project that is already held is a concurrent task. */
  ghost predicate SerialApart(m: map<nat, QueuedTask>) {
    forall i, j :: i in m && j in m && i < j && m[i].project.Some? && m[i].project == m[j].project
                   ==> m[j].concurrent
  }

  ghost predicate Inv(s: State) {
    && (forall i :: i in s.running ==> i < s.started)
    && (forall slot :: CounterOf(s, slot) == |Using(Holders(s, slot), slot)|)
    && SerialApart(Holders(s, ProjectSlot(0)))
  }

  lemma OneMoreHolder(m: map<nat, QueuedTask>, i: nat, t: QueuedTask, slot: Slot)
    requires i !in m
    ensures |Using(m[i := t], slot)| == |Using(m, slot)| + if Uses(t, slot) then 1 else 0
  {
    assert Using(m[i := t], slot) == Using(m, slot) + if Uses(t, slot) then {i} else {};
  }

  lemma OneHolderLess(m: map<nat, QueuedTask>, i: nat, slot: Slot)
    requires i in m
    ensures |Using(m, slot)| == |Using(m - {i}, slot)| + if Uses(m[i], slot) then 1 else 0
  {
    assert Using(m, slot) == Using(m - {i}, slot) + if Uses(m[i], slot) then {i} else {};
  }

  lemma TakingCounts(s: State, step: Step, slot: Slot)
    requires Inv(s) && (step.TakeRun? || step.TakeRole? || step.TakeProject?)
    ensures CounterOf(Next(s, step), slot) == |Using(Holders(Next(s, step), slot), slot)|
  {
    assert CounterOf(s, slot) == |Using(Holders(s, slot), slot)|;
    var t := if step.TakeRun? then step.t else if s.stage.Idle? then QueuedTask(0, 0, None, None, false) else s.stage.task;
    OneMoreHolder(s.running, s.started, t, slot);
  }

  lemma GivingUpCounts(s: State, slot: Slot)
    requires Inv(s)
    ensures CounterOf(Next(s, GiveUp), slot) == |Using(Holders(Next(s, GiveUp), slot), slot)|
  {
    assert CounterOf(s, slot) == |Using(Holders(s, slot), slot)|;
    if !s.stage.Idle? { OneMoreHolder(s.running, s.started, s.stage.task, slot); }
  }

  lemma FinishingFreesSlot(s: State, i: nat, slot: Slot)
    requires Inv(s) && i in s.running
    ensures Holders(Next(s, Finished(i)), slot) == Holders(s, slot) - {i}
    ensures i in Holders(s, slot) && Holders(s, slot)[i] == s.running[i]
  {
  }

  lemma FinishingLowersCounter(s: State, i: nat, slot: Slot)
    requires i in s.running && (Uses(s.running[i], slot) ==> CounterOf(s, slot) > 0)
    ensures CounterOf(Next(s, Finished(i)), slot) == CounterOf(s, slot) - if Uses(s.running[i], slot) then 1 else 0
  {
  }

  lemma FinishingCounts(s: State, i: nat, slot: Slot)
    requires Inv(s) && i in s.running
    ensures CounterOf(Next(s, Finished(i)), slot) == |Using(Holders(Next(s, Finished(i)), slot), slot)|
  {
    assert CounterOf(s, slot) == |Using(Holders(s, slot), slot)|;
    FinishingFreesSlot(s, i, slot);
    OneHolderLess(Holders(s, slot), i, slot);
    FinishingLowersCounter(s, i, slot);
  }

  lemma StepKeepsCounter(s: State, step: Step, slot: Slot)
    requires Inv(s)
    ensures CounterOf(Next(s, step), slot) == |Using(Holders(Next(s, step), slot), slot)|
  {
    match step
    case GiveUp => GivingUpCounts(s, slot);
    case Finished(i) => if i in s.running { FinishingCounts(s, i, slot); }
    case Claimed => assert CounterOf(s, slot) == |Using(Holders(s, slot), slot)|;
    case _ => TakingCounts(s, step, slot);
  }

  lemma NobodyInProject(s: State, p: Id)
    requires Inv(s) && Count(s.activeProjects, p) == 0
    ensures forall i :: i in Holders(s, ProjectSlot(0)) ==> Holders(s, ProjectSlot(0))[i].project != Some(p)
  {
    var m := Holders(s, ProjectSlot(0));
    assert CounterOf(s, ProjectSlot(p)) == |Using(Holders(s, ProjectSlot(p)), ProjectSlot(p))|;
    assert Using(m, ProjectSlot(p)) == {};
    assert forall i :: i in m && Uses(m[i], ProjectSlot(p)) ==> i in Using(m, ProjectSlot(p));
  }

  lemma FewerStaysSerial(m: map<nat, QueuedTask>, n: map<nat, QueuedTask>)
    requires SerialApart(m) && forall i :: i in n ==> i in m && m[i] == n[i]
    ensures SerialApart(n)
  {
  }

  lemma StepKeepsSerial(s: State, step: Step)
    requires Inv(s)
    ensures SerialApart(Holders(Next(s, step), ProjectSlot(0)))
  {
    var before, after := Holders(s, ProjectSlot(0)), Holders(Next(s, step), ProjectSlot(0));
    if step.TakeProject? {
      if s.stage.HoldsRole? {
        var t := s.stage.task;
        if t.project.Some? && Count(s.activeProjects, t.project.value) == 0 { NobodyInProject(s, t.project.value); }
      }
    } else {
      FewerStaysSerial(before, after);
    }
  }

  lemma StepKeepsInv(s: State, step: Step)
    requires Inv(s)
    ensures Inv(Next(s, step))
  {
    forall slot ensures CounterOf(Next(s, step), slot) == |Using(Holders(Next(s, step), slot), slot)| {
      StepKeepsCounter(s, step, slot);
    }
    StepKeepsSerial(s, step);
  }

  const EMPTY := State(map[], map[], map[], map[], 0, Idle)

  /**
    Whatever releases fall between the dispatcher's reservations, each counter is the
    number of instances that hold its slot, and a project never has two serial
    tasks running.
   */
  lemma {:induction false} RunKeepsInv(s: State, steps: seq<Step>)
    requires Inv(s)
    ensures Inv(Run(s, steps))
    decreases |steps|
  {
    if steps != [] {
      StepKeepsInv(s, steps[0]);
      RunKeepsInv(Next(s, steps[0]), steps[1..]);
    }
  }

  /** Of two tasks of one project that run at once, the one started later is concurrent. */
  lemma LaterTasksAreConcurrent(steps: seq<Step>, i: nat, j: nat)
    requires var m := Run(EMPTY, steps).running;
             i in m && j in m && i < j && m[i].project.Some? && m[i].project == m[j].project
    ensures Run(EMPTY, steps).running[j].concurrent
  {
    RunKeepsInv(EMPTY, steps);
    var s := Run(EMPTY, steps);
    assert i in Holders(s, ProjectSlot(0)) && j in Holders(s, ProjectSlot(0));
    assert i < s.started && j < s.started;
  }

  /** The gate is one-sided: a concurrent task may join a serial one that is running. */
  lemma ConcurrentTaskJoinsSerialOne(serial: QueuedTask, joiner: QueuedTask)
    requires !serial.concurrent && joiner.concurrent && serial.project.Some? && joiner.project == serial.project
    requires serial.run.None? && joiner.run.None? && serial.role != joiner.role
    ensures var steps := [TakeRun(serial, 1), TakeRole(1), TakeProject, Claimed,
                          TakeRun(joiner, 1), TakeRole(1), TakeProject, Claimed];
            Run(EMPTY, steps).running == map[0 := serial, 1 := joiner]
  {
    var p := serial.project.value;
    var first := [TakeRun(serial, 1), TakeRole(1), TakeProject, Claimed];
    var second := [TakeRun(joiner, 1), TakeRole(1), TakeProject, Claimed];
    var s := State(map[serial.role := 1], map[p := 1], map[], map[0 := serial], 1, Idle);
    RunFour(EMPTY, first);
    RunFour(s, second);
    RunJoins(EMPTY, first, second);
    assert first + second == [TakeRun(serial, 1), TakeRole(1), TakeProject, Claimed,
                              TakeRun(joiner, 1), TakeRole(1), TakeProject, Claimed];
  }

  lemma RunFour(s: State, steps: seq<Step>)
    requires |steps| == 4
    ensures Run(s, steps) == Next(Next(Next(Next(s, steps[0]), steps[1]), steps[2]), steps[3])
  {
    var rest := [steps[1..], steps[2..], steps[3..]];
    assert rest[0][1..] == rest[1] && rest[1][1..] == rest[2] && rest[2][1..] == [];
    var s1, s2 := Next(s, steps[0]), Next(Next(s, steps[0]), steps[1]);
    assert Run(s, steps) == Run(s1, rest[0]) == Run(s2, rest[1]);
    assert Run(s2, rest[1]) == Run(Next(s2, steps[2]), rest[2]) == Next(Next(s2, steps[2]), steps[3]);
  }

  lemma {:induction false} RunJoins(s: State, a: seq<Step>, b: seq<Step>)
    ensures Run(s, a + b) == Run(Run(s, a), b)
    decreases |a|
  {
    if a == [] {
      assert a + b == b;
    } else {
      RunJoins(Next(s, a[0]), a[1..], b);
      assert (a + b)[1..] == a[1..] + b;
    }
  }

  // ---- Limits ----

  /** Every reservation of the role is tried under a limit of at most `limit`. */
  ghost predicate RoleLimited(s: State, steps: seq<Step>, role: Id, limit: int)
    decreases |steps|
  {
    steps != [] ==>
      && (steps[0].TakeRole? && s.stage.HoldsRun? && s.stage.task.role == role ==> steps[0].limit <= limit)
      && RoleLimited(Next(s, steps[0]), steps[1..], role, limit)
  }

  /** The counters respect a limit, which is at least one. */
  predicate Within(n: nat, limit: int) { n <= 1 || n <= limit }

  /** A role never runs more instances than the largest limit in force while it was reserved. */
  lemma {:induction false} RoleStaysWithinLimit(s: State, steps: seq<Step>, role: Id, limit: int)
    requires Inv(s) && Within(Count(s.active, role), limit) && RoleLimited(s, steps, role, limit)
    ensures Within(Count(Run(s, steps).active, role), limit)
    ensures limit >= 1 ==> |Using(Run(s, steps).running, RoleSlot(role))| <= limit
    ensures limit < 1 ==> |Using(Run(s, steps).running, RoleSlot(role))| <= 1
    decreases |steps|
  {
    if steps == [] {
      assert CounterOf(s, RoleSlot(role)) == |Using(Holders(s, RoleSlot(role)), RoleSlot(role))|;
      if s.stage.HoldsRole? || s.stage.HoldsAll? {
        OneMoreHolder(s.running, s.started, s.stage.task, RoleSlot(role));
      }
    } else {
      StepKeepsInv(s, steps[0]);
      RoleStaysWithinLimit(Next(s, steps[0]), steps[1..], role, limit);
    }
  }

  /** Every reservation of the workflow run is tried under a limit of at most `limit`. */
  ghost predicate RunLimited(s: State, steps: seq<Step>, run: Id, limit: int)
    decreases |steps|
  {
    steps != [] ==>
      && (steps[0].TakeRun? && s.stage.Idle? && steps[0].t.run == Some(run) ==> steps[0].limit <= limit)
      && RunLimited(Next(s, steps[0]), steps[1..], run, limit)
  }

  /** Nor does a workflow run have more of its nodes running than its limit. */
  lemma {:induction false} RunStaysWithinLimit(s: State, steps: seq<Step>, run: Id, limit: int)
    requires Inv(s) && Within(Count(s.activeRuns, run), limit) && RunLimited(s, steps, run, limit)
    ensures Within(Count(Run(s, steps).activeRuns, run), limit)
    ensures limit >= 1 ==> |Using(Run(s, steps).running, RunSlot(run))| <= limit
    ensures limit < 1 ==> |Using(Run(s, steps).running, RunSlot(run))| <= 1
    decreases |steps|
  {
    if steps == [] {
      assert CounterOf(s, RunSlot(run)) == |Using(Holders(s, RunSlot(run)), RunSlot(run))|;
      if !s.stage.Idle? { OneMoreHolder(s.running, s.started, s.stage.task, RunSlot(run)); }
    } else {
      StepKeepsInv(s, steps[0]);
      RunStaysWithinLimit(Next(s, steps[0]), steps[1..], run, limit);
    }
  }

  // ---- The limits of one pass ----

  /** Whatever a pass has started stays within the limits it read. */
  ghost predicate PassWithin(q: Pass, started: seq<QueuedTask>) {
    forall t :: t in started ==>
      && t.role in q.limits && Count(q.active, t.role) >= 1
      && (Count(q.active, t.role) <= 1 || Count(q.active, t.role) <= q.limits[t.role])
      && (t.run.Some? ==>
            && t.run.value in q.runLimits && Count(q.runs, t.run.value) >= 1
            && (Count(q.runs, t.run.value) <= 1 || Count(q.runs, t.run.value) <= q.runLimits[t.run.value]))
  }

  lemma ConsideredStaysWithin(p: Pass, t: QueuedTask, a: Answers, started: seq<QueuedTask>)
    requires PassWithin(p, started)
    ensures PassWithin(Considered(p, t, a), started + if Admits(p, t, a) then [t] else [])
  {
    forall u | u in started ensures u.role in p.limits && (u.run.Some? ==> u.run.value in p.runLimits) {
    }
  }

  /** A pass that started a task of a role, or of a workflow run, leaves its counter at or below the limit it read. */
  lemma {:induction false} PassStaysWithinLimits(p: Pass, tasks: seq<QueuedTask>, answers: seq<Answers>)
    requires |answers| == |tasks|
    ensures PassWithin(Passed(p, tasks, answers), Started(p, tasks, answers))
    decreases |tasks|
  {
    if tasks != [] {
      var n := |tasks| - 1;
      PassStaysWithinLimits(p, tasks[..n], answers[..n]);
      ConsideredStaysWithin(Passed(p, tasks[..n], answers[..n]), tasks[n], answers[n], Started(p, tasks[..n], answers[..n]));
    }
  }

  /** Every limit that a pass has learned is the answer given for one of its tasks. */
  lemma {:induction false} LimitsAreAnswers(p: Pass, tasks: seq<QueuedTask>, answers: seq<Answers>, k: Id)
    requires |answers| == |tasks|
    ensures var q := Passed(p, tasks, answers);
            && (k in p.limits ==> k in q.limits && q.limits[k] == p.limits[k])
            && (k in p.runLimits ==> k in q.runLimits && q.runLimits[k] == p.runLimits[k])
            && (k in q.limits && k !in p.limits ==>
                  exists i :: 0 <= i < |tasks| && tasks[i].role == k && answers[i].roleLimit == Some(q.limits[k]))
            && (k in q.runLimits && k !in p.runLimits ==>
                  exists i :: 0 <= i < |tasks| && tasks[i].run == Some(k) && answers[i].runLimit == Some(q.runLimits[k]))
    decreases |tasks|
  {
    if tasks != [] {
      var n := |tasks| - 1;
      var q, r := Passed(p, tasks[..n], answers[..n]), Passed(p, tasks, answers);
      LimitsAreAnswers(p, tasks[..n], answers[..n], k);
      if k in q.limits && k !in p.limits {
        var i :| 0 <= i < n && tasks[..n][i].role == k && answers[..n][i].roleLimit == Some(q.limits[k]);
        assert tasks[i].role == k && answers[i].roleLimit == Some(r.limits[k]);
      }
      if k in q.runLimits && k !in p.runLimits {
        var i :| 0 <= i < n && tasks[..n][i].run == Some(k) && answers[..n][i].runLimit == Some(q.runLimits[k]);
        assert tasks[i].run == Some(k) && answers[i].runLimit == Some(r.runLimits[k]);
      }
    }
  }

  // ---- Nothing is left behind ----

  /** The holder has slots, and at least as many as its limit. */
  predicate Exhausted(m: Counters, limits: map<Id, int>, k: Id) {
    k in limits && Count(m, k) >= 1 && Count(m, k) >= limits[k]
  }

  /** What stands in the way of a task at the end of a pass. */
  predicate Hindered(q: Pass, t: QueuedTask, a: Answers) {
    || !a.ready || !a.claimed
    || (t.run.Some? && (a.runLimit.None? || Exhausted(q.runs, q.runLimits, t.run.value)))
    || a.roleLimit.None? || Exhausted(q.active, q.limits, t.role)
    || (t.project.Some? && !t.concurrent && Count(q.projects, t.project.value) > 0)
  }

  lemma RefusedForAReason(p: Pass, t: QueuedTask, a: Answers)
    requires !Admits(p, t, a)
    ensures Hindered(Considered(p, t, a), t, a)
  {
  }

  lemma HindranceStays(p: Pass, u: QueuedTask, b: Answers, t: QueuedTask, a: Answers)
    requires Hindered(p, t, a)
    ensures Hindered(Considered(p, u, b), t, a)
  {
    var q := Considered(p, u, b);
    if t.run.Some? && Exhausted(p.runs, p.runLimits, t.run.value) {
      assert Exhausted(q.runs, q.runLimits, t.run.value);
    }
    if Exhausted(p.active, p.limits, t.role) { assert Exhausted(q.active, q.limits, t.role); }
  }

  /** A task that a pass did not start still has something in its way when the pass ends. */
  lemma {:induction false} NothingIsLeftBehind(p: Pass, tasks: seq<QueuedTask>, answers: seq<Answers>, i: nat)
    requires |answers| == |tasks| && i < |tasks|
    ensures AdmittedAt(p, tasks, answers, i) || Hindered(Passed(p, tasks, answers), tasks[i], answers[i])
    decreases |tasks|
  {
    var n := |tasks| - 1;
    if i < n {
      NothingIsLeftBehind(p, tasks[..n], answers[..n], i);
      EarlierTurns(p, tasks, answers, n, i);
      if !AdmittedAt(p, tasks, answers, i) {
        HindranceStays(Passed(p, tasks[..n], answers[..n]), tasks[n], answers[n], tasks[i], answers[i]);
      }
    } else if !AdmittedAt(p, tasks, answers, i) {
      RefusedForAReason(Passed(p, tasks[..n], answers[..n]), tasks[n], answers[n]);
    }
  }

  lemma {:induction false} SomeOfProject(tasks: seq<QueuedTask>, t: QueuedTask)
    requires t in tasks && t.project.Some?
    ensures OfProject(tasks, t.project.value) > 0
    decreases |tasks|
  {
    var n := |tasks| - 1;
    if tasks[n] != t { SomeOfProject(tasks[..n], t); }
  }

  /** A pass starts only ready tasks whose claim succeeded, and a serial one only into a project that was idle. */
  lemma StartedTaskIsClear(p: Pass, tasks: seq<QueuedTask>, answers: seq<Answers>, j: nat)
    requires |answers| == |tasks| && AdmittedAt(p, tasks, answers, j)
    ensures answers[j].ready && answers[j].claimed
    ensures tasks[j].project.Some? && !tasks[j].concurrent ==>
              && Count(p.projects, tasks[j].project.value) == 0
              && forall i :: 0 <= i < j && AdmittedAt(p, tasks, answers, i) ==> tasks[i].project != tasks[j].project
  {
    if tasks[j].project.Some? && !tasks[j].concurrent {
      PassAccounts(p, tasks[..j], answers[..j]);
      forall i | 0 <= i < j && AdmittedAt(p, tasks, answers, i) ensures tasks[i].project != tasks[j].project {
        EarlierTurns(p, tasks, answers, j, i);
        StartedExactly(p, tasks[..j], answers[..j], tasks[i]);
        if tasks[i].project == tasks[j].project { SomeOfProject(Started(p, tasks[..j], answers[..j]), tasks[i]); }
      }
    }
  }

  // ---- A slot is refused only when it is taken ----

  /** Between the dispatcher's sections a slot is granted exactly when the holders themselves leave room. */
  lemma SlotsTakenExactly(s: State, t: QueuedTask, limit: int)
    requires Inv(s)
    ensures s.stage.Idle? ==>
              (Next(s, TakeRun(t, limit)).stage == HoldsRun(t) <==>
               (t.run.Some? ==> var n := |Using(s.running, RunSlot(t.run.value))|; n == 0 || n < limit))
    ensures s.stage == HoldsRun(t) ==>
              (Next(s, TakeRole(limit)).stage == HoldsRole(t) <==>
               var n := |Using(s.running, RoleSlot(t.role))|; n == 0 || n < limit)
    ensures s.stage == HoldsRole(t) ==>
              (Next(s, TakeProject).stage == HoldsAll(t) <==>
               (t.project.Some? && !t.concurrent ==>
                  forall i :: i in s.running ==> s.running[i].project != t.project))
  {
    if t.run.Some? {
      assert CounterOf(s, RunSlot(t.run.value)) == |Using(Holders(s, RunSlot(t.run.value)), RunSlot(t.run.value))|;
    }
    assert CounterOf(s, RoleSlot(t.role)) == |Using(Holders(s, RoleSlot(t.role)), RoleSlot(t.role))|;
    if s.stage == HoldsRole(t) && t.project.Some? {
      var slot := ProjectSlot(t.project.value);
      assert CounterOf(s, slot) == |Using(s.running, slot)|;
      if i :| i in s.running && s.running[i].project == t.project { assert i in Using(s.running, slot); }
      if Using(s.running, slot) != {} { var i :| i in Using(s.running, slot); }
    }
  }
}
