/**
  Waiting for a terminal task: the loop that decides, from one observation per
  tick, whether the task exited, is still running, or has to be given up.
 */
module WaitLoop {
  import opened Wrappers

  datatype AgentState = Activating | Active | Deactivating | Inactive | Unknown

  datatype Observation = Observation(
    done: bool, exitCode: int, alive: bool, detached: bool,
    agent: AgentState, outputSize: int, awaitingResult: bool)

  /** One turn of the loop: the clock, what was seen, and the second look after a lost window. */
  datatype Tick = Tick(now: int, cancelled: bool, stopping: bool, seen: Option<Observation>, secondLook: Option<Observation>)

  datatype Outcome = Exited(code: int) | WindowLost | TaskCancelled | ServiceStopping | PollFailed

  datatype Timing = Timing(settle: int, quiet: int)

  /** The two situations in which a detached agent is given time. */
  datatype Doubt = AwaitingResult | UnknownState

  predicate InDoubt(t: Tick, d: Doubt) {
    && t.seen.Some?
    && match d
       case AwaitingResult => t.seen.value.awaitingResult
       case UnknownState =>
         !t.seen.value.awaitingResult && t.seen.value.detached && t.seen.value.agent.Unknown? && t.seen.value.alive
  }

  // ---- What the loop should decide ----

  /** The largest output of a detached agent seen before tick `k`. */
  function SizeBefore(trace: seq<Tick>, k: nat): int
    requires k <= |trace|
  {
    if k == 0 then -1
    else
      var earlier := SizeBefore(trace, k - 1);
      var t := trace[k - 1];
      if t.seen.Some? && t.seen.value.detached && t.seen.value.outputSize > earlier then t.seen.value.outputSize else earlier
  }

  predicate Progressed(trace: seq<Tick>, k: nat)
    requires k < |trace|
  {
    var t := trace[k];
    t.seen.Some? && t.seen.value.detached && t.seen.value.outputSize > SizeBefore(trace, k)
  }

  /** Where the quiet stretch that contains tick `k` began. */
  function QuietSince(trace: seq<Tick>, k: nat, d: Doubt): (j: nat)
    requires k < |trace|
    ensures j <= k
  {
    if k == 0 || !InDoubt(trace[k - 1], d) || Progressed(trace, k) then k else QuietSince(trace, k - 1, d)
  }

  function Decision(trace: seq<Tick>, k: nat, timing: Timing): Option<Outcome>
    requires k < |trace|
  {
    var t := trace[k];
    if t.cancelled then Some(TaskCancelled)
    else if t.stopping then Some(ServiceStopping)
    else if t.seen.None? then Some(PollFailed)
    else if t.seen.value.done then Some(Exited(t.seen.value.exitCode))
    else if InDoubt(t, AwaitingResult) then
      if t.now - trace[QuietSince(trace, k, AwaitingResult)].now < timing.settle then None else Some(WindowLost)
    else if InDoubt(t, UnknownState) then
      if t.now - trace[QuietSince(trace, k, UnknownState)].now < timing.quiet then None else Some(WindowLost)
    else if !t.seen.value.alive then
      if t.secondLook.None? then Some(PollFailed)
      else if t.secondLook.value.done then Some(Exited(t.secondLook.value.exitCode))
      else if t.secondLook.value.alive then None
      else Some(WindowLost)
    else None
  }

  predicate Polls(t: Tick) { !t.cancelled && !t.stopping }

  /** The window is gone and nothing explains it: the loop looks a second time. */
  predicate LooksAgain(t: Tick) {
    && Polls(t) && t.seen.Some?
    && !t.seen.value.done && !t.seen.value.awaitingResult && !t.seen.value.alive
  }

  /** What each answer says about the tick it was given on. */
  ghost predicate Answers(t: Tick, answer: Option<Outcome>) {
    && (answer == Some(TaskCancelled) <==> t.cancelled)
    && (answer == Some(ServiceStopping) <==> !t.cancelled && t.stopping)
    && (answer == Some(PollFailed) <==> Polls(t) && (t.seen.None? || (LooksAgain(t) && t.secondLook.None?)))
    && (forall code ::
          answer == Some(Exited(code)) <==>
          || (Polls(t) && t.seen.Some? && t.seen.value.done && t.seen.value.exitCode == code)
          || (LooksAgain(t) && t.secondLook.Some? && t.secondLook.value.done && t.secondLook.value.exitCode == code))
    && (answer == Some(WindowLost) ==>
          && Polls(t) && t.seen.Some? && !t.seen.value.done
          && (|| t.seen.value.awaitingResult
              || (t.seen.value.detached && t.seen.value.agent.Unknown? && t.seen.value.alive)
              || LooksAgain(t)))
    && (LooksAgain(t) && t.secondLook.Some? && !t.secondLook.value.done ==>
          answer == if t.secondLook.value.alive then None else Some(WindowLost))
  }

  lemma DecisionAnswers(trace: seq<Tick>, k: nat, timing: Timing)
    requires k < |trace|
    ensures Answers(trace[k], Decision(trace, k, timing))
  {
  }

  /** The loop ends at the first tick that decides; `None` while the trace goes on. */
  method WaitTmux(trace: seq<Tick>, timing: Timing) returns (outcome: Option<Outcome>, at: nat)
    ensures at <= |trace|
    ensures forall k :: 0 <= k < at ==> Decision(trace, k, timing).None?
    ensures outcome == if at < |trace| then Decision(trace, at, timing) else None
    ensures at < |trace| ==> outcome.Some? && Answers(trace[at], outcome)
  {
    var awaitingSince: Option<int>, unknownSince: Option<int> := None, None;
    var lastSize := -1;
    at := 0;
    while at < |trace|
      invariant at <= |trace|
      invariant forall k :: 0 <= k < at ==> Decision(trace, k, timing).None?
      invariant lastSize == SizeBefore(trace, at)
      invariant awaitingSince == if at > 0 && InDoubt(trace[at - 1], AwaitingResult)
                                 then Some(trace[QuietSince(trace, at - 1, AwaitingResult)].now) else None
      invariant unknownSince == if at > 0 && InDoubt(trace[at - 1], UnknownState)
                                then Some(trace[QuietSince(trace, at - 1, UnknownState)].now) else None
    {
      var t := trace[at];
      if t.cancelled { return Some(TaskCancelled), at; }
      if t.stopping { return Some(ServiceStopping), at; }
      if t.seen.None? { return Some(PollFailed), at; }
      var obs := t.seen.value;
      if obs.done { return Some(Exited(obs.exitCode)), at; }
      var progressed := obs.detached && obs.outputSize > lastSize;
      if progressed { lastSize := obs.outputSize; }
      if obs.awaitingResult {
        if awaitingSince.None? || progressed { awaitingSince := Some(t.now); }
        unknownSince := None;
        if t.now - awaitingSince.value >= timing.settle { return Some(WindowLost), at; }
      } else if obs.detached && obs.agent.Unknown? && obs.alive {
        awaitingSince := None;
        if unknownSince.None? || progressed { unknownSince := Some(t.now); }
        if t.now - unknownSince.value >= timing.quiet { return Some(WindowLost), at; }
      } else {
        awaitingSince, unknownSince := None, None;
        if !obs.alive {
          if t.secondLook.None? { return Some(PollFailed), at; }
          if t.secondLook.value.done { return Some(Exited(t.secondLook.value.exitCode)), at; }
          if !t.secondLook.value.alive { return Some(WindowLost), at; }
        }
      }
      at := at + 1;
    }
    return None, at;
  }

  // ---- What giving up means ----

  predicate ShowsDetachedOutput(t: Tick) { t.seen.Some? && t.seen.value.detached }

  /** Output progressed when a detached agent has written more than at every earlier tick. */
  lemma {:induction false} ProgressedExactly(trace: seq<Tick>, k: nat)
    requires k < |trace|
    ensures Progressed(trace, k) <==>
            && ShowsDetachedOutput(trace[k]) && trace[k].seen.value.outputSize > -1
            && forall i :: 0 <= i < k && ShowsDetachedOutput(trace[i])
                           ==> trace[i].seen.value.outputSize < trace[k].seen.value.outputSize
  {
    SizeBeforeIsLargest(trace, k);
  }

  lemma {:induction false} SizeBeforeIsLargest(trace: seq<Tick>, k: nat)
    requires k <= |trace|
    ensures SizeBefore(trace, k) >= -1
    ensures forall i :: 0 <= i < k && ShowsDetachedOutput(trace[i]) ==> trace[i].seen.value.outputSize <= SizeBefore(trace, k)
    ensures SizeBefore(trace, k) == -1 ||
            exists i :: 0 <= i < k && ShowsDetachedOutput(trace[i]) && trace[i].seen.value.outputSize == SizeBefore(trace, k)
  {
    if k > 0 { SizeBeforeIsLargest(trace, k - 1); }
  }

  /** From tick `j` to tick `k` the agent was in the same doubt and wrote nothing, for the whole timeout. */
  ghost predicate QuietWindow(trace: seq<Tick>, j: nat, k: nat, d: Doubt, timing: Timing) {
    && j <= k < |trace|
    && (forall i :: j <= i <= k ==>
          var seen := trace[i].seen;
          && seen.Some?
          && if d.AwaitingResult? then seen.value.awaitingResult
             else !seen.value.awaitingResult && seen.value.detached && seen.value.agent.Unknown? && seen.value.alive)
    && (forall i :: j < i <= k ==> !Progressed(trace, i))
    && trace[k].now - trace[j].now >= if d.AwaitingResult? then timing.settle else timing.quiet
  }

  ghost predicate ClockRuns(trace: seq<Tick>) {
    forall i, j :: 0 <= i <= j < |trace| ==> trace[i].now <= trace[j].now
  }

  lemma {:induction false} QuietSinceIsQuiet(trace: seq<Tick>, k: nat, d: Doubt)
    requires k < |trace| && InDoubt(trace[k], d)
    ensures forall i :: QuietSince(trace, k, d) <= i <= k ==> InDoubt(trace[i], d)
    ensures forall i :: QuietSince(trace, k, d) < i <= k ==> !Progressed(trace, i)
  {
    if k > 0 && InDoubt(trace[k - 1], d) && !Progressed(trace, k) { QuietSinceIsQuiet(trace, k - 1, d); }
  }

  lemma {:induction false} QuietSinceIsEarliest(trace: seq<Tick>, j: nat, k: nat, d: Doubt)
    requires j <= k < |trace|
    requires forall i :: j <= i <= k ==> InDoubt(trace[i], d)
    requires forall i :: j < i <= k ==> !Progressed(trace, i)
    ensures QuietSince(trace, k, d) <= j
  {
    if j < k { QuietSinceIsEarliest(trace, j, k - 1, d); }
  }

  ghost predicate StillUndecided(t: Tick) {
    !t.cancelled && !t.stopping && t.seen.Some? && !t.seen.value.done
  }

  /**
    In doubt about a detached agent, the loop gives up on a tick exactly when a quiet
    window of the full timeout ends there.
   */
  lemma GivesUpExactlyAfterQuietWindow(trace: seq<Tick>, k: nat, timing: Timing, d: Doubt)
    requires ClockRuns(trace) && k < |trace| && StillUndecided(trace[k]) && InDoubt(trace[k], d)
    ensures Decision(trace, k, timing) == Some(WindowLost) <==>
            exists j: nat :: QuietWindow(trace, j, k, d, timing)
  {
    QuietSinceIsQuiet(trace, k, d);
    var since := QuietSince(trace, k, d);
    if Decision(trace, k, timing) == Some(WindowLost) {
      assert QuietWindow(trace, since, k, d, timing);
    }
    if j: nat :| QuietWindow(trace, j, k, d, timing) {
      QuietSinceIsEarliest(trace, j, k, d);
      assert trace[since].now <= trace[j].now;
    }
  }

  /** A tick that carried an exit code, at first or second look, never counts as a lost window. */
  lemma ExitCodeIsNeverLost(trace: seq<Tick>, k: nat, timing: Timing)
    requires k < |trace| && Decision(trace, k, timing) == Some(WindowLost)
    ensures trace[k].seen.Some? && !trace[k].seen.value.done
    ensures !InDoubt(trace[k], AwaitingResult) && !InDoubt(trace[k], UnknownState) ==>
              !trace[k].seen.value.alive && trace[k].secondLook.Some?
              && !trace[k].secondLook.value.done && !trace[k].secondLook.value.alive
  {
  }

  /** An agent whose output grows at least once per timeout is never given up. */
  lemma BusyAgentIsKept(trace: seq<Tick>, k: nat, timing: Timing, d: Doubt, j: nat)
    requires ClockRuns(trace) && k < |trace| && StillUndecided(trace[k]) && InDoubt(trace[k], d)
    requires j <= k && Progressed(trace, j) && trace[k].now - trace[j].now < (if d.AwaitingResult? then timing.settle else timing.quiet)
    ensures Decision(trace, k, timing).None?
  {
    GivesUpExactlyAfterQuietWindow(trace, k, timing, d);
    forall i: nat ensures !QuietWindow(trace, i, k, d, timing) {
      assert j <= i <= k ==> trace[j].now <= trace[i].now;
    }
  }
}
