/** The pure workflow-run state rules (src/gamecrafter/domain/runs/state.py). */
module RunState {
  import opened Prelude

  type Time = int

  datatype RunStatus = Queued | Running | RetryWait | NeedsAttention | Succeeded | Cancelled

  function AllowedTargets(status: RunStatus): set<RunStatus> {
    match status
    case Queued => {Running, Cancelled}
    case Running => {RetryWait, NeedsAttention, Succeeded, Cancelled}
    case RetryWait => {Queued, NeedsAttention, Cancelled}
    case NeedsAttention => {Queued, Cancelled}
    case Succeeded => {}
    case Cancelled => {}
  }

  datatype RunTransitionError = RunTransitionError(from: RunStatus, target: RunStatus)

  datatype WorkflowRun = WorkflowRun(
    status: RunStatus,
    checkpoint: string,
    version: int,
    startedAt: Option<Time>,
    finishedAt: Option<Time>,
    errorCode: Option<string>,
    errorDetail: Option<string>)
  {
    function Transition(target: RunStatus, newCheckpoint: string, code: Option<string>, detail: Option<string>,
                        at: Time)
      : Result<WorkflowRun, RunTransitionError>
    {
      if target !in AllowedTargets(status) then Failure(RunTransitionError(status, target))
      else Success(WorkflowRun(
        target,
        if newCheckpoint != "" then newCheckpoint else checkpoint,
        version + 1,
        if target == Running && startedAt == None then Some(at) else startedAt,
        if target in {Succeeded, Cancelled} then Some(at) else finishedAt,
        code,
        detail))
    }
  }

  const NEW_RUN := WorkflowRun(Queued, "created", 1, None, None, None, None)

  function Path(run: WorkflowRun, targets: seq<RunStatus>, at: Time): Result<WorkflowRun, RunTransitionError>
    decreases |targets|
  {
    if targets == [] then Success(run)
    else match run.Transition(targets[0], "", None, None, at)
      case Failure(e) => Failure(e)
      case Success(next) => Path(next, targets[1..], at)
  }

  /** Along any accepted path the version counts the transitions, and finished runs never move again. */
  lemma {:induction false} PathCountsTransitions(run: WorkflowRun, targets: seq<RunStatus>, at: Time)
    requires Path(run, targets, at).Success?
    ensures Path(run, targets, at).value.version == run.version + |targets|
    ensures run.status in {Succeeded, Cancelled} ==> targets == []
    ensures run.startedAt.Some? ==> Path(run, targets, at).value.startedAt == run.startedAt
    decreases |targets|
  {
    if targets != [] {
      PathCountsTransitions(run.Transition(targets[0], "", None, None, at).value, targets[1..], at);
    }
  }

  /** The moves of the state diagram. */
  const MOVES: set<(RunStatus, RunStatus)> := {
    (Queued, Running), (Queued, Cancelled),
    (Running, RetryWait), (Running, NeedsAttention), (Running, Succeeded), (Running, Cancelled),
    (RetryWait, Queued), (RetryWait, NeedsAttention), (RetryWait, Cancelled),
    (NeedsAttention, Queued), (NeedsAttention, Cancelled) }

  /**
   * A transition is accepted exactly along a move of the diagram. It counts one version, stamps the first start and
   * the end, keeps the checkpoint unless there is a new one, and shows the given error or none.
   */
  lemma TransitionExactly(run: WorkflowRun, target: RunStatus, checkpoint: string, code: Option<string>,
                          detail: Option<string>, at: Time)
    ensures run.Transition(target, checkpoint, code, detail, at).Success? <==> (run.status, target) in MOVES
    ensures run.Transition(target, checkpoint, code, detail, at).Failure? ==>
      run.Transition(target, checkpoint, code, detail, at).error == RunTransitionError(run.status, target)
    ensures run.Transition(target, checkpoint, code, detail, at).Success? ==>
      var next := run.Transition(target, checkpoint, code, detail, at).value;
      && next.status == target && next.version == run.version + 1
      && next.checkpoint == (if checkpoint == "" then run.checkpoint else checkpoint)
      && (run.startedAt.Some? ==> next.startedAt == run.startedAt)
      && (run.startedAt == None ==> next.startedAt == if target == Running then Some(at) else None)
      && (target == Succeeded || target == Cancelled ==> next.finishedAt == Some(at))
      && (target != Succeeded && target != Cancelled ==> next.finishedAt == run.finishedAt)
      && next.errorCode == code && next.errorDetail == detail
  {
  }
}
