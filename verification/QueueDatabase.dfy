/** The queue's commands as they run against the database: rows are rewritten inside one transaction. */
module QueueDatabase {
  import opened Prelude
  import opened RunState
  import opened JobQueue

  /** ORDER BY available_at, created_at */
  predicate Before(a: Job, b: Job) {
    a.availableAt < b.availableAt || (a.availableAt == b.availableAt && a.createdAt < b.createdAt)
  }

  /** FOR UPDATE SKIP LOCKED LIMIT 1: no unlocked claimable row comes before `j`. */
  predicate IsNext(jobs: map<JobId, Job>, locked: set<JobId>, j: JobId, now: Time) {
    && j in jobs && j !in locked && Claimable(jobs[j], now)
    && forall i :: i in jobs && i !in locked && Claimable(jobs[i], now) ==> !Before(jobs[i], jobs[j])
  }

  predicate NoneClaimable(jobs: map<JobId, Job>, locked: set<JobId>, now: Time) {
    forall j :: j in jobs && j !in locked ==> !Claimable(jobs[j], now)
  }

  lemma {:induction false} SomeJobIsFirst(jobs: map<JobId, Job>, ids: set<JobId>) returns (first: JobId)
    requires ids != {} && ids <= jobs.Keys
    ensures first in ids && forall i :: i in ids ==> !Before(jobs[i], jobs[first])
    decreases ids
  {
    var j :| j in ids;
    if ids == {j} {
      return j;
    }
    first := SomeJobIsFirst(jobs, ids - {j});
    if Before(jobs[j], jobs[first]) {
      first := j;
    }
  }

  /** What one execution came to; a KeyError that the handler itself raises is taken for a missing handler. */
  datatype HandlerOutcome =
    | Returned
    | MissingHandler
    | ExecutionError(name: string, detail: string, retryable: bool)
    | Crashed(name: string, detail: string)

  // ---------------------------------------------------------------- the row updates, one field at a time

  /** Starts the run if it is waiting, and takes the lease; or gives up after the last expired lease. */
  method UpdateForClaim(l: Line, worker: string, seconds: nat, now: Time) returns (next: Line, handed: bool)
    requires InStep(l) && Claimable(l.job, now)
    ensures Claim(l, worker, seconds, now) == Success((next, handed))
  {
    var job, state := l.job, l.run;
    if job.status == JobLeased && job.attempts >= job.maxAttempts {
      var code, detail := "lease_expired", "worker lease expired after the final allowed attempt";
      job := job.(status := JobFailed);
      job := job.(leaseOwner := None, leaseExpiresAt := None);
      job := job.(errorCode := Some(code), errorDetail := Some(detail));
      state := state.Transition(NeedsAttention, job.taskType, Some(code), Some(detail), now).value;
      return Line(job, state, l.log + [JobQueue.Failed(worker, job.attempts, code)]), false;
    }
    if state.status == RetryWait {
      state := state.Transition(Queued, state.checkpoint, None, None, now).value;
    }
    if state.status == Queued {
      state := state.Transition(Running, job.taskType, None, None, now).value;
    }
    job := job.(status := JobLeased);
    job := job.(leaseOwner := Some(worker), leaseExpiresAt := Some(now + seconds));
    job := job.(attempts := job.attempts + 1);
    return Line(job, state, l.log + [Leased(worker, job.attempts)]), true;
  }

  method UpdateForComplete(l: Line, claim: ClaimedJob, worker: string, unfinished: nat, now: Time) returns (next: Line)
    requires InStep(l) && Owns(l.job, worker)
    ensures JobQueue.Complete(l, claim, worker, unfinished, now) == Success(next)
  {
    var job, state := l.job, l.run;
    job := job.(status := JobCompleted);
    job := job.(leaseOwner := None, leaseExpiresAt := None);
    if unfinished == 0 {
      state := state.Transition(Succeeded, "completed", None, None, now).value;
    }
    return Line(job, state, l.log + [Completed(worker, claim.attempts)]);
  }

  method UpdateForFail(l: Line, worker: string, code: string, detail: string, retryable: bool, now: Time)
    returns (next: Line)
    requires InStep(l) && Owns(l.job, worker)
    ensures JobQueue.Fail(l, worker, code, detail, retryable, now) == Success(next)
  {
    var job, state := l.job, l.run;
    var safeDetail := Truncate(detail, 1000);
    job := job.(errorCode := Some(Truncate(code, 80)), errorDetail := Some(safeDetail));
    job := job.(leaseOwner := None, leaseExpiresAt := None);
    var target, event;
    if retryable && job.attempts < job.maxAttempts {
      job := job.(status := JobQueued, availableAt := now + RetryDelay(job.attempts));
      target, event := RetryWait, RetryScheduled(worker, job.attempts, job.errorCode.value);
    } else {
      job := job.(status := JobFailed);
      target, event := NeedsAttention, JobQueue.Failed(worker, job.attempts, job.errorCode.value);
    }
    state := state.Transition(target, job.taskType, job.errorCode, Some(safeDetail), now).value;
    return Line(job, state, l.log + [event]);
  }

  method UpdateForRetry(job: Job, now: Time) returns (next: Job)
    ensures next == Requeue(job, now)
  {
    next := job.(status := JobQueued);
    next := next.(attempts := 0, availableAt := now);
    next := next.(leaseOwner := None, leaseExpiresAt := None);
    next := next.(errorCode := None, errorDetail := None);
  }

  // ---------------------------------------------------------------- the transactions

  class QueueService {
    const projects: set<nat>
    var runs: map<RunId, RunRow>
    var jobs: map<JobId, Job>
    var log: map<RunId, seq<Event>>

    function State(): Store
      reads this
    {
      Store(projects, runs, jobs, log)
    }

    constructor (projects: set<nat>)
      ensures State() == EmptyStore(projects) && Consistent(State())
    {
      this.projects := projects;
      runs, jobs, log := map[], map[], map[];
      new;
      EveryInterleavingIsConsistent(projects, []);
    }

    /** The rows of one job, which are known to be in step. */
    method Fetch(j: JobId) returns (l: Line)
      requires Consistent(State()) && j in jobs
      ensures Located(State(), j) && l == LineOf(State(), j) && InStep(l)
    {
      assert Located(State(), j) && STEADY(LineOf(State(), j));
      return Line(jobs[j], runs[jobs[j].runId].state, log[jobs[j].runId]);
    }

    /** Writes back the job row, its run row and the audit events. */
    method Save(j: JobId, l: Line)
      requires Located(State(), j) && l.job.runId == jobs[j].runId
      modifies this`runs, this`jobs, this`log
      ensures State() == Put(old(State()), j, l)
    {
      var r := l.job.runId;
      jobs := jobs[j := l.job];
      runs := runs[r := runs[r].(state := l.run)];
      log := log[r := l.log];
    }

    /** `enqueue`: one run and its one job, or an exact replay of the same request. */
    method Enqueue(projectId: nat, key: string, taskType: string, payload: string, actor: string,
                   newRun: RunId, newJob: JobId, now: Time) returns (reply: Reply)
      requires Linked(State()) && newRun !in runs && newRun !in log && newJob !in jobs
      modifies this`runs, this`jobs, this`log
      ensures Step(old(State()), JobQueue.Enqueue(projectId, key, taskType, payload, actor, newRun, newJob, now))
        == (State(), reply)
      ensures reply == Ok ==> JobsOf(State(), newRun) == {newJob}
    {
      if projectId !in projects {
        return NotFound;
      }
      var existing := RunsWithKey(State(), projectId, key);
      if existing != {} {
        var r :| r in existing;
        ghost var only := KeyFindsOneJob(State(), projectId, key, r);
        var j :| j in jobs && jobs[j].runId == r;
        return if jobs[j].taskType == taskType && jobs[j].payload == payload then Replayed else Conflict;
      }
      runs := runs[newRun := RunRow(projectId, key, taskType, NEW_RUN)];
      jobs := jobs[newJob := NewJob(newRun, taskType, payload, now)];
      log := log[newRun := [RunQueued(actor)]];
      assert Located(State(), newJob);
      return Ok;
    }

    /** The row the claim query returns. */
    method SelectClaimable(now: Time, locked: set<JobId>) returns (row: Option<JobId>)
      ensures row == None ==> NoneClaimable(jobs, locked, now)
      ensures row.Some? ==> IsNext(jobs, locked, row.value, now)
    {
      var candidates := set j | j in jobs && j !in locked && Claimable(jobs[j], now);
      if candidates == {} {
        forall j | j in jobs && j !in locked ensures !Claimable(jobs[j], now) {
          assert j !in candidates;
        }
        return None;
      }
      ghost var first := SomeJobIsFirst(jobs, candidates);
      assert IsNext(jobs, locked, first, now);
      var j :| j in jobs && IsNext(jobs, locked, j, now);
      return Some(j);
    }

    /** `claim_next`: leases the first claimable row, or settles it when its last lease has expired. */
    method ClaimNext(worker: string, seconds: nat, now: Time, locked: set<JobId>)
      returns (claimed: Option<ClaimedJob>, ghost row: Option<JobId>)
      requires Consistent(State())
      modifies this`runs, this`jobs, this`log
      ensures row == None ==> claimed == None && State() == old(State())
      ensures row == None ==> NoneClaimable(jobs, locked, now)
      ensures row.Some? ==> IsNext(old(jobs), locked, row.value, now)
      ensures row.Some? ==>
        Step(old(State()), JobQueue.ClaimNext(row.value, worker, seconds, now))
          == (State(), if claimed.Some? then Claimed(claimed.value) else Nothing)
    {
      var j := SelectClaimable(now, locked);
      row := j;
      if j == None {
        return None, row;
      }
      var l := Fetch(j.value);
      var next, handed := UpdateForClaim(l, worker, seconds, now);
      Save(j.value, next);
      return if handed then Some(ClaimedJob(j.value, next.job.runId, next.job.attempts)) else None, row;
    }

    /** `complete` */
    method Complete(claim: ClaimedJob, worker: string, now: Time) returns (reply: Reply)
      requires Consistent(State())
      modifies this`runs, this`jobs, this`log
      ensures Step(old(State()), CompleteJob(claim, worker, now)) == (State(), reply)
    {
      if claim.id !in jobs || jobs[claim.id].status != JobLeased || jobs[claim.id].leaseOwner != Some(worker) {
        return LeaseLost;
      }
      var l := Fetch(claim.id);
      var next := UpdateForComplete(l, claim, worker, |Unfinished(State(), claim.id)|, now);
      Save(claim.id, next);
      return Ok;
    }

    /** `fail` */
    method Fail(claim: ClaimedJob, worker: string, code: string, detail: string, retryable: bool, now: Time)
      returns (reply: Reply)
      requires Consistent(State())
      modifies this`runs, this`jobs, this`log
      ensures Step(old(State()), FailJob(claim, worker, code, detail, retryable, now)) == (State(), reply)
    {
      if claim.id !in jobs || jobs[claim.id].status != JobLeased || jobs[claim.id].leaseOwner != Some(worker) {
        return LeaseLost;
      }
      var l := Fetch(claim.id);
      var next := UpdateForFail(l, worker, code, detail, retryable, now);
      Save(claim.id, next);
      return Ok;
    }

    method RequeueAll(failed: set<JobId>, now: Time)
      requires failed <= jobs.Keys
      modifies this`jobs
      ensures jobs == map j | j in old(jobs) :: if j in failed then Requeue(old(jobs)[j], now) else old(jobs)[j]
    {
      var todo := failed;
      while todo != {}
        invariant todo <= failed && jobs.Keys == old(jobs).Keys
        invariant forall j :: j in jobs ==>
          jobs[j] == if j in failed && j !in todo then Requeue(old(jobs)[j], now) else old(jobs)[j]
        decreases todo
      {
        var j :| j in todo;
        var job := UpdateForRetry(jobs[j], now);
        jobs := jobs[j := job];
        todo := todo - {j};
      }
    }

    /** `retry_run`: requeues the run's failed jobs, once per command key. */
    method RetryRun(run: RunId, key: string, actor: string, now: Time) returns (reply: Reply)
      requires EveryRunHasJob(State())
      modifies this`runs, this`jobs, this`log
      ensures Step(old(State()), JobQueue.RetryRun(run, key, actor, now)) == (State(), reply)
    {
      ghost var before := State();
      if run !in runs {
        return NotFound;
      }
      if AlreadyRetried(log[run], key) {
        return Replayed;
      }
      if runs[run].state.status != NeedsAttention {
        return Conflict;
      }
      var failed := FailedJobs(State(), run);
      if failed == {} {
        return Conflict;
      }
      RequeueAll(failed, now);
      assert jobs == Retried(before, JobQueue.RetryRun(run, key, actor, now)).jobs;
      runs := runs[run := runs[run].(state := Reopen(runs[run].state))];
      log := log[run := log[run] + [RunRetried(actor, key)]];
      return Ok;
    }

    /** The transactions that other workers and humans commit while a handler runs. */
    method Others(between: seq<Command>)
      requires Consistent(State())
      modifies this`runs, this`jobs, this`log
      ensures State() == Run(old(State()), between) && Consistent(State())
    {
      var t := Run(State(), between);
      RunKeepsProjects(State(), between);
      RunKeepsConsistent(State(), between);
      runs, jobs, log := t.runs, t.jobs, t.log;
    }

    /** The handler's execution and the settling call for its outcome. */
    method Execute(job: ClaimedJob, worker: string, later: Time, between: seq<Command>, outcome: HandlerOutcome)
      returns (reply: Reply)
      requires Consistent(State())
      modifies this`runs, this`jobs, this`log
      ensures (State(), reply) == Step(Run(old(State()), between), SettlingCommand(outcome, job, worker, later))
    {
      Others(between);
      reply := Settle(job, worker, later, outcome);
    }

    /**
     * `Worker.run_once`. Work is reported exactly when a claim was handed out; then one settling call follows, on
     * whatever `between` has left. If nobody else disturbs the lease, the call ends the very lease that was
     * claimed and leaves the job as the handler's outcome says; a refused call is the exception that run_once raises.
     */
    method RunOnce(worker: string, seconds: nat, now: Time, later: Time, locked: set<JobId>,
                   between: seq<Command>, outcome: HandlerOutcome)
      returns (worked: bool, reply: Reply, ghost row: Option<JobId>)
      requires Consistent(State())
      modifies this`runs, this`jobs, this`log
      ensures Consistent(State())
      ensures row == None ==> !worked && State() == old(State())
      ensures row == None ==> NoneClaimable(jobs, locked, now)
      ensures row.Some? ==> IsNext(old(jobs), locked, row.value, now)
      ensures row.Some? ==> (worked <==> old(jobs)[row.value].attempts < old(jobs)[row.value].maxAttempts)
      ensures row.Some? && !worked
        ==> GaveUp(old(State()), JobQueue.ClaimNext(row.value, worker, seconds, now), State())
      ensures worked ==> row.Some?
      ensures worked ==>
        WorkedOnce(old(State()), JobQueue.ClaimNext(row.value, worker, seconds, now), between, outcome, later, State(),
                   reply)
      ensures worked && Undisturbed(between, row.value, worker, now + seconds) ==>
        reply == Ok && EndsAs(outcome, old(State()), State(), row.value)
    {
      ghost var s := State();
      var claimed;
      claimed, row := ClaimNext(worker, seconds, now, locked);
      if row.Some? {
        ClaimIsHanded(s, JobQueue.ClaimNext(row.value, worker, seconds, now), claimed, State());
      }
      if claimed == None {
        return false, Nothing, row;
      }
      reply := Execute(claimed.value, worker, later, between, outcome);
      RunOnceOutcome(s, JobQueue.ClaimNext(row.value, worker, seconds, now), between, outcome, later, State(), reply);
      return true, reply, row;
    }

    /** The one settling call that `run_once` makes for the handler's outcome. */
    method Settle(job: ClaimedJob, worker: string, now: Time, outcome: HandlerOutcome) returns (reply: Reply)
      requires Consistent(State())
      modifies this`runs, this`jobs, this`log
      ensures Step(old(State()), SettlingCommand(outcome, job, worker, now)) == (State(), reply)
    {
      match outcome
      case Returned =>
        reply := Complete(job, worker, now);
      case MissingHandler =>
        reply := Fail(job, worker, "unknown_task_type", "no handler registered", false, now);
      case ExecutionError(name, detail, retryable) =>
        reply := Fail(job, worker, name, detail, retryable, now);
      case Crashed(name, detail) =>
        reply := Fail(job, worker, name, detail, true, now);
    }
  }

  lemma {:induction false} RunKeepsProjects(s: Store, commands: seq<Command>)
    ensures Run(s, commands).projects == s.projects
    decreases |commands|
  {
    if commands != [] {
      RunKeepsProjects(s, commands[..|commands| - 1]);
    }
  }

  /** The claim query's row was on its last expired lease: its job has failed and nothing was handed out. */
  ghost predicate GaveUp(s: Store, k: Command, t: Store) {
    k.ClaimNext? && t == Step(s, k).0 && k.job in t.jobs && t.jobs[k.job].status == JobFailed
  }

  /** One attempt later, job `j` stands as the outcome says. */
  predicate EndsAs(outcome: HandlerOutcome, s: Store, t: Store, j: JobId) {
    && j in s.jobs && j in t.jobs && t.jobs[j].attempts == s.jobs[j].attempts + 1
    && t.jobs[j].status == OutcomeStatus(outcome, t.jobs[j])
  }

  lemma HandedExactly(l: Line, k: Command)
    requires InStep(l) && k.ClaimNext? && Claimable(l.job, k.now)
    ensures Claim(l, k.worker, k.seconds, k.now).Success?
    ensures Claim(l, k.worker, k.seconds, k.now).value.1 <==> l.job.attempts < l.job.maxAttempts
    ensures l.job.attempts >= l.job.maxAttempts ==> Worked(l, k).job.status == JobFailed
  {
    ClaimKeepsStep(l, k.worker, k.seconds, k.now);
  }

  /** A claimable row is leased if an attempt is left, and otherwise given up. */
  lemma ClaimIsHanded(s: Store, k: Command, claimed: Option<ClaimedJob>, t: Store)
    requires Consistent(s) && k.ClaimNext? && k.job in s.jobs && Claimable(s.jobs[k.job], k.now)
    requires Step(s, k) == (t, if claimed.Some? then Claimed(claimed.value) else Nothing)
    ensures Consistent(t)
    ensures claimed.Some? <==> s.jobs[k.job].attempts < s.jobs[k.job].maxAttempts
    ensures claimed == None ==> GaveUp(s, k, t)
  {
    WorkerConsistent(s, k);
    WorkerStepLine(s, k, k.job);
    HandedExactly(LineOf(s, k.job), k);
  }

  /** The store and the answer after the settling call that follows claim `k` and the commands of others. */
  ghost predicate WorkedOnce(s: Store, k: Command, between: seq<Command>, outcome: HandlerOutcome, later: Time,
                             t: Store, reply: Reply) {
    && k.ClaimNext? && Step(s, k).1.Claimed?
    && (t, reply) == Step(Run(Step(s, k).0, between), SettlingCommand(outcome, Step(s, k).1.claim, k.worker, later))
  }

  /** Unless others disturb the lease, the settling call ends the claimed lease with the status of the outcome. */
  lemma OutcomeReachesItsLease(s: Store, k: Command, between: seq<Command>, outcome: HandlerOutcome, later: Time)
    requires Consistent(s) && k.ClaimNext? && Step(s, k).1.Claimed?
    ensures Consistent(Run(Step(s, k).0, between)) && k.job in s.jobs && Located(s, k.job)
    ensures var c := SettlingCommand(outcome, Step(s, k).1.claim, k.worker, later);
      var t := Run(Step(s, k).0, between); var after := Step(t, c).0;
      && Consistent(after)
      && (Undisturbed(between, k.job, k.worker, k.now + k.seconds) ==>
          && SettlesLease(t, after, k.job, |LineOf(s, k.job).log|) && Step(t, c).1 == Ok
          && EndsAs(outcome, s, after, k.job))
  {
    var c := SettlingCommand(outcome, Step(s, k).1.claim, k.worker, later);
    var t := Run(Step(s, k).0, between);
    ClaimTakesLease(s, k);
    ClaimIsLogged(s, k, between);
    StepKeepsConsistent(t, c);
    if Undisturbed(between, k.job, k.worker, k.now + k.seconds) {
      SettlingInTimeEndsItsOwnLease(s, k, between, c);
      SettlementFollowsOutcome(t, outcome, c.claim, k.worker, later);
    }
  }

  lemma RunOnceOutcome(s: Store, k: Command, between: seq<Command>, outcome: HandlerOutcome, later: Time,
                       t: Store, reply: Reply)
    requires Consistent(s) && WorkedOnce(s, k, between, outcome, later, t, reply)
    ensures Consistent(t)
    ensures Undisturbed(between, k.job, k.worker, k.now + k.seconds) ==> reply == Ok && EndsAs(outcome, s, t, k.job)
  {
    OutcomeReachesItsLease(s, k, between, outcome, later);
  }

  lemma SettlementFollowsOutcome(s: Store, outcome: HandlerOutcome, job: ClaimedJob, worker: string, now: Time)
    requires Consistent(s) && Located(s, job.id) && Owns(s.jobs[job.id], worker)
    ensures var (t, reply) := Step(s, SettlingCommand(outcome, job, worker, now));
      && Consistent(t) && reply == Ok && Located(t, job.id)
      && t.jobs[job.id].attempts == s.jobs[job.id].attempts
      && t.jobs[job.id].status == OutcomeStatus(outcome, t.jobs[job.id])
  {
    OwnedSettlement(s, SettlingCommand(outcome, job, worker, now));
  }

  lemma OwnedSettlement(s: Store, c: Command)
    requires Consistent(s) && Settles(c) && Located(s, c.claim.id) && Owns(s.jobs[c.claim.id], c.worker)
    ensures var (t, reply) := Step(s, c);
      && Consistent(t) && reply == Ok && Located(t, c.claim.id)
      && t.jobs[c.claim.id].status == SettledStatus(c, s.jobs[c.claim.id])
      && t.jobs[c.claim.id].attempts == s.jobs[c.claim.id].attempts
      && t.jobs[c.claim.id].maxAttempts == s.jobs[c.claim.id].maxAttempts
  {
    OnlyTheOwnerSettles(s, c);
    OwnerSettlesOnce(s, c);
    WorkerConsistent(s, c);
  }

  function SettlingCommand(outcome: HandlerOutcome, job: ClaimedJob, worker: string, now: Time): (c: Command)
    ensures Settles(c)
  {
    match outcome
    case Returned => CompleteJob(job, worker, now)
    case MissingHandler => FailJob(job, worker, "unknown_task_type", "no handler registered", false, now)
    case ExecutionError(name, detail, retryable) => FailJob(job, worker, name, detail, retryable, now)
    case Crashed(name, detail) => FailJob(job, worker, name, detail, true, now)
  }

  /** Where the job stands after one run of the worker loop. */
  function OutcomeStatus(outcome: HandlerOutcome, job: Job): JobStatus {
    var again := if job.attempts < job.maxAttempts then JobQueued else JobFailed;
    match outcome
    case Returned => JobCompleted
    case MissingHandler => JobFailed
    case ExecutionError(_, _, retryable) => if retryable then again else JobFailed
    case Crashed(_, _) => again
  }
}
