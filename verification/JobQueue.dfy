/**
 * The leased job queue: enqueue, claim, complete, fail, lease expiry and human retry, with the job row,
 * the run row and the audit log of one run changing together in each transaction.
 */
module JobQueue {
  import opened Prelude
  import opened RunState

  type RunId = nat
  type JobId = nat

  datatype JobStatus = JobQueued | JobLeased | JobCompleted | JobFailed | JobCancelled

  datatype Job = Job(
    runId: RunId,
    taskType: string,
    payload: string,
    status: JobStatus,
    attempts: nat,
    maxAttempts: nat,
    availableAt: Time,
    createdAt: Time,
    leaseOwner: Option<string>,
    leaseExpiresAt: Option<Time>,
    errorCode: Option<string>,
    errorDetail: Option<string>)

  datatype Event =
    | RunQueued(actor: string)
    | Leased(actor: string, attempt: nat)
    | Completed(actor: string, attempt: nat)
    | RetryScheduled(actor: string, attempt: nat, code: string)
    | Failed(actor: string, attempt: nat, code: string)
    | RunRetried(actor: string, commandKey: string)

  /** What a worker is handed; its attempt number is the one at the time of the claim. */
  datatype ClaimedJob = ClaimedJob(id: JobId, runId: RunId, attempts: nat)

  /** A job, its run and the run's audit log: the rows one transaction changes. */
  datatype Line = Line(job: Job, run: WorkflowRun, log: seq<Event>)

  const ENQUEUED_MAX_ATTEMPTS: nat := 3

  // ---------------------------------------------------------------- one transaction on one line

  predicate Claimable(job: Job, now: Time) {
    || (job.status == JobQueued && job.attempts < job.maxAttempts && job.availableAt <= now)
    || (job.status == JobLeased && job.leaseExpiresAt.Some? && job.leaseExpiresAt.value <= now)
  }

  /** `claim_next` on the row the query returned; the claim is handed out only when a lease is taken. */
  function Claim(l: Line, worker: string, seconds: nat, now: Time): Result<(Line, bool), RunTransitionError> {
    if l.job.status == JobLeased && l.job.attempts >= l.job.maxAttempts then
      var code := "lease_expired";
      var detail := "worker lease expired after the final allowed attempt";
      match l.run.Transition(NeedsAttention, l.job.taskType, Some(code), Some(detail), now)
      case Failure(e) => Failure(e)
      case Success(run) => Success((Line(
        l.job.(status := JobFailed, leaseOwner := None, leaseExpiresAt := None, errorCode := Some(code),
               errorDetail := Some(detail)),
        run,
        l.log + [Failed(worker, l.job.attempts, code)]), false))
    else
      var job := l.job.(status := JobLeased, leaseOwner := Some(worker), leaseExpiresAt := Some(now + seconds),
                        attempts := l.job.attempts + 1);
      match Start(l.run, l.job.taskType, now)
      case Failure(e) => Failure(e)
      case Success(run) => Success((Line(job, run, l.log + [Leased(worker, job.attempts)]), true))
  }

  /** A waiting run is queued again and then started; a run that is already running is left alone. */
  function Start(run: WorkflowRun, taskType: string, now: Time): Result<WorkflowRun, RunTransitionError> {
    if run.status == RetryWait then
      match run.Transition(Queued, run.checkpoint, None, None, now)
      case Failure(e) => Failure(e)
      case Success(queued) => queued.Transition(Running, taskType, None, None, now)
    else if run.status == Queued then run.Transition(Running, taskType, None, None, now)
    else Success(run)
  }

  predicate Owns(job: Job, worker: string) {
    job.status == JobLeased && job.leaseOwner == Some(worker)
  }

  /** `complete` once ownership is checked; `unfinished` counts the run's other open jobs. */
  function Complete(l: Line, claim: ClaimedJob, worker: string, unfinished: nat, now: Time)
    : Result<Line, RunTransitionError> {
    var job := l.job.(status := JobCompleted, leaseOwner := None, leaseExpiresAt := None);
    var log := l.log + [Completed(worker, claim.attempts)];
    if unfinished != 0 then Success(Line(job, l.run, log))
    else match l.run.Transition(Succeeded, "completed", None, None, now)
      case Failure(e) => Failure(e)
      case Success(run) => Success(Line(job, run, log))
  }

  function Truncate(s: string, n: nat): string {
    if |s| <= n then s else s[..n]
  }

  function RetryDelay(attempts: nat): nat {
    if attempts >= 6 then 60 else [1, 2, 4, 8, 16, 32][attempts]
  }

  /** `fail` once ownership is checked. */
  function Fail(l: Line, worker: string, code: string, detail: string, retryable: bool, now: Time)
    : Result<Line, RunTransitionError> {
    var code', detail' := Truncate(code, 80), Truncate(detail, 1000);
    var retry := retryable && l.job.attempts < l.job.maxAttempts;
    var job := l.job.(errorCode := Some(code'), errorDetail := Some(detail'), leaseOwner := None,
                      leaseExpiresAt := None, status := if retry then JobQueued else JobFailed,
                      availableAt := if retry then now + RetryDelay(l.job.attempts) else l.job.availableAt);
    match l.run.Transition(if retry then RetryWait else NeedsAttention, l.job.taskType, Some(code'), Some(detail'), now)
    case Failure(e) => Failure(e)
    case Success(run) => Success(Line(job, run,
      l.log + [if retry then RetryScheduled(worker, job.attempts, code') else Failed(worker, job.attempts, code')]))
  }

  /** What `retry_run` writes to one failed job. */
  function Requeue(job: Job, now: Time): Job {
    job.(status := JobQueued, attempts := 0, availableAt := now, leaseOwner := None, leaseExpiresAt := None,
         errorCode := None, errorDetail := None)
  }

  /** `retry_run` on the run row; it does not go through Transition in the source. */
  function Reopen(run: WorkflowRun): WorkflowRun {
    run.(status := Queued, version := run.version + 1, finishedAt := None, errorCode := None, errorDetail := None)
  }

  predicate AlreadyRetried(log: seq<Event>, key: string) {
    exists i :: 0 <= i < |log| && log[i].RunRetried? && log[i].commandKey == key
  }

  // ---------------------------------------------------------------- the audit log as an event source

  /** Everything the audit log of one run determines. */
  datatype Tally = Tally(
    job: JobStatus,
    run: RunStatus,
    attempts: nat,
    version: int,
    leases: nat,
    settled: nat,
    reclaimed: nat,
    retryKeys: set<string>)

  /** The effect of one event, or None when the event cannot happen in that state. */
  function Advance(t: Tally, e: Event): Option<Tally> {
    match e
    case RunQueued(_) => None
    case Leased(_, attempt) =>
      if t.job !in {JobQueued, JobLeased} || attempt != t.attempts + 1 then None
      else Some(t.(job := JobLeased, run := Running, attempts := attempt, leases := t.leases + 1,
                   reclaimed := t.reclaimed + (if t.job == JobLeased then 1 else 0),
                   version := t.version + (if t.run == RetryWait then 2 else if t.run == Queued then 1 else 0)))
    case Completed(_, _) =>
      if t.job != JobLeased then None
      else Some(t.(job := JobCompleted, run := Succeeded, settled := t.settled + 1, version := t.version + 1))
    case RetryScheduled(_, attempt, _) =>
      if t.job != JobLeased || attempt != t.attempts then None
      else Some(t.(job := JobQueued, run := RetryWait, settled := t.settled + 1, version := t.version + 1))
    case Failed(_, attempt, _) =>
      if t.job != JobLeased || attempt != t.attempts then None
      else Some(t.(job := JobFailed, run := NeedsAttention, settled := t.settled + 1, version := t.version + 1))
    case RunRetried(_, key) =>
      if t.job != JobFailed || key in t.retryKeys then None
      else Some(t.(job := JobQueued, run := Queued, attempts := 0, retryKeys := t.retryKeys + {key},
                   version := t.version + 1))
  }

  function Replay(log: seq<Event>): Option<Tally> {
    if log == [] then None
    else if |log| == 1 then
      (if log[0].RunQueued? then Some(Tally(JobQueued, Queued, 0, 1, 0, 0, 0, {})) else None)
    else match Replay(log[..|log| - 1])
      case None => None
      case Some(t) => Advance(t, log[|log| - 1])
  }

  lemma ReplayAppend(log: seq<Event>, e: Event)
    requires log != []
    ensures Replay(log + [e]) == match Replay(log) case None => None case Some(t) => Advance(t, e)
  {
    assert (log + [e])[..|log|] == log;
  }

  /** Work left for the workers before a human has to step in. */
  function Potential(job: Job): nat {
    if job.attempts > job.maxAttempts then 0
    else match job.status
      case JobQueued => 2 * (job.maxAttempts - job.attempts)
      case JobLeased => 2 * (job.maxAttempts - job.attempts) + 1
      case _ => 0
  }

  /** The two row statuses that may stand together. */
  predicate Lockstep(job: JobStatus, run: RunStatus) {
    match job
    case JobQueued => run in {Queued, RetryWait}
    case JobLeased => run == Running
    case JobCompleted => run == Succeeded
    case JobFailed => run == NeedsAttention
    case JobCancelled => false
  }

  /** The invariant of one line. */
  ghost predicate InStep(l: Line) {
    && Lockstep(l.job.status, l.run.status)
    && l.job.attempts <= l.job.maxAttempts
    && (l.job.status == JobQueued ==> l.job.attempts < l.job.maxAttempts)
    && 0 < l.job.maxAttempts
    && (l.job.status in {JobLeased, JobCompleted, JobFailed} ==> 1 <= l.job.attempts)
    && (l.job.status == JobLeased <==> l.job.leaseOwner.Some?)
    && (l.job.status == JobLeased <==> l.job.leaseExpiresAt.Some?)
    && (l.run.finishedAt.Some? <==> l.run.status == Succeeded)
    && LogAgrees(l)
  }

  function Times(m: nat, n: nat): nat {
    if n == 0 then 0 else Times(m, n - 1) + m
  }

  lemma {:induction false} TimesIsProduct(m: nat, n: nat)
    ensures Times(m, n) == m * n
  {
    if n > 0 {
      TimesIsProduct(m, n - 1);
    }
  }

  /** The log replays to exactly these rows, and its length and leases stay within the attempt budget. */
  ghost predicate LogAgrees(l: Line) {
    && l.log != []
    && Replay(l.log).Some?
    && RowsMatch(Replay(l.log).value, l.job, l.run)
    && WithinBudget(Replay(l.log).value, l.job, |l.log|)
    && (forall key :: key in Replay(l.log).value.retryKeys <==> AlreadyRetried(l.log, key))
  }

  predicate RowsMatch(t: Tally, job: Job, run: WorkflowRun) {
    t.job == job.status && t.run == run.status && t.attempts == job.attempts && t.version == run.version
  }

  predicate WithinBudget(t: Tally, job: Job, length: nat) {
    && t.leases <= Times(job.maxAttempts, |t.retryKeys|) + t.attempts
    && length + Potential(job) <= 1 + 2 * job.maxAttempts + Times(2 * job.maxAttempts + 1, |t.retryKeys|)
  }

  lemma BudgetExtends(t: Tally, job: Job, length: nat, e: Event, next: Job)
    requires WithinBudget(t, job, length) && Advance(t, e).Some? && next.maxAttempts == job.maxAttempts
    requires t.attempts == job.attempts <= job.maxAttempts && Advance(t, e).value.attempts == next.attempts
    requires if e.RunRetried? then Potential(job) == 0 && Potential(next) == 2 * next.maxAttempts
             else Potential(next) < Potential(job) && next.attempts >= job.attempts
    ensures WithinBudget(Advance(t, e).value, next, length + 1)
  {
    if e.RunRetried? {
      assert |t.retryKeys + {e.commandKey}| == |t.retryKeys| + 1;
    }
  }

  lemma LogExtends(l: Line, e: Event, next: Line)
    requires LogAgrees(l) && next.log == l.log + [e] && next.job.maxAttempts == l.job.maxAttempts
    requires l.job.attempts <= l.job.maxAttempts
    requires Advance(Replay(l.log).value, e).Some?
      && RowsMatch(Advance(Replay(l.log).value, e).value, next.job, next.run)
    requires if e.RunRetried? then Potential(l.job) == 0 && Potential(next.job) == 2 * next.job.maxAttempts
             else Potential(next.job) < Potential(l.job) && next.job.attempts >= l.job.attempts
    ensures LogAgrees(next)
  {
    ReplayAppend(l.log, e);
    var before := Replay(l.log).value;
    BudgetExtends(before, l.job, |l.log|, e, next.job);
    KeysFollowLog(l.log, e, before.retryKeys, Advance(before, e).value.retryKeys);
  }

  lemma KeysFollowLog(log: seq<Event>, e: Event, before: set<string>, after: set<string>)
    requires forall key :: key in before <==> AlreadyRetried(log, key)
    requires after == if e.RunRetried? then before + {e.commandKey} else before
    ensures forall key :: key in after <==> AlreadyRetried(log + [e], key)
  {
    forall key ensures key in after <==> AlreadyRetried(log + [e], key) {
      AlreadyRetriedAppend(log, e, key);
    }
  }

  lemma AlreadyRetriedAppend(log: seq<Event>, e: Event, key: string)
    ensures AlreadyRetried(log + [e], key) <==> AlreadyRetried(log, key) || (e.RunRetried? && e.commandKey == key)
  {
    var longer := log + [e];
    if AlreadyRetried(log, key) {
      var i :| 0 <= i < |log| && log[i].RunRetried? && log[i].commandKey == key;
      assert longer[i] == log[i];
    }
    assert longer[|log|] == e;
  }

  // ---------------------------------------------------------------- each transaction keeps the line in step

  /** A claim never raises, keeps the rows in step and uses up potential. */
  lemma ClaimKeepsStep(l: Line, worker: string, seconds: nat, now: Time)
    requires InStep(l) && Claimable(l.job, now)
    ensures Claim(l, worker, seconds, now).Success?
    ensures var next := Claim(l, worker, seconds, now).value.0;
      InStep(next) && Potential(next.job) < Potential(l.job)
    ensures Claim(l, worker, seconds, now).value.1 <==> l.job.attempts < l.job.maxAttempts
    ensures Claim(l, worker, seconds, now).value.1 ==> Owns(Claim(l, worker, seconds, now).value.0.job, worker)
  {
    var next := Claim(l, worker, seconds, now).value.0;
    LogExtends(l, next.log[|l.log|], next);
  }

  lemma CompleteKeepsStep(l: Line, claim: ClaimedJob, worker: string, now: Time)
    requires InStep(l) && Owns(l.job, worker)
    ensures Complete(l, claim, worker, 0, now).Success?
    ensures var next := Complete(l, claim, worker, 0, now).value;
      InStep(next) && next.job.status == JobCompleted && Potential(next.job) < Potential(l.job)
  {
    var next := Complete(l, claim, worker, 0, now).value;
    LogExtends(l, next.log[|l.log|], next);
  }

  lemma FailKeepsStep(l: Line, worker: string, code: string, detail: string, retryable: bool, now: Time)
    requires InStep(l) && Owns(l.job, worker)
    ensures Fail(l, worker, code, detail, retryable, now).Success?
    ensures var next := Fail(l, worker, code, detail, retryable, now).value;
      && InStep(next) && Potential(next.job) < Potential(l.job)
      && next.job.status == if retryable && l.job.attempts < l.job.maxAttempts then JobQueued else JobFailed
  {
    var next := Fail(l, worker, code, detail, retryable, now).value;
    LogExtends(l, next.log[|l.log|], next);
  }

  function Retry(l: Line, key: string, actor: string, now: Time): Line {
    Line(Requeue(l.job, now), Reopen(l.run), l.log + [RunRetried(actor, key)])
  }

  lemma RetryKeepsStep(l: Line, key: string, actor: string, now: Time)
    requires InStep(l) && l.job.status == JobFailed && !AlreadyRetried(l.log, key)
    ensures InStep(Retry(l, key, actor, now))
    ensures Queued in AllowedTargets(l.run.status)
  {
    LogExtends(l, RunRetried(actor, key), Retry(l, key, actor, now));
  }

  // ---------------------------------------------------------------- lease accounting over one log

  /** Every lease is settled once, or reclaimed after it expired, or is the one in force. */
  lemma {:induction false} LeaseConservation(log: seq<Event>)
    requires Replay(log).Some?
    ensures var t := Replay(log).value;
      t.leases == t.settled + t.reclaimed + (if t.job == JobLeased then 1 else 0)
    ensures var t := Replay(log).value; Lockstep(t.job, t.run) && t.version >= 1
    decreases |log|
  {
    if |log| > 1 {
      LeaseConservation(log[..|log| - 1]);
    }
  }

  /** The version strictly grows with every event except a reclaim of an expired lease, which keeps it. */
  lemma VersionGrows(log: seq<Event>, e: Event)
    requires log != [] && Replay(log + [e]).Some?
    ensures Replay(log).Some?
    ensures var before, after := Replay(log).value, Replay(log + [e]).value;
      && before.version <= after.version
      && (before.version == after.version <==> e.Leased? && before.job == JobLeased)
      && (before.run != after.run ==> before.version < after.version)
  {
    ReplayAppend(log, e);
    LeaseConservation(log);
  }

  lemma ProductBound(leases: nat, max: nat, retries: nat, attempts: nat)
    requires leases <= Times(max, retries) + attempts && attempts <= max
    ensures leases <= max * (1 + retries)
  {
    TimesIsProduct(max, 1 + retries);
  }

  /** total leases <= max_attempts * (1 + distinct retry keys) */
  lemma LeaseBudget(l: Line)
    requires InStep(l)
    ensures Replay(l.log).value.leases <= l.job.maxAttempts * (1 + |Replay(l.log).value.retryKeys|)
  {
    var t := Replay(l.log).value;
    assert WithinBudget(t, l.job, |l.log|) && t.attempts == l.job.attempts;
    ProductBound(t.leases, l.job.maxAttempts, |t.retryKeys|, t.attempts);
  }

  // ---------------------------------------------------------------- the tables

  datatype RunRow = RunRow(projectId: nat, idempotencyKey: string, kind: string, state: WorkflowRun)

  /** Audit rows are kept per run, in the order they were written. */
  datatype Store = Store(projects: set<nat>, runs: map<RunId, RunRow>, jobs: map<JobId, Job>,
                         log: map<RunId, seq<Event>>)

  predicate Located(s: Store, j: JobId) {
    j in s.jobs && s.jobs[j].runId in s.runs && s.jobs[j].runId in s.log
  }

  function LineOf(s: Store, j: JobId): Line
    requires Located(s, j)
  {
    var r := s.jobs[j].runId;
    Line(s.jobs[j], s.runs[r].state, s.log[r])
  }

  function Put(s: Store, j: JobId, l: Line): Store
    requires Located(s, j)
  {
    var r := s.jobs[j].runId;
    s.(runs := s.runs[r := s.runs[r].(state := l.run)], jobs := s.jobs[j := l.job], log := s.log[r := l.log])
  }

  ghost predicate HasJob(s: Store, r: RunId) {
    exists j :: j in s.jobs && s.jobs[j].runId == r
  }

  /** Every job belongs to a run, every run has exactly one job, and keys identify runs. */
  ghost predicate Linked(s: Store) {
    && (forall j :: j in s.jobs ==> Located(s, j))
    && (forall i, j :: i in s.jobs && j in s.jobs && s.jobs[i].runId == s.jobs[j].runId ==> i == j)
    && EveryRunHasJob(s)
    && UniqueKeys(s.runs)
  }

  ghost predicate EveryRunHasJob(s: Store) {
    forall r :: r in s.runs ==> r in s.log && HasJob(s, r)
  }

  ghost predicate UniqueKeys(runs: map<RunId, RunRow>) {
    forall q, r :: q in runs && r in runs && SameKey(runs[q], runs[r]) ==> q == r
  }

  ghost predicate AllLines(s: Store, good: Line -> bool) {
    forall j :: Located(s, j) ==> good(LineOf(s, j))
  }

  ghost const STEADY: Line -> bool := (l: Line) => InStep(l)

  /** The whole-store invariant: linked tables whose lines are all in step. */
  ghost predicate Consistent(s: Store) {
    Linked(s) && AllLines(s, STEADY)
  }

  predicate SameKey(a: RunRow, b: RunRow) {
    a.projectId == b.projectId && a.idempotencyKey == b.idempotencyKey
  }

  lemma PutLinked(s: Store, j: JobId, l: Line)
    requires Linked(s) && j in s.jobs && l.job.runId == s.jobs[j].runId
    ensures Linked(Put(s, j, l)) && LineOf(Put(s, j, l), j) == l
    ensures forall i :: i in s.jobs && i != j ==> LineOf(Put(s, j, l), i) == LineOf(s, i)
  {
    PutHasJob(s, j, l);
    SetStateUniqueKeys(s.runs, l.job.runId, l.run);
    PutLocates(s, j, l);
  }

  /** Every job stays located, and those of other runs keep their lines. */
  lemma PutLocates(s: Store, j: JobId, l: Line)
    requires Located(s, j) && l.job.runId == s.jobs[j].runId
    ensures LineOf(Put(s, j, l), j) == l
    ensures forall i :: Located(s, i) ==> Located(Put(s, j, l), i)
    ensures forall i :: Located(s, i) && s.jobs[i].runId != s.jobs[j].runId ==> LineOf(Put(s, j, l), i) == LineOf(s, i)
  {
  }

  lemma PutHasJob(s: Store, j: JobId, l: Line)
    requires EveryRunHasJob(s) && Located(s, j) && l.job.runId == s.jobs[j].runId
    ensures EveryRunHasJob(Put(s, j, l))
  {
    var t := Put(s, j, l);
    forall r | r in t.runs ensures r in t.log && HasJob(t, r) {
      assert HasJob(s, r);
      var i :| i in s.jobs && s.jobs[i].runId == r;
      assert i in t.jobs && t.jobs[i].runId == r;
    }
  }

  lemma SetStateUniqueKeys(runs: map<RunId, RunRow>, r: RunId, state: WorkflowRun)
    requires UniqueKeys(runs) && r in runs
    ensures UniqueKeys(runs[r := runs[r].(state := state)])
  {
  }

  lemma PutLines(s: Store, j: JobId, l: Line, good: Line -> bool)
    requires Linked(s) && j in s.jobs && l.job.runId == s.jobs[j].runId
    requires AllLines(s, good) && good(l)
    ensures AllLines(Put(s, j, l), good)
  {
    PutLinked(s, j, l);
  }

  lemma PutConsistent(s: Store, j: JobId, l: Line)
    requires Consistent(s) && j in s.jobs && l.job.runId == s.jobs[j].runId && STEADY(l)
    ensures Consistent(Put(s, j, l))
  {
    PutLinked(s, j, l);
    PutLines(s, j, l, STEADY);
  }

  // ---------------------------------------------------------------- commands

  datatype Command =
    | Enqueue(projectId: nat, idempotencyKey: string, taskType: string, payload: string, actor: string,
              run: RunId, job: JobId, now: Time)
    | ClaimNext(job: JobId, worker: string, seconds: nat, now: Time)
    | CompleteJob(claim: ClaimedJob, worker: string, now: Time)
    | FailJob(claim: ClaimedJob, worker: string, code: string, detail: string, retryable: bool, now: Time)
    | RetryRun(run: RunId, commandKey: string, actor: string, now: Time)

  datatype Reply = Ok | Claimed(claim: ClaimedJob) | Nothing | Replayed | NotFound | Conflict | LeaseLost
    | BadTransition

  function RunsWithKey(s: Store, projectId: nat, key: string): set<RunId> {
    set r | r in s.runs && s.runs[r].projectId == projectId && s.runs[r].idempotencyKey == key
  }

  function JobsOf(s: Store, r: RunId): set<JobId> {
    set j | j in s.jobs && s.jobs[j].runId == r
  }

  /** One of the runs has a job for this very request. */
  predicate AlreadyEnqueued(s: Store, runs: set<RunId>, taskType: string, payload: string) {
    exists j :: j in s.jobs && s.jobs[j].runId in runs && s.jobs[j].taskType == taskType && s.jobs[j].payload == payload
  }

  lemma KeyFindsOneJob(s: Store, projectId: nat, key: string, r: RunId) returns (j: JobId)
    requires Linked(s) && r in RunsWithKey(s, projectId, key)
    ensures RunsWithKey(s, projectId, key) == {r}
    ensures j in s.jobs && s.jobs[j].runId == r
    ensures forall taskType, payload ::
      AlreadyEnqueued(s, {r}, taskType, payload) <==> s.jobs[j].taskType == taskType && s.jobs[j].payload == payload
  {
    forall q | q in RunsWithKey(s, projectId, key) ensures q == r {
      assert SameKey(s.runs[q], s.runs[r]);
    }
    assert HasJob(s, r);
    j :| j in s.jobs && s.jobs[j].runId == r;
  }

  function NewJob(run: RunId, taskType: string, payload: string, now: Time): Job {
    Job(run, taskType, payload, JobQueued, 0, ENQUEUED_MAX_ATTEMPTS, now, now, None, None, None, None)
  }

  /** The two new rows and their audit event; `run` and `job` are fresh identifiers. */
  function Enqueued(s: Store, c: Command): Store
    requires c.Enqueue?
  {
    s.(runs := s.runs[c.run := RunRow(c.projectId, c.idempotencyKey, c.taskType, NEW_RUN)],
       jobs := s.jobs[c.job := NewJob(c.run, c.taskType, c.payload, c.now)],
       log := s.log[c.run := [RunQueued(c.actor)]])
  }

  function FailedJobs(s: Store, r: RunId): set<JobId> {
    set j | j in s.jobs && s.jobs[j].runId == r && s.jobs[j].status == JobFailed
  }

  function Retried(s: Store, c: Command): Store
    requires c.RetryRun? && c.run in s.runs && c.run in s.log
  {
    s.(runs := s.runs[c.run := s.runs[c.run].(state := Reopen(s.runs[c.run].state))],
       jobs := map j | j in s.jobs :: if j in FailedJobs(s, c.run) then Requeue(s.jobs[j], c.now) else s.jobs[j],
       log := s.log[c.run := s.log[c.run] + [RunRetried(c.actor, c.commandKey)]])
  }

  /** The run's other jobs that are still queued or leased. */
  function Unfinished(s: Store, j: JobId): set<JobId>
    requires j in s.jobs
  {
    set i | i in s.jobs && i != j && s.jobs[i].runId == s.jobs[j].runId && s.jobs[i].status in {JobQueued, JobLeased}
  }

  /** One committed transaction. A claim names the row its query returned; any claimable row is allowed. */
  function Step(s: Store, c: Command): (Store, Reply) {
    match c
    case Enqueue(projectId, key, taskType, payload, _, run, job, _) =>
      if projectId !in s.projects then (s, NotFound)
      else if RunsWithKey(s, projectId, key) != {} then
        if AlreadyEnqueued(s, RunsWithKey(s, projectId, key), taskType, payload) then (s, Replayed) else (s, Conflict)
      else if run in s.runs || run in s.log || job in s.jobs then (s, Conflict)
      else (Enqueued(s, c), Ok)
    case ClaimNext(j, worker, seconds, now) =>
      if !Located(s, j) || !Claimable(s.jobs[j], now) then (s, Nothing)
      else (match Claim(LineOf(s, j), worker, seconds, now)
        case Failure(_) => (s, BadTransition)
        case Success((l, handed)) =>
          (Put(s, j, l), if handed then Claimed(ClaimedJob(j, l.job.runId, l.job.attempts)) else Nothing))
    case CompleteJob(claim, worker, now) =>
      if !Located(s, claim.id) || !Owns(s.jobs[claim.id], worker) then (s, LeaseLost)
      else (match Complete(LineOf(s, claim.id), claim, worker, |Unfinished(s, claim.id)|, now)
        case Failure(_) => (s, BadTransition)
        case Success(l) => (Put(s, claim.id, l), Ok))
    case FailJob(claim, worker, code, detail, retryable, now) =>
      if !Located(s, claim.id) || !Owns(s.jobs[claim.id], worker) then (s, LeaseLost)
      else (match Fail(LineOf(s, claim.id), worker, code, detail, retryable, now)
        case Failure(_) => (s, BadTransition)
        case Success(l) => (Put(s, claim.id, l), Ok))
    case RetryRun(run, key, _, _) =>
      if run !in s.runs || run !in s.log then (s, NotFound)
      else if AlreadyRetried(s.log[run], key) then (s, Replayed)
      else if s.runs[run].state.status != NeedsAttention || FailedJobs(s, run) == {} then (s, Conflict)
      else (Retried(s, c), Ok)
  }

  /** No run of the project already carries the command's idempotency key. */
  ghost predicate NewKey(runs: map<RunId, RunRow>, c: Command)
    requires c.Enqueue?
  {
    forall r :: r in runs ==> !SameKey(runs[r], RunRow(c.projectId, c.idempotencyKey, c.taskType, NEW_RUN))
  }

  lemma EnqueueUniqueKeys(runs: map<RunId, RunRow>, c: Command)
    requires c.Enqueue? && UniqueKeys(runs) && NewKey(runs, c) && c.run !in runs
    ensures UniqueKeys(runs[c.run := RunRow(c.projectId, c.idempotencyKey, c.taskType, NEW_RUN)])
  {
  }

  lemma EnqueueLines(s: Store, c: Command)
    requires Linked(s) && c.Enqueue? && c.run !in s.runs && c.run !in s.log && c.job !in s.jobs
    ensures Located(Enqueued(s, c), c.job)
      && LineOf(Enqueued(s, c), c.job)
        == Line(NewJob(c.run, c.taskType, c.payload, c.now), NEW_RUN, [RunQueued(c.actor)])
    ensures forall i :: i in s.jobs ==> Located(Enqueued(s, c), i) && LineOf(Enqueued(s, c), i) == LineOf(s, i)
  {
  }

  lemma EnqueueLinked(s: Store, c: Command)
    requires Linked(s) && c.Enqueue? && c.run !in s.runs && c.run !in s.log && c.job !in s.jobs
    requires NewKey(s.runs, c)
    ensures Linked(Enqueued(s, c))
  {
    EnqueueHasJob(s, c);
    EnqueueUniqueKeys(s.runs, c);
    EnqueueLines(s, c);
  }

  lemma EnqueueHasJob(s: Store, c: Command)
    requires EveryRunHasJob(s) && c.Enqueue? && c.job !in s.jobs
    ensures EveryRunHasJob(Enqueued(s, c))
  {
    var t := Enqueued(s, c);
    forall r | r in t.runs ensures r in t.log && HasJob(t, r) {
      if r in s.runs {
        assert HasJob(s, r);
        var i :| i in s.jobs && s.jobs[i].runId == r;
        assert i in t.jobs && t.jobs[i].runId == r;
      } else {
        assert t.jobs[c.job].runId == r;
      }
    }
  }

  lemma NewLineInStep(run: RunId, taskType: string, payload: string, now: Time, actor: string)
    ensures InStep(Line(NewJob(run, taskType, payload, now), NEW_RUN, [RunQueued(actor)]))
  {
    assert Replay([RunQueued(actor)]) == Some(Tally(JobQueued, Queued, 0, 1, 0, 0, 0, {}));
  }

  lemma EnqueueConsistent(s: Store, c: Command)
    requires Consistent(s) && c.Enqueue? && c.run !in s.runs && c.run !in s.log && c.job !in s.jobs
    requires RunsWithKey(s, c.projectId, c.idempotencyKey) == {}
    ensures Consistent(Enqueued(s, c))
  {
    forall r | r in s.runs ensures !SameKey(s.runs[r], RunRow(c.projectId, c.idempotencyKey, c.taskType, NEW_RUN)) {
      assert r !in RunsWithKey(s, c.projectId, c.idempotencyKey);
    }
    EnqueueLinked(s, c);
    EnqueueLines(s, c);
    NewLineInStep(c.run, c.taskType, c.payload, c.now, c.actor);
    assert AllLines(Enqueued(s, c), STEADY);
  }

  lemma RetriedIsPut(s: Store, c: Command, j: JobId)
    requires Linked(s) && c.RetryRun? && c.run in s.runs && j in FailedJobs(s, c.run)
    ensures Located(s, j) && Retried(s, c) == Put(s, j, Retry(LineOf(s, j), c.commandKey, c.actor, c.now))
  {
    var put := Put(s, j, Retry(LineOf(s, j), c.commandKey, c.actor, c.now));
    assert FailedJobs(s, c.run) == {j};
    assert Retried(s, c).jobs == put.jobs;
  }

  /** No other job of a consistent store shares a run, so completing a job always completes its run. */
  lemma NoUnfinishedSibling(s: Store, j: JobId)
    requires Linked(s) && j in s.jobs
    ensures Unfinished(s, j) == {}
  {
  }

  predicate Settles(c: Command) {
    c.CompleteJob? || c.FailJob?
  }

  /** The events that can end a lease: a settlement, or another lease that reclaims it. */
  predicate EndsLease(e: Event) {
    e.Completed? || e.RetryScheduled? || e.Failed? || e.Leased?
  }

  /** The commands of workers, each about one job. */
  predicate ByWorker(c: Command) {
    c.ClaimNext? || Settles(c)
  }

  function Target(c: Command): JobId
    requires ByWorker(c)
  {
    if c.ClaimNext? then c.job else c.claim.id
  }

  predicate Admitted(job: Job, c: Command)
    requires ByWorker(c)
  {
    if c.ClaimNext? then Claimable(job, c.now) else Owns(job, c.worker)
  }

  /** What an admitted worker command makes of its job's line. */
  function Worked(l: Line, c: Command): Line
    requires ByWorker(c)
  {
    match c
    case ClaimNext(_, worker, seconds, now) =>
      var r := Claim(l, worker, seconds, now); if r.Success? then r.value.0 else l
    case CompleteJob(claim, worker, now) =>
      var r := Complete(l, claim, worker, 0, now); if r.Success? then r.value else l
    case FailJob(_, worker, code, detail, retryable, now) =>
      var r := Fail(l, worker, code, detail, retryable, now); if r.Success? then r.value else l
  }

  /** An admitted command moves the line one event on, keeps it in step and uses up potential. */
  ghost predicate MovesOn(l: Line, c: Command, next: Line)
    requires ByWorker(c)
  {
    && InStep(next) && next.job.runId == l.job.runId && Potential(next.job) < Potential(l.job)
    && |next.log| == |l.log| + 1 && next.log[..|l.log|] == l.log && EndsLease(next.log[|l.log|])
    && (next.log[|l.log|].Leased? ==> c.ClaimNext?)
  }

  lemma ClaimMovesOn(l: Line, c: Command)
    requires c.ClaimNext? && InStep(l) && Claimable(l.job, c.now)
    ensures Worked(l, c) == Claim(l, c.worker, c.seconds, c.now).value.0 && MovesOn(l, c, Worked(l, c))
  {
    ClaimKeepsStep(l, c.worker, c.seconds, c.now);
  }

  lemma CompleteMovesOn(l: Line, c: Command)
    requires c.CompleteJob? && InStep(l) && Owns(l.job, c.worker)
    ensures Worked(l, c) == Complete(l, c.claim, c.worker, 0, c.now).value && MovesOn(l, c, Worked(l, c))
  {
    CompleteKeepsStep(l, c.claim, c.worker, c.now);
  }

  lemma FailMovesOn(l: Line, c: Command)
    requires c.FailJob? && InStep(l) && Owns(l.job, c.worker)
    ensures Worked(l, c) == Fail(l, c.worker, c.code, c.detail, c.retryable, c.now).value && MovesOn(l, c, Worked(l, c))
  {
    FailKeepsStep(l, c.worker, c.code, c.detail, c.retryable, c.now);
  }

  lemma WorkedMovesOn(l: Line, c: Command)
    requires ByWorker(c) && InStep(l) && Admitted(l.job, c)
    ensures MovesOn(l, c, Worked(l, c))
  {
    if c.ClaimNext? {
      ClaimMovesOn(l, c);
    } else if c.CompleteJob? {
      CompleteMovesOn(l, c);
    } else {
      FailMovesOn(l, c);
    }
  }

  ghost predicate Takes(s: Store, c: Command)
    requires ByWorker(c)
  {
    Located(s, Target(c)) && Admitted(s.jobs[Target(c)], c)
  }

  /** A worker command either changes exactly one line, by `Worked`, or changes nothing. */
  lemma WorkerStepIsPut(s: Store, c: Command)
    requires Consistent(s) && ByWorker(c)
    ensures if Takes(s, c) then Step(s, c).0 == Put(s, Target(c), Worked(LineOf(s, Target(c)), c))
      else Step(s, c).0 == s
    ensures Step(s, c).1 != BadTransition
  {
    if Takes(s, c) {
      var l := LineOf(s, Target(c));
      assert STEADY(l);
      match c
      case ClaimNext(_, worker, seconds, now) => ClaimKeepsStep(l, worker, seconds, now);
      case CompleteJob(claim, worker, now) =>
        NoUnfinishedSibling(s, claim.id);
        CompleteKeepsStep(l, claim, worker, now);
      case FailJob(_, worker, code, detail, retryable, now) => FailKeepsStep(l, worker, code, detail, retryable, now);
    }
  }

  lemma WorkerConsistent(s: Store, c: Command)
    requires Consistent(s) && ByWorker(c)
    ensures Consistent(Step(s, c).0)
  {
    WorkerStepIsPut(s, c);
    if Takes(s, c) {
      var l := LineOf(s, Target(c));
      assert STEADY(l);
      WorkedMovesOn(l, c);
      PutConsistent(s, Target(c), Worked(l, c));
    }
  }

  lemma RetriedConsistent(s: Store, c: Command, j: JobId)
    requires Consistent(s) && c.RetryRun? && c.run in s.runs && c.run in s.log && j in FailedJobs(s, c.run)
    requires !AlreadyRetried(s.log[c.run], c.commandKey)
    ensures Consistent(Retried(s, c))
  {
    RetriedIsPut(s, c, j);
    var l := LineOf(s, j);
    assert STEADY(l);
    RetryKeepsStep(l, c.commandKey, c.actor, c.now);
    PutConsistent(s, j, Retry(l, c.commandKey, c.actor, c.now));
  }

  lemma RetryConsistent(s: Store, c: Command)
    requires Consistent(s) && c.RetryRun?
    ensures Consistent(Step(s, c).0) && Step(s, c).1 != BadTransition
  {
    if Step(s, c).1 == Ok {
      var j :| j in FailedJobs(s, c.run);
      RetriedConsistent(s, c, j);
    }
  }

  /** Every transaction keeps the store consistent, and none of them can raise RunTransitionError. */
  lemma StepKeepsConsistent(s: Store, c: Command)
    requires Consistent(s)
    ensures Consistent(Step(s, c).0) && Step(s, c).1 != BadTransition
  {
    if c.Enqueue? {
      if Step(s, c).1 == Ok {
        EnqueueConsistent(s, c);
      }
    } else if ByWorker(c) {
      WorkerStepIsPut(s, c);
      WorkerConsistent(s, c);
    } else {
      RetryConsistent(s, c);
    }
  }

  function Run(s: Store, commands: seq<Command>): Store
    decreases |commands|
  {
    if commands == [] then s else Step(Run(s, commands[..|commands| - 1]), commands[|commands| - 1]).0
  }

  lemma {:induction false} RunKeepsConsistent(s: Store, commands: seq<Command>)
    requires Consistent(s)
    ensures Consistent(Run(s, commands))
    decreases |commands|
  {
    if commands != [] {
      RunKeepsConsistent(s, commands[..|commands| - 1]);
      StepKeepsConsistent(Run(s, commands[..|commands| - 1]), commands[|commands| - 1]);
    }
  }

  function EmptyStore(projects: set<nat>): Store {
    Store(projects, map[], map[], map[])
  }

  /** Over every interleaving of commands of any number of workers, the store stays consistent. */
  lemma {:induction false} EveryInterleavingIsConsistent(projects: set<nat>, commands: seq<Command>)
    ensures Consistent(Run(EmptyStore(projects), commands))
    ensures commands != [] ==>
      Step(Run(EmptyStore(projects), commands[..|commands| - 1]), commands[|commands| - 1]).1 != BadTransition
    decreases |commands|
  {
    assert AllLines(EmptyStore(projects), STEADY);
    if commands != [] {
      EveryInterleavingIsConsistent(projects, commands[..|commands| - 1]);
      StepKeepsConsistent(Run(EmptyStore(projects), commands[..|commands| - 1]), commands[|commands| - 1]);
    }
  }

  // ---------------------------------------------------------------- what every interleaving guarantees

  /** The statuses of the two rows determine each other, and no queued job is stuck at its attempt limit. */
  predicate StatusesAgree(l: Line) {
    && (l.job.status == JobQueued <==> l.run.status in {Queued, RetryWait})
    && (l.job.status == JobLeased <==> l.run.status == Running)
    && (l.job.status == JobCompleted <==> l.run.status == Succeeded)
    && (l.job.status == JobFailed <==> l.run.status == NeedsAttention)
    && (l.run.finishedAt.Some? <==> l.run.status == Succeeded)
    && (l.job.status == JobQueued ==> l.job.attempts < l.job.maxAttempts)
  }

  /** The audit log alone determines the rows, and accounts for every lease ever taken. */
  predicate LogAccounts(l: Line) {
    && Replay(l.log).Some?
    && var t := Replay(l.log).value;
    && RowsMatch(t, l.job, l.run)
    && t.leases == t.settled + t.reclaimed + (if l.job.status == JobLeased then 1 else 0)
    && t.leases <= l.job.maxAttempts * (1 + |t.retryKeys|)
  }

  lemma InStepAgrees(l: Line)
    requires InStep(l)
    ensures StatusesAgree(l) && LogAccounts(l)
  {
    LeaseConservation(l.log);
    LeaseBudget(l);
  }

  /** In every reachable state each run has one job, the two rows agree, and the log accounts for them. */
  lemma JobAndRunAgree(projects: set<nat>, commands: seq<Command>, j: JobId)
    requires j in Run(EmptyStore(projects), commands).jobs
    ensures var s := Run(EmptyStore(projects), commands);
      && Located(s, j) && JobsOf(s, s.jobs[j].runId) == {j}
      && StatusesAgree(LineOf(s, j)) && LogAccounts(LineOf(s, j))
  {
    EveryInterleavingIsConsistent(projects, commands);
    var s := Run(EmptyStore(projects), commands);
    assert Located(s, j) && STEADY(LineOf(s, j));
    InStepAgrees(LineOf(s, j));
  }

  /** A settlement takes effect exactly when its worker holds the lease; otherwise nothing changes. */
  lemma OnlyTheOwnerSettles(s: Store, c: Command)
    requires Consistent(s) && Settles(c)
    ensures !(Located(s, c.claim.id) && Owns(s.jobs[c.claim.id], c.worker)) ==> Step(s, c) == (s, LeaseLost)
    ensures Located(s, c.claim.id) && Owns(s.jobs[c.claim.id], c.worker) ==>
      && Step(s, c).1 == Ok && Step(s, c).0 != s
      && c.claim.id in Step(s, c).0.jobs && Step(s, c).0.jobs[c.claim.id].status != JobLeased
  {
    var j := c.claim.id;
    if Located(s, j) && Owns(s.jobs[j], c.worker) {
      assert STEADY(LineOf(s, j));
      if c.CompleteJob? {
        NoUnfinishedSibling(s, j);
        CompleteKeepsStep(LineOf(s, j), c.claim, c.worker, c.now);
      } else {
        FailKeepsStep(LineOf(s, j), c.worker, c.code, c.detail, c.retryable, c.now);
      }
    }
  }

  /** A claim that is handed out is the lease in force, one attempt further. */
  lemma ClaimTakesLease(s: Store, c: Command)
    requires Consistent(s) && c.ClaimNext? && Step(s, c).1.Claimed?
    ensures var t, claim := Step(s, c).0, Step(s, c).1.claim;
      && c.job in s.jobs && Located(t, c.job) && Owns(t.jobs[c.job], c.worker)
      && claim.id == c.job && claim.attempts == t.jobs[c.job].attempts == s.jobs[c.job].attempts + 1
      && claim.attempts <= s.jobs[c.job].maxAttempts == t.jobs[c.job].maxAttempts
  {
    assert STEADY(LineOf(s, c.job));
    ClaimKeepsStep(LineOf(s, c.job), c.worker, c.seconds, c.now);
  }

  /** Where a settlement by the owner leaves the job. */
  function SettledStatus(c: Command, job: Job): JobStatus
    requires Settles(c)
  {
    if c.CompleteJob? then JobCompleted
    else if c.retryable && job.attempts < job.maxAttempts then JobQueued
    else JobFailed
  }

  lemma OwnerSettlesOnce(s: Store, c: Command)
    requires Consistent(s) && Settles(c) && Located(s, c.claim.id) && Owns(s.jobs[c.claim.id], c.worker)
    ensures var t := Step(s, c).0; var j := c.claim.id;
      && Located(t, j) && t.jobs[j].status == SettledStatus(c, s.jobs[j])
      && t.jobs[j].attempts == s.jobs[j].attempts && t.jobs[j].maxAttempts == s.jobs[j].maxAttempts
      && |LineOf(t, j).log| == |LineOf(s, j).log| + 1
  {
    assert STEADY(LineOf(s, c.claim.id));
    if c.CompleteJob? {
      NoUnfinishedSibling(s, c.claim.id);
    }
  }

  // ---------------------------------------------------------------- which lease a settlement ends

  /**
   * Event `k` is the settlement of the lease taken at event `i`: the first one after it that ends a lease, and no
   * reclaim.
   */
  ghost predicate SettledBy(log: seq<Event>, i: nat, k: nat) {
    && i < k < |log| && log[i].Leased? && EndsLease(log[k]) && !log[k].Leased?
    && forall m :: i < m < k ==> !EndsLease(log[m])
  }

  /** No lease was taken after event `i`. */
  ghost predicate NoLeaseAfter(log: seq<Event>, i: nat) {
    forall m :: i < m < |log| ==> !log[m].Leased?
  }

  /** A job is leased exactly when the last event of its log is a lease. */
  lemma LeasedMeansLastEvent(log: seq<Event>)
    requires Replay(log).Some?
    ensures log != [] && (Replay(log).value.job == JobLeased <==> log[|log| - 1].Leased?)
  {
  }

  lemma LeasedLineEndsInLease(l: Line)
    requires InStep(l)
    ensures l.log != [] && (l.job.status == JobLeased <==> l.log[|l.log| - 1].Leased?)
  {
    LeasedMeansLastEvent(l.log);
  }

  /** What a worker command does to the line of any job. */
  lemma WorkerStepLine(s: Store, c: Command, j: JobId)
    requires Consistent(s) && ByWorker(c) && j in s.jobs
    ensures Located(s, j) && InStep(LineOf(s, j)) && Located(Step(s, c).0, j)
    ensures LineOf(Step(s, c).0, j)
      == if Target(c) == j && Admitted(s.jobs[j], c) then Worked(LineOf(s, j), c) else LineOf(s, j)
  {
    assert Located(s, j) && STEADY(LineOf(s, j));
    WorkerStepIsPut(s, c);
    if Takes(s, c) {
      var i := Target(c);
      assert STEADY(LineOf(s, i));
      WorkedMovesOn(LineOf(s, i), c);
      PutLinked(s, i, Worked(LineOf(s, i), c));
    }
  }

  lemma RetriedLine(s: Store, c: Command, i: JobId, j: JobId)
    requires Linked(s) && c.RetryRun? && c.run in s.runs && i in FailedJobs(s, c.run) && Located(s, j)
    ensures c.run in s.log && Located(Retried(s, c), j)
    ensures LineOf(Retried(s, c), j) == if i == j then Retry(LineOf(s, j), c.commandKey, c.actor, c.now)
      else LineOf(s, j)
    ensures i == j <==> c.run == s.jobs[j].runId
  {
    RetriedIsPut(s, c, i);
    PutLinked(s, i, Retry(LineOf(s, i), c.commandKey, c.actor, c.now));
  }

  lemma RetryIsAccepted(s: Store, c: Command) returns (i: JobId)
    requires c.RetryRun? && Step(s, c).1 == Ok
    ensures c.run in s.runs && c.run in s.log && Step(s, c).0 == Retried(s, c) && i in FailedJobs(s, c.run)
  {
    i :| i in FailedJobs(s, c.run);
  }

  lemma EnqueuedLine(s: Store, c: Command, j: JobId)
    requires Linked(s) && c.Enqueue? && Located(s, j)
    ensures Located(Step(s, c).0, j) && LineOf(Step(s, c).0, j) == LineOf(s, j)
  {
    if Step(s, c).1 == Ok {
      assert Step(s, c).0 == Enqueued(s, c);
    }
  }

  lemma RetryStepLine(s: Store, c: Command, j: JobId)
    requires Linked(s) && c.RetryRun? && Located(s, j)
    ensures Located(Step(s, c).0, j)
    ensures LineOf(Step(s, c).0, j)
      == if c.run == s.jobs[j].runId && Step(s, c).1 == Ok then Retry(LineOf(s, j), c.commandKey, c.actor, c.now)
        else LineOf(s, j)
    ensures Step(s, c).1 == Ok && c.run == s.jobs[j].runId ==> s.jobs[j].status == JobFailed
  {
    if Step(s, c).1 == Ok {
      var i := RetryIsAccepted(s, c);
      RetriedLine(s, c, i, j);
    }
  }

  /** What a human command does to the line of any job. */
  lemma HumanStepLine(s: Store, c: Command, j: JobId)
    requires Consistent(s) && !ByWorker(c) && j in s.jobs
    ensures Located(s, j) && Located(Step(s, c).0, j)
    ensures LineOf(Step(s, c).0, j)
      == if c.RetryRun? && c.run == s.jobs[j].runId && Step(s, c).1 == Ok
        then Retry(LineOf(s, j), c.commandKey, c.actor, c.now)
         else LineOf(s, j)
    ensures Step(s, c).1 == Ok && c.RetryRun? && c.run == s.jobs[j].runId ==> s.jobs[j].status == JobFailed
  {
    assert Located(s, j);
    if c.Enqueue? {
      EnqueuedLine(s, c, j);
    } else {
      RetryStepLine(s, c, j);
    }
  }

  /** The rows of job `j` stay located under the same run, and its log is only appended to. */
  ghost predicate Continues(s: Store, t: Store, j: JobId) {
    && Located(s, j) && Located(t, j) && s.jobs[j].runId == t.jobs[j].runId
    && |LineOf(s, j).log| <= |LineOf(t, j).log| && LineOf(t, j).log[..|LineOf(s, j).log|] == LineOf(s, j).log
  }

  lemma StepContinues(s: Store, c: Command, j: JobId)
    requires Consistent(s) && j in s.jobs
    ensures Continues(s, Step(s, c).0, j)
  {
    if ByWorker(c) {
      WorkerStepLine(s, c, j);
      if Target(c) == j && Admitted(s.jobs[j], c) {
        WorkedMovesOn(LineOf(s, j), c);
      }
    } else {
      HumanStepLine(s, c, j);
    }
  }

  lemma ContinuesTrans(s: Store, t: Store, u: Store, j: JobId)
    requires Continues(s, t, j) && Continues(t, u, j)
    ensures Continues(s, u, j)
  {
    var n, m := |LineOf(s, j).log|, |LineOf(t, j).log|;
    assert LineOf(u, j).log[..n] == LineOf(u, j).log[..m][..n];
  }

  lemma {:induction false} RunContinues(s: Store, commands: seq<Command>, j: JobId)
    requires Consistent(s) && j in s.jobs
    ensures Consistent(Run(s, commands)) && Continues(s, Run(s, commands), j)
    decreases |commands|
  {
    if commands == [] {
      assert Located(s, j);
    } else {
      var front := commands[..|commands| - 1];
      RunContinues(s, front, j);
      StepKeepsConsistent(Run(s, front), commands[|commands| - 1]);
      StepContinues(Run(s, front), commands[|commands| - 1], j);
      ContinuesTrans(s, Run(s, front), Run(s, commands), j);
    }
  }

  /** The event that an accepted settlement appends ends a lease without taking one. */
  lemma SettlementEvent(s: Store, c: Command)
    requires Consistent(s) && Settles(c) && Step(s, c).1 == Ok
    ensures Located(s, c.claim.id) && Located(Step(s, c).0, c.claim.id) && Owns(s.jobs[c.claim.id], c.worker)
    ensures AppendsSettlement(LineOf(s, c.claim.id).log, LineOf(Step(s, c).0, c.claim.id).log)
  {
    OnlyTheOwnerSettles(s, c);
    WorkerStepLine(s, c, c.claim.id);
    WorkedMovesOn(LineOf(s, c.claim.id), c);
  }

  ghost predicate AppendsSettlement(before: seq<Event>, after: seq<Event>) {
    && |after| == |before| + 1 && after[..|before|] == before
    && EndsLease(after[|before|]) && !after[|before|].Leased?
  }

  lemma SettledExactly(log: seq<Event>, after: seq<Event>, i: nat)
    requires i < |log| && log[i].Leased? && log[|log| - 1].Leased? && AppendsSettlement(log, after)
    ensures SettledBy(after, i, |log|) <==> NoLeaseAfter(log, i)
  {
    assert forall m :: 0 <= m < |log| ==> after[m] == log[m];
    if i < |log| - 1 {
      assert EndsLease(after[|log| - 1]);
    }
  }

  lemma LeaseTerms(l: Line, k: Command)
    requires InStep(l) && k.ClaimNext? && Claimable(l.job, k.now) && Claim(l, k.worker, k.seconds, k.now).value.1
    ensures var next := Worked(l, k);
      && next.job.status == JobLeased && next.job.leaseOwner == Some(k.worker)
      && next.job.leaseExpiresAt == Some(k.now + k.seconds) && next.log == l.log + [Leased(k.worker, next.job.attempts)]
  {
    ClaimKeepsStep(l, k.worker, k.seconds, k.now);
  }

  lemma LeaseIsLast(s: Store, k: Command)
    requires Consistent(s) && k.ClaimNext? && Step(s, k).1.Claimed?
    ensures Consistent(Step(s, k).0) && Located(s, k.job) && Located(Step(s, k).0, k.job)
    ensures InStep(LineOf(s, k.job)) && Claimable(s.jobs[k.job], k.now)
    ensures LineOf(Step(s, k).0, k.job) == Worked(LineOf(s, k.job), k) && InStep(Worked(LineOf(s, k.job), k))
    ensures Claim(LineOf(s, k.job), k.worker, k.seconds, k.now).value.1
  {
    StepKeepsConsistent(s, k);
    WorkerStepLine(s, k, k.job);
    WorkedMovesOn(LineOf(s, k.job), k);
  }

  /** The lease that claim `k` takes is event `|log|` of the run's log, and stays there. */
  lemma ClaimIsLogged(s: Store, k: Command, commands: seq<Command>)
    requires Consistent(s) && k.ClaimNext? && Step(s, k).1.Claimed?
    ensures var t := Run(Step(s, k).0, commands);
      && Consistent(Step(s, k).0) && Consistent(t) && Located(s, k.job) && Located(Step(s, k).0, k.job)
      && Located(t, k.job)
      && |LineOf(s, k.job).log| < |LineOf(t, k.job).log| && LineOf(t, k.job).log[|LineOf(s, k.job).log|].Leased?
  {
    LeaseIsLast(s, k);
    LeaseTerms(LineOf(s, k.job), k);
    RunContinues(Step(s, k).0, commands, k.job);
    PrefixEvent(LineOf(Step(s, k).0, k.job).log, LineOf(Run(Step(s, k).0, commands), k.job).log,
                |LineOf(s, k.job).log|);
  }

  lemma PrefixEvent(before: seq<Event>, after: seq<Event>, i: nat)
    requires i < |before| <= |after| && after[..|before|] == before
    ensures after[i] == before[i]
  {
    assert after[i] == after[..|before|][i];
  }

  /** From `t` to `after`, the lease taken at event `i` of the log of job `j` was settled. */
  ghost predicate SettlesLease(t: Store, after: Store, j: JobId, i: nat) {
    Located(t, j) && Located(after, j) && SettledBy(LineOf(after, j).log, i, |LineOf(t, j).log|)
  }

  lemma SettlesLeaseExactly(t: Store, after: Store, j: JobId, i: nat)
    requires Located(t, j) && Located(after, j) && AppendsSettlement(LineOf(t, j).log, LineOf(after, j).log)
    requires InStep(LineOf(t, j)) && t.jobs[j].status == JobLeased
    requires i < |LineOf(t, j).log| && LineOf(t, j).log[i].Leased?
    ensures SettlesLease(t, after, j, i) <==> NoLeaseAfter(LineOf(t, j).log, i)
  {
    LeasedLineEndsInLease(LineOf(t, j));
    SettledExactly(LineOf(t, j).log, LineOf(after, j).log, i);
  }

  lemma SettlementSettlesLease(t: Store, c: Command, i: nat)
    requires Consistent(t) && Settles(c) && Located(t, c.claim.id)
    requires i < |LineOf(t, c.claim.id).log| && LineOf(t, c.claim.id).log[i].Leased?
    ensures SettlesLease(t, Step(t, c).0, c.claim.id, i)
      <==> Owns(t.jobs[c.claim.id], c.worker) && NoLeaseAfter(LineOf(t, c.claim.id).log, i)
  {
    OnlyTheOwnerSettles(t, c);
    if Owns(t.jobs[c.claim.id], c.worker) {
      assert STEADY(LineOf(t, c.claim.id));
      SettlementEvent(t, c);
      SettlesLeaseExactly(t, Step(t, c).0, c.claim.id, i);
    }
  }

  /**
   * `k` is a claim that was handed out, at event `i` of the run's log; whatever follows, a settlement with that
   * claim, complete or fail, ends exactly that lease if and only if its worker id owns the job and no lease was
   * taken since.
   */
  lemma SettlementEndsItsOwnLease(s: Store, k: Command, commands: seq<Command>, c: Command)
    requires Consistent(s) && k.ClaimNext? && Step(s, k).1.Claimed?
    requires Settles(c) && c.claim == Step(s, k).1.claim && c.worker == k.worker
    ensures var t := Run(Step(s, k).0, commands);
      && Located(s, k.job) && Located(t, k.job)
      && (SettlesLease(t, Step(t, c).0, k.job, |LineOf(s, k.job).log|)
          <==> Owns(t.jobs[k.job], c.worker) && NoLeaseAfter(LineOf(t, k.job).log, |LineOf(s, k.job).log|))
  {
    ClaimTakesLease(s, k);
    ClaimIsLogged(s, k, commands);
    SettlementSettlesLease(Run(Step(s, k).0, commands), c, |LineOf(s, k.job).log|);
  }

  /** The settlement of the worker that holds the lease of job `j`. */
  predicate SettlesFor(c: Command, j: JobId, worker: string) {
    Settles(c) && c.claim.id == j && c.worker == worker
  }

  /** A claim of job `j` once its lease has run out. */
  predicate ClaimsExpired(c: Command, j: JobId, expiry: Time) {
    c.ClaimNext? && c.job == j && expiry <= c.now
  }

  lemma HumanLeavesLease(s: Store, c: Command, j: JobId)
    requires Consistent(s) && j in s.jobs && s.jobs[j].status == JobLeased && !ByWorker(c)
    ensures Located(s, j) && Located(Step(s, c).0, j) && LineOf(Step(s, c).0, j) == LineOf(s, j)
  {
    HumanStepLine(s, c, j);
  }

  /**
   * While a lease is in force, its job, run and log are changed by its owner's settlement or an expired claim, and by
   * nothing else.
   */
  lemma OnlyOwnerOrExpiryEndsALease(s: Store, c: Command, j: JobId)
    requires Consistent(s) && j in s.jobs && s.jobs[j].status == JobLeased
    ensures Located(s, j) && Located(Step(s, c).0, j) && InStep(LineOf(s, j))
    ensures LineOf(Step(s, c).0, j) != LineOf(s, j)
      <==> SettlesFor(c, j, s.jobs[j].leaseOwner.value) || ClaimsExpired(c, j, s.jobs[j].leaseExpiresAt.value)
  {
    assert Located(s, j) && STEADY(LineOf(s, j));
    if ByWorker(c) {
      WorkerStepLine(s, c, j);
      if Admitted(s.jobs[j], c) {
        WorkedMovesOn(LineOf(s, j), c);
      }
    } else {
      HumanLeavesLease(s, c, j);
    }
  }

  /** Commands that leave the lease of `worker` on job `j` alone until `expiry`. */
  ghost predicate Undisturbed(commands: seq<Command>, j: JobId, worker: string, expiry: Time) {
    forall c :: c in commands ==> !SettlesFor(c, j, worker) && !ClaimsExpired(c, j, expiry)
  }

  lemma {:induction false} LeaseHolds(s: Store, commands: seq<Command>, j: JobId)
    requires Consistent(s) && Located(s, j) && s.jobs[j].status == JobLeased && InStep(LineOf(s, j))
    requires Undisturbed(commands, j, s.jobs[j].leaseOwner.value, s.jobs[j].leaseExpiresAt.value)
    ensures Consistent(Run(s, commands)) && Located(Run(s, commands), j) && LineOf(Run(s, commands), j) == LineOf(s, j)
    decreases |commands|
  {
    if commands != [] {
      var front, c := commands[..|commands| - 1], commands[|commands| - 1];
      LeaseHolds(s, front, j);
      StepKeepsConsistent(Run(s, front), c);
      assert c in commands;
      OnlyOwnerOrExpiryEndsALease(Run(s, front), c, j);
    }
  }

  /**
   * A lease is exclusive: until the claim time plus the lease seconds nothing but the owner's settlement touches
   * the job, its run or its log, so a worker that settles within that time settles the lease it was handed.
   */
  lemma SettlingInTimeEndsItsOwnLease(s: Store, k: Command, commands: seq<Command>, c: Command)
    requires Consistent(s) && k.ClaimNext? && Step(s, k).1.Claimed?
    requires Undisturbed(commands, k.job, k.worker, k.now + k.seconds)
    requires Settles(c) && c.claim == Step(s, k).1.claim && c.worker == k.worker
    ensures var s1 := Step(s, k).0; var t := Run(s1, commands);
      && Located(s, k.job) && Located(s1, k.job) && Located(t, k.job) && LineOf(t, k.job) == LineOf(s1, k.job)
      && Step(t, c).1 == Ok && SettlesLease(t, Step(t, c).0, k.job, |LineOf(s, k.job).log|)
  {
    var s1 := Step(s, k).0;
    ClaimTakesLease(s, k);
    LeaseIsLast(s, k);
    LeaseTerms(LineOf(s, k.job), k);
    LeaseHolds(s1, commands, k.job);
    SettlementSettlesLease(Run(s1, commands), c, |LineOf(s, k.job).log|);
    OnlyTheOwnerSettles(Run(s1, commands), c);
  }

  /** After a settlement nobody, not even its worker, can settle the job again until a new lease is taken. */
  lemma SettledTwiceIsRefused(s: Store, c: Command, commands: seq<Command>, later: Command)
    requires Consistent(s) && Settles(c) && Step(s, c).1 == Ok
    requires Settles(later) && later.claim.id == c.claim.id
    ensures Located(s, c.claim.id) && Located(Run(Step(s, c).0, commands), c.claim.id)
    ensures var t := Run(Step(s, c).0, commands);
      NoLeaseAfter(LineOf(t, c.claim.id).log, |LineOf(s, c.claim.id).log|) ==> Step(t, later) == (t, LeaseLost)
  {
    SettlementEvent(s, c);
    StepKeepsConsistent(s, c);
    RunContinues(Step(s, c).0, commands, c.claim.id);
    StaysSettled(s, Step(s, c).0, Run(Step(s, c).0, commands), c.claim.id, later);
  }

  lemma StaysSettled(s: Store, s1: Store, t: Store, j: JobId, later: Command)
    requires Located(s, j) && Continues(s1, t, j) && Consistent(t)
    requires AppendsSettlement(LineOf(s, j).log, LineOf(s1, j).log) && Settles(later) && later.claim.id == j
    ensures NoLeaseAfter(LineOf(t, j).log, |LineOf(s, j).log|) ==> Step(t, later) == (t, LeaseLost)
  {
    OnlyTheOwnerSettles(t, later);
    if NoLeaseAfter(LineOf(t, j).log, |LineOf(s, j).log|) {
      assert STEADY(LineOf(t, j));
      NoLeaseMeansSettled(LineOf(s, j).log, LineOf(s1, j).log, LineOf(t, j));
    }
  }

  lemma NoLeaseMeansSettled(before: seq<Event>, after: seq<Event>, l: Line)
    requires InStep(l) && AppendsSettlement(before, after)
    requires |after| <= |l.log| && l.log[..|after|] == after && NoLeaseAfter(l.log, |before|)
    ensures l.job.status != JobLeased
  {
    LeasedLineEndsInLease(l);
    assert l.log[|before|] == l.log[..|after|][|before|];
  }

  lemma {:induction false} SettlementsAlternate(log: seq<Event>, a: nat, b: nat)
    requires Replay(log).Some? && a < b < |log|
    requires EndsLease(log[a]) && !log[a].Leased? && EndsLease(log[b]) && !log[b].Leased?
    ensures exists m :: a < m < b && log[m].Leased?
    decreases |log|
  {
    var front := log[..|log| - 1];
    if b < |log| - 1 {
      SettlementsAlternate(front, a, b);
      var m :| a < m < b && front[m].Leased?;
      assert log[m].Leased?;
    } else {
      LeasedMeansLastEvent(front);
      assert log[b - 1] == front[b - 1];
    }
  }

  // ---------------------------------------------------------------- bounded work

  /** The log of job `j`'s run never shrinks, and each entry written by a worker uses up potential. */
  ghost predicate Spends(s: Store, t: Store, j: JobId) {
    && Located(s, j) && Located(t, j)
    && s.jobs[j].runId == t.jobs[j].runId
    && |LineOf(t, j).log| + Potential(t.jobs[j]) <= |LineOf(s, j).log| + Potential(s.jobs[j])
  }

  lemma StepSpends(s: Store, c: Command, j: JobId)
    requires Consistent(s) && j in s.jobs && !(c.RetryRun? && c.run == s.jobs[j].runId)
    ensures Spends(s, Step(s, c).0, j)
  {
    if ByWorker(c) {
      WorkerStepLine(s, c, j);
      if Target(c) == j && Admitted(s.jobs[j], c) {
        WorkedMovesOn(LineOf(s, j), c);
      }
    } else {
      HumanStepLine(s, c, j);
    }
  }

  /** A step that changes the rows of job `j` at all writes one audit row and brings its potential down. */
  lemma EffectiveStepSpends(s: Store, c: Command, j: JobId)
    requires Consistent(s) && j in s.jobs && !(c.RetryRun? && c.run == s.jobs[j].runId)
    ensures Located(s, j) && Located(Step(s, c).0, j)
    ensures var before, after := LineOf(s, j), LineOf(Step(s, c).0, j);
      after != before ==> |after.log| == |before.log| + 1 && Potential(after.job) < Potential(before.job)
  {
    if ByWorker(c) {
      WorkerStepLine(s, c, j);
      if Target(c) == j && Admitted(s.jobs[j], c) {
        WorkedMovesOn(LineOf(s, j), c);
      }
    } else {
      HumanStepLine(s, c, j);
    }
  }

  function Changed(s: Store, t: Store, j: JobId): nat {
    if Located(s, j) && Located(t, j) && LineOf(s, j) == LineOf(t, j) then 0 else 1
  }

  /** How many of the commands change the rows of job `j`. */
  function Changes(s: Store, commands: seq<Command>, j: JobId): nat
    decreases |commands|
  {
    if commands == [] then 0
    else Changes(s, commands[..|commands| - 1], j) + Changed(Run(s, commands[..|commands| - 1]), Run(s, commands), j)
  }

  lemma StepFits(s: Store, c: Command, j: JobId)
    requires Consistent(s) && j in s.jobs && !(c.RetryRun? && c.run == s.jobs[j].runId)
    ensures Spends(s, Step(s, c).0, j) && Consistent(Step(s, c).0)
    ensures Changed(s, Step(s, c).0, j) + Potential(Step(s, c).0.jobs[j]) <= Potential(s.jobs[j])
  {
    StepKeepsConsistent(s, c);
    StepSpends(s, c, j);
    EffectiveStepSpends(s, c, j);
  }

  /**
   * Until a human retries the run, workers can change it at most Potential times, whatever they do: every
   * effective step spends potential and adds one audit row. From a fresh job that is at most six steps.
   */
  lemma {:induction false} BoundedWorkBetweenRetries(s: Store, commands: seq<Command>, j: JobId)
    requires Consistent(s) && j in s.jobs
    requires forall c :: c in commands ==> !(c.RetryRun? && c.run == s.jobs[j].runId)
    ensures Spends(s, Run(s, commands), j) && Consistent(Run(s, commands))
    ensures Changes(s, commands, j) + Potential(Run(s, commands).jobs[j]) <= Potential(s.jobs[j])
    decreases |commands|
  {
    if commands != [] {
      var before, c := commands[..|commands| - 1], commands[|commands| - 1];
      BoundedWorkBetweenRetries(s, before, j);
      assert c in commands;
      StepFits(Run(s, before), c, j);
    } else {
      assert Located(s, j);
    }
  }
}
