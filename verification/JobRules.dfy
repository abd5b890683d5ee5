/**
 * When a job can be claimed, for how long it cannot, and what its failures leave behind, over any commands in between.
 */
module JobRules {
  import opened Prelude
  import opened RunState
  import opened JobQueue
  import opened QueueDatabase

  function PowerOfTwo(n: nat): nat {
    if n == 0 then 1 else 2 * PowerOfTwo(n - 1)
  }

  /** `min(2**attempts, 60)` */
  function Backoff(attempts: nat): nat {
    if PowerOfTwo(attempts) < 60 then PowerOfTwo(attempts) else 60
  }

  lemma {:induction false} PowersGrow(n: nat)
    requires n >= 6
    ensures PowerOfTwo(n) >= 60
  {
    if n > 6 {
      PowersGrow(n - 1);
    } else {
      assert PowerOfTwo(5) == 32;
    }
  }

  lemma DelayIsBackoff(attempts: nat)
    ensures RetryDelay(attempts) == Backoff(attempts)
  {
    if attempts >= 6 {
      PowersGrow(attempts);
    } else {
      assert PowerOfTwo(0) == 1 && PowerOfTwo(1) == 2 && PowerOfTwo(2) == 4;
      assert PowerOfTwo(3) == 8 && PowerOfTwo(4) == 16 && PowerOfTwo(5) == 32;
    }
  }

  // ---------------------------------------------------------------- waiting for a time

  /** Job `j` can be claimed at any time from `due` on, by anyone, and at no time before. */
  ghost predicate ClaimableFrom(s: Store, j: JobId, due: Time) {
    && Located(s, j)
    && (forall c: Command :: c.ClaimNext? && c.job == j && c.now >= due ==> Step(s, c).1.Claimed?)
    && (forall c: Command :: c.ClaimNext? && c.job == j && c.now < due ==> Step(s, c) == (s, Nothing))
  }

  /** No claim of job `j` comes before `due`. */
  ghost predicate NoClaimFrom(commands: seq<Command>, j: JobId, due: Time) {
    forall c :: c in commands && c.ClaimNext? && c.job == j ==> c.now < due
  }

  lemma QueuedIsClaimable(s: Store, j: JobId)
    requires Consistent(s) && j in s.jobs && s.jobs[j].status == JobQueued
    ensures ClaimableFrom(s, j, s.jobs[j].availableAt)
  {
    assert Located(s, j) && STEADY(LineOf(s, j));
    forall c: Command | c.ClaimNext? && c.job == j
      ensures c.now >= s.jobs[j].availableAt ==> Step(s, c).1.Claimed?
      ensures c.now < s.jobs[j].availableAt ==> Step(s, c) == (s, Nothing) {
      if c.now >= s.jobs[j].availableAt {
        ClaimKeepsStep(LineOf(s, j), c.worker, c.seconds, c.now);
      }
    }
  }

  /** Only a claim that is due moves a queued job. */
  lemma QueuedWaits(s: Store, c: Command, j: JobId)
    requires Consistent(s) && j in s.jobs && s.jobs[j].status == JobQueued
    requires c.ClaimNext? && c.job == j ==> c.now < s.jobs[j].availableAt
    ensures Located(s, j) && Located(Step(s, c).0, j) && LineOf(Step(s, c).0, j) == LineOf(s, j)
  {
    if ByWorker(c) {
      WorkerStepLine(s, c, j);
    } else {
      HumanStepLine(s, c, j);
    }
  }

  lemma {:induction false} QueuedKeepsWaiting(s: Store, commands: seq<Command>, j: JobId)
    requires Consistent(s) && j in s.jobs && s.jobs[j].status == JobQueued
    requires NoClaimFrom(commands, j, s.jobs[j].availableAt)
    ensures Consistent(Run(s, commands)) && Located(s, j) && Located(Run(s, commands), j)
    ensures LineOf(Run(s, commands), j) == LineOf(s, j)
    decreases |commands|
  {
    if commands == [] {
      assert Located(s, j);
    } else {
      var front, c := commands[..|commands| - 1], commands[|commands| - 1];
      QueuedKeepsWaiting(s, front, j);
      StepKeepsConsistent(Run(s, front), c);
      assert c in commands;
      QueuedWaits(Run(s, front), c, j);
    }
  }

  /** A queued job stays claimable from the same time on, whatever happens before somebody claims it. */
  lemma QueuedStaysClaimable(s: Store, commands: seq<Command>, j: JobId)
    requires Consistent(s) && j in s.jobs && s.jobs[j].status == JobQueued
    requires NoClaimFrom(commands, j, s.jobs[j].availableAt)
    ensures ClaimableFrom(Run(s, commands), j, s.jobs[j].availableAt)
  {
    QueuedKeepsWaiting(s, commands, j);
    QueuedIsClaimable(Run(s, commands), j);
  }

  lemma RetryIsScheduled(s: Store, c: Command)
    requires Consistent(s) && c.FailJob? && c.retryable && Step(s, c).1 == Ok
    requires c.claim.id in s.jobs && s.jobs[c.claim.id].attempts < s.jobs[c.claim.id].maxAttempts
    ensures var t := Step(s, c).0; var j := c.claim.id;
      && Consistent(t) && j in t.jobs && t.jobs[j].status == JobQueued
      && t.jobs[j].availableAt == c.now + Backoff(s.jobs[j].attempts)
  {
    var j := c.claim.id;
    OnlyTheOwnerSettles(s, c);
    StepKeepsConsistent(s, c);
    WorkerStepLine(s, c, j);
    FailKeepsStep(LineOf(s, j), c.worker, c.code, c.detail, c.retryable, c.now);
    DelayIsBackoff(s.jobs[j].attempts);
  }

  /**
   * After an accepted retryable failure with attempts left the job can be claimed from min(2^attempts, 60) seconds
   * later on and not before, whatever other commands come in between.
   */
  lemma FailureBacksOff(s: Store, c: Command, commands: seq<Command>)
    requires Consistent(s) && c.FailJob? && c.retryable && Step(s, c).1 == Ok
    requires c.claim.id in s.jobs && s.jobs[c.claim.id].attempts < s.jobs[c.claim.id].maxAttempts
    requires NoClaimFrom(commands, c.claim.id, c.now + Backoff(s.jobs[c.claim.id].attempts))
    ensures ClaimableFrom(Run(Step(s, c).0, commands), c.claim.id, c.now + Backoff(s.jobs[c.claim.id].attempts))
  {
    RetryIsScheduled(s, c);
    QueuedStaysClaimable(Step(s, c).0, commands, c.claim.id);
  }

  lemma NewJobIsQueued(s: Store, c: Command)
    requires Consistent(s) && c.Enqueue? && Step(s, c).1 == Ok
    ensures var t := Step(s, c).0;
      && Consistent(t) && c.job in t.jobs && t.jobs[c.job].status == JobQueued && t.jobs[c.job].availableAt == c.now
      && t.jobs[c.job].attempts == 0 && t.jobs[c.job].maxAttempts == 3
      && t.jobs[c.job].taskType == c.taskType && t.jobs[c.job].payload == c.payload && t.jobs[c.job].runId == c.run
  {
    StepKeepsConsistent(s, c);
  }

  /** A new job can be claimed at once, and three times before a human has to step in. */
  lemma NewJobIsClaimable(s: Store, c: Command, commands: seq<Command>)
    requires Consistent(s) && c.Enqueue? && Step(s, c).1 == Ok && NoClaimFrom(commands, c.job, c.now)
    ensures ClaimableFrom(Run(Step(s, c).0, commands), c.job, c.now)
    ensures c.job in Step(s, c).0.jobs && Step(s, c).0.jobs[c.job].maxAttempts == 3
      && Step(s, c).0.jobs[c.job].attempts == 0
  {
    NewJobIsQueued(s, c);
    QueuedStaysClaimable(Step(s, c).0, commands, c.job);
  }

  lemma RetriedIsQueued(s: Store, c: Command, j: JobId)
    requires Consistent(s) && c.RetryRun? && Step(s, c).1 == Ok && j in s.jobs && s.jobs[j].runId == c.run
    ensures var t := Step(s, c).0;
      && Consistent(t) && j in t.jobs && t.jobs[j].status == JobQueued && t.jobs[j].availableAt == c.now
      && t.jobs[j].attempts == 0 && t.jobs[j].maxAttempts == s.jobs[j].maxAttempts
      && t.jobs[j].errorCode == None && t.jobs[j].errorDetail == None
      && c.run in t.runs && t.runs[c.run].state.errorCode == None && t.runs[c.run].state.errorDetail == None
  {
    StepKeepsConsistent(s, c);
    HumanStepLine(s, c, j);
  }

  /** A human retry makes the run's job claimable at once again, with all its attempts and without its old error. */
  lemma RetryMakesClaimable(s: Store, c: Command, j: JobId, commands: seq<Command>)
    requires Consistent(s) && c.RetryRun? && Step(s, c).1 == Ok && j in s.jobs && s.jobs[j].runId == c.run
    requires NoClaimFrom(commands, j, c.now)
    ensures ClaimableFrom(Run(Step(s, c).0, commands), j, c.now)
    ensures j in Step(s, c).0.jobs && Step(s, c).0.jobs[j].attempts == 0 && Step(s, c).0.jobs[j].errorCode == None
  {
    RetriedIsQueued(s, c, j);
    QueuedStaysClaimable(Step(s, c).0, commands, j);
  }

  // ---------------------------------------------------------------- what a human asks for

  /** All rows of the other runs are as they were. */
  ghost predicate OthersKept(s: Store, t: Store, r: RunId) {
    && (forall j :: j in s.jobs && s.jobs[j].runId != r ==> j in t.jobs && t.jobs[j] == s.jobs[j])
    && (forall q :: q in s.runs && q != r ==> q in t.runs && t.runs[q] == s.runs[q])
    && (forall q :: q in s.log && q != r ==> q in t.log && t.log[q] == s.log[q])
    && t.projects == s.projects
  }

  /** The job, its run and its log just after the request. */
  ghost predicate ShowsRequest(t: Store, c: Command)
    requires c.Enqueue?
  {
    && c.job in t.jobs && c.run in t.runs && c.run in t.log
    && var (job, row) := (t.jobs[c.job], t.runs[c.run]);
    && job.runId == c.run && job.taskType == c.taskType && job.payload == c.payload && job.status == JobQueued
    && job.availableAt == job.createdAt == c.now && job.leaseOwner == None && job.leaseExpiresAt == None
    && job.errorCode == job.errorDetail == None
    && row.projectId == c.projectId && row.idempotencyKey == c.idempotencyKey && row.kind == c.taskType
    && row.state.status == Queued && row.state.version == 1 && row.state.startedAt == row.state.finishedAt == None
    && t.log[c.run] == [RunQueued(c.actor)]
  }

  /** The project has no run with this key. */
  ghost predicate KeyFree(s: Store, projectId: nat, key: string) {
    forall r :: r in s.runs ==> !(s.runs[r].projectId == projectId && s.runs[r].idempotencyKey == key)
  }

  lemma KeyFreeExactly(s: Store, projectId: nat, key: string)
    ensures KeyFree(s, projectId, key) <==> RunsWithKey(s, projectId, key) == {}
  {
    assert KeyFree(s, projectId, key) <==> forall r :: r in s.runs ==> r !in RunsWithKey(s, projectId, key);
  }

  lemma EnqueuedIsShown(s: Store, c: Command)
    requires c.Enqueue? && c.run !in s.runs && c.run !in s.log && c.job !in s.jobs
    ensures ShowsRequest(Enqueued(s, c), c) && OthersKept(s, Enqueued(s, c), c.run)
    ensures Enqueued(s, c).jobs.Keys == s.jobs.Keys + {c.job} && Enqueued(s, c).runs.Keys == s.runs.Keys + {c.run}
  {
  }

  /** A request of a known project is accepted if and only if the project has no run with its key yet. */
  lemma RequestExactly(s: Store, c: Command)
    requires Consistent(s) && c.Enqueue? && c.projectId in s.projects
    requires c.run !in s.runs && c.run !in s.log && c.job !in s.jobs
    ensures Step(s, c).1 == Ok <==> KeyFree(s, c.projectId, c.idempotencyKey)
    ensures Step(s, c).1 == Ok ==> ShowsRequest(Step(s, c).0, c) && OthersKept(s, Step(s, c).0, c.run)
    ensures Step(s, c).1 == Ok ==>
      Step(s, c).0.jobs.Keys == s.jobs.Keys + {c.job} && Step(s, c).0.runs.Keys == s.runs.Keys + {c.run}
  {
    KeyFreeExactly(s, c.projectId, c.idempotencyKey);
    EnqueuedIsShown(s, c);
  }

  ghost predicate KeyUsed(log: seq<Event>, key: string) {
    exists actor :: RunRetried(actor, key) in log
  }

  lemma KeyUsedExactly(log: seq<Event>, key: string)
    ensures KeyUsed(log, key) <==> AlreadyRetried(log, key)
  {
    if AlreadyRetried(log, key) {
      var i :| 0 <= i < |log| && log[i].RunRetried? && log[i].commandKey == key;
      assert RunRetried(log[i].actor, key) in log;
    }
    if actor :| RunRetried(actor, key) in log {
      var i :| 0 <= i < |log| && log[i] == RunRetried(actor, key);
    }
  }

  /** The run and its log just after the retry. */
  ghost predicate ShowsRetry(s: Store, t: Store, c: Command)
    requires c.RetryRun? && c.run in s.runs && c.run in s.log
  {
    && c.run in t.runs && c.run in t.log
    && var (before, row) := (s.runs[c.run], t.runs[c.run]);
    && row.projectId == before.projectId && row.idempotencyKey == before.idempotencyKey && row.kind == before.kind
    && row.state.status == Queued && row.state.version == before.state.version + 1
    && row.state.checkpoint == before.state.checkpoint && row.state.startedAt == before.state.startedAt
    && row.state.finishedAt == None && row.state.errorCode == row.state.errorDetail == None
    && t.log[c.run] == s.log[c.run] + [RunRetried(c.actor, c.commandKey)]
    && t.jobs.Keys == s.jobs.Keys && t.runs.Keys == s.runs.Keys
  }

  lemma FailedIsRetried(s: Store, r: RunId)
    requires Consistent(s) && r in s.runs
    ensures s.runs[r].state.status == NeedsAttention ==> FailedJobs(s, r) != {}
  {
    assert HasJob(s, r);
    var j :| j in s.jobs && s.jobs[j].runId == r;
    assert Located(s, j) && STEADY(LineOf(s, j));
    InStepAgrees(LineOf(s, j));
    assert s.jobs[j].status == JobFailed ==> j in FailedJobs(s, r);
  }

  lemma RetriedIsShown(s: Store, c: Command)
    requires c.RetryRun? && c.run in s.runs && c.run in s.log
    ensures ShowsRetry(s, Retried(s, c), c) && OthersKept(s, Retried(s, c), c.run)
  {
  }

  /** A human retry is accepted if and only if its key is new to the run and the run asks for a human. */
  lemma RetryExactly(s: Store, c: Command)
    requires Consistent(s) && c.RetryRun? && c.run in s.runs && c.run in s.log
    ensures Step(s, c).1 == Ok
      <==> s.runs[c.run].state.status == NeedsAttention && !KeyUsed(s.log[c.run], c.commandKey)
    ensures Step(s, c).1 == Ok ==> ShowsRetry(s, Step(s, c).0, c) && OthersKept(s, Step(s, c).0, c.run)
    ensures Step(s, c).1 != Ok ==> Step(s, c).0 == s
    ensures KeyUsed(s.log[c.run], c.commandKey) <==> Step(s, c).1 == Replayed
  {
    KeyUsedExactly(s.log[c.run], c.commandKey);
    FailedIsRetried(s, c.run);
    RetriedIsShown(s, c);
  }

  lemma PutTouchesOneRun(s: Store, j: JobId, l: Line)
    requires Located(s, j)
    ensures OthersKept(s, Put(s, j, l), s.jobs[j].runId)
    ensures Put(s, j, l).jobs.Keys == s.jobs.Keys && Put(s, j, l).runs.Keys == s.runs.Keys
  {
  }

  /** A worker's command leaves all other runs as they were. */
  lemma WorkersTouchOneRun(s: Store, c: Command)
    requires Consistent(s) && ByWorker(c)
    ensures if Target(c) in s.jobs then OthersKept(s, Step(s, c).0, s.jobs[Target(c)].runId) else Step(s, c).0 == s
    ensures Step(s, c).0.jobs.Keys == s.jobs.Keys && Step(s, c).0.runs.Keys == s.runs.Keys
  {
    WorkerStepIsPut(s, c);
    if Takes(s, c) {
      PutTouchesOneRun(s, Target(c), Worked(LineOf(s, Target(c)), c));
    }
  }

  // ---------------------------------------------------------------- while leased

  /** While a lease is in force nobody can claim the job; from its expiry on anyone can, or it is given up. */
  lemma LeaseShutsOthersOut(s: Store, k: Command, commands: seq<Command>, c: Command)
    requires Consistent(s) && k.ClaimNext? && Step(s, k).1.Claimed? && c.ClaimNext? && c.job == k.job
    requires Undisturbed(commands, k.job, k.worker, k.now + k.seconds)
    ensures var t := Run(Step(s, k).0, commands);
      && k.job in t.jobs && t.jobs[k.job].leaseOwner == Some(k.worker)
      && (c.now < k.now + k.seconds ==> Step(t, c) == (t, Nothing))
      && (c.now >= k.now + k.seconds ==>
            (Step(t, c).1.Claimed? <==> t.jobs[k.job].attempts < t.jobs[k.job].maxAttempts) && Step(t, c).0 != t)
  {
    var s1 := Step(s, k).0;
    ClaimTakesLease(s, k);
    LeaseIsLast(s, k);
    LeaseTerms(LineOf(s, k.job), k);
    LeaseHolds(s1, commands, k.job);
    var t := Run(s1, commands);
    assert STEADY(LineOf(t, k.job));
    if c.now >= k.now + k.seconds {
      ClaimKeepsStep(LineOf(t, k.job), c.worker, c.seconds, c.now);
      WorkerStepLine(t, c, k.job);
    }
  }

  // ---------------------------------------------------------------- after the end

  predicate Over(status: JobStatus) {
    status == JobCompleted || status == JobFailed
  }

  lemma OverStays(s: Store, c: Command, j: JobId)
    requires Consistent(s) && j in s.jobs && Over(s.jobs[j].status)
    requires s.jobs[j].status == JobFailed ==> !(c.RetryRun? && c.run == s.jobs[j].runId)
    ensures Located(s, j) && Located(Step(s, c).0, j) && LineOf(Step(s, c).0, j) == LineOf(s, j)
  {
    if ByWorker(c) {
      WorkerStepLine(s, c, j);
    } else {
      HumanStepLine(s, c, j);
    }
  }

  /** A completed job is never touched again, and a failed one only by a human retry of its run. */
  lemma {:induction false} EndsForGood(s: Store, commands: seq<Command>, j: JobId)
    requires Consistent(s) && j in s.jobs && Over(s.jobs[j].status)
    requires s.jobs[j].status == JobFailed ==> forall c :: c in commands ==> !(c.RetryRun? && c.run == s.jobs[j].runId)
    ensures Consistent(Run(s, commands)) && Located(s, j) && Located(Run(s, commands), j)
    ensures LineOf(Run(s, commands), j) == LineOf(s, j)
    decreases |commands|
  {
    if commands == [] {
      assert Located(s, j);
    } else {
      var front, c := commands[..|commands| - 1], commands[|commands| - 1];
      EndsForGood(s, front, j);
      StepKeepsConsistent(Run(s, front), c);
      assert c in commands;
      OverStays(Run(s, front), c, j);
    }
  }

  // ---------------------------------------------------------------- what a failure shows

  /** The text itself, or its first `n` characters. */
  ghost predicate CutTo(shown: Option<string>, text: string, n: nat) {
    shown.Some? && |shown.value| <= n && shown.value <= text && (|text| <= n ==> shown.value == text)
      && (|text| > n ==> |shown.value| == n)
  }

  /**
   * A failure is shown on the job and on its run, cut to 80 and 1000 characters, and the run asks for a human or waits.
   */
  lemma FailureIsShown(s: Store, c: Command)
    requires Consistent(s) && c.FailJob? && Step(s, c).1 == Ok
    ensures c.claim.id in s.jobs && Located(Step(s, c).0, c.claim.id)
    ensures var l := LineOf(Step(s, c).0, c.claim.id);
      && CutTo(l.job.errorCode, c.code, 80) && CutTo(l.job.errorDetail, c.detail, 1000)
      && l.run.errorCode == l.job.errorCode && l.run.errorDetail == l.job.errorDetail
      && l.run.checkpoint == (if l.job.taskType == "" then LineOf(s, c.claim.id).run.checkpoint else l.job.taskType)
      && l.job.leaseOwner == None && l.job.leaseExpiresAt == None
      && l.run.status == (if c.retryable && s.jobs[c.claim.id].attempts < s.jobs[c.claim.id].maxAttempts
                          then RetryWait else NeedsAttention)
  {
    OnlyTheOwnerSettles(s, c);
    WorkerStepLine(s, c, c.claim.id);
    FailKeepsStep(LineOf(s, c.claim.id), c.worker, c.code, c.detail, c.retryable, c.now);
  }

  /** The lease of the last attempt has run out. */
  ghost predicate LastLeaseIsOver(s: Store, job: nat, now: int) {
    && job in s.jobs && s.jobs[job].status == JobLeased && s.jobs[job].attempts == s.jobs[job].maxAttempts
    && s.jobs[job].leaseExpiresAt.Some? && s.jobs[job].leaseExpiresAt.value <= now
  }

  ghost predicate ShowsExpiry(l: Line, worker: string, attempts: nat) {
    && l.job.status == JobFailed && l.run.status == NeedsAttention
    && l.job.errorCode == l.run.errorCode == Some("lease_expired")
    && l.job.errorDetail == l.run.errorDetail == Some("worker lease expired after the final allowed attempt")
    && l.job.leaseOwner == None && l.job.leaseExpiresAt == None
    && l.log != [] && l.log[|l.log| - 1..] == [JobQueue.Failed(worker, attempts, "lease_expired")]
  }

  /** A last lease that has run out fails the job in the same way, under a code of its own. */
  lemma ExpiryIsShown(s: Store, c: Command)
    requires Consistent(s) && c.ClaimNext? && LastLeaseIsOver(s, c.job, c.now)
    ensures Step(s, c).1 == Nothing && Located(Step(s, c).0, c.job)
    ensures ShowsExpiry(LineOf(Step(s, c).0, c.job), c.worker, s.jobs[c.job].attempts)
  {
    WorkerStepLine(s, c, c.job);
    ClaimKeepsStep(LineOf(s, c.job), c.worker, c.seconds, c.now);
  }

  /** A completion ends job and run together and without an error on the run. */
  lemma CompletionIsShown(s: Store, c: Command)
    requires Consistent(s) && c.CompleteJob? && Step(s, c).1 == Ok
    ensures c.claim.id in s.jobs && Located(Step(s, c).0, c.claim.id)
    ensures var l := LineOf(Step(s, c).0, c.claim.id);
      && l.job.status == JobCompleted && l.job.leaseOwner == None && l.job.leaseExpiresAt == None
      && l.run.status == Succeeded && l.run.checkpoint == "completed" && l.run.finishedAt == Some(c.now)
      && l.run.errorCode == None && l.run.errorDetail == None
  {
    OnlyTheOwnerSettles(s, c);
    WorkerStepLine(s, c, c.claim.id);
    CompleteKeepsStep(LineOf(s, c.claim.id), c.claim, c.worker, c.now);
  }

  /** A claim shows the task as the run's checkpoint, clears the run's error and keeps its first start time. */
  lemma ClaimIsShown(s: Store, c: Command)
    requires Consistent(s) && c.ClaimNext? && Step(s, c).1.Claimed?
    ensures c.job in s.jobs && Located(s, c.job) && Located(Step(s, c).0, c.job)
    ensures Step(s, c).1.claim == ClaimedJob(c.job, s.jobs[c.job].runId, s.jobs[c.job].attempts + 1)
    ensures var before, l := LineOf(s, c.job), LineOf(Step(s, c).0, c.job);
      && l.run.status == Running
      && (before.run.status != Running ==>
            && (l.job.taskType != "" ==> l.run.checkpoint == l.job.taskType)
            && l.run.errorCode == None && l.run.errorDetail == None)
      && (before.run.status == Running ==> l.run == before.run)
      && (before.run.startedAt == None && before.run.status != Running ==> l.run.startedAt == Some(c.now))
      && (before.run.startedAt.Some? ==> l.run.startedAt == before.run.startedAt)
      && l.job.errorCode == before.job.errorCode
  {
    ClaimTakesLease(s, c);
    WorkerStepLine(s, c, c.job);
    ClaimKeepsStep(LineOf(s, c.job), c.worker, c.seconds, c.now);
  }

  // ---------------------------------------------------------------- which job is next

  /** Among the jobs that could be claimed the one that became available first is taken, the older one of two equals. */
  lemma EarliestIsNext(jobs: map<JobId, Job>, locked: set<JobId>, j: JobId, i: JobId, now: Time)
    requires IsNext(jobs, locked, j, now) && i in jobs && i !in locked && Claimable(jobs[i], now)
    ensures jobs[j].availableAt <= jobs[i].availableAt
    ensures jobs[j].availableAt == jobs[i].availableAt ==> jobs[j].createdAt <= jobs[i].createdAt
  {
  }

  // ---------------------------------------------------------------- what becomes of a handler's outcome

  /**
   * A handler that returns completes its job; one that is missing fails it for good; a crash, or a failure that may
   * be tried again, is tried again while attempts are left; and the reason is shown.
   */
  lemma OutcomesAreSettled(s: Store, outcome: HandlerOutcome, job: ClaimedJob, worker: string, now: Time)
    requires Consistent(s) && Located(s, job.id) && Owns(s.jobs[job.id], worker)
    ensures job.id in Step(s, SettlingCommand(outcome, job, worker, now)).0.jobs
    ensures var after := Step(s, SettlingCommand(outcome, job, worker, now)).0.jobs[job.id];
      && var left := s.jobs[job.id].attempts < s.jobs[job.id].maxAttempts;
      && (outcome.Returned? ==> after.status == JobCompleted)
      && (outcome.MissingHandler? ==> after.status == JobFailed && after.errorCode == Some("unknown_task_type"))
      && (outcome.ExecutionError? ==>
            && after.status == (if outcome.retryable && left then JobQueued else JobFailed)
            && CutTo(after.errorCode, outcome.name, 80) && CutTo(after.errorDetail, outcome.detail, 1000))
      && (outcome.Crashed? ==>
            && after.status == (if left then JobQueued else JobFailed)
            && CutTo(after.errorCode, outcome.name, 80) && CutTo(after.errorDetail, outcome.detail, 1000))
  {
    var c := SettlingCommand(outcome, job, worker, now);
    OwnedSettlement(s, c);
    if c.FailJob? {
      FailureIsShown(s, c);
    }
  }
}
