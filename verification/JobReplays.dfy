/** Whole histories of the queue: commands that are repeated, and claims that are kept too long. */
module JobReplays {
  import opened RunState
  import opened JobQueue

  // ---------------------------------------------------------------- what no command ever changes

  /** The project, the keys of runs and the requests behind jobs stay as they were enqueued. */
  ghost predicate RequestsKept(s: Store, t: Store) {
    && s.projects == t.projects
    && (forall r :: r in s.runs ==> r in t.runs && SameKey(s.runs[r], t.runs[r]))
    && (forall j :: j in s.jobs ==> j in t.jobs && SameRequest(s.jobs[j], t.jobs[j]))
  }

  predicate SameRequest(a: Job, b: Job) {
    a.runId == b.runId && a.taskType == b.taskType && a.payload == b.payload
  }

  lemma WorkedKeepsRequest(l: Line, c: Command)
    requires ByWorker(c) && InStep(l) && Admitted(l.job, c)
    ensures SameRequest(l.job, Worked(l, c).job)
  {
    if c.ClaimNext? {
      ClaimMovesOn(l, c);
    } else if c.CompleteJob? {
      CompleteMovesOn(l, c);
    } else {
      FailMovesOn(l, c);
    }
  }

  lemma PutKeepsRequests(s: Store, j: JobId, l: Line)
    requires Located(s, j) && SameRequest(s.jobs[j], l.job)
    ensures RequestsKept(s, Put(s, j, l))
  {
  }

  lemma WorkerKeepsRequests(s: Store, c: Command)
    requires Consistent(s) && ByWorker(c)
    ensures RequestsKept(s, Step(s, c).0)
  {
    WorkerStepIsPut(s, c);
    if Takes(s, c) {
      var l := LineOf(s, Target(c));
      assert STEADY(l);
      WorkedKeepsRequest(l, c);
      PutKeepsRequests(s, Target(c), Worked(l, c));
    }
  }

  lemma EnqueueKeepsRequests(s: Store, c: Command)
    requires c.Enqueue?
    ensures RequestsKept(s, Step(s, c).0)
  {
    if Step(s, c).1 == Ok {
      assert Step(s, c).0 == Enqueued(s, c);
    }
  }

  lemma RetryKeepsRequests(s: Store, c: Command)
    requires Linked(s) && c.RetryRun?
    ensures RequestsKept(s, Step(s, c).0)
  {
    if Step(s, c).1 == Ok {
      var i := RetryIsAccepted(s, c);
      RetriedIsPut(s, c, i);
      PutKeepsRequests(s, i, Retry(LineOf(s, i), c.commandKey, c.actor, c.now));
    }
  }

  lemma StepKeepsRequests(s: Store, c: Command)
    requires Consistent(s)
    ensures RequestsKept(s, Step(s, c).0)
  {
    if ByWorker(c) {
      WorkerKeepsRequests(s, c);
    } else if c.Enqueue? {
      EnqueueKeepsRequests(s, c);
    } else {
      RetryKeepsRequests(s, c);
    }
  }

  lemma RequestsKeptTrans(s: Store, t: Store, u: Store)
    requires RequestsKept(s, t) && RequestsKept(t, u)
    ensures RequestsKept(s, u)
  {
  }

  lemma {:induction false} RunKeepsRequests(s: Store, commands: seq<Command>)
    requires Consistent(s)
    ensures RequestsKept(s, Run(s, commands))
    decreases |commands|
  {
    if commands != [] {
      var front := commands[..|commands| - 1];
      RunKeepsRequests(s, front);
      RunKeepsConsistent(s, front);
      StepKeepsRequests(Run(s, front), commands[|commands| - 1]);
      RequestsKeptTrans(s, Run(s, front), Run(s, commands));
    }
  }

  // ---------------------------------------------------------------- repeated commands

  /** Two enqueue commands for one request; the identifiers they would use and their times may differ. */
  predicate SameEnqueue(c: Command, d: Command) {
    && c.Enqueue? && d.Enqueue? && c.projectId == d.projectId && c.idempotencyKey == d.idempotencyKey
    && c.taskType == d.taskType && c.payload == d.payload
  }

  /** The run and the job stand for this request. */
  ghost predicate StandsFor(s: Store, c: Command, r: RunId, j: JobId)
    requires c.Enqueue?
  {
    && c.projectId in s.projects && r in s.runs && s.runs[r].projectId == c.projectId
    && s.runs[r].idempotencyKey == c.idempotencyKey
    && j in s.jobs && s.jobs[j].runId == r && s.jobs[j].taskType == c.taskType && s.jobs[j].payload == c.payload
  }

  lemma NewRunStands(s: Store, c: Command)
    requires c.Enqueue? && Step(s, c).1 == Ok
    ensures StandsFor(Step(s, c).0, c, c.run, c.job)
  {
    assert Step(s, c).0 == Enqueued(s, c);
  }

  lemma ReplayedRunStands(s: Store, c: Command) returns (r: RunId, j: JobId)
    requires c.Enqueue? && Step(s, c).1 == Replayed
    ensures Step(s, c).0 == s && StandsFor(s, c, r, j)
  {
    j :| j in s.jobs && s.jobs[j].runId in RunsWithKey(s, c.projectId, c.idempotencyKey)
      && s.jobs[j].taskType == c.taskType && s.jobs[j].payload == c.payload;
    r := s.jobs[j].runId;
  }

  /** The run and the job that an accepted command has created or found. */
  lemma EnqueuedIsFound(s: Store, c: Command) returns (r: RunId, j: JobId)
    requires c.Enqueue? && Step(s, c).1 in {Ok, Replayed}
    ensures StandsFor(Step(s, c).0, c, r, j)
  {
    if Step(s, c).1 == Ok {
      NewRunStands(s, c);
      return c.run, c.job;
    }
    r, j := ReplayedRunStands(s, c);
  }

  lemma StandsForEver(s: Store, c: Command, commands: seq<Command>) returns (r: RunId, j: JobId)
    requires Consistent(s) && c.Enqueue? && Step(s, c).1 in {Ok, Replayed}
    ensures Consistent(Run(Step(s, c).0, commands)) && StandsFor(Run(Step(s, c).0, commands), c, r, j)
  {
    r, j := EnqueuedIsFound(s, c);
    var first := Step(s, c).0;
    StepKeepsConsistent(s, c);
    RunKeepsRequests(first, commands);
    RunKeepsConsistent(first, commands);
    assert SameKey(first.runs[r], Run(first, commands).runs[r])
      && SameRequest(first.jobs[j], Run(first, commands).jobs[j]);
  }

  lemma StandingIsReplayed(t: Store, c: Command, r: RunId, j: JobId, again: Command)
    requires c.Enqueue? && StandsFor(t, c, r, j) && SameEnqueue(c, again)
    ensures Step(t, again) == (t, Replayed)
  {
    assert r in RunsWithKey(t, c.projectId, c.idempotencyKey);
  }

  lemma StandingRefusesOthers(t: Store, c: Command, r: RunId, j: JobId, other: Command)
    requires Consistent(t) && c.Enqueue? && StandsFor(t, c, r, j) && other.Enqueue?
    requires other.projectId == c.projectId && other.idempotencyKey == c.idempotencyKey
    requires other.taskType != c.taskType || other.payload != c.payload
    ensures Step(t, other) == (t, JobQueue.Conflict)
  {
    assert r in RunsWithKey(t, c.projectId, c.idempotencyKey);
    var only := KeyFindsOneJob(t, c.projectId, c.idempotencyKey, r);
    assert only == j;
  }

  /** An accepted request, sent again at any later time, creates nothing, whatever became of its run. */
  lemma EnqueueReplaysForever(s: Store, c: Command, commands: seq<Command>, again: Command)
    requires Consistent(s) && Step(s, c).1 in {Ok, Replayed} && SameEnqueue(c, again)
    ensures var t := Run(Step(s, c).0, commands); Step(t, again) == (t, Replayed)
  {
    var r, j := StandsForEver(s, c, commands);
    StandingIsReplayed(Run(Step(s, c).0, commands), c, r, j, again);
  }

  /** Another request under the key of an accepted one is refused at any later time. */
  lemma OtherRequestIsRefused(s: Store, c: Command, commands: seq<Command>, other: Command)
    requires Consistent(s) && c.Enqueue? && Step(s, c).1 in {Ok, Replayed} && other.Enqueue?
    requires other.projectId == c.projectId && other.idempotencyKey == c.idempotencyKey
    requires other.taskType != c.taskType || other.payload != c.payload
    ensures var t := Run(Step(s, c).0, commands); Step(t, other) == (t, JobQueue.Conflict)
  {
    var r, j := StandsForEver(s, c, commands);
    StandingRefusesOthers(Run(Step(s, c).0, commands), c, r, j, other);
  }

  lemma RetriedStays(s: Store, t: Store, j: JobId, key: string)
    requires Continues(s, t, j) && AlreadyRetried(LineOf(s, j).log, key)
    ensures AlreadyRetried(LineOf(t, j).log, key)
  {
    var before, after := LineOf(s, j).log, LineOf(t, j).log;
    var i :| 0 <= i < |before| && before[i].RunRetried? && before[i].commandKey == key;
    PrefixEvent(before, after, i);
  }

  /** The job that an accepted retry requeues, and the key in its run's log. */
  lemma RetryIsLogged(s: Store, c: Command) returns (j: JobId)
    requires Consistent(s) && c.RetryRun? && Step(s, c).1 == Ok
    ensures j in Step(s, c).0.jobs && Located(Step(s, c).0, j) && Step(s, c).0.jobs[j].runId == c.run
    ensures AlreadyRetried(LineOf(Step(s, c).0, j).log, c.commandKey)
  {
    j := RetryIsAccepted(s, c);
    RetriedIsPut(s, c, j);
    var l := Retry(LineOf(s, j), c.commandKey, c.actor, c.now);
    PutLinked(s, j, l);
    assert l.log[|LineOf(s, j).log|] == RunRetried(c.actor, c.commandKey);
  }

  lemma LoggedRetryIsReplayed(t: Store, j: JobId, again: Command)
    requires Located(t, j) && again.RetryRun? && again.run == t.jobs[j].runId
    requires AlreadyRetried(LineOf(t, j).log, again.commandKey)
    ensures Step(t, again) == (t, Replayed)
  {
  }

  /** An accepted retry, sent again at any later time, changes nothing, even if the run has failed again. */
  lemma RetryReplaysForever(s: Store, c: Command, commands: seq<Command>, again: Command)
    requires Consistent(s) && c.RetryRun? && Step(s, c).1 == Ok
    requires again.RetryRun? && again.run == c.run && again.commandKey == c.commandKey
    ensures var t := Run(Step(s, c).0, commands); Step(t, again) == (t, Replayed)
  {
    var j := RetryIsLogged(s, c);
    StepKeepsConsistent(s, c);
    RunContinues(Step(s, c).0, commands, j);
    RetriedStays(Step(s, c).0, Run(Step(s, c).0, commands), j, c.commandKey);
    LoggedRetryIsReplayed(Run(Step(s, c).0, commands), j, again);
  }

  // ---------------------------------------------------------------- claims kept past their lease

  const ENQUEUE := Enqueue(0, "key", "task", "", "human", 0, 0, 0)
  const QUEUED := Line(NewJob(0, "task", "", 0), NEW_RUN, [RunQueued("human")])

  function ClaimAt(worker: string, now: Time): Command {
    ClaimNext(0, worker, 10, now)
  }

  /** The line after a claim at each of the times. */
  function ClaimedLine(l: Line, worker: string, now: Time): Line {
    Worked(l, ClaimAt(worker, now))
  }

  /** The store holds job 0 on this line. */
  ghost predicate Holds(s: Store, l: Line) {
    Consistent(s) && Located(s, 0) && LineOf(s, 0) == l
  }

  lemma EnqueueHolds()
    ensures Holds(Step(EmptyStore({0}), ENQUEUE).0, QUEUED)
  {
    var s := EmptyStore({0});
    EveryInterleavingIsConsistent({0}, []);
    assert Consistent(s);
    StepKeepsConsistent(s, ENQUEUE);
    assert RunsWithKey(s, 0, "key") == {};
    EnqueueLines(s, ENQUEUE);
  }

  lemma ClaimHolds(s: Store, l: Line, worker: string, now: Time)
    requires Holds(s, l) && Claimable(l.job, now)
    ensures Holds(Step(s, ClaimAt(worker, now)).0, ClaimedLine(l, worker, now))
  {
    WorkerStepLine(s, ClaimAt(worker, now), 0);
    StepKeepsConsistent(s, ClaimAt(worker, now));
  }

  lemma RunStep(s: Store, commands: seq<Command>, c: Command)
    ensures Run(s, commands + [c]) == Step(Run(s, commands), c).0
  {
    assert (commands + [c])[..|commands|] == commands;
  }

  /** A settlement that the store accepts, of lease `i` of job 0 but not of any other. */
  ghost predicate SettlesOnly(t: Store, c: Command, i: nat)
    requires Settles(c)
  {
    Step(t, c).1 == Ok && forall m: nat :: SettlesLease(t, Step(t, c).0, 0, m) <==> m == i
  }

  lemma LastLeaseOnly(log: seq<Event>, after: seq<Event>, m: nat)
    requires log != [] && log[|log| - 1].Leased? && AppendsSettlement(log, after)
    ensures SettledBy(after, m, |log|) <==> m == |log| - 1
  {
    PrefixEvent(log, after, |log| - 1);
    if m < |log| - 1 {
      assert EndsLease(after[|log| - 1]);
    }
  }

  lemma LatestLeaseIsSettled(t: Store, l: Line, c: Command)
    requires Holds(t, l) && Settles(c) && c.claim.id == 0 && Owns(l.job, c.worker)
    ensures |l.log| > 0 && SettlesOnly(t, c, |l.log| - 1)
  {
    assert STEADY(LineOf(t, 0));
    LeasedLineEndsInLease(l);
    OnlyTheOwnerSettles(t, c);
    SettlementEvent(t, c);
    LastSettlesOnly(t, c, l.log, LineOf(Step(t, c).0, 0).log);
  }

  lemma LastSettlesOnly(t: Store, c: Command, log: seq<Event>, after: seq<Event>)
    requires Settles(c) && Step(t, c).1 == Ok && Located(t, 0) && Located(Step(t, c).0, 0)
    requires log == LineOf(t, 0).log && after == LineOf(Step(t, c).0, 0).log
    requires log != [] && log[|log| - 1].Leased? && AppendsSettlement(log, after)
    ensures SettlesOnly(t, c, |log| - 1)
  {
    forall m: nat ensures SettlesLease(t, Step(t, c).0, 0, m) <==> m == |log| - 1 {
      LastLeaseOnly(log, after, m);
    }
  }

  // The job after one claim and after two.
  function First(worker: string): Line {
    ClaimedLine(QUEUED, worker, 0)
  }

  function Second(worker: string): Line {
    ClaimedLine(First(worker), worker, 20)
  }

  lemma TwoClaims(worker: string)
    ensures Claimable(QUEUED.job, 0) && Claimable(First(worker).job, 20) && Owns(Second(worker).job, worker)
    ensures First(worker).log == [RunQueued("human"), Leased(worker, 1)]
    ensures Second(worker).log == [RunQueued("human"), Leased(worker, 1), Leased(worker, 2)]
    ensures First(worker).job.attempts == 1 && Second(worker).job.status == JobLeased
  {
  }

  /**
   * Ownership is by worker id alone: a claim that is handed out as the lease at event 1 and kept past it is accepted
   * later, complete or fail, and settles the same worker's next lease at event 2 instead.
   */
  lemma StaleClaimSettlesLaterLease(worker: string)
    ensures var s := Run(EmptyStore({0}), [ENQUEUE]);
      var (s1, reply) := Step(s, ClaimAt(worker, 0));
      var t := Run(s1, [ClaimAt(worker, 20)]);
      && Located(s, 0) && |LineOf(s, 0).log| == 1 && reply == Claimed(ClaimedJob(0, 0, 1))
      && SettlesOnly(t, CompleteJob(reply.claim, worker, 21), 2)
      && SettlesOnly(t, FailJob(reply.claim, worker, "stale", "", false, 21), 2)
  {
    var empty := EmptyStore({0});
    RunStep(empty, [], ENQUEUE);
    assert [] + [ENQUEUE] == [ENQUEUE];
    var s := Run(empty, [ENQUEUE]);
    EnqueueHolds();
    TwoClaims(worker);
    ClaimHolds(s, QUEUED, worker, 0);
    ClaimIsAnswered(s, QUEUED, worker, 0);
    var s1 := Step(s, ClaimAt(worker, 0)).0;
    RunStep(s1, [], ClaimAt(worker, 20));
    assert [] + [ClaimAt(worker, 20)] == [ClaimAt(worker, 20)];
    ClaimHolds(s1, First(worker), worker, 20);
    var t := Run(s1, [ClaimAt(worker, 20)]);
    LatestLeaseIsSettled(t, Second(worker), CompleteJob(ClaimedJob(0, 0, 1), worker, 21));
    LatestLeaseIsSettled(t, Second(worker), FailJob(ClaimedJob(0, 0, 1), worker, "stale", "", false, 21));
  }

  lemma ClaimIsAnswered(s: Store, l: Line, worker: string, now: Time)
    requires Holds(s, l) && Claimable(l.job, now) && l.job.attempts < l.job.maxAttempts
    ensures Step(s, ClaimAt(worker, now)).1 == Claimed(ClaimedJob(0, l.job.runId, l.job.attempts + 1))
  {
    assert STEADY(LineOf(s, 0));
    ClaimKeepsStep(l, worker, 10, now);
  }

  // The job after three claims, after the last lease has expired, and after a human retry and one more claim.
  function Third(worker: string): Line {
    ClaimedLine(Second(worker), worker, 40)
  }

  function GivenUp(worker: string): Line {
    ClaimedLine(Third(worker), worker, 60)
  }

  function Reopened(worker: string): Line {
    Retry(GivenUp(worker), "retry", "human", 70)
  }

  function Fourth(worker: string): Line {
    ClaimedLine(Reopened(worker), worker, 80)
  }

  lemma FourClaims(worker: string)
    ensures Claimable(Second(worker).job, 40) && Claimable(Third(worker).job, 60)
      && GivenUp(worker).job.status == JobFailed
    ensures Claimable(Reopened(worker).job, 80) && Owns(Fourth(worker).job, worker) && Fourth(worker).job.attempts == 1
    ensures GivenUp(worker).log == [RunQueued("human"), Leased(worker, 1), Leased(worker, 2), Leased(worker, 3),
                                    JobQueue.Failed(worker, 3, "lease_expired")]
    ensures |Fourth(worker).log| == 7
  {
    TwoClaims(worker);
  }

  lemma RetryHolds(s: Store, l: Line)
    requires Holds(s, l) && l.job.status == JobFailed && l.job.runId == 0 && !AlreadyRetried(l.log, "retry")
    ensures Holds(Step(s, RetryRun(0, "retry", "human", 70)).0, Retry(l, "retry", "human", 70))
  {
    var c := RetryRun(0, "retry", "human", 70);
    assert STEADY(LineOf(s, 0));
    assert 0 in FailedJobs(s, 0);
    StepKeepsConsistent(s, c);
    RetryStepLine(s, c, 0);
  }

  /** Three more claims, each after the last lease has run out; the third one gives the job up. */
  function UntilGivenUp(worker: string): seq<Command> {
    [ClaimAt(worker, 20)] + [ClaimAt(worker, 40)] + [ClaimAt(worker, 60)]
  }

  lemma UntilGivenUpHolds(s1: Store, worker: string)
    requires Holds(s1, First(worker))
    ensures Holds(Run(s1, UntilGivenUp(worker)), GivenUp(worker))
  {
    var c2, c3, c4 := ClaimAt(worker, 20), ClaimAt(worker, 40), ClaimAt(worker, 60);
    TwoClaims(worker);
    FourClaims(worker);
    RunStep(s1, [], c2);
    assert [] + [c2] == [c2] && Run(s1, []) == s1;
    ClaimHolds(s1, First(worker), worker, 20);
    RunStep(s1, [c2], c3);
    ClaimHolds(Run(s1, [c2]), Second(worker), worker, 40);
    RunStep(s1, [c2] + [c3], c4);
    ClaimHolds(Run(s1, [c2] + [c3]), Third(worker), worker, 60);
  }

  /** The commands between the first claim and its use. */
  function UntilFourth(worker: string): seq<Command> {
    UntilGivenUp(worker) + [RetryRun(0, "retry", "human", 70)] + [ClaimAt(worker, 80)]
  }

  lemma UntilFourthHolds(s1: Store, worker: string)
    requires Holds(s1, First(worker))
    ensures Holds(Run(s1, UntilFourth(worker)), Fourth(worker))
  {
    var r := RetryRun(0, "retry", "human", 70);
    UntilGivenUpHolds(s1, worker);
    FourClaims(worker);
    GivenUpIsNew(worker);
    RunStep(s1, UntilGivenUp(worker), r);
    RetryHolds(Run(s1, UntilGivenUp(worker)), GivenUp(worker));
    RunStep(s1, UntilGivenUp(worker) + [r], ClaimAt(worker, 80));
    ClaimHolds(Run(s1, UntilGivenUp(worker) + [r]), Reopened(worker), worker, 80);
  }

  lemma GivenUpIsNew(worker: string)
    ensures GivenUp(worker).job.runId == 0 && !AlreadyRetried(GivenUp(worker).log, "retry")
  {
    FourClaims(worker);
  }

  /**
   * The attempt number does not tell leases apart either: after three expired leases and a human retry the first
   * claim, attempt 1, settles the lease at event 6, which is attempt 1 again.
   */
  lemma StaleClaimSettlesLeaseAfterRetry(worker: string)
    ensures var s := Run(EmptyStore({0}), [ENQUEUE]);
      var (s1, reply) := Step(s, ClaimAt(worker, 0));
      var t := Run(s1, UntilFourth(worker));
      && Located(s, 0) && |LineOf(s, 0).log| == 1 && reply == Claimed(ClaimedJob(0, 0, 1))
      && Located(t, 0) && t.jobs[0].attempts == reply.claim.attempts
      && SettlesOnly(t, CompleteJob(reply.claim, worker, 81), 6)
  {
    var empty := EmptyStore({0});
    RunStep(empty, [], ENQUEUE);
    assert [] + [ENQUEUE] == [ENQUEUE];
    var s := Run(empty, [ENQUEUE]);
    EnqueueHolds();
    TwoClaims(worker);
    FourClaims(worker);
    ClaimHolds(s, QUEUED, worker, 0);
    ClaimIsAnswered(s, QUEUED, worker, 0);
    var s1 := Step(s, ClaimAt(worker, 0)).0;
    UntilFourthHolds(s1, worker);
    LatestLeaseIsSettled(Run(s1, UntilFourth(worker)), Fourth(worker), CompleteJob(ClaimedJob(0, 0, 1), worker, 81));
  }
}
