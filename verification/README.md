# GameCrafter backend: verified model

GameCrafter turns public sources into reviewed game knowledge and short video scripts. Its backend is a set of
append-only logs and small state machines over a database, driven by background workers, model calls and human
decisions. This project models the parts whose guarantees span several functions and whole runs, and proves them.

Each database transaction is one atomic step. Tables are sequences (append order stands for the order by creation
time and id) or maps. A SHA-256 digest is taken as injective and kept as the fields it covers. Models, gateways and
handlers are arbitrary functions of the call number and the request, so every statement holds for any behaviour of
theirs. Where the source updates rows or lists step by step there is a method or a class in that form, proved equal
to a reference function; the theorems are about the reference functions and all histories of commands.

| files | component |
|---|---|
| `TextChunking`, `ChunkRules` | overlapping chunker; where chunks end |
| `QuoteRepair`, `QuoteRules` | offset repair of evidence quotes; the rule it follows |
| `RunState`, `JobQueue`, `QueueDatabase`, `JobReplays`, `JobRules` | run state machine, leased job queue, worker loop, repeated commands and stale claims, backoff and what is shown |
| `KnowledgeLedger`, `KnowledgePublication`, `KnowledgeHistory`, `KnowledgeReplays`, `KnowledgeRules` | claims, reviews, conflict groups, publication gate, snapshots, all histories, repeated commands, when each command is accepted |
| `PublicationPlan`, `KnowledgeService` | the plan builder and the knowledge commands as they run |
| `ReviewWorklist`, `ReviewGovernance`, `ReviewRules`, `AgentReviewService` | bisecting review loop, governance passes, what becomes of each decision, persistence and confirmation |
| `EvidenceCapture`, `CaptureRules` | the normalised text of a captured page |
| `ExtractionHarness`, `ExtractionRepository`, `ExtractionResults`, `ExtractionService` | chunk-by-chunk extraction with durable rows, from page to stored claims |
| `ScriptContent`, `TemplateLimits`, `ScriptWorkflow`, `ScriptReplays`, `ScriptRules`, `ScriptService` | script validation, scoring, template, version chain, reviews, exports, when each command is accepted |
| `TopicGate` | one approved topic per marketing brief |
| `TrendClusters`, `TrendProcessing`, `TrendRules` | greedy clustering of trend signals |
| `HostScheduler`, `HostRules` | host access scheduler |
| `EventCursor` | resumable event stream |
| `Prelude`, `Ordering` | result types and sorting |

The modules named `...Rules` and `...Results` restate the answers of the commands over rows, texts and answers alone,
without the helper functions that compute them, and prove the two equal.

## Results that differ from what one might expect

Where a promise of the code or its documentation does not hold for all inputs, the exact condition is proved.

- The chunker's constructor accepts `overlap < max_chars`, but `split` returns on every text only if the overlap is
  below the minimum step, which is `max_chars // 2` from four characters on (`SplitReturnsOnEveryText`).
- Lease ownership is by worker id alone, and attempt numbers start again after a human retry, so a claim kept past its
  lease can complete or fail the same worker's next lease, even one with the same attempt number
  (`StaleClaimSettlesLaterLease`, `StaleClaimSettlesLeaseAfterRetry`). A settlement ends the lease it was handed if
  and only if the worker id owns the job and no lease was taken since (`SettlementEndsItsOwnLease`); settling before
  the lease runs out, once, is enough (`SettlingInTimeEndsItsOwnLease`).
- Capture stores texts of up to ten mebibytes, extraction accepts two. A gateway that answers, from one provider and
  with exact quotes, gets a captured document stored if and only if the text is within the handler's limit, the target
  can be read, is the same afterwards and its context is filled in (`CapturedDocumentIsStored`); a page of three
  mebibytes is captured and never extracted (`LargePageIsNeverExtracted`). Chunks of whitespace, which the harness
  cannot request (`CompletesUnlessBlank`), never occur in a captured page (`CapturedDocumentCompletes`).
- Governance deduplicates without looking at verdicts: a fact is approved if and only if the first decision about it
  is eligible and ranks within the limit (`FirstVerdictDecides`). An early rejection shuts out a later, unreserved
  approval of the same fact (`EarlierRejectionShutsOut`).
- With hooks of the topic service every valid template scores 100, so automatic revision never improves a script; it
  restores the generated one after a failing human edit (`RevisionUndoesAnEdit`, `OnlyEditsFail`).
- A signal title is not cut when it becomes a hashtag. The template is valid if and only if the lengths of its inputs
  allow it (`TemplateValidExactly`), a run can be started if and only if it is (`RunStartsExactly`), and a one-word
  title of 80 to 300 letters, which the topic service accepts, blocks the run for good (`LongTitlesAreRefused`).
- Repeating an accepted final script review is recognised if and only if its version was not evaluated again in
  between (`ReviewReplayIsExact`, refused in `ReplayRefusedAfterEvaluation`). A version can be exported if and only if
  some approving review of it was ever accepted (`ExportableOnceApproved`); a later rejection revokes nothing
  (`RejectionDoesNotRevoke`). A repeated export is recognised if and only if its version has no further approving
  review (`ExportReplayIsExact`, refused in `ExportRefusedAfterApproval`).
- Repeating a pack confirmation under its key creates nothing if and only if every decision that the first one passed
  over, because the claim's latest review already agreed, is recorded by now or still agrees
  (`RepeatedConfirmationIsExact`). Otherwise it can undo a later rejection (`RepeatedConfirmationUndoesRejection`).
- Distinct trend clusters share a key if and only if they were opened by signals of one region, kind and normalised
  title that has no two-character word (`KeysClashExactly`, an instance in `KeysDoClash`).
- The host scheduler spaces reservations, not requests: a request never starts early (`NoRequestStartsEarly`), but it
  can follow an earlier one by as much less than the spacing as that one was late (`StartsAreSpacedUpToLateness`,
  `OversleepingBringsStartsTogether`).
- Timestamps increase within one process, but they are taken when a row is written, before its commit. The stream's
  prefix property therefore rests on one process writing a run's events and committing them in timestamp order.
  Otherwise an event reaches a client, by any later poll that is received in full, if and only if it was ordered behind
  the client's cursor when it was appended (`DeliveredIffBehindCursor`); one that a lagging process appends is lost
  (`LaggingProcessLosesAnEvent`). Nothing is ever delivered twice (`NothingIsDeliveredTwice`).

## Model

| member | source | states |
|---|---|---|
| `TextChunking.Split` | src/gamecrafter/application/text_chunking.py:60-94 | returns a tiling of every non-blank text from offset 0 to its end, each later chunk starting exactly `overlap` before the end of its predecessor, each end chosen by the boundary preference; fails exactly on blank text |
| `TextChunking.RFindIsLast` | src/gamecrafter/application/text_chunking.py:97-113 | the newline search yields the last occurrence in the range, and nothing only if there is none |
| `TextChunking.LastSentenceEndIsLast` | src/gamecrafter/application/text_chunking.py:97-113 | the sentence search yields the last sentence end at or after the lower bound, and nothing only if there is none |
| `TextChunking.ChunksAdvance` | src/gamecrafter/application/text_chunking.py:60-94 | every chunk is an exact non-empty slice of at most max_chars; ends strictly increase and starts advance by at least the minimum step less the overlap |
| `TextChunking.ChunkingRoundTrip` | src/gamecrafter/application/text_chunking.py:60-94 | the first chunk followed by each later chunk without its first `overlap` characters is the source text |
| `TextChunking.ChunkingUnique` | src/gamecrafter/application/text_chunking.py:60-126 | a text has exactly one chunking, chunk ids included |
| `TextChunking.ShortRangesAreContained` | src/gamecrafter/application/text_chunking.py:66-113 | every range of at most overlap + 1 characters lies wholly inside some chunk |
| `TextChunking.LongerRangesCanBeCut` | src/gamecrafter/application/text_chunking.py:66-113 | overlap + 1 is the best such bound: every inner boundary cuts a range one character longer |
| `TextChunking.ChunkCountBound` | src/gamecrafter/application/text_chunking.py:66-113 | (number of chunks - 1) x (minimum step - overlap) is below the text length |
| `TextChunking.SplitReturnsOnEveryText` | src/gamecrafter/application/text_chunking.py:41-94 | the loop returns on every non-blank text if and only if the overlap is below the minimum step, a stronger bound than the one the constructor checks |
| `TextChunking.ValidChunkerCanLoopForever` | src/gamecrafter/application/text_chunking.py:55-94 | a configuration the constructor accepts and a text on which the loop never advances |
| `ChunkRules.ChunksEndWell` | src/gamecrafter/application/text_chunking.py:66-113 | in every chunking each chunk but the last ends behind the last paragraph break of the second half of its window, else behind the last newline there, else behind the last pause after a sentence stop, else with the window; a window that reaches the end of the text is the last chunk |
| `ChunkRules.ChunksShowTheirPlace` | src/gamecrafter/application/text_chunking.py:69-126 | every chunk carries its index, its bounds, the text between them, and an identity made of these and the chunker's settings |
| `QuoteRepair.ExactPositions` | src/gamecrafter/infrastructure/models/gateways.py:359-367 | the search loop returns the occurrence list of the reference definition |
| `QuoteRepair.OccurrencesExact` | src/gamecrafter/infrastructure/models/gateways.py:359-367 | that list holds exactly all occurrences, overlapping ones included, in increasing order |
| `QuoteRepair.PlaceUniqueQuotes` | src/gamecrafter/infrastructure/models/gateways.py:311-326 | the first pass rewrites exactly the spans with one occurrence and collects anchors and candidates |
| `QuoteRepair.FindResolvable` | src/gamecrafter/infrastructure/models/gateways.py:329-352 | one sweep finds the first open candidate that has a strictly nearest occurrence, and that occurrence |
| `QuoteRepair.PlaceRepeatedQuotes` | src/gamecrafter/infrastructure/models/gateways.py:327-355 | the worklist ends with exactly the placements of the reference iteration |
| `QuoteRepair.RepairEvidence` | src/gamecrafter/infrastructure/models/gateways.py:293-356 | in-place repair equals overlaying the reference placements on the entries |
| `QuoteRepair.PickIsStrictlyNearest` | src/gamecrafter/infrastructure/models/gateways.py:331-346 | an occurrence is chosen exactly when it is strictly nearer to the references than every other one |
| `QuoteRepair.RepairIsExact` | src/gamecrafter/infrastructure/models/gateways.py:293-356 | every rewritten span quotes the text exactly at its offsets; all other entries stay as they came |
| `QuoteRepair.UniqueQuotesArePlaced` | src/gamecrafter/infrastructure/models/gateways.py:319-324 | a quote with one occurrence is always placed there |
| `QuoteRules.RepairFollowsRule` | src/gamecrafter/infrastructure/models/gateways.py:311-355 | the repair is a run of the declarative rule: quotes with one occurrence first, then one at a time the first open entry with an occurrence strictly nearest to the offsets found so far and the occurrences of the other open quotes, until there is none |
| `QuoteRules.RuleIsDeterministic` | src/gamecrafter/infrastructure/models/gateways.py:327-355 | that rule leaves no choice: two runs from the same offsets are the same |
| `QuoteRules.FirstPlaceableIsPlaced` | src/gamecrafter/infrastructure/models/gateways.py:327-355 | with no unique quote, the first entry with an occurrence strictly nearest to those of the other quotes is placed there |
| `QuoteRules.RepeatedQuotesArePlacedNearest` | src/gamecrafter/infrastructure/models/gateways.py:327-355 | a repeated quote is placed only where, at some point of the run, it was strictly nearest to the offsets found by then and to every occurrence of the other quotes still open |
| `QuoteRules.UnplacedQuotesAreAmbiguous` | src/gamecrafter/infrastructure/models/gateways.py:327-355 | a quote left open at the end has no occurrence strictly nearest to all offsets found and all occurrences of the other open quotes |
| `QuoteRules.RepeatedQuotesSettleEachOther` | src/gamecrafter/infrastructure/models/gateways.py:329-352 | an instance: two repeated quotes without any unique one settle each other |
| `QuoteRepair.SentOffsetsDoNotMatter` | src/gamecrafter/infrastructure/models/gateways.py:293-356 | rewritten offsets depend on the quotes only, not on the offsets the model sent |
| `QuoteRepair.RepairIsIdempotent` | src/gamecrafter/infrastructure/models/gateways.py:293-356 | repairing a repaired list changes nothing |
| `RunState.PathCountsTransitions` | src/gamecrafter/domain/runs/state.py:35-97 | along every accepted path the version counts the transitions, the start time is kept, and final states are never left |
| `RunState.TransitionExactly` | src/gamecrafter/domain/runs/state.py:35-97 | a transition is accepted exactly along the listed moves, raises the version by one, and sets start and end time once |
| `JobQueue.ClaimKeepsStep` | src/gamecrafter/infrastructure/database/job_queue.py:69-158 | claiming, or giving up on a last expired lease, keeps job row, run row and audit log in agreement with the replayed log, and no transition is refused |
| `JobQueue.CompleteKeepsStep` | src/gamecrafter/infrastructure/database/job_queue.py:160-193 | completing keeps job row, run row and audit log in agreement with the replayed log |
| `JobQueue.FailKeepsStep` | src/gamecrafter/infrastructure/database/job_queue.py:195-246 | failing, with or without a scheduled retry, keeps the rows in agreement with the replayed log |
| `JobQueue.RetryKeepsStep` | src/gamecrafter/infrastructure/database/workspace_service.py:405-469 | a human retry keeps job, run and audit log in step and starts a new lease budget |
| `JobQueue.StepKeepsConsistent` | src/gamecrafter/infrastructure/database/job_queue.py:69-267 | every transaction keeps the store consistent, and no run transition is ever refused |
| `JobQueue.EveryInterleavingIsConsistent` | src/gamecrafter/infrastructure/database/job_queue.py:69-267 | over every interleaving of enqueue, claim, complete, fail, expiry and retry the store stays consistent |
| `JobQueue.JobAndRunAgree` | src/gamecrafter/infrastructure/database/job_queue.py:91-246 | each run has exactly one job, job and run statuses agree, and attempts, leases and versions match the audit log |
| `JobQueue.LeaseConservation` | src/gamecrafter/infrastructure/database/job_queue.py:91-158 | every lease is settled once, or reclaimed after expiry, or in force |
| `JobQueue.LeaseBudget` | src/gamecrafter/infrastructure/database/job_queue.py:101-149 | total leases are at most max_attempts x (1 + number of distinct retry keys) |
| `JobQueue.VersionGrows` | src/gamecrafter/infrastructure/database/job_queue.py:24-44 | the run version grows strictly with every logged event except a reclaim, and with every status change |
| `JobQueue.KeyFindsOneJob` | src/gamecrafter/infrastructure/database/workspace_service.py:214-289 | an idempotency key finds one run with one job |
| `JobQueue.OnlyTheOwnerSettles` | src/gamecrafter/infrastructure/database/job_queue.py:248-267 | a settlement takes effect if and only if its worker owns the lease; otherwise nothing changes |
| `JobQueue.ClaimTakesLease` | src/gamecrafter/infrastructure/database/job_queue.py:101-149 | a handed-out claim is the lease in force, one attempt further and within the limit |
| `JobQueue.OwnerSettlesOnce` | src/gamecrafter/infrastructure/database/job_queue.py:160-246 | the owner's settlement ends the lease with the status the command calls for and one audit row |
| `JobQueue.SettledTwiceIsRefused` | src/gamecrafter/infrastructure/database/job_queue.py:160-267 | after a settlement, whatever commands follow, every further settlement of the job is refused until a new lease is logged |
| `JobQueue.SettlementsAlternate` | src/gamecrafter/infrastructure/database/job_queue.py:160-246 | two settlements in one log always have a lease between them, so each lease is settled at most once |
| `JobQueue.SettlementEndsItsOwnLease` | src/gamecrafter/infrastructure/database/job_queue.py:101-267 | whatever follows a claim, a complete or fail with it ends exactly the lease it was handed if and only if its worker id owns the job and no lease was logged since |
| `JobQueue.OnlyOwnerOrExpiryEndsALease` | src/gamecrafter/infrastructure/database/job_queue.py:69-267 | while a lease is in force, job, run and log are changed by its owner's settlement or a claim after its expiry, and by no other command |
| `JobQueue.SettlingInTimeEndsItsOwnLease` | src/gamecrafter/infrastructure/database/job_queue.py:69-246 | over any commands other than those two the lease stands, and a settlement with the claim is accepted and ends exactly the lease it was handed |
| `JobQueue.EffectiveStepSpends` | src/gamecrafter/infrastructure/database/job_queue.py:69-246 | every step that changes a job between human retries writes one audit row and lowers its potential |
| `JobQueue.BoundedWorkBetweenRetries` | src/gamecrafter/infrastructure/database/job_queue.py:69-246 | the number of steps that change a job between human retries, plus its potential afterwards, is at most its potential before, whatever the workers do |
| `JobRules.FailureBacksOff` | src/gamecrafter/infrastructure/database/job_queue.py:195-246 | after an accepted retryable failure with attempts left, whatever commands follow, the job can be claimed from min(2^attempts, 60) seconds later on and not before |
| `JobRules.DelayIsBackoff` | src/gamecrafter/infrastructure/database/job_queue.py:216-218 | the delay table is the capped power of two, the power being defined by doubling |
| `JobRules.QueuedStaysClaimable` | src/gamecrafter/infrastructure/database/job_queue.py:69-119 | a queued job stays claimable from the same time on, whatever commands follow, until somebody claims it |
| `JobRules.NewJobIsClaimable` | src/gamecrafter/infrastructure/database/workspace_service.py:255-289 | a new job can be claimed at once, with three attempts |
| `JobRules.RetryMakesClaimable` | src/gamecrafter/infrastructure/database/workspace_service.py:405-469 | a human retry makes the job claimable at once again, with all its attempts and without its old error |
| `JobRules.LeaseShutsOthersOut` | src/gamecrafter/infrastructure/database/job_queue.py:69-158 | while a lease is in force nobody can claim the job; from its expiry on anyone can, or it is given up |
| `JobRules.EndsForGood` | src/gamecrafter/infrastructure/database/job_queue.py:69-246 | a completed job is never touched again, and a failed one only by a human retry of its run |
| `JobRules.FailureIsShown` | src/gamecrafter/infrastructure/database/job_queue.py:195-246 | a failure is shown on job and run, cut to 80 and 1000 characters, and the run waits for its retry or asks for a human |
| `JobRules.ExpiryIsShown` | src/gamecrafter/infrastructure/database/job_queue.py:101-126 | a last lease that has run out fails job and run under its own code |
| `JobRules.CompletionIsShown` | src/gamecrafter/infrastructure/database/job_queue.py:160-193 | a completion ends job and run together, without an error |
| `JobRules.ClaimIsShown` | src/gamecrafter/infrastructure/database/job_queue.py:127-158 | a claim shows the task as checkpoint, clears the run's error and keeps its first start time |
| `JobRules.RequestExactly` | src/gamecrafter/infrastructure/database/workspace_service.py:214-289 | a request with fresh ids is accepted if and only if its project has no run with its key; job, run and log then show the request, and all other rows are as they were |
| `JobRules.RetryExactly` | src/gamecrafter/infrastructure/database/workspace_service.py:405-469 | a human retry is accepted if and only if its key is new to the run and the run asks for a human; run and log show it, and other runs are as they were |
| `JobRules.WorkersTouchOneRun` | src/gamecrafter/infrastructure/database/job_queue.py:69-267 | a worker's command leaves job, run and log of every other run as they were |
| `QueueDatabase.QueueService.ClaimNext` | src/gamecrafter/infrastructure/database/job_queue.py:69-158 | claims the first claimable unlocked row by (available_at, created_at), and ties the new rows to the claim transaction |
| `QueueDatabase.QueueService.Complete` | src/gamecrafter/infrastructure/database/job_queue.py:160-193 | completes the job only for its lease owner, ends the run when no sibling is unfinished, and otherwise changes nothing |
| `QueueDatabase.QueueService.Fail` | src/gamecrafter/infrastructure/database/job_queue.py:195-246 | schedules a retry within the attempt limit or ends in needs_attention, only for the lease owner, and otherwise changes nothing |
| `QueueDatabase.QueueService.Enqueue` | src/gamecrafter/infrastructure/database/workspace_service.py:214-289 | creates one run with exactly one job, recognises an exact replay, or refuses another request under the same key |
| `QueueDatabase.QueueService.RetryRun` | src/gamecrafter/infrastructure/database/workspace_service.py:405-469 | requeues exactly the failed jobs of a run that needs attention, resets their attempts, and does so once per command key |
| `QueueDatabase.QueueService.RunOnce` | src/gamecrafter/application/jobs.py:81-120 | takes the first claimable unlocked job and reports work exactly when an attempt is left; without one it gives the job up or, with nothing claimable, changes nothing; after work one settling call follows on whatever others committed meanwhile, and undisturbed the job ends in the status of the handler's outcome |
| `QueueDatabase.OutcomeReachesItsLease` | src/gamecrafter/application/jobs.py:81-120 | unless others settle for the worker or claim after expiry, the settling call ends exactly the claimed lease, with the outcome's status, one attempt further |
| `QueueDatabase.SettlementFollowsOutcome` | src/gamecrafter/application/jobs.py:81-120 | the one settling command of an outcome always succeeds for the owner and leaves the status of that outcome |
| `JobRules.EarliestIsNext` | src/gamecrafter/infrastructure/database/job_queue.py:72-90 | of the claimable unlocked jobs the one that became available first is taken, the older one of two equals |
| `JobRules.OutcomesAreSettled` | src/gamecrafter/application/jobs.py:81-120 | a handler that returns completes its job, a missing one fails it for good, a crash or a retryable failure is tried again while attempts are left, and the reason is shown |
| `JobReplays.EnqueueReplaysForever` | src/gamecrafter/infrastructure/database/workspace_service.py:214-289 | an accepted request sent again at any later time creates nothing, whatever became of its run |
| `JobReplays.OtherRequestIsRefused` | src/gamecrafter/infrastructure/database/workspace_service.py:214-289 | another request under the key of an accepted one is refused at any later time |
| `JobReplays.RetryReplaysForever` | src/gamecrafter/infrastructure/database/workspace_service.py:405-469 | an accepted retry sent again at any later time changes nothing, even after the run has failed again |
| `JobReplays.StaleClaimSettlesLaterLease` | src/gamecrafter/infrastructure/database/job_queue.py:160-246 | a history from the empty store in which a claim kept past its lease is accepted, complete or fail, and settles the same worker's next lease and no other |
| `JobReplays.StaleClaimSettlesLeaseAfterRetry` | src/gamecrafter/infrastructure/database/job_queue.py:160-193 | a history with three expired leases and a human retry in which the first claim settles the fourth lease, whose attempt number is the same |
| `KnowledgeLedger.LatestReviewIsLast` | src/gamecrafter/infrastructure/database/snapshot_service.py:229-238 | the latest review of a claim is its last one in append order |
| `KnowledgeLedger.ValuesDiffer` | src/gamecrafter/infrastructure/database/conflict_service.py:66-68 | two or more candidate values exist exactly when two claims of the key disagree |
| `KnowledgeLedger.ReconcileKeyStep` | src/gamecrafter/infrastructure/database/conflict_service.py:66-110 | reconciling one key keeps one group per key, members of that key only, one relation and two distinct values, leaves closed groups alone and settles the key |
| `KnowledgeLedger.ReconcileIsCompleteAndIdempotent` | src/gamecrafter/infrastructure/database/conflict_service.py:38-110 | afterwards every differing key has its group, open groups hold exactly their key's claims, closed groups are unchanged, and a second run changes nothing |
| `KnowledgePublication.GateIsExact` | src/gamecrafter/infrastructure/database/snapshot_service.py:221-343 | no blocker is raised if and only if all reviews are final, something is approved, approved lineage is complete, every differing key has a group, all groups are closed and no exclusive key has two approved values |
| `KnowledgePublication.ConflictGateIsExact` | src/gamecrafter/infrastructure/database/snapshot_service.py:385-448 | the four conflict blockers add up to: differing keys are grouped, groups are closed, approved values of exclusive keys agree |
| `KnowledgePublication.SerializeIgnoresOrder` | src/gamecrafter/infrastructure/database/snapshot_service.py:538-570 | the sorted member list does not depend on the order of the member rows |
| `KnowledgePublication.SerializeKept` | src/gamecrafter/infrastructure/database/snapshot_service.py:531-577 | any ledger that extends an earlier one serialises the same links to the same members |
| `KnowledgeHistory.ApplyKeepsSound` | src/gamecrafter/infrastructure/database/snapshot_service.py:82-175 | every command keeps the ledger sound and only appends to it |
| `KnowledgeHistory.ReachableIsSound` | src/gamecrafter/infrastructure/database/snapshot_service.py:82-175 | every ledger reachable by any history of commands is sound |
| `KnowledgeHistory.PublishedValuesNeverConflict` | src/gamecrafter/infrastructure/database/snapshot_service.py:385-448 | in every reachable ledger two members of one snapshot with the same subject, exclusive predicate and scope carry the same approved value, and snapshot k is version k |
| `KnowledgeHistory.DigestIsRebuiltForever` | src/gamecrafter/infrastructure/database/snapshot_service.py:531-577 | in every later ledger the member rows, in any order, serialise to the content of the stored digest |
| `KnowledgeHistory.PublishFreezesApprovals` | src/gamecrafter/infrastructure/database/snapshot_service.py:129-156 | a publication's members are exactly the approved claims, each with its latest review and revision, under the next version number |
| `KnowledgeHistory.PublishReplaysForever` | src/gamecrafter/infrastructure/database/snapshot_service.py:112-127 | an accepted publication repeated at any later time creates nothing |
| `KnowledgeHistory.ReviewReplaysForever` | src/gamecrafter/infrastructure/database/review_service.py:87-110 | an accepted review command repeated at any later time creates nothing |
| `KnowledgeHistory.ResolutionIsExact` | src/gamecrafter/infrastructure/database/review_service.py:332-387 | in reachable ledgers the empty-group and mixed-relation errors cannot occur; resolution succeeds exactly when all members are final, something is approved and an exclusive key keeps one value |
| `KnowledgeHistory.ReconcileClearsItsBlocker` | src/gamecrafter/infrastructure/database/snapshot_service.py:421-437 | right after reconcile the unreconciled-conflicts blocker cannot be raised |
| `KnowledgeHistory.ClosedGroupsNeverChange` | src/gamecrafter/infrastructure/database/review_service.py:171-251 | a closed group never changes again |
| `KnowledgeReplays.ClosureReplaysForever` | src/gamecrafter/infrastructure/database/review_service.py:171-251 | an accepted closure repeated at any later time changes nothing |
| `KnowledgeReplays.ConfirmExactly` | src/gamecrafter/infrastructure/database/agent_review_service.py:330-369 | a confirmation creates nothing if and only if every decision needs a human, has its row already or agrees with the latest review of its claim |
| `KnowledgeReplays.RepeatedConfirmationIsExact` | src/gamecrafter/infrastructure/database/agent_review_service.py:307-388 | a confirmation repeated at any later time, by anyone, creates nothing if and only if each decision the first one left unrecorded is recorded by now or still agrees with its claim's latest review |
| `KnowledgeReplays.RepeatedConfirmationUndoesRejection` | src/gamecrafter/infrastructure/database/agent_review_service.py:330-369 | a history from the empty ledger in which the repeated confirmation approves a claim again that a human has rejected since |
| `KnowledgeRules.ReviewExactly` | src/gamecrafter/infrastructure/database/review_service.py:47-141 | a review under a new key is accepted exactly by its rule and appends one row, with the claim's own value when it approves, the edited one when it approves with an edit, and none otherwise |
| `KnowledgeRules.ConfirmOneExactly` | src/gamecrafter/infrastructure/database/agent_review_service.py:330-369 | one decision of a pack adds its review row unless it needs a human, was recorded before or agrees with the last review |
| `KnowledgeRules.LatestRevisionIsLast` | src/gamecrafter/infrastructure/database/snapshot_service.py:354-361 | the latest revision of an entity is its last one in append order, and missing only if there is none |
| `KnowledgeRules.PublishExactly` | src/gamecrafter/infrastructure/database/snapshot_service.py:82-448 | over reachable ledgers, a publication under a new key is accepted if and only if every claim's last review is final, one approves, every approved claim has traceable evidence and a subject whose last revision is live, differing claims are grouped, all groups are closed, and no two approved values exclude each other |
| `KnowledgeRules.ArchivedSubjectIsRefused` | src/gamecrafter/infrastructure/database/snapshot_service.py:346-383 | a publication is refused whenever the last revision of an approved claim's subject is archived |
| `KnowledgeRules.PublishedSnapshot` | src/gamecrafter/infrastructure/database/snapshot_service.py:129-175 | a new snapshot has the next version, its publisher, notes and key, one member per approved claim with its last review and its subject's last revision, and a digest over what exactly these members show |
| `KnowledgeRules.SerializeIsSorted` | src/gamecrafter/infrastructure/database/snapshot_service.py:560-570 | members are listed by entity key, predicate, scope, approved value and claim id |
| `KnowledgeRules.CloseExactly` | src/gamecrafter/infrastructure/database/review_service.py:171-251 | over reachable ledgers and under a new key, a dismissal of an open group always succeeds, and a resolution if and only if every member's last review is final, one approves, and a single-valued key keeps one value; a closed group is refused |
| `KnowledgeRules.ClosedGroup` | src/gamecrafter/infrastructure/database/review_service.py:231-251 | a closure changes its group alone and records outcome, summary, actor, key and the counts of a resolution |
| `KnowledgeRules.CountsAreTrue` | src/gamecrafter/infrastructure/database/review_service.py:332-387 | the recorded counts are the numbers of members with that last decision |
| `PublicationPlan.BuildPlan` | src/gamecrafter/infrastructure/database/snapshot_service.py:221-343 | the plan lists exactly the blockers that hold, the links of the approved claims, the digest of the sorted members when nothing blocks, and true counts |
| `PublicationPlan.SortOut` | src/gamecrafter/infrastructure/database/snapshot_service.py:240-264 | the four review counts are the sizes of the four groups of claims and add up to the number of claims |
| `PublicationPlan.FreezeRevisions` | src/gamecrafter/infrastructure/database/snapshot_service.py:346-382 | links each approved claim to its latest revision and reports missing and archived subjects exactly |
| `PublicationPlan.ConflictBlockers` | src/gamecrafter/infrastructure/database/snapshot_service.py:385-448 | reports a conflict code exactly when some used key raises it |
| `PublicationPlan.MemberPayloads` | src/gamecrafter/infrastructure/database/snapshot_service.py:310-328 | serialises every link, or reports broken lineage exactly when there is some |
| `KnowledgeService.ReconcileOne` | src/gamecrafter/infrastructure/database/conflict_service.py:66-110 | one key's pass equals the reference step, and the rows it reports are the rows it added |
| `KnowledgeService.CheckResolution` | src/gamecrafter/infrastructure/database/review_service.py:332-387 | the counting loop equals the resolution rule, errors and counts included |
| `KnowledgeService.KnowledgeStore.ReviewClaim` | src/gamecrafter/infrastructure/database/review_service.py:47-141 | appends one review, recognises an exact replay, or refuses and changes nothing |
| `KnowledgeService.KnowledgeStore.ConfirmPack` | src/gamecrafter/infrastructure/database/agent_review_service.py:307-388 | the loop appends exactly the reviews of the reference fold and reports their number |
| `KnowledgeService.KnowledgeStore.Reconcile` | src/gamecrafter/infrastructure/database/conflict_service.py:38-133 | the groups become the reference result; the reported numbers are the groups and member rows created |
| `KnowledgeService.KnowledgeStore.CloseConflict` | src/gamecrafter/infrastructure/database/review_service.py:171-251 | closes the group, recognises an exact replay, or refuses and changes nothing |
| `KnowledgeService.KnowledgeStore.Publish` | src/gamecrafter/infrastructure/database/snapshot_service.py:82-175 | publishes the next version, recognises an exact replay, or refuses naming exactly the blockers that hold |
| `KnowledgeService.KnowledgeStore.SerializeSnapshot` | src/gamecrafter/infrastructure/database/snapshot_service.py:531-577 | in a sound ledger the serialised members are those of the stored digest, whatever order the rows come in |
| `ReviewWorklist.Gateway` | src/gamecrafter/infrastructure/models/reviewer.py:117-120 | an accepted answer has one decision for every requested claim id and no other |
| `ReviewWorklist.Review` | src/gamecrafter/application/agent_review_jobs.py:42-70 | the worklist loop gathers the decisions, fingerprints and token sums of the reference run, or stops at its failing candidate |
| `ReviewWorklist.ReviewIsComplete` | src/gamecrafter/application/agent_review_jobs.py:42-70 | for any model at most 2n - ceil(n / 8) calls are made; a finished run's batches are the candidates in order with exactly one decision each; it stops only at a single candidate that failed |
| `ReviewWorklist.CallBoundIsReached` | src/gamecrafter/application/agent_review_jobs.py:42-70 | the call bound is exact for every n |
| `ReviewWorklist.SinglesSuffice` | src/gamecrafter/application/agent_review_jobs.py:56-62 | a model that answers single candidates is never stopped |
| `ReviewRules.AnswersAreTheModels` | src/gamecrafter/application/agent_review_jobs.py:42-70 | the answers that a finished review gathers are the model's own, at most eight candidates at a time |
| `ReviewRules.AskedAtMostFourTimes` | src/gamecrafter/application/agent_review_jobs.py:42-70 | the model is asked about no claim more than four times |
| `ReviewRules.TokensAddUp` | src/gamecrafter/application/agent_review_jobs.py:58-84 | the tokens of a finished review are the sums over its answers, field by field |
| `ReviewGovernance.GovernanceIsExact` | src/gamecrafter/infrastructure/database/agent_review_service.py:148-233 | a decision ends approved, unchanged, exactly when the model approved it without risk, correction or inference marker, no earlier decision is about its fact, and fewer than fifteen such decisions outrank it |
| `ReviewGovernance.PackIsBounded` | src/gamecrafter/infrastructure/database/agent_review_service.py:199-233 | exactly min(15, eligible) decisions are approved, all eligible, no two about the same fact |
| `ReviewGovernance.NothingIsUpgraded` | src/gamecrafter/infrastructure/database/agent_review_service.py:148-233 | verdicts only become more cautious |
| `ReviewGovernance.FirstVerdictDecides` | src/gamecrafter/infrastructure/database/agent_review_service.py:148-233 | a fact ends approved if and only if the first decision about it is eligible and fewer than fifteen eligible ones outrank it |
| `ReviewGovernance.EarlierRejectionShutsOut` | src/gamecrafter/infrastructure/database/agent_review_service.py:199-214 | an instance: an approval that stands alone is lost behind a rejection of the same fact |
| `ReviewRules.EveryDecisionIsGoverned` | src/gamecrafter/infrastructure/database/agent_review_service.py:148-233 | every decision ends as one of these, texts included: a repeated fact rejected; what the model did not approve unchanged; an approval that infers rejected, one with a risk or a corrected predicate sent to a human; of the others the fifteen best unchanged and the rest rejected |
| `AgentReviewService.DropDuplicates` | src/gamecrafter/infrastructure/database/agent_review_service.py:199-214 | the in-place pass marks exactly the decisions whose fact occurred before |
| `AgentReviewService.Govern` | src/gamecrafter/infrastructure/database/agent_review_service.py:148-233 | the passes as they run equal the reference governance |
| `AgentReviewService.Count` | src/gamecrafter/infrastructure/database/agent_review_service.py:234-236 | the three verdict counts are true and add up to the number reviewed |
| `AgentReviewService.VerdictsAreCounted` | src/gamecrafter/infrastructure/database/agent_review_service.py:236-262 | each count is the number of governed decisions with that verdict |
| `AgentReviewService.ReviewStore.Persist` | src/gamecrafter/infrastructure/database/agent_review_service.py:113-290 | returns an existing result untouched, refuses exactly when the decisions do not cover the extraction, otherwise stores the governed rows and their summary |
| `AgentReviewService.ReviewStore.ReviewExtraction` | src/gamecrafter/application/agent_review_jobs.py:29-83 | after a finished worklist the coverage check cannot fail; the stored result counts every candidate and at most fifteen approvals, with the summed tokens |
| `AgentReviewService.ConfirmedPackIsBounded` | src/gamecrafter/infrastructure/database/agent_review_service.py:307-388 | confirming a governed review, rows in any order, adds at most fifteen approving reviews |
| `EvidenceCapture.ExtractText` | src/gamecrafter/infrastructure/ingestion/html.py:187-198 | the line loop computes the reference text |
| `EvidenceCapture.CapturedTextHasNoGap` | src/gamecrafter/infrastructure/ingestion/html.py:193-218 | a captured text is empty, or has a visible character and never two adjacent whitespace characters |
| `EvidenceCapture.CaptureKeepsWords` | src/gamecrafter/infrastructure/ingestion/html.py:193-218 | the captured text has exactly the words of the kept lines, and all words of the page when no line repeats the one before it |
| `EvidenceCapture.CaptureIsIdempotent` | src/gamecrafter/infrastructure/ingestion/html.py:193-218 | the captured text splits into exactly the kept lines, and capturing it again changes nothing |
| `EvidenceCapture.LongWordIsStored` | src/gamecrafter/application/source_ingestion.py:168-195 | a page of one word of n letters has n bytes and is stored as it is within the limit |
| `CaptureRules.SplitsIntoLines` | src/gamecrafter/infrastructure/ingestion/html.py:195-196 | the lines with their endings, a listed character or a carriage return with its line feed, are the text |
| `CaptureRules.LinesAreUnique` | src/gamecrafter/infrastructure/ingestion/html.py:195-196 | there is only one way to cut a text into such lines |
| `CaptureRules.KeptExactly` | src/gamecrafter/infrastructure/ingestion/html.py:195-198 | of the squeezed lines that are not blank exactly the first of each run of equal ones is kept, in order |
| `CaptureRules.SizeExactly` | src/gamecrafter/application/source_ingestion.py:168-195 | the size that the limits speak of is the number of bytes of the UTF-8 encoding |
| `CaptureRules.CharacterIsSpelled` | src/gamecrafter/application/source_ingestion.py:168-195 | that encoding gives every character back |
| `CaptureRules.SpacesExactly` | src/gamecrafter/infrastructure/ingestion/html.py:195-196 | the characters at which words are parted are the listed ones |
| `ExtractionHarness.CompletedIsTraced` | src/gamecrafter/application/knowledge_extraction.py:144-211 | after a complete pass every chunk has its invocation, in order, and its row says exactly that |
| `ExtractionHarness.CompletesUnlessBlank` | src/gamecrafter/application/knowledge_extraction.py:151-158 | a pass completes only without whitespace-only chunks, and with none of them and an obliging gateway it does |
| `ExtractionHarness.ShortGapsLeaveNoBlankChunk` | src/gamecrafter/application/text_chunking.py:60-94 | a non-blank text without a whitespace gap longer than the overlap has no blank chunk |
| `ExtractionHarness.DeduplicateClaims` | src/gamecrafter/application/knowledge_extraction.py:226-251 | the loop equals the reference deduplication |
| `ExtractionHarness.DistinctExact` | src/gamecrafter/application/knowledge_extraction.py:226-251 | every claim key is kept exactly once and none is lost |
| `ExtractionHarness.FirstClaimsAreKept` | src/gamecrafter/application/knowledge_extraction.py:226-251 | each key is represented by its first claim |
| `ExtractionResults.CompletedGathersAnswers` | src/gamecrafter/application/knowledge_extraction.py:144-224 | a complete pass consists of one answer per chunk, to the chunk's own text, offset and context, and its invocations, claims and token sums are those of the answers |
| `ExtractionResults.StopsAtFirstProblem` | src/gamecrafter/application/knowledge_extraction.py:152-176 | a pass stops at the first chunk that has a problem, with that problem, and completes when none has one |
| `ExtractionResults.StoppedPassIsShown` | src/gamecrafter/infrastructure/database/knowledge_repository.py:68-134 | a pass that stops leaves succeeded rows with their answers before that chunk, the problem on its own row, and later rows untouched |
| `ExtractionResults.DistinctIsFirsts` | src/gamecrafter/application/knowledge_extraction.py:226-251 | deduplication keeps exactly the first claim of each kind, in order |
| `ExtractionRepository.ValidateInvocations` | src/gamecrafter/infrastructure/database/knowledge_repository.py:607-629 | the zip loop accepts exactly when count and every field of every row match the manifest |
| `ExtractionRepository.ValidationIsExact` | src/gamecrafter/infrastructure/database/knowledge_repository.py:607-629 | after a complete pass validation succeeds if and only if the attempt has no row for a chunk the document no longer has |
| `ExtractionResults.ValidatesExactly` | src/gamecrafter/infrastructure/database/knowledge_repository.py:607-630 | for any rows, validation accepts a manifest exactly when every invocation has its row, field by field, and the attempt has no other row |
| `ExtractionRepository.ExtractKeepsSound` | src/gamecrafter/infrastructure/database/knowledge_repository.py:276-373 | every attempt keeps rows, claims and results consistent and never meets a changed identity or a failing validation |
| `ExtractionRepository.ValidationAlwaysPasses` | src/gamecrafter/infrastructure/database/knowledge_repository.py:607-629 | so over every history of attempts with reused attempt numbers, gateway failures and worker deaths |
| `ExtractionRepository.CapturedDocumentCompletes` | src/gamecrafter/application/knowledge_jobs.py:46-92 | after any history of attempts, a gateway that answers every request completes every pass through a captured document; the attempt ends stored or at one of the named checks before and after the harness |
| `ExtractionRepository.CapturedDocumentIsStored` | src/gamecrafter/application/knowledge_jobs.py:46-104 | with one provider and exact quotes besides, an attempt without a result stores one, with the deduplicated claims counted, if and only if the target is found and kept, its text is within the byte limit and its context is filled in |
| `ExtractionRepository.LargePageIsNeverExtracted` | src/gamecrafter/application/knowledge_jobs.py:94-100 | an instance: with the default limits a page of three mebibytes is captured, and every attempt at it is refused before the harness and changes nothing |
| `ExtractionService.ExtractionStore.Started` | src/gamecrafter/infrastructure/database/knowledge_repository.py:68-105 | creates the row, resets it unless it succeeded, or refuses another identity |
| `ExtractionService.ExtractionStore.Succeeded` | src/gamecrafter/infrastructure/database/knowledge_repository.py:107-120 | overwrites the outcome fields of exactly that row |
| `ExtractionService.ExtractionStore.Failed` | src/gamecrafter/infrastructure/database/knowledge_repository.py:122-134 | marks exactly that row failed with the truncated error |
| `ExtractionService.ExtractionStore.RunHarness` | src/gamecrafter/application/knowledge_extraction.py:144-211 | the chunk loop leaves the rows and ends as the reference recursion says |
| `ExtractionService.ExtractionStore.PersistResult` | src/gamecrafter/infrastructure/database/knowledge_repository.py:276-373 | claims and result row are stored together or not at all; an existing result is returned; a changed target, mismatching rows, several providers and inexact quotes are refused in that order |
| `ExtractionService.ExtractionStore.Extract` | src/gamecrafter/application/knowledge_jobs.py:46-104 | returns early when the run has its result; otherwise refuses, in the source's order, a missing target, a text above the byte limit, a blank text and a blank context; then works on the document's chunking, stops with the rows reached so far when a chunk fails, and persists only a complete pass |
| `ExtractionResults.StoredClaimsAreExact` | src/gamecrafter/infrastructure/database/knowledge_repository.py:276-373 | an attempt that stores a result stores, in order, exactly the first claim of each kind that its answers contained, each with the answering provider and model, and nothing for any other run |
| `ExtractionResults.AttemptExactly` | src/gamecrafter/application/knowledge_jobs.py:46-104 | over all reachable stores an attempt at a run without a result stores one if and only if target, text and context are usable, the pass completes, the target is still the same, one model answered everything and all evidence stands in the text; otherwise claims and results are as they were |
| `ExtractionResults.StoredClaimsStayForever` | src/gamecrafter/infrastructure/database/knowledge_repository.py:276-373 | what was stored for a run is what its claims are after any further history of attempts |
| `ScriptContent.ValidateContent` | src/gamecrafter/infrastructure/database/script_service.py:685-794 | accepts exactly the content that meets the declarative rule |
| `ScriptContent.ValidContentTiles` | src/gamecrafter/infrastructure/database/script_service.py:752-793 | every second of the duration is shown by exactly one section of valid content |
| `ScriptRules.ValidExactly` | src/gamecrafter/infrastructure/database/script_service.py:685-794 | content is accepted if and only if it keeps to the listed limits on size, texts, hashtags and citations and its sections meet from zero to the requested duration |
| `ScriptRules.StoredVersionsKeepTheRule` | src/gamecrafter/infrastructure/database/script_service.py:185-257 | every stored version of every reachable run keeps to that rule |
| `ScriptContent.Score` | src/gamecrafter/infrastructure/database/script_service.py:796-850 | the report has exactly the six dimensions that hold |
| `ScriptRules.ScoreExactly` | src/gamecrafter/infrastructure/database/script_service.py:796-850 | the score is a hundred less the points lost: twenty each for time, hook and citations, fifteen each for the call to action and the five parts, ten for validity, each stated over the sections |
| `ScriptContent.CutIsNearest` | src/gamecrafter/infrastructure/database/script_service.py:622-622 | a cut is the nearest integer to its fifth of the duration |
| `ScriptContent.TemplateTimelineIsExact` | src/gamecrafter/infrastructure/database/script_service.py:621-681 | the template's sections form a timeline if and only if the duration is at least five seconds |
| `ScriptContent.TemplateScores` | src/gamecrafter/infrastructure/database/script_service.py:593-683 | a valid template scores 100, or 80 when its hook is shorter than twelve characters |
| `ScriptContent.TopicHooksAreLongEnough` | src/gamecrafter/infrastructure/database/marketing_service.py:572-572 | every hook the topic service writes has at least twelve characters |
| `ScriptRules.TemplateStatesFacts` | src/gamecrafter/infrastructure/database/script_service.py:593-683 | the template speaks of, shows and cites the first and the second fact, shows hook, trend and angle, and calls the game by the last approved name |
| `ScriptRules.ProofNamesPredicate` | src/gamecrafter/infrastructure/database/script_service.py:653-662 | the proof section names the first fact's predicate with its dots read as spaces |
| `ScriptRules.HashtagOfTitle` | src/gamecrafter/infrastructure/database/script_service.py:973-976 | the first hashtag holds exactly the word characters of the signal's title in order, or is the fixed one when there are none |
| `TemplateLimits.TemplateValidExactly` | src/gamecrafter/infrastructure/database/script_service.py:593-794 | the template is valid if and only if its encoded size, title, caption, hashtag, hook, facts and angle are within the stated lengths and the shown texts are not blank |
| `TemplateLimits.RunStartsExactly` | src/gamecrafter/infrastructure/database/script_service.py:185-257 | the first version can be created if and only if the template fits, and otherwise the run stays empty under every history of commands |
| `TemplateLimits.LongTitlesAreRefused` | src/gamecrafter/infrastructure/database/script_service.py:733-740 | an instance for every title of n letters up to the 300 that the topic service accepts: the template fits exactly up to 79 |
| `ScriptWorkflow.ApplyKeepsSound` | src/gamecrafter/infrastructure/database/script_service.py:185-591 | every command keeps the run sound and only appends rows |
| `ScriptWorkflow.ReachableIsSound` | src/gamecrafter/infrastructure/database/script_service.py:185-591 | every run reachable by any history of commands is sound |
| `ScriptWorkflow.ChainIsBounded` | src/gamecrafter/infrastructure/database/script_service.py:206-234 | versions are numbered 1..n in one parent chain with the generated version as its only root, and automatic revisions stay within the budget |
| `ScriptWorkflow.EvaluationsAgree` | src/gamecrafter/infrastructure/database/script_service.py:289-312 | all evaluations of one version agree |
| `ScriptWorkflow.ExportsAreApproved` | src/gamecrafter/infrastructure/database/script_service.py:530-569 | every export carries the content of a version with an approving review on a passing evaluation of that version, and that content passes again |
| `ScriptWorkflow.StoredVersionsTile` | src/gamecrafter/infrastructure/database/script_service.py:752-794 | every stored version of every run tiles the requested duration |
| `ScriptWorkflow.TopicGateRules` | src/gamecrafter/infrastructure/database/script_service.py:593-683 | with hooks of the topic service every valid template passes its evaluation |
| `ScriptWorkflow.RevisionUndoesAnEdit` | src/gamecrafter/infrastructure/database/script_service.py:366-403 | an automatic revision only follows a failing human edit and restores the generated content exactly |
| `ScriptWorkflow.OnlyEditsFail` | src/gamecrafter/infrastructure/database/script_service.py:276-330 | only human edits ever fail their evaluation |
| `ScriptWorkflow.ReviewReplayIsExact` | src/gamecrafter/infrastructure/database/script_service.py:444-482 | a repeated final review is recognised exactly if its version was not evaluated again in between, and refused otherwise |
| `ScriptWorkflow.ReplayRefusedAfterEvaluation` | src/gamecrafter/infrastructure/database/script_service.py:444-482 | an instance: an approval sent again is recognised at once, and refused after one more evaluation |
| `ScriptWorkflow.ExportableOnceApproved` | src/gamecrafter/infrastructure/database/script_service.py:530-569 | over every history a new export of a version succeeds if and only if an approving review of it was accepted at some time |
| `ScriptWorkflow.RejectionDoesNotRevoke` | src/gamecrafter/infrastructure/database/script_service.py:530-545 | an instance: a version approved and then rejected is exported all the same |
| `ScriptReplays.ExportReplayIsExact` | src/gamecrafter/infrastructure/database/script_service.py:530-569 | a repeated export is recognised exactly if its version has no further approving review, and refused otherwise |
| `ScriptReplays.ExportRefusedAfterApproval` | src/gamecrafter/infrastructure/database/script_service.py:549-562 | an instance: an export sent again is recognised at once, and refused after one more approval |
| `ScriptReplays.CreationReplaysForever` | src/gamecrafter/infrastructure/database/script_service.py:197-422 | an accepted generation, edit, revision or evaluation repeated at any later time changes nothing |
| `ScriptReplays.RepeatedVersionExactly` | src/gamecrafter/infrastructure/database/script_service.py:197-213 | under the key of a version, generating or editing is recognised exactly if it was made in the same way with the same content, and refused otherwise |
| `ScriptReplays.RepeatedRevisionExactly` | src/gamecrafter/infrastructure/database/script_service.py:355-364 | under the key of a version, revising is recognised exactly if that version is a revision, and refused otherwise |
| `ScriptReplays.RepeatedEvaluationExactly` | src/gamecrafter/infrastructure/database/script_service.py:289-301 | under the key of an evaluation, evaluating is recognised exactly for the same version, and refused otherwise |
| `ScriptService.ScriptRunStore.CreateVersion` | src/gamecrafter/infrastructure/database/script_service.py:185-257 | appends the next version as child of the latest, a generated one only first and an edit only later, recognises an exact replay, and refuses invalid content |
| `ScriptService.ScriptRunStore.Evaluate` | src/gamecrafter/infrastructure/database/script_service.py:276-330 | appends the report of the stored content with its verdict against the threshold, or recognises a replay for the same version |
| `ScriptService.ScriptRunStore.Revise` | src/gamecrafter/infrastructure/database/script_service.py:347-422 | appends the template again only after a failing latest evaluation and within the budget, naming the first reason otherwise |
| `ScriptService.ScriptRunStore.FinalReview` | src/gamecrafter/infrastructure/database/script_service.py:424-497 | binds the review to the version's latest evaluation, approves only a passing one, and recognises an exact replay |
| `ScriptService.ScriptRunStore.Export` | src/gamecrafter/infrastructure/database/script_service.py:514-591 | exports only a version with an approving review, bound to the latest one, and recognises an exact replay |
| `ScriptRules.GenerateExactly` | src/gamecrafter/infrastructure/database/script_service.py:185-257 | under a new key the template is stored as first version exactly when the run is empty and the template is valid |
| `ScriptRules.EditExactly` | src/gamecrafter/infrastructure/database/script_service.py:185-257 | under a new key an edit is stored as next version exactly when there is a version and the content is valid |
| `ScriptRules.EvaluateExactly` | src/gamecrafter/infrastructure/database/script_service.py:276-330 | an evaluation reports on the stored content and passes exactly when its score reaches the threshold |
| `ScriptRules.ReviseExactly` | src/gamecrafter/infrastructure/database/script_service.py:347-422 | a revision is made exactly when the last evaluation of the last version failed, the budget is not used up and the template is valid |
| `ScriptRules.FinalReviewExactly` | src/gamecrafter/infrastructure/database/script_service.py:424-497 | a final review is accepted exactly when its version was evaluated and, to approve, passed last; it is bound to that last evaluation |
| `ScriptRules.ExportExactly` | src/gamecrafter/infrastructure/database/script_service.py:514-591 | an export is made exactly when some review approves its version; it is bound to the last such review and carries the version's content |
| `TopicGate.OneTopicAtMost` | src/gamecrafter/infrastructure/database/marketing_service.py:435-478 | in every reachable log at most one candidate has an approving latest decision |
| `TopicGate.ApprovalLostOnlyByItsOwnReview` | src/gamecrafter/infrastructure/database/marketing_service.py:435-478 | an approval is lost only by a later rejection or deferral of the same candidate |
| `TopicGate.DecisionReplaysForever` | src/gamecrafter/infrastructure/database/marketing_service.py:435-450 | an accepted decision repeated at any later time changes nothing |
| `TopicGate.NewDecisionExactly` | src/gamecrafter/infrastructure/database/marketing_service.py:408-478 | under a new key a decision on a listed candidate is recorded, except an approval while the last review of another candidate approves that one; a rejection or deferral is never refused |
| `TopicGate.RepeatedDecisionExactly` | src/gamecrafter/infrastructure/database/marketing_service.py:435-450 | under a used key a decision is either the recorded one sent again or refused |
| `TopicGate.TopicStore.ReviewTopic` | src/gamecrafter/infrastructure/database/marketing_service.py:408-478 | the dictionary loop and its gate equal the reference decision |
| `TopicGate.TopicStore.CurrentApproved` | src/gamecrafter/infrastructure/database/script_service.py:1044-1058 | in a reachable log the look-up fails exactly when no candidate is approved |
| `TrendClusters.FingerprintsAreUnambiguous` | src/gamecrafter/infrastructure/database/marketing_service.py:675-677 | different fingerprints hash different texts |
| `TrendClusters.ClustersPartition` | src/gamecrafter/infrastructure/database/marketing_service.py:684-706 | each signal belongs to exactly one cluster, members do not repeat and the sizes add up to the number of signals |
| `TrendClusters.EqualSignalsShareACluster` | src/gamecrafter/infrastructure/database/marketing_service.py:684-694 | signals of one region and kind with the same non-empty words share a cluster |
| `TrendClusters.DuplicatesPointToTheFirst` | src/gamecrafter/infrastructure/database/marketing_service.py:678-680 | a duplicate points to the earliest signal with its fingerprint, which is no duplicate itself |
| `TrendClusters.KeysClashOnlyWithoutWords` | src/gamecrafter/infrastructure/database/marketing_service.py:695-704 | two clusters share a key only when their founders' titles have no word |
| `TrendClusters.KeysClashExactly` | src/gamecrafter/infrastructure/database/marketing_service.py:682-712 | signals of different clusters are reported under one key if and only if their fingerprints are equal and their title has no word |
| `TrendClusters.KeysDoClash` | src/gamecrafter/infrastructure/database/marketing_service.py:682-712 | an instance: two signals titled "x" are in different clusters under one key |
| `TrendClusters.WordlessSignalsStandAlone` | src/gamecrafter/infrastructure/database/marketing_service.py:741-745 | a signal without words is alone in its cluster |
| `TrendClusters.ProcessingIgnoresInputOrder` | src/gamecrafter/infrastructure/database/marketing_service.py:668-717 | the result does not depend on the input order |
| `TrendRules.SimilarExactly` | src/gamecrafter/infrastructure/database/marketing_service.py:741-745 | signals fit exactly when they share region and kind and at least half of all their words, as a ratio of real numbers |
| `TrendRules.ProcessingClusters` | src/gamecrafter/infrastructure/database/marketing_service.py:682-706 | every signal belongs to the cluster of the earliest opener that is similar to it, and opens its own when there is none |
| `TrendRules.OneClustering` | src/gamecrafter/infrastructure/database/marketing_service.py:682-706 | that rule determines the clusters |
| `TrendRules.ReportExactly` | src/gamecrafter/infrastructure/database/marketing_service.py:674-716 | a signal is reported with its own fingerprint, the earliest signal that says the same, the fingerprint of its cluster's opener, and the number of signals of that cluster |
| `TrendRules.OrderedExactly` | src/gamecrafter/infrastructure/database/marketing_service.py:669-669 | signals are processed in the order of observation, those observed at once in the order of their ids |
| `TrendProcessing.Place` | src/gamecrafter/infrastructure/database/marketing_service.py:682-706 | a signal joins the first cluster it fits or opens its own |
| `TrendProcessing.FirstPass` | src/gamecrafter/infrastructure/database/marketing_service.py:670-716 | the three tables say what the reference definition says of the signals so far |
| `TrendProcessing.SecondPass` | src/gamecrafter/infrastructure/database/marketing_service.py:713-716 | the second pass writes every cluster's true size |
| `TrendProcessing.ProcessSignals` | src/gamecrafter/infrastructure/database/marketing_service.py:668-717 | both passes together report every signal as the reference definition does, in input order |
| `HostScheduler.InFlightIsBounded` | src/gamecrafter/infrastructure/ingestion/scheduler.py:39-62 | in every interleaving the threads holding slots stay within the global and per-host limits |
| `HostScheduler.ReservationsAreSpaced` | src/gamecrafter/infrastructure/ingestion/scheduler.py:51-56 | two reservations on one host are at least the sum of the intervals in force at the reservations from the first on apart |
| `HostScheduler.NoRequestStartsEarly` | src/gamecrafter/infrastructure/ingestion/scheduler.py:50-60 | in every interleaving no request starts before the time it has reserved, and no reservation lets two requests go |
| `HostScheduler.StartsAreSpacedUpToLateness` | src/gamecrafter/infrastructure/ingestion/scheduler.py:50-60 | two requests on one host start at least the spacing of their reservations apart, less the lateness of the earlier one |
| `HostScheduler.OversleepingBringsStartsTogether` | src/gamecrafter/infrastructure/ingestion/scheduler.py:57-60 | an instance: with an interval of ten seconds two requests start one second apart |
| `HostScheduler.IntervalsNeverShrink` | src/gamecrafter/infrastructure/ingestion/scheduler.py:64-69 | a host's interval never shrinks |
| `HostRules.ReservationIsTight` | src/gamecrafter/infrastructure/ingestion/scheduler.py:50-56 | a reservation is for the time of the call, or, if that is too early, exactly for the last reservation on its host and the interval in force then |
| `HostRules.IntervalIsLongestAsked` | src/gamecrafter/infrastructure/ingestion/scheduler.py:64-69 | the interval in force on a host is the longest of the default and all that were asked for |
| `HostRules.ReservedIntervalIsInForce` | src/gamecrafter/infrastructure/ingestion/scheduler.py:50-56 | every reservation carries that interval |
| `HostScheduler.NeverDeadlocked` | src/gamecrafter/infrastructure/ingestion/scheduler.py:39-62 | whenever a thread is inside a slot call, some thread can take its next step |
| `HostScheduler.EveryoneCanLeave` | src/gamecrafter/infrastructure/ingestion/scheduler.py:39-62 | from every reachable state all threads can leave |
| `HostScheduler.HostAccessScheduler.ReserveSlot` | src/gamecrafter/infrastructure/ingestion/scheduler.py:50-56 | the reservation block is the reservation step of the state machine |
| `HostScheduler.HostAccessScheduler.AwaitTurn` | src/gamecrafter/infrastructure/ingestion/scheduler.py:57-60 | the wait is the step that lets the request go, a sleep being at least as long as asked for |
| `HostScheduler.HostAccessScheduler.UpdateHostInterval` | src/gamecrafter/infrastructure/ingestion/scheduler.py:64-69 | the update is the slow-down step, and a negative interval is refused |
| `EventCursor.UtcNow` | src/gamecrafter/infrastructure/database/models.py:42-56 | a timestamp is the earliest one that is later than the last one and not before the clock |
| `EventCursor.TimestampsIncrease` | src/gamecrafter/infrastructure/database/models.py:42-56 | one process never repeats or reverses a timestamp, however its clock behaves |
| `EventCursor.PollReturnsTheRest` | src/gamecrafter/infrastructure/database/workspace_service.py:471-501 | with increasing timestamps a poll returns exactly the events behind the cursor, in order |
| `EventCursor.DeliveredIsPrefix` | src/gamecrafter/api/routes/workspace.py:248-260 | for every interleaving of appends, polls, interrupted deliveries and reconnects the delivered events are a prefix of the log |
| `EventCursor.CompletePollDeliversAll` | src/gamecrafter/api/routes/workspace.py:248-260 | after a fully received poll the client has the whole log |
| `EventCursor.PollIsExact` | src/gamecrafter/infrastructure/database/workspace_service.py:471-501 | a poll returns an event exactly if it is in the log and ordered behind the cursor |
| `EventCursor.LateEventIsLost` | src/gamecrafter/infrastructure/database/workspace_service.py:471-501 | an event appended at or before the cursor is never delivered, whatever happens next |
| `EventCursor.DeliveredIffBehindCursor` | src/gamecrafter/infrastructure/database/workspace_service.py:471-501 | for any timestamps and any interleaving, an event has arrived after a later poll received in full if and only if it was ordered behind the client's cursor when it was appended |
| `EventCursor.LaggingProcessLosesAnEvent` | src/gamecrafter/infrastructure/database/workspace_service.py:471-501 | an instance: an event with an earlier timestamp than the one already delivered never arrives |
| `EventCursor.NothingIsDeliveredTwice` | src/gamecrafter/api/routes/workspace.py:248-260 | for any timestamps and any interleaving, events arrive in their order and none twice |
| `EventCursor.PollOnce` | src/gamecrafter/infrastructure/database/workspace_service.py:471-501 | selects and orders the rows of the statement, and refuses a cursor of another run |
| `EventCursor.Deliver` | src/gamecrafter/api/routes/workspace.py:232-260 | a connection sends the batches of its polls up to the first terminal one, each behind the last event sent, and refuses a cursor of another run, for any timestamps |
| `EventCursor.SentCompletesTheLog` | src/gamecrafter/api/routes/workspace.py:248-260 | with increasing timestamps a connection completes what the client had to the log of its last poll |
| `EventCursor.SentAscends` | src/gamecrafter/api/routes/workspace.py:248-260 | with any timestamps a connection sends only events behind its cursor, in their order and none twice |

## Left out

- Front end, HTTP routes other than the event stream's loop, migrations, column definitions, object storage and the network.
- Project, source and entity existence checks, `FOR UPDATE` on the project row, and the length checks of command metadata: each command is modelled from the point where they have passed.
- Audit rows of knowledge, agent-review, topic and script commands; the job queue's audit rows are modelled in full.
- Message texts, blocker counts and contexts, read-model serialisers other than the snapshot's, and rendering to Markdown.
- Ordering by creation time and id is append order; two processes with unsynchronised clocks are modelled for the event stream only.
- Claim-value normalisation, JSON encoding, NFKC and title tokenisation: normalised values, word sets and encoded sizes are data or parameters; case folding is a parameter.
- Digest truncation (cluster keys of 16 hexadecimal digits, pack keys of 48) is not modelled; keys are kept whole.
- Quote repair covers one claim's evidence list; JSON parsing and the loop over claims repeat it.
- Translating chunk offsets to document offsets while decoding model output is not part of this model.
- Discovery-candidate selection inside `enqueue`, the `cancelled` status and runs with several jobs.
- The shortcut of the review job for an extraction that was already reviewed, and the checks of `create_run` and `create_task` beyond the ranges in `Inputs.Valid`.
- The single checks of `_target`: whether the target can be read before the harness, and is the same afterwards, are parameters; the source-version and document-digest comparisons compare the document with itself. Object storage returns what was stored.
- Script content of the wrong JSON shape (missing fields, wrong types): content is typed, so only the value checks remain.
- Topic-fit scores, freshness labels and the single-signal view of a trend signal.
- Script run rows of different runs do not interact; one run is modelled.
- QueueDatabase.QueueService.RunOnce: a refused settling call is the reply LeaseLost; that it leaves the worker as an exception is not modelled.
- EvidenceCapture.ExtractText: starts from the visible text; the HTML parser that collects it, titles and images are not part of this model.
- KnowledgeReplays.RepeatedConfirmationIsExact: the decisions are those of one agent review; a newer review of the same extraction would bring others.
- TemplateLimits.TemplateValidExactly: the size of the JSON encoding is a parameter.
- HostScheduler.HostAccessScheduler.AwaitTurn: a sleep lasts at least as long as asked for; URL parsing is not modelled.
- ReviewWorklist.Gateway: the response schema is a parameter; an answer that fails it is a gateway error.
- ExtractionRepository.ValidationAlwaysPasses: one executor per attempt at a time, and unchanged document, chunker and versions per run, as the immutable source version gives.
- HostScheduler.ReservationsAreSpaced: times are real numbers, not floats.
- HostScheduler.EveryoneCanLeave: a schedule exists; semaphore fairness is not modelled.
- EventCursor.DeliveredIsPrefix: assumes increasing timestamps in commit order, which TimestampsIncrease gives when one process writes and commits in that order; DeliveredIffBehindCursor says exactly what happens otherwise.
- EventCursor.Deliver: the log only grows between polls; keep-alive comments and the encoding of an event are not modelled.
- TrendClusters.KeysClashOnlyWithoutWords: assumes that equal normalised titles have equal word sets, since the words are computed from the title.
- TrendClusters.KeysClashExactly: the same assumption.
