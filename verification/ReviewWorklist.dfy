/** The bisecting worklist that asks a model to review candidate claims in batches of eight. */
module ReviewWorklist {
  import opened Prelude
  import opened KnowledgePublication

  datatype Candidate = Candidate(id: nat, predicate_: string, value: string, quotes: seq<string>)

  datatype AgentDecision = AgentDecision(
    id: nat, verdict: PackVerdict, suggested: Option<string>, priority: nat, reasonCode: string, rationale: string,
    risks: set<string>)

  datatype Usage = Usage(input: nat, output: nat, total: nat)

  /** What the model sends back, once it has passed the response schema. */
  datatype Answer = Answer(fingerprint: string, decisions: seq<AgentDecision>, usage: Usage)

  /** Any model at all: each call may fail, and answers are arbitrary. */
  type Model = (nat, seq<Candidate>) -> Option<Answer>

  const BATCH: nat := 8

  predicate UniqueIds(s: seq<nat>) {
    forall i, j :: 0 <= i < j < |s| ==> s[i] != s[j]
  }

  function CandidateIds(batch: seq<Candidate>): (s: seq<nat>)
    ensures |s| == |batch|
  {
    seq(|batch|, i requires 0 <= i < |batch| => batch[i].id)
  }

  function DecisionIds(ds: seq<AgentDecision>): (s: seq<nat>)
    ensures |s| == |ds|
  {
    seq(|ds|, i requires 0 <= i < |ds| => ds[i].id)
  }

  function Elements<T>(s: seq<T>): set<T> {
    set x | x in s
  }

  /** The gateway's last check: one decision for every requested claim id and no other. */
  predicate Answers(batch: seq<Candidate>, ds: seq<AgentDecision>) {
    UniqueIds(DecisionIds(ds)) && Elements(DecisionIds(ds)) == Elements(CandidateIds(batch))
  }

  /** `review` of the gateway: the answer to call number `n`, or None for a gateway error. */
  function Gateway(model: Model, n: nat, batch: seq<Candidate>): (r: Option<Answer>)
    ensures r.Some? ==> Answers(batch, r.value.decisions)
  {
    var answer := model(n, batch);
    if answer.Some? && Answers(batch, answer.value.decisions) then answer else None
  }

  // ---------------------------------------------------------------- the worklist

  datatype Reviewed = Reviewed(batch: seq<Candidate>, answer: Answer)

  /** How the loop ends: all batches answered, or a single candidate failed. `calls` counts the calls so far. */
  datatype Outcome = Finished(log: seq<Reviewed>, calls: nat) | Stopped(batch: seq<Candidate>, calls: nat)

  predicate NonEmpty(pending: seq<seq<Candidate>>) {
    forall i :: 0 <= i < |pending| ==> pending[i] != []
  }

  /** The most calls the pending batches can still cost. */
  function Weight(pending: seq<seq<Candidate>>): int {
    if pending == [] then 0 else 2 * |pending[0]| - 1 + Weight(pending[1..])
  }

  function Bisect(batch: seq<Candidate>): seq<seq<Candidate>> {
    [batch[..|batch| / 2], batch[|batch| / 2..]]
  }

  lemma {:induction false} WeightIsPositive(pending: seq<seq<Candidate>>)
    requires NonEmpty(pending)
    ensures Weight(pending) >= |pending|
  {
    if pending != [] {
      WeightIsPositive(pending[1..]);
    }
  }

  lemma BisectLightens(batch: seq<Candidate>, rest: seq<seq<Candidate>>)
    requires |batch| > 1
    ensures Weight(Bisect(batch) + rest) == Weight([batch] + rest) - 1
    ensures NonEmpty(rest) ==> NonEmpty(Bisect(batch) + rest)
  {
    var halves := Bisect(batch);
    assert (halves + rest)[1..] == [halves[1]] + rest && ([halves[1]] + rest)[1..] == rest;
    assert ([batch] + rest)[1..] == rest;
  }

  function Logged(entry: Reviewed, o: Outcome): Outcome {
    if o.Finished? then o.(log := [entry] + o.log) else o
  }

  /** Works off the pending batches from call number `n` on; a failing batch is replaced by its two halves. */
  function Drain(model: Model, n: nat, pending: seq<seq<Candidate>>): Outcome
    requires NonEmpty(pending)
    decreases Weight(pending)
  {
    WeightIsPositive(pending);
    if pending == [] then Finished([], n)
    else
      var batch, rest := pending[0], pending[1..];
      assert pending == [batch] + rest;
      WeightIsPositive(rest);
      match Gateway(model, n, batch)
      case Some(answer) => Logged(Reviewed(batch, answer), Drain(model, n + 1, rest))
      case None =>
        if |batch| == 1 then Stopped(batch, n + 1)
        else
          BisectLightens(batch, rest);
          Drain(model, n + 1, Bisect(batch) + rest)
  }

  function Flatten<T>(s: seq<seq<T>>): seq<T> {
    if s == [] then [] else s[0] + Flatten(s[1..])
  }

  function Batches(log: seq<Reviewed>): seq<Candidate> {
    if log == [] then [] else log[0].batch + Batches(log[1..])
  }

  function Decisions(log: seq<Reviewed>): seq<AgentDecision> {
    if log == [] then [] else log[0].answer.decisions + Decisions(log[1..])
  }

  function Tokens(log: seq<Reviewed>): Usage {
    if log == [] then Usage(0, 0, 0)
    else
      var rest, u := Tokens(log[1..]), log[0].answer.usage;
      Usage(u.input + rest.input, u.output + rest.output, u.total + rest.total)
  }

  /** Every batch was answered in full. */
  ghost predicate AllAnswered(log: seq<Reviewed>) {
    forall i :: 0 <= i < |log| ==> log[i].batch != [] && Answers(log[i].batch, log[i].answer.decisions)
  }

  /** Calls stay within the weight, and only a failing single candidate stops the loop. */
  lemma {:induction false} DrainStaysWithinWeight(model: Model, n: nat, pending: seq<seq<Candidate>>)
    requires NonEmpty(pending)
    ensures var o := Drain(model, n, pending);
      && n <= o.calls <= n + Weight(pending)
      && (o.Stopped? ==> o.calls > n && |o.batch| == 1 && Gateway(model, o.calls - 1, o.batch) == None)
    decreases Weight(pending)
  {
    WeightIsPositive(pending);
    if pending != [] {
      var batch, rest := pending[0], pending[1..];
      assert pending == [batch] + rest;
      WeightIsPositive(rest);
      if Gateway(model, n, batch).Some? {
        DrainStaysWithinWeight(model, n + 1, rest);
      } else if |batch| > 1 {
        BisectLightens(batch, rest);
        DrainStaysWithinWeight(model, n + 1, Bisect(batch) + rest);
      }
    }
  }

  /** The answered batches, put end to end, are the pending candidates in their order. */
  lemma {:induction false} DrainCoversAll(model: Model, n: nat, pending: seq<seq<Candidate>>)
    requires NonEmpty(pending)
    ensures var o := Drain(model, n, pending);
      o.Finished? ==> Batches(o.log) == Flatten(pending) && AllAnswered(o.log)
    decreases Weight(pending)
  {
    WeightIsPositive(pending);
    if pending != [] {
      var batch, rest := pending[0], pending[1..];
      assert pending == [batch] + rest;
      WeightIsPositive(rest);
      if Gateway(model, n, batch).Some? {
        DrainCoversAll(model, n + 1, rest);
      } else if |batch| > 1 {
        BisectLightens(batch, rest);
        DrainCoversAll(model, n + 1, Bisect(batch) + rest);
      }
    }
  }

  /** The model answers every single candidate, whatever it does with larger batches. */
  ghost predicate AnswersSingles(model: Model) {
    forall n: nat, c: Candidate :: Gateway(model, n, [c]).Some?
  }

  /** A model that answers single candidates is never stopped. */
  lemma SinglesSuffice(model: Model, n: nat, pending: seq<seq<Candidate>>)
    requires NonEmpty(pending) && AnswersSingles(model)
    ensures Drain(model, n, pending).Finished?
  {
    DrainStaysWithinWeight(model, n, pending);
    forall m: nat, batch: seq<Candidate> | |batch| == 1 ensures Gateway(model, m, batch).Some? {
      assert batch == [batch[0]];
    }
  }

  /** The weight is the exact cost when only single candidates are ever answered. */
  lemma {:induction false} BoundIsReached(model: Model, n: nat, pending: seq<seq<Candidate>>)
    requires NonEmpty(pending) && AnswersSingles(model)
    requires forall m: nat, batch: seq<Candidate> :: |batch| > 1 ==> Gateway(model, m, batch) == None
    ensures Drain(model, n, pending).calls == n + Weight(pending)
    decreases Weight(pending)
  {
    WeightIsPositive(pending);
    if pending != [] {
      var batch, rest := pending[0], pending[1..];
      assert pending == [batch] + rest;
      WeightIsPositive(rest);
      if |batch| == 1 {
        assert batch == [batch[0]];
        BoundIsReached(model, n + 1, rest);
      } else {
        BisectLightens(batch, rest);
        BoundIsReached(model, n + 1, Bisect(batch) + rest);
      }
    }
  }

  // ---------------------------------------------------------------- the first split

  /** `candidates[offset : offset + 8] for offset in range(0, len(candidates), 8)` */
  function FirstBatches(cs: seq<Candidate>): seq<seq<Candidate>> {
    if cs == [] then []
    else if |cs| <= BATCH then [cs]
    else [cs[..BATCH]] + FirstBatches(cs[BATCH..])
  }

  lemma {:induction false} FirstBatchesExact(cs: seq<Candidate>)
    ensures var b := FirstBatches(cs);
      && NonEmpty(b) && Flatten(b) == cs && Weight(b) == 2 * |cs| - (|cs| + 7) / 8
      && forall i :: 0 <= i < |b| ==> |b[i]| <= BATCH
  {
    if |cs| > BATCH {
      FirstBatchesExact(cs[BATCH..]);
      assert FirstBatches(cs)[1..] == FirstBatches(cs[BATCH..]);
      assert cs[..BATCH] + cs[BATCH..] == cs;
    } else if cs != [] {
      assert [cs][1..] == [] && cs + [] == cs;
    }
  }

  /** `review`: the whole loop over the candidates of one extraction. */
  function ReviewAll(model: Model, candidates: seq<Candidate>): Outcome {
    FirstBatchesExact(candidates);
    Drain(model, 0, FirstBatches(candidates))
  }

  datatype Collected = Collected(fingerprints: seq<string>, decisions: seq<AgentDecision>, usage: Usage)

  /** What the loop has gathered from the answers so far. */
  ghost predicate Gathered(log: seq<Reviewed>, c: Collected) {
    c.decisions == Decisions(log) && c.usage == Tokens(log) && |c.fingerprints| == |log|
    && forall i :: 0 <= i < |log| ==> c.fingerprints[i] == log[i].answer.fingerprint
  }

  function Extend(c: Collected, a: Answer): Collected {
    Collected(c.fingerprints + [a.fingerprint], c.decisions + a.decisions, Plus(c.usage, a.usage))
  }

  function Plus(u: Usage, v: Usage): Usage {
    Usage(u.input + v.input, u.output + v.output, u.total + v.total)
  }

  lemma {:induction false} LogNext(log: seq<Reviewed>, entry: Reviewed)
    ensures Decisions(log + [entry]) == Decisions(log) + entry.answer.decisions
    ensures Tokens(log + [entry]) == Plus(Tokens(log), entry.answer.usage)
  {
    if log == [] {
      assert log + [entry] == [entry];
      assert entry.answer.decisions + [] == entry.answer.decisions;
    } else {
      LogNext(log[1..], entry);
      assert (log + [entry])[1..] == log[1..] + [entry];
    }
  }

  lemma GatherNext(log: seq<Reviewed>, c: Collected, entry: Reviewed)
    requires Gathered(log, c)
    ensures Gathered(log + [entry], Extend(c, entry.answer))
  {
    LogNext(log, entry);
  }

  ghost function Continued(log: seq<Reviewed>, o: Outcome): Outcome {
    if o.Finished? then o.(log := log + o.log) else o
  }

  lemma ContinueLogged(log: seq<Reviewed>, entry: Reviewed, o: Outcome)
    ensures Continued(log, Logged(entry, o)) == Continued(log + [entry], o)
  {
    if o.Finished? {
      assert log + ([entry] + o.log) == (log + [entry]) + o.log;
    }
  }

  /** `KnowledgeReviewHandlers.review`: pops and splices the worklist until it is empty or a single candidate fails. */
  method Review(model: Model, candidates: seq<Candidate>)
    returns (gathered: Result<Collected, seq<Candidate>>, ghost outcome: Outcome)
    ensures outcome == ReviewAll(model, candidates)
    ensures gathered.Success? <==> outcome.Finished?
    ensures gathered.Success? ==> Gathered(outcome.log, gathered.value)
    ensures gathered.Failure? ==> gathered.error == outcome.batch
  {
    outcome := ReviewAll(model, candidates);
    FirstBatchesExact(candidates);
    var pending, n, c := FirstBatches(candidates), 0, Collected([], [], Usage(0, 0, 0));
    ghost var log: seq<Reviewed> := [];
    while pending != []
      invariant NonEmpty(pending) && Gathered(log, c)
      invariant outcome == Continued(log, Drain(model, n, pending))
      decreases Weight(pending)
    {
      WeightIsPositive(pending);
      var batch, rest := pending[0], pending[1..];
      assert pending == [batch] + rest;
      WeightIsPositive(rest);
      var result := Gateway(model, n, batch);
      if result == None {
        if |batch| == 1 {
          return Failure(batch), outcome;
        }
        BisectLightens(batch, rest);
        pending, n := Bisect(batch) + rest, n + 1;
      } else {
        ghost var entry := Reviewed(batch, result.value);
        ContinueLogged(log, entry, Drain(model, n + 1, rest));
        GatherNext(log, c, entry);
        log := log + [entry];
        pending, n, c := rest, n + 1, Extend(c, result.value);
      }
    }
    assert log + [] == log;
    gathered := Success(c);
  }

  // ---------------------------------------------------------------- coverage

  lemma {:induction false} UniqueIdsCount(s: seq<nat>)
    ensures |Elements(s)| <= |s|
    ensures |Elements(s)| == |s| <==> UniqueIds(s)
  {
    if s != [] {
      var front, last := s[..|s| - 1], s[|s| - 1];
      UniqueIdsCount(front);
      assert s == front + [last];
      assert Elements(s) == Elements(front) + {last};
      if last in front {
        assert Elements(s) == Elements(front);
        var i :| 0 <= i < |front| && front[i] == last;
        assert s[i] == s[|s| - 1];
      } else {
        assert last !in Elements(front);
      }
    }
  }

  lemma IdsOfConcat(a: seq<AgentDecision>, b: seq<AgentDecision>)
    ensures DecisionIds(a + b) == DecisionIds(a) + DecisionIds(b)
  {
  }

  lemma CandidateIdsOfConcat(a: seq<Candidate>, b: seq<Candidate>)
    ensures CandidateIds(a + b) == CandidateIds(a) + CandidateIds(b)
  {
  }

  lemma SplitUnique(a: seq<nat>, b: seq<nat>)
    requires UniqueIds(a + b)
    ensures UniqueIds(a) && UniqueIds(b) && Elements(a) !! Elements(b)
  {
    forall i, j | 0 <= i < |a| && 0 <= j < |b| ensures a[i] != b[j] {
      assert (a + b)[i] != (a + b)[|a| + j];
    }
    forall i, j | 0 <= i < j < |a| ensures a[i] != a[j] {
      assert (a + b)[i] != (a + b)[j];
    }
    forall i, j | 0 <= i < j < |b| ensures b[i] != b[j] {
      assert (a + b)[|a| + i] != (a + b)[|a| + j];
    }
  }

  lemma JoinUnique(a: seq<nat>, b: seq<nat>)
    requires UniqueIds(a) && UniqueIds(b) && Elements(a) !! Elements(b)
    ensures UniqueIds(a + b) && Elements(a + b) == Elements(a) + Elements(b)
  {
    forall i, j | 0 <= i < j < |a + b| ensures (a + b)[i] != (a + b)[j] {
      if i < |a| <= j {
        assert a[i] in Elements(a) && b[j - |a|] in Elements(b);
      }
    }
  }

  lemma {:induction false} OneDecisionEach(log: seq<Reviewed>)
    requires AllAnswered(log) && UniqueIds(CandidateIds(Batches(log)))
    ensures UniqueIds(DecisionIds(Decisions(log)))
    ensures Elements(DecisionIds(Decisions(log))) == Elements(CandidateIds(Batches(log)))
  {
    if log != [] {
      var batch, ds := CandidateIds(log[0].batch), DecisionIds(log[0].answer.decisions);
      var later, laterDs := CandidateIds(Batches(log[1..])), DecisionIds(Decisions(log[1..]));
      CandidateIdsOfConcat(log[0].batch, Batches(log[1..]));
      IdsOfConcat(log[0].answer.decisions, Decisions(log[1..]));
      SplitUnique(batch, later);
      OneDecisionEach(log[1..]);
      JoinUnique(batch, later);
      JoinUnique(ds, laterDs);
    }
  }

  /**
   * For any model and any pattern of failures the loop ends within 2n - ceil(n / 8) calls. If it is not stopped
   * by a single candidate, its batches are the candidates in order, every candidate has exactly one decision
   * and there are no others.
   */
  lemma ReviewIsComplete(model: Model, candidates: seq<Candidate>)
    requires UniqueIds(CandidateIds(candidates))
    ensures var o := ReviewAll(model, candidates);
      && o.calls <= 2 * |candidates| - (|candidates| + 7) / 8
      && (o.Finished? ==>
            && Batches(o.log) == candidates
            && UniqueIds(DecisionIds(Decisions(o.log)))
            && Elements(DecisionIds(Decisions(o.log))) == Elements(CandidateIds(candidates))
            && |Decisions(o.log)| == |candidates|)
      && (o.Stopped? ==> o.calls > 0 && |o.batch| == 1 && Gateway(model, o.calls - 1, o.batch) == None)
  {
    FirstBatchesExact(candidates);
    DrainCoversAll(model, 0, FirstBatches(candidates));
    DrainStaysWithinWeight(model, 0, FirstBatches(candidates));
    var o := ReviewAll(model, candidates);
    if o.Finished? {
      OneDecisionEach(o.log);
      UniqueIdsCount(DecisionIds(Decisions(o.log)));
      UniqueIdsCount(CandidateIds(candidates));
    }
  }

  /** The call bound is exact for every number of candidates. */
  lemma CallBoundIsReached(model: Model, candidates: seq<Candidate>)
    requires AnswersSingles(model)
    requires forall m: nat, batch: seq<Candidate> :: |batch| > 1 ==> Gateway(model, m, batch) == None
    ensures ReviewAll(model, candidates).Finished?
    ensures ReviewAll(model, candidates).calls == 2 * |candidates| - (|candidates| + 7) / 8
  {
    FirstBatchesExact(candidates);
    SinglesSuffice(model, 0, FirstBatches(candidates));
    BoundIsReached(model, 0, FirstBatches(candidates));
  }
}
