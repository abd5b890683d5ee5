/** Persisting a governed review and confirming its pack, as the review service's transactions do it. */
module AgentReviewService {
  import opened Prelude
  import opened KnowledgeLedger
  import opened KnowledgePublication
  import opened ReviewWorklist
  import opened ReviewGovernance

  // ---------------------------------------------------------------- the passes as they run

  /** The deduplication pass, which rewrites `governed` in place while `seen` grows. */
  method DropDuplicates(facts: Facts, governed: array<AgentDecision>)
    requires Known(facts, governed[..])
    modifies governed
    ensures governed[..] == Deduplicated(facts, old(governed[..]))
  {
    ghost var ds := governed[..];
    var seen: set<Fact> := {};
    for index := 0 to governed.Length
      invariant forall i :: 0 <= i < index ==> governed[i] == Deduplicated(facts, ds)[i]
      invariant forall i :: index <= i < governed.Length ==> governed[i] == ds[i]
      invariant forall fact :: fact in seen <==> exists j :: 0 <= j < index && facts[ds[j].id] == fact
    {
      var item := governed[index];
      var fact := facts[item.id];
      if fact in seen {
        governed[index] := AsDuplicate(item);
      } else {
        seen := seen + {fact};
      }
    }
  }

  method Govern(fold: string -> string, facts: Facts, decisions: seq<AgentDecision>)
    returns (governed: seq<AgentDecision>)
    requires Known(facts, decisions)
    ensures governed == Governed(fold, facts, decisions)
  {
    var n := |decisions|;
    governed := seq(n, i requires 0 <= i < n => RejectInference(fold, decisions[i]));
    governed := seq(n, i requires 0 <= i < n && n == |governed| => EscalateRisk(governed[i]));
    governed := seq(n, i requires 0 <= i < n && n == |governed| => EscalateCorrection(governed[i]));
    assert governed == Screened(fold, decisions);
    var items := new AgentDecision[n](i requires 0 <= i < n && n == |governed| => governed[i]);
    assert items[..] == governed;
    DropDuplicates(facts, items);
    governed := items[..];
    var excess := Excess(governed);
    governed := seq(n, i requires 0 <= i < n && n == |governed| =>
      if governed[i].id in excess then AsExcess(governed[i]) else governed[i]);
  }

  /** How many decisions came to each verdict. */
  datatype Counts = Counts(approved: nat, rejected: nat, needsHuman: nat)

  function CountVerdicts(ds: seq<AgentDecision>): Counts {
    if ds == [] then Counts(0, 0, 0)
    else CountIn(CountVerdicts(ds[..|ds| - 1]), ds[|ds| - 1].verdict)
  }

  function CountIn(c: Counts, v: PackVerdict): Counts {
    match v
    case AgentApproved => c.(approved := c.approved + 1)
    case AgentRejected => c.(rejected := c.rejected + 1)
    case NeedsHuman => c.(needsHuman := c.needsHuman + 1)
  }

  ghost function Given(ds: seq<AgentDecision>, v: PackVerdict): set<nat> {
    set i: nat | i < |ds| && ds[i].verdict == v
  }

  lemma GivenNext(ds: seq<AgentDecision>, v: PackVerdict)
    requires ds != []
    ensures |Given(ds, v)| == |Given(ds[..|ds| - 1], v)| + if ds[|ds| - 1].verdict == v then 1 else 0
  {
    var n := |ds| - 1;
    assert Given(ds, v) == Given(ds[..n], v) + if ds[n].verdict == v then {n as nat} else {};
  }

  /** Each count is the number of decisions with that verdict. */
  lemma {:induction false} VerdictsAreCounted(ds: seq<AgentDecision>)
    ensures CountVerdicts(ds)
      == Counts(|Given(ds, AgentApproved)|, |Given(ds, AgentRejected)|, |Given(ds, NeedsHuman)|)
  {
    if ds != [] {
      VerdictsAreCounted(ds[..|ds| - 1]);
      GivenNext(ds, AgentApproved);
      GivenNext(ds, AgentRejected);
      GivenNext(ds, NeedsHuman);
    }
  }

  method Count(ds: seq<AgentDecision>) returns (c: Counts)
    ensures c == CountVerdicts(ds) && c.approved + c.rejected + c.needsHuman == |ds|
  {
    c := Counts(0, 0, 0);
    for i := 0 to |ds|
      invariant c == CountVerdicts(ds[..i]) && c.approved + c.rejected + c.needsHuman == i
    {
      assert ds[..i + 1][..i] == ds[..i];
      c := CountIn(c, ds[i].verdict);
    }
    assert ds[..|ds|] == ds;
  }

  lemma ApprovedIdsGrow(front: seq<AgentDecision>, last: AgentDecision)
    requires last.id !in Elements(DecisionIds(front))
    ensures |ApprovedIds(front + [last])| == |ApprovedIds(front)| + if last.verdict == AgentApproved then 1 else 0
  {
    var all := front + [last];
    forall i | 0 <= i < |front| ensures front[i].id != last.id && all[i] == front[i] {
      assert DecisionIds(front)[i] in Elements(DecisionIds(front));
    }
    assert all[|front|] == last;
    assert ApprovedIds(all) == ApprovedIds(front) + if last.verdict == AgentApproved then {last.id} else {};
  }

  lemma {:induction false} ApprovedCount(ds: seq<AgentDecision>)
    requires UniqueIds(DecisionIds(ds))
    ensures CountVerdicts(ds).approved == |ApprovedIds(ds)|
  {
    if ds != [] {
      var front, last := ds[..|ds| - 1], ds[|ds| - 1];
      assert ds == front + [last];
      IdsOfConcat(front, [last]);
      SplitUnique(DecisionIds(front), DecisionIds([last]));
      ApprovedCount(front);
      assert DecisionIds([last])[0] == last.id;
      ApprovedIdsGrow(front, last);
    }
  }

  lemma FifteenAtMost(fold: string -> string, facts: Facts, ds: seq<AgentDecision>)
    requires Known(facts, ds) && UniqueIds(DecisionIds(ds))
    ensures UniqueIds(DecisionIds(Governed(fold, facts, ds)))
    ensures CountVerdicts(Governed(fold, facts, ds)).approved <= PACK_LIMIT
  {
    PackIsBounded(fold, facts, ds);
    assert DecisionIds(Governed(fold, facts, ds)) == DecisionIds(ds);
    ApprovedCount(Governed(fold, facts, ds));
  }

  // ---------------------------------------------------------------- persist

  datatype ReviewResult = ReviewResult(
    extraction: nat, provider: string, model: string, fingerprints: seq<string>, reviewed: nat, counts: Counts,
    usage: Usage)

  datatype ReviewRow = ReviewRow(run: nat, decision: AgentDecision)

  datatype PersistError = RunNotFound | NotCovering

  method DecisionRows(run: nat, governed: seq<AgentDecision>) returns (rows: seq<ReviewRow>)
    ensures rows == RowsFor(run, governed)
  {
    rows := [];
    for i := 0 to |governed|
      invariant rows == RowsFor(run, governed[..i])
    {
      rows := rows + [ReviewRow(run, governed[i])];
    }
    assert governed[..|governed|] == governed;
  }

  class ReviewStore {
    const project: nat
    /** The project each workflow run belongs to. */
    var runProjects: map<nat, nat>
    /** The extraction and fact of each of the project's claims. */
    var claimFacts: map<nat, (nat, Fact)>
    var results: map<nat, ReviewResult>
    var rows: seq<ReviewRow>

    function FactsOf(extraction: nat): Facts
      reads this`claimFacts
    {
      map c | c in claimFacts && claimFacts[c].0 == extraction :: claimFacts[c].1
    }

    /** The decisions are about the claims of this extraction, all of them and no others. */
    ghost predicate Covers(decisions: seq<AgentDecision>, extraction: nat)
      reads this`claimFacts
    {
      forall c :: c in DecisionIds(decisions) <==> c in claimFacts && claimFacts[c].0 == extraction
    }

    lemma CoversExactly(decisions: seq<AgentDecision>, extraction: nat)
      ensures Covers(decisions, extraction) <==> Elements(DecisionIds(decisions)) == FactsOf(extraction).Keys
    {
      var ids, facts := Elements(DecisionIds(decisions)), FactsOf(extraction).Keys;
      forall c ensures c in facts <==> c in claimFacts && claimFacts[c].0 == extraction {
      }
      forall c ensures c in ids <==> c in DecisionIds(decisions) {
      }
      if Covers(decisions, extraction) {
        assert ids == facts;
      }
    }

    /** `persist`: an existing result is returned as it is; otherwise the decisions must cover the extraction. */
    method Persist(fold: string -> string, run: nat, extraction: nat, provider: string, model: string,
                   gathered: Collected)
      returns (reply: Result<ReviewResult, PersistError>)
      modifies this`results, this`rows
      ensures run in old(results) ==> results == old(results) && rows == old(rows) && reply == Success(results[run])
      ensures reply.Failure? ==> results == old(results) && rows == old(rows)
      ensures run !in old(results) && run in runProjects && runProjects[run] == project ==>
        (reply.Success? <==> Covers(gathered.decisions, extraction))
      ensures run !in old(results) && reply.Success? ==>
        && Known(FactsOf(extraction), gathered.decisions)
        && var g := Governed(fold, FactsOf(extraction), gathered.decisions);
        && results == old(results)[run := reply.value] && rows == old(rows) + RowsFor(run, g)
        && reply.value == ReviewResult(extraction, provider, model, gathered.fingerprints, |gathered.decisions|,
                                       CountVerdicts(g), gathered.usage)
    {
      if run in results {
        return Success(results[run]);
      }
      if run !in runProjects || runProjects[run] != project {
        return Failure(RunNotFound);
      }
      var facts := FactsOf(extraction);
      CoversExactly(gathered.decisions, extraction);
      if Elements(DecisionIds(gathered.decisions)) != facts.Keys {
        return Failure(NotCovering);
      }
      CoveredIsKnown(facts, gathered.decisions);
      var governed := Govern(fold, facts, gathered.decisions);
      var counts := Count(governed);
      var result := ReviewResult(extraction, provider, model, gathered.fingerprints, |governed|, counts,
                                 gathered.usage);
      var added := DecisionRows(run, governed);
      results := results[run := result];
      rows := rows + added;
      return Success(result);
    }

    /**
     * The whole review job on a fresh run: with candidates that are the extraction's claims the coverage check cannot
     * fail.
     */
    method ReviewExtraction(fold: string -> string, asked: Model, run: nat, extraction: nat, candidates: seq<Candidate>,
                            provider: string, model: string)
      returns (reply: Option<Result<ReviewResult, PersistError>>)
      requires UniqueIds(CandidateIds(candidates)) && Elements(CandidateIds(candidates)) == FactsOf(extraction).Keys
      requires run !in results && run in runProjects && runProjects[run] == project
      modifies this`results, this`rows
      ensures reply == None ==> results == old(results) && rows == old(rows)
      ensures reply.Some? <==> ReviewAll(asked, candidates).Finished?
      ensures reply.Some? ==>
        && reply.value.Success? && reply.value.value.reviewed == |candidates|
        && reply.value.value.counts.approved <= PACK_LIMIT
        && reply.value.value.usage == Tokens(ReviewAll(asked, candidates).log)
    {
      ReviewIsComplete(asked, candidates);
      var gathered;
      ghost var outcome;
      gathered, outcome := ReviewWorklist.Review(asked, candidates);
      if gathered.Failure? {
        return None;
      }
      var result := Persist(fold, run, extraction, provider, model, gathered.value);
      CoversExactly(gathered.value.decisions, extraction);
      FifteenAtMost(fold, FactsOf(extraction), gathered.value.decisions);
      return Some(result);
    }

    constructor (project: nat)
      ensures this.project == project && results == map[] && rows == []
    {
      this.project := project;
      runProjects, claimFacts, results, rows := map[], map[], map[], [];
    }
  }

  lemma CoveredIsKnown(facts: Facts, ds: seq<AgentDecision>)
    requires Elements(DecisionIds(ds)) == facts.Keys
    ensures Known(facts, ds)
  {
    forall i | 0 <= i < |ds| ensures ds[i].id in facts {
      assert DecisionIds(ds)[i] in Elements(DecisionIds(ds));
    }
  }

  function RowsFor(run: nat, ds: seq<AgentDecision>): seq<ReviewRow> {
    seq(|ds|, i requires 0 <= i < |ds| => ReviewRow(run, ds[i]))
  }

  // ---------------------------------------------------------------- confirming a knowledge pack

  function Pack(ds: seq<AgentDecision>): (s: seq<PackDecision>)
    ensures |s| == |ds|
  {
    seq(|ds|, i requires 0 <= i < |ds| => PackDecision(ds[i].id, ds[i].verdict, ds[i].reasonCode))
  }

  function Approvals(reviews: seq<KnowledgeLedger.Review>): nat {
    if reviews == [] then 0
    else Approvals(reviews[..|reviews| - 1]) + if Approves(reviews[|reviews| - 1].decision) then 1 else 0
  }

  function ProposedApprovals(ds: seq<PackDecision>): nat {
    if ds == [] then 0
    else ProposedApprovals(ds[..|ds| - 1]) + if ds[|ds| - 1].verdict == AgentApproved then 1 else 0
  }

  lemma {:induction false} PackProposals(ds: seq<AgentDecision>)
    ensures ProposedApprovals(Pack(ds)) == CountVerdicts(ds).approved
  {
    if ds != [] {
      PackProposals(ds[..|ds| - 1]);
      assert Pack(ds)[..|ds| - 1] == Pack(ds[..|ds| - 1]);
    }
  }

  /** Confirming a pack adds at most one approving review per approved decision. */
  lemma {:induction false} ConfirmedApprovalsAreCounted(l: Ledger, key: string, actor: string, ds: seq<PackDecision>)
    requires forall i :: 0 <= i < |ds| ==> ds[i].claim < |l.claims|
    ensures var m := ConfirmPack(l, key, actor, ds);
      l.reviews <= m.reviews && Approvals(m.reviews) <= Approvals(l.reviews) + ProposedApprovals(ds)
  {
    if ds != [] {
      var front := ds[..|ds| - 1];
      ConfirmedApprovalsAreCounted(l, key, actor, front);
    }
  }

  lemma SameDecisionsSameCount(a: seq<AgentDecision>, b: seq<AgentDecision>)
    requires multiset(a) == multiset(b) && UniqueIds(DecisionIds(a))
    ensures CountVerdicts(a).approved == CountVerdicts(b).approved
  {
    forall d ensures d in a <==> d in b {
      assert d in a <==> d in multiset(a);
    }
    assert |a| == |multiset(a)| == |multiset(b)| == |b|;
    SameIdSets(a, b);
    UniqueIdsCount(DecisionIds(a));
    UniqueIdsCount(DecisionIds(b));
    ApprovedCount(a);
    ApprovedCount(b);
  }

  lemma SameIdSets(a: seq<AgentDecision>, b: seq<AgentDecision>)
    requires forall d :: d in a <==> d in b
    ensures Elements(DecisionIds(a)) == Elements(DecisionIds(b)) && ApprovedIds(a) == ApprovedIds(b)
  {
    IdsWithin(a, b);
    IdsWithin(b, a);
  }

  lemma IdsWithin(a: seq<AgentDecision>, b: seq<AgentDecision>)
    requires forall d :: d in a ==> d in b
    ensures Elements(DecisionIds(a)) <= Elements(DecisionIds(b)) && ApprovedIds(a) <= ApprovedIds(b)
  {
    forall i | 0 <= i < |a|
      ensures a[i].id in Elements(DecisionIds(b)) && (a[i].verdict == AgentApproved ==> a[i].id in ApprovedIds(b)) {
      assert a[i] in b;
      var j :| 0 <= j < |b| && b[j] == a[i];
      assert DecisionIds(b)[j] == a[i].id;
    }
  }

  /** Confirming the rows of a governed review, in whatever order they are read, approves at most fifteen claims. */
  lemma ConfirmedPackIsBounded(l: Ledger, key: string, actor: string, fold: string -> string, facts: Facts,
                               ds: seq<AgentDecision>, rows: seq<AgentDecision>)
    requires Known(facts, ds) && UniqueIds(DecisionIds(ds)) && multiset(rows) == multiset(Governed(fold, facts, ds))
    requires forall i :: 0 <= i < |rows| ==> rows[i].id < |l.claims|
    ensures forall i :: 0 <= i < |Pack(rows)| ==> Pack(rows)[i].claim < |l.claims|
    ensures Approvals(ConfirmPack(l, key, actor, Pack(rows)).reviews) <= Approvals(l.reviews) + PACK_LIMIT
  {
    FifteenAtMost(fold, facts, ds);
    SameDecisionsSameCount(Governed(fold, facts, ds), rows);
    PackProposals(rows);
    ConfirmedApprovalsAreCounted(l, key, actor, Pack(rows));
  }
}
