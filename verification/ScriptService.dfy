/** The script commands as they run against one run's rows. */
module ScriptService {
  import opened Prelude
  import opened ScriptContent
  import opened ScriptWorkflow

  /** The deterministic parts of a run, computed: whether content is accepted, and its report. */
  method Judge(input: Inputs, c: Content) returns (ok: bool)
    requires input.Valid()
    ensures ok == RulesOf(input).valid(c)
  {
    ok := ValidateContent(input, c);
  }

  method Assess(input: Inputs, c: Content) returns (report: Report, passed: bool)
    requires input.Valid()
    ensures report == RulesOf(input).report(c) && (passed <==> report.Score() >= RulesOf(input).threshold)
  {
    report := Score(input, c);
    passed := report.Score() >= input.threshold;
  }

  method FillTemplate(input: Inputs) returns (c: Content)
    requires input.Valid()
    ensures c == RulesOf(input).template
  {
    c := Template(input);
  }

  method CountRevisions(versions: seq<Version>) returns (used: nat)
    ensures used == Revisions(versions)
  {
    used := 0;
    for i := 0 to |versions|
      invariant used == Revisions(versions[..i])
    {
      assert versions[..i + 1][..i] == versions[..i];
      if versions[i].origin == AutoRevision {
        used := used + 1;
      }
    }
    assert versions[..|versions|] == versions;
  }

  /** Why the latest version may not be revised automatically, if it may not. */
  method RefuseRevision(input: Inputs, r: Run) returns (refusal: Option<Refusal>)
    ensures refusal == MayRevise(input.budget, r)
  {
    if r.versions == [] {
      return Some(NoVersion);
    }
    var evaluation := LatestEvaluation(r.evaluations, |r.versions| - 1);
    if evaluation == None {
      return Some(NotEvaluated);
    }
    if r.evaluations[evaluation.value].passed {
      return Some(AlreadyPasses);
    }
    var used := CountRevisions(r.versions);
    return if used >= input.budget then Some(BudgetExhausted) else None;
  }

  class ScriptRunStore {
    const input: Inputs
    var versions: seq<Version>
    var evaluations: seq<Evaluation>
    var reviews: seq<FinalReview>
    var exports: seq<Export>

    function State(): Run
      reads this
    {
      Run(versions, evaluations, reviews, exports)
    }

    ghost function Law(): Rules
      requires input.Valid()
    {
      RulesOf(input)
    }

    constructor (input: Inputs)
      ensures this.input == input && State() == EMPTY
    {
      this.input := input;
      versions, evaluations, reviews, exports := [], [], [], [];
    }

    /** `_create_version` */
    method CreateVersion(given: Option<Content>, author: string, key: string) returns (reply: Reply)
      requires input.Valid()
      modifies this`versions
      ensures ScriptWorkflow.CreateVersion(Law(), old(State()), given, author, key) == (State(), reply)
    {
      var origin := if given.Some? then HumanEdit else Generated;
      var content;
      if given.Some? {
        content := given.value;
      } else {
        content := FillTemplate(input);
      }
      var valid := Judge(input, content);
      var existing := FindVersion(versions, key);
      if existing.Some? {
        if !valid {
          return Failure(InvalidContent);
        }
        var v := versions[existing.value];
        return if v.origin != origin || v.content != content then Failure(KeyReused)
          else Success((existing.value, false));
      }
      if origin == Generated && versions != [] {
        return Failure(AlreadyGenerated);
      }
      if origin == HumanEdit && versions == [] {
        return Failure(NothingToEdit);
      }
      if !valid {
        return Failure(InvalidContent);
      }
      var n := |versions|;
      var version := if n == 0 then Version(1, None, origin, content, author, key)
                     else Version(versions[n - 1].number + 1, Some(n - 1), origin, content, author, key);
      versions := versions + [version];
      return Success((n, true));
    }

    /** `evaluate` */
    method Evaluate(v: nat, key: string) returns (reply: Reply)
      requires input.Valid()
      modifies this`evaluations
      ensures ScriptWorkflow.Evaluate(Law(), old(State()), v, key) == (State(), reply)
    {
      if v >= |versions| {
        return Failure(NoVersion);
      }
      var existing := FindEvaluation(evaluations, key);
      var report, passed := Assess(input, versions[v].content);
      if existing.Some? {
        return if evaluations[existing.value].version != v then Failure(KeyReused)
          else Success((existing.value, false));
      }
      evaluations := evaluations + [Evaluation(v, report, passed, key)];
      return Success((|evaluations| - 1, true));
    }

    /** `revise` */
    method Revise(author: string, key: string) returns (reply: Reply)
      requires input.Valid()
      modifies this`versions
      ensures ScriptWorkflow.Revise(Law(), old(State()), author, key) == (State(), reply)
    {
      var existing := FindVersion(versions, key);
      if existing.Some? {
        return if versions[existing.value].origin != AutoRevision then Failure(KeyReused)
          else Success((existing.value, false));
      }
      var refusal := RefuseRevision(input, State());
      if refusal.Some? {
        return Failure(refusal.value);
      }
      var latest := |versions| - 1;
      var content := FillTemplate(input);
      var valid := Judge(input, content);
      if !valid {
        return Failure(InvalidContent);
      }
      versions := versions + [Version(versions[latest].number + 1, Some(latest), AutoRevision, content, author, key)];
      return Success((latest + 1, true));
    }

    /** `final_review` */
    method FinalReview(v: nat, decision: FinalDecision, reason: string, reviewer: string, key: string)
      returns (reply: Reply)
      modifies this`reviews
      ensures Review(old(State()), v, decision, reason, reviewer, key) == (State(), reply)
    {
      if v >= |versions| {
        return Failure(NoVersion);
      }
      var evaluation := LatestEvaluation(evaluations, v);
      if evaluation == None {
        return Failure(NotEvaluated);
      }
      if decision == ApproveFinal && !evaluations[evaluation.value].passed {
        return Failure(FailingScript);
      }
      var review := ScriptWorkflow.FinalReview(v, evaluation.value, decision, reason, reviewer, key);
      var existing := FindReview(reviews, key);
      if existing.Some? {
        return if reviews[existing.value] != review then Failure(KeyReused) else Success((existing.value, false));
      }
      reviews := reviews + [review];
      return Success((|reviews| - 1, true));
    }

    /** `export` */
    method Export(v: nat, format: Format, key: string) returns (reply: Reply)
      modifies this`exports
      ensures Publish(old(State()), v, format, key) == (State(), reply)
    {
      if v >= |versions| {
        return Failure(NoVersion);
      }
      var approval := LatestApproval(reviews, v);
      if approval == None {
        return Failure(NotApproved);
      }
      var receipt := ScriptWorkflow.Export(v, approval.value, format, versions[v].content, key);
      var existing := FindExport(exports, key);
      if existing.Some? {
        return if exports[existing.value] != receipt then Failure(KeyReused) else Success((existing.value, false));
      }
      exports := exports + [receipt];
      return Success((|exports| - 1, true));
    }
  }
}
