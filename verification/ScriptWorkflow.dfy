/** One script run: its version chain, evaluations, final reviews and exports, over every history of commands. */
module ScriptWorkflow {
  import opened Prelude
  import opened ScriptContent

  datatype Origin = Generated | HumanEdit | AutoRevision

  /** Rows are named by their position; the parent is a version's position. */
  datatype Version = Version(number: nat, parent: Option<nat>, origin: Origin, content: Content, author: string,
                             key: string)

  datatype Evaluation = Evaluation(version: nat, report: Report, passed: bool, key: string)

  datatype FinalDecision = ApproveFinal | RejectFinal

  datatype FinalReview = FinalReview(
    version: nat, evaluation: nat, decision: FinalDecision, reason: string, reviewer: string, key: string)

  datatype Format = Markdown | Json

  /** The payload digest is taken as injective: it stands for the rendered content. */
  datatype Export = Export(version: nat, review: nat, format: Format, payload: Content, key: string)

  datatype Run = Run(versions: seq<Version>, evaluations: seq<Evaluation>, reviews: seq<FinalReview>,
                     exports: seq<Export>)

  /** How content is judged for this run; RulesOf gives the source's own rules. */
  datatype Rules = Rules(template: Content, valid: Content -> bool, report: Content -> Report, budget: nat,
                         threshold: nat)

  ghost function RulesOf(input: Inputs): Rules
    requires input.Valid()
  {
    Rules(Template(input), (c: Content) => ContentOk(input, c), (c: Content) => ScoreOf(input, c), input.budget,
          input.threshold)
  }

  datatype Refusal =
    | NoVersion | KeyReused | AlreadyGenerated | NothingToEdit | InvalidContent | NotEvaluated | AlreadyPasses
    | BudgetExhausted | FailingScript | NotApproved

  /** A command's reply: the row it created or found, and whether it was created. */
  type Reply = Result<(nat, bool), Refusal>

  // ---------------------------------------------------------------- look-ups

  function FindVersion(versions: seq<Version>, key: string): (r: Option<nat>)
    ensures r.Some? ==> r.value < |versions| && versions[r.value].key == key
    ensures r == None ==> forall i :: 0 <= i < |versions| ==> versions[i].key != key
  {
    if versions == [] then None
    else if versions[|versions| - 1].key == key then Some(|versions| - 1)
    else FindVersion(versions[..|versions| - 1], key)
  }

  function FindEvaluation(evaluations: seq<Evaluation>, key: string): (r: Option<nat>)
    ensures r.Some? ==> r.value < |evaluations| && evaluations[r.value].key == key
    ensures r == None ==> forall i :: 0 <= i < |evaluations| ==> evaluations[i].key != key
  {
    if evaluations == [] then None
    else if evaluations[|evaluations| - 1].key == key then Some(|evaluations| - 1)
    else FindEvaluation(evaluations[..|evaluations| - 1], key)
  }

  function FindReview(reviews: seq<FinalReview>, key: string): (r: Option<nat>)
    ensures r.Some? ==> r.value < |reviews| && reviews[r.value].key == key
    ensures r == None ==> forall i :: 0 <= i < |reviews| ==> reviews[i].key != key
  {
    if reviews == [] then None
    else if reviews[|reviews| - 1].key == key then Some(|reviews| - 1)
    else FindReview(reviews[..|reviews| - 1], key)
  }

  function FindExport(exports: seq<Export>, key: string): (r: Option<nat>)
    ensures r.Some? ==> r.value < |exports| && exports[r.value].key == key
    ensures r == None ==> forall i :: 0 <= i < |exports| ==> exports[i].key != key
  {
    if exports == [] then None
    else if exports[|exports| - 1].key == key then Some(|exports| - 1)
    else FindExport(exports[..|exports| - 1], key)
  }

  function LatestEvaluation(evaluations: seq<Evaluation>, v: nat): (r: Option<nat>)
    ensures r.Some? ==> r.value < |evaluations| && evaluations[r.value].version == v
    ensures r == None ==> forall i :: 0 <= i < |evaluations| ==> evaluations[i].version != v
    ensures r.Some? ==> forall i :: r.value < i < |evaluations| ==> evaluations[i].version != v
  {
    if evaluations == [] then None
    else if evaluations[|evaluations| - 1].version == v then Some(|evaluations| - 1)
    else LatestEvaluation(evaluations[..|evaluations| - 1], v)
  }

  function LatestApproval(reviews: seq<FinalReview>, v: nat): (r: Option<nat>)
    ensures r.Some?
      ==> r.value < |reviews| && reviews[r.value].version == v && reviews[r.value].decision == ApproveFinal
    ensures r == None ==> forall i :: 0 <= i < |reviews| ==>
      !(reviews[i].version == v && reviews[i].decision == ApproveFinal)
  {
    if reviews == [] then None
    else
      var last := reviews[|reviews| - 1];
      if last.version == v && last.decision == ApproveFinal then Some(|reviews| - 1)
      else LatestApproval(reviews[..|reviews| - 1], v)
  }

  function Revisions(versions: seq<Version>): nat {
    if versions == [] then 0
    else Revisions(versions[..|versions| - 1]) + if versions[|versions| - 1].origin == AutoRevision then 1 else 0
  }

  function Next(r: Run, origin: Origin, content: Content, author: string, key: string): Version {
    var n := |r.versions|;
    Version(if n == 0 then 1 else r.versions[n - 1].number + 1, if n == 0 then None else Some(n - 1),
            origin, content, author, key)
  }

  function Adding(r: Run, v: Version): Run {
    r.(versions := r.versions + [v])
  }

  // ---------------------------------------------------------------- commands

  /** `_create_version` for the template (`given` is None) or for a human edit. */
  ghost function CreateVersion(rules: Rules, r: Run, given: Option<Content>, author: string, key: string): (Run, Reply)
  {
    var origin := if given.Some? then HumanEdit else Generated;
    var content := if given.Some? then given.value else rules.template;
    match FindVersion(r.versions, key)
    case Some(v) =>
      if !rules.valid(content) then (r, Failure(InvalidContent))
      else if r.versions[v].origin != origin || r.versions[v].content != content then (r, Failure(KeyReused))
      else (r, Success((v, false)))
    case None =>
      if given == None && r.versions != [] then (r, Failure(AlreadyGenerated))
      else if given.Some? && r.versions == [] then (r, Failure(NothingToEdit))
      else if !rules.valid(content) then (r, Failure(InvalidContent))
      else (Adding(r, Next(r, origin, content, author, key)), Success((|r.versions|, true)))
  }

  /** `evaluate` */
  ghost function Evaluate(rules: Rules, r: Run, v: nat, key: string): (Run, Reply) {
    if v >= |r.versions| then (r, Failure(NoVersion))
    else match FindEvaluation(r.evaluations, key)
      case Some(e) => if r.evaluations[e].version != v then (r, Failure(KeyReused)) else (r, Success((e, false)))
      case None =>
        var report := rules.report(r.versions[v].content);
        (r.(evaluations := r.evaluations + [Evaluation(v, report, report.Score() >= rules.threshold, key)]),
         Success((|r.evaluations|, true)))
  }

  /** The first reason against revising the latest version; none when it failed its evaluation within the budget. */
  function MayRevise(budget: nat, r: Run): Option<Refusal> {
    if r.versions == [] then Some(NoVersion)
    else
      var latest := LatestEvaluation(r.evaluations, |r.versions| - 1);
      if latest == None then Some(NotEvaluated)
      else if r.evaluations[latest.value].passed then Some(AlreadyPasses)
      else if Revisions(r.versions) >= budget then Some(BudgetExhausted)
      else None
  }

  /** `revise` */
  ghost function Revise(rules: Rules, r: Run, author: string, key: string): (Run, Reply)
  {
    match FindVersion(r.versions, key)
    case Some(v) => if r.versions[v].origin != AutoRevision then (r, Failure(KeyReused)) else (r, Success((v, false)))
    case None =>
      var refusal := MayRevise(rules.budget, r);
      if refusal.Some? then (r, Failure(refusal.value))
      else if !rules.valid(rules.template) then (r, Failure(InvalidContent))
      else (Adding(r, Next(r, AutoRevision, rules.template, author, key)), Success((|r.versions|, true)))
  }

  /** `final_review` */
  function Review(r: Run, v: nat, decision: FinalDecision, reason: string, reviewer: string, key: string)
    : (Run, Reply) {
    if v >= |r.versions| then (r, Failure(NoVersion))
    else
      var latest := LatestEvaluation(r.evaluations, v);
      if latest == None then (r, Failure(NotEvaluated))
      else if decision == ApproveFinal && !r.evaluations[latest.value].passed then (r, Failure(FailingScript))
      else
        var review := FinalReview(v, latest.value, decision, reason, reviewer, key);
        match FindReview(r.reviews, key)
        case Some(i) => if r.reviews[i] != review then (r, Failure(KeyReused)) else (r, Success((i, false)))
        case None => (r.(reviews := r.reviews + [review]), Success((|r.reviews|, true)))
  }

  /** `export` */
  function Publish(r: Run, v: nat, format: Format, key: string): (Run, Reply) {
    if v >= |r.versions| then (r, Failure(NoVersion))
    else match LatestApproval(r.reviews, v)
      case None => (r, Failure(NotApproved))
      case Some(review) =>
        var export_ := Export(v, review, format, r.versions[v].content, key);
        match FindExport(r.exports, key)
        case Some(i) => if r.exports[i] != export_ then (r, Failure(KeyReused)) else (r, Success((i, false)))
        case None => (r.(exports := r.exports + [export_]), Success((|r.exports|, true)))
  }

  datatype Command =
    | Generate(author: string, key: string)
    | Edit(content: Content, author: string, key: string)
    | EvaluateVersion(version: nat, key: string)
    | ReviseLatest(author: string, key: string)
    | ReviewVersion(version: nat, decision: FinalDecision, reason: string, reviewer: string, key: string)
    | ExportVersion(version: nat, format: Format, key: string)

  ghost function Apply(rules: Rules, r: Run, c: Command): (Run, Reply)
  {
    match c
    case Generate(author, key) => CreateVersion(rules, r, None, author, key)
    case Edit(content, author, key) => CreateVersion(rules, r, Some(content), author, key)
    case EvaluateVersion(v, key) => Evaluate(rules, r, v, key)
    case ReviseLatest(author, key) => Revise(rules, r, author, key)
    case ReviewVersion(v, decision, reason, reviewer, key) => Review(r, v, decision, reason, reviewer, key)
    case ExportVersion(v, format, key) => Publish(r, v, format, key)
  }

  // ---------------------------------------------------------------- the invariant

  /** Version `k` is number k + 1 and the child of its predecessor; only the first is generated, and all are valid. */
  ghost predicate VersionOk(rules: Rules, versions: seq<Version>, k: nat)
    requires k < |versions|
  {
    var v := versions[k];
    && v.number == k + 1 && v.parent == (if k == 0 then None else Some(k - 1))
    && (v.origin == Generated <==> k == 0)
    && rules.valid(v.content)
    && (v.origin != HumanEdit ==> v.content == rules.template)
    && (v.origin == AutoRevision ==> k > 0 && !Passes(rules, versions[k - 1].content))
  }

  ghost predicate Passes(rules: Rules, c: Content) {
    rules.report(c).Score() >= rules.threshold
  }

  ghost predicate EvaluationOk(rules: Rules, r: Run, e: Evaluation) {
    && e.version < |r.versions| && e.report == rules.report(r.versions[e.version].content)
    && (e.passed <==> Passes(rules, r.versions[e.version].content))
  }

  ghost predicate ReviewOk(r: Run, f: FinalReview) {
    && f.version < |r.versions| && f.evaluation < |r.evaluations| && r.evaluations[f.evaluation].version == f.version
    && (f.decision == ApproveFinal ==> r.evaluations[f.evaluation].passed)
  }

  ghost predicate ExportOk(r: Run, x: Export) {
    && x.version < |r.versions| && x.review < |r.reviews| && x.payload == r.versions[x.version].content
    && r.reviews[x.review].version == x.version && r.reviews[x.review].decision == ApproveFinal
  }

  ghost predicate VersionsOk(rules: Rules, r: Run)
  {
    && (forall k :: 0 <= k < |r.versions| ==> VersionOk(rules, r.versions, k))
    && Revisions(r.versions) <= rules.budget
    && (forall j, k :: 0 <= j < k < |r.versions| ==> r.versions[j].key != r.versions[k].key)
  }

  ghost predicate JudgedOk(rules: Rules, r: Run) {
    && (forall e :: 0 <= e < |r.evaluations| ==> EvaluationOk(rules, r, r.evaluations[e]))
    && (forall f :: 0 <= f < |r.reviews| ==> ReviewOk(r, r.reviews[f]))
    && (forall x :: 0 <= x < |r.exports| ==> ExportOk(r, r.exports[x]))
  }

  ghost predicate Sound(rules: Rules, r: Run)
  {
    VersionsOk(rules, r) && JudgedOk(rules, r)
  }

  /** Rows are only ever appended. */
  ghost predicate Extends(r: Run, s: Run) {
    r.versions <= s.versions && r.evaluations <= s.evaluations && r.reviews <= s.reviews && r.exports <= s.exports
  }

  /** Rows that were in order stay in order when others are appended. */
  lemma OldRowsKept(rules: Rules, r: Run, s: Run)
    requires JudgedOk(rules, r) && Extends(r, s)
    ensures forall e :: 0 <= e < |r.evaluations| ==> EvaluationOk(rules, s, s.evaluations[e])
    ensures forall f :: 0 <= f < |r.reviews| ==> ReviewOk(s, s.reviews[f])
    ensures forall x :: 0 <= x < |r.exports| ==> ExportOk(s, s.exports[x])
  {
    forall e | 0 <= e < |r.evaluations| ensures EvaluationOk(rules, s, s.evaluations[e]) {
      assert EvaluationOk(rules, r, r.evaluations[e]);
    }
    forall f | 0 <= f < |r.reviews| ensures ReviewOk(s, s.reviews[f]) {
      assert ReviewOk(r, r.reviews[f]);
    }
    forall x | 0 <= x < |r.exports| ensures ExportOk(s, s.exports[x]) {
      assert ExportOk(r, r.exports[x]);
    }
  }

  lemma VersionAdded(rules: Rules, r: Run, v: Version)
    requires Sound(rules, r) && FindVersion(r.versions, v.key) == None
    requires VersionOk(rules, r.versions + [v], |r.versions|)
    requires v.origin == AutoRevision ==> Revisions(r.versions) < rules.budget
    ensures Sound(rules, Adding(r, v))
  {
    var s := Adding(r, v);
    OldRowsKept(rules, r, s);
    assert s.versions[..|s.versions| - 1] == r.versions;
    forall k | 0 <= k < |s.versions| ensures VersionOk(rules, s.versions, k) {
      assert k < |r.versions| ==> VersionOk(rules, r.versions, k);
    }
  }

  lemma VersionCommandOk(rules: Rules, r: Run, c: Command)
    requires Sound(rules, r) && (c.Generate? || c.Edit? || c.ReviseLatest?)
    ensures Sound(rules, Apply(rules, r, c).0) && Extends(r, Apply(rules, r, c).0)
  {
    var (s, reply) := Apply(rules, r, c);
    if s != r {
      var n := |r.versions|;
      var v := s.versions[n];
      assert s == Adding(r, v);
      assert n > 0 ==> VersionOk(rules, r.versions, n - 1);
      if c.ReviseLatest? {
        var latest := LatestEvaluation(r.evaluations, n - 1);
        assert EvaluationOk(rules, r, r.evaluations[latest.value]);
      }
      assert (r.versions + [v])[n] == v && (n > 0 ==> (r.versions + [v])[n - 1] == r.versions[n - 1]);
      VersionAdded(rules, r, v);
    }
  }

  lemma EvaluateOk(rules: Rules, r: Run, v: nat, key: string)
    requires Sound(rules, r)
    ensures Sound(rules, Evaluate(rules, r, v, key).0) && Extends(r, Evaluate(rules, r, v, key).0)
  {
    var s := Evaluate(rules, r, v, key).0;
    OldRowsKept(rules, r, s);
  }

  lemma ReviewKeepsOk(rules: Rules, r: Run, v: nat, decision: FinalDecision, reason: string, reviewer: string,
                      key: string)
    requires Sound(rules, r)
    ensures Sound(rules, Review(r, v, decision, reason, reviewer, key).0)
    ensures Extends(r, Review(r, v, decision, reason, reviewer, key).0)
  {
    var s := Review(r, v, decision, reason, reviewer, key).0;
    OldRowsKept(rules, r, s);
  }

  lemma ExportKeepsOk(rules: Rules, r: Run, v: nat, format: Format, key: string)
    requires Sound(rules, r)
    ensures Sound(rules, Publish(r, v, format, key).0) && Extends(r, Publish(r, v, format, key).0)
  {
    var s := Publish(r, v, format, key).0;
    OldRowsKept(rules, r, s);
  }

  /** Every command keeps the run sound and only appends to it. */
  lemma ApplyKeepsSound(rules: Rules, r: Run, c: Command)
    requires Sound(rules, r)
    ensures Sound(rules, Apply(rules, r, c).0) && Extends(r, Apply(rules, r, c).0)
  {
    match c
    case EvaluateVersion(v, key) => EvaluateOk(rules, r, v, key);
    case ReviewVersion(v, decision, reason, reviewer, key) =>
      ReviewKeepsOk(rules, r, v, decision, reason, reviewer, key);
    case ExportVersion(v, format, key) => ExportKeepsOk(rules, r, v, format, key);
    case _ => VersionCommandOk(rules, r, c);
  }

  const EMPTY := Run([], [], [], [])

  ghost function After(rules: Rules, r: Run, commands: seq<Command>): Run
  {
    if commands == [] then r
    else Apply(rules, After(rules, r, commands[..|commands| - 1]), commands[|commands| - 1]).0
  }

  lemma {:induction false} AfterIsSound(rules: Rules, r: Run, commands: seq<Command>)
    requires Sound(rules, r)
    ensures Sound(rules, After(rules, r, commands)) && Extends(r, After(rules, r, commands))
  {
    if commands != [] {
      AfterIsSound(rules, r, commands[..|commands| - 1]);
      ApplyKeepsSound(rules, After(rules, r, commands[..|commands| - 1]), commands[|commands| - 1]);
    }
  }

  ghost predicate Later(rules: Rules, r: Run, s: Run)
  {
    exists commands :: s == After(rules, r, commands)
  }

  ghost predicate Reachable(rules: Rules, r: Run)
  {
    Later(rules, EMPTY, r)
  }

  /** Every reachable run is sound. */
  lemma ReachableIsSound(rules: Rules, r: Run)
    requires Reachable(rules, r)
    ensures Sound(rules, r)
  {
    var commands :| r == After(rules, EMPTY, commands);
    AfterIsSound(rules, EMPTY, commands);
  }

  // ---------------------------------------------------------------- what every history guarantees

  /** Evaluations of one version always agree, and each still describes the stored content. */
  lemma EvaluationsAgree(rules: Rules, r: Run, d: nat, e: nat)
    requires Reachable(rules, r) && d < |r.evaluations| && e < |r.evaluations|
    requires r.evaluations[d].version == r.evaluations[e].version
    ensures r.evaluations[d].report == r.evaluations[e].report && r.evaluations[d].passed == r.evaluations[e].passed
  {
    ReachableIsSound(rules, r);
    assert EvaluationOk(rules, r, r.evaluations[d]) && EvaluationOk(rules, r, r.evaluations[e]);
  }

  /**
   * Every export carries the content of a version that an approving review names, on an evaluation of that very
   * version which passed; scoring the exported content again passes too.
   */
  lemma ExportsAreApproved(rules: Rules, r: Run, x: nat)
    requires Reachable(rules, r) && x < |r.exports|
    ensures var export_ := r.exports[x];
      && ExportOk(r, export_)
      && var review := r.reviews[export_.review];
      && ReviewOk(r, review) && r.evaluations[review.evaluation].passed
      && rules.valid(export_.payload) && Passes(rules, export_.payload)
  {
    ReachableIsSound(rules, r);
    assert ExportOk(r, r.exports[x]);
    var review := r.reviews[r.exports[x].review];
    assert ReviewOk(r, review);
    assert EvaluationOk(rules, r, r.evaluations[review.evaluation]);
    assert VersionOk(rules, r.versions, review.version);
  }

  /** Automatic revisions stay within the budget; with the generated root the versions form one chain. */
  lemma ChainIsBounded(rules: Rules, r: Run)
    requires Reachable(rules, r)
    ensures Revisions(r.versions) <= rules.budget
    ensures forall k :: 0 <= k < |r.versions| ==>
      && r.versions[k].number == k + 1 && r.versions[k].parent == (if k == 0 then None else Some(k - 1))
      && (r.versions[k].origin == Generated <==> k == 0)
  {
    ReachableIsSound(rules, r);
    forall k | 0 <= k < |r.versions|
      ensures r.versions[k].number == k + 1 && r.versions[k].parent == (if k == 0 then None else Some(k - 1))
      ensures r.versions[k].origin == Generated <==> k == 0 {
      assert VersionOk(rules, r.versions, k);
    }
  }

  lemma LaterExtends(rules: Rules, r: Run, s: Run)
    requires Sound(rules, r) && Later(rules, r, s)
    ensures Sound(rules, s) && Extends(r, s)
  {
    var commands :| s == After(rules, r, commands);
    AfterIsSound(rules, r, commands);
  }

  ghost predicate ReviewKeysUnique(reviews: seq<FinalReview>) {
    forall i, j :: 0 <= i < j < |reviews| ==> reviews[i].key != reviews[j].key
  }

  lemma ReviewKeysKept(rules: Rules, r: Run, c: Command)
    requires ReviewKeysUnique(r.reviews)
    ensures ReviewKeysUnique(Apply(rules, r, c).0.reviews)
  {
    if !c.ReviewVersion? {
      assert Apply(rules, r, c).0.reviews == r.reviews;
    }
  }

  lemma {:induction false} ReviewKeysStayUnique(rules: Rules, r: Run, commands: seq<Command>)
    requires ReviewKeysUnique(r.reviews)
    ensures ReviewKeysUnique(After(rules, r, commands).reviews)
  {
    if commands != [] {
      var front := commands[..|commands| - 1];
      ReviewKeysStayUnique(rules, r, front);
      ReviewKeysKept(rules, After(rules, r, front), commands[|commands| - 1]);
    }
  }

  lemma UniqueReviewFound(reviews: seq<FinalReview>, i: nat)
    requires ReviewKeysUnique(reviews) && i < |reviews|
    ensures FindReview(reviews, reviews[i].key) == Some(i)
  {
  }

  lemma ReachableKeysUnique(rules: Rules, r: Run)
    requires Reachable(rules, r)
    ensures ReviewKeysUnique(r.reviews)
  {
    var commands :| r == After(rules, EMPTY, commands);
    ReviewKeysStayUnique(rules, EMPTY, commands);
  }

  lemma LaterKeysUnique(rules: Rules, r: Run, s: Run)
    requires ReviewKeysUnique(r.reviews) && Later(rules, r, s)
    ensures ReviewKeysUnique(s.reviews)
  {
    var commands :| s == After(rules, r, commands);
    ReviewKeysStayUnique(rules, r, commands);
  }

  /** `first` is what an accepted review made of `r`: the review is found under its key ever after. */
  lemma ReviewStaysFound(rules: Rules, r: Run, review: FinalReview, s: Run)
    requires Reachable(rules, r) && FindReview(r.reviews, review.key) == None
    requires Sound(rules, r.(reviews := r.reviews + [review])) && Later(rules, r.(reviews := r.reviews + [review]), s)
    ensures |r.reviews| < |s.reviews| && s.reviews[|r.reviews|] == review
    ensures FindReview(s.reviews, review.key) == Some(|r.reviews|)
    ensures Sound(rules, s) && Extends(r, s)
  {
    var first := r.(reviews := r.reviews + [review]);
    ReachableKeysUnique(rules, r);
    LaterExtends(rules, first, s);
    LaterKeysUnique(rules, first, s);
    assert s.reviews[|r.reviews|] == first.reviews[|r.reviews|];
    UniqueReviewFound(s.reviews, |r.reviews|);
  }

  /**
   * An accepted final review, sent again later, is recognised as a replay exactly if its version has not been
   * evaluated again in between; otherwise the same command is refused.
   */
  lemma ReviewReplayIsExact(rules: Rules, r: Run, v: nat, decision: FinalDecision, reason: string, reviewer: string,
                            key: string, s: Run)
    requires Reachable(rules, r) && Review(r, v, decision, reason, reviewer, key).1 == Success((|r.reviews|, true))
    requires Later(rules, Review(r, v, decision, reason, reviewer, key).0, s)
    ensures var again := Review(s, v, decision, reason, reviewer, key);
      if LatestEvaluation(s.evaluations, v) == LatestEvaluation(r.evaluations, v)
      then again == (s, Success((|r.reviews|, false))) else again.1 == Failure(KeyReused)
  {
    ReachableIsSound(rules, r);
    ReviewKeepsOk(rules, r, v, decision, reason, reviewer, key);
    var review := FinalReview(v, LatestEvaluation(r.evaluations, v).value, decision, reason, reviewer, key);
    assert FindReview(r.reviews, key) == None;
    ReviewStaysFound(rules, r, review, s);
    LatestPasses(rules, r, s, v);
  }

  /** A version that was evaluated stays evaluated, with the same verdict. */
  lemma LatestPasses(rules: Rules, r: Run, s: Run, v: nat)
    requires Sound(rules, r) && Sound(rules, s) && Extends(r, s)
    requires LatestEvaluation(r.evaluations, v).Some?
    ensures LatestEvaluation(s.evaluations, v).Some?
    ensures s.evaluations[LatestEvaluation(s.evaluations, v).value].passed
      == r.evaluations[LatestEvaluation(r.evaluations, v).value].passed
  {
    var d := LatestEvaluation(r.evaluations, v).value;
    assert s.evaluations[d] == r.evaluations[d];
    var e := LatestEvaluation(s.evaluations, v).value;
    assert EvaluationOk(rules, s, s.evaluations[d]) && EvaluationOk(rules, s, s.evaluations[e]);
  }

  /** Command `k` of the history is an accepted approving review of version `v`. */
  ghost predicate ApprovedBy(rules: Rules, commands: seq<Command>, k: nat, v: nat)
    requires k < |commands|
  {
    && commands[k].ReviewVersion? && commands[k].version == v && commands[k].decision == ApproveFinal
    && Apply(rules, After(rules, EMPTY, commands[..k]), commands[k]).1.Success?
  }

  ghost predicate EverApproved(rules: Rules, commands: seq<Command>, v: nat) {
    exists k: nat :: k < |commands| && ApprovedBy(rules, commands, k, v)
  }

  lemma ApprovedByFront(rules: Rules, commands: seq<Command>, k: nat, v: nat)
    requires k < |commands| - 1
    ensures ApprovedBy(rules, commands, k, v) <==> ApprovedBy(rules, commands[..|commands| - 1], k, v)
  {
    assert commands[..|commands| - 1][..k] == commands[..k];
  }

  lemma EverApprovedStep(rules: Rules, commands: seq<Command>, v: nat)
    requires commands != []
    ensures EverApproved(rules, commands, v)
      <==> EverApproved(rules, commands[..|commands| - 1], v) || ApprovedBy(rules, commands, |commands| - 1, v)
  {
    var front := commands[..|commands| - 1];
    if EverApproved(rules, front, v) {
      var k: nat :| k < |front| && ApprovedBy(rules, front, k, v);
      ApprovedByFront(rules, commands, k, v);
    }
    if EverApproved(rules, commands, v) {
      var k: nat :| k < |commands| && ApprovedBy(rules, commands, k, v);
      if k < |front| {
        ApprovedByFront(rules, commands, k, v);
      }
    }
  }

  predicate Approves(f: FinalReview, v: nat) {
    f.version == v && f.decision == ApproveFinal
  }

  ghost predicate SomeApproval(reviews: seq<FinalReview>, v: nat) {
    exists i :: 0 <= i < |reviews| && Approves(reviews[i], v)
  }

  lemma SomeApprovalAppend(reviews: seq<FinalReview>, f: FinalReview, v: nat)
    ensures SomeApproval(reviews + [f], v) <==> SomeApproval(reviews, v) || Approves(f, v)
  {
    var longer := reviews + [f];
    if SomeApproval(reviews, v) {
      var i :| 0 <= i < |reviews| && Approves(reviews[i], v);
      assert longer[i] == reviews[i];
    }
    assert longer[|reviews|] == f;
  }

  lemma ApplyApproves(rules: Rules, r: Run, c: Command, v: nat)
    ensures SomeApproval(Apply(rules, r, c).0.reviews, v)
      <==> SomeApproval(r.reviews, v)
           || (c.ReviewVersion? && c.version == v && c.decision == ApproveFinal && Apply(rules, r, c).1.Success?)
  {
    if c.ReviewVersion? {
      var (s, reply) := Apply(rules, r, c);
      if s != r {
        SomeApprovalAppend(r.reviews, s.reviews[|r.reviews|], v);
      } else if reply.Success? && c.version == v && c.decision == ApproveFinal {
        assert Approves(r.reviews[reply.value.0], v);
      }
    } else {
      assert Apply(rules, r, c).0.reviews == r.reviews;
    }
  }

  lemma {:induction false} ApprovalsFollowCommands(rules: Rules, commands: seq<Command>, v: nat)
    ensures SomeApproval(After(rules, EMPTY, commands).reviews, v) <==> EverApproved(rules, commands, v)
  {
    if commands != [] {
      ApprovalsFollowCommands(rules, commands[..|commands| - 1], v);
      ApplyApproves(rules, After(rules, EMPTY, commands[..|commands| - 1]), commands[|commands| - 1], v);
      EverApprovedStep(rules, commands, v);
    }
  }

  /**
   * Over every history, a new export of a version succeeds if and only if at some time an approving review of it
   * was accepted, whatever was decided about it afterwards.
   */
  lemma ExportableOnceApproved(rules: Rules, commands: seq<Command>, v: nat, format: Format, key: string)
    requires FindExport(After(rules, EMPTY, commands).exports, key) == None
    ensures var r := After(rules, EMPTY, commands); var reply := Publish(r, v, format, key).1;
      && (reply.Success? <==> EverApproved(rules, commands, v))
      && (reply.Success? ==> reply == Success((|r.exports|, true)))
  {
    var r := After(rules, EMPTY, commands);
    AfterIsSound(rules, EMPTY, commands);
    ApprovalsFollowCommands(rules, commands, v);
    if SomeApproval(r.reviews, v) {
      var i :| 0 <= i < |r.reviews| && Approves(r.reviews[i], v);
      assert ReviewOk(r, r.reviews[i]);
    }
  }

  lemma AfterStep(rules: Rules, r: Run, commands: seq<Command>, c: Command)
    ensures After(rules, r, commands + [c]) == Apply(rules, After(rules, r, commands), c).0
  {
    assert (commands + [c])[..|commands|] == commands;
  }

  /** Generate, evaluate and approve, with a template that passes. */
  function ApprovedHistory(author: string): seq<Command> {
    [Generate(author, "g")] + [EvaluateVersion(0, "e")] + [ReviewVersion(0, ApproveFinal, "fine", author, "a")]
  }

  lemma ApprovedHistoryRun(rules: Rules, author: string)
    requires rules.valid(rules.template) && Passes(rules, rules.template)
    ensures After(rules, EMPTY, ApprovedHistory(author))
      == Run([Version(1, None, Generated, rules.template, author, "g")],
             [Evaluation(0, rules.report(rules.template), true, "e")],
             [FinalReview(0, 0, ApproveFinal, "fine", author, "a")], [])
  {
    var g, e := Generate(author, "g"), EvaluateVersion(0, "e");
    AfterStep(rules, EMPTY, [], g);
    assert [] + [g] == [g];
    AfterStep(rules, EMPTY, [g], e);
    AfterStep(rules, EMPTY, [g] + [e], ReviewVersion(0, ApproveFinal, "fine", author, "a"));
  }

  /** An instance: the version is approved, then rejected, and exported all the same. */
  lemma RejectionDoesNotRevoke(rules: Rules, author: string)
    requires rules.valid(rules.template) && Passes(rules, rules.template)
    ensures var reject := ReviewVersion(0, RejectFinal, "withdrawn", author, "r");
      var r := After(rules, EMPTY, ApprovedHistory(author) + [reject]);
      && |r.reviews| == 2 && r.reviews[1].version == 0 && r.reviews[1].decision == RejectFinal
      && Publish(r, 0, Markdown, "x").1 == Success((0, true))
  {
    ApprovedHistoryRun(rules, author);
    AfterStep(rules, EMPTY, ApprovedHistory(author), ReviewVersion(0, RejectFinal, "withdrawn", author, "r"));
  }

  /** An instance: the accepted approval is recognised at once, and refused after one more evaluation. */
  lemma ReplayRefusedAfterEvaluation(rules: Rules, author: string)
    requires rules.valid(rules.template) && Passes(rules, rules.template)
    ensures var r := After(rules, EMPTY, ApprovedHistory(author));
      var s := After(rules, EMPTY, ApprovedHistory(author) + [EvaluateVersion(0, "again")]);
      && Review(r, 0, ApproveFinal, "fine", author, "a") == (r, Success((0, false)))
      && Review(s, 0, ApproveFinal, "fine", author, "a") == (s, Failure(KeyReused))
  {
    ApprovedHistoryRun(rules, author);
    AfterStep(rules, EMPTY, ApprovedHistory(author), EvaluateVersion(0, "again"));
  }

  // ---------------------------------------------------------------- with the source's own rules

  /** The inputs that the topic service supplies. */
  ghost predicate FromTopicGate(input: Inputs) {
    input.Valid() && KeepsLowerCase(input.fold) && exists game :: input.hook == TopicHook(input.signalTitle, game)
  }

  lemma TemplateAlwaysPasses(input: Inputs, c: Content)
    requires FromTopicGate(input) && c == Template(input) && ContentOk(input, c)
    ensures ScoreOf(input, c).Score() == 100 && Passes(RulesOf(input), c)
  {
    var game :| input.hook == TopicHook(input.signalTitle, game);
    TopicHooksAreLongEnough(input.signalTitle, game);
    TemplateScores(input, c);
  }

  /** Whenever the template is valid it passes with the full score. */
  ghost predicate TemplatePasses(rules: Rules) {
    rules.valid(rules.template) ==> rules.report(rules.template).Score() == 100 && Passes(rules, rules.template)
  }

  /** The source's rules make every template pass. */
  lemma TopicGateRules(input: Inputs)
    requires FromTopicGate(input)
    ensures TemplatePasses(RulesOf(input))
  {
    if ContentOk(input, Template(input)) {
      TemplateAlwaysPasses(input, Template(input));
    }
  }

  lemma TemplateVersionPasses(rules: Rules, r: Run, k: nat)
    requires TemplatePasses(rules) && VersionsOk(rules, r) && k < |r.versions| && r.versions[k].origin != HumanEdit
    ensures r.versions[k].content == rules.template && rules.report(rules.template).Score() == 100
      && Passes(rules, rules.template)
  {
    assert VersionOk(rules, r.versions, k);
  }

  /**
   * Automatic revision only ever undoes a failing human edit: it restores the generated content exactly, so the
   * revised version passes with the full score and no two automatic revisions are adjacent.
   */
  lemma RevisionUndoesAnEdit(rules: Rules, r: Run, k: nat)
    requires TemplatePasses(rules) && Reachable(rules, r) && k < |r.versions| && r.versions[k].origin == AutoRevision
    ensures k > 0 && r.versions[k - 1].origin == HumanEdit && !Passes(rules, r.versions[k - 1].content)
    ensures r.versions[k].content == r.versions[0].content && rules.report(r.versions[k].content).Score() == 100
    ensures Passes(rules, r.versions[k].content)
  {
    ReachableIsSound(rules, r);
    assert VersionOk(rules, r.versions, k) && VersionOk(rules, r.versions, 0);
    TemplateVersionPasses(rules, r, k);
    if r.versions[k - 1].origin != HumanEdit {
      TemplateVersionPasses(rules, r, k - 1);
    }
  }

  /** A failing evaluation is always one of a human edit. */
  lemma OnlyEditsFail(rules: Rules, r: Run, e: nat)
    requires TemplatePasses(rules) && Reachable(rules, r) && e < |r.evaluations| && !r.evaluations[e].passed
    ensures r.evaluations[e].version < |r.versions| && r.versions[r.evaluations[e].version].origin == HumanEdit
  {
    ReachableIsSound(rules, r);
    var v := r.evaluations[e].version;
    assert EvaluationOk(rules, r, r.evaluations[e]);
    if r.versions[v].origin != HumanEdit {
      TemplateVersionPasses(rules, r, v);
    }
  }

  /** Every stored version of every run tiles the requested duration. */
  lemma StoredVersionsTile(input: Inputs, r: Run, v: nat, t: nat)
    requires input.Valid() && Reachable(RulesOf(input), r) && v < |r.versions| && t < input.duration
    ensures var sections := r.versions[v].content.sections;
      && (exists k :: 0 <= k < |sections| && Shows(sections[k], t))
      && (forall j, k :: 0 <= j < k < |sections| ==> !(Shows(sections[j], t) && Shows(sections[k], t)))
  {
    ReachableIsSound(RulesOf(input), r);
    assert VersionOk(RulesOf(input), r.versions, v);
    ValidContentTiles(input, r.versions[v].content, t);
  }
}
