/** What becomes of each decision of an agent review, and what the model is asked, case by case. */
module ReviewRules {
  import opened Prelude
  import opened KnowledgePublication
  import opened ReviewWorklist
  import opened ReviewGovernance

  // ---------------------------------------------------------------- governance

  /** The rationale, folded, speaks of something the claim does not say itself. */
  ghost predicate Infers(fold: string -> string, d: AgentDecision) {
    var said := " " + fold(d.rationale);
    || Contains(said, "infer") || Contains(said, "typically") || Contains(said, "standard duration")
    || Contains(said, "not explicitly") || Contains(said, "assum")
  }

  /** An earlier decision is about the same fact. */
  ghost predicate ComesSecond(facts: Facts, ds: seq<AgentDecision>, i: nat)
    requires Known(facts, ds) && i < |ds|
  {
    exists j :: 0 <= j < i && facts[ds[j].id] == facts[ds[i].id]
  }

  /** The model approves without any reservation, and first. */
  ghost predicate Unreserved(fold: string -> string, facts: Facts, ds: seq<AgentDecision>, i: nat)
    requires Known(facts, ds) && i < |ds|
  {
    && ds[i].verdict == AgentApproved && !Infers(fold, ds[i]) && ds[i].risks == {} && ds[i].suggested == None
    && !ComesSecond(facts, ds, i)
  }

  /** The decisions without reservation that have a higher priority, or the same one and a lower claim id. */
  ghost function Betters(fold: string -> string, facts: Facts, ds: seq<AgentDecision>, i: nat): set<nat>
    requires Known(facts, ds) && i < |ds|
  {
    set j | 0 <= j < |ds| && j != i && Unreserved(fold, facts, ds, j)
      && (ds[j].priority > ds[i].priority || (ds[j].priority == ds[i].priority && ds[j].id <= ds[i].id)) :: ds[j].id
  }

  lemma InfersExactly(fold: string -> string, d: AgentDecision)
    ensures Infers(fold, d) <==> ReliesOnInference(fold, d)
  {
    var said := " " + fold(d.rationale);
    assert INFERENCE_MARKERS[0] == "infer" && INFERENCE_MARKERS[1] == "typically";
    assert INFERENCE_MARKERS[2] == "standard duration" && INFERENCE_MARKERS[3] == "not explicitly";
    assert INFERENCE_MARKERS[4] == "assum" && |INFERENCE_MARKERS| == 5;
    assert Infers(fold, d) ==> exists m :: 0 <= m < |INFERENCE_MARKERS| && Contains(said, INFERENCE_MARKERS[m]);
  }

  lemma UnreservedExactly(fold: string -> string, facts: Facts, ds: seq<AgentDecision>, i: nat)
    requires Known(facts, ds) && i < |ds|
    ensures Unreserved(fold, facts, ds, i) <==> Eligible(fold, facts, ds, i)
  {
    InfersExactly(fold, ds[i]);
  }

  lemma BettersExactly(fold: string -> string, facts: Facts, ds: seq<AgentDecision>, i: nat)
    requires Known(facts, ds) && i < |ds|
    ensures Betters(fold, facts, ds, i) == Rivals(fold, facts, ds, i)
  {
    forall j: nat | j < |ds| ensures Unreserved(fold, facts, ds, j) <==> Eligible(fold, facts, ds, j) {
      UnreservedExactly(fold, facts, ds, j);
    }
    forall id ensures id in Betters(fold, facts, ds, i) <==> id in Rivals(fold, facts, ds, i) {
      if id in Betters(fold, facts, ds, i) {
        var j :| 0 <= j < |ds| && j != i && Unreserved(fold, facts, ds, j) && ds[j].id == id
          && (ds[j].priority > ds[i].priority || (ds[j].priority == ds[i].priority && ds[j].id <= ds[i].id));
        assert Eligible(fold, facts, ds, j) && Outranks(ds[j], ds[i]);
      }
      if id in Rivals(fold, facts, ds, i) {
        var j :| 0 <= j < |ds| && Eligible(fold, facts, ds, j) && j != i && Outranks(ds[j], ds[i]) && ds[j].id == id;
        assert Unreserved(fold, facts, ds, j);
      }
    }
  }

  /** An approval that is not kept is passed on, for one of these reasons, the first that applies. */
  ghost predicate PassedOn(fold: string -> string, d: AgentDecision, g: AgentDecision) {
    if Infers(fold, d) then
      g.verdict == AgentRejected && g.reasonCode == "unsupported_inference" && g.priority == 0
      && g.risks == d.risks + {"unsupported_inference"}
    else if d.risks != {} then g == d.(verdict := NeedsHuman, reasonCode := "reviewer_risk")
    else
      && d.suggested.Some?
      && g == d.(verdict := NeedsHuman, reasonCode := "predicate_correction", risks := {"taxonomy"})
  }

  /** The verdict on one decision, given where it stands among the others. */
  ghost predicate GovernedAs(fold: string -> string, facts: Facts, ds: seq<AgentDecision>, i: nat, g: AgentDecision)
    requires Known(facts, ds) && i < |ds|
  {
    var d := ds[i];
    && g.id == d.id && g.suggested == d.suggested && d.risks <= g.risks
    && if ComesSecond(facts, ds, i) then
         g.verdict == AgentRejected && g.reasonCode == "exact_duplicate" && g.priority == 0 && "duplicate" in g.risks
       else if d.verdict != AgentApproved then g == d
       else if !Unreserved(fold, facts, ds, i) then PassedOn(fold, d, g)
       else if |Betters(fold, facts, ds, i)| < 15 then g == d
       else
         && g.verdict == AgentRejected && g.reasonCode == "low_priority" && g.priority == d.priority
         && g.risks == {"pack_limit"}
  }

  lemma ScreenedAs(fold: string -> string, d: AgentDecision)
    ensures d.verdict != AgentApproved ==> Screen(fold, d) == d
    ensures d.verdict == AgentApproved && (Infers(fold, d) || d.risks != {} || d.suggested.Some?) ==>
      PassedOn(fold, d, Screen(fold, d)) && Screen(fold, d).verdict != AgentApproved
    ensures Screen(fold, d).id == d.id && Screen(fold, d).suggested == d.suggested && d.risks <= Screen(fold, d).risks
    ensures d.verdict == AgentApproved && !Infers(fold, d) && d.risks == {} && d.suggested == None
      ==> Screen(fold, d) == d
  {
    InfersExactly(fold, d);
  }

  lemma SecondIsRepeated(fold: string -> string, facts: Facts, ds: seq<AgentDecision>, i: nat)
    requires Known(facts, ds) && i < |ds|
    ensures Known(facts, Screened(fold, ds)) && (ComesSecond(facts, ds, i) <==> Repeated(facts, Screened(fold, ds), i))
  {
    var s := Screened(fold, ds);
    if j :| 0 <= j < i && facts[ds[j].id] == facts[ds[i].id] {
      assert facts[s[j].id] == facts[s[i].id];
    }
    if j :| 0 <= j < i && facts[s[j].id] == facts[s[i].id] {
      assert facts[ds[j].id] == facts[ds[i].id];
    }
  }

  lemma ExcessIsRejected(ds: seq<AgentDecision>, i: nat)
    requires UniqueIds(DecisionIds(ds)) && i < |ds|
    ensures ds[i].verdict != AgentApproved ==> Limited(ds)[i] == ds[i]
    ensures ds[i].verdict == AgentApproved && Limited(ds)[i].verdict == AgentApproved ==> Limited(ds)[i] == ds[i]
    ensures ds[i].verdict == AgentApproved && Limited(ds)[i].verdict != AgentApproved ==>
      var g := Limited(ds)[i];
      && g.id == ds[i].id && g.verdict == AgentRejected && g.suggested == ds[i].suggested
      && g.priority == ds[i].priority
      && g.reasonCode == "low_priority" && g.risks == ds[i].risks + {"pack_limit"}
  {
    LimitedExact(ds, i);
  }

  /**
   * Every decision of a review ends as one of these: a repeated fact is rejected; what the model did not approve stays
   * as it is; an approval that infers is rejected, one with a risk goes to a human, and so does one with a corrected
   * predicate; of the others the fifteen best are kept as they are and the rest are rejected.
   */
  lemma EveryDecisionIsGoverned(fold: string -> string, facts: Facts, ds: seq<AgentDecision>, i: nat)
    requires Known(facts, ds) && UniqueIds(DecisionIds(ds)) && i < |ds|
    ensures GovernedAs(fold, facts, ds, i, Governed(fold, facts, ds)[i])
  {
    var s := Screened(fold, ds);
    var d := Deduplicated(facts, s);
    assert DecisionIds(d) == DecisionIds(ds);
    GovernanceIsExact(fold, facts, ds, i);
    UnreservedExactly(fold, facts, ds, i);
    BettersExactly(fold, facts, ds, i);
    ScreenedAs(fold, ds[i]);
    SecondIsRepeated(fold, facts, ds, i);
    ExcessIsRejected(d, i);
  }

  // ---------------------------------------------------------------- the worklist

  /** The answers in the log are the model's own, each to its batch. */
  ghost predicate ModelAnswered(model: Model, log: seq<Reviewed>, calls: nat) {
    forall i :: 0 <= i < |log| ==> AnsweredBy(model, log[i], calls)
  }

  /** One of the calls so far brought this answer to this batch. */
  ghost predicate AnsweredBy(model: Model, entry: Reviewed, calls: nat) {
    exists n: nat :: n < calls && model(n, entry.batch) == Some(entry.answer)
  }

  lemma {:induction false} DrainAsksTheModel(model: Model, n: nat, pending: seq<seq<Candidate>>)
    requires NonEmpty(pending)
    ensures var o := Drain(model, n, pending); n <= o.calls && (o.Finished? ==> ModelAnswered(model, o.log, o.calls))
    decreases Weight(pending)
  {
    WeightIsPositive(pending);
    if pending != [] {
      var batch, rest := pending[0], pending[1..];
      assert pending == [batch] + rest;
      WeightIsPositive(rest);
      var answer := Gateway(model, n, batch);
      if answer.Some? {
        DrainAsksTheModel(model, n + 1, rest);
        var o, before := Drain(model, n, pending), Drain(model, n + 1, rest);
        if o.Finished? {
          assert model(n, batch) == Some(answer.value);
          assert o.log == [Reviewed(batch, answer.value)] + before.log;
          forall i | 0 <= i < |o.log| ensures AnsweredBy(model, o.log[i], o.calls) {
            assert i > 0 ==> o.log[i] == before.log[i - 1] && AnsweredBy(model, before.log[i - 1], o.calls);
          }
        }
      } else if |batch| > 1 {
        BisectLightens(batch, rest);
        DrainAsksTheModel(model, n + 1, Bisect(batch) + rest);
      }
    }
  }

  /** The answers that a finished review gathers are the model's own, at most eight candidates at a time. */
  lemma AnswersAreTheModels(model: Model, candidates: seq<Candidate>)
    ensures var o := ReviewAll(model, candidates); o.Finished? ==> ModelAnswered(model, o.log, o.calls)
  {
    FirstBatchesExact(candidates);
    DrainAsksTheModel(model, 0, FirstBatches(candidates));
  }

  /** What the answers report, added up field by field. */
  ghost function Sum(log: seq<Reviewed>, of: Usage -> nat): nat {
    if log == [] then 0 else Sum(log[..|log| - 1], of) + of(log[|log| - 1].answer.usage)
  }

  lemma {:induction false} SumFromTheLeft(log: seq<Reviewed>, of: Usage -> nat)
    requires log != []
    ensures Sum(log, of) == of(log[0].answer.usage) + Sum(log[1..], of)
  {
    var front, last := log[..|log| - 1], log[|log| - 1];
    if front != [] {
      SumFromTheLeft(front, of);
      assert log[1..][..|log[1..]| - 1] == front[1..] && log[1..][|log[1..]| - 1] == last;
    }
  }

  /** The tokens of a finished review are the sums of what its answers report; calls that failed do not count. */
  lemma {:induction false} TokensAddUp(log: seq<Reviewed>)
    ensures Tokens(log) == Usage(Sum(log, (u: Usage) => u.input), Sum(log, (u: Usage) => u.output),
                                 Sum(log, (u: Usage) => u.total))
  {
    if log != [] {
      TokensAddUp(log[1..]);
      SumFromTheLeft(log, (u: Usage) => u.input);
      SumFromTheLeft(log, (u: Usage) => u.output);
      SumFromTheLeft(log, (u: Usage) => u.total);
    }
  }

  predicate Lists(batch: seq<Candidate>, id: nat) {
    exists i :: 0 <= i < |batch| && batch[i].id == id
  }

  /** How often the model is asked about claim `id`. */
  ghost function Asked(model: Model, n: nat, pending: seq<seq<Candidate>>, id: nat): nat
    requires NonEmpty(pending)
    decreases Weight(pending)
  {
    WeightIsPositive(pending);
    if pending == [] then 0
    else
      var batch, rest := pending[0], pending[1..];
      assert pending == [batch] + rest;
      WeightIsPositive(rest);
      (if Lists(batch, id) then 1 else 0)
      + if Gateway(model, n, batch).Some? then Asked(model, n + 1, rest, id)
        else if |batch| == 1 then 0
        else
          BisectLightens(batch, rest);
          Asked(model, n + 1, Bisect(batch) + rest, id)
  }

  /** How often a batch of this size can be cut in two, and once more. */
  function Cuts(n: nat): nat {
    if n <= 1 then 1 else 1 + Cuts((n + 1) / 2)
  }

  lemma {:induction false} CutsGrow(m: nat, n: nat)
    requires m <= n
    ensures Cuts(m) <= Cuts(n)
  {
    if m > 1 {
      CutsGrow((m + 1) / 2, (n + 1) / 2);
    }
  }

  /** The batches in which the claim is listed, as positions. */
  ghost predicate ListedOnlyIn(pending: seq<seq<Candidate>>, id: nat, k: int) {
    forall i :: 0 <= i < |pending| && Lists(pending[i], id) ==> i == k
  }

  ghost predicate OnceListed(batch: seq<Candidate>, id: nat) {
    forall i, j :: 0 <= i < |batch| && 0 <= j < |batch| && batch[i].id == id && batch[j].id == id ==> i == j
  }

  lemma {:induction false} NeverAsked(model: Model, n: nat, pending: seq<seq<Candidate>>, id: nat)
    requires NonEmpty(pending) && forall i :: 0 <= i < |pending| ==> !Lists(pending[i], id)
    ensures Asked(model, n, pending, id) == 0
    decreases Weight(pending)
  {
    WeightIsPositive(pending);
    if pending != [] {
      var batch, rest := pending[0], pending[1..];
      assert pending == [batch] + rest;
      WeightIsPositive(rest);
      if Gateway(model, n, batch).Some? {
        NeverAsked(model, n + 1, rest, id);
      } else if |batch| > 1 {
        BisectLightens(batch, rest);
        var next := Bisect(batch) + rest;
        forall i | 0 <= i < |next| ensures !Lists(next[i], id) {
          HalvesList(batch, id);
          assert i >= 2 ==> next[i] == rest[i - 2] == pending[i - 1];
        }
        NeverAsked(model, n + 1, next, id);
      }
    }
  }

  lemma HalvesList(batch: seq<Candidate>, id: nat)
    requires |batch| > 1
    ensures var halves := Bisect(batch);
      && |halves| == 2 && |halves[0]| <= (|batch| + 1) / 2 && |halves[1]| <= (|batch| + 1) / 2
      && (Lists(halves[0], id) || Lists(halves[1], id) <==> Lists(batch, id))
      && (OnceListed(batch, id) ==>
            OnceListed(halves[0], id) && OnceListed(halves[1], id) && !(Lists(halves[0], id) && Lists(halves[1], id)))
  {
    var halves, h := Bisect(batch), |batch| / 2;
    assert forall i :: 0 <= i < h ==> halves[0][i] == batch[i];
    assert forall i :: h <= i < |batch| ==> halves[1][i - h] == batch[i];
    assert forall i :: 0 <= i < |halves[1]| ==> halves[1][i] == batch[h + i];
    if i :| 0 <= i < |batch| && batch[i].id == id {
      assert i < h ==> halves[0][i].id == id;
      assert i >= h ==> halves[1][i - h].id == id;
    }
  }

  /** A claim listed in one pending batch of size `m` is asked about at most once per cut of that batch. */
  lemma {:induction false} AskedPerCut(model: Model, n: nat, pending: seq<seq<Candidate>>, id: nat, k: nat)
    requires NonEmpty(pending) && k < |pending| && ListedOnlyIn(pending, id, k) && OnceListed(pending[k], id)
    ensures Asked(model, n, pending, id) <= Cuts(|pending[k]|)
    decreases Weight(pending)
  {
    WeightIsPositive(pending);
    var batch, rest := pending[0], pending[1..];
    assert pending == [batch] + rest;
    WeightIsPositive(rest);
    if Gateway(model, n, batch).Some? {
      if k == 0 {
        NeverAsked(model, n + 1, rest, id);
      } else {
        assert ListedOnlyIn(rest, id, k - 1);
        AskedPerCut(model, n + 1, rest, id, k - 1);
      }
    } else if |batch| > 1 {
      BisectLightens(batch, rest);
      HalvesList(batch, id);
      var next := Bisect(batch) + rest;
      assert forall i :: 2 <= i < |next| ==> next[i] == pending[i - 1];
      if k > 0 {
        assert ListedOnlyIn(next, id, k + 1);
        AskedPerCut(model, n + 1, next, id, k + 1);
      } else {
        var half := if Lists(next[0], id) then 0 else 1;
        assert ListedOnlyIn(next, id, half);
        AskedPerCut(model, n + 1, next, id, half);
        CutsGrow(|next[half]|, (|batch| + 1) / 2);
      }
    }
  }

  lemma {:induction false} ListedInOneBatch(cs: seq<Candidate>, id: nat) returns (k: nat)
    requires OnceListed(cs, id) && Lists(cs, id)
    ensures var b := FirstBatches(cs); k < |b| && ListedOnlyIn(b, id, k) && OnceListed(b[k], id) && |b[k]| <= 8
  {
    if |cs| <= 8 {
      return 0;
    }
    var head, tail := cs[..8], cs[8..];
    assert forall i :: 0 <= i < 8 ==> head[i] == cs[i];
    assert forall i :: 8 <= i < |cs| ==> tail[i - 8] == cs[i];
    var i :| 0 <= i < |cs| && cs[i].id == id;
    if i < 8 {
      assert Lists(head, id) && !Lists(tail, id);
      NotInBatches(tail, id);
      return 0;
    }
    assert tail[i - 8].id == id;
    k := ListedInOneBatch(tail, id);
    k := k + 1;
  }

  lemma {:induction false} NotInBatches(cs: seq<Candidate>, id: nat)
    requires !Lists(cs, id)
    ensures forall i :: 0 <= i < |FirstBatches(cs)| ==> !Lists(FirstBatches(cs)[i], id)
  {
    if |cs| > 8 {
      assert forall i :: 0 <= i < 8 ==> cs[..8][i] == cs[i];
      assert forall i :: 0 <= i < |cs[8..]| ==> cs[8..][i] == cs[i + 8];
      NotInBatches(cs[8..], id);
    }
  }

  /** Because failing batches are cut in two, the model is asked about no claim more than four times. */
  lemma AskedAtMostFourTimes(model: Model, candidates: seq<Candidate>, id: nat)
    requires OnceListed(candidates, id) && Lists(candidates, id)
    ensures NonEmpty(FirstBatches(candidates)) && Asked(model, 0, FirstBatches(candidates), id) <= 4
  {
    FirstBatchesExact(candidates);
    var k := ListedInOneBatch(candidates, id);
    AskedPerCut(model, 0, FirstBatches(candidates), id, k);
    CutsGrow(|FirstBatches(candidates)[k]|, 8);
    assert Cuts(8) == 4;
  }
}
