/** The deterministic passes that turn a model's decisions into one bounded knowledge pack. */
module ReviewGovernance {
  import opened Prelude
  import opened KnowledgePublication
  import opened ReviewWorklist
  import Ordering

  /** What makes two claims of one extraction the same fact. */
  datatype Fact = Fact(predicate_: string, normalized: string)

  const PACK_LIMIT: nat := 15
  const INFERENCE_MARKERS: seq<string> := ["infer", "typically", "standard duration", "not explicitly", "assum"]

  // ---------------------------------------------------------------- the three downgrade passes

  /** A marker occurs in the case-folded rationale; `fold` stands for `str.casefold`. */
  predicate ReliesOnInference(fold: string -> string, d: AgentDecision) {
    exists m :: 0 <= m < |INFERENCE_MARKERS| && Contains(" " + fold(d.rationale), INFERENCE_MARKERS[m])
  }

  function RejectInference(fold: string -> string, d: AgentDecision): AgentDecision {
    if d.verdict == AgentApproved && ReliesOnInference(fold, d) then
      AgentDecision(d.id, AgentRejected, d.suggested, 0, "unsupported_inference",
        "Rejected because the review relies on unstated context.", d.risks + {"unsupported_inference"})
    else d
  }

  function EscalateRisk(d: AgentDecision): AgentDecision {
    if d.verdict == AgentApproved && d.risks != {} then d.(verdict := NeedsHuman, reasonCode := "reviewer_risk") else d
  }

  function EscalateCorrection(d: AgentDecision): AgentDecision {
    if d.verdict == AgentApproved && d.suggested.Some? then
      d.(verdict := NeedsHuman, reasonCode := "predicate_correction", risks := d.risks + {"taxonomy"})
    else d
  }

  function Screen(fold: string -> string, d: AgentDecision): AgentDecision {
    EscalateCorrection(EscalateRisk(RejectInference(fold, d)))
  }

  function Screened(fold: string -> string, ds: seq<AgentDecision>): (s: seq<AgentDecision>)
    ensures |s| == |ds| && forall i :: 0 <= i < |s| ==> s[i].id == ds[i].id
  {
    seq(|ds|, i requires 0 <= i < |ds| => Screen(fold, ds[i]))
  }

  // ---------------------------------------------------------------- duplicates and the fifteen-fact limit

  type Facts = map<nat, Fact>

  predicate Known(facts: Facts, ds: seq<AgentDecision>) {
    forall i :: 0 <= i < |ds| ==> ds[i].id in facts
  }

  /** An earlier decision, whatever its verdict, is about the same fact. */
  predicate Repeated(facts: Facts, ds: seq<AgentDecision>, i: nat)
    requires Known(facts, ds) && i < |ds|
  {
    exists j :: 0 <= j < i && facts[ds[j].id] == facts[ds[i].id]
  }

  function AsDuplicate(d: AgentDecision): AgentDecision {
    AgentDecision(d.id, AgentRejected, d.suggested, 0, "exact_duplicate",
      "An identical fact already exists in this extraction.", d.risks + {"duplicate"})
  }

  function Deduplicated(facts: Facts, ds: seq<AgentDecision>): (s: seq<AgentDecision>)
    requires Known(facts, ds)
    ensures |s| == |ds| && forall i :: 0 <= i < |s| ==> s[i].id == ds[i].id
  {
    seq(|ds|, i requires 0 <= i < |ds| => if Repeated(facts, ds, i) then AsDuplicate(ds[i]) else ds[i])
  }

  /** `(-priority, claim_id)` */
  predicate Outranks(a: AgentDecision, b: AgentDecision) {
    a.priority > b.priority || (a.priority == b.priority && a.id <= b.id)
  }

  function ApprovedOnly(ds: seq<AgentDecision>): seq<AgentDecision> {
    if ds == [] then []
    else
      var last := ds[|ds| - 1];
      ApprovedOnly(ds[..|ds| - 1]) + if last.verdict == AgentApproved then [last] else []
  }

  function Ranking(ds: seq<AgentDecision>): seq<AgentDecision> {
    Ordering.Sort(Outranks, ApprovedOnly(ds))
  }

  /** The approvals beyond the first fifteen. */
  function Excess(ds: seq<AgentDecision>): set<nat> {
    var ranking := Ranking(ds);
    set i | PACK_LIMIT <= i < |ranking| :: ranking[i].id
  }

  function AsExcess(d: AgentDecision): AgentDecision {
    AgentDecision(d.id, AgentRejected, d.suggested, d.priority, "low_priority",
      "Excluded by the bounded 15-fact knowledge-pack policy.", d.risks + {"pack_limit"})
  }

  function Limited(ds: seq<AgentDecision>): (s: seq<AgentDecision>)
    ensures |s| == |ds| && forall i :: 0 <= i < |s| ==> s[i].id == ds[i].id
  {
    var excess := Excess(ds);
    seq(|ds|, i requires 0 <= i < |ds| => if ds[i].id in excess then AsExcess(ds[i]) else ds[i])
  }

  /** All passes of `persist`, in their order. */
  function Governed(fold: string -> string, facts: Facts, ds: seq<AgentDecision>): (s: seq<AgentDecision>)
    requires Known(facts, ds)
    ensures |s| == |ds| && forall i :: 0 <= i < |s| ==> s[i].id == ds[i].id
  {
    Limited(Deduplicated(facts, Screened(fold, ds)))
  }

  // ---------------------------------------------------------------- what the passes amount to

  /** The model approved it without any reservation, and nothing earlier is about the same fact. */
  ghost predicate Eligible(fold: string -> string, facts: Facts, ds: seq<AgentDecision>, i: nat)
    requires Known(facts, ds) && i < |ds|
  {
    && ds[i].verdict == AgentApproved && !ReliesOnInference(fold, ds[i]) && ds[i].risks == {} && ds[i].suggested == None
    && !Repeated(facts, ds, i)
  }

  /** The eligible decisions that rank above decision `i`, by claim id. */
  ghost function Rivals(fold: string -> string, facts: Facts, ds: seq<AgentDecision>, i: nat): set<nat>
    requires Known(facts, ds) && i < |ds|
  {
    set j | 0 <= j < |ds| && Eligible(fold, facts, ds, j) && j != i && Outranks(ds[j], ds[i]) :: ds[j].id
  }

  lemma ScreenExact(fold: string -> string, d: AgentDecision)
    ensures var s := Screen(fold, d);
      && (s.verdict == AgentApproved <==>
            d.verdict == AgentApproved && !ReliesOnInference(fold, d) && d.risks == {} && d.suggested == None)
      && (s.verdict == AgentApproved ==> s == d)
      && (d.verdict != AgentApproved ==> s == d)
      && (s.verdict == NeedsHuman ==> s.priority == d.priority && s.rationale == d.rationale && d.risks <= s.risks)
  {
  }

  /** After screening and deduplication exactly the eligible decisions are still approved, unchanged. */
  lemma DeduplicatedExact(fold: string -> string, facts: Facts, ds: seq<AgentDecision>, i: nat)
    requires Known(facts, ds) && i < |ds|
    ensures Known(facts, Screened(fold, ds))
    ensures var d := Deduplicated(facts, Screened(fold, ds));
      && (d[i].verdict == AgentApproved <==> Eligible(fold, facts, ds, i))
      && (d[i].verdict == AgentApproved ==> d[i] == ds[i])
  {
    ScreenExact(fold, ds[i]);
    var s := Screened(fold, ds);
    if Repeated(facts, ds, i) {
      var j :| 0 <= j < i && facts[ds[j].id] == facts[ds[i].id];
      assert facts[s[j].id] == facts[s[i].id];
    }
    if Repeated(facts, s, i) {
      var j :| 0 <= j < i && facts[s[j].id] == facts[s[i].id];
      assert facts[ds[j].id] == facts[ds[i].id];
    }
  }

  lemma {:induction false} ApprovedOnlyExact(ds: seq<AgentDecision>, d: AgentDecision)
    ensures d in ApprovedOnly(ds) <==> d in ds && d.verdict == AgentApproved
  {
    if ds != [] {
      ApprovedOnlyExact(ds[..|ds| - 1], d);
      assert ds == ds[..|ds| - 1] + [ds[|ds| - 1]];
    }
  }

  lemma {:induction false} ApprovedOnlyUnique(ds: seq<AgentDecision>)
    requires UniqueIds(DecisionIds(ds))
    ensures UniqueIds(DecisionIds(ApprovedOnly(ds)))
      && Elements(DecisionIds(ApprovedOnly(ds))) <= Elements(DecisionIds(ds))
  {
    if ds != [] {
      var front, last := ds[..|ds| - 1], ds[|ds| - 1];
      assert ds == front + [last];
      IdsOfConcat(front, [last]);
      SplitUnique(DecisionIds(front), DecisionIds([last]));
      ApprovedOnlyUnique(front);
      if last.verdict == AgentApproved {
        IdsOfConcat(ApprovedOnly(front), [last]);
        JoinUnique(DecisionIds(ApprovedOnly(front)), DecisionIds([last]));
      } else {
        assert ApprovedOnly(ds) == ApprovedOnly(front);
      }
    }
  }

  lemma SortKeepsUnique(s: seq<AgentDecision>)
    requires UniqueIds(DecisionIds(s))
    ensures UniqueIds(DecisionIds(Ordering.Sort(Outranks, s)))
  {
    var t := Ordering.Sort(Outranks, s);
    Ordering.SortKeeps(Outranks, s);
    UniqueIdsCount(DecisionIds(s));
    UniqueIdsCount(DecisionIds(t));
    forall id ensures id in Elements(DecisionIds(s)) <==> id in Elements(DecisionIds(t)) {
      if id in Elements(DecisionIds(s)) {
        var i :| 0 <= i < |s| && s[i].id == id;
        Ordering.SortMembers(Outranks, s, s[i]);
        var j :| 0 <= j < |t| && t[j] == s[i];
        assert DecisionIds(t)[j] == id;
      }
      if id in Elements(DecisionIds(t)) {
        var j :| 0 <= j < |t| && t[j].id == id;
        Ordering.SortMembers(Outranks, s, t[j]);
        var i :| 0 <= i < |s| && s[i] == t[j];
        assert DecisionIds(s)[i] == id;
      }
    }
    assert Elements(DecisionIds(s)) == Elements(DecisionIds(t));
  }

  lemma RankingExact(ds: seq<AgentDecision>)
    requires UniqueIds(DecisionIds(ds))
    ensures var r := Ranking(ds);
      && UniqueIds(DecisionIds(r)) && Ordering.SortedBy(Outranks, r)
      && forall d :: d in r <==> d in ds && d.verdict == AgentApproved
  {
    ApprovedOnlyUnique(ds);
    SortKeepsUnique(ApprovedOnly(ds));
    Ordering.SortSorts(Outranks, ApprovedOnly(ds));
    forall d ensures d in Ranking(ds) <==> d in ds && d.verdict == AgentApproved {
      Ordering.SortMembers(Outranks, ApprovedOnly(ds), d);
      ApprovedOnlyExact(ds, d);
    }
  }

  /** The claim ids that rank above `d` in a ranking are those of the positions before it. */
  ghost function Above(ranking: seq<AgentDecision>, d: AgentDecision): set<nat> {
    set e | e in ranking && e.id != d.id && Outranks(e, d) :: e.id
  }

  lemma RankIsPosition(ranking: seq<AgentDecision>, p: nat)
    requires UniqueIds(DecisionIds(ranking)) && Ordering.SortedBy(Outranks, ranking) && p < |ranking|
    ensures |Above(ranking, ranking[p])| == p
  {
    var before := ranking[..p];
    PrefixUnique(ranking, p);
    UniqueIdsCount(DecisionIds(before));
    forall i | 0 <= i < |ranking| && i != p ensures ranking[i].id != ranking[p].id {
      assert DecisionIds(ranking)[i] != DecisionIds(ranking)[p];
    }
    forall i | p < i < |ranking| ensures !Outranks(ranking[i], ranking[p]) {
      assert Outranks(ranking[p], ranking[i]);
    }
    forall id ensures id in Above(ranking, ranking[p]) <==> id in Elements(DecisionIds(before)) {
      if id in Above(ranking, ranking[p]) {
        var i :| 0 <= i < |ranking| && ranking[i].id == id && id != ranking[p].id && Outranks(ranking[i], ranking[p]);
        assert DecisionIds(before)[i] == id;
      }
      if id in Elements(DecisionIds(before)) {
        var i :| 0 <= i < p && DecisionIds(before)[i] == id;
        assert Outranks(ranking[i], ranking[p]) && ranking[i] in ranking;
      }
    }
    assert Above(ranking, ranking[p]) == Elements(DecisionIds(before));
  }

  /** An approval survives the fifteen-fact limit exactly when fewer than fifteen approvals rank above it. */
  lemma LimitedExact(ds: seq<AgentDecision>, i: nat)
    requires UniqueIds(DecisionIds(ds)) && i < |ds|
    ensures var g := Limited(ds)[i];
      && (g.verdict == AgentApproved <==> ds[i].verdict == AgentApproved && |Above(Ranking(ds), ds[i])| < PACK_LIMIT)
      && (g.verdict == AgentApproved ==> g == ds[i])
      && (ds[i].verdict != AgentApproved ==> g == ds[i])
  {
    var r := Ranking(ds);
    RankingExact(ds);
    if ds[i].verdict == AgentApproved {
      var p :| 0 <= p < |r| && r[p] == ds[i];
      RankIsPosition(r, p);
      forall q | 0 <= q < |r| && q != p ensures r[q].id != ds[i].id {
        assert DecisionIds(r)[p] != DecisionIds(r)[q];
      }
    } else {
      forall q | 0 <= q < |r| ensures r[q].id != ds[i].id {
        assert r[q] in r;
        var j :| 0 <= j < |ds| && ds[j] == r[q];
        assert DecisionIds(ds)[j] != DecisionIds(ds)[i];
      }
    }
  }

  lemma RivalsRankAbove(fold: string -> string, facts: Facts, ds: seq<AgentDecision>, i: nat)
    requires Known(facts, ds) && UniqueIds(DecisionIds(ds)) && i < |ds|
    ensures Known(facts, Screened(fold, ds)) && UniqueIds(DecisionIds(Deduplicated(facts, Screened(fold, ds))))
    ensures Above(Ranking(Deduplicated(facts, Screened(fold, ds))), ds[i]) == Rivals(fold, facts, ds, i)
  {
    var d := Deduplicated(facts, Screened(fold, ds));
    assert DecisionIds(d) == DecisionIds(ds);
    RankingExact(d);
    forall id ensures id in Above(Ranking(d), ds[i]) <==> id in Rivals(fold, facts, ds, i) {
      if id in Above(Ranking(d), ds[i]) {
        var e :| e in Ranking(d) && e.id != ds[i].id && Outranks(e, ds[i]) && e.id == id;
        assert e in d && e.verdict == AgentApproved;
        var j :| 0 <= j < |d| && d[j] == e;
        DeduplicatedExact(fold, facts, ds, j);
      }
      if id in Rivals(fold, facts, ds, i) {
        var j :| 0 <= j < |ds| && Eligible(fold, facts, ds, j) && j != i && Outranks(ds[j], ds[i]) && ds[j].id == id;
        DeduplicatedExact(fold, facts, ds, j);
        assert DecisionIds(ds)[j] != DecisionIds(ds)[i];
        assert d[j] in d;
        assert d[j] in Ranking(d);
      }
    }
  }

  /**
   * A decision ends up approved exactly when it is eligible and fewer than fifteen eligible ones have a higher
   * priority, the lower claim id deciding ties; it is then the model's decision, unchanged.
   */
  lemma GovernanceIsExact(fold: string -> string, facts: Facts, ds: seq<AgentDecision>, i: nat)
    requires Known(facts, ds) && UniqueIds(DecisionIds(ds)) && i < |ds|
    ensures var g := Governed(fold, facts, ds)[i];
      && (g.verdict == AgentApproved <==> Eligible(fold, facts, ds, i) && |Rivals(fold, facts, ds, i)| < PACK_LIMIT)
      && (g.verdict == AgentApproved ==> g == ds[i])
  {
    var d := Deduplicated(facts, Screened(fold, ds));
    DeduplicatedExact(fold, facts, ds, i);
    RivalsRankAbove(fold, facts, ds, i);
    LimitedExact(d, i);
  }

  /** Nothing is ever upgraded: a verdict stays or becomes more cautious. */
  lemma NothingIsUpgraded(fold: string -> string, facts: Facts, ds: seq<AgentDecision>, i: nat)
    requires Known(facts, ds) && UniqueIds(DecisionIds(ds)) && i < |ds|
    ensures var g := Governed(fold, facts, ds)[i];
      && (g.verdict == AgentApproved ==> ds[i].verdict == AgentApproved)
      && (g.verdict == NeedsHuman ==> ds[i].verdict != AgentRejected)
      && (ds[i].verdict == AgentRejected && !Repeated(facts, ds, i) ==> g == ds[i])
  {
    var s := Screened(fold, ds);
    var d := Deduplicated(facts, s);
    GovernanceIsExact(fold, facts, ds, i);
    RivalsRankAbove(fold, facts, ds, i);
    LimitedExact(d, i);
    ScreenExact(fold, ds[i]);
    if Repeated(facts, s, i) {
      var j :| 0 <= j < i && facts[s[j].id] == facts[s[i].id];
      assert facts[ds[j].id] == facts[ds[i].id];
    }
  }

  ghost function ApprovedIds(ds: seq<AgentDecision>): set<nat> {
    set i | 0 <= i < |ds| && ds[i].verdict == AgentApproved :: ds[i].id
  }

  ghost function EligibleIds(fold: string -> string, facts: Facts, ds: seq<AgentDecision>): set<nat>
    requires Known(facts, ds)
  {
    set i | 0 <= i < |ds| && Eligible(fold, facts, ds, i) :: ds[i].id
  }

  function Min(a: nat, b: nat): nat {
    if a < b then a else b
  }

  /**
   * A knowledge pack holds fifteen of the eligible facts, or all of them when there are fewer; no fact occurs twice.
   */
  lemma PackIsBounded(fold: string -> string, facts: Facts, ds: seq<AgentDecision>)
    requires Known(facts, ds) && UniqueIds(DecisionIds(ds))
    ensures var g := Governed(fold, facts, ds);
      && |ApprovedIds(g)| == Min(PACK_LIMIT, |EligibleIds(fold, facts, ds)|)
      && ApprovedIds(g) <= EligibleIds(fold, facts, ds)
      && (forall i, j :: 0 <= i < j < |g| && g[i].verdict == AgentApproved && g[j].verdict == AgentApproved
            ==> facts[g[i].id] != facts[g[j].id])
  {
    var g, d := Governed(fold, facts, ds), Deduplicated(facts, Screened(fold, ds));
    forall i | 0 <= i < |ds|
      ensures g[i].verdict == AgentApproved ==> Eligible(fold, facts, ds, i)
      ensures d[i].verdict == AgentApproved <==> Eligible(fold, facts, ds, i) {
      GovernanceIsExact(fold, facts, ds, i);
      DeduplicatedExact(fold, facts, ds, i);
    }
    assert DecisionIds(d) == DecisionIds(ds);
    SameIds(fold, facts, ds);
    KeptCount(d);
  }

  lemma SameIds(fold: string -> string, facts: Facts, ds: seq<AgentDecision>)
    requires Known(facts, ds)
    ensures ApprovedIds(Deduplicated(facts, Screened(fold, ds))) == EligibleIds(fold, facts, ds)
  {
    var d := Deduplicated(facts, Screened(fold, ds));
    forall i | 0 <= i < |ds| ensures d[i].verdict == AgentApproved <==> Eligible(fold, facts, ds, i) {
      DeduplicatedExact(fold, facts, ds, i);
    }
  }

  lemma RankingCounts(ds: seq<AgentDecision>)
    requires UniqueIds(DecisionIds(ds))
    ensures Elements(DecisionIds(Ranking(ds))) == ApprovedIds(ds) && |Ranking(ds)| == |ApprovedIds(ds)|
  {
    var r := Ranking(ds);
    RankingExact(ds);
    UniqueIdsCount(DecisionIds(r));
    forall id ensures id in Elements(DecisionIds(r)) <==> id in ApprovedIds(ds) {
      if id in Elements(DecisionIds(r)) {
        var i :| 0 <= i < |r| && DecisionIds(r)[i] == id;
        assert r[i] in r;
      }
      if id in ApprovedIds(ds) {
        var i :| 0 <= i < |ds| && ds[i].verdict == AgentApproved && ds[i].id == id;
        assert ds[i] in r;
        var p :| 0 <= p < |r| && r[p] == ds[i];
        assert DecisionIds(r)[p] == id;
      }
    }
    assert Elements(DecisionIds(r)) == ApprovedIds(ds);
  }

  ghost function Kept(ds: seq<AgentDecision>): seq<AgentDecision> {
    Ranking(ds)[..Min(PACK_LIMIT, |Ranking(ds)|)]
  }

  lemma PrefixUnique(s: seq<AgentDecision>, n: nat)
    requires UniqueIds(DecisionIds(s)) && n <= |s|
    ensures UniqueIds(DecisionIds(s[..n]))
  {
    forall i, j | 0 <= i < j < n ensures DecisionIds(s[..n])[i] != DecisionIds(s[..n])[j] {
      assert DecisionIds(s)[i] != DecisionIds(s)[j];
    }
  }

  lemma KeptIsApproved(ds: seq<AgentDecision>, p: nat)
    requires UniqueIds(DecisionIds(ds)) && p < |Kept(ds)|
    ensures Kept(ds)[p].id in ApprovedIds(Limited(ds))
  {
    var r := Ranking(ds);
    RankingExact(ds);
    assert r[p] in r;
    var i :| 0 <= i < |ds| && ds[i] == r[p];
    RankIsPosition(r, p);
    LimitedExact(ds, i);
    assert Limited(ds)[i].verdict == AgentApproved;
  }

  lemma ApprovedIsKept(ds: seq<AgentDecision>, i: nat)
    requires UniqueIds(DecisionIds(ds)) && i < |ds| && Limited(ds)[i].verdict == AgentApproved
    ensures ds[i].id in Elements(DecisionIds(Kept(ds)))
  {
    var r := Ranking(ds);
    RankingExact(ds);
    LimitedExact(ds, i);
    var p :| 0 <= p < |r| && r[p] == ds[i];
    RankIsPosition(r, p);
    assert DecisionIds(Kept(ds))[p] == ds[i].id;
  }

  lemma KeptCount(ds: seq<AgentDecision>)
    requires UniqueIds(DecisionIds(ds))
    ensures |ApprovedIds(Limited(ds))| == Min(PACK_LIMIT, |ApprovedIds(ds)|)
  {
    RankingExact(ds);
    RankingCounts(ds);
    PrefixUnique(Ranking(ds), Min(PACK_LIMIT, |Ranking(ds)|));
    UniqueIdsCount(DecisionIds(Kept(ds)));
    forall id | id in ApprovedIds(Limited(ds)) ensures id in Elements(DecisionIds(Kept(ds))) {
      var i :| 0 <= i < |ds| && Limited(ds)[i].verdict == AgentApproved && Limited(ds)[i].id == id;
      ApprovedIsKept(ds, i);
    }
    forall id | id in Elements(DecisionIds(Kept(ds))) ensures id in ApprovedIds(Limited(ds)) {
      var p :| 0 <= p < |Kept(ds)| && DecisionIds(Kept(ds))[p] == id;
      KeptIsApproved(ds, p);
    }
    assert ApprovedIds(Limited(ds)) == Elements(DecisionIds(Kept(ds)));
  }

  ghost predicate EndsApproved(fold: string -> string, facts: Facts, ds: seq<AgentDecision>, fact: Fact)
    requires Known(facts, ds)
  {
    exists i :: 0 <= i < |ds| && facts[ds[i].id] == fact && Governed(fold, facts, ds)[i].verdict == AgentApproved
  }

  /**
   * Deduplication does not look at verdicts, so the first decision about a fact decides alone: the fact is approved
   * if and only if that decision approves it without reservation and ranks within the limit. Later, unreserved
   * approvals of a fact that was rejected first are lost.
   */
  lemma FirstVerdictDecides(fold: string -> string, facts: Facts, ds: seq<AgentDecision>, first: nat)
    requires Known(facts, ds) && UniqueIds(DecisionIds(ds)) && first < |ds| && !Repeated(facts, ds, first)
    ensures EndsApproved(fold, facts, ds, facts[ds[first].id])
      <==> Eligible(fold, facts, ds, first) && |Rivals(fold, facts, ds, first)| < PACK_LIMIT
  {
    GovernanceIsExact(fold, facts, ds, first);
    if EndsApproved(fold, facts, ds, facts[ds[first].id]) {
      var i :| 0 <= i < |ds| && facts[ds[i].id] == facts[ds[first].id]
        && Governed(fold, facts, ds)[i].verdict == AgentApproved;
      GovernanceIsExact(fold, facts, ds, i);
      assert i <= first by {
        assert first < i ==> Repeated(facts, ds, i);
      }
    }
  }

  function AsIs(s: string): string {
    s
  }

  const REJECTION := AgentDecision(0, AgentRejected, None, 0, "unclear", "no", {})
  const APPROVAL := AgentDecision(1, AgentApproved, None, 0, "supported", "ok", {})

  lemma ApprovalIsUnreserved(facts: Facts, ds: seq<AgentDecision>, i: nat)
    requires Known(facts, ds) && i < |ds| && ds[i] == APPROVAL
    ensures Eligible(AsIs, facts, ds, i) <==> !Repeated(facts, ds, i)
  {
  }

  /** An instance: alone the approval stands; after a rejection of the same fact the fact is not approved. */
  lemma EarlierRejectionShutsOut(fact: Fact)
    ensures var facts: Facts := map[0 := fact, 1 := fact];
      && EndsApproved(AsIs, facts, [APPROVAL], fact)
      && !EndsApproved(AsIs, facts, [REJECTION, APPROVAL], fact)
  {
    var facts: Facts := map[0 := fact, 1 := fact];
    var alone, both := [APPROVAL], [REJECTION, APPROVAL];
    ApprovalIsUnreserved(facts, alone, 0);
    assert Rivals(AsIs, facts, alone, 0) == {};
    FirstVerdictDecides(AsIs, facts, alone, 0);
    FirstVerdictDecides(AsIs, facts, both, 0);
  }
}
