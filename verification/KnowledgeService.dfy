/** The knowledge commands as they run: passes over the project's rows, inside one transaction each. */
module KnowledgeService {
  import opened Prelude
  import opened KnowledgeLedger
  import opened KnowledgePublication
  import opened KnowledgeHistory
  import opened PublicationPlan
  import Ordering

  // ---------------------------------------------------------------- reconciliation

  method MissingMembers(candidates: seq<nat>, existing: set<nat>, relation: Relation) returns (rows: seq<Membership>)
    ensures rows == NewMembers(candidates, existing, relation)
  {
    rows := [];
    for i := 0 to |candidates|
      invariant rows == NewMembers(candidates[..i], existing, relation)
    {
      assert candidates[..i + 1][..i] == candidates[..i];
      if candidates[i] !in existing {
        rows := rows + [Membership(candidates[i], relation)];
      }
    }
    assert candidates[..|candidates|] == candidates;
  }

  function MemberRows(groups: seq<Group>): nat {
    if groups == [] then 0 else MemberRows(groups[..|groups| - 1]) + |groups[|groups| - 1].members|
  }

  lemma {:induction false} MemberRowsAfterUpdate(groups: seq<Group>, g: nat, after: Group)
    requires g < |groups|
    ensures MemberRows(groups[g := after]) == MemberRows(groups) - |groups[g].members| + |after.members|
  {
    var front := groups[..|groups| - 1];
    if g == |groups| - 1 {
      assert groups[g := after][..|groups| - 1] == front;
    } else {
      assert groups[g := after][..|groups| - 1] == front[g := after];
      MemberRowsAfterUpdate(front, g, after);
    }
  }

  lemma NextKey(claims: seq<Claim>, groups: seq<Group>, order: seq<Key>, i: nat)
    requires i < |order|
    ensures ReconcileKeys(claims, groups, order[..i + 1])
      == ReconcileKey(claims, ReconcileKeys(claims, groups, order[..i]), order[i])
  {
    assert order[..i + 1][..i] == order[..i];
  }

  /** One key of `reconcile`; `added` is the number of membership rows it created. */
  method ReconcileOne(claims: seq<Claim>, groups: seq<Group>, key: Key, candidates: seq<nat>)
    returns (after: seq<Group>, added: nat)
    requires candidates == Candidates(claims, key, |claims|)
    ensures after == ReconcileKey(claims, groups, key)
    ensures MemberRows(after) == MemberRows(groups) + added
  {
    CandidateValuesExact(claims, key);
    if |CandidateValues(claims, candidates)| < 2 {
      return groups, 0;
    }
    var relation := Classify(key.predicate_);
    match FindGroup(groups, key)
    case None =>
      var rows := MissingMembers(candidates, {}, relation);
      after := groups + [Group(key, Open, rows, None)];
      assert after[..|after| - 1] == groups;
      return after, |rows|;
    case Some(g) =>
      if groups[g].status != Open {
        return groups, 0;
      }
      var members := groups[g].members;
      var rows := MissingMembers(candidates, MemberClaims(members), relation);
      MemberRowsAfterUpdate(groups, g, groups[g].(members := members + rows));
      return groups[g := groups[g].(members := members + rows)], |rows|;
  }

  // ---------------------------------------------------------------- conflict resolution

  /** What the counting loop knows of the first `n` members. */
  ghost predicate Tallied(l: Ledger, members: seq<Membership>, n: nat, counts: map<Decision, nat>,
                          approved: set<string>)
    requires n <= |members|
  {
    && FinalUpTo(l, members, n) && counts == CountDecisions(l, members[..n])
    && approved == ApprovedMemberValues(l, members[..n])
  }

  lemma TallyNext(l: Ledger, members: seq<Membership>, n: nat, counts: map<Decision, nat>, approved: set<string>)
    requires n < |members| && Tallied(l, members, n, counts, approved) && IsFinal(l, members[n].claim)
    ensures var review := l.reviews[LatestReview(l.reviews, members[n].claim).value];
      Tallied(l, members, n + 1, Bump(counts, review.decision),
              approved + if Approves(review.decision) then {NormalizedOf(review)} else {})
  {
    assert members[..n + 1][..n] == members[..n] && members[..n + 1][n] == members[n];
  }

  /** `_validate_resolution` */
  method CheckResolution(l: Ledger, g: Group) returns (r: Result<map<Decision, nat>, CloseError>)
    ensures r == ValidateResolution(l, g)
  {
    if g.members == [] {
      return Failure(EmptyGroup);
    }
    var relations := Relations(g.members);
    if |relations| != 1 {
      return Failure(InconsistentRelations);
    }
    var counts: map<Decision, nat>, approved: set<string> := map[], {};
    for i := 0 to |g.members|
      invariant Tallied(l, g.members, i, counts, approved)
    {
      var c := g.members[i].claim;
      var latest := LatestReview(l.reviews, c);
      if latest == None || l.reviews[latest.value].decision == Defer {
        assert !IsFinal(l, c);
        return Failure(NotFinal);
      }
      TallyNext(l, g.members, i, counts, approved);
      var review := l.reviews[latest.value];
      counts := Bump(counts, review.decision);
      if Approves(review.decision) {
        approved := approved + {NormalizedOf(review)};
      }
    }
    assert g.members[..|g.members|] == g.members;
    if approved == {} {
      return Failure(NothingApproved);
    }
    if relations == {Conflicting} && |approved| != 1 {
      return Failure(SeveralValues);
    }
    return Success(counts);
  }

  // ---------------------------------------------------------------- the transactions

  /** A transaction did what its specification says: refused and changed nothing, or committed and reported so. */
  ghost predicate Committed<E>(spec: Result<(Ledger, bool), E>, before: Ledger, after: Ledger, reply: Result<bool, E>) {
    match spec
    case Failure(error) => reply == Failure(error) && after == before
    case Success(p) => reply == Success(p.1) && after == p.0
  }

  /** The next version: the snapshot row and one member row per link of the plan. */
  method DraftSnapshot(l: Ledger, plan: Plan, actor: string, notes: Option<string>, key: string) returns (s: Snapshot)
    requires PlanOf(l, plan) && Publishable(l) && plan.digest.Some?
    ensures s == Draft(l, actor, notes, key)
  {
    s := Snapshot(MaxVersion(l.snapshots) + 1, plan.digest.value, actor, notes, key, []);
    for i := 0 to |plan.links|
      invariant s == Snapshot(MaxVersion(l.snapshots) + 1, plan.digest.value, actor, notes, key, plan.links[..i])
    {
      s := s.(links := s.links + [plan.links[i]]);
      assert plan.links[..i + 1] == plan.links[..i] + [plan.links[i]];
    }
    assert plan.links[..|plan.links|] == plan.links;
  }

  class KnowledgeStore {
    var entityKeys: seq<string>
    var revisions: seq<Revision>
    var claims: seq<Claim>
    var reviews: seq<Review>
    var groups: seq<Group>
    var snapshots: seq<Snapshot>

    function State(): Ledger
      reads this
    {
      Ledger(entityKeys, revisions, claims, reviews, groups, snapshots)
    }

    constructor ()
      ensures State() == EMPTY && Reachable(State())
    {
      entityKeys, revisions, claims, reviews, groups, snapshots := [], [], [], [], [], [];
      new;
      assert EMPTY == Run(EMPTY, []);
    }

    /** `review_claim` */
    method ReviewClaim(c: nat, decision: Decision, edit: Option<Edit>, reason: string, actor: string, key: string)
      returns (reply: Result<bool, ReviewError>)
      modifies this`reviews
      ensures Committed(KnowledgePublication.ReviewClaim(old(State()), c, decision, edit, reason, actor, key),
                        old(State()), State(), reply)
    {
      if c >= |claims| {
        return Failure(ClaimNotFound);
      }
      var approved := ReviewValue(claims[c], decision, edit);
      if approved.Failure? {
        return Failure(approved.error);
      }
      var review := Review(c, decision, approved.value, reason, actor, FromCaller(key));
      var existing := FindReview(reviews, FromCaller(key));
      if existing.Some? {
        return if reviews[existing.value] == review then Success(false) else Failure(KeyReused);
      }
      reviews := reviews + [review];
      return Success(true);
    }

    /** `confirm_pack`; `created` is the number of reviews it appended. */
    method ConfirmPack(key: string, actor: string, decisions: seq<PackDecision>) returns (created: nat)
      requires forall i :: 0 <= i < |decisions| ==> decisions[i].claim < |claims|
      modifies this`reviews
      ensures State() == KnowledgePublication.ConfirmPack(old(State()), key, actor, decisions)
      ensures old(reviews) <= reviews && created == |reviews| - |old(reviews)|
    {
      created := 0;
      for i := 0 to |decisions|
        invariant State() == KnowledgePublication.ConfirmPack(old(State()), key, actor, decisions[..i])
        invariant old(reviews) <= reviews && created == |reviews| - |old(reviews)|
      {
        assert decisions[..i + 1][..i] == decisions[..i];
        var d := decisions[i];
        if d.verdict == NeedsHuman {
          continue;
        }
        if FindReview(reviews, FromPack(key, d.claim)).Some? {
          continue;
        }
        var claim := claims[d.claim];
        var approve := d.verdict == AgentApproved;
        var expected := if approve then Approve else Reject;
        var latest := LatestReview(reviews, d.claim);
        if latest.Some? && reviews[latest.value].decision == expected {
          continue;
        }
        var value := if approve then Some(ApprovedValue(claim.kind, claim.value, claim.normalized)) else None;
        reviews := reviews + [Review(d.claim, expected, value, d.reasonCode, actor, FromPack(key, d.claim))];
        created := created + 1;
      }
      assert decisions[..|decisions|] == decisions;
    }

    /** `reconcile`, with the numbers of groups and membership rows it created. */
    method Reconcile() returns (createdGroups: nat, createdMembers: nat)
      modifies this`groups
      ensures State() == KnowledgeLedger.Reconcile(old(State()))
      ensures |groups| == |old(groups)| + createdGroups
      ensures MemberRows(groups) == MemberRows(old(groups)) + createdMembers
    {
      var order, grouped := GroupByKey(claims);
      createdGroups, createdMembers := 0, 0;
      for i := 0 to |order|
        invariant groups == ReconcileKeys(claims, old(groups), order[..i])
        invariant |groups| == |old(groups)| + createdGroups
        invariant MemberRows(groups) == MemberRows(old(groups)) + createdMembers
      {
        NextKey(claims, old(groups), order, i);
        assert Bucket(grouped, order[i]) == Candidates(claims, order[i], |claims|);
        var after, added := ReconcileOne(claims, groups, order[i], grouped[order[i]]);
        createdGroups := createdGroups + if |after| > |groups| then 1 else 0;
        createdMembers := createdMembers + added;
        groups := after;
      }
      assert order[..|order|] == order;
    }

    /** `close_conflict` */
    method CloseConflict(g: nat, outcome: GroupStatus, summary: string, actor: string, key: string)
      returns (reply: Result<bool, CloseError>)
      modifies this`groups
      ensures Committed(KnowledgePublication.CloseConflict(old(State()), g, outcome, summary, actor, key),
                        old(State()), State(), reply)
    {
      if outcome == Open {
        return Failure(OutcomeOpen);
      }
      var reused := FindClosure(groups, key);
      if reused.Some? {
        var closed := groups[reused.value];
        var closure := closed.closure.value;
        if reused.value != g || closed.status != outcome || closure.summary != summary || closure.actor != actor {
          return Failure(KeyOfOtherClosure);
        }
        return Success(false);
      }
      if g >= |groups| {
        return Failure(GroupNotFound);
      }
      if groups[g].status != Open {
        return Failure(AlreadyClosed);
      }
      var counts: Result<map<Decision, nat>, CloseError> := Success(map[]);
      if outcome == Resolved {
        counts := CheckResolution(State(), groups[g]);
      }
      if counts.Failure? {
        return Failure(counts.error);
      }
      var group := groups[g].(status := outcome);
      group := group.(closure := Some(Closure(summary, actor, key, counts.value)));
      groups := groups[g := group];
      return Success(true);
    }

    /** `publish`: an exact replay, a refusal that names every blocker, or the next version. */
    method Publish(actor: string, notes: Option<string>, key: string)
      returns (reply: Result<bool, PublishError>, blockers: seq<Code>)
      modifies this`snapshots
      ensures Committed(KnowledgeHistory.Publish(old(State()), actor, notes, key), old(State()), State(), reply)
      ensures reply == Failure(Blocked) ==> forall code :: code in blockers <==> Blocks(old(State()), code)
    {
      ghost var before := State();
      var existing := FindSnapshot(snapshots, key);
      if existing.Some? {
        var s := snapshots[existing.value];
        if s.notes != notes || s.publisher != actor {
          return Failure(KeyOfOtherSnapshot), [];
        }
        return Success(false), [];
      }
      var plan := BuildPlan(State());
      if plan.blockers != [] {
        assert Blocks(before, plan.blockers[0]);
        return Failure(Blocked), plan.blockers;
      }
      NoBlockers(before, plan);
      var snapshot := DraftSnapshot(State(), plan, actor, notes, key);
      snapshots := snapshots + [snapshot];
      return Success(true), [];
    }

    /**
     * `_serialize_snapshot`, with the member rows in whatever order the database returns them: the payloads are
     * the ones the stored digest was computed from.
     */
    method SerializeSnapshot(v: nat, rows: seq<Link>) returns (members: seq<Body>)
      requires Sound(State()) && v < |snapshots| && multiset(rows) == multiset(snapshots[v].links)
      ensures Digest(SNAPSHOT_SCHEMA_VERSION, members) == snapshots[v].digest
    {
      SnapshotIsSound(State(), v);
      SerializeIgnoresOrder(State(), snapshots[v].links, rows);
      members := Payloads(State(), rows);
      SortedPayloads(State(), rows);
      members := Ordering.Sort(BySortKey, members);
    }
  }

  /** The payloads of the rows, in their order. */
  method Payloads(l: Ledger, rows: seq<Link>) returns (members: seq<Body>)
    requires AllInTables(l, rows)
    ensures members == BodiesOf(l, rows)
  {
    members := [];
    for i := 0 to |rows|
      invariant |members| == i && forall j :: 0 <= j < i ==> members[j] == BodyOf(l, rows[j])
    {
      members := members + [BodyOf(l, rows[i])];
    }
  }

  lemma NoBlockers(l: Ledger, p: Plan)
    requires PlanOf(l, p) && p.blockers == []
    ensures Publishable(l) && p.digest.Some?
  {
    forall code: Code ensures !Blocks(l, code) {
      assert code !in p.blockers;
    }
  }
}
