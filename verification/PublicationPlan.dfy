/** The publication plan as it is built: passes over claims, reviews, revisions and conflict groups. */
module PublicationPlan {
  import opened Prelude
  import opened KnowledgeLedger
  import opened KnowledgePublication
  import opened KnowledgeHistory
  import Ordering

  // ---------------------------------------------------------------- latest reviews and grouping

  /** `latest` holds the latest review of every reviewed claim, and nothing else. */
  ghost predicate LatestTable(reviews: seq<Review>, latest: map<nat, nat>) {
    forall c: nat :: LatestReview(reviews, c) == if c in latest then Some(latest[c]) else None
  }

  method LatestReviews(reviews: seq<Review>) returns (latest: map<nat, nat>)
    ensures LatestTable(reviews, latest)
  {
    latest := map[];
    for i := 0 to |reviews|
      invariant LatestTable(reviews[..i], latest)
    {
      latest := latest[reviews[i].claim := i];
      assert reviews[..i + 1][..i] == reviews[..i];
    }
    assert reviews[..|reviews|] == reviews;
  }

  function Bucket(grouped: map<Key, seq<nat>>, key: Key): seq<nat> {
    if key in grouped then grouped[key] else []
  }

  /** `grouped` files the first `n` claims under their comparison keys, `order` lists the keys as they came up. */
  ghost predicate Grouped(claims: seq<Claim>, n: nat, order: seq<Key>, grouped: map<Key, seq<nat>>)
    requires n <= |claims|
  {
    && order == KeysInOrder(claims, n)
    && (forall key :: key in grouped <==> key in order)
    && forall key :: Bucket(grouped, key) == Candidates(claims, key, n)
  }

  /** The claim `i` is filed under its key, which is listed when it is new. */
  lemma FileClaim(claims: seq<Claim>, i: nat, order: seq<Key>, grouped: map<Key, seq<nat>>)
    requires i < |claims| && Grouped(claims, i, order, grouped)
    ensures var key := KeyOf(claims[i]);
      Grouped(claims, i + 1, if key in grouped then order else order + [key],
              grouped[key := Bucket(grouped, key) + [i]])
  {
    var key := KeyOf(claims[i]);
    var after := grouped[key := Bucket(grouped, key) + [i]];
    forall k ensures Bucket(after, k) == Candidates(claims, k, i + 1) {
      assert Bucket(grouped, k) == Candidates(claims, k, i);
    }
  }

  method GroupByKey(claims: seq<Claim>) returns (order: seq<Key>, grouped: map<Key, seq<nat>>)
    ensures Grouped(claims, |claims|, order, grouped)
  {
    order, grouped := [], map[];
    for i := 0 to |claims|
      invariant Grouped(claims, i, order, grouped)
    {
      FileClaim(claims, i, order, grouped);
      var key := KeyOf(claims[i]);
      if key !in grouped {
        order := order + [key];
      }
      grouped := grouped[key := Bucket(grouped, key) + [i]];
    }
  }

  // ---------------------------------------------------------------- review counts

  datatype Stats = Stats(claims: nat, approved: nat, rejected: nat, deferred: nat, unreviewed: nat,
                         openConflicts: nat) {
    function Total(): nat {
      approved + rejected + deferred + unreviewed
    }
  }

  function Standing(l: Ledger, c: nat): Option<Decision> {
    var latest := LatestReview(l.reviews, c);
    if latest == None then None else Some(l.reviews[latest.value].decision)
  }

  /** The claims below `n` that stand at one of `at`. */
  ghost function StandingAt(l: Ledger, n: nat, at: set<Option<Decision>>): set<nat> {
    set c | 0 <= c < n && Standing(l, c) in at
  }

  lemma StandingStep(l: Ledger, n: nat, at: set<Option<Decision>>)
    ensures |StandingAt(l, n + 1, at)| == |StandingAt(l, n, at)| + if Standing(l, n) in at then 1 else 0
  {
    assert StandingAt(l, n + 1, at) == StandingAt(l, n, at) + if Standing(l, n) in at then {n} else {};
  }

  const APPROVED: set<Option<Decision>> := {Some(Approve), Some(ApproveWithEdit)}

  /** The four counts of the first `n` claims are the sizes of the four kinds of standing. */
  ghost predicate Counted(l: Ledger, n: nat, s: Stats) {
    && s.approved == |StandingAt(l, n, APPROVED)|
    && s.rejected == |StandingAt(l, n, {Some(Reject)})|
    && s.deferred == |StandingAt(l, n, {Some(Defer)})|
    && s.unreviewed == |StandingAt(l, n, {None})|
  }

  function ApprovedClaims(l: Ledger, n: nat): seq<nat> {
    if n == 0 then [] else ApprovedClaims(l, n - 1) + if IsApproved(l, n - 1) then [n - 1] else []
  }

  function CountIn(s: Stats, standing: Option<Decision>): Stats {
    match standing
    case None => s.(unreviewed := s.unreviewed + 1)
    case Some(Defer) => s.(deferred := s.deferred + 1)
    case Some(Reject) => s.(rejected := s.rejected + 1)
    case Some(_) => s.(approved := s.approved + 1)
  }

  lemma CountNone(l: Ledger, s: Stats)
    requires s.approved == s.rejected == s.deferred == s.unreviewed == 0
    ensures Counted(l, 0, s)
  {
  }

  lemma CountNext(l: Ledger, n: nat, s: Stats)
    requires Counted(l, n, s)
    ensures Counted(l, n + 1, CountIn(s, Standing(l, n)))
  {
    StandingStep(l, n, APPROVED);
    StandingStep(l, n, {Some(Reject)});
    StandingStep(l, n, {Some(Defer)});
    StandingStep(l, n, {None});
  }

  /** The counts and the approved claims of the first `n` claims. */
  ghost predicate SortedOut(l: Ledger, n: nat, s: Stats, approved: seq<nat>) {
    Counted(l, n, s) && s.Total() == n && s.claims == |l.claims| && s.openConflicts == 0
    && approved == ApprovedClaims(l, n)
  }

  lemma SortOutNext(l: Ledger, c: nat, s: Stats, approved: seq<nat>)
    requires SortedOut(l, c, s, approved)
    ensures SortedOut(l, c + 1, CountIn(s, Standing(l, c)), approved + if IsApproved(l, c) then [c] else [])
  {
    CountNext(l, c, s);
  }

  /** Sorts the claims by the standing of their latest review. */
  method SortOut(l: Ledger, latest: map<nat, nat>) returns (stats: Stats, approved: seq<nat>)
    requires LatestTable(l.reviews, latest)
    ensures Counted(l, |l.claims|, stats)
    ensures stats.claims == |l.claims| && stats.openConflicts == 0
    ensures stats.Total() == |l.claims|
    ensures approved == ApprovedClaims(l, |l.claims|)
  {
    stats, approved := Stats(|l.claims|, 0, 0, 0, 0, 0), [];
    CountNone(l, stats);
    for c := 0 to |l.claims|
      invariant SortedOut(l, c, stats, approved)
    {
      SortOutNext(l, c, stats, approved);
      assert LatestReview(l.reviews, c) == if c in latest then Some(latest[c]) else None;
      stats, approved := CountClaim(l, c, latest, stats, approved);
    }
  }

  /** One pass of the counting loop. */
  method CountClaim(l: Ledger, c: nat, latest: map<nat, nat>, s: Stats, approved: seq<nat>)
    returns (t: Stats, now: seq<nat>)
    requires LatestReview(l.reviews, c) == if c in latest then Some(latest[c]) else None
    ensures t == CountIn(s, Standing(l, c)) && t.Total() == s.Total() + 1
    ensures now == approved + if IsApproved(l, c) then [c] else []
  {
    t, now := s, approved;
    if c !in latest {
      t := t.(unreviewed := t.unreviewed + 1);
      return;
    }
    var review := l.reviews[latest[c]];
    if review.decision == Defer {
      t := t.(deferred := t.deferred + 1);
    } else if review.decision == Reject {
      t := t.(rejected := t.rejected + 1);
    } else {
      t := t.(approved := t.approved + 1);
      now := now + [c];
    }
  }

  // ---------------------------------------------------------------- entity revisions

  function LinkOf(l: Ledger, c: nat): Link
    requires c < |l.claims| && IsApproved(l, c) && RevisionFor(l, c).Some?
  {
    Link(c, LatestReview(l.reviews, c).value, RevisionFor(l, c).value)
  }

  ghost predicate AllApproved(l: Ledger, approved: seq<nat>) {
    forall i :: 0 <= i < |approved| ==> approved[i] < |l.claims| && IsApproved(l, approved[i])
  }

  ghost function Frozen(l: Ledger, approved: seq<nat>): seq<Link>
    requires AllApproved(l, approved)
  {
    if approved == [] then []
    else
      var c := approved[|approved| - 1];
      Frozen(l, approved[..|approved| - 1]) + if RevisionFor(l, c).Some? then [LinkOf(l, c)] else []
  }

  lemma {:induction false} ApprovedClaimsExact(l: Ledger, n: nat)
    requires n <= |l.claims|
    ensures AllApproved(l, ApprovedClaims(l, n))
    ensures forall c :: 0 <= c < n && IsApproved(l, c) ==> c in ApprovedClaims(l, n)
  {
    if n > 0 {
      ApprovedClaimsExact(l, n - 1);
    }
  }

  lemma {:induction false} FrozenClaimsAreLinks(l: Ledger, n: nat)
    requires n <= |l.claims|
    ensures AllApproved(l, ApprovedClaims(l, n)) && Frozen(l, ApprovedClaims(l, n)) == ApprovedLinks(l, n)
  {
    ApprovedClaimsExact(l, n);
    if n > 0 {
      FrozenClaimsAreLinks(l, n - 1);
      var front := ApprovedClaims(l, n - 1);
      if IsApproved(l, n - 1) {
        assert ApprovedClaims(l, n)[..|front|] == front;
      } else {
        assert ApprovedClaims(l, n) == front;
      }
    }
  }

  ghost predicate NoRevision(l: Ledger, c: nat) {
    c < |l.claims| && RevisionFor(l, c) == None
  }

  ghost predicate ArchivedSubject(l: Ledger, c: nat) {
    c < |l.claims| && RevisionFor(l, c).Some? && l.revisions[RevisionFor(l, c).value].archived
  }

  ghost predicate Any(l: Ledger, claims: seq<nat>, test: (Ledger, nat) -> bool) {
    exists i :: 0 <= i < |claims| && test(l, claims[i])
  }

  lemma AnyStep(l: Ledger, claims: seq<nat>, n: nat, test: (Ledger, nat) -> bool)
    requires n < |claims|
    ensures Any(l, claims[..n + 1], test) <==> Any(l, claims[..n], test) || test(l, claims[n])
  {
    if Any(l, claims[..n], test) {
      var i :| 0 <= i < n && test(l, claims[..n][i]);
      assert claims[..n + 1][i] == claims[i];
    }
    if Any(l, claims[..n + 1], test) {
      var i :| 0 <= i < n + 1 && test(l, claims[..n + 1][i]);
      assert i < n ==> claims[..n][i] == claims[i];
    }
    assert claims[..n + 1][n] == claims[n];
  }

  /** `_freeze_entity_revisions` */
  method FreezeRevisions(l: Ledger, approved: seq<nat>) returns (links: seq<Link>, blockers: seq<Code>)
    requires AllApproved(l, approved)
    ensures links == Frozen(l, approved)
    ensures forall code :: code in blockers <==>
      || (code == IncompleteEntityLineage && Any(l, approved, NoRevision))
      || (code == ApprovedArchivedEntities && Any(l, approved, ArchivedSubject))
  {
    links, blockers := [], [];
    var archived: set<nat> := {};
    for i := 0 to |approved|
      invariant links == Frozen(l, approved[..i])
      invariant forall code :: code in blockers <==>
        code == IncompleteEntityLineage && Any(l, approved[..i], NoRevision)
      invariant archived != {} <==> Any(l, approved[..i], ArchivedSubject)
    {
      assert approved[..i + 1][..i] == approved[..i];
      AnyStep(l, approved, i, NoRevision);
      AnyStep(l, approved, i, ArchivedSubject);
      var c := approved[i];
      var revision := RevisionFor(l, c);
      if revision == None {
        blockers := blockers + [IncompleteEntityLineage];
      } else {
        links := links + [LinkOf(l, c)];
        if l.revisions[revision.value].archived {
          archived := archived + {l.claims[c].subject};
        }
      }
    }
    assert approved[..|approved|] == approved;
    if archived != {} {
      blockers := blockers + [ApprovedArchivedEntities];
    }
  }

  // ---------------------------------------------------------------- conflicts

  function CandidateValues(claims: seq<Claim>, candidates: seq<nat>): set<string>
    requires forall i :: 0 <= i < |candidates| ==> candidates[i] < |claims|
  {
    set i | 0 <= i < |candidates| :: claims[candidates[i]].normalized
  }

  lemma CandidateValuesExact(claims: seq<Claim>, key: Key)
    ensures CandidateValues(claims, Candidates(claims, key, |claims|)) == Values(claims, key)
  {
    CandidatesExact(claims, key, |claims|);
    var candidates := Candidates(claims, key, |claims|);
    forall v | v in Values(claims, key) ensures v in CandidateValues(claims, candidates) {
      var c :| 0 <= c < |claims| && KeyOf(claims[c]) == key && claims[c].normalized == v;
      var i :| 0 <= i < |candidates| && candidates[i] == c;
    }
  }

  function ApprovedValues(l: Ledger, latest: map<nat, nat>, candidates: seq<nat>): set<string>
    requires LatestTable(l.reviews, latest)
  {
    set i | 0 <= i < |candidates| && candidates[i] in latest && Approves(l.reviews[latest[candidates[i]]].decision)
      :: NormalizedOf(l.reviews[latest[candidates[i]]])
  }

  lemma ApprovedValuesExact(l: Ledger, latest: map<nat, nat>, key: Key, v: string)
    requires LatestTable(l.reviews, latest)
    ensures v in ApprovedValues(l, latest, Candidates(l.claims, key, |l.claims|)) <==>
      exists c :: 0 <= c < |l.claims| && KeyOf(l.claims[c]) == key && IsApproved(l, c)
        && NormalizedOf(ApprovedReview(l, c)) == v
  {
    var candidates := Candidates(l.claims, key, |l.claims|);
    CandidatesExact(l.claims, key, |l.claims|);
    if c :|
      0 <= c < |l.claims| && KeyOf(l.claims[c]) == key && IsApproved(l, c) && NormalizedOf(ApprovedReview(l, c)) == v {
      var i :| 0 <= i < |candidates| && candidates[i] == c;
      assert LatestReview(l.reviews, c) == Some(latest[c]);
    }
    if v in ApprovedValues(l, latest, candidates) {
      var i :| 0 <= i < |candidates| && candidates[i] in latest && Approves(l.reviews[latest[candidates[i]]].decision)
        && NormalizedOf(l.reviews[latest[candidates[i]]]) == v;
      assert LatestReview(l.reviews, candidates[i]) == Some(latest[candidates[i]]);
    }
  }

  lemma SeveralValuesDiffer(l: Ledger, latest: map<nat, nat>, key: Key, v: string, w: string)
    requires LatestTable(l.reviews, latest) && v != w
    requires v in ApprovedValues(l, latest, Candidates(l.claims, key, |l.claims|))
    requires w in ApprovedValues(l, latest, Candidates(l.claims, key, |l.claims|))
    ensures ApprovalsDiffer(l, key)
  {
    ApprovedValuesExact(l, latest, key, v);
    ApprovedValuesExact(l, latest, key, w);
  }

  lemma DifferingApprovalsListed(l: Ledger, latest: map<nat, nat>, key: Key) returns (v: string, w: string)
    requires LatestTable(l.reviews, latest) && ApprovalsDiffer(l, key)
    ensures v != w
    ensures v in ApprovedValues(l, latest, Candidates(l.claims, key, |l.claims|))
    ensures w in ApprovedValues(l, latest, Candidates(l.claims, key, |l.claims|))
  {
    var c, d :| 0 <= c < |l.claims| && 0 <= d < |l.claims| && KeyOf(l.claims[c]) == key && KeyOf(l.claims[d]) == key
      && IsApproved(l, c) && IsApproved(l, d)
      && NormalizedOf(ApprovedReview(l, c)) != NormalizedOf(ApprovedReview(l, d));
    v, w := NormalizedOf(ApprovedReview(l, c)), NormalizedOf(ApprovedReview(l, d));
    ApprovedValuesExact(l, latest, key, v);
    ApprovedValuesExact(l, latest, key, w);
  }

  lemma SeveralApprovedValues(l: Ledger, latest: map<nat, nat>, key: Key)
    requires LatestTable(l.reviews, latest)
    ensures |ApprovedValues(l, latest, Candidates(l.claims, key, |l.claims|))| > 1 <==> ApprovalsDiffer(l, key)
  {
    var values := ApprovedValues(l, latest, Candidates(l.claims, key, |l.claims|));
    AtLeastTwo(values);
    if v, w :| v in values && w in values && v != w {
      SeveralValuesDiffer(l, latest, key, v, w);
    }
    if ApprovalsDiffer(l, key) {
      var v, w := DifferingApprovalsListed(l, latest, key);
    }
  }

  /** One key of `_append_conflict_blockers`. */
  method ConflictBlockersOf(l: Ledger, latest: map<nat, nat>, key: Key, candidates: seq<nat>)
    returns (blockers: seq<Code>)
    requires LatestTable(l.reviews, latest) && candidates == Candidates(l.claims, key, |l.claims|)
    ensures forall code :: code in blockers <==> KeyBlocks(l, key, code)
  {
    var values := ApprovedValues(l, latest, candidates);
    var differ := |CandidateValues(l.claims, candidates)| >= 2;
    CandidateValuesExact(l.claims, key);
    ValuesDiffer(l.claims, key);
    SeveralApprovedValues(l, latest, key);
    blockers := [];
    if !differ && Classify(key.predicate_) == Conflicting && |values| > 1 {
      blockers := blockers + [InconsistentApprovedValues];
    }
    if !differ {
      return;
    }
    var group := FindGroup(l.groups, key);
    if group == None {
      return blockers + [UnreconciledConflicts];
    }
    if l.groups[group.value].status == Open {
      return;
    }
    if Classify(key.predicate_) == Conflicting && |values| > 1 {
      blockers := blockers + [InconsistentClosedConflict];
    }
  }

  lemma {:induction false} ListedKeysAreUsed(claims: seq<Claim>, n: nat, key: Key)
    requires n <= |claims| && key in KeysInOrder(claims, n)
    ensures exists c :: 0 <= c < n && KeyOf(claims[c]) == key
  {
    if KeyOf(claims[n - 1]) != key {
      ListedKeysAreUsed(claims, n - 1, key);
    }
  }

  ghost predicate SomeKeyBlocks(l: Ledger, keys: seq<Key>, code: Code) {
    exists key :: key in keys && KeyBlocks(l, key, code)
  }

  lemma UsedKeysAreListed(l: Ledger, code: Code)
    ensures SomeKeyBlocks(l, KeysInOrder(l.claims, |l.claims|), code)
      <==> exists key :: InUse(l, key) && KeyBlocks(l, key, code)
  {
    KeysInOrderExact(l.claims, |l.claims|);
    forall key ensures InUse(l, key) <==> key in KeysInOrder(l.claims, |l.claims|) {
      if key in KeysInOrder(l.claims, |l.claims|) {
        ListedKeysAreUsed(l.claims, |l.claims|, key);
      }
    }
  }

  lemma NextKeyBlocks(l: Ledger, keys: seq<Key>, n: nat, code: Code)
    requires n < |keys|
    ensures SomeKeyBlocks(l, keys[..n + 1], code) <==> SomeKeyBlocks(l, keys[..n], code) || KeyBlocks(l, keys[n], code)
  {
    assert keys[..n + 1] == keys[..n] + [keys[n]];
  }

  /** `_append_conflict_blockers` */
  method ConflictBlockers(l: Ledger, latest: map<nat, nat>) returns (blockers: seq<Code>)
    requires LatestTable(l.reviews, latest)
    ensures forall code :: code in blockers <==> exists key :: InUse(l, key) && KeyBlocks(l, key, code)
  {
    var order, grouped := GroupByKey(l.claims);
    blockers := [];
    for i := 0 to |order|
      invariant forall code :: code in blockers <==> SomeKeyBlocks(l, order[..i], code)
    {
      assert Bucket(grouped, order[i]) == Candidates(l.claims, order[i], |l.claims|);
      var more := ConflictBlockersOf(l, latest, order[i], grouped[order[i]]);
      forall code ensures code in blockers + more <==> SomeKeyBlocks(l, order[..i + 1], code) {
        NextKeyBlocks(l, order, i, code);
      }
      blockers := blockers + more;
    }
    assert order[..|order|] == order;
    forall code ensures code in blockers <==> exists key :: InUse(l, key) && KeyBlocks(l, key, code) {
      UsedKeysAreListed(l, code);
    }
  }

  // ---------------------------------------------------------------- members

  ghost predicate Broken(l: Ledger, k: Link) {
    k.claim < |l.claims| && !LineageComplete(l, l.claims[k.claim])
  }

  ghost predicate SomeBroken(l: Ledger, links: seq<Link>) {
    exists i :: 0 <= i < |links| && Broken(l, links[i])
  }

  lemma BrokenLinksBlock(l: Ledger)
    ensures SomeBroken(l, ApprovedLinks(l, |l.claims|)) <==> Blocks(l, IncompleteLineage)
  {
    var links := ApprovedLinks(l, |l.claims|);
    ApprovedLinksExact(l, |l.claims|);
    if i :| 0 <= i < |links| && Broken(l, links[i]) {
      assert CurrentLink(l, links[i], |l.claims|);
    }
    if c :| 0 <= c < |l.claims| && IsApproved(l, c) && RevisionFor(l, c).Some? && !LineageComplete(l, l.claims[c]) {
      ApprovedLinksComplete(l, |l.claims|, c);
      var i :| 0 <= i < |links| && links[i].claim == c;
      assert Broken(l, links[i]);
    }
  }

  ghost predicate Shown(l: Ledger, k: Link, b: Body) {
    InTables(l, k) && b == BodyOf(l, k)
  }

  /** `_member_payload` for every link; a broken lineage is reported instead. */
  method MemberPayloads(l: Ledger, links: seq<Link>) returns (members: seq<Body>, blockers: seq<Code>)
    requires CurrentLinks(l, links, |l.claims|)
    ensures forall code :: code in blockers <==> code == IncompleteLineage && SomeBroken(l, links)
    ensures !SomeBroken(l, links) ==> AllInTables(l, links) && members == BodiesOf(l, links)
  {
    members, blockers := [], [];
    for i := 0 to |links|
      invariant forall code :: code in blockers <==> code == IncompleteLineage && SomeBroken(l, links[..i])
      invariant !SomeBroken(l, links[..i]) ==>
        |members| == i && forall j :: 0 <= j < i ==> Shown(l, links[j], members[j])
    {
      assert CurrentLink(l, links[i], |l.claims|);
      BrokenStep(l, links, i);
      if LineageComplete(l, l.claims[links[i].claim]) {
        members := members + [BodyOf(l, links[i])];
      } else {
        blockers := blockers + [IncompleteLineage];
      }
    }
    assert links[..|links|] == links;
    assert !SomeBroken(l, links) ==> forall j :: 0 <= j < |links| ==> Shown(l, links[j], members[j]);
  }

  lemma BrokenStep(l: Ledger, links: seq<Link>, n: nat)
    requires n < |links|
    ensures SomeBroken(l, links[..n + 1]) <==> SomeBroken(l, links[..n]) || Broken(l, links[n])
  {
    var a, b := links[..n], links[..n + 1];
    if SomeBroken(l, a) {
      var i :| 0 <= i < |a| && Broken(l, a[i]);
      assert b[i] == a[i];
    }
    if SomeBroken(l, b) {
      var i :| 0 <= i < |b| && Broken(l, b[i]);
      assert i < n ==> a[i] == b[i];
    }
    assert b[n] == links[n];
  }

  /** `key=lambda item: item["sort_key"]` on the payloads. */
  predicate BySortKey(a: Body, b: Body) {
    Ordering.LexLe(SortKey(a), SortKey(b))
  }

  lemma SortedPayloads(l: Ledger, links: seq<Link>)
    requires AllInTables(l, links)
    ensures Ordering.Sort(BySortKey, BodiesOf(l, links)) == Serialize(l, links)
  {
    var body := k requires InTables(l, k) => BodyOf(l, k);
    Ordering.SortMaps(ByKey(l), BySortKey, body, links);
    SortedInTables(l, links);
    assert Ordering.Mapped(body, links) == BodiesOf(l, links);
    assert Ordering.Mapped(body, Ordering.Sort(ByKey(l), links)) == BodiesOf(l, Ordering.Sort(ByKey(l), links));
  }

  // ---------------------------------------------------------------- the plan

  datatype Plan = Plan(stats: Stats, blockers: seq<Code>, links: seq<Link>, digest: Option<Digest>)

  /** A plan lists exactly the blockers that hold, and carries the publication's content when there are none. */
  ghost predicate PlanOf(l: Ledger, p: Plan) {
    && (forall code :: code in p.blockers <==> Blocks(l, code))
    && p.links == ApprovedLinks(l, |l.claims|)
    && (p.digest.Some? <==> p.blockers == [])
    && (p.digest.Some?
        ==> AllInTables(l, p.links) && p.digest.value == Digest(SNAPSHOT_SCHEMA_VERSION, Serialize(l, p.links)))
    && Counted(l, |l.claims|, p.stats)
    && p.stats.openConflicts == |OpenGroups(l.groups)|
  }

  function OpenGroups(groups: seq<Group>): set<nat> {
    set g | 0 <= g < |groups| && groups[g].status == Open
  }

  /** The blockers that the review counts and open groups decide. */
  method ReviewBlockers(l: Ledger, stats: Stats, approved: seq<nat>) returns (blockers: seq<Code>)
    requires Counted(l, |l.claims|, stats) && approved == ApprovedClaims(l, |l.claims|)
    requires stats.openConflicts == |OpenGroups(l.groups)|
    ensures forall code :: code in blockers <==>
      code in {NoClaims, UnreviewedClaims, DeferredClaims, NoApprovedClaims, OpenConflicts} && Blocks(l, code)
  {
    CountsBlock(l, stats);
    NothingApprovedBlocks(l);
    blockers := When(l.claims == [], NoClaims)
      + When(stats.unreviewed > 0, UnreviewedClaims)
      + When(stats.deferred > 0, DeferredClaims)
      + When(l.claims != [] && approved == [], NoApprovedClaims)
      + When(stats.openConflicts > 0, OpenConflicts);
  }

  function When(raised: bool, code: Code): seq<Code> {
    if raised then [code] else []
  }

  lemma NothingApprovedBlocks(l: Ledger)
    ensures l.claims != [] && ApprovedClaims(l, |l.claims|) == [] <==> Blocks(l, NoApprovedClaims)
  {
    ApprovedClaimsExact(l, |l.claims|);
    var approved := ApprovedClaims(l, |l.claims|);
    if approved != [] {
      assert IsApproved(l, approved[0]);
    }
  }

  lemma CountsBlock(l: Ledger, stats: Stats)
    requires Counted(l, |l.claims|, stats) && stats.openConflicts == |OpenGroups(l.groups)|
    ensures stats.unreviewed > 0 <==> Blocks(l, UnreviewedClaims)
    ensures stats.deferred > 0 <==> Blocks(l, DeferredClaims)
    ensures stats.openConflicts > 0 <==> Blocks(l, OpenConflicts)
  {
    forall c | 0 <= c < |l.claims|
      ensures c in StandingAt(l, |l.claims|, {None}) <==> LatestReview(l.reviews, c) == None {
    }
    forall c | 0 <= c < |l.claims|
      ensures c in StandingAt(l, |l.claims|, {Some(Defer)}) <==> LatestReview(l.reviews, c).Some? && !IsFinal(l, c) {
    }
    forall g | 0 <= g < |l.groups| ensures g in OpenGroups(l.groups) <==> l.groups[g].status == Open {
    }
  }

  lemma AnyApproved(l: Ledger, test: (Ledger, nat) -> bool)
    ensures Any(l, ApprovedClaims(l, |l.claims|), test)
      <==> exists c :: 0 <= c < |l.claims| && IsApproved(l, c) && test(l, c)
  {
    var approved := ApprovedClaims(l, |l.claims|);
    ApprovedClaimsExact(l, |l.claims|);
    if c :| 0 <= c < |l.claims| && IsApproved(l, c) && test(l, c) {
      var i :| 0 <= i < |approved| && approved[i] == c;
      assert test(l, approved[i]);
    }
  }

  lemma LineageBlocks(l: Ledger)
    ensures Any(l, ApprovedClaims(l, |l.claims|), NoRevision) <==> Blocks(l, IncompleteEntityLineage)
    ensures Any(l, ApprovedClaims(l, |l.claims|), ArchivedSubject) <==> Blocks(l, ApprovedArchivedEntities)
  {
    AnyApproved(l, NoRevision);
    AnyApproved(l, ArchivedSubject);
  }

  /** `_plan` */
  method BuildPlan(l: Ledger) returns (p: Plan)
    ensures PlanOf(l, p)
  {
    var latest := LatestReviews(l.reviews);
    var stats, approved := SortOut(l, latest);
    stats := stats.(openConflicts := |OpenGroups(l.groups)|);
    FrozenClaimsAreLinks(l, |l.claims|);
    ApprovedLinksExact(l, |l.claims|);
    var reviewing := ReviewBlockers(l, stats, approved);
    var links, entities := FreezeRevisions(l, approved);
    var conflicts := ConflictBlockers(l, latest);
    var members, lineage := MemberPayloads(l, links);
    LineageBlocks(l);
    BrokenLinksBlock(l);
    var blockers := reviewing + entities + conflicts + lineage;
    BlockersExact(l, reviewing, entities, conflicts, lineage);
    if blockers != [] {
      assert blockers[0] in blockers;
      return Plan(stats, blockers, links, None);
    }
    assert !Blocks(l, IncompleteLineage);
    SortedPayloads(l, links);
    return Plan(stats, blockers, links, Some(Digest(SNAPSHOT_SCHEMA_VERSION, Ordering.Sort(BySortKey, members))));
  }

  lemma BlockersExact(l: Ledger, reviewing: seq<Code>, entities: seq<Code>, conflicts: seq<Code>, lineage: seq<Code>)
    requires forall code :: code in reviewing <==>
      code in {NoClaims, UnreviewedClaims, DeferredClaims, NoApprovedClaims, OpenConflicts} && Blocks(l, code)
    requires forall code :: code in entities <==>
      code in {IncompleteEntityLineage, ApprovedArchivedEntities} && Blocks(l, code)
    requires forall code :: code in conflicts <==> exists key :: InUse(l, key) && KeyBlocks(l, key, code)
    requires forall code :: code in lineage <==> code == IncompleteLineage && Blocks(l, code)
    ensures forall code :: code in reviewing + entities + conflicts + lineage <==> Blocks(l, code)
  {
    forall code ensures code in reviewing + entities + conflicts + lineage <==> Blocks(l, code) {
      match code
      case InconsistentApprovedValues =>
      case UnreconciledConflicts =>
      case InconsistentClosedConflict =>
      case _ =>
    }
  }
}
