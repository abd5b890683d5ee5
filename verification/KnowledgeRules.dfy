/**
 * The answers of the knowledge commands, stated over the rows alone: which reviews and revisions are the last ones,
 * when a publication, a closure or a review is accepted, and what it leaves behind.
 */
module KnowledgeRules {
  import opened Prelude
  import opened KnowledgeLedger
  import opened KnowledgePublication
  import opened KnowledgeHistory
  import Ordering

  // ---------------------------------------------------------------- rows

  /** Review `r` is the last one of claim `c`. */
  ghost predicate LastReview(l: Ledger, c: nat, r: nat) {
    && r < |l.reviews| && l.reviews[r].claim == c
    && forall i :: 0 <= i < |l.reviews| && l.reviews[i].claim == c ==> i <= r
  }

  predicate Approving(r: Review) {
    r.decision == Approve || r.decision == ApproveWithEdit
  }

  /** Claim `c` is approved, by review `r`. */
  ghost predicate ApprovedBy(l: Ledger, c: nat, r: nat) {
    c < |l.claims| && LastReview(l, c, r) && Approving(l.reviews[r])
  }

  /** Claim `c` has its final decision. */
  ghost predicate Decided(l: Ledger, c: nat) {
    exists r: nat :: LastReview(l, c, r) && l.reviews[r].decision != Defer
  }

  /** Revision `i` is the last one of the entity. */
  ghost predicate LastRevision(l: Ledger, entity: nat, i: nat) {
    && i < |l.revisions| && l.revisions[i].entity == entity
    && forall j :: 0 <= j < |l.revisions| && l.revisions[j].entity == entity ==> j <= i
  }

  /** The entity exists, and its last revision is not an archived one. */
  ghost predicate Alive(l: Ledger, entity: nat) {
    exists i: nat :: LastRevision(l, entity, i) && !l.revisions[i].archived
  }

  /** The predicates that hold one value at a time. */
  predicate SingleValued(p: FactPredicate) {
    p == GameName || p == ReleaseStatus || p == ReleaseDate || p == GenrePrimary
  }

  /** The claims are about the same subject, predicate and scope. */
  predicate Comparable(a: Claim, b: Claim) {
    a.subject == b.subject && a.predicate_ == b.predicate_ && a.scope == b.scope
  }

  function ValueOf(r: Review): Option<string> {
    if r.approved.Some? then Some(r.approved.value.normalized) else None
  }

  // ---------------------------------------------------------------- the look-ups find the last rows

  lemma LatestReviewExactly(l: Ledger, c: nat, r: nat)
    ensures LastReview(l, c, r) <==> LatestReview(l.reviews, c) == Some(r)
    ensures LatestReview(l.reviews, c) == None <==> forall i :: 0 <= i < |l.reviews| ==> l.reviews[i].claim != c
  {
    forall i | 0 <= i < |l.reviews| && l.reviews[i].claim == c
      ensures LatestReview(l.reviews, c).Some? && i <= LatestReview(l.reviews, c).value {
      LatestReviewIsLast(l.reviews, c, i);
    }
  }

  lemma {:induction false} LatestRevisionIsLast(revisions: seq<Revision>, entity: nat, i: nat)
    requires i < |revisions| && revisions[i].entity == entity
    ensures LatestRevision(revisions, entity).Some? && i <= LatestRevision(revisions, entity).value
  {
    if revisions[|revisions| - 1].entity != entity {
      LatestRevisionIsLast(revisions[..|revisions| - 1], entity, i);
    }
  }

  lemma LatestRevisionExactly(l: Ledger, entity: nat, i: nat)
    ensures LastRevision(l, entity, i) <==> LatestRevision(l.revisions, entity) == Some(i)
  {
    forall j | 0 <= j < |l.revisions| && l.revisions[j].entity == entity
      ensures LatestRevision(l.revisions, entity).Some? && j <= LatestRevision(l.revisions, entity).value {
      LatestRevisionIsLast(l.revisions, entity, j);
    }
  }

  lemma DecidedExactly(l: Ledger, c: nat)
    ensures Decided(l, c) <==> IsFinal(l, c)
  {
    var latest := LatestReview(l.reviews, c);
    if latest.Some? {
      LatestReviewExactly(l, c, latest.value);
    }
    if r: nat :| LastReview(l, c, r) && l.reviews[r].decision != Defer {
      LatestReviewExactly(l, c, r);
    }
  }

  lemma ApprovedExactly(l: Ledger, c: nat, r: nat)
    requires c < |l.claims|
    ensures ApprovedBy(l, c, r) <==> IsApproved(l, c) && LatestReview(l.reviews, c) == Some(r)
  {
    LatestReviewExactly(l, c, r);
  }

  lemma ApprovedHasReview(l: Ledger, c: nat)
    requires c < |l.claims| && IsApproved(l, c)
    ensures ApprovedBy(l, c, LatestReview(l.reviews, c).value)
  {
    ApprovedExactly(l, c, LatestReview(l.reviews, c).value);
  }

  lemma AliveExactly(l: Ledger, c: nat)
    requires c < |l.claims|
    ensures Alive(l, l.claims[c].subject)
      <==> RevisionFor(l, c).Some? && !l.revisions[RevisionFor(l, c).value].archived
  {
    var entity := l.claims[c].subject;
    if RevisionFor(l, c).Some? {
      LatestRevisionExactly(l, entity, RevisionFor(l, c).value);
    }
    if i: nat :| LastRevision(l, entity, i) && !l.revisions[i].archived {
      LatestRevisionExactly(l, entity, i);
    }
  }

  // ---------------------------------------------------------------- publication

  ghost predicate Supported(l: Ledger, c: nat)
    requires c < |l.claims|
  {
    var claim := l.claims[c];
    && claim.subject < |l.entityKeys| && Alive(l, claim.subject)
    && claim.evidence != [] && forall e :: e in claim.evidence ==> e.traceable
  }

  /** Claims that can be compared and differ have their conflict group. */
  ghost predicate Grouped(l: Ledger, c: nat, d: nat)
    requires c < |l.claims| && d < |l.claims|
  {
    Comparable(l.claims[c], l.claims[d]) && l.claims[c].normalized != l.claims[d].normalized ==>
      exists g :: 0 <= g < |l.groups|
        && l.groups[g].key == Key(l.claims[c].subject, l.claims[c].predicate_, l.claims[c].scope)
  }

  /** Approved values that can be compared and exclude each other are the same. */
  ghost predicate Compatible(l: Ledger, c: nat, q: nat, d: nat, r: nat) {
    ApprovedBy(l, c, q) && ApprovedBy(l, d, r) && Comparable(l.claims[c], l.claims[d]) ==>
      SingleValued(l.claims[c].predicate_) ==> ValueOf(l.reviews[q]) == ValueOf(l.reviews[r])
  }

  ghost predicate AllDecided(l: Ledger) {
    forall c: nat :: c < |l.claims| ==> Decided(l, c)
  }

  ghost predicate AnyApproved(l: Ledger) {
    exists c: nat, r: nat :: ApprovedBy(l, c, r)
  }

  ghost predicate AllSupported(l: Ledger) {
    forall c: nat, r: nat :: ApprovedBy(l, c, r) ==> Supported(l, c)
  }

  ghost predicate AllGrouped(l: Ledger) {
    forall c: nat, d: nat :: c < |l.claims| && d < |l.claims| ==> Grouped(l, c, d)
  }

  ghost predicate AllCompatible(l: Ledger) {
    forall c: nat, q: nat, d: nat, r: nat :: Compatible(l, c, q, d, r)
  }

  /** When the knowledge of a project may be published. */
  ghost predicate PublicationRule(l: Ledger) {
    && AllDecided(l) && AnyApproved(l) && AllSupported(l) && AllGrouped(l)
    && (forall g :: 0 <= g < |l.groups| ==> l.groups[g].status != Open)
    && AllCompatible(l)
  }

  lemma SupportedExactly(l: Ledger, c: nat)
    requires c < |l.claims|
    ensures Supported(l, c) <==> LineageReady(l, c)
  {
    AliveExactly(l, c);
  }

  lemma GroupedExactly(l: Ledger)
    ensures AllGrouped(l) <==> forall key :: Differ(l.claims, key) ==> FindGroup(l.groups, key).Some?
  {
    if AllGrouped(l) {
      forall key | Differ(l.claims, key) ensures FindGroup(l.groups, key).Some? {
        var c: nat, d: nat :| c < |l.claims| && d < |l.claims| && KeyOf(l.claims[c]) == key && KeyOf(l.claims[d]) == key
          && l.claims[c].normalized != l.claims[d].normalized;
        assert Grouped(l, c, d);
      }
    }
    if forall key :: Differ(l.claims, key) ==> FindGroup(l.groups, key).Some? {
      forall c: nat, d: nat | c < |l.claims| && d < |l.claims| ensures Grouped(l, c, d) {
        if Comparable(l.claims[c], l.claims[d]) && l.claims[c].normalized != l.claims[d].normalized {
          assert Differ(l.claims, KeyOf(l.claims[c]));
        }
      }
    }
  }

  lemma ApprovedValuesPresent(l: Ledger, c: nat, r: nat)
    requires Sound(l) && ApprovedBy(l, c, r)
    ensures l.reviews[r].approved.Some? && ValueOf(l.reviews[r]) == Some(NormalizedOf(l.reviews[r]))
  {
    assert ReviewOk(l.claims, l.reviews[r]);
  }

  lemma AgreeingIsCompatible(l: Ledger, c: nat, q: nat, d: nat, r: nat)
    requires Sound(l) && OneValuePerExclusiveKey(l)
    ensures Compatible(l, c, q, d, r)
  {
    if ApprovedBy(l, c, q) && ApprovedBy(l, d, r) {
      ApprovedExactly(l, c, q);
      ApprovedExactly(l, d, r);
      ApprovedValuesPresent(l, c, q);
      ApprovedValuesPresent(l, d, r);
      assert Exclusive(KeyOf(l.claims[c])) ==> !ApprovalsDiffer(l, KeyOf(l.claims[c]));
    }
  }

  lemma CompatibleIsAgreeing(l: Ledger, c: nat, d: nat)
    requires Sound(l) && c < |l.claims| && d < |l.claims| && IsApproved(l, c) && IsApproved(l, d)
    requires KeyOf(l.claims[c]) == KeyOf(l.claims[d]) && Exclusive(KeyOf(l.claims[c]))
    requires Compatible(l, c, LatestReview(l.reviews, c).value, d, LatestReview(l.reviews, d).value)
    ensures NormalizedOf(ApprovedReview(l, c)) == NormalizedOf(ApprovedReview(l, d))
  {
    ApprovedHasReview(l, c);
    ApprovedHasReview(l, d);
    ApprovedValuesPresent(l, c, LatestReview(l.reviews, c).value);
    ApprovedValuesPresent(l, d, LatestReview(l.reviews, d).value);
  }

  lemma CompatibleExactly(l: Ledger)
    requires Sound(l)
    ensures AllCompatible(l) <==> OneValuePerExclusiveKey(l)
  {
    if OneValuePerExclusiveKey(l) {
      forall c: nat, q: nat, d: nat, r: nat ensures Compatible(l, c, q, d, r) {
        AgreeingIsCompatible(l, c, q, d, r);
      }
    } else {
      var key :| Exclusive(key) && ApprovalsDiffer(l, key);
      var c: nat, d: nat :| c < |l.claims| && d < |l.claims| && KeyOf(l.claims[c]) == key && KeyOf(l.claims[d]) == key
        && IsApproved(l, c) && IsApproved(l, d)
        && NormalizedOf(ApprovedReview(l, c)) != NormalizedOf(ApprovedReview(l, d));
      if Compatible(l, c, LatestReview(l.reviews, c).value, d, LatestReview(l.reviews, d).value) {
        CompatibleIsAgreeing(l, c, d);
      }
    }
  }

  lemma ReviewsExactly(l: Ledger)
    ensures AllDecided(l) <==> forall c :: 0 <= c < |l.claims| ==> IsFinal(l, c)
    ensures AnyApproved(l) <==> exists c :: 0 <= c < |l.claims| && IsApproved(l, c)
    ensures AllSupported(l) <==> forall c :: 0 <= c < |l.claims| && IsApproved(l, c) ==> LineageReady(l, c)
  {
    forall c: nat | c < |l.claims|
      ensures Decided(l, c) <==> IsFinal(l, c)
      ensures Supported(l, c) <==> LineageReady(l, c)
      ensures IsApproved(l, c) ==> ApprovedBy(l, c, LatestReview(l.reviews, c).value) {
      DecidedExactly(l, c);
      SupportedExactly(l, c);
      if IsApproved(l, c) {
        ApprovedHasReview(l, c);
      }
    }
    forall c: nat, r: nat | ApprovedBy(l, c, r) ensures IsApproved(l, c) {
      ApprovedExactly(l, c, r);
    }
  }

  lemma PublishableExactly(l: Ledger)
    requires Sound(l)
    ensures Publishable(l) <==> PublicationRule(l)
  {
    GateIsExact(l);
    ReviewsExactly(l);
    GroupedExactly(l);
    CompatibleExactly(l);
  }

  /**
   * A publication under a new key is accepted if and only if every claim has its final decision, something is
   * approved, all of that is supported by an entity whose last revision is live and by traceable evidence, differing
   * claims are grouped, all groups are closed, and no two approved values exclude each other.
   */
  lemma PublishExactly(l: Ledger, actor: string, notes: Option<string>, key: string)
    requires Reachable(l) && forall s :: 0 <= s < |l.snapshots| ==> l.snapshots[s].commandKey != key
    ensures Publish(l, actor, notes, key).Success? <==> PublicationRule(l)
    ensures Publish(l, actor, notes, key).Success? ==> Publish(l, actor, notes, key).value.1
  {
    ReachableIsSound(l);
    PublishableExactly(l);
  }

  /** In particular, knowledge about an entity whose last revision is archived is never published. */
  lemma ArchivedSubjectIsRefused(l: Ledger, c: nat, r: nat, i: nat, actor: string, notes: Option<string>, key: string)
    requires Reachable(l) && forall s :: 0 <= s < |l.snapshots| ==> l.snapshots[s].commandKey != key
    requires ApprovedBy(l, c, r) && LastRevision(l, l.claims[c].subject, i) && l.revisions[i].archived
    ensures Publish(l, actor, notes, key) == Failure(Blocked) && Blocks(l, ApprovedArchivedEntities)
  {
    ReachableIsSound(l);
    PublishableExactly(l);
    ApprovedExactly(l, c, r);
    LatestRevisionExactly(l, l.claims[c].subject, i);
    assert Blocks(l, ApprovedArchivedEntities);
  }

  /** A member of a publication: an approved claim, its last review and the last revision of its subject. */
  ghost predicate FreshMember(l: Ledger, k: Link) {
    && k.claim < |l.claims| && ApprovedBy(l, k.claim, k.review)
    && LastRevision(l, l.claims[k.claim].subject, k.revision) && !l.revisions[k.revision].archived
  }

  /** What a member shows, copied out of its rows. */
  function Shown(l: Ledger, k: Link): Body
    requires k.claim < |l.claims| && k.review < |l.reviews| && k.revision < |l.revisions|
    requires l.claims[k.claim].subject < |l.entityKeys|
  {
    Body(l.claims[k.claim], l.reviews[k.review], l.revisions[k.revision], l.entityKeys[l.claims[k.claim].subject])
  }

  ghost predicate Shows(l: Ledger, links: seq<Link>, b: Body) {
    exists i :: 0 <= i < |links| && InTables(l, links[i]) && b == Shown(l, links[i])
  }

  lemma SerializedIsShown(l: Ledger, links: seq<Link>, i: nat)
    requires AllInTables(l, links) && i < |Serialize(l, links)|
    ensures Shows(l, links, Serialize(l, links)[i])
  {
    SortedInTables(l, links);
    var sorted := Ordering.Sort(ByKey(l), links);
    assert sorted[i] in sorted;
    Ordering.SortMembers(ByKey(l), links, sorted[i]);
    var j :| 0 <= j < |links| && links[j] == sorted[i];
    assert InTables(l, links[j]);
  }

  lemma ShownIsSerialized(l: Ledger, links: seq<Link>, j: nat)
    requires AllInTables(l, links) && j < |links|
    ensures Shown(l, links[j]) in Serialize(l, links)
  {
    SortedInTables(l, links);
    var sorted := Ordering.Sort(ByKey(l), links);
    Ordering.SortMembers(ByKey(l), links, links[j]);
    var i :| 0 <= i < |sorted| && sorted[i] == links[j];
    assert Serialize(l, links)[i] == Shown(l, links[j]);
  }

  lemma SerializeShows(l: Ledger, links: seq<Link>, b: Body)
    requires AllInTables(l, links)
    ensures b in Serialize(l, links) <==> Shows(l, links, b)
  {
    if b in Serialize(l, links) {
      var i :| 0 <= i < |Serialize(l, links)| && Serialize(l, links)[i] == b;
      SerializedIsShown(l, links, i);
    }
    if j :| 0 <= j < |links| && InTables(l, links[j]) && b == Shown(l, links[j]) {
      ShownIsSerialized(l, links, j);
    }
  }

  /** Members are listed by entity key, predicate, scope, approved value and claim id. */
  lemma SerializeIsSorted(l: Ledger, links: seq<Link>, i: nat, j: nat)
    requires AllInTables(l, links) && i < j < |Serialize(l, links)|
    ensures var a, b := Serialize(l, links)[i], Serialize(l, links)[j];
      Ordering.LexLe(
        a.entityKey + ":" + PredicateText(a.claim.predicate_) + ":" + a.claim.scope + ":" + NormalizedOf(a.review) + ":"
          + a.claim.id,
        b.entityKey + ":" + PredicateText(b.claim.predicate_) + ":" + b.claim.scope + ":" + NormalizedOf(b.review) + ":"
          + b.claim.id)
  {
    SortedInTables(l, links);
    ByKeyIsTotal(l);
    Ordering.SortSorts(ByKey(l), links);
    var sorted := Ordering.Sort(ByKey(l), links);
    assert ByKey(l)(sorted[i], sorted[j]);
  }

  /**
   * The new snapshot takes the next version number, says who published it, why and under which key, has one member
   * per approved claim with its last review and its subject's last revision, and its digest covers exactly what these
   * members show.
   */
  lemma PublishedSnapshot(l: Ledger, actor: string, notes: Option<string>, key: string)
    requires Reachable(l) && Publish(l, actor, notes, key).Success? && Publish(l, actor, notes, key).value.1
    ensures var m := Publish(l, actor, notes, key).value.0;
      && |m.snapshots| == |l.snapshots| + 1 && m == l.(snapshots := m.snapshots)
      && m.snapshots[..|l.snapshots|] == l.snapshots
      && var s := m.snapshots[|l.snapshots|];
      && s.version == |l.snapshots| + 1 && s.publisher == actor && s.notes == notes && s.commandKey == key
      && (forall i :: 0 <= i < |s.links| ==> FreshMember(l, s.links[i]))
      && (forall i, j :: 0 <= i < j < |s.links| ==> s.links[i].claim != s.links[j].claim)
      && (forall c: nat, r: nat :: ApprovedBy(l, c, r) ==> LinkAt(l, s.links, c))
      && s.digest.schema == "knowledge-snapshot-v1" && |s.digest.members| == |s.links|
      && (forall b :: b in s.digest.members <==> Shows(l, s.links, b))
  {
    ReachableIsSound(l);
    PublishFreezesApprovals(l, actor, notes, key);
    var m := Publish(l, actor, notes, key).value.0;
    var s := m.snapshots[|l.snapshots|];
    OpenGateLinks(l);
    forall i | 0 <= i < |s.links| ensures FreshMember(l, s.links[i]) {
      CurrentLinkIsFresh(l, s.links[i]);
    }
    forall c: nat, r: nat | ApprovedBy(l, c, r) ensures LinkAt(l, s.links, c) {
      ApprovedExactly(l, c, r);
    }
    forall b ensures b in s.digest.members <==> Shows(l, s.links, b) {
      SerializeShows(l, s.links, b);
    }
    SerializeLength(l, s.links);
  }

  lemma SerializeLength(l: Ledger, links: seq<Link>)
    requires AllInTables(l, links)
    ensures |Serialize(l, links)| == |links|
  {
    Ordering.SortKeeps(ByKey(l), links);
  }

  lemma CurrentLinkIsFresh(l: Ledger, k: Link)
    requires CurrentLink(l, k, |l.claims|) && Publishable(l)
    ensures FreshMember(l, k)
  {
    GateIsExact(l);
    ApprovedExactly(l, k.claim, k.review);
    LatestRevisionExactly(l, l.claims[k.claim].subject, k.revision);
    assert LineageReady(l, k.claim);
  }

  // ---------------------------------------------------------------- closing a conflict

  /** If these reviews approve the two claims, they approve one value. */
  ghost predicate SameValue(l: Ledger, c: nat, q: nat, d: nat, r: nat) {
    ApprovedBy(l, c, q) && ApprovedBy(l, d, r) ==> ValueOf(l.reviews[q]) == ValueOf(l.reviews[r])
  }

  /** What resolving a group requires of its members. */
  ghost predicate ResolutionRule(l: Ledger, g: Group) {
    && (forall m :: m in g.members ==> Decided(l, m.claim))
    && (exists m, r: nat :: m in g.members && ApprovedBy(l, m.claim, r))
    && (SingleValued(g.key.predicate_) ==>
          forall m, n, q: nat, r: nat :: m in g.members && n in g.members ==> SameValue(l, m.claim, q, n.claim, r))
  }

  ghost predicate KeyUnused(groups: seq<Group>, key: string) {
    forall g :: 0 <= g < |groups| && groups[g].closure.Some? ==> groups[g].closure.value.commandKey != key
  }

  lemma {:induction false} UnusedKeyIsNotFound(groups: seq<Group>, key: string)
    requires KeyUnused(groups, key)
    ensures FindClosure(groups, key) == None
  {
  }

  lemma MemberExists(l: Ledger, g: nat, m: Membership)
    requires Sound(l) && g < |l.groups| && m in l.groups[g].members
    ensures m.claim < |l.claims|
  {
    assert OkFor(l.claims)(l.groups[g]);
    var i :| 0 <= i < |l.groups[g].members| && l.groups[g].members[i] == m;
    assert RowOk(l.claims, l.groups[g].key, l.groups[g].members[i]);
  }

  lemma DecidedMembers(l: Ledger, g: Group)
    ensures FinalUpTo(l, g.members, |g.members|) <==> forall m :: m in g.members ==> Decided(l, m.claim)
  {
    forall m | m in g.members ensures Decided(l, m.claim) <==> IsFinal(l, m.claim) {
      DecidedExactly(l, m.claim);
    }
  }

  /** Review `r` approves the claim of a member of the group as `v`. */
  ghost predicate ApprovedAs(l: Ledger, g: nat, v: string, m: Membership, r: nat)
    requires g < |l.groups|
  {
    m in l.groups[g].members && ApprovedBy(l, m.claim, r) && ValueOf(l.reviews[r]) == Some(v)
  }

  lemma ApprovedMemberHas(l: Ledger, g: nat, v: string) returns (m: Membership, r: nat)
    requires Sound(l) && g < |l.groups| && v in ApprovedMemberValues(l, l.groups[g].members)
    ensures ApprovedAs(l, g, v, m, r)
  {
    var members := l.groups[g].members;
    var i :| 0 <= i < |members| && IsApproved(l, members[i].claim)
      && v == NormalizedOf(ApprovedReview(l, members[i].claim));
    m := members[i];
    MemberExists(l, g, m);
    ApprovedHasReview(l, m.claim);
    r := LatestReview(l.reviews, m.claim).value;
    ApprovedValuesPresent(l, m.claim, r);
  }

  lemma ApprovedMemberCounts(l: Ledger, g: nat, v: string, m: Membership, r: nat)
    requires Sound(l) && g < |l.groups| && ApprovedAs(l, g, v, m, r)
    ensures v in ApprovedMemberValues(l, l.groups[g].members)
  {
    var members := l.groups[g].members;
    ApprovedExactly(l, m.claim, r);
    ApprovedValuesPresent(l, m.claim, r);
    var i :| 0 <= i < |members| && members[i] == m;
  }

  lemma OneElement(s: set<string>)
    ensures |s| == 1 <==> s != {} && forall x, y :: x in s && y in s ==> x == y
  {
    if x :| x in s {
      assert |s| == 1 + |s - {x}|;
      if s - {x} != {} {
        var y :| y in s - {x};
      } else {
        assert s == {x};
      }
    }
  }

  lemma SomeValueApproved(l: Ledger, g: nat)
    requires Sound(l) && g < |l.groups|
    ensures ApprovedMemberValues(l, l.groups[g].members) != {}
      <==> exists m, r: nat :: m in l.groups[g].members && ApprovedBy(l, m.claim, r)
  {
    var members := l.groups[g].members;
    if ApprovedMemberValues(l, members) != {} {
      var v :| v in ApprovedMemberValues(l, members);
      var m, r := ApprovedMemberHas(l, g, v);
    }
    if m, r: nat :| m in members && ApprovedBy(l, m.claim, r) {
      ApprovedValuesPresent(l, m.claim, r);
      ApprovedMemberCounts(l, g, ValueOf(l.reviews[r]).value, m, r);
    }
  }

  ghost predicate OneValueOnly(values: set<string>) {
    forall v, w :: v in values && w in values ==> v == w
  }

  lemma OneValueIsSame(l: Ledger, g: nat, m: Membership, q: nat, n: Membership, r: nat)
    requires Sound(l) && g < |l.groups| && m in l.groups[g].members && n in l.groups[g].members
    requires OneValueOnly(ApprovedMemberValues(l, l.groups[g].members))
    ensures SameValue(l, m.claim, q, n.claim, r)
  {
    if ApprovedBy(l, m.claim, q) && ApprovedBy(l, n.claim, r) {
      ApprovedValuesPresent(l, m.claim, q);
      ApprovedValuesPresent(l, n.claim, r);
      ApprovedMemberCounts(l, g, ValueOf(l.reviews[q]).value, m, q);
      ApprovedMemberCounts(l, g, ValueOf(l.reviews[r]).value, n, r);
    }
  }

  lemma TwoValuesDiffer(l: Ledger, g: nat, v: string, w: string) returns (m: Membership, q: nat, n: Membership, r: nat)
    requires Sound(l) && g < |l.groups| && v != w
    requires v in ApprovedMemberValues(l, l.groups[g].members) && w in ApprovedMemberValues(l, l.groups[g].members)
    ensures m in l.groups[g].members && n in l.groups[g].members && !SameValue(l, m.claim, q, n.claim, r)
  {
    m, q := ApprovedMemberHas(l, g, v);
    n, r := ApprovedMemberHas(l, g, w);
  }

  lemma OneValueApproved(l: Ledger, g: nat)
    requires Sound(l) && g < |l.groups|
    ensures OneValueOnly(ApprovedMemberValues(l, l.groups[g].members))
      <==> forall m, n, q: nat, r: nat :: m in l.groups[g].members && n in l.groups[g].members ==>
             SameValue(l, m.claim, q, n.claim, r)
  {
    var members := l.groups[g].members;
    if OneValueOnly(ApprovedMemberValues(l, members)) {
      forall m, n, q: nat, r: nat | m in members && n in members ensures SameValue(l, m.claim, q, n.claim, r) {
        OneValueIsSame(l, g, m, q, n, r);
      }
    } else {
      var v, w :| v in ApprovedMemberValues(l, members) && w in ApprovedMemberValues(l, members) && v != w;
      var m, q, n, r := TwoValuesDiffer(l, g, v, w);
    }
  }

  lemma ResolutionExactly(l: Ledger, g: nat)
    requires Reachable(l) && g < |l.groups|
    ensures ValidateResolution(l, l.groups[g]).Success? <==> ResolutionRule(l, l.groups[g])
  {
    ReachableIsSound(l);
    ResolutionIsExact(l, g);
    assert Exclusive(l.groups[g].key) <==> SingleValued(l.groups[g].key.predicate_);
    DecidedMembers(l, l.groups[g]);
    SomeValueApproved(l, g);
    OneValueApproved(l, g);
    OneElement(ApprovedMemberValues(l, l.groups[g].members));
  }

  /**
   * Closing an existing group under a new key: a dismissal of an open group always succeeds, a resolution if and only
   * if every member has its final decision, some member is approved and a single-valued key keeps one value. A closed
   * group is never closed again, and nothing is ever closed as open.
   */
  lemma CloseExactly(l: Ledger, g: nat, outcome: GroupStatus, summary: string, actor: string, key: string)
    requires Reachable(l) && KeyUnused(l.groups, key)
    ensures var reply := CloseConflict(l, g, outcome, summary, actor, key);
      && (outcome == Open ==> reply == Failure(OutcomeOpen))
      && (outcome != Open && g >= |l.groups| ==> reply == Failure(GroupNotFound))
      && (outcome != Open && g < |l.groups| && l.groups[g].status != Open ==> reply == Failure(AlreadyClosed))
      && (outcome == Dismissed && g < |l.groups| && l.groups[g].status == Open ==> reply.Success?)
      && (outcome == Resolved && g < |l.groups| && l.groups[g].status == Open ==>
            (reply.Success? <==> ResolutionRule(l, l.groups[g])))
  {
    UnusedKeyIsNotFound(l.groups, key);
    if g < |l.groups| {
      ResolutionExactly(l, g);
    }
  }

  /** The members whose last review says `d`. */
  ghost function Saying(l: Ledger, members: seq<Membership>, d: Decision): set<nat> {
    set i: nat | i < |members| && Says(l, members[i].claim, d)
  }

  ghost predicate Says(l: Ledger, c: nat, d: Decision) {
    exists r: nat :: LastReview(l, c, r) && l.reviews[r].decision == d
  }

  lemma SaysExactly(l: Ledger, c: nat, d: Decision)
    ensures Says(l, c, d)
      <==> LatestReview(l.reviews, c).Some? && l.reviews[LatestReview(l.reviews, c).value].decision == d
  {
    if LatestReview(l.reviews, c).Some? {
      LatestReviewExactly(l, c, LatestReview(l.reviews, c).value);
    }
    if r: nat :| LastReview(l, c, r) && l.reviews[r].decision == d {
      LatestReviewExactly(l, c, r);
    }
  }

  lemma SayingNext(l: Ledger, members: seq<Membership>, d: Decision)
    requires members != []
    ensures var front, last := members[..|members| - 1], members[|members| - 1];
      |Saying(l, members, d)| == |Saying(l, front, d)| + if Says(l, last.claim, d) then 1 else 0
  {
    var front, n := members[..|members| - 1], |members| - 1;
    var last := members[n].claim;
    forall i: nat ensures i in Saying(l, members, d) <==> i in Saying(l, front, d) || (i == n && Says(l, last, d)) {
      assert i < n ==> front[i] == members[i];
    }
    if Says(l, last, d) {
      assert Saying(l, members, d) == Saying(l, front, d) + {n};
    } else {
      assert Saying(l, members, d) == Saying(l, front, d);
    }
  }

  /** The recorded counts are true: as many members as have that last decision. */
  lemma {:induction false} CountsAreTrue(l: Ledger, members: seq<Membership>, d: Decision)
    ensures var counts := CountDecisions(l, members);
      (if d in counts then counts[d] else 0) == |Saying(l, members, d)|
    decreases |members|
  {
    if members != [] {
      CountsAreTrue(l, members[..|members| - 1], d);
      SayingNext(l, members, d);
      SaysExactly(l, members[|members| - 1].claim, d);
    }
  }

  /** A closure changes its group alone, and records outcome, summary, actor, key and, when resolved, true counts. */
  lemma ClosedGroup(l: Ledger, g: nat, outcome: GroupStatus, summary: string, actor: string, key: string)
    requires Reachable(l) && KeyUnused(l.groups, key) && CloseConflict(l, g, outcome, summary, actor, key).Success?
    ensures CloseConflict(l, g, outcome, summary, actor, key).value.1
    ensures var m := CloseConflict(l, g, outcome, summary, actor, key).value.0;
      && g < |l.groups| && |m.groups| == |l.groups| && m == l.(groups := m.groups)
      && (forall h :: 0 <= h < |l.groups| && h != g ==> m.groups[h] == l.groups[h])
      && var before, closed := l.groups[g], m.groups[g];
      && closed.key == before.key && closed.members == before.members && closed.status == outcome
      && closed.closure.Some?
      && var c := closed.closure.value;
      && c.summary == summary && c.actor == actor && c.commandKey == key
      && (outcome == Dismissed ==> c.counts == map[])
      && (outcome == Resolved ==> forall d ::
            (if d in c.counts then c.counts[d] else 0) == |Saying(l, before.members, d)|)
  {
    UnusedKeyIsNotFound(l.groups, key);
    forall d ensures var counts := CountDecisions(l, l.groups[g].members);
      (if d in counts then counts[d] else 0) == |Saying(l, l.groups[g].members, d)| {
      CountsAreTrue(l, l.groups[g].members, d);
    }
  }

  // ---------------------------------------------------------------- reviewing a claim

  /** When a decision may be recorded, given the edited value that comes with it. */
  predicate ReviewRule(claim: Claim, decision: Decision, edit: Option<Edit>) {
    match decision
    case Reject => edit == None
    case Defer => edit == None
    case Approve => edit == None && claim.evidence != []
    case ApproveWithEdit =>
      claim.evidence != [] && edit.Some? && edit.value.valid && edit.value.normalized != claim.normalized
  }

  /**
   * A review under a new key is accepted exactly by this rule; it appends one row, with the claim's own value when it
   * approves, the edited one when it approves with an edit, and none otherwise.
   */
  lemma ReviewExactly(l: Ledger, c: nat, decision: Decision, edit: Option<Edit>, reason: string, actor: string,
                      key: string)
    requires forall i :: 0 <= i < |l.reviews| ==> l.reviews[i].commandKey != FromCaller(key)
    ensures ReviewClaim(l, c, decision, edit, reason, actor, key).Success?
      <==> c < |l.claims| && ReviewRule(l.claims[c], decision, edit)
    ensures ReviewClaim(l, c, decision, edit, reason, actor, key).Success? ==>
      var (m, created) := ReviewClaim(l, c, decision, edit, reason, actor, key).value;
      && created && m == l.(reviews := m.reviews) && |m.reviews| == |l.reviews| + 1
      && m.reviews[..|l.reviews|] == l.reviews
      && var r := m.reviews[|l.reviews|];
      && LastReview(m, c, |l.reviews|) && r.decision == decision && r.reason == reason && r.reviewer == actor
      && r.commandKey == FromCaller(key)
      && (decision == Approve
          ==> r.approved == Some(ApprovedValue(l.claims[c].kind, l.claims[c].value, l.claims[c].normalized)))
      && (decision == ApproveWithEdit ==>
            r.approved == Some(ApprovedValue(l.claims[c].kind, edit.value.value, edit.value.normalized)))
      && (decision == Reject || decision == Defer ==> r.approved == None)
  {
  }

  // ---------------------------------------------------------------- confirming a pack

  /**
   * The row that confirming a decision leaves: the reviewer's verdict in the human's name, with the claim's own value.
   */
  function ConfirmedRow(claim: Claim, d: PackDecision, packKey: string, actor: string): Review {
    if d.verdict == AgentApproved then
      Review(d.claim, Approve, Some(ApprovedValue(claim.kind, claim.value, claim.normalized)), d.reasonCode, actor,
             FromPack(packKey, d.claim))
    else Review(d.claim, Reject, None, d.reasonCode, actor, FromPack(packKey, d.claim))
  }

  /** One decision: nothing for one that needs a human, was recorded before or agrees with the last review. */
  lemma ConfirmOneExactly(l: Ledger, packKey: string, actor: string, d: PackDecision)
    requires d.claim < |l.claims|
    ensures var m := ConfirmOne(l, packKey, actor, d);
      if || d.verdict == NeedsHuman
         || (exists i :: 0 <= i < |l.reviews| && l.reviews[i].commandKey == FromPack(packKey, d.claim))
         || Says(l, d.claim, if d.verdict == AgentApproved then Approve else Reject)
      then m == l
      else m == l.(reviews := l.reviews + [ConfirmedRow(l.claims[d.claim], d, packKey, actor)])
  {
    SaysExactly(l, d.claim, if d.verdict == AgentApproved then Approve else Reject);
  }
}
