/** Human review, conflict closure and snapshot publication over one project's knowledge ledger. */
module KnowledgePublication {
  import opened Prelude
  import opened KnowledgeLedger
  import Ordering

  // ---------------------------------------------------------------- reviews

  /** An edited value as the caller sends it, with its canonical form and whether it passed validation. */
  datatype Edit = Edit(value: string, normalized: string, valid: bool)

  datatype ReviewError = ClaimNotFound | ValueNotAllowed | NoEvidence | EditMissing | InvalidValue | EditEquivalent
    | KeyReused

  /** `_review_value` */
  function ReviewValue(claim: Claim, decision: Decision, edit: Option<Edit>)
    : Result<Option<ApprovedValue>, ReviewError> {
    if !Approves(decision) then
      (if edit.Some? then Failure(ValueNotAllowed) else Success(None))
    else if claim.evidence == [] then Failure(NoEvidence)
    else if decision == Approve then
      (if edit.Some? then Failure(ValueNotAllowed)
       else Success(Some(ApprovedValue(claim.kind, claim.value, claim.normalized))))
    else if edit == None then Failure(EditMissing)
    else if !edit.value.valid then Failure(InvalidValue)
    else if edit.value.normalized == claim.normalized then Failure(EditEquivalent)
    else Success(Some(ApprovedValue(claim.kind, edit.value.value, edit.value.normalized)))
  }

  function FindReview(reviews: seq<Review>, key: CommandKey): (r: Option<nat>)
    ensures r.Some? ==> r.value < |reviews| && reviews[r.value].commandKey == key
    ensures r == None ==> forall i :: 0 <= i < |reviews| ==> reviews[i].commandKey != key
  {
    if reviews == [] then None
    else if reviews[|reviews| - 1].commandKey == key then Some(|reviews| - 1)
    else FindReview(reviews[..|reviews| - 1], key)
  }

  /** `review_claim`: the new ledger and whether a row was created. */
  function ReviewClaim(l: Ledger, c: nat, decision: Decision, edit: Option<Edit>, reason: string, actor: string,
                       key: string)
    : Result<(Ledger, bool), ReviewError>
  {
    if c >= |l.claims| then Failure(ClaimNotFound)
    else match ReviewValue(l.claims[c], decision, edit)
      case Failure(error) => Failure(error)
      case Success(approved) =>
        var review := Review(c, decision, approved, reason, actor, FromCaller(key));
        match FindReview(l.reviews, FromCaller(key))
        case Some(r) => if l.reviews[r] == review then Success((l, false)) else Failure(KeyReused)
        case None => Success((l.(reviews := l.reviews + [review]), true))
  }

  datatype PackVerdict = AgentApproved | AgentRejected | NeedsHuman

  datatype PackDecision = PackDecision(claim: nat, verdict: PackVerdict, reasonCode: string)

  /** One pass of `confirm_pack`'s loop: an existing derived key or an equal latest decision is passed over. */
  function ConfirmOne(l: Ledger, packKey: string, actor: string, d: PackDecision): Ledger
    requires d.claim < |l.claims|
  {
    var claim := l.claims[d.claim];
    var expected := if d.verdict == AgentApproved then Approve else Reject;
    var latest := LatestReview(l.reviews, d.claim);
    if d.verdict == NeedsHuman then l
    else if FindReview(l.reviews, FromPack(packKey, d.claim)).Some? then l
    else if latest.Some? && l.reviews[latest.value].decision == expected then l
    else l.(reviews := l.reviews + [Review(d.claim, expected,
      if expected == Approve then Some(ApprovedValue(claim.kind, claim.value, claim.normalized)) else None,
      d.reasonCode, actor, FromPack(packKey, d.claim))])
  }

  function ConfirmPack(l: Ledger, packKey: string, actor: string, ds: seq<PackDecision>): (r: Ledger)
    requires forall i :: 0 <= i < |ds| ==> ds[i].claim < |l.claims|
    ensures r.claims == l.claims
    decreases |ds|
  {
    if ds == [] then l
    else ConfirmOne(ConfirmPack(l, packKey, actor, ds[..|ds| - 1]), packKey, actor, ds[|ds| - 1])
  }

  // ---------------------------------------------------------------- conflict closure

  datatype CloseError = GroupNotFound | AlreadyClosed | OutcomeOpen | KeyOfOtherClosure
    | EmptyGroup | InconsistentRelations | NotFinal | NothingApproved | SeveralValues

  /** The latest reviews of the group's first `n` members are all final. */
  predicate FinalUpTo(l: Ledger, members: seq<Membership>, n: nat)
    requires n <= |members|
  {
    forall m :: 0 <= m < n ==> IsFinal(l, members[m].claim)
  }

  predicate IsFinal(l: Ledger, c: nat) {
    LatestReview(l.reviews, c).Some? && l.reviews[LatestReview(l.reviews, c).value].decision != Defer
  }

  function ApprovedMemberValues(l: Ledger, members: seq<Membership>): set<string> {
    set m | 0 <= m < |members| && IsApproved(l, members[m].claim) :: NormalizedOf(ApprovedReview(l, members[m].claim))
  }

  function Relations(members: seq<Membership>): set<Relation> {
    set m | 0 <= m < |members| :: members[m].relation
  }

  function CountDecisions(l: Ledger, members: seq<Membership>): map<Decision, nat> {
    if members == [] then map[]
    else
      var front := CountDecisions(l, members[..|members| - 1]);
      var r := LatestReview(l.reviews, members[|members| - 1].claim);
      if r == None then front else Bump(front, l.reviews[r.value].decision)
  }

  /** `counts[decision] += 1` */
  function Bump(counts: map<Decision, nat>, d: Decision): map<Decision, nat> {
    counts[d := (if d in counts then counts[d] else 0) + 1]
  }

  /** `_validate_resolution` */
  function ValidateResolution(l: Ledger, g: Group): Result<map<Decision, nat>, CloseError> {
    if g.members == [] then Failure(EmptyGroup)
    else if |Relations(g.members)| != 1 then Failure(InconsistentRelations)
    else if !FinalUpTo(l, g.members, |g.members|) then Failure(NotFinal)
    else if ApprovedMemberValues(l, g.members) == {} then Failure(NothingApproved)
    else if Relations(g.members) == {Conflicting} && |ApprovedMemberValues(l, g.members)| != 1
      then Failure(SeveralValues)
    else Success(CountDecisions(l, g.members))
  }

  function FindClosure(groups: seq<Group>, key: string): (r: Option<nat>)
    ensures r.Some?
      ==> r.value < |groups| && groups[r.value].closure.Some? && groups[r.value].closure.value.commandKey == key
  {
    if groups == [] then None
    else
      var last := groups[|groups| - 1].closure;
      if last.Some? && last.value.commandKey == key then Some(|groups| - 1)
      else FindClosure(groups[..|groups| - 1], key)
  }

  /** `close_conflict` */
  function CloseConflict(l: Ledger, g: nat, outcome: GroupStatus, summary: string, actor: string, key: string)
    : Result<(Ledger, bool), CloseError>
  {
    if outcome == Open then Failure(OutcomeOpen)
    else match FindClosure(l.groups, key)
      case Some(reused) =>
        var old_ := l.groups[reused];
        if reused != g || old_.status != outcome || old_.closure.value.summary != summary
          || old_.closure.value.actor != actor
        then Failure(KeyOfOtherClosure) else Success((l, false))
      case None =>
        if g >= |l.groups| then Failure(GroupNotFound)
        else if l.groups[g].status != Open then Failure(AlreadyClosed)
        else
          var counts := if outcome == Resolved then ValidateResolution(l, l.groups[g]) else Success(map[]);
          match counts
          case Failure(error) => Failure(error)
          case Success(counts) => Success((l.(groups := l.groups[g :=
            l.groups[g].(status := outcome, closure := Some(Closure(summary, actor, key, counts)))]), true))
  }

  // ---------------------------------------------------------------- the publication gate

  datatype Code =
    | NoClaims | UnreviewedClaims | DeferredClaims | NoApprovedClaims | OpenConflicts
    | IncompleteEntityLineage | ApprovedArchivedEntities
    | InconsistentApprovedValues | UnreconciledConflicts | InconsistentClosedConflict
    | IncompleteLineage

  predicate EvidenceComplete(claim: Claim) {
    claim.evidence != [] && forall i :: 0 <= i < |claim.evidence| ==> claim.evidence[i].traceable
  }

  /** `_member_payload` finds the claim's subject and its complete evidence. */
  predicate LineageComplete(l: Ledger, claim: Claim) {
    claim.subject < |l.entityKeys| && EvidenceComplete(claim)
  }

  function RevisionFor(l: Ledger, c: nat): Option<nat>
    requires c < |l.claims|
  {
    LatestRevision(l.revisions, l.claims[c].subject)
  }

  /** Two claims of the key have approving latest reviews with different values. */
  ghost predicate ApprovalsDiffer(l: Ledger, key: Key) {
    exists c, d :: 0 <= c < |l.claims| && 0 <= d < |l.claims| && KeyOf(l.claims[c]) == key && KeyOf(l.claims[d]) == key
      && IsApproved(l, c) && IsApproved(l, d)
      && NormalizedOf(ApprovedReview(l, c)) != NormalizedOf(ApprovedReview(l, d))
  }

  ghost predicate Exclusive(key: Key) {
    Classify(key.predicate_) == Conflicting
  }

  ghost predicate InUse(l: Ledger, key: Key) {
    exists c :: 0 <= c < |l.claims| && KeyOf(l.claims[c]) == key
  }

  /** When each blocker of `_plan` is raised for one comparison key. */
  ghost predicate KeyBlocks(l: Ledger, key: Key, code: Code) {
    match code
    case InconsistentApprovedValues => !Differ(l.claims, key) && Exclusive(key) && ApprovalsDiffer(l, key)
    case UnreconciledConflicts => Differ(l.claims, key) && FindGroup(l.groups, key) == None
    case InconsistentClosedConflict =>
      && Differ(l.claims, key) && Exclusive(key) && ApprovalsDiffer(l, key)
      && FindGroup(l.groups, key).Some? && l.groups[FindGroup(l.groups, key).value].status != Open
    case _ => false
  }

  /** When each blocker of `_plan` is raised. */
  ghost predicate Blocks(l: Ledger, code: Code) {
    match code
    case NoClaims => l.claims == []
    case UnreviewedClaims => exists c :: 0 <= c < |l.claims| && LatestReview(l.reviews, c) == None
    case DeferredClaims => exists c :: 0 <= c < |l.claims| && LatestReview(l.reviews, c).Some? && !IsFinal(l, c)
    case NoApprovedClaims => l.claims != [] && forall c :: 0 <= c < |l.claims| ==> !IsApproved(l, c)
    case OpenConflicts => exists g :: 0 <= g < |l.groups| && l.groups[g].status == Open
    case IncompleteEntityLineage => exists c :: 0 <= c < |l.claims| && IsApproved(l, c) && RevisionFor(l, c) == None
    case ApprovedArchivedEntities =>
      exists c :: 0 <= c < |l.claims| && IsApproved(l, c) && RevisionFor(l, c).Some?
        && l.revisions[RevisionFor(l, c).value].archived
    case IncompleteLineage =>
      exists c :: 0 <= c < |l.claims| && IsApproved(l, c) && RevisionFor(l, c).Some? && !LineageComplete(l, l.claims[c])
    case _ => exists key :: InUse(l, key) && KeyBlocks(l, key, code)
  }

  ghost predicate Publishable(l: Ledger) {
    forall code: Code :: !Blocks(l, code)
  }

  /** All approved values of one exclusive key agree. */
  ghost predicate OneValuePerExclusiveKey(l: Ledger) {
    forall key :: Exclusive(key) ==> !ApprovalsDiffer(l, key)
  }

  ghost predicate LineageReady(l: Ledger, c: nat)
    requires c < |l.claims|
  {
    RevisionFor(l, c).Some? && !l.revisions[RevisionFor(l, c).value].archived && LineageComplete(l, l.claims[c])
  }

  /**
   * What the scattered blockers add up to. The gate opens exactly when every claim is finally reviewed,
   * something is approved with complete lineage, every differing key has a group, all groups are closed,
   * and no exclusive key has two approved values, however its group was closed.
   */
  lemma GateIsExact(l: Ledger)
    ensures Publishable(l) <==>
      && (forall c :: 0 <= c < |l.claims| ==> IsFinal(l, c))
      && (exists c :: 0 <= c < |l.claims| && IsApproved(l, c))
      && (forall c :: 0 <= c < |l.claims| && IsApproved(l, c) ==> LineageReady(l, c))
      && (forall key :: Differ(l.claims, key) ==> FindGroup(l.groups, key).Some?)
      && (forall g :: 0 <= g < |l.groups| ==> l.groups[g].status != Open)
      && OneValuePerExclusiveKey(l)
  {
    ConflictGateIsExact(l);
    LineageGateIsExact(l);
    ReviewGateIsExact(l);
    if !Publishable(l) {
      var code: Code :| Blocks(l, code);
      match code
      case NoClaims => assert Blocks(l, NoClaims);
      case UnreviewedClaims => assert Blocks(l, UnreviewedClaims);
      case DeferredClaims => assert Blocks(l, DeferredClaims);
      case NoApprovedClaims => assert Blocks(l, NoApprovedClaims);
      case _ =>
    }
  }

  lemma ReviewGateIsExact(l: Ledger)
    ensures (!Blocks(l, NoClaims) && !Blocks(l, UnreviewedClaims) && !Blocks(l, DeferredClaims)
             && !Blocks(l, NoApprovedClaims))
      <==>
      && (forall c :: 0 <= c < |l.claims| ==> IsFinal(l, c))
      && (exists c :: 0 <= c < |l.claims| && IsApproved(l, c))
  {
    if !Blocks(l, NoClaims) && !Blocks(l, UnreviewedClaims) && !Blocks(l, DeferredClaims)
      && !Blocks(l, NoApprovedClaims) {
      forall c | 0 <= c < |l.claims| ensures IsFinal(l, c) {
        assert LatestReview(l.reviews, c) != None;
      }
    } else if Blocks(l, UnreviewedClaims) {
      var c :| 0 <= c < |l.claims| && LatestReview(l.reviews, c) == None;
      assert !IsFinal(l, c);
    }
  }

  lemma LineageGateIsExact(l: Ledger)
    ensures !Blocks(l, IncompleteEntityLineage) && !Blocks(l, ApprovedArchivedEntities) && !Blocks(l, IncompleteLineage)
      <==> forall c :: 0 <= c < |l.claims| && IsApproved(l, c) ==> LineageReady(l, c)
  {
  }

  lemma ConflictGateIsExact(l: Ledger)
    ensures !Blocks(l, OpenConflicts) && !Blocks(l, InconsistentApprovedValues) && !Blocks(l, UnreconciledConflicts)
            && !Blocks(l, InconsistentClosedConflict)
      <==>
      && (forall key :: Differ(l.claims, key) ==> FindGroup(l.groups, key).Some?)
      && (forall g :: 0 <= g < |l.groups| ==> l.groups[g].status != Open)
      && OneValuePerExclusiveKey(l)
  {
    forall key ensures Differ(l.claims, key) || ApprovalsDiffer(l, key) ==> InUse(l, key) {
    }
    if !Blocks(l, OpenConflicts) && !Blocks(l, InconsistentApprovedValues) && !Blocks(l, UnreconciledConflicts)
       && !Blocks(l, InconsistentClosedConflict) {
      forall key ensures Differ(l.claims, key) ==> FindGroup(l.groups, key).Some? {
        assert !(InUse(l, key) && KeyBlocks(l, key, UnreconciledConflicts));
      }
      forall key | Exclusive(key) ensures !ApprovalsDiffer(l, key) {
        assert !(InUse(l, key) && KeyBlocks(l, key, InconsistentApprovedValues));
        assert !(InUse(l, key) && KeyBlocks(l, key, InconsistentClosedConflict));
      }
    }
  }

  // ---------------------------------------------------------------- serialised members

  /** A link whose rows exist and fit together: an approving review of the claim and a live revision of its subject. */
  ghost predicate LinkOk(l: Ledger, k: Link) {
    && k.claim < |l.claims| && k.review < |l.reviews| && k.revision < |l.revisions|
    && l.claims[k.claim].subject < |l.entityKeys|
    && l.reviews[k.review].claim == k.claim && Approves(l.reviews[k.review].decision)
    && l.revisions[k.revision].entity == l.claims[k.claim].subject && !l.revisions[k.revision].archived
    && EvidenceComplete(l.claims[k.claim])
  }

  predicate InTables(l: Ledger, k: Link) {
    && k.claim < |l.claims| && k.review < |l.reviews| && k.revision < |l.revisions|
    && l.claims[k.claim].subject < |l.entityKeys|
  }

  function PredicateText(p: FactPredicate): string {
    match p
    case GameName => "game.name" case GameAlias => "game.alias" case GameDeveloper => "game.developer"
    case GamePublisher => "game.publisher" case ReleaseStatus => "release.status" case ReleaseDate => "release.date"
    case PlatformAvailability => "platform.availability" case BusinessModel => "business.model"
    case GenrePrimary => "genre.primary" case WorldSetting => "world.setting" case WorldLocation => "world.location"
    case FactionDescription => "faction.description" case CharacterIdentity => "character.identity"
    case CharacterAffiliation => "character.affiliation" case CharacterAbility => "character.ability"
    case GameplayCombat => "gameplay.combat" case GameplayExploration => "gameplay.exploration"
    case GameplayVehicle => "gameplay.vehicle" case GameplayQuest => "gameplay.quest"
    case GameplayMultiplayer => "gameplay.multiplayer" case FeatureDescription => "feature.description"
    case EventSchedule => "event.schedule" case UpdateChange => "update.change" case Unclassified => "unclassified"
  }

  function BodyOf(l: Ledger, k: Link): Body
    requires InTables(l, k)
  {
    Body(l.claims[k.claim], l.reviews[k.review], l.revisions[k.revision], l.entityKeys[l.claims[k.claim].subject])
  }

  /** Entity key, predicate, scope, approved value and claim id, joined by colons. */
  function SortKey(b: Body): string {
    b.entityKey + ":" + PredicateText(b.claim.predicate_) + ":" + b.claim.scope + ":" + NormalizedOf(b.review) + ":"
      + b.claim.id
  }

  function LinkKey(l: Ledger, k: Link): string {
    if InTables(l, k) then SortKey(BodyOf(l, k)) else ""
  }

  /** `key=lambda item: item["sort_key"]` */
  function ByKey(l: Ledger): (Link, Link) -> bool {
    (j: Link, k: Link) => Ordering.LexLe(LinkKey(l, j), LinkKey(l, k))
  }

  ghost predicate AllInTables(l: Ledger, links: seq<Link>) {
    forall i :: 0 <= i < |links| ==> InTables(l, links[i])
  }

  lemma SortedInTables(l: Ledger, links: seq<Link>)
    requires AllInTables(l, links)
    ensures AllInTables(l, Ordering.Sort(ByKey(l), links))
  {
    var sorted := Ordering.Sort(ByKey(l), links);
    Ordering.SortKeeps(ByKey(l), links);
    forall i | 0 <= i < |sorted| ensures InTables(l, sorted[i]) {
      assert sorted[i] in multiset(sorted);
      assert sorted[i] in links;
    }
  }

  /** `_member_payload` of each link, sorted by sort key: how `_plan` and `_serialize_snapshot` build the list. */
  ghost function Serialize(l: Ledger, links: seq<Link>): seq<Body>
    requires AllInTables(l, links)
  {
    SortedInTables(l, links);
    BodiesOf(l, Ordering.Sort(ByKey(l), links))
  }

  ghost function BodiesOf(l: Ledger, links: seq<Link>): seq<Body>
    requires AllInTables(l, links)
  {
    seq(|links|, i requires 0 <= i < |links| => BodyOf(l, links[i]))
  }

  /** Claim ids are UUID texts, all of the same length and all different. */
  ghost predicate ClaimIdsUnique(claims: seq<Claim>) {
    && (forall c :: 0 <= c < |claims| ==> |claims[c].id| == 36)
    && (forall c, d :: 0 <= c < d < |claims| ==> claims[c].id != claims[d].id)
  }

  ghost predicate DistinctClaims(links: seq<Link>) {
    forall i, j :: 0 <= i < j < |links| ==> links[i].claim != links[j].claim
  }

  lemma SameSuffix(a: string, b: string, x: string, y: string)
    requires a + x == b + y && |x| == |y|
    ensures x == y
  {
    assert |a| == |b|;
    assert (a + x)[|a|..] == x && (b + y)[|b|..] == y;
  }

  lemma SortKeysTellClaimsApart(l: Ledger, j: Link, k: Link)
    requires ClaimIdsUnique(l.claims) && InTables(l, j) && InTables(l, k)
    requires SortKey(BodyOf(l, j)) == SortKey(BodyOf(l, k))
    ensures j.claim == k.claim
  {
    var a, b := BodyOf(l, j), BodyOf(l, k);
    SameSuffix(a.entityKey + ":" + PredicateText(a.claim.predicate_) + ":" + a.claim.scope + ":"
               + NormalizedOf(a.review) + ":",
               b.entityKey + ":" + PredicateText(b.claim.predicate_) + ":" + b.claim.scope + ":"
                 + NormalizedOf(b.review) + ":",
               a.claim.id, b.claim.id);
  }

  lemma KeysDistinguishLinks(l: Ledger, links: seq<Link>)
    requires ClaimIdsUnique(l.claims) && DistinctClaims(links) && AllInTables(l, links)
    ensures Ordering.Distinguishes(ByKey(l), multiset(links))
  {
    forall x, y | x in multiset(links) && y in multiset(links) && ByKey(l)(x, y) && ByKey(l)(y, x) ensures x == y {
      var i :| 0 <= i < |links| && links[i] == x;
      var j :| 0 <= j < |links| && links[j] == y;
      Ordering.LexAntisymmetric(LinkKey(l, x), LinkKey(l, y));
      SortKeysTellClaimsApart(l, x, y);
    }
  }

  lemma ByKeyIsTotal(l: Ledger)
    ensures Ordering.TotalPreorder(ByKey(l))
  {
    forall x, y ensures ByKey(l)(x, y) || ByKey(l)(y, x) {
      Ordering.LexTotal(LinkKey(l, x), LinkKey(l, y));
    }
    forall x, y, z | ByKey(l)(x, y) && ByKey(l)(y, z) ensures ByKey(l)(x, z) {
      Ordering.LexTransitive(LinkKey(l, x), LinkKey(l, y), LinkKey(l, z));
    }
  }

  /** The serialised list does not depend on the order in which the database returns the links. */
  lemma SerializeIgnoresOrder(l: Ledger, a: seq<Link>, b: seq<Link>)
    requires ClaimIdsUnique(l.claims) && DistinctClaims(a) && multiset(a) == multiset(b) && AllInTables(l, a)
    ensures AllInTables(l, b) && Serialize(l, a) == Serialize(l, b)
  {
    forall i | 0 <= i < |b| ensures InTables(l, b[i]) {
      assert b[i] in multiset(a);
    }
    KeysDistinguishLinks(l, a);
    ByKeyIsTotal(l);
    Ordering.SortIgnoresOrder(ByKey(l), a, b);
  }

  // ---------------------------------------------------------------- ledgers only grow

  /** Every later ledger keeps all immutable rows of an earlier one, and its closed groups. */
  ghost predicate Extends(l: Ledger, m: Ledger) {
    && l.entityKeys <= m.entityKeys && l.revisions <= m.revisions && l.claims <= m.claims && l.reviews <= m.reviews
    && GroupsKept(l.groups, m.groups) && l.snapshots <= m.snapshots
  }

  lemma ExtendsTrans(a: Ledger, b: Ledger, c: Ledger)
    requires Extends(a, b) && Extends(b, c)
    ensures Extends(a, c)
  {
  }

  lemma SortKept(l: Ledger, m: Ledger, links: seq<Link>)
    requires Extends(l, m) && AllInTables(l, links)
    ensures Ordering.Sort(ByKey(l), links) == Ordering.Sort(ByKey(m), links)
  {
    Ordering.SortAgrees(ByKey(l), ByKey(m), links);
  }

  lemma SerializeKept(l: Ledger, m: Ledger, links: seq<Link>)
    requires Extends(l, m) && AllInTables(l, links)
    ensures AllInTables(m, links) && Serialize(l, links) == Serialize(m, links)
  {
    SortKept(l, m, links);
    SortedInTables(l, links);
  }
}
