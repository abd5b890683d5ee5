/**
 * One project's knowledge tables and what each command does to them: immutable claims, append-only
 * reviews, conflict groups, entity revisions and published snapshots. Rows are named by their position.
 */
module KnowledgeLedger {
  import opened Prelude

  // ---------------------------------------------------------------- rows

  datatype FactPredicate =
    | GameName | GameAlias | GameDeveloper | GamePublisher | ReleaseStatus | ReleaseDate | PlatformAvailability
    | BusinessModel | GenrePrimary | WorldSetting | WorldLocation | FactionDescription | CharacterIdentity
    | CharacterAffiliation | CharacterAbility | GameplayCombat | GameplayExploration | GameplayVehicle
    | GameplayQuest | GameplayMultiplayer | FeatureDescription | EventSchedule | UpdateChange | Unclassified

  datatype Relation = Conflicting | PossiblyCoexisting

  /** `classify_predicate`: only these four predicates hold a single value per comparison key. */
  function Classify(p: FactPredicate): Relation {
    if p in {GameName, ReleaseStatus, ReleaseDate, GenrePrimary} then Conflicting else PossiblyCoexisting
  }

  datatype Decision = Approve | ApproveWithEdit | Reject | Defer

  predicate Approves(d: Decision) {
    d == Approve || d == ApproveWithEdit
  }

  /** An exact quote; `traceable` says that its source version and source belong to the claim's project. */
  datatype Evidence = Evidence(quote: string, traceable: bool)

  datatype Claim = Claim(
    id: string, subject: nat, predicate_: FactPredicate, scope: string, kind: string, value: string,
    normalized: string, evidence: seq<Evidence>)

  /** The comparison key: subject, predicate and scope fingerprint. */
  datatype Key = Key(subject: nat, predicate_: FactPredicate, scope: string)

  datatype ApprovedValue = ApprovedValue(kind: string, value: string, normalized: string)

  datatype CommandKey = FromCaller(key: string) | FromPack(packKey: string, claim: nat)

  datatype Review = Review(
    claim: nat, decision: Decision, approved: Option<ApprovedValue>, reason: string, reviewer: string,
    commandKey: CommandKey)

  datatype Membership = Membership(claim: nat, relation: Relation)

  datatype GroupStatus = Open | Resolved | Dismissed

  datatype Closure = Closure(summary: string, actor: string, commandKey: string, counts: map<Decision, nat>)

  datatype Group = Group(key: Key, status: GroupStatus, members: seq<Membership>, closure: Option<Closure>)

  datatype Revision = Revision(entity: nat, displayName: string, archived: bool)

  /** A snapshot member: the exact claim, review and entity revision that were published. */
  datatype Link = Link(claim: nat, review: nat, revision: nat)

  /** One member as it is serialised: everything it shows is copied out of immutable rows. */
  datatype Body = Body(claim: Claim, review: Review, revision: Revision, entityKey: string)

  /** SHA-256 over the canonical encoding, taken as injective. */
  datatype Digest = Digest(schema: string, members: seq<Body>)

  const SNAPSHOT_SCHEMA_VERSION := "knowledge-snapshot-v1"

  datatype Snapshot = Snapshot(
    version: nat, digest: Digest, publisher: string, notes: Option<string>, commandKey: string, links: seq<Link>)

  datatype Ledger = Ledger(
    entityKeys: seq<string>, revisions: seq<Revision>, claims: seq<Claim>, reviews: seq<Review>,
    groups: seq<Group>, snapshots: seq<Snapshot>)

  function KeyOf(c: Claim): Key {
    Key(c.subject, c.predicate_, c.scope)
  }

  // ---------------------------------------------------------------- latest rows

  function LatestReview(reviews: seq<Review>, c: nat): (r: Option<nat>)
    ensures r.Some? ==> r.value < |reviews| && reviews[r.value].claim == c
  {
    if reviews == [] then None
    else if reviews[|reviews| - 1].claim == c then Some(|reviews| - 1)
    else LatestReview(reviews[..|reviews| - 1], c)
  }

  lemma {:induction false} LatestReviewIsLast(reviews: seq<Review>, c: nat, i: nat)
    requires i < |reviews| && reviews[i].claim == c
    ensures LatestReview(reviews, c).Some? && i <= LatestReview(reviews, c).value
  {
    if reviews[|reviews| - 1].claim != c {
      LatestReviewIsLast(reviews[..|reviews| - 1], c, i);
    }
  }

  function LatestRevision(revisions: seq<Revision>, entity: nat): (r: Option<nat>)
    ensures r.Some? ==> r.value < |revisions| && revisions[r.value].entity == entity
  {
    if revisions == [] then None
    else if revisions[|revisions| - 1].entity == entity then Some(|revisions| - 1)
    else LatestRevision(revisions[..|revisions| - 1], entity)
  }

  /** The latest review of `c` approves a value. */
  predicate IsApproved(l: Ledger, c: nat) {
    LatestReview(l.reviews, c).Some? && Approves(l.reviews[LatestReview(l.reviews, c).value].decision)
  }

  function ApprovedReview(l: Ledger, c: nat): Review
    requires IsApproved(l, c)
  {
    l.reviews[LatestReview(l.reviews, c).value]
  }

  /** The normalized value of an approving review; the table's check constraint makes it present. */
  function NormalizedOf(r: Review): string {
    if r.approved.Some? then r.approved.value.normalized else ""
  }

  // ---------------------------------------------------------------- candidates of one comparison key

  function Candidates(claims: seq<Claim>, key: Key, n: nat): (s: seq<nat>)
    requires n <= |claims|
    ensures forall i :: 0 <= i < |s| ==> s[i] < n && KeyOf(claims[s[i]]) == key
  {
    if n == 0 then []
    else if KeyOf(claims[n - 1]) == key then Candidates(claims, key, n - 1) + [n - 1]
    else Candidates(claims, key, n - 1)
  }

  lemma {:induction false} CandidatesExact(claims: seq<Claim>, key: Key, n: nat)
    requires n <= |claims|
    ensures var s := Candidates(claims, key, n);
      && (forall c :: c in s <==> 0 <= c < n && KeyOf(claims[c]) == key)
      && (forall i, j :: 0 <= i < j < |s| ==> s[i] < s[j])
  {
    if n > 0 {
      CandidatesExact(claims, key, n - 1);
    }
  }

  /** Two claims of the key disagree. */
  ghost predicate Differ(claims: seq<Claim>, key: Key) {
    exists c, d :: 0 <= c < |claims| && 0 <= d < |claims| && KeyOf(claims[c]) == key && KeyOf(claims[d]) == key
      && claims[c].normalized != claims[d].normalized
  }

  function Values(claims: seq<Claim>, key: Key): set<string> {
    set c | 0 <= c < |claims| && KeyOf(claims[c]) == key :: claims[c].normalized
  }

  lemma AtLeastTwo<T>(s: set<T>)
    ensures |s| >= 2 <==> exists x, y :: x in s && y in s && x != y
  {
    if |s| >= 2 {
      var x :| x in s;
      assert |s - {x}| >= 1;
      var y :| y in s - {x};
    }
    if x, y :| x in s && y in s && x != y {
      assert {x, y} <= s;
      Subset({x, y}, s);
    }
  }

  lemma {:induction false} Subset<T>(a: set<T>, b: set<T>)
    requires a <= b
    ensures |a| <= |b|
    decreases a
  {
    if a != {} {
      var x :| x in a;
      Subset(a - {x}, b - {x});
    }
  }

  lemma ValuesDiffer(claims: seq<Claim>, key: Key)
    ensures |Values(claims, key)| >= 2 <==> Differ(claims, key)
  {
    AtLeastTwo(Values(claims, key));
    if Differ(claims, key) {
      var c, d :| 0 <= c < |claims| && 0 <= d < |claims| && KeyOf(claims[c]) == key && KeyOf(claims[d]) == key
        && claims[c].normalized != claims[d].normalized;
      assert claims[c].normalized in Values(claims, key) && claims[d].normalized in Values(claims, key);
    }
  }

  // ---------------------------------------------------------------- reconciliation

  function FindGroup(groups: seq<Group>, key: Key): (r: Option<nat>)
    ensures r.Some? ==> r.value < |groups| && groups[r.value].key == key
    ensures r == None ==> forall g :: 0 <= g < |groups| ==> groups[g].key != key
  {
    if groups == [] then None
    else if groups[|groups| - 1].key == key then Some(|groups| - 1)
    else FindGroup(groups[..|groups| - 1], key)
  }

  ghost predicate HasMember(members: seq<Membership>, c: nat) {
    exists m :: 0 <= m < |members| && members[m].claim == c
  }

  function MemberClaims(members: seq<Membership>): set<nat> {
    set m | 0 <= m < |members| :: members[m].claim
  }

  /** Membership rows for the candidates that are not yet members, in candidate order. */
  function NewMembers(candidates: seq<nat>, existing: set<nat>, relation: Relation): seq<Membership> {
    if candidates == [] then []
    else
      var front := NewMembers(candidates[..|candidates| - 1], existing, relation);
      var c := candidates[|candidates| - 1];
      if c in existing then front else front + [Membership(c, relation)]
  }

  /** What `reconcile` does for one comparison key. */
  function ReconcileKey(claims: seq<Claim>, groups: seq<Group>, key: Key): seq<Group> {
    var candidates := Candidates(claims, key, |claims|);
    var relation := Classify(key.predicate_);
    if |Values(claims, key)| < 2 then groups
    else match FindGroup(groups, key)
      case None => groups + [Group(key, Open, NewMembers(candidates, {}, relation), None)]
      case Some(g) =>
        if groups[g].status != Open then groups
        else
          var members := groups[g].members;
          groups[g := groups[g].(members := members + NewMembers(candidates, MemberClaims(members), relation))]
  }

  /** The keys of the first `n` claims, in order of first appearance. */
  function KeysInOrder(claims: seq<Claim>, n: nat): seq<Key>
    requires n <= |claims|
  {
    if n == 0 then []
    else
      var keys := KeysInOrder(claims, n - 1);
      if KeyOf(claims[n - 1]) in keys then keys else keys + [KeyOf(claims[n - 1])]
  }

  lemma {:induction false} KeysInOrderExact(claims: seq<Claim>, n: nat)
    requires n <= |claims|
    ensures forall c :: 0 <= c < n ==> KeyOf(claims[c]) in KeysInOrder(claims, n)
    ensures forall i, j :: 0 <= i < j < |KeysInOrder(claims, n)| ==>
      KeysInOrder(claims, n)[i] != KeysInOrder(claims, n)[j]
  {
    if n > 0 {
      KeysInOrderExact(claims, n - 1);
    }
  }

  function ReconcileKeys(claims: seq<Claim>, groups: seq<Group>, keys: seq<Key>): seq<Group>
    decreases |keys|
  {
    if keys == [] then groups
    else ReconcileKey(claims, ReconcileKeys(claims, groups, keys[..|keys| - 1]), keys[|keys| - 1])
  }

  /** `reconcile` */
  function Reconcile(l: Ledger): Ledger {
    l.(groups := ReconcileKeys(l.claims, l.groups, KeysInOrder(l.claims, |l.claims|)))
  }

  // ---------------------------------------------------------------- the group invariant

  ghost predicate GroupOk(claims: seq<Claim>, g: Group) {
    && RowsOk(claims, g.key, g.members)
    && NoRepeats(g.members)
    && DistinctValues(claims, g)
    && (g.status == Open <==> g.closure == None)
  }

  /** Every row names a claim of the key and carries the key's one relation. */
  ghost predicate RowsOk(claims: seq<Claim>, key: Key, members: seq<Membership>) {
    forall m :: 0 <= m < |members| ==> RowOk(claims, key, members[m])
  }

  ghost predicate RowOk(claims: seq<Claim>, key: Key, row: Membership) {
    row.claim < |claims| && KeyOf(claims[row.claim]) == key && row.relation == Classify(key.predicate_)
  }

  /** At least two members carry different candidate values. */
  ghost predicate DistinctValues(claims: seq<Claim>, g: Group) {
    exists i, j :: 0 <= i < |g.members| && 0 <= j < |g.members|
      && g.members[i].claim < |claims| && g.members[j].claim < |claims|
      && claims[g.members[i].claim].normalized != claims[g.members[j].claim].normalized
  }

  ghost predicate UniqueGroupKeys(groups: seq<Group>) {
    forall i, j :: 0 <= i < j < |groups| ==> groups[i].key != groups[j].key
  }

  ghost predicate AllGroups(groups: seq<Group>, good: Group -> bool) {
    forall g :: 0 <= g < |groups| ==> good(groups[g])
  }

  ghost function OkFor(claims: seq<Claim>): Group -> bool {
    (g: Group) => GroupOk(claims, g)
  }

  /** One group per comparison key, and every group is in order. */
  ghost predicate GroupsOk(claims: seq<Claim>, groups: seq<Group>) {
    UniqueGroupKeys(groups) && AllGroups(groups, OkFor(claims))
  }

  /** Closed groups of `before` stand unchanged in `after`; open ones keep key and members. */
  ghost predicate GroupsKept(before: seq<Group>, after: seq<Group>) {
    && |before| <= |after|
    && forall g :: 0 <= g < |before| ==> GroupKept(before[g], after[g])
  }

  ghost predicate GroupKept(a: Group, b: Group) {
    a.key == b.key && a.members <= b.members && (a.status != Open ==> a == b)
  }

  ghost predicate NoRepeats(members: seq<Membership>) {
    forall i, j :: 0 <= i < j < |members| ==> members[i].claim != members[j].claim
  }

  lemma {:induction false} CandidatesBecomeMembers(candidates: seq<nat>, existing: set<nat>, relation: Relation, c: nat)
    requires c in candidates && c !in existing
    ensures HasMember(NewMembers(candidates, existing, relation), c)
  {
    var front, last := candidates[..|candidates| - 1], candidates[|candidates| - 1];
    var n := NewMembers(candidates, existing, relation);
    if c == last {
      assert n[|n| - 1].claim == c;
    } else {
      assert c in front;
      CandidatesBecomeMembers(front, existing, relation, c);
      HasMemberGrows(NewMembers(front, existing, relation), n[|NewMembers(front, existing, relation)|..], c);
      assert n == NewMembers(front, existing, relation) + n[|NewMembers(front, existing, relation)|..];
    }
  }

  /** Nothing is left for `reconcile` to do at this key: the group exists, and if open it is complete. */
  ghost predicate SettledKey(claims: seq<Claim>, groups: seq<Group>, key: Key) {
    Differ(claims, key) ==>
      && FindGroup(groups, key).Some?
      && (groups[FindGroup(groups, key).value].status == Open ==>
            Complete(claims, groups[FindGroup(groups, key).value]))
  }

  /** Every claim of the group's key is a member. */
  ghost predicate Complete(claims: seq<Claim>, g: Group) {
    forall c :: 0 <= c < |claims| ==> Covered(claims, g, c)
  }

  ghost predicate Covered(claims: seq<Claim>, g: Group, c: nat)
    requires c < |claims|
  {
    KeyOf(claims[c]) == g.key ==> HasMember(g.members, c)
  }

  lemma HasMemberGrows(a: seq<Membership>, b: seq<Membership>, c: nat)
    ensures HasMember(a, c) || HasMember(b, c) ==> HasMember(a + b, c)
  {
    if HasMember(a, c) {
      var m :| 0 <= m < |a| && a[m].claim == c;
      assert (a + b)[m].claim == c;
    } else if HasMember(b, c) {
      var m :| 0 <= m < |b| && b[m].claim == c;
      assert (a + b)[|a| + m].claim == c;
    }
  }

  /** The group that `reconcile` creates for a differing key. */
  lemma NewGroupOk(claims: seq<Claim>, key: Key)
    requires Differ(claims, key)
    ensures var g := Group(key, Open, NewMembers(Candidates(claims, key, |claims|), {}, Classify(key.predicate_)),
                           None);
      GroupOk(claims, g) && Complete(claims, g)
  {
    var empty := Group(key, Open, [], None);
    ExtendedComplete(claims, empty);
    ExtendedMembersOk(claims, empty);
    assert MemberClaims(empty.members) == {};
    var g := Group(key, Open, NewMembers(Candidates(claims, key, |claims|), {}, Classify(key.predicate_)), None);
    assert Extended(claims, empty) == g by {
      assert [] + g.members == g.members;
    }
    MembersDiffer(claims, g);
  }

  lemma MembersDiffer(claims: seq<Claim>, g: Group)
    requires Differ(claims, g.key) && Complete(claims, g)
    ensures DistinctValues(claims, g)
  {
    var c, d :| 0 <= c < |claims| && 0 <= d < |claims| && KeyOf(claims[c]) == g.key && KeyOf(claims[d]) == g.key
      && claims[c].normalized != claims[d].normalized;
    assert Covered(claims, g, c) && Covered(claims, g, d);
    var i :| 0 <= i < |g.members| && g.members[i].claim == c;
    var j :| 0 <= j < |g.members| && g.members[j].claim == d;
  }

  function Extended(claims: seq<Claim>, g: Group): Group {
    g.(members := g.members
       + NewMembers(Candidates(claims, g.key, |claims|), MemberClaims(g.members), Classify(g.key.predicate_)))
  }

  lemma ExtendedComplete(claims: seq<Claim>, g: Group)
    ensures Complete(claims, Extended(claims, g))
  {
    var candidates := Candidates(claims, g.key, |claims|);
    var added := NewMembers(candidates, MemberClaims(g.members), Classify(g.key.predicate_));
    CandidatesExact(claims, g.key, |claims|);
    forall c | 0 <= c < |claims| ensures Covered(claims, Extended(claims, g), c) {
      if KeyOf(claims[c]) == g.key {
        if !HasMember(g.members, c) {
          CandidatesBecomeMembers(candidates, MemberClaims(g.members), Classify(g.key.predicate_), c);
        }
        HasMemberGrows(g.members, added, c);
      }
    }
  }

  ghost predicate RowsBelow(members: seq<Membership>, existing: set<nat>, bound: nat) {
    forall m :: 0 <= m < |members| ==> members[m].claim < bound && members[m].claim !in existing
  }

  lemma {:induction false} NewMembersBelow(candidates: seq<nat>, existing: set<nat>, relation: Relation, bound: nat)
    requires forall i :: 0 <= i < |candidates| ==> candidates[i] < bound
    ensures RowsBelow(NewMembers(candidates, existing, relation), existing, bound)
  {
    if candidates != [] {
      var front, c := candidates[..|candidates| - 1], candidates[|candidates| - 1];
      assert c < bound;
      NewMembersBelow(front, existing, relation, bound);
    }
  }

  lemma {:induction false} AddedRowsOk(claims: seq<Claim>, key: Key, existing: set<nat>, candidates: seq<nat>)
    requires forall i :: 0 <= i < |candidates| ==> candidates[i] < |claims| && KeyOf(claims[candidates[i]]) == key
    requires forall i, j :: 0 <= i < j < |candidates| ==> candidates[i] < candidates[j]
    ensures RowsOk(claims, key, NewMembers(candidates, existing, Classify(key.predicate_)))
    ensures NoRepeats(NewMembers(candidates, existing, Classify(key.predicate_)))
  {
    if candidates != [] {
      var front, c := candidates[..|candidates| - 1], candidates[|candidates| - 1];
      AddedRowsOk(claims, key, existing, front);
      NewMembersBelow(front, existing, Classify(key.predicate_), c);
      assert RowOk(claims, key, Membership(c, Classify(key.predicate_)));
    }
  }

  lemma ExtendedMembersOk(claims: seq<Claim>, g: Group)
    requires NoRepeats(g.members) && RowsOk(claims, g.key, g.members)
    ensures NoRepeats(Extended(claims, g).members) && RowsOk(claims, g.key, Extended(claims, g).members)
  {
    var candidates := Candidates(claims, g.key, |claims|);
    CandidatesExact(claims, g.key, |claims|);
    AddedRowsOk(claims, g.key, MemberClaims(g.members), candidates);
    NewMembersBelow(candidates, MemberClaims(g.members), Classify(g.key.predicate_), |claims|);
  }

  lemma ExtendedOk(claims: seq<Claim>, g: Group)
    requires GroupOk(claims, g)
    ensures GroupOk(claims, Extended(claims, g)) && Complete(claims, Extended(claims, g))
  {
    ExtendedComplete(claims, g);
    ExtendedMembersOk(claims, g);
    ExtendedValues(claims, g, Extended(claims, g));
  }

  lemma ExtendedValues(claims: seq<Claim>, g: Group, e: Group)
    requires DistinctValues(claims, g) && g.members <= e.members
    ensures DistinctValues(claims, e)
  {
    var i, j :| 0 <= i < |g.members| && 0 <= j < |g.members|
      && g.members[i].claim < |claims| && g.members[j].claim < |claims|
      && claims[g.members[i].claim].normalized != claims[g.members[j].claim].normalized;
    assert e.members[i] == g.members[i] && e.members[j] == g.members[j];
  }

  lemma FindGroupUnique(groups: seq<Group>, g: nat)
    requires UniqueGroupKeys(groups) && g < |groups|
    ensures FindGroup(groups, groups[g].key) == Some(g)
  {
  }

  lemma ReplaceAll(groups: seq<Group>, i: nat, g: Group, good: Group -> bool)
    requires UniqueGroupKeys(groups) && AllGroups(groups, good) && good(g) && i < |groups| && GroupKept(groups[i], g)
    ensures UniqueGroupKeys(groups[i := g]) && AllGroups(groups[i := g], good) && GroupsKept(groups, groups[i := g])
    ensures FindGroup(groups[i := g], g.key) == Some(i)
  {
    FindGroupUnique(groups[i := g], i);
  }

  /** One key's step keeps the group invariant, keeps what was closed, and settles the key. */
  lemma ReconcileKeyStep(claims: seq<Claim>, groups: seq<Group>, key: Key)
    requires GroupsOk(claims, groups)
    ensures var after := ReconcileKey(claims, groups, key);
      GroupsOk(claims, after) && GroupsKept(groups, after) && SettledKey(claims, after, key)
  {
    ValuesDiffer(claims, key);
    var after := ReconcileKey(claims, groups, key);
    if Differ(claims, key) {
      match FindGroup(groups, key)
      case None =>
        NewGroupOk(claims, key);
      case Some(g) =>
        if groups[g].status == Open {
          assert OkFor(claims)(groups[g]);
          ExtendedOk(claims, groups[g]);
          ReplaceAll(groups, g, Extended(claims, groups[g]), OkFor(claims));
        }
    }
  }

  /** A settled key is left alone, and stays settled while other keys are reconciled. */
  lemma SettledKeyIsLeftAlone(claims: seq<Claim>, groups: seq<Group>, key: Key)
    requires GroupsOk(claims, groups) && SettledKey(claims, groups, key)
    ensures ReconcileKey(claims, groups, key) == groups
  {
    ValuesDiffer(claims, key);
    if Differ(claims, key) && groups[FindGroup(groups, key).value].status == Open {
      var g := FindGroup(groups, key).value;
      CandidatesExact(claims, key, |claims|);
      forall c | c in Candidates(claims, key, |claims|) ensures HasMember(groups[g].members, c) {
        assert Covered(claims, groups[g], c);
      }
      NothingNew(Candidates(claims, key, |claims|), groups[g].members, Classify(key.predicate_));
      assert groups[g].members + [] == groups[g].members;
    }
  }

  lemma {:induction false} NothingNew(candidates: seq<nat>, members: seq<Membership>, relation: Relation)
    requires forall c :: c in candidates ==> HasMember(members, c)
    ensures NewMembers(candidates, MemberClaims(members), relation) == []
  {
    if candidates != [] {
      NothingNew(candidates[..|candidates| - 1], members, relation);
      assert candidates[|candidates| - 1] in candidates;
    }
  }

  lemma SettledKeyStays(claims: seq<Claim>, groups: seq<Group>, key: Key, other: Key)
    requires GroupsOk(claims, groups) && SettledKey(claims, groups, key)
    ensures SettledKey(claims, ReconcileKey(claims, groups, other), key)
  {
    if other == key {
      SettledKeyIsLeftAlone(claims, groups, key);
    } else if Differ(claims, key) {
      ReconcileKeyStep(claims, groups, other);
      var g := FindGroup(groups, key).value;
      FindGroupUnique(ReconcileKey(claims, groups, other), g);
    }
  }

  lemma {:induction false} ReconcileKeysSettles(claims: seq<Claim>, groups: seq<Group>, keys: seq<Key>)
    requires GroupsOk(claims, groups)
    ensures var after := ReconcileKeys(claims, groups, keys);
      && GroupsOk(claims, after) && GroupsKept(groups, after)
      && forall key :: key in keys ==> SettledKey(claims, after, key)
    decreases |keys|
  {
    if keys != [] {
      var front, key := keys[..|keys| - 1], keys[|keys| - 1];
      ReconcileKeysSettles(claims, groups, front);
      var mid := ReconcileKeys(claims, groups, front);
      ReconcileKeyStep(claims, mid, key);
      forall k | k in keys ensures SettledKey(claims, ReconcileKey(claims, mid, key), k) {
        if k != key {
          assert k in front;
          SettledKeyStays(claims, mid, k, key);
        }
      }
    }
  }

  lemma {:induction false} SettledKeysAreLeftAlone(claims: seq<Claim>, groups: seq<Group>, keys: seq<Key>)
    requires GroupsOk(claims, groups) && forall key :: key in keys ==> SettledKey(claims, groups, key)
    ensures ReconcileKeys(claims, groups, keys) == groups
    decreases |keys|
  {
    if keys != [] {
      SettledKeysAreLeftAlone(claims, groups, keys[..|keys| - 1]);
      SettledKeyIsLeftAlone(claims, groups, keys[|keys| - 1]);
    }
  }

  /**
   * Right after `reconcile` every differing key has its one group, open groups contain exactly their key's
   * claims, closed groups stand as they were, and a second `reconcile` changes nothing.
   */
  lemma ReconcileIsCompleteAndIdempotent(l: Ledger)
    requires GroupsOk(l.claims, l.groups)
    ensures GroupsOk(l.claims, Reconcile(l).groups) && GroupsKept(l.groups, Reconcile(l).groups)
    ensures forall key :: SettledKey(l.claims, Reconcile(l).groups, key)
    ensures Reconcile(Reconcile(l)) == Reconcile(l)
  {
    var keys := KeysInOrder(l.claims, |l.claims|);
    KeysInOrderExact(l.claims, |l.claims|);
    ReconcileKeysSettles(l.claims, l.groups, keys);
    forall key ensures SettledKey(l.claims, Reconcile(l).groups, key) {
      if Differ(l.claims, key) {
        assert key in keys;
      }
    }
    SettledKeysAreLeftAlone(l.claims, Reconcile(l).groups, keys);
  }
}
