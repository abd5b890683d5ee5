/** Whole histories of one project's knowledge: what every reachable ledger and every snapshot guarantees. */
module KnowledgeHistory {
  import opened Prelude
  import opened KnowledgeLedger
  import opened KnowledgePublication

  // ---------------------------------------------------------------- publication

  /** The links of the first `n` claims: latest approving review and latest subject revision of each. */
  function ApprovedLinks(l: Ledger, n: nat): seq<Link>
    requires n <= |l.claims|
  {
    if n == 0 then []
    else if IsApproved(l, n - 1) && RevisionFor(l, n - 1).Some? then
      ApprovedLinks(l, n - 1) + [Link(n - 1, LatestReview(l.reviews, n - 1).value, RevisionFor(l, n - 1).value)]
    else ApprovedLinks(l, n - 1)
  }

  function MaxVersion(snapshots: seq<Snapshot>): nat {
    if snapshots == [] then 0
    else
      var rest := MaxVersion(snapshots[..|snapshots| - 1]);
      var last := snapshots[|snapshots| - 1].version;
      if last > rest then last else rest
  }

  function FindSnapshot(snapshots: seq<Snapshot>, key: string): (r: Option<nat>)
    ensures r.Some? ==> r.value < |snapshots| && snapshots[r.value].commandKey == key
    ensures r == None ==> forall i :: 0 <= i < |snapshots| ==> snapshots[i].commandKey != key
  {
    if snapshots == [] then None
    else if snapshots[|snapshots| - 1].commandKey == key then Some(|snapshots| - 1)
    else FindSnapshot(snapshots[..|snapshots| - 1], key)
  }

  ghost predicate LinkAt(l: Ledger, links: seq<Link>, c: nat) {
    exists i :: 0 <= i < |links| && links[i].claim == c
  }

  /** A link to a claim below `n`, its latest review, which approves, and its subject's latest revision. */
  ghost predicate CurrentLink(l: Ledger, k: Link, n: nat) {
    && k.claim < n <= |l.claims| && IsApproved(l, k.claim)
    && LatestReview(l.reviews, k.claim) == Some(k.review)
    && RevisionFor(l, k.claim) == Some(k.revision)
  }

  ghost predicate CurrentLinks(l: Ledger, links: seq<Link>, n: nat) {
    forall i :: 0 <= i < |links| ==> CurrentLink(l, links[i], n)
  }

  lemma {:induction false} ApprovedLinksExact(l: Ledger, n: nat)
    requires n <= |l.claims|
    ensures CurrentLinks(l, ApprovedLinks(l, n), n) && DistinctClaims(ApprovedLinks(l, n))
  {
    if n > 0 {
      ApprovedLinksExact(l, n - 1);
      var front := ApprovedLinks(l, n - 1);
      forall i | 0 <= i < |front| ensures CurrentLink(l, front[i], n) && front[i].claim < n - 1 {
        assert CurrentLink(l, front[i], n - 1);
      }
    }
  }

  lemma {:induction false} ApprovedLinksComplete(l: Ledger, n: nat, c: nat)
    requires c < n <= |l.claims| && IsApproved(l, c) && RevisionFor(l, c).Some?
    ensures LinkAt(l, ApprovedLinks(l, n), c)
  {
    var links := ApprovedLinks(l, n);
    if c == n - 1 {
      assert links[|links| - 1].claim == c;
    } else {
      ApprovedLinksComplete(l, n - 1, c);
      var front := ApprovedLinks(l, n - 1);
      var i :| 0 <= i < |front| && front[i].claim == c;
      assert links[i].claim == c;
    }
  }

  /** Once the gate is open every approved claim becomes a sound link, and there is at least one. */
  lemma OpenGateLinks(l: Ledger)
    requires Publishable(l)
    ensures var links := ApprovedLinks(l, |l.claims|);
      && links != [] && DistinctClaims(links) && AllInTables(l, links)
      && forall i :: 0 <= i < |links| ==> LinkOk(l, links[i])
  {
    var links := ApprovedLinks(l, |l.claims|);
    GateIsExact(l);
    ApprovedLinksExact(l, |l.claims|);
    forall i | 0 <= i < |links| ensures LinkOk(l, links[i]) && InTables(l, links[i]) {
      assert CurrentLink(l, links[i], |l.claims|);
      assert LineageReady(l, links[i].claim);
    }
    var c :| 0 <= c < |l.claims| && IsApproved(l, c);
    assert LineageReady(l, c);
    ApprovedLinksComplete(l, |l.claims|, c);
  }

  datatype PublishError = KeyOfOtherSnapshot | Blocked

  ghost function Draft(l: Ledger, publisher: string, notes: Option<string>, key: string): Snapshot
    requires Publishable(l)
  {
    OpenGateLinks(l);
    var links := ApprovedLinks(l, |l.claims|);
    Snapshot(MaxVersion(l.snapshots) + 1, Digest(SNAPSHOT_SCHEMA_VERSION, Serialize(l, links)), publisher, notes, key,
             links)
  }

  /** `publish` */
  ghost function Publish(l: Ledger, publisher: string, notes: Option<string>, key: string)
    : Result<(Ledger, bool), PublishError> {
    match FindSnapshot(l.snapshots, key)
    case Some(s) =>
      if l.snapshots[s].notes == notes && l.snapshots[s].publisher == publisher then Success((l, false))
      else Failure(KeyOfOtherSnapshot)
    case None =>
      if !Publishable(l) then Failure(Blocked)
      else Success((l.(snapshots := l.snapshots + [Draft(l, publisher, notes, key)]), true))
  }

  // ---------------------------------------------------------------- the invariant

  /** Two members of one exclusive key carry the same approved value. */
  ghost predicate Agree(l: Ledger, j: Link, k: Link)
    requires InTables(l, j) && InTables(l, k)
  {
    KeyOf(l.claims[j.claim]) == KeyOf(l.claims[k.claim]) && Exclusive(KeyOf(l.claims[j.claim])) ==>
      NormalizedOf(l.reviews[j.review]) == NormalizedOf(l.reviews[k.review])
  }

  ghost predicate OneValue(l: Ledger, links: seq<Link>)
    requires AllInTables(l, links)
  {
    forall i, j :: 0 <= i < |links| && 0 <= j < |links| ==> Agree(l, links[i], links[j])
  }

  ghost predicate SnapshotOk(l: Ledger, s: Snapshot) {
    && s.links != [] && DistinctClaims(s.links)
    && (forall i :: 0 <= i < |s.links| ==> LinkOk(l, s.links[i]))
    && AllInTables(l, s.links)
    && OneValue(l, s.links)
    && s.digest == Digest(SNAPSHOT_SCHEMA_VERSION, Serialize(l, s.links))
  }

  ghost predicate AllSnapshots(snapshots: seq<Snapshot>, good: (nat, Snapshot) -> bool) {
    forall v :: 0 <= v < |snapshots| ==> good(v, snapshots[v])
  }

  /** Numbered by its position, and sound in `l`. */
  ghost function SoundIn(l: Ledger): (nat, Snapshot) -> bool {
    (v: nat, s: Snapshot) => s.version == v + 1 && SnapshotOk(l, s)
  }

  ghost predicate SnapshotsOk(l: Ledger) {
    AllSnapshots(l.snapshots, SoundIn(l))
  }

  ghost predicate UniqueSnapshotKeys(snapshots: seq<Snapshot>) {
    forall v, w :: 0 <= v < w < |snapshots| ==> snapshots[v].commandKey != snapshots[w].commandKey
  }

  ghost predicate ReviewOk(claims: seq<Claim>, r: Review) {
    && r.claim < |claims|
    && (r.approved.Some? <==> Approves(r.decision))
    && (r.decision == Approve ==> NormalizedOf(r) == claims[r.claim].normalized)
    && (r.decision == ApproveWithEdit ==> NormalizedOf(r) != claims[r.claim].normalized)
  }

  ghost predicate ReviewsOk(claims: seq<Claim>, reviews: seq<Review>) {
    && (forall r :: 0 <= r < |reviews| ==> ReviewOk(claims, reviews[r]))
    && (forall q, r :: 0 <= q < r < |reviews| ==> reviews[q].commandKey != reviews[r].commandKey)
  }

  ghost predicate Sound(l: Ledger) {
    ClaimIdsUnique(l.claims) && ReviewsOk(l.claims, l.reviews) && GroupsOk(l.claims, l.groups)
    && SnapshotsOk(l) && UniqueSnapshotKeys(l.snapshots)
  }

  lemma SnapshotKept(l: Ledger, m: Ledger, s: Snapshot)
    requires Extends(l, m) && SnapshotOk(l, s)
    ensures SnapshotOk(m, s)
  {
    forall i | 0 <= i < |s.links|
      ensures LinkOk(m, s.links[i]) && m.claims[s.links[i].claim] == l.claims[s.links[i].claim]
        && m.reviews[s.links[i].review] == l.reviews[s.links[i].review] {
    }
    SerializeKept(l, m, s.links);
  }

  lemma OldSnapshotsKept(l: Ledger, m: Ledger)
    requires Extends(l, m) && SnapshotsOk(l)
    ensures AllSnapshots(l.snapshots, SoundIn(m))
  {
    forall v | 0 <= v < |l.snapshots| ensures SoundIn(m)(v, l.snapshots[v]) {
      assert SoundIn(l)(v, l.snapshots[v]);
      SnapshotKept(l, m, l.snapshots[v]);
    }
  }

  // ---------------------------------------------------------------- commands

  datatype Command =
    | AddEntity(canonicalKey: string, displayName: string)
    | Revise(entity: nat, displayName: string, archived: bool)
    | AddClaim(claim: Claim)
    | ReviewOne(c: nat, decision: Decision, edit: Option<Edit>, reason: string, actor: string, key: string)
    | Confirm(key: string, actor: string, decisions: seq<PackDecision>)
    | ReconcileAll
    | Close(group: nat, outcome: GroupStatus, summary: string, actor: string, key: string)
    | PublishAll(actor: string, notes: Option<string>, key: string)

  predicate NewClaimId(claims: seq<Claim>, id: string) {
    |id| == 36 && forall c :: 0 <= c < |claims| ==> claims[c].id != id
  }

  /** One committed transaction; a refused command leaves the ledger as it was. */
  ghost function Apply(l: Ledger, c: Command): Ledger {
    match c
    case AddEntity(key, name) =>
      l.(entityKeys := l.entityKeys + [key], revisions := l.revisions + [Revision(|l.entityKeys|, name, false)])
    case Revise(entity, name, archived) => l.(revisions := l.revisions + [Revision(entity, name, archived)])
    case AddClaim(claim) => if NewClaimId(l.claims, claim.id) then l.(claims := l.claims + [claim]) else l
    case ReviewOne(i, decision, edit, reason, actor, key) =>
      var r := ReviewClaim(l, i, decision, edit, reason, actor, key);
      if r.Success? then r.value.0 else l
    case Confirm(key, actor, ds) =>
      if forall i :: 0 <= i < |ds| ==> ds[i].claim < |l.claims| then ConfirmPack(l, key, actor, ds) else l
    case ReconcileAll => Reconcile(l)
    case Close(g, outcome, summary, actor, key) =>
      var r := CloseConflict(l, g, outcome, summary, actor, key);
      if r.Success? then r.value.0 else l
    case PublishAll(actor, notes, key) =>
      var r := Publish(l, actor, notes, key);
      if r.Success? then r.value.0 else l
  }

  /** Soundness apart from the snapshots. */
  ghost predicate TablesOk(l: Ledger) {
    ClaimIdsUnique(l.claims) && ReviewsOk(l.claims, l.reviews) && GroupsOk(l.claims, l.groups)
  }

  lemma {:induction false} ConfirmOk(l: Ledger, key: string, actor: string, ds: seq<PackDecision>)
    requires TablesOk(l) && forall i :: 0 <= i < |ds| ==> ds[i].claim < |l.claims|
    ensures var m := ConfirmPack(l, key, actor, ds);
      TablesOk(m) && Extends(l, m) && m.snapshots == l.snapshots
    decreases |ds|
  {
    if ds != [] {
      var front, d := ds[..|ds| - 1], ds[|ds| - 1];
      ConfirmOk(l, key, actor, front);
      var mid := ConfirmPack(l, key, actor, front);
      ExtendsTrans(l, mid, ConfirmOne(mid, key, actor, d));
    }
  }

  lemma ReconcileOk(l: Ledger)
    requires TablesOk(l)
    ensures TablesOk(Reconcile(l)) && Extends(l, Reconcile(l))
  {
    ReconcileIsCompleteAndIdempotent(l);
  }

  lemma CloseOk(l: Ledger, c: Command)
    requires TablesOk(l) && c.Close?
    ensures TablesOk(Apply(l, c)) && Extends(l, Apply(l, c)) && Apply(l, c).snapshots == l.snapshots
  {
    var r := CloseConflict(l, c.group, c.outcome, c.summary, c.actor, c.key);
    if r.Success? && r.value.1 {
      var closed := r.value.0.groups[c.group];
      assert OkFor(l.claims)(l.groups[c.group]);
      ReplaceAll(l.groups, c.group, closed, OkFor(l.claims));
    }
  }

  lemma ReviewOneOk(l: Ledger, c: Command)
    requires TablesOk(l) && c.ReviewOne?
    ensures TablesOk(Apply(l, c)) && Extends(l, Apply(l, c)) && Apply(l, c).snapshots == l.snapshots
  {
  }

  /** Every command other than publication keeps the tables in order and only extends the ledger. */
  lemma TableCommandOk(l: Ledger, c: Command)
    requires TablesOk(l) && !c.PublishAll?
    ensures TablesOk(Apply(l, c)) && Extends(l, Apply(l, c)) && Apply(l, c).snapshots == l.snapshots
  {
    match c
    case Confirm(key, actor, ds) =>
      if forall i :: 0 <= i < |ds| ==> ds[i].claim < |l.claims| {
        ConfirmOk(l, key, actor, ds);
      }
    case ReconcileAll => ReconcileOk(l);
    case Close(_, _, _, _, _) => CloseOk(l, c);
    case ReviewOne(_, _, _, _, _, _) => ReviewOneOk(l, c);
    case _ =>
  }

  lemma {:induction false} MaxVersionCounts(snapshots: seq<Snapshot>)
    requires forall v :: 0 <= v < |snapshots| ==> snapshots[v].version == v + 1
    ensures MaxVersion(snapshots) == |snapshots|
  {
    if snapshots != [] {
      MaxVersionCounts(snapshots[..|snapshots| - 1]);
    }
  }

  /** A new snapshot holds one value per exclusive key, because the gate was open when it was drafted. */
  lemma DraftOk(l: Ledger, publisher: string, notes: Option<string>, key: string)
    requires Publishable(l)
    ensures SnapshotOk(l, Draft(l, publisher, notes, key))
  {
    var links := ApprovedLinks(l, |l.claims|);
    OpenGateLinks(l);
    ApprovedLinksExact(l, |l.claims|);
    GateIsExact(l);
    forall i, j | 0 <= i < |links| && 0 <= j < |links| ensures Agree(l, links[i], links[j]) {
      assert CurrentLink(l, links[i], |l.claims|) && CurrentLink(l, links[j], |l.claims|);
      assert Exclusive(KeyOf(l.claims[links[i].claim])) ==> !ApprovalsDiffer(l, KeyOf(l.claims[links[i].claim]));
    }
  }

  lemma AppendSnapshot(snapshots: seq<Snapshot>, s: Snapshot, good: (nat, Snapshot) -> bool)
    requires AllSnapshots(snapshots, good) && good(|snapshots|, s)
    requires UniqueSnapshotKeys(snapshots) && FindSnapshot(snapshots, s.commandKey) == None
    ensures AllSnapshots(snapshots + [s], good) && UniqueSnapshotKeys(snapshots + [s])
  {
  }

  lemma NewSnapshotKeeps(l: Ledger, s: Snapshot)
    requires SnapshotsOk(l) && UniqueSnapshotKeys(l.snapshots) && SnapshotOk(l, s)
    requires s.version == |l.snapshots| + 1 && FindSnapshot(l.snapshots, s.commandKey) == None
    ensures var m := l.(snapshots := l.snapshots + [s]);
      Extends(l, m) && SnapshotsOk(m) && UniqueSnapshotKeys(m.snapshots)
  {
    var m := l.(snapshots := l.snapshots + [s]);
    OldSnapshotsKept(l, m);
    SnapshotKept(l, m, s);
    AppendSnapshot(l.snapshots, s, SoundIn(m));
  }

  lemma VersionsCount(l: Ledger)
    requires SnapshotsOk(l)
    ensures MaxVersion(l.snapshots) == |l.snapshots|
  {
    forall v | 0 <= v < |l.snapshots| ensures l.snapshots[v].version == v + 1 {
      assert SoundIn(l)(v, l.snapshots[v]);
    }
    MaxVersionCounts(l.snapshots);
  }

  lemma PublishOk(l: Ledger, actor: string, notes: Option<string>, key: string)
    requires Sound(l) && Publish(l, actor, notes, key).Success?
    ensures Sound(Publish(l, actor, notes, key).value.0) && Extends(l, Publish(l, actor, notes, key).value.0)
  {
    if FindSnapshot(l.snapshots, key) == None {
      DraftOk(l, actor, notes, key);
      VersionsCount(l);
      NewSnapshotKeeps(l, Draft(l, actor, notes, key));
    }
  }

  /** Every transaction keeps the ledger sound and only extends it. */
  lemma ApplyKeepsSound(l: Ledger, c: Command)
    requires Sound(l)
    ensures Sound(Apply(l, c)) && Extends(l, Apply(l, c))
  {
    if c.PublishAll? {
      if Publish(l, c.actor, c.notes, c.key).Success? {
        PublishOk(l, c.actor, c.notes, c.key);
      }
    } else {
      TableCommandOk(l, c);
      OldSnapshotsKept(l, Apply(l, c));
    }
  }

  ghost function Run(l: Ledger, commands: seq<Command>): Ledger
    decreases |commands|
  {
    if commands == [] then l else Apply(Run(l, commands[..|commands| - 1]), commands[|commands| - 1])
  }

  const EMPTY := Ledger([], [], [], [], [], [])

  lemma {:induction false} RunKeepsSound(l: Ledger, commands: seq<Command>)
    requires Sound(l)
    ensures Sound(Run(l, commands)) && Extends(l, Run(l, commands))
    decreases |commands|
  {
    if commands != [] {
      var front := commands[..|commands| - 1];
      RunKeepsSound(l, front);
      ApplyKeepsSound(Run(l, front), commands[|commands| - 1]);
      ExtendsTrans(l, Run(l, front), Run(l, commands));
    }
  }

  /** `m` is `l` after some commands; `l` is reachable when it comes about from the empty ledger. */
  ghost predicate Later(l: Ledger, m: Ledger) {
    exists commands :: m == Run(l, commands)
  }

  ghost predicate Reachable(l: Ledger) {
    Later(EMPTY, l)
  }

  lemma LaterExtends(l: Ledger, m: Ledger)
    requires Sound(l) && Later(l, m)
    ensures Sound(m) && Extends(l, m)
  {
    var commands :| m == Run(l, commands);
    RunKeepsSound(l, commands);
  }

  /** Every reachable ledger is sound. */
  lemma ReachableIsSound(l: Ledger)
    requires Reachable(l)
    ensures Sound(l)
  {
    LaterExtends(EMPTY, l);
  }

  // ---------------------------------------------------------------- what every history guarantees

  lemma SnapshotIsSound(l: Ledger, v: nat)
    requires Sound(l) && v < |l.snapshots|
    ensures l.snapshots[v].version == v + 1 && SnapshotOk(l, l.snapshots[v])
  {
    assert SoundIn(l)(v, l.snapshots[v]);
  }

  /** In every reachable ledger every published snapshot holds one value per exclusive comparison key. */
  lemma PublishedValuesNeverConflict(l: Ledger, v: nat, i: nat, j: nat)
    requires Reachable(l) && v < |l.snapshots| && i < |l.snapshots[v].links| && j < |l.snapshots[v].links|
    ensures var s := l.snapshots[v];
      s.version == v + 1 && LinkOk(l, s.links[i]) && LinkOk(l, s.links[j]) && Agree(l, s.links[i], s.links[j])
  {
    ReachableIsSound(l);
    SnapshotIsSound(l, v);
  }

  /**
   * Whatever happens after a publication, the snapshot row stays, and serialising its links, in any order the
   * database may return them, yields exactly the members its digest was computed from.
   */
  lemma DigestIsRebuiltForever(l: Ledger, m: Ledger, v: nat, links: seq<Link>)
    requires Reachable(l) && Later(l, m) && v < |l.snapshots| && multiset(links) == multiset(l.snapshots[v].links)
    ensures v < |m.snapshots| && m.snapshots[v] == l.snapshots[v]
    ensures AllInTables(m, links) && Digest(SNAPSHOT_SCHEMA_VERSION, Serialize(m, links)) == l.snapshots[v].digest
  {
    ReachableIsSound(l);
    LaterExtends(l, m);
    SnapshotIsSound(m, v);
    SerializeIgnoresOrder(m, m.snapshots[v].links, links);
  }

  /** A publication freezes exactly the approved claims with their latest reviews, under the next version number. */
  lemma PublishFreezesApprovals(l: Ledger, actor: string, notes: Option<string>, key: string)
    requires Sound(l) && Publish(l, actor, notes, key).Success? && Publish(l, actor, notes, key).value.1
    ensures var m := Publish(l, actor, notes, key).value.0; var s := m.snapshots[|l.snapshots|];
      && m.snapshots == l.snapshots + [s] && s.version == |l.snapshots| + 1
      && CurrentLinks(l, s.links, |l.claims|) && DistinctClaims(s.links)
      && forall c :: 0 <= c < |l.claims| ==> (IsApproved(l, c) <==> LinkAt(l, s.links, c))
  {
    var links := ApprovedLinks(l, |l.claims|);
    VersionsCount(l);
    ApprovedLinksExact(l, |l.claims|);
    GateIsExact(l);
    forall c | 0 <= c < |l.claims| ensures IsApproved(l, c) <==> LinkAt(l, links, c) {
      if IsApproved(l, c) {
        assert LineageReady(l, c);
        ApprovedLinksComplete(l, |l.claims|, c);
      }
      if LinkAt(l, links, c) {
        var i :| 0 <= i < |links| && links[i].claim == c;
        assert CurrentLink(l, links[i], |l.claims|);
      }
    }
  }

  lemma StillPublished(l: Ledger, m: Ledger, key: string)
    requires Sound(l) && Later(l, m) && FindSnapshot(l.snapshots, key).Some?
    ensures FindSnapshot(m.snapshots, key) == FindSnapshot(l.snapshots, key)
    ensures m.snapshots[FindSnapshot(l.snapshots, key).value] == l.snapshots[FindSnapshot(l.snapshots, key).value]
  {
    LaterExtends(l, m);
  }

  lemma PublishedIsFound(l: Ledger, actor: string, notes: Option<string>, key: string)
    requires Publish(l, actor, notes, key).Success?
    ensures var m := Publish(l, actor, notes, key).value.0; var s := FindSnapshot(m.snapshots, key);
      s.Some? && m.snapshots[s.value].notes == notes && m.snapshots[s.value].publisher == actor
  {
  }

  /** Repeating an accepted publication at any later time creates nothing. */
  lemma PublishReplaysForever(l: Ledger, actor: string, notes: Option<string>, key: string, first: Ledger, m: Ledger)
    requires Sound(l) && Publish(l, actor, notes, key).Success? && first == Publish(l, actor, notes, key).value.0
    requires Later(first, m)
    ensures Publish(m, actor, notes, key) == Success((m, false))
  {
    PublishedIsFound(l, actor, notes, key);
    PublishOk(l, actor, notes, key);
    StillPublished(first, m, key);
  }

  lemma StillReviewed(l: Ledger, m: Ledger, key: CommandKey)
    requires Sound(l) && Later(l, m) && FindReview(l.reviews, key).Some?
    ensures FindReview(m.reviews, key) == FindReview(l.reviews, key)
    ensures m.reviews[FindReview(l.reviews, key).value] == l.reviews[FindReview(l.reviews, key).value]
    ensures l.claims <= m.claims
  {
    LaterExtends(l, m);
    var r := FindReview(l.reviews, key).value;
    assert m.reviews[r] == l.reviews[r];
  }

  lemma ReviewedIsFound(l: Ledger, c: Command)
    requires c.ReviewOne? && ReviewClaim(l, c.c, c.decision, c.edit, c.reason, c.actor, c.key).Success?
    ensures var m := ReviewClaim(l, c.c, c.decision, c.edit, c.reason, c.actor, c.key).value.0;
      && m == Apply(l, c) && m.claims == l.claims && FindReview(m.reviews, FromCaller(c.key)).Some?
      && m.reviews[FindReview(m.reviews, FromCaller(c.key)).value]
         == Review(c.c, c.decision, ReviewValue(l.claims[c.c], c.decision, c.edit).value, c.reason, c.actor,
                   FromCaller(c.key))
  {
  }

  /** Repeating an accepted review command at any later time creates nothing. */
  lemma ReviewReplaysForever(l: Ledger, c: Command, first: Ledger, m: Ledger)
    requires Sound(l) && c.ReviewOne? && ReviewClaim(l, c.c, c.decision, c.edit, c.reason, c.actor, c.key).Success?
    requires first == ReviewClaim(l, c.c, c.decision, c.edit, c.reason, c.actor, c.key).value.0 && Later(first, m)
    ensures ReviewClaim(m, c.c, c.decision, c.edit, c.reason, c.actor, c.key) == Success((m, false))
  {
    ReviewedIsFound(l, c);
    ApplyKeepsSound(l, c);
    StillReviewed(first, m, FromCaller(c.key));
  }

  /** Resolution succeeds exactly when it should: in a reachable ledger its two structural errors cannot occur. */
  lemma ResolutionIsExact(l: Ledger, g: nat)
    requires Reachable(l) && g < |l.groups|
    ensures var group := l.groups[g]; var r := ValidateResolution(l, group);
      && (r.Failure? ==> r.error !in {EmptyGroup, InconsistentRelations})
      && (r.Success? <==>
            && FinalUpTo(l, group.members, |group.members|)
            && ApprovedMemberValues(l, group.members) != {}
            && (Exclusive(group.key) ==> |ApprovedMemberValues(l, group.members)| == 1))
  {
    ReachableIsSound(l);
    assert OkFor(l.claims)(l.groups[g]);
    OneRelation(l.claims, l.groups[g]);
  }

  lemma OneRelation(claims: seq<Claim>, g: Group)
    requires GroupOk(claims, g)
    ensures g.members != [] && Relations(g.members) == {Classify(g.key.predicate_)}
  {
    var i :| 0 <= i < |g.members| && g.members[i].claim < |claims|;
    assert RowOk(claims, g.key, g.members[i]);
    forall m | 0 <= m < |g.members| ensures g.members[m].relation == Classify(g.key.predicate_) {
      assert RowOk(claims, g.key, g.members[m]);
    }
  }

  /** Right after `reconcile` the unreconciled-conflicts blocker cannot be raised. */
  lemma ReconcileClearsItsBlocker(l: Ledger)
    requires Reachable(l)
    ensures !Blocks(Reconcile(l), UnreconciledConflicts)
  {
    ReachableIsSound(l);
    ReconcileIsCompleteAndIdempotent(l);
    forall key ensures !KeyBlocks(Reconcile(l), key, UnreconciledConflicts) {
      assert SettledKey(l.claims, Reconcile(l).groups, key);
    }
  }

  /** A closed group stays exactly as it was closed, whatever follows. */
  lemma ClosedGroupsNeverChange(l: Ledger, m: Ledger, g: nat)
    requires Reachable(l) && Later(l, m) && g < |l.groups| && l.groups[g].status != Open
    ensures g < |m.groups| && m.groups[g] == l.groups[g]
  {
    ReachableIsSound(l);
    LaterExtends(l, m);
    assert GroupKept(l.groups[g], m.groups[g]);
  }
}
