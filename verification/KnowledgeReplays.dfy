/** What repeating an accepted knowledge command does at any later time. */
module KnowledgeReplays {
  import opened Prelude
  import opened KnowledgeLedger
  import opened KnowledgePublication
  import opened KnowledgeHistory

  // ---------------------------------------------------------------- closing a conflict

  /** No two groups were closed under one command key. */
  ghost predicate UniqueClosures(groups: seq<Group>) {
    forall i, j :: 0 <= i < j < |groups| ==> !SameClosureKey(groups[i], groups[j])
  }

  predicate ClosedUnder(g: Group, key: string) {
    g.closure.Some? && g.closure.value.commandKey == key
  }

  predicate SameClosureKey(a: Group, b: Group) {
    a.closure.Some? && ClosedUnder(b, a.closure.value.commandKey)
  }

  lemma {:induction false} ClosureNotFound(groups: seq<Group>, key: string, i: nat)
    requires FindClosure(groups, key) == None && i < |groups|
    ensures !ClosedUnder(groups[i], key)
  {
    if i < |groups| - 1 {
      ClosureNotFound(groups[..|groups| - 1], key, i);
    }
  }

  lemma UniqueClosureFound(groups: seq<Group>, key: string, g: nat)
    requires UniqueClosures(groups) && g < |groups| && ClosedUnder(groups[g], key)
    ensures FindClosure(groups, key) == Some(g)
  {
    if FindClosure(groups, key) == None {
      ClosureNotFound(groups, key, g);
    }
    var r := FindClosure(groups, key).value;
    assert SameClosureKey(groups[r], groups[g]) && SameClosureKey(groups[g], groups[r]);
  }

  /** Every group of `before` keeps its closure, and further groups have none. */
  ghost predicate SameClosures(before: seq<Group>, after: seq<Group>) {
    && |before| <= |after|
    && forall g :: 0 <= g < |after| ==> after[g].closure == if g < |before| then before[g].closure else None
  }

  lemma {:induction false} ReconcileKeepsClosures(claims: seq<Claim>, groups: seq<Group>, keys: seq<Key>)
    ensures SameClosures(groups, ReconcileKeys(claims, groups, keys))
    decreases |keys|
  {
    if keys != [] {
      ReconcileKeepsClosures(claims, groups, keys[..|keys| - 1]);
    }
  }

  lemma SameClosuresUnique(before: seq<Group>, after: seq<Group>)
    requires UniqueClosures(before) && SameClosures(before, after)
    ensures UniqueClosures(after)
  {
    forall i, j | 0 <= i < j < |after| ensures !SameClosureKey(after[i], after[j]) {
      if j < |before| {
        assert !SameClosureKey(before[i], before[j]);
      }
    }
  }

  lemma CloseKeepsUnique(l: Ledger, c: Command)
    requires c.Close? && UniqueClosures(l.groups)
    ensures UniqueClosures(Apply(l, c).groups)
  {
    var after := Apply(l, c).groups;
    if after != l.groups {
      forall i, j | 0 <= i < j < |after| ensures !SameClosureKey(after[i], after[j]) {
        ClosureNotFound(l.groups, c.key, i);
        ClosureNotFound(l.groups, c.key, j);
        assert !SameClosureKey(l.groups[i], l.groups[j]);
      }
    }
  }

  lemma {:induction false} ConfirmKeepsGroups(l: Ledger, key: string, actor: string, ds: seq<PackDecision>)
    requires forall i :: 0 <= i < |ds| ==> ds[i].claim < |l.claims|
    ensures ConfirmPack(l, key, actor, ds).groups == l.groups
    decreases |ds|
  {
    if ds != [] {
      ConfirmKeepsGroups(l, key, actor, ds[..|ds| - 1]);
    }
  }

  lemma ApplyKeepsClosures(l: Ledger, c: Command)
    requires UniqueClosures(l.groups)
    ensures UniqueClosures(Apply(l, c).groups)
  {
    match c
    case Close(_, _, _, _, _) => CloseKeepsUnique(l, c);
    case ReconcileAll =>
      ReconcileKeepsClosures(l.claims, l.groups, KeysInOrder(l.claims, |l.claims|));
      SameClosuresUnique(l.groups, Reconcile(l).groups);
    case Confirm(key, actor, ds) =>
      if forall i :: 0 <= i < |ds| ==> ds[i].claim < |l.claims| {
        ConfirmKeepsGroups(l, key, actor, ds);
      }
    case _ => assert Apply(l, c).groups == l.groups;
  }

  lemma {:induction false} RunKeepsClosures(l: Ledger, commands: seq<Command>)
    requires UniqueClosures(l.groups)
    ensures UniqueClosures(Run(l, commands).groups)
    decreases |commands|
  {
    if commands != [] {
      RunKeepsClosures(l, commands[..|commands| - 1]);
      ApplyKeepsClosures(Run(l, commands[..|commands| - 1]), commands[|commands| - 1]);
    }
  }

  /** What an accepted closure leaves behind. */
  ghost predicate ClosedBy(l: Ledger, c: Command)
    requires c.Close?
  {
    && c.group < |l.groups| && l.groups[c.group].status == c.outcome != Open && ClosedUnder(l.groups[c.group], c.key)
    && l.groups[c.group].closure.value.summary == c.summary && l.groups[c.group].closure.value.actor == c.actor
  }

  lemma AcceptedIsClosed(l: Ledger, c: Command)
    requires c.Close? && CloseConflict(l, c.group, c.outcome, c.summary, c.actor, c.key).Success?
    ensures Apply(l, c) == CloseConflict(l, c.group, c.outcome, c.summary, c.actor, c.key).value.0
    ensures ClosedBy(Apply(l, c), c)
  {
  }

  /** Repeating an accepted closure at any later time changes nothing. */
  lemma ClosureReplaysForever(l: Ledger, c: Command, m: Ledger)
    requires Reachable(l) && c.Close? && CloseConflict(l, c.group, c.outcome, c.summary, c.actor, c.key).Success?
    requires Later(Apply(l, c), m)
    ensures CloseConflict(m, c.group, c.outcome, c.summary, c.actor, c.key) == Success((m, false))
  {
    ReachableIsSound(l);
    ApplyKeepsSound(l, c);
    AcceptedIsClosed(l, c);
    LaterExtends(Apply(l, c), m);
    assert GroupKept(Apply(l, c).groups[c.group], m.groups[c.group]);
    var history :| l == Run(EMPTY, history);
    RunKeepsClosures(EMPTY, history);
    ApplyKeepsClosures(l, c);
    var commands :| m == Run(Apply(l, c), commands);
    RunKeepsClosures(Apply(l, c), commands);
    UniqueClosureFound(m.groups, c.key, c.group);
  }

  // ---------------------------------------------------------------- confirming a pack

  function Expected(d: PackDecision): Decision {
    if d.verdict == AgentApproved then Approve else Reject
  }

  /** The decision has left its row, under the key derived from the command key. */
  predicate Recorded(l: Ledger, key: string, d: PackDecision) {
    FindReview(l.reviews, FromPack(key, d.claim)).Some?
  }

  /** The claim's latest review already says what the decision says. */
  predicate Stands(l: Ledger, d: PackDecision) {
    var latest := LatestReview(l.reviews, d.claim);
    latest.Some? && l.reviews[latest.value].decision == Expected(d)
  }

  predicate PassedOver(l: Ledger, key: string, d: PackDecision) {
    d.verdict == NeedsHuman || Recorded(l, key, d) || Stands(l, d)
  }

  ghost predicate ClaimsKnown(l: Ledger, ds: seq<PackDecision>) {
    forall i :: 0 <= i < |ds| ==> ds[i].claim < |l.claims|
  }

  /** A review has one decision per claim. */
  ghost predicate OnePerClaim(ds: seq<PackDecision>) {
    forall i, j :: 0 <= i < j < |ds| ==> ds[i].claim != ds[j].claim
  }

  lemma ConfirmOneExactly(l: Ledger, key: string, actor: string, d: PackDecision)
    requires d.claim < |l.claims|
    ensures ConfirmOne(l, key, actor, d) == l <==> PassedOver(l, key, d)
    ensures l.reviews <= ConfirmOne(l, key, actor, d).reviews
    ensures ConfirmOne(l, key, actor, d) == l.(reviews := ConfirmOne(l, key, actor, d).reviews)
  {
    var after := ConfirmOne(l, key, actor, d);
    if !PassedOver(l, key, d) {
      assert |after.reviews| == |l.reviews| + 1;
    }
  }

  lemma {:induction false} ConfirmAppends(l: Ledger, key: string, actor: string, ds: seq<PackDecision>)
    requires ClaimsKnown(l, ds)
    ensures var m := ConfirmPack(l, key, actor, ds); l.reviews <= m.reviews && m == l.(reviews := m.reviews)
    decreases |ds|
  {
    if ds != [] {
      var front := ds[..|ds| - 1];
      ConfirmAppends(l, key, actor, front);
      ConfirmOneExactly(ConfirmPack(l, key, actor, front), key, actor, ds[|ds| - 1]);
    }
  }

  /** A confirmation creates nothing exactly when every decision is passed over. */
  lemma {:induction false} ConfirmExactly(l: Ledger, key: string, actor: string, ds: seq<PackDecision>)
    requires ClaimsKnown(l, ds)
    ensures ConfirmPack(l, key, actor, ds) == l <==> forall i :: 0 <= i < |ds| ==> PassedOver(l, key, ds[i])
    decreases |ds|
  {
    if ds != [] {
      var front, d := ds[..|ds| - 1], ds[|ds| - 1];
      var mid := ConfirmPack(l, key, actor, front);
      ConfirmExactly(l, key, actor, front);
      ConfirmAppends(l, key, actor, front);
      ConfirmOneExactly(mid, key, actor, d);
      if ConfirmPack(l, key, actor, ds) == l {
        assert |l.reviews| <= |mid.reviews| <= |l.reviews|;
        assert mid == l;
        forall i | 0 <= i < |ds| ensures PassedOver(l, key, ds[i]) {
          assert i < |front| ==> ds[i] == front[i];
        }
      }
      if forall i :: 0 <= i < |ds| ==> PassedOver(l, key, ds[i]) {
        forall i | 0 <= i < |front| ensures PassedOver(l, key, front[i]) {
          assert front[i] == ds[i];
        }
      }
    }
  }

  lemma ConfirmOneRecords(l: Ledger, key: string, actor: string, d: PackDecision, e: PackDecision)
    requires d.claim < |l.claims|
    ensures var m := ConfirmOne(l, key, actor, d);
      && (d.claim != e.claim ==> (Recorded(m, key, e) <==> Recorded(l, key, e)) && (Stands(m, e) <==> Stands(l, e)))
      && (d == e ==> (Recorded(m, key, e) <==> Recorded(l, key, e) || !PassedOver(l, key, e)))
  {
    var m := ConfirmOne(l, key, actor, d);
    if m != l {
      var row := m.reviews[|l.reviews|];
      assert m.reviews == l.reviews + [row] && m.reviews[..|m.reviews| - 1] == l.reviews;
    }
  }

  lemma {:induction false} OthersUntouched(l: Ledger, key: string, actor: string, ds: seq<PackDecision>,
                                           e: PackDecision)
    requires ClaimsKnown(l, ds) && forall i :: 0 <= i < |ds| ==> ds[i].claim != e.claim
    ensures var m := ConfirmPack(l, key, actor, ds);
      (Recorded(m, key, e) <==> Recorded(l, key, e)) && (Stands(m, e) <==> Stands(l, e))
    decreases |ds|
  {
    if ds != [] {
      var front := ds[..|ds| - 1];
      OthersUntouched(l, key, actor, front, e);
      ConfirmOneRecords(ConfirmPack(l, key, actor, front), key, actor, ds[|ds| - 1], e);
    }
  }

  /** After a confirmation a decision has its row exactly if it had one before or was not passed over. */
  lemma {:induction false} ConfirmRecords(l: Ledger, key: string, actor: string, ds: seq<PackDecision>, i: nat)
    requires ClaimsKnown(l, ds) && OnePerClaim(ds) && i < |ds|
    ensures Recorded(ConfirmPack(l, key, actor, ds), key, ds[i])
      <==> Recorded(l, key, ds[i]) || !PassedOver(l, key, ds[i])
    decreases |ds|
  {
    var front, d := ds[..|ds| - 1], ds[|ds| - 1];
    var mid := ConfirmPack(l, key, actor, front);
    ConfirmOneRecords(mid, key, actor, d, ds[i]);
    if i < |front| {
      ConfirmRecords(l, key, actor, front, i);
    } else {
      OthersUntouched(l, key, actor, front, d);
    }
  }

  lemma RecordedStays(l: Ledger, m: Ledger, key: string, d: PackDecision)
    requires l.reviews <= m.reviews && Recorded(l, key, d)
    ensures Recorded(m, key, d)
  {
    var r := FindReview(l.reviews, FromPack(key, d.claim)).value;
    assert m.reviews[r] == l.reviews[r];
  }

  /** The claim's latest review already agreed, so the confirmation left no row for this decision. */
  predicate LeftUnrecorded(l: Ledger, key: string, d: PackDecision) {
    d.verdict != NeedsHuman && !Recorded(l, key, d) && Stands(l, d)
  }

  /**
   * Repeating a confirmation under the same key, at any later time and by anyone, creates nothing if and only if
   * every decision that the first one left unrecorded still agrees with its claim's latest review, or was recorded
   * since. The others never create anything again.
   */
  lemma RepeatedConfirmationIsExact(l: Ledger, key: string, actor: string, ds: seq<PackDecision>, m: Ledger,
                                    again: string)
    requires Sound(l) && ClaimsKnown(l, ds) && OnePerClaim(ds) && Later(ConfirmPack(l, key, actor, ds), m)
    ensures ClaimsKnown(m, ds)
    ensures ConfirmPack(m, key, again, ds) == m
      <==> forall i :: 0 <= i < |ds| && LeftUnrecorded(l, key, ds[i]) ==> Recorded(m, key, ds[i]) || Stands(m, ds[i])
  {
    var first := ConfirmPack(l, key, actor, ds);
    assert first == Apply(l, Confirm(key, actor, ds));
    ApplyKeepsSound(l, Confirm(key, actor, ds));
    LaterExtends(first, m);
    ConfirmExactly(m, key, again, ds);
    forall i | 0 <= i < |ds|
      ensures PassedOver(m, key, ds[i])
        <==> (LeftUnrecorded(l, key, ds[i]) ==> Recorded(m, key, ds[i]) || Stands(m, ds[i])) {
      ConfirmRecords(l, key, actor, ds, i);
      if Recorded(first, key, ds[i]) {
        RecordedStays(first, m, key, ds[i]);
      }
    }
  }

  // ---------------------------------------------------------------- an instance

  const CLAIM_ID := "00000000-0000-0000-0000-000000000000"
  const CLAIM := Claim(CLAIM_ID, 0, GameName, "scope", "string", "v", "v", [Evidence("v", true)])
  const VALUE := ApprovedValue("string", "v", "v")
  const PACK: seq<PackDecision> := [PackDecision(0, AgentApproved, "supported")]

  lemma RunStep(l: Ledger, commands: seq<Command>, c: Command)
    ensures Run(l, commands + [c]) == Apply(Run(l, commands), c)
  {
    assert (commands + [c])[..|commands|] == commands;
  }

  /** A human approves the claim, the pack is confirmed, and the human rejects the claim after all. */
  function RejectedAfterConfirmation(): seq<Command> {
    [AddClaim(CLAIM)] + [ReviewOne(0, Approve, None, "right", "human", "first")]
    + [Confirm("pack", "human", PACK)] + [ReviewOne(0, Reject, None, "wrong", "human", "second")]
  }

  function Before(reviews: seq<Review>): Ledger {
    Ledger([], [], [CLAIM], reviews, [], [])
  }

  const APPROVAL := Review(0, Approve, Some(VALUE), "right", "human", FromCaller("first"))
  const REJECTION := Review(0, Reject, None, "wrong", "human", FromCaller("second"))
  const REPEATED := Review(0, Approve, Some(VALUE), "supported", "human", FromPack("pack", 0))

  lemma ConfirmationPassesOver()
    ensures ConfirmPack(Before([APPROVAL]), "pack", "human", PACK) == Before([APPROVAL])
    ensures ConfirmPack(Before([APPROVAL, REJECTION]), "pack", "human", PACK) == Before([APPROVAL, REJECTION, REPEATED])
  {
    assert PACK[..0] == [];
    assert [APPROVAL, REJECTION][..1] == [APPROVAL] && [APPROVAL][..0] == [];
    assert [APPROVAL, REJECTION] + [REPEATED] == [APPROVAL, REJECTION, REPEATED];
  }

  lemma RejectedHistory()
    ensures Run(EMPTY, RejectedAfterConfirmation()) == Before([APPROVAL, REJECTION])
  {
    var add, approve := AddClaim(CLAIM), ReviewOne(0, Approve, None, "right", "human", "first");
    var confirm, reject := Confirm("pack", "human", PACK), ReviewOne(0, Reject, None, "wrong", "human", "second");
    RunStep(EMPTY, [], add);
    assert [] + [add] == [add] && |CLAIM_ID| == 36 && [] + [CLAIM] == [CLAIM];
    assert Run(EMPTY, [add]) == Before([]);
    RunStep(EMPTY, [add], approve);
    assert [] + [APPROVAL] == [APPROVAL];
    assert Run(EMPTY, [add] + [approve]) == Before([APPROVAL]);
    RunStep(EMPTY, [add] + [approve], confirm);
    ConfirmationPassesOver();
    RunStep(EMPTY, [add] + [approve] + [confirm], reject);
    assert [APPROVAL] + [REJECTION] == [APPROVAL, REJECTION] && [APPROVAL][..0] == [];
  }

  /** An instance: the confirmation left the claim unrecorded, so its repetition undoes the later rejection. */
  lemma RepeatedConfirmationUndoesRejection()
    ensures var l := Run(EMPTY, RejectedAfterConfirmation());
      && |l.claims| == 1 && !IsApproved(l, 0)
      && ConfirmPack(l, "pack", "human", PACK) != l && IsApproved(ConfirmPack(l, "pack", "human", PACK), 0)
  {
    RejectedHistory();
    ConfirmationPassesOver();
    assert [APPROVAL, REJECTION][..1] == [APPROVAL];
  }
}
