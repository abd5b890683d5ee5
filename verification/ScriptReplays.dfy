/** What repeating an accepted command does at any later time. */
module ScriptReplays {
  import opened Prelude
  import opened ScriptContent
  import opened ScriptWorkflow

  ghost predicate ExportKeysUnique(exports: seq<Export>) {
    forall i, j :: 0 <= i < j < |exports| ==> exports[i].key != exports[j].key
  }

  lemma ExportKeysKept(rules: Rules, r: Run, c: Command)
    requires ExportKeysUnique(r.exports)
    ensures ExportKeysUnique(Apply(rules, r, c).0.exports)
  {
    if !c.ExportVersion? {
      assert Apply(rules, r, c).0.exports == r.exports;
    }
  }

  lemma {:induction false} ExportKeysStayUnique(rules: Rules, r: Run, commands: seq<Command>)
    requires ExportKeysUnique(r.exports)
    ensures ExportKeysUnique(After(rules, r, commands).exports)
  {
    if commands != [] {
      ExportKeysStayUnique(rules, r, commands[..|commands| - 1]);
      ExportKeysKept(rules, After(rules, r, commands[..|commands| - 1]), commands[|commands| - 1]);
    }
  }

  lemma UniqueExportFound(exports: seq<Export>, i: nat)
    requires ExportKeysUnique(exports) && i < |exports|
    ensures FindExport(exports, exports[i].key) == Some(i)
  {
  }

  lemma LaterExportKeysUnique(rules: Rules, r: Run, v: nat, format: Format, key: string, s: Run)
    requires Reachable(rules, r) && Later(rules, Publish(r, v, format, key).0, s)
    ensures ExportKeysUnique(s.exports)
  {
    var history :| r == After(rules, EMPTY, history);
    ExportKeysStayUnique(rules, EMPTY, history);
    ExportKeysKept(rules, r, ExportVersion(v, format, key));
    var commands :| s == After(rules, Publish(r, v, format, key).0, commands);
    ExportKeysStayUnique(rules, Publish(r, v, format, key).0, commands);
  }

  /** The row that an accepted export has created or found. */
  lemma AcceptedExport(r: Run, v: nat, format: Format, key: string)
    requires Publish(r, v, format, key).1.Success?
    ensures var (first, reply) := Publish(r, v, format, key);
      && v < |r.versions| && LatestApproval(r.reviews, v).Some? && reply.value.0 < |first.exports|
      && first.exports[reply.value.0]
         == Export(v, LatestApproval(r.reviews, v).value, format, r.versions[v].content, key)
  {
  }

  /** An approval stays, so a version that could be exported can be exported ever after. */
  lemma ApprovalStays(r: Run, s: Run, v: nat)
    requires Extends(r, s) && LatestApproval(r.reviews, v).Some?
    ensures LatestApproval(s.reviews, v).Some?
  {
    var i := LatestApproval(r.reviews, v).value;
    assert s.reviews[i] == r.reviews[i];
  }

  /**
   * An accepted export, sent again later, is recognised exactly if its version has no further approving review;
   * otherwise the same command is refused.
   */
  lemma ExportReplayIsExact(rules: Rules, r: Run, v: nat, format: Format, key: string, s: Run)
    requires Reachable(rules, r) && Publish(r, v, format, key).1.Success?
    requires Later(rules, Publish(r, v, format, key).0, s)
    ensures var again := Publish(s, v, format, key);
      if LatestApproval(s.reviews, v) == LatestApproval(r.reviews, v)
      then again == (s, Success((Publish(r, v, format, key).1.value.0, false))) else again == (s, Failure(KeyReused))
  {
    var (first, reply) := Publish(r, v, format, key);
    var x := reply.value.0;
    ReachableIsSound(rules, r);
    ExportKeepsOk(rules, r, v, format, key);
    AcceptedExport(r, v, format, key);
    LaterExtends(rules, first, s);
    LaterExportKeysUnique(rules, r, v, format, key, s);
    assert s.exports[x] == first.exports[x] && s.versions[v] == r.versions[v];
    UniqueExportFound(s.exports, x);
    ApprovalStays(first, s, v);
  }

  /** One export and one more approval after the approved history. */
  lemma ExportedRun(rules: Rules, author: string)
    requires rules.valid(rules.template) && Passes(rules, rules.template)
    ensures var exported := ApprovedHistory(author) + [ExportVersion(0, Markdown, "x")];
      var r := After(rules, EMPTY, exported);
      && r == After(rules, EMPTY, ApprovedHistory(author)).(
           exports := [Export(0, 0, Markdown, rules.template, "x")])
      && After(rules, EMPTY, exported + [ReviewVersion(0, ApproveFinal, "once more", author, "b")])
         == r.(reviews := r.reviews + [FinalReview(0, 0, ApproveFinal, "once more", author, "b")])
  {
    var export_, approve := ExportVersion(0, Markdown, "x"), ReviewVersion(0, ApproveFinal, "once more", author, "b");
    ApprovedHistoryRun(rules, author);
    AfterStep(rules, EMPTY, ApprovedHistory(author), export_);
    AfterStep(rules, EMPTY, ApprovedHistory(author) + [export_], approve);
  }

  /** An instance: an accepted export is recognised at once, and refused after one more approval of its version. */
  lemma ExportRefusedAfterApproval(rules: Rules, author: string)
    requires rules.valid(rules.template) && Passes(rules, rules.template)
    ensures var exported := ApprovedHistory(author) + [ExportVersion(0, Markdown, "x")];
      var r := After(rules, EMPTY, exported);
      var s := After(rules, EMPTY, exported + [ReviewVersion(0, ApproveFinal, "once more", author, "b")]);
      Publish(r, 0, Markdown, "x") == (r, Success((0, false)))
      && Publish(s, 0, Markdown, "x") == (s, Failure(KeyReused))
  {
    ApprovedHistoryRun(rules, author);
    ExportedRun(rules, author);
  }

  // ---------------------------------------------------------------- versions and evaluations

  ghost predicate KeysUnique(r: Run) {
    && (forall i, j :: 0 <= i < j < |r.versions| ==> r.versions[i].key != r.versions[j].key)
    && (forall i, j :: 0 <= i < j < |r.evaluations| ==> r.evaluations[i].key != r.evaluations[j].key)
  }

  lemma VersionKeysKept(rules: Rules, r: Run, c: Command)
    requires KeysUnique(r) && (c.Generate? || c.Edit? || c.ReviseLatest?)
    ensures KeysUnique(Apply(rules, r, c).0)
  {
  }

  lemma KeysKept(rules: Rules, r: Run, c: Command)
    requires KeysUnique(r)
    ensures KeysUnique(Apply(rules, r, c).0)
  {
    if c.Generate? || c.Edit? || c.ReviseLatest? {
      VersionKeysKept(rules, r, c);
    }
  }

  lemma {:induction false} KeysStayUnique(rules: Rules, r: Run, commands: seq<Command>)
    requires KeysUnique(r)
    ensures KeysUnique(After(rules, r, commands))
  {
    if commands != [] {
      KeysStayUnique(rules, r, commands[..|commands| - 1]);
      KeysKept(rules, After(rules, r, commands[..|commands| - 1]), commands[|commands| - 1]);
    }
  }

  /** What holds of every reachable run. */
  ghost predicate InOrder(rules: Rules, r: Run) {
    Sound(rules, r) && KeysUnique(r)
  }

  lemma ReachableIsInOrder(rules: Rules, r: Run)
    requires Reachable(rules, r)
    ensures InOrder(rules, r)
  {
    ReachableIsSound(rules, r);
    var history :| r == After(rules, EMPTY, history);
    KeysStayUnique(rules, EMPTY, history);
  }

  lemma StaysInOrder(rules: Rules, r: Run, c: Command, s: Run)
    requires InOrder(rules, r) && Later(rules, Apply(rules, r, c).0, s)
    ensures InOrder(rules, s) && Extends(Apply(rules, r, c).0, s)
  {
    var first := Apply(rules, r, c).0;
    ApplyKeepsSound(rules, r, c);
    KeysKept(rules, r, c);
    LaterExtends(rules, first, s);
    var commands :| s == After(rules, first, commands);
    KeysStayUnique(rules, first, commands);
  }

  /**
   * With a key that some version has, generating or editing again is recognised exactly if that version was made in
   * the same way with the same content, by whomever, and refused otherwise; nothing changes.
   */
  lemma RepeatedVersionExactly(rules: Rules, r: Run, given: Option<Content>, author: string, i: nat)
    requires InOrder(rules, r) && i < |r.versions|
    ensures var (s, reply) := CreateVersion(rules, r, given, author, r.versions[i].key);
      && s == r
      && (reply.Success? <==>
            if given == None then r.versions[i].origin == Generated
            else r.versions[i].origin == HumanEdit && r.versions[i].content == given.value)
      && (reply.Success? ==> reply.value == (i, false))
      && (reply.Failure? ==>
            reply.error == if given.Some? && !rules.valid(given.value) then InvalidContent else KeyReused)
  {
    assert VersionOk(rules, r.versions, i) && VersionOk(rules, r.versions, 0);
    assert FindVersion(r.versions, r.versions[i].key) == Some(i);
  }

  /**
   * With a key that some version has, a revision is recognised exactly if that version is one, and refused otherwise.
   */
  lemma RepeatedRevisionExactly(rules: Rules, r: Run, author: string, i: nat)
    requires InOrder(rules, r) && i < |r.versions|
    ensures Revise(rules, r, author, r.versions[i].key)
      == (r, if r.versions[i].origin == AutoRevision then Success((i, false)) else Failure(KeyReused))
  {
    assert FindVersion(r.versions, r.versions[i].key) == Some(i);
  }

  /**
   * With a key that some evaluation has, evaluating is recognised exactly for the same version, and refused otherwise.
   */
  lemma RepeatedEvaluationExactly(rules: Rules, r: Run, v: nat, e: nat)
    requires InOrder(rules, r) && e < |r.evaluations| && v < |r.versions|
    ensures Evaluate(rules, r, v, r.evaluations[e].key)
      == (r, if r.evaluations[e].version == v then Success((e, false)) else Failure(KeyReused))
  {
    assert FindEvaluation(r.evaluations, r.evaluations[e].key) == Some(e);
  }

  /** The row that an accepted command has created or found under its key. */
  ghost predicate Made(c: Command, first: Run, i: nat) {
    if c.EvaluateVersion? then
      i < |first.evaluations| && first.evaluations[i].version == c.version && first.evaluations[i].key == c.key
      && c.version < |first.versions|
    else
      && (c.Generate? || c.Edit? || c.ReviseLatest?)
      && i < |first.versions| && first.versions[i].key == c.key
      && first.versions[i].origin == (if c.Generate? then Generated else if c.Edit? then HumanEdit else AutoRevision)
      && (c.Edit? ==> first.versions[i].content == c.content)
  }

  lemma AcceptedIsMade(rules: Rules, r: Run, c: Command)
    requires (c.Generate? || c.Edit? || c.ReviseLatest? || c.EvaluateVersion?) && Apply(rules, r, c).1.Success?
    ensures Made(c, Apply(rules, r, c).0, Apply(rules, r, c).1.value.0)
  {
  }

  lemma MadeStays(c: Command, first: Run, s: Run, i: nat)
    requires Made(c, first, i) && Extends(first, s)
    ensures Made(c, s, i)
  {
    if c.EvaluateVersion? {
      assert first.evaluations[i] == s.evaluations[i];
    } else {
      assert first.versions[i] == s.versions[i];
    }
  }

  lemma MadeIsRecognised(rules: Rules, s: Run, c: Command, i: nat)
    requires InOrder(rules, s) && Made(c, s, i)
    ensures Apply(rules, s, c) == (s, Success((i, false)))
  {
    match c
    case Generate(author, _) => RepeatedVersionExactly(rules, s, None, author, i);
    case Edit(content, author, _) => RepeatedVersionExactly(rules, s, Some(content), author, i);
    case ReviseLatest(author, _) => RepeatedRevisionExactly(rules, s, author, i);
    case EvaluateVersion(v, _) => RepeatedEvaluationExactly(rules, s, v, i);
    case _ =>
  }

  /**
   * Generating, editing, revising and evaluating, once accepted, can be sent again at any later time: nothing changes.
   */
  lemma CreationReplaysForever(rules: Rules, r: Run, c: Command, s: Run)
    requires Reachable(rules, r) && (c.Generate? || c.Edit? || c.ReviseLatest? || c.EvaluateVersion?)
    requires Apply(rules, r, c).1.Success? && Later(rules, Apply(rules, r, c).0, s)
    ensures Apply(rules, s, c) == (s, Success((Apply(rules, r, c).1.value.0, false)))
  {
    var first, i := Apply(rules, r, c).0, Apply(rules, r, c).1.value.0;
    AcceptedIsMade(rules, r, c);
    ReachableIsInOrder(rules, r);
    StaysInOrder(rules, r, c, s);
    MadeStays(c, first, s, i);
    MadeIsRecognised(rules, s, c, i);
  }
}
