/** The answers of the script commands and the meaning of validity and score, stated over the rows and texts alone. */
module ScriptRules {
  import opened Prelude
  import opened ScriptContent
  import opened ScriptWorkflow

  // ---------------------------------------------------------------- validity

  predicate FilledIn(s: string, limit: nat) {
    |s| <= limit && exists i :: 0 <= i < |s| && !IsSpace(s[i])
  }

  /** Every text of the section is filled in, and it cites members of the snapshot and the approved signal only. */
  ghost predicate Grounded(input: Inputs, s: Section) {
    && FilledIn(s.purpose, 2000) && FilledIn(s.voiceover, 2000) && FilledIn(s.onScreen, 2000)
    && FilledIn(s.visual, 2000)
    && (forall m :: m in s.members ==> OfFact(input, m))
    && (forall i :: 0 <= i < |s.signals| ==> s.signals[i] == input.signal)
  }

  /** Sections `k - 1` and `k` meet, and none is empty. */
  ghost predicate Meets(sections: seq<Section>, k: int)
    requires 0 <= k < |sections|
  {
    sections[k].start < sections[k].end && (k > 0 ==> sections[k].start == sections[k - 1].end)
  }

  /** What a script may look like. */
  ghost predicate ContentRule(input: Inputs, c: Content) {
    && input.bytes(c) <= 64 * 1024
    && c.schemaVersion == "tiktok-script-v1" && c.platform == "TikTok" && c.language == "en"
    && c.duration == input.duration && FilledIn(c.title, 1000) && FilledIn(c.caption, 1000)
    && 1 <= |c.hashtags| <= 12
    && AllTagged(c.hashtags)
    && 3 <= |c.sections| <= 12
    && c.sections[0].start == 0 && c.sections[|c.sections| - 1].end == input.duration
    && (forall k :: 0 <= k < |c.sections| ==> Meets(c.sections, k))
    && AllGrounded(input, c.sections)
  }

  ghost predicate AllTagged(hashtags: seq<string>) {
    forall h :: h in hashtags ==> 1 <= |h| <= 80 && h[0] == '#'
  }

  ghost predicate AllGrounded(input: Inputs, sections: seq<Section>) {
    forall s :: s in sections ==> Grounded(input, s)
  }

  lemma FilledInExactly(s: string, limit: nat)
    ensures FilledIn(s, limit) <==> TextOk(s, limit)
  {
  }

  /** Member `m` is the member of some fact. */
  ghost predicate OfFact(input: Inputs, m: string) {
    exists f :: 0 <= f < |input.facts| && input.facts[f].member == m
  }

  lemma MembersExactly(input: Inputs, m: string)
    ensures m in input.Members() <==> OfFact(input, m)
  {
  }

  lemma CitationsExactly(input: Inputs, s: Section)
    ensures (forall m :: m in s.members ==> OfFact(input, m))
      <==> forall i :: 0 <= i < |s.members| ==> s.members[i] in input.Members()
  {
    forall m ensures m in input.Members() <==> OfFact(input, m) {
      MembersExactly(input, m);
    }
    if forall m :: m in s.members ==> OfFact(input, m) {
      forall i | 0 <= i < |s.members| ensures s.members[i] in input.Members() {
        assert s.members[i] in s.members;
      }
    }
  }

  lemma GroundedExactly(input: Inputs, s: Section)
    ensures Grounded(input, s) <==> SectionOk(input, s)
  {
    FilledInExactly(s.purpose, 2000);
    FilledInExactly(s.voiceover, 2000);
    FilledInExactly(s.onScreen, 2000);
    FilledInExactly(s.visual, 2000);
    CitationsExactly(input, s);
  }

  lemma HashtagExactly(h: string)
    ensures HashtagOk(h) <==> 1 <= |h| <= 80 && h[0] == '#'
  {
  }

  lemma HashtagsExactly(hashtags: seq<string>)
    ensures AllTagged(hashtags) <==> forall i :: 0 <= i < |hashtags| ==> HashtagOk(hashtags[i])
  {
    forall h ensures HashtagOk(h) <==> 1 <= |h| <= 80 && h[0] == '#' {
      HashtagExactly(h);
    }
    if AllTagged(hashtags) {
      forall i | 0 <= i < |hashtags| ensures HashtagOk(hashtags[i]) {
        assert hashtags[i] in hashtags;
      }
    }
  }

  lemma SectionsExactly(input: Inputs, sections: seq<Section>)
    ensures AllGrounded(input, sections) <==> SectionsOk(input, sections)
  {
    forall s ensures Grounded(input, s) <==> SectionOk(input, s) {
      GroundedExactly(input, s);
    }
    if AllGrounded(input, sections) {
      forall i | 0 <= i < |sections| ensures SectionOk(input, sections[i]) {
        assert sections[i] in sections;
      }
    }
  }

  lemma TimelineExactly(input: Inputs, sections: seq<Section>)
    ensures Timeline(sections, input.duration)
      <==> sections != [] && sections[0].start == 0 && sections[|sections| - 1].end == input.duration
           && forall k :: 0 <= k < |sections| ==> Meets(sections, k)
  {
    if Timeline(sections, input.duration) {
      assert Follows(sections, 0);
      forall k | 0 <= k < |sections| ensures Meets(sections, k) {
        assert Follows(sections, k);
      }
    }
    if sections != [] && sections[0].start == 0 && forall k :: 0 <= k < |sections| ==> Meets(sections, k) {
      forall k | 0 <= k < |sections| ensures Follows(sections, k) {
        assert Meets(sections, k);
      }
    }
  }

  /** Validation accepts exactly what the rule allows. */
  lemma ValidExactly(input: Inputs, c: Content)
    ensures ContentOk(input, c) <==> ContentRule(input, c)
  {
    FilledInExactly(c.title, 1000);
    FilledInExactly(c.caption, 1000);
    TimelineExactly(input, c.sections);
    HashtagsExactly(c.hashtags);
    SectionsExactly(input, c.sections);
  }

  /** Whatever is generated, edited or revised, every stored version of every run keeps to the rule. */
  lemma StoredVersionsKeepTheRule(input: Inputs, r: Run, v: nat)
    requires input.Valid() && Reachable(RulesOf(input), r) && v < |r.versions|
    ensures ContentRule(input, r.versions[v].content)
  {
    ReachableIsSound(RulesOf(input), r);
    assert VersionOk(RulesOf(input), r.versions, v);
    ValidExactly(input, r.versions[v].content);
  }

  // ---------------------------------------------------------------- score

  /** The last section speaks of following, saving, playing or commenting, in any case. */
  ghost predicate CallsOut(input: Inputs, c: Content) {
    exists k :: 0 <= k < |c.sections| && c.sections[k].purpose == "cta"
      && Urges(Fold(input.fold, c.sections[k].voiceover))
  }

  predicate Urges(said: string) {
    Contains(said, "follow") || Contains(said, "save") || Contains(said, "play") || Contains(said, "comment")
  }

  /** The first section is the hook, and from its first to its last visible character it says twelve or more. */
  ghost predicate OpensWithHook(c: Content) {
    c.sections != [] && c.sections[0].purpose == "hook" && Extends(c.sections[0].voiceover)
  }

  ghost predicate Extends(s: string) {
    exists i, j :: 0 <= i < j < |s| && j - i >= 11 && !IsSpace(s[i]) && !IsSpace(s[j])
  }

  lemma {:induction false} StripLeftExtends(s: string)
    ensures Extends(StripLeft(s)) <==> Extends(s)
    ensures StripLeft(s) != [] ==> !IsSpace(StripLeft(s)[0])
  {
    if s != [] && IsSpace(s[0]) {
      StripLeftExtends(s[1..]);
      if i, j :| 0 <= i < j < |s| && j - i >= 11 && !IsSpace(s[i]) && !IsSpace(s[j]) {
        assert s[1..][i - 1] == s[i] && s[1..][j - 1] == s[j];
      }
    }
  }

  lemma {:induction false} StripRightExtends(s: string)
    ensures Extends(StripRight(s)) <==> Extends(s)
    ensures StripRight(s) <= s && (StripRight(s) != [] ==> !IsSpace(StripRight(s)[|StripRight(s)| - 1]))
  {
    if s != [] && IsSpace(s[|s| - 1]) {
      var front := s[..|s| - 1];
      StripRightExtends(front);
      if i, j :| 0 <= i < j < |s| && j - i >= 11 && !IsSpace(s[i]) && !IsSpace(s[j]) {
        assert front[i] == s[i] && front[j] == s[j];
      }
    }
  }

  lemma StrippedExtends(s: string)
    ensures Extends(s) <==> |Strip(s)| >= 12
  {
    StripLeftExtends(s);
    StripRightExtends(StripLeft(s));
  }

  ghost predicate Spans(c: Content) {
    c.sections != [] && c.sections[0].start == 0 && c.sections[|c.sections| - 1].end == c.duration
  }

  /** Some section cites a fact, and some section cites the signal. */
  ghost predicate Cites(c: Content) {
    && (exists s :: s in c.sections && s.members != [])
    && (exists s :: s in c.sections && s.signals != [])
  }

  ghost predicate Serves(c: Content, purpose: string) {
    exists s :: s in c.sections && s.purpose == purpose
  }

  ghost predicate HasAllParts(c: Content) {
    Serves(c, "hook") && Serves(c, "setup") && Serves(c, "proof") && Serves(c, "payoff") && Serves(c, "cta")
  }

  lemma CallsOutExactly(input: Inputs, c: Content)
    ensures CallsOut(input, c) <==> CallHolds(input, c.sections)
  {
    forall k | 0 <= k < |c.sections|
      ensures CallsToAction(input, c.sections[k])
        <==> c.sections[k].purpose == "cta" && Urges(Fold(input.fold, c.sections[k].voiceover)) {
      UrgesExactly(Fold(input.fold, c.sections[k].voiceover));
    }
  }

  lemma UrgesExactly(said: string)
    ensures Urges(said) <==> exists w :: 0 <= w < |ACTION_WORDS| && Contains(said, ACTION_WORDS[w])
  {
    assert |ACTION_WORDS| == 4 && ACTION_WORDS[0] == "follow" && ACTION_WORDS[1] == "save";
    assert ACTION_WORDS[2] == "play" && ACTION_WORDS[3] == "comment";
  }

  lemma ServesExactly(c: Content, p: nat)
    requires p < |STRUCTURE|
    ensures Serves(c, STRUCTURE[p]) <==> HasPurpose(c.sections, STRUCTURE[p])
  {
    if s :| s in c.sections && s.purpose == STRUCTURE[p] {
      var k :| 0 <= k < |c.sections| && c.sections[k] == s;
    }
  }

  lemma PartsExactly(c: Content)
    ensures HasAllParts(c) <==> StructureHolds(c.sections)
  {
    assert |STRUCTURE| == 5 && STRUCTURE[0] == "hook" && STRUCTURE[1] == "setup" && STRUCTURE[2] == "proof";
    assert STRUCTURE[3] == "payoff" && STRUCTURE[4] == "cta";
    forall p | 0 <= p < |STRUCTURE| ensures Serves(c, STRUCTURE[p]) <==> HasPurpose(c.sections, STRUCTURE[p]) {
      ServesExactly(c, p);
    }
    if StructureHolds(c.sections) {
      assert HasPurpose(c.sections, STRUCTURE[0]) && HasPurpose(c.sections, STRUCTURE[1])
        && HasPurpose(c.sections, STRUCTURE[2]);
      assert HasPurpose(c.sections, STRUCTURE[3]) && HasPurpose(c.sections, STRUCTURE[4]);
    }
  }

  lemma CitesExactly(c: Content)
    ensures Cites(c) <==> EvidenceHolds(c.sections)
  {
  }

  /**
   * The points that a script loses: twenty for time, hook and citations, fifteen for call and parts, ten for validity.
   */
  ghost function Lost(input: Inputs, c: Content): nat {
    (if Spans(c) then 0 else 20) + (if OpensWithHook(c) then 0 else 20) + (if Cites(c) then 0 else 20)
    + (if CallsOut(input, c) then 0 else 15) + (if HasAllParts(c) then 0 else 15)
      + (if ContentRule(input, c) then 0 else 10)
  }

  /** The score is a hundred less the points lost. */
  lemma ScoreExactly(input: Inputs, c: Content)
    ensures ScoreOf(input, c).Score() + Lost(input, c) == 100
  {
    CallsOutExactly(input, c);
    if c.sections != [] {
      StrippedExtends(c.sections[0].voiceover);
    }
    PartsExactly(c);
    CitesExactly(c);
    ValidExactly(input, c);
  }

  // ---------------------------------------------------------------- the template

  /** `name` is the value of the last fact that names the game. */
  ghost predicate Names(facts: seq<Fact>, name: string) {
    (exists f: nat :: NamesLast(facts, f, name)) || (Unnamed(facts) && name == "the game")
  }

  ghost predicate NamesLast(facts: seq<Fact>, f: nat, name: string) {
    && f < |facts| && facts[f].predicate_ == "game.name" && facts[f].value == name
    && forall g :: f < g < |facts| ==> facts[g].predicate_ != "game.name"
  }

  ghost predicate Unnamed(facts: seq<Fact>) {
    forall f :: 0 <= f < |facts| ==> facts[f].predicate_ != "game.name"
  }

  lemma NamesNext(front: seq<Fact>, last: Fact, name: string)
    requires Names(front, name)
    ensures Names(front + [last], if last.predicate_ == "game.name" then last.value else name)
  {
    var facts := front + [last];
    if last.predicate_ == "game.name" {
      assert NamesLast(facts, |front|, last.value);
    } else if f: nat :| NamesLast(front, f, name) {
      assert NamesLast(facts, f, name);
    }
  }

  lemma {:induction false} NameExactly(facts: seq<Fact>)
    ensures Names(facts, GameName(facts))
  {
    if facts != [] {
      var front, last := facts[..|facts| - 1], facts[|facts| - 1];
      NameExactly(front);
      NamesNext(front, last, GameName(front));
      assert front + [last] == facts;
    }
  }

  /** The section shows the fact, speaks of it and cites it alone. */
  ghost predicate States(s: Section, f: Fact) {
    s.onScreen == f.value && Contains(s.voiceover, f.value) && s.members == [f.member]
  }

  ghost predicate Presents(s: Section, name: string) {
    s.onScreen == name && Contains(s.voiceover, name)
  }

  /**
   * What the template says it also cites: one section states the first fact and the next one the second, if there is
   * one; the hook shows the trend, the angle is spoken, and the game goes by its approved name.
   */
  lemma TemplateStatesFacts(input: Inputs, name: string)
    requires input.facts != [] && name == Template(input).sections[1].onScreen
    ensures var c := Template(input);
      && Names(input.facts, name) && Presents(c.sections[1], name)
      && Contains(c.title, name) && Contains(c.title, input.signalTitle) && Contains(c.caption, name)
      && States(c.sections[2], input.facts[0])
      && States(c.sections[3], input.facts[if |input.facts| > 1 then 1 else 0])
      && c.sections[0].voiceover == input.hook && c.sections[0].onScreen == input.signalTitle
      && Contains(c.sections[3].voiceover, input.angle) && Contains(c.sections[4].voiceover, name)
  {
    var first, proof := input.facts[0], input.facts[if |input.facts| > 1 then 1 else 0];
    NameExactly(input.facts);
    ContainsMiddle("Meet ", name, SETUP_VOICE_END);
    ContainsEnds(name, ": ", input.signalTitle);
    ContainsMiddle("Why ", name, CAPTION_END);
    ContainsMiddle(PROOF_VOICE_START + Spaced(first.predicate_) + ": ", first.value, ".");
    ContainsBoth(PAYOFF_VOICE_START, input.angle, PAYOFF_VOICE_MIDDLE, proof.value, ".");
    ContainsBoth(CTA_VOICE_START, name, CTA_VOICE_MIDDLE, FOLLOW, CTA_VOICE_END);
  }

  /** `t` is `s` with its dots replaced by spaces. */
  ghost predicate Undotted(s: string, t: string) {
    |t| == |s| && forall i :: 0 <= i < |s| ==> t[i] == if s[i] == '.' then ' ' else s[i]
  }

  lemma {:induction false} SpacedExactly(s: string)
    ensures Undotted(s, Spaced(s))
  {
    if s != [] {
      SpacedExactly(s[1..]);
    }
  }

  /** The proof section speaks of the first fact by its predicate, whose dots it reads as spaces. */
  lemma ProofNamesPredicate(input: Inputs) returns (said: string)
    requires input.facts != []
    ensures Undotted(input.facts[0].predicate_, said) && Contains(Template(input).sections[2].voiceover, said)
  {
    said := Spaced(input.facts[0].predicate_);
    SpacedExactly(input.facts[0].predicate_);
    ContainsBoth(PROOF_VOICE_START, said, ": ", input.facts[0].value, ".");
  }

  predicate WordCharacter(isAlnum: char -> bool, c: char) {
    c == '_' || isAlnum(c)
  }

  /** `t` holds the word characters of `s` in order; `at` says where they stand. */
  ghost predicate Filters(isAlnum: char -> bool, s: string, t: string, at: seq<nat>) {
    && |at| == |t| && (forall i, j :: 0 <= i < j < |at| ==> at[i] < at[j])
    && (forall i :: 0 <= i < |at| ==> at[i] < |s| && t[i] == s[at[i]])
    && forall k: nat :: k < |s| ==> (WordCharacter(isAlnum, s[k]) <==> k in at)
  }

  lemma {:induction false} CleanedNext(isAlnum: char -> bool, s: string, c: char)
    ensures Alphanumeric(isAlnum, s + [c])
      == Alphanumeric(isAlnum, s) + if WordCharacter(isAlnum, c) then [c] else []
  {
    var longer := s + [c];
    if s == [] {
      assert longer[1..] == [];
    } else {
      CleanedNext(isAlnum, s[1..], c);
      assert longer[1..] == s[1..] + [c];
    }
  }

  lemma FiltersNext(isAlnum: char -> bool, s: string, t: string, at: seq<nat>, c: char)
    requires Filters(isAlnum, s, t, at)
    ensures if WordCharacter(isAlnum, c) then Filters(isAlnum, s + [c], t + [c], at + [|s|])
      else Filters(isAlnum, s + [c], t, at)
  {
  }

  lemma {:induction false} CleanedExactly(isAlnum: char -> bool, s: string) returns (at: seq<nat>)
    ensures Filters(isAlnum, s, Alphanumeric(isAlnum, s), at)
  {
    if s == [] {
      return [];
    }
    var front, last := s[..|s| - 1], s[|s| - 1];
    at := CleanedExactly(isAlnum, front);
    CleanedNext(isAlnum, front, last);
    FiltersNext(isAlnum, front, Alphanumeric(isAlnum, front), at, last);
    assert front + [last] == s;
    if WordCharacter(isAlnum, last) {
      at := at + [|front|];
    }
  }

  /** The first hashtag is made of the word characters of the signal's title, if it has any. */
  lemma HashtagOfTitle(input: Inputs) returns (tag: string, at: seq<nat>)
    requires input.facts != []
    ensures Filters(input.isAlnum, input.signalTitle, tag, at)
    ensures Template(input).hashtags == [if tag == "" then "#GameTrend" else "#" + tag, "#Gaming", "#GameTok"]
  {
    tag := Alphanumeric(input.isAlnum, input.signalTitle);
    at := CleanedExactly(input.isAlnum, input.signalTitle);
  }

  lemma ContainsEnds(a: string, b: string, c: string)
    ensures Contains(a + b + c, a) && Contains(a + b + c, c)
  {
    assert OccursAt(a + b + c, a, 0) && OccursAt(a + b + c, c, |a + b|);
  }

  lemma ContainsBoth(a: string, v: string, b: string, w: string, c: string)
    ensures Contains(a + v + b + w + c, v) && Contains(a + v + b + w + c, w)
  {
    ContainsMiddle(a + v + b, w, c);
    assert OccursAt(a + v + b + w + c, v, |a|);
  }

  // ---------------------------------------------------------------- the commands

  ghost predicate VersionKeyUnused(r: Run, key: string) {
    forall i :: 0 <= i < |r.versions| ==> r.versions[i].key != key
  }

  /** Evaluation `e` is the last one of version `v`. */
  ghost predicate LastEvaluation(r: Run, v: nat, e: nat) {
    && e < |r.evaluations| && r.evaluations[e].version == v
    && forall i :: 0 <= i < |r.evaluations| && r.evaluations[i].version == v ==> i <= e
  }

  /** Review `i` is the last one that approves version `v`. */
  ghost predicate LastApproval(r: Run, v: nat, i: nat) {
    && i < |r.reviews| && r.reviews[i].version == v && r.reviews[i].decision == ApproveFinal
    && forall j :: 0 <= j < |r.reviews| && r.reviews[j].version == v && r.reviews[j].decision == ApproveFinal ==> j <= i
  }

  ghost function AutoRevisions(versions: seq<Version>): set<nat> {
    set i: nat | i < |versions| && versions[i].origin == AutoRevision
  }

  lemma {:induction false} RevisionsAreCounted(versions: seq<Version>)
    ensures Revisions(versions) == |AutoRevisions(versions)|
  {
    if versions != [] {
      var n := |versions| - 1;
      RevisionsAreCounted(versions[..n]);
      if versions[n].origin == AutoRevision {
        assert AutoRevisions(versions) == AutoRevisions(versions[..n]) + {n};
      } else {
        assert AutoRevisions(versions) == AutoRevisions(versions[..n]);
      }
    }
  }

  lemma LatestEvaluationExactly(r: Run, v: nat, e: nat)
    ensures LastEvaluation(r, v, e) <==> LatestEvaluation(r.evaluations, v) == Some(e)
    ensures LatestEvaluation(r.evaluations, v) == None <==> forall i: nat :: !LastEvaluation(r, v, i)
  {
    var latest := LatestEvaluation(r.evaluations, v);
    if latest.Some? {
      assert LastEvaluation(r, v, latest.value);
    }
  }

  lemma {:induction false} LatestApprovalIsLast(reviews: seq<FinalReview>, v: nat, i: nat)
    requires i < |reviews| && reviews[i].version == v && reviews[i].decision == ApproveFinal
    ensures LatestApproval(reviews, v).Some? && i <= LatestApproval(reviews, v).value
  {
    if i < |reviews| - 1 {
      LatestApprovalIsLast(reviews[..|reviews| - 1], v, i);
    }
  }

  lemma LatestApprovalExactly(r: Run, v: nat, i: nat)
    ensures LastApproval(r, v, i) <==> LatestApproval(r.reviews, v) == Some(i)
    ensures LatestApproval(r.reviews, v).Some? ==> LastApproval(r, v, LatestApproval(r.reviews, v).value)
  {
    forall j | 0 <= j < |r.reviews| && r.reviews[j].version == v && r.reviews[j].decision == ApproveFinal
      ensures LatestApproval(r.reviews, v).Some? && j <= LatestApproval(r.reviews, v).value {
      LatestApprovalIsLast(r.reviews, v, j);
    }
  }

  /** The run with one more version, the child of the one before. */
  ghost predicate AddsVersion(r: Run, s: Run, origin: Origin, content: Content, author: string, key: string) {
    && s == r.(versions := s.versions) && |s.versions| == |r.versions| + 1 && s.versions[..|r.versions|] == r.versions
    && s.versions[|r.versions|] == Version(|r.versions| + 1, if r.versions == [] then None else Some(|r.versions| - 1),
                                           origin, content, author, key)
  }

  lemma NextIsNumbered(rules: Rules, r: Run, origin: Origin, content: Content, author: string, key: string)
    requires Reachable(rules, r)
    ensures AddsVersion(r, Adding(r, Next(r, origin, content, author, key)), origin, content, author, key)
  {
    ChainIsBounded(rules, r);
  }

  /** The first version can be generated once, if the template is valid. */
  lemma GenerateExactly(rules: Rules, r: Run, author: string, key: string)
    requires Reachable(rules, r) && VersionKeyUnused(r, key)
    ensures var (s, reply) := CreateVersion(rules, r, None, author, key);
      && (reply.Success? <==> r.versions == [] && rules.valid(rules.template))
      && (reply.Success? ==> reply.value == (0, true) && AddsVersion(r, s, Generated, rules.template, author, key))
      && (r.versions != [] ==> reply == Failure(AlreadyGenerated))
  {
    NextIsNumbered(rules, r, Generated, rules.template, author, key);
  }

  /** An edit needs a version to build on and valid content. */
  lemma EditExactly(rules: Rules, r: Run, content: Content, author: string, key: string)
    requires Reachable(rules, r) && VersionKeyUnused(r, key)
    ensures var (s, reply) := CreateVersion(rules, r, Some(content), author, key);
      && (reply.Success? <==> r.versions != [] && rules.valid(content))
      && (reply.Success? ==> reply.value == (|r.versions|, true) && AddsVersion(r, s, HumanEdit, content, author, key))
      && (r.versions == [] ==> reply == Failure(NothingToEdit))
  {
    NextIsNumbered(rules, r, HumanEdit, content, author, key);
  }

  /** An evaluation judges the stored content of its version. */
  lemma EvaluateExactly(rules: Rules, r: Run, v: nat, key: string)
    requires forall i :: 0 <= i < |r.evaluations| ==> r.evaluations[i].key != key
    ensures var (s, reply) := Evaluate(rules, r, v, key);
      && (reply.Success? <==> v < |r.versions|)
      && (reply.Success? ==>
            && reply.value == (|r.evaluations|, true) && s == r.(evaluations := s.evaluations)
            && |s.evaluations| == |r.evaluations| + 1 && s.evaluations[..|r.evaluations|] == r.evaluations
            && LastEvaluation(s, v, |r.evaluations|)
            && s.evaluations[|r.evaluations|].report == rules.report(r.versions[v].content)
            && (s.evaluations[|r.evaluations|].passed
                <==> rules.report(r.versions[v].content).Score() >= rules.threshold)
            && s.evaluations[|r.evaluations|].key == key)
  {
  }

  /** An automatic revision needs a last version whose last evaluation failed, a budget left, and a valid template. */
  lemma ReviseExactly(rules: Rules, r: Run, author: string, key: string)
    requires Reachable(rules, r) && VersionKeyUnused(r, key)
    ensures var (s, reply) := Revise(rules, r, author, key);
      && (reply.Success? <==>
            && r.versions != []
            && (exists e: nat :: LastEvaluation(r, |r.versions| - 1, e) && !r.evaluations[e].passed)
            && |AutoRevisions(r.versions)| < rules.budget && rules.valid(rules.template))
      && (reply.Success?
          ==> reply.value == (|r.versions|, true) && AddsVersion(r, s, AutoRevision, rules.template, author, key))
  {
    RevisionsAreCounted(r.versions);
    NextIsNumbered(rules, r, AutoRevision, rules.template, author, key);
    if r.versions != [] {
      var v := |r.versions| - 1;
      var latest := LatestEvaluation(r.evaluations, v);
      LatestEvaluationExactly(r, v, if latest.Some? then latest.value else 0);
      if e: nat :| LastEvaluation(r, v, e) && !r.evaluations[e].passed {
        LatestEvaluationExactly(r, v, e);
      }
    }
  }

  /**
   * A final review needs an evaluated version, and to approve it, one whose last evaluation passed; it is bound to that
   * one.
   */
  lemma FinalReviewExactly(r: Run, v: nat, decision: FinalDecision, reason: string, reviewer: string, key: string)
    requires forall i :: 0 <= i < |r.reviews| ==> r.reviews[i].key != key
    ensures var (s, reply) := Review(r, v, decision, reason, reviewer, key);
      && (reply.Success? <==>
            && v < |r.versions|
            && exists e: nat :: LastEvaluation(r, v, e) && (decision == ApproveFinal ==> r.evaluations[e].passed))
      && (reply.Success? ==>
            && reply.value == (|r.reviews|, true) && s == r.(reviews := s.reviews) && |s.reviews| == |r.reviews| + 1
            && s.reviews[..|r.reviews|] == r.reviews
            && var f := s.reviews[|r.reviews|];
            && f.version == v && LastEvaluation(r, v, f.evaluation) && f.decision == decision
            && f.reason == reason && f.reviewer == reviewer && f.key == key)
  {
    var latest := LatestEvaluation(r.evaluations, v);
    LatestEvaluationExactly(r, v, if latest.Some? then latest.value else 0);
    if e: nat :| LastEvaluation(r, v, e) && (decision == ApproveFinal ==> r.evaluations[e].passed) {
      LatestEvaluationExactly(r, v, e);
    }
  }

  /** An export is bound to the last approving review of its version and carries the version's content. */
  lemma ExportExactly(r: Run, v: nat, format: Format, key: string)
    requires forall i :: 0 <= i < |r.exports| ==> r.exports[i].key != key
    ensures var (s, reply) := Publish(r, v, format, key);
      && (reply.Success? <==> v < |r.versions| && exists i: nat :: LastApproval(r, v, i))
      && (reply.Success? ==>
            && reply.value == (|r.exports|, true) && s == r.(exports := s.exports) && |s.exports| == |r.exports| + 1
            && s.exports[..|r.exports|] == r.exports
            && var x := s.exports[|r.exports|];
            && x.version == v && LastApproval(r, v, x.review) && x.format == format
            && x.payload == r.versions[v].content && x.key == key)
  {
    var latest := LatestApproval(r.reviews, v);
    LatestApprovalExactly(r, v, if latest.Some? then latest.value else 0);
    if i: nat :| LastApproval(r, v, i) {
      LatestApprovalExactly(r, v, i);
    }
  }
}
