/** Script content: what validation accepts, how it is scored, and the deterministic template. */
module ScriptContent {
  import opened Prelude

  datatype Section = Section(
    start: int, end: int, purpose: string, voiceover: string, onScreen: string, visual: string,
    members: seq<string>, signals: seq<string>)

  datatype Content = Content(
    schemaVersion: string, platform: string, language: string, duration: int, title: string, caption: string,
    hashtags: seq<string>, sections: seq<Section>)

  /** One member of the frozen snapshot, as the template reads it. */
  datatype Fact = Fact(member: string, predicate_: string, value: string)

  /** The frozen lineage of one script run; the last three stand for JSON size, `casefold` and `isalnum`. */
  datatype Inputs = Inputs(
    duration: nat, budget: nat, threshold: nat, hook: string, angle: string, signal: string, signalTitle: string,
    facts: seq<Fact>, bytes: Content -> nat, fold: char -> string, isAlnum: char -> bool)
  {
    /** What `create_task` and `create_run` check; a published snapshot is never empty. */
    predicate Valid() {
      5 <= duration <= 180 && budget <= 5 && 1 <= threshold <= 100 && facts != []
    }

    function Members(): set<string> {
      set i | 0 <= i < |facts| :: facts[i].member
    }
  }

  const SCHEMA_VERSION := "tiktok-script-v1"
  const MAX_CONTENT_BYTES: nat := 65536

  // ---------------------------------------------------------------- validation

  predicate TextOk(s: string, limit: nat) {
    !Blank(s) && |s| <= limit
  }

  predicate HeaderOk(input: Inputs, c: Content) {
    && input.bytes(c) <= MAX_CONTENT_BYTES
    && c.schemaVersion == SCHEMA_VERSION && c.platform == "TikTok" && c.language == "en"
    && c.duration == input.duration
    && TextOk(c.title, 1000) && TextOk(c.caption, 1000)
    && 1 <= |c.hashtags| <= 12 && (forall i :: 0 <= i < |c.hashtags| ==> HashtagOk(c.hashtags[i]))
    && 3 <= |c.sections| <= 12
  }

  predicate HashtagOk(tag: string) {
    "#" <= tag && |tag| <= 80
  }

  /** Texts are filled in and every reference stays inside the frozen snapshot and the approved signal. */
  predicate SectionOk(input: Inputs, s: Section) {
    && TextOk(s.purpose, 2000) && TextOk(s.voiceover, 2000) && TextOk(s.onScreen, 2000) && TextOk(s.visual, 2000)
    && (forall i :: 0 <= i < |s.members| ==> s.members[i] in input.Members())
    && (forall i :: 0 <= i < |s.signals| ==> s.signals[i] == input.signal)
  }

  /** Section `k` starts where its predecessor ends and is not empty. */
  predicate Follows(sections: seq<Section>, k: nat)
    requires k < |sections|
  {
    sections[k].start == (if k == 0 then 0 else sections[k - 1].end) < sections[k].end
  }

  ghost predicate Timeline(sections: seq<Section>, duration: int) {
    && sections != [] && sections[|sections| - 1].end == duration
    && forall k :: 0 <= k < |sections| ==> Follows(sections, k)
  }

  ghost predicate SectionsOk(input: Inputs, sections: seq<Section>) {
    forall k :: 0 <= k < |sections| ==> SectionOk(input, sections[k])
  }

  ghost predicate ContentOk(input: Inputs, c: Content) {
    HeaderOk(input, c) && Timeline(c.sections, input.duration) && SectionsOk(input, c.sections)
  }

  /** The loop of `_validate_content`, which carries the previous end along. */
  method ValidateSections(input: Inputs, sections: seq<Section>) returns (ok: bool)
    requires sections != []
    ensures ok <==> Timeline(sections, input.duration) && SectionsOk(input, sections)
  {
    var previous := 0;
    for k := 0 to |sections|
      invariant previous == if k == 0 then 0 else sections[k - 1].end
      invariant forall j :: 0 <= j < k ==> Follows(sections, j)
      invariant forall j :: 0 <= j < k ==> SectionOk(input, sections[j])
    {
      if sections[k].start != previous || sections[k].end <= previous {
        assert !Follows(sections, k);
        return false;
      }
      previous := sections[k].end;
      if !SectionOk(input, sections[k]) {
        return false;
      }
    }
    return previous == input.duration;
  }

  /** `_validate_content` */
  method ValidateContent(input: Inputs, c: Content) returns (ok: bool)
    ensures ok <==> ContentOk(input, c)
  {
    if !HeaderOk(input, c) {
      return false;
    }
    ok := ValidateSections(input, c.sections);
  }

  lemma {:induction false} EndsIncrease(sections: seq<Section>, duration: int, j: nat, k: nat)
    requires Timeline(sections, duration) && j < k < |sections|
    ensures 0 <= sections[j].start < sections[j].end <= sections[k].start
    decreases j + k
  {
    assert Follows(sections, j) && Follows(sections, k);
    if j > 0 {
      EndsIncrease(sections, duration, j - 1, j);
    }
    if j + 1 < k {
      EndsIncrease(sections, duration, j, k - 1);
      assert Follows(sections, k - 1);
    }
  }

  predicate Shows(s: Section, t: int) {
    s.start <= t < s.end
  }

  lemma {:induction false} SomeSectionShows(sections: seq<Section>, duration: int, t: nat, n: nat)
    requires Timeline(sections, duration) && 0 < n <= |sections| && t < sections[n - 1].end
    ensures exists k :: 0 <= k < n && Shows(sections[k], t)
  {
    assert Follows(sections, n - 1);
    if sections[n - 1].start <= t {
      assert Shows(sections[n - 1], t);
    } else {
      SomeSectionShows(sections, duration, t, n - 1);
    }
  }

  /** The sections of valid content tile the requested duration: every second is shown by exactly one of them. */
  lemma ValidContentTiles(input: Inputs, c: Content, t: nat)
    requires ContentOk(input, c) && t < input.duration
    ensures exists k :: 0 <= k < |c.sections| && Shows(c.sections[k], t)
    ensures forall j, k :: 0 <= j < k < |c.sections| ==> !(Shows(c.sections[j], t) && Shows(c.sections[k], t))
  {
    SomeSectionShows(c.sections, input.duration, t, |c.sections|);
    forall j, k | 0 <= j < k < |c.sections| ensures !(Shows(c.sections[j], t) && Shows(c.sections[k], t)) {
      EndsIncrease(c.sections, input.duration, j, k);
    }
  }

  // ---------------------------------------------------------------- scoring

  /** The six dimensions of a quality report, each passed or failed. */
  datatype Report = Report(timeline: bool, hook: bool, evidence: bool, cta: bool, structure: bool, safety: bool) {
    function Score(): nat {
      (if timeline then 20 else 0) + (if hook then 20 else 0) + (if evidence then 20 else 0)
      + (if cta then 15 else 0) + (if structure then 15 else 0) + (if safety then 10 else 0)
    }
  }

  function StripLeft(s: string): string {
    if s != [] && IsSpace(s[0]) then StripLeft(s[1..]) else s
  }

  function StripRight(s: string): string {
    if s != [] && IsSpace(s[|s| - 1]) then StripRight(s[..|s| - 1]) else s
  }

  /** `str.strip` */
  function Strip(s: string): string {
    StripRight(StripLeft(s))
  }

  /** `str.casefold`, which folds character by character. */
  function Fold(fold: char -> string, s: string): string {
    if s == [] then [] else fold(s[0]) + Fold(fold, s[1..])
  }

  const FOLLOW := "follow"
  const ACTION_WORDS: seq<string> := [FOLLOW, "save", "play", "comment"]
  const STRUCTURE: seq<string> := ["hook", "setup", "proof", "payoff", "cta"]

  predicate CallsToAction(input: Inputs, s: Section) {
    && s.purpose == "cta"
    && exists w :: 0 <= w < |ACTION_WORDS| && Contains(Fold(input.fold, s.voiceover), ACTION_WORDS[w])
  }

  predicate HasPurpose(sections: seq<Section>, purpose: string) {
    exists k :: 0 <= k < |sections| && sections[k].purpose == purpose
  }

  predicate TimelineHolds(c: Content) {
    c.sections != [] && c.sections[0].start == 0 && c.sections[|c.sections| - 1].end == c.duration
  }

  predicate HookHolds(s: seq<Section>) {
    s != [] && s[0].purpose == "hook" && |Strip(s[0].voiceover)| >= 12
  }

  predicate EvidenceHolds(s: seq<Section>) {
    (exists k :: 0 <= k < |s| && s[k].members != []) && (exists k :: 0 <= k < |s| && s[k].signals != [])
  }

  predicate CallHolds(input: Inputs, s: seq<Section>) {
    exists k :: 0 <= k < |s| && CallsToAction(input, s[k])
  }

  predicate StructureHolds(s: seq<Section>) {
    forall p :: 0 <= p < |STRUCTURE| ==> HasPurpose(s, STRUCTURE[p])
  }

  /** `_score` */
  ghost function ScoreOf(input: Inputs, c: Content): Report {
    Report(TimelineHolds(c), HookHolds(c.sections), EvidenceHolds(c.sections), CallHolds(input, c.sections),
           StructureHolds(c.sections), ContentOk(input, c))
  }

  function Purposes(s: seq<Section>): set<string> {
    set k | 0 <= k < |s| :: s[k].purpose
  }

  lemma PurposesDecide(s: seq<Section>)
    ensures (forall p :: p in STRUCTURE ==> p in Purposes(s)) <==> StructureHolds(s)
  {
    forall p | 0 <= p < |STRUCTURE| ensures HasPurpose(s, STRUCTURE[p]) <==> STRUCTURE[p] in Purposes(s) {
    }
    if StructureHolds(s) {
      forall p | p in STRUCTURE ensures p in Purposes(s) {
        var k :| 0 <= k < |STRUCTURE| && STRUCTURE[k] == p;
        assert HasPurpose(s, STRUCTURE[k]);
      }
    }
  }

  method Score(input: Inputs, c: Content) returns (r: Report)
    ensures r == ScoreOf(input, c)
  {
    var timeline := c.sections != [] && c.sections[0].start == 0 && c.sections[|c.sections| - 1].end == c.duration;
    var hook, cta, evidence, structure := ScoreSections(input, c.sections);
    var safety := ValidateContent(input, c);
    return Report(timeline, hook, evidence, cta, structure, safety);
  }

  /** The dimensions that look at the sections alone. */
  method ScoreSections(input: Inputs, s: seq<Section>) returns (hook: bool, cta: bool, evidence: bool, structure: bool)
    ensures hook == HookHolds(s) && cta == CallHolds(input, s) && evidence == EvidenceHolds(s)
      && structure == StructureHolds(s)
  {
    hook := s != [] && s[0].purpose == "hook" && |Strip(s[0].voiceover)| >= 12;
    cta := exists k :: 0 <= k < |s| && CallsToAction(input, s[k]);
    evidence := (exists k :: 0 <= k < |s| && s[k].members != []) && (exists k :: 0 <= k < |s| && s[k].signals != []);
    var purposes := Purposes(s);
    structure := forall p | p in STRUCTURE :: p in purposes;
    PurposesDecide(s);
  }

  // ---------------------------------------------------------------- the template

  /** `round(duration * index / 5)`: a fifth is never halfway between two integers. */
  function Cut(duration: nat, index: nat): nat {
    (2 * duration * index + 5) / 10
  }

  lemma CutIsNearest(duration: nat, index: nat)
    ensures -2 <= 5 * Cut(duration, index) - duration * index <= 2
  {
    var x := duration * index;
    assert 2 * duration * index == 2 * x;
  }

  function GameName(facts: seq<Fact>): string {
    if facts == [] then "the game"
    else if facts[|facts| - 1].predicate_ == "game.name" then facts[|facts| - 1].value
    else GameName(facts[..|facts| - 1])
  }

  function Spaced(s: string): string {
    if s == [] then [] else [if s[0] == '.' then ' ' else s[0]] + Spaced(s[1..])
  }

  function Alphanumeric(isAlnum: char -> bool, s: string): string {
    if s == [] then [] else (if isAlnum(s[0]) || s[0] == '_' then [s[0]] else []) + Alphanumeric(isAlnum, s[1..])
  }

  function Hashtag(input: Inputs): string {
    var cleaned := Alphanumeric(input.isAlnum, input.signalTitle);
    if cleaned != [] then "#" + cleaned else "#GameTrend"
  }

  // The template's fixed phrases.
  const CAPTION_END := " belongs on your watchlist. Source-backed, creator-ready."
  const HOOK_VISUAL :=
    "Open on the strongest approved gameplay or key-art beat; label it as official footage when used."
  const SETUP_VOICE_END := ". Here is the verified reason this trend fits the game."
  const SETUP_VISUAL := "Reveal the game name and establish the premise with official material."
  const PROOF_VOICE_START := "Official evidence confirms "
  const PROOF_VISUAL := "Show the matching official evidence or footage; do not add unverified claims."
  const PAYOFF_VOICE_START := "That makes this angle credible: "
  const PAYOFF_VOICE_MIDDLE := ". Verified detail: "
  const PAYOFF_VISUAL := "Deliver the payoff with fast cuts grounded in the cited snapshot."
  const CTA_TEXT := "Play, save, or follow?"
  const CTA_VISUAL := "End on approved key art and a clear engagement prompt."
  const CTA_VOICE_START := "Would you play "
  const CTA_VOICE_MIDDLE := "? Save this and "
  const CTA_VOICE_END := " for the next verified update."

  function CallVoice(game: string): string {
    CTA_VOICE_START + game + CTA_VOICE_MIDDLE + FOLLOW + CTA_VOICE_END
  }

  /** `_template`: five sections at the fifths of the duration. */
  function Template(input: Inputs): Content
    requires input.facts != []
  {
    var first := input.facts[0];
    var proof := if |input.facts| > 1 then input.facts[1] else first;
    var game := GameName(input.facts);
    var cut := (i: nat) => Cut(input.duration, i);
    Content(
      SCHEMA_VERSION, "TikTok", "en", input.duration,
      game + ": " + input.signalTitle,
      "Why " + game + CAPTION_END,
      [Hashtag(input), "#Gaming", "#GameTok"],
      [Section(cut(0), cut(1), "hook", input.hook, input.signalTitle,
         HOOK_VISUAL,
         [], [input.signal]),
       Section(cut(1), cut(2), "setup", "Meet " + game + SETUP_VOICE_END, game,
         SETUP_VISUAL, [first.member], [input.signal]),
       Section(cut(2), cut(3), "proof", PROOF_VOICE_START + Spaced(first.predicate_) + ": " + first.value + ".",
         first.value, PROOF_VISUAL, [first.member], []),
       Section(cut(3), cut(4), "payoff",
         PAYOFF_VOICE_START + input.angle + PAYOFF_VOICE_MIDDLE + proof.value + ".", proof.value,
         PAYOFF_VISUAL, [proof.member], [input.signal]),
       Section(cut(4), cut(5), "cta", CallVoice(game), CTA_TEXT,
         CTA_VISUAL, [first.member], [])])
  }

  /** The five cuts form a timeline exactly for durations of at least five seconds. */
  lemma TemplateTimelineIsExact(input: Inputs)
    requires input.facts != []
    ensures Timeline(Template(input).sections, input.duration) <==> input.duration >= 5
  {
    var s := Template(input).sections;
    if input.duration >= 5 {
      assert Follows(s, 0) && Follows(s, 1) && Follows(s, 2) && Follows(s, 3) && Follows(s, 4);
    } else {
      assert !Follows(s, 0) || !Follows(s, 1) || !Follows(s, 2);
    }
  }

  /** Case folding leaves lower-case ASCII letters alone. */
  ghost predicate KeepsLowerCase(fold: char -> string) {
    forall c :: 'a' <= c <= 'z' ==> fold(c) == [c]
  }

  lemma {:induction false} FoldConcat(fold: char -> string, a: string, b: string)
    ensures Fold(fold, a + b) == Fold(fold, a) + Fold(fold, b)
  {
    if a == [] {
      assert a + b == b;
    } else {
      var rest := a[1..];
      FoldConcat(fold, rest, b);
      assert (a + b)[0] == a[0] && (a + b)[1..] == rest + b;
      ConcatAssociates(fold(a[0]), Fold(fold, rest), Fold(fold, b));
    }
  }

  lemma ConcatAssociates(a: string, b: string, c: string)
    ensures a + (b + c) == (a + b) + c
  {
  }

  lemma {:induction false} FoldKeeps(fold: char -> string, w: string)
    requires KeepsLowerCase(fold) && forall i :: 0 <= i < |w| ==> 'a' <= w[i] <= 'z'
    ensures Fold(fold, w) == w
  {
    if w != [] {
      FoldKeeps(fold, w[1..]);
      assert w == [w[0]] + w[1..];
    }
  }

  lemma ContainsMiddle(a: string, w: string, b: string)
    ensures Contains(a + w + b, w)
  {
    assert (a + w + b)[|a|..|a| + |w|] == w;
    assert OccursAt(a + w + b, w, |a|);
  }

  lemma FoldedContains(fold: char -> string, a: string, w: string, b: string)
    requires KeepsLowerCase(fold) && forall i :: 0 <= i < |w| ==> 'a' <= w[i] <= 'z'
    ensures Contains(Fold(fold, a + w + b), w)
  {
    FoldConcat(fold, a + w, b);
    FoldConcat(fold, a, w);
    FoldKeeps(fold, w);
    ContainsMiddle(Fold(fold, a), w, Fold(fold, b));
  }

  lemma TemplateCallsToAction(input: Inputs, s: Section, game: string)
    requires KeepsLowerCase(input.fold) && s.purpose == "cta" && s.voiceover == CallVoice(game)
    ensures CallsToAction(input, s)
  {
    assert ACTION_WORDS[0] == FOLLOW;
    FoldedContains(input.fold, CTA_VOICE_START + game + CTA_VOICE_MIDDLE, FOLLOW, CTA_VOICE_END);
  }

  /** The five purposes in order, the candidate's hook first, cited sections, and a call to action. */
  ghost predicate Shaped(input: Inputs, c: Content) {
    && |c.sections| == |STRUCTURE| && (forall p :: 0 <= p < |STRUCTURE| ==> c.sections[p].purpose == STRUCTURE[p])
    && c.sections[0].voiceover == input.hook
    && c.sections[0].signals != [] && c.sections[1].members != []
    && CallsToAction(input, c.sections[4])
  }

  lemma TemplateIsShaped(input: Inputs)
    requires input.facts != [] && KeepsLowerCase(input.fold)
    ensures Shaped(input, Template(input))
  {
    TemplateCallsToAction(input, Template(input).sections[4], GameName(input.facts));
  }

  lemma ShapedScores(input: Inputs, c: Content)
    requires Shaped(input, c) && ContentOk(input, c)
    ensures ScoreOf(input, c).Score() == if |Strip(input.hook)| >= 12 then 100 else 80
  {
    var s := c.sections;
    assert Follows(s, 0);
    assert s[0].purpose == STRUCTURE[0];
    assert s[0].signals != [] && s[1].members != [];
    assert CallsToAction(input, s[4]);
    forall p | 0 <= p < |STRUCTURE| ensures HasPurpose(s, STRUCTURE[p]) {
      assert s[p].purpose == STRUCTURE[p];
    }
  }

  /** A valid template passes every dimension; only a hook shorter than twelve characters costs it twenty points. */
  lemma TemplateScores(input: Inputs, c: Content)
    requires input.facts != [] && KeepsLowerCase(input.fold) && c == Template(input) && ContentOk(input, c)
    ensures ScoreOf(input, c).Score() == if |Strip(input.hook)| >= 12 then 100 else 80
  {
    TemplateIsShaped(input);
    ShapedScores(input, c);
  }

  /** The hook of every stored topic candidate. */
  function TopicHook(signalTitle: string, game: string): string {
    "What if \U{201c}" + signalTitle + "\U{201d} happened inside " + game + "?"
  }

  lemma TopicHooksAreLongEnough(signalTitle: string, game: string)
    ensures |Strip(TopicHook(signalTitle, game))| >= 12
  {
    var h := TopicHook(signalTitle, game);
    assert h[0] == 'W' && h[|h| - 1] == '?';
    assert Strip(h) == h;
  }
}
