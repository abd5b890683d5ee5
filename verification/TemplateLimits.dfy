/** When the deterministic template passes its own validation, and what happens to a run for which it does not. */
module TemplateLimits {
  import opened Prelude
  import opened ScriptContent
  import opened ScriptWorkflow

  function Proof(input: Inputs): Fact
    requires input.facts != []
  {
    if |input.facts| > 1 then input.facts[1] else input.facts[0]
  }

  /** The title and the caption fit, and the hashtag that the signal title becomes is not cut. */
  predicate HeaderFits(input: Inputs)
    requires input.facts != []
  {
    var game := GameName(input.facts);
    && input.bytes(Template(input)) <= MAX_CONTENT_BYTES
    && |game| + 2 + |input.signalTitle| <= 1000
    && 4 + |game| + |CAPTION_END| <= 1000
    && |Alphanumeric(input.isAlnum, input.signalTitle)| <= 79
  }

  /** The texts that are shown as they are say something, and the spoken ones fit. */
  predicate SectionsFit(input: Inputs)
    requires input.facts != []
  {
    var first, proof := input.facts[0], Proof(input);
    && TextOk(input.hook, 2000)
    && !Blank(input.signalTitle) && !Blank(GameName(input.facts)) && !Blank(first.value) && !Blank(proof.value)
    && |PROOF_VOICE_START| + |first.predicate_| + 2 + |first.value| + 1 <= 2000
    && |PAYOFF_VOICE_START| + |input.angle| + |PAYOFF_VOICE_MIDDLE| + |proof.value| + 1 <= 2000
  }

  predicate TemplateFits(input: Inputs)
    requires input.facts != []
  {
    HeaderFits(input) && SectionsFit(input)
  }

  // ---------------------------------------------------------------- texts built around fixed words

  lemma VisibleIsNotBlank(s: string, i: nat)
    requires i < |s| && !IsSpace(s[i])
    ensures !Blank(s)
  {
  }

  lemma {:induction false} SpacedLength(s: string)
    ensures |Spaced(s)| == |s|
  {
    if s != [] {
      SpacedLength(s[1..]);
    }
  }

  lemma HeaderExactly(input: Inputs)
    requires input.facts != []
    ensures HeaderOk(input, Template(input)) <==> HeaderFits(input)
  {
    var c, game := Template(input), GameName(input.facts);
    assert c.title[|game|] == ':';
    VisibleIsNotBlank(c.title, |game|);
    assert c.caption[0] == 'W';
    VisibleIsNotBlank(c.caption, 0);
    assert HashtagOk(c.hashtags[1]) && HashtagOk(c.hashtags[2]);
    HashtagExactly(input);
    assert c.hashtags[0] == Hashtag(input);
  }

  lemma HashtagExactly(input: Inputs)
    ensures HashtagOk(Hashtag(input)) <==> |Alphanumeric(input.isAlnum, input.signalTitle)| <= 79
  {
  }

  /** The members and signals that the template cites are those of its inputs. */
  ghost predicate CitesInputs(input: Inputs, s: Section) {
    && (s.members == [] || (input.facts != [] && s.members == [input.facts[0].member])
        || (|input.facts| > 1 && s.members == [input.facts[1].member]))
    && (s.signals == [] || s.signals == [input.signal])
  }

  lemma CitedIsAllowed(input: Inputs, s: Section)
    requires CitesInputs(input, s)
    ensures SectionOk(input, s)
      <==> TextOk(s.purpose, 2000) && TextOk(s.voiceover, 2000) && TextOk(s.onScreen, 2000) && TextOk(s.visual, 2000)
  {
    forall i | 0 <= i < |s.members| ensures s.members[i] in input.Members() {
      if s.members == [input.facts[0].member] {
        assert input.facts[0].member in input.Members();
      } else {
        assert input.facts[1].member in input.Members();
      }
    }
  }

  lemma EndsVisibly(s: string)
    requires 0 < |s| <= 2000 && !IsSpace(s[|s| - 1])
    ensures TextOk(s, 2000)
  {
    VisibleIsNotBlank(s, |s| - 1);
  }

  lemma FixedPurposes()
    ensures TextOk("hook", 2000) && TextOk("setup", 2000) && TextOk("proof", 2000) && TextOk("payoff", 2000)
    ensures TextOk("cta", 2000) && TextOk(CTA_TEXT, 2000)
  {
    EndsVisibly("hook");
    EndsVisibly("setup");
    EndsVisibly("proof");
    EndsVisibly("payoff");
    EndsVisibly("cta");
    EndsVisibly(CTA_TEXT);
  }

  lemma FixedVisuals()
    ensures TextOk(HOOK_VISUAL, 2000) && TextOk(SETUP_VISUAL, 2000) && TextOk(PROOF_VISUAL, 2000)
    ensures TextOk(PAYOFF_VISUAL, 2000) && TextOk(CTA_VISUAL, 2000)
  {
    EndsVisibly(HOOK_VISUAL);
    EndsVisibly(SETUP_VISUAL);
    EndsVisibly(PROOF_VISUAL);
    EndsVisibly(PAYOFF_VISUAL);
    EndsVisibly(CTA_VISUAL);
  }

  /** With a title and a caption that fit, what the opening sections and the last one need. */
  lemma NamedSectionsExactly(input: Inputs)
    requires input.facts != [] && HeaderFits(input)
    ensures var s := Template(input).sections; var game := GameName(input.facts);
      && (SectionOk(input, s[0]) <==> TextOk(input.hook, 2000) && !Blank(input.signalTitle))
      && (SectionOk(input, s[1]) <==> !Blank(game))
      && SectionOk(input, s[4])
  {
    var s := Template(input).sections;
    FixedPurposes();
    FixedVisuals();
    CitedIsAllowed(input, s[0]);
    CitedIsAllowed(input, s[1]);
    CitedIsAllowed(input, s[4]);
    assert s[1].voiceover[0] == 'M' && s[4].voiceover[0] == 'W';
    VisibleIsNotBlank(s[1].voiceover, 0);
    VisibleIsNotBlank(s[4].voiceover, 0);
  }

  lemma FactSectionsExactly(input: Inputs)
    requires input.facts != []
    ensures var s := Template(input).sections; var first, proof := input.facts[0], Proof(input);
      && (SectionOk(input, s[2]) <==>
            !Blank(first.value) && |PROOF_VOICE_START| + |first.predicate_| + 2 + |first.value| + 1 <= 2000)
      && (SectionOk(input, s[3]) <==>
            !Blank(proof.value)
            && |PAYOFF_VOICE_START| + |input.angle| + |PAYOFF_VOICE_MIDDLE| + |proof.value| + 1 <= 2000)
  {
    var s := Template(input).sections;
    FixedPurposes();
    FixedVisuals();
    SpacedLength(input.facts[0].predicate_);
    CitedIsAllowed(input, s[2]);
    CitedIsAllowed(input, s[3]);
    assert s[2].voiceover[0] == 'O' && s[3].voiceover[0] == 'T';
    VisibleIsNotBlank(s[2].voiceover, 0);
    VisibleIsNotBlank(s[3].voiceover, 0);
  }

  /** The template is valid exactly when the lengths of its inputs, and nothing else, allow it. */
  lemma TemplateValidExactly(input: Inputs)
    requires input.Valid()
    ensures ContentOk(input, Template(input)) <==> TemplateFits(input)
  {
    HeaderExactly(input);
    TemplateTimelineIsExact(input);
    FactSectionsExactly(input);
    if HeaderFits(input) {
      NamedSectionsExactly(input);
      FiveSections(input, Template(input).sections);
    }
  }

  lemma FiveSections(input: Inputs, s: seq<Section>)
    requires |s| == 5
    ensures SectionsOk(input, s)
      <==> SectionOk(input, s[0]) && SectionOk(input, s[1]) && SectionOk(input, s[2]) && SectionOk(input, s[3])
           && SectionOk(input, s[4])
  {
  }

  // ---------------------------------------------------------------- what an unfit template means for a run

  /** Without a valid template no command ever creates a version, so the run stays empty for ever. */
  lemma {:induction false} UnfitTemplateBlocksTheRun(rules: Rules, commands: seq<Command>)
    requires !rules.valid(rules.template)
    ensures After(rules, EMPTY, commands) == EMPTY
  {
    if commands != [] {
      UnfitTemplateBlocksTheRun(rules, commands[..|commands| - 1]);
    }
  }

  /** A run can be started if and only if its template fits; otherwise it never holds a single row. */
  lemma RunStartsExactly(input: Inputs, author: string, key: string)
    requires input.Valid()
    ensures CreateVersion(RulesOf(input), EMPTY, None, author, key).1.Success? <==> TemplateFits(input)
    ensures !TemplateFits(input) ==> forall r :: Reachable(RulesOf(input), r) ==> r == EMPTY
  {
    TemplateValidExactly(input);
    if !TemplateFits(input) {
      forall r | Reachable(RulesOf(input), r) ensures r == EMPTY {
        var commands :| r == After(RulesOf(input), EMPTY, commands);
        UnfitTemplateBlocksTheRun(RulesOf(input), commands);
      }
    }
  }

  // ---------------------------------------------------------------- an instance

  function Letters(n: nat): string {
    seq(n, _ => 'a')
  }

  /** A brief about a signal whose title is one word of `n` letters, with the topic service's hook. */
  function LongTitle(n: nat): Inputs {
    Inputs(30, 2, 80, TopicHook(Letters(n), "Game"), "angle", "signal", Letters(n),
           [Fact("member", "game.name", "Game")],
           c => 1000, c => [c], c => 'a' <= c <= 'z')
  }

  lemma {:induction false} AllLettersStay(isAlnum: char -> bool, s: string)
    requires forall i :: 0 <= i < |s| ==> isAlnum(s[i])
    ensures Alphanumeric(isAlnum, s) == s
  {
    if s != [] {
      AllLettersStay(isAlnum, s[1..]);
    }
  }

  lemma GameNameOfOne(f: Fact)
    requires f.predicate_ == "game.name"
    ensures GameName([f]) == f.value
  {
  }

  lemma LongHookFits(n: nat)
    requires 1 <= n <= 300
    ensures TextOk(TopicHook(Letters(n), "Game"), 2000)
  {
    EndsVisibly(TopicHook(Letters(n), "Game"));
  }

  /** The topic service accepts titles of up to 300 characters; from 80 letters on the script run is blocked. */
  lemma LongTitlesAreRefused(n: nat)
    requires 1 <= n <= 300
    ensures LongTitle(n).Valid() && FromTopicGate(LongTitle(n))
    ensures TemplateFits(LongTitle(n)) <==> n <= 79
  {
    var input := LongTitle(n);
    GameNameOfOne(input.facts[0]);
    AllLettersStay(input.isAlnum, input.signalTitle);
    EndsVisibly(input.signalTitle);
    EndsVisibly("Game");
    LongHookFits(n);
  }
}
