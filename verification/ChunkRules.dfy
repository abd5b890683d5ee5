/** Where chunks end, stated over the characters of the text. */
module ChunkRules {
  import opened Prelude
  import opened TextChunking

  /** A line break at `p`, before `to`. */
  predicate NewlineAt(text: string, p: int, to: nat) {
    0 <= p && p + 1 <= to <= |text| && text[p] == '\n'
  }

  /** Two line breaks in a row at `p`, before `to`. */
  predicate ParagraphAt(text: string, p: int, to: nat) {
    0 <= p && p + 2 <= to <= |text| && text[p] == '\n' && text[p + 1] == '\n'
  }

  predicate EndsSentence(c: char) {
    c == '.' || c == '!' || c == '?' || c == '\U{3002}' || c == '\U{ff01}' || c == '\U{ff1f}'
  }

  /**
   * Whitespace that follows a sentence, begins after `start` and is over at `e`, which is the end of the window or
   * visible.
   */
  ghost predicate PauseEndsAt(text: string, start: nat, e: int, to: nat) {
    && start + 2 <= e <= to <= |text| && (e == to || !IsSpace(text[e]))
    && exists i :: start < i < e && AfterSentence(text, i, e)
  }

  /** The characters from `i` to `e` are whitespace, and the one before them ends a sentence. */
  predicate AfterSentence(text: string, i: int, e: int) {
    0 < i < e <= |text| && EndsSentence(text[i - 1]) && forall k :: i <= k < e ==> IsSpace(text[k])
  }

  ghost predicate NoParagraph(text: string, from: nat, to: nat) {
    forall p :: from <= p ==> !ParagraphAt(text, p, to)
  }

  ghost predicate NoNewline(text: string, from: nat, to: nat) {
    forall p :: from <= p ==> !NewlineAt(text, p, to)
  }

  ghost predicate NoPause(text: string, start: nat, from: nat, to: nat) {
    forall e :: from <= e ==> !PauseEndsAt(text, start, e, to)
  }

  /**
   * Of a window of `maxChars` characters the second half is searched: the last paragraph break in it ends the chunk;
   * without one, the last line break; without one, the last pause after a sentence; and otherwise the window itself.
   */
  ghost predicate EndsWell(text: string, start: nat, hard: nat, end: nat)
    requires start <= hard <= |text|
  {
    var from := start + (hard - start) / 2;
    if !NoParagraph(text, from, hard) then
      end >= 2 && from <= end - 2 && ParagraphAt(text, end - 2, hard) && NoParagraph(text, end - 1, hard)
    else if !NoNewline(text, from, hard) then
      end >= 1 && from <= end - 1 && NewlineAt(text, end - 1, hard) && NoNewline(text, end, hard)
    else if !NoPause(text, start, from, hard) then
      from <= end && PauseEndsAt(text, start, end, hard) && NoPause(text, start, end + 1, hard)
    else end == hard
  }

  /** `p` is the last paragraph break of the range, if there is one. */
  ghost predicate LastParagraph(text: string, from: nat, to: nat, p: Option<nat>) {
    && (p == None <==> NoParagraph(text, from, to))
    && (p.Some? ==> from <= p.value && ParagraphAt(text, p.value, to) && NoParagraph(text, p.value + 1, to))
  }

  ghost predicate LastNewline(text: string, from: nat, to: nat, p: Option<nat>) {
    && (p == None <==> NoNewline(text, from, to))
    && (p.Some? ==> from <= p.value && NewlineAt(text, p.value, to) && NoNewline(text, p.value + 1, to))
  }

  /** `p` says how far from `start` the last pause of the range ends, if there is one. */
  ghost predicate LastPause(text: string, start: nat, from: nat, to: nat, p: Option<nat>) {
    && (p == None <==> NoPause(text, start, from, to))
    && (p.Some? ==> from <= start + p.value && PauseEndsAt(text, start, start + p.value, to)
                    && NoPause(text, start, start + p.value + 1, to))
  }

  lemma ParagraphIsFound(text: string, from: nat, to: nat)
    requires to <= |text|
    ensures LastParagraph(text, from, to, RFind(text, "\n\n", from, to))
  {
    RFindIsLast(text, "\n\n", from, to);
    forall p | from <= p ensures ParagraphAt(text, p, to) <==> p <= to - 2 && OccursAt(text, "\n\n", p) {
      if 0 <= p && p + 2 <= to {
        assert text[p..p + 2] == [text[p], text[p + 1]];
      }
    }
  }

  lemma NewlineIsFound(text: string, from: nat, to: nat)
    requires to <= |text|
    ensures LastNewline(text, from, to, RFind(text, "\n", from, to))
  {
    RFindIsLast(text, "\n", from, to);
    forall p | from <= p ensures NewlineAt(text, p, to) <==> p <= to - 1 && OccursAt(text, "\n", p) {
      if 0 <= p && p + 1 <= to {
        assert text[p..p + 1] == [text[p]];
      }
    }
  }

  lemma PauseInWindow(text: string, start: nat, e: nat, to: nat)
    requires start <= e <= to <= |text|
    ensures PauseEndsAt(text, start, e, to) <==> SentenceEnd(text[start..to], e - start)
  {
    var s := text[start..to];
    if SentenceEnd(s, e - start) {
      var i :| 1 <= i < e - start && SpaceRunAfterStop(s, i, e - start);
      assert forall k :: i <= k < e - start ==> s[k] == text[start + k];
      var at := start + i;
      assert AfterSentence(text, at, e);
    }
    if PauseEndsAt(text, start, e, to) {
      var i :| start < i < e && AfterSentence(text, i, e);
      assert forall k :: i - start <= k < e - start ==> s[k] == text[start + k];
      assert SpaceRunAfterStop(s, i - start, e - start);
    }
  }

  lemma PauseIsFound(text: string, start: nat, from: nat, to: nat)
    requires start <= from <= to <= |text|
    ensures LastPause(text, start, from, to, LastSentenceEnd(text[start..to], from - start, to - start))
  {
    LastSentenceEndIsLast(text[start..to], from - start, to - start);
    forall e: nat | from <= e <= to
      ensures PauseEndsAt(text, start, e, to) <==> SentenceEnd(text[start..to], e - start) {
      PauseInWindow(text, start, e, to);
    }
    var r := LastSentenceEnd(text[start..to], from - start, to - start);
    if r.Some? {
      assert PauseEndsAt(text, start, start + r.value, to);
    } else {
      forall e | from <= e ensures !PauseEndsAt(text, start, e, to) {
        assert e <= to ==> !SentenceEnd(text[start..to], e - start);
      }
    }
  }

  /** Which of the three searches decides, and where it lets the chunk end. */
  ghost predicate DecidedBy(paragraph: Option<nat>, newline: Option<nat>, pause: Option<nat>, start: nat, hard: nat,
                            end: nat) {
    end == if paragraph.Some? then paragraph.value + 2
           else if newline.Some? then newline.value + 1
           else if pause.Some? then start + pause.value else hard
  }

  /** What the three searches of a window found. */
  ghost predicate Searched(text: string, start: nat, hard: nat, paragraph: Option<nat>, newline: Option<nat>,
                           pause: Option<nat>)
    requires start <= hard <= |text|
  {
    var from := start + (hard - start) / 2;
    && LastParagraph(text, from, hard, paragraph) && LastNewline(text, from, hard, newline)
    && LastPause(text, start, from, hard, pause)
  }

  lemma SearchWindow(text: string, start: nat, hard: nat)
    returns (paragraph: Option<nat>, newline: Option<nat>, pause: Option<nat>)
    requires start <= hard <= |text|
    ensures Searched(text, start, hard, paragraph, newline, pause)
    ensures DecidedBy(paragraph, newline, pause, start, hard, PreferredEnd(text, start, hard))
  {
    var from := start + (hard - start) / 2;
    paragraph := RFind(text, "\n\n", from, hard);
    newline := RFind(text, "\n", from, hard);
    pause := LastSentenceEnd(text[start..hard], from - start, hard - start);
    assert DecidedBy(paragraph, newline, pause, start, hard, PreferredEnd(text, start, hard));
    ParagraphIsFound(text, from, hard);
    NewlineIsFound(text, from, hard);
    PauseIsFound(text, start, from, hard);
  }

  lemma DecidedEndsWell(text: string, start: nat, hard: nat, end: nat, paragraph: Option<nat>, newline: Option<nat>,
                        pause: Option<nat>)
    requires start <= hard <= |text| && Searched(text, start, hard, paragraph, newline, pause)
    requires DecidedBy(paragraph, newline, pause, start, hard, end)
    ensures EndsWell(text, start, hard, end)
  {
  }

  lemma PreferredEndsWell(text: string, start: nat, hard: nat, end: nat)
    requires start <= hard <= |text| && end == PreferredEnd(text, start, hard)
    ensures EndsWell(text, start, hard, end)
  {
    var paragraph, newline, pause := SearchWindow(text, start, hard);
    DecidedEndsWell(text, start, hard, end, paragraph, newline, pause);
  }

  lemma ChunkEndsWell(c: Chunker, text: string, start: nat, end: nat)
    requires c.Valid() && start < |text| && end == ChunkEnd(c, text, start)
    ensures start + c.maxChars < |text| ==> EndsWell(text, start, start + c.maxChars, end)
    ensures start + c.maxChars >= |text| ==> end == |text|
  {
    if start + c.maxChars < |text| {
      PreferredEndsWell(text, start, start + c.maxChars, end);
    }
  }

  lemma FullChunkIsLast(c: Chunker, text: string, chunks: seq<Chunk>, k: nat)
    requires Tiles(c, text, chunks) && k < |chunks| && chunks[k].end == |text|
    ensures k == |chunks| - 1
  {
    assert k < |chunks| - 1 ==> TextChunking.Joined(c, text, chunks, k + 1);
  }

  /**
   * In every chunking each chunk but the last ends well within its window, the window being `maxChars` characters
   * from its start, and a chunk whose window reaches the end of the text is the last one.
   */
  lemma ChunksEndWell(c: Chunker, text: string, chunks: seq<Chunk>, k: nat)
    requires c.Valid() && Covers(c, text, chunks) && EndsAtBoundaries(c, text, chunks) && k < |chunks|
    ensures var start, end := chunks[k].start, chunks[k].end;
      && start < |text|
      && (start + c.maxChars < |text| ==> EndsWell(text, start, start + c.maxChars, end))
      && (start + c.maxChars >= |text| ==> end == |text| && k == |chunks| - 1)
  {
    assert EndsAtBoundary(c, text, chunks[k]);
    ChunkEndsWell(c, text, chunks[k].start, chunks[k].end);
    if chunks[k].end == |text| {
      FullChunkIsLast(c, text, chunks, k);
    }
  }

  /** Every chunk shows its place, its text and an identity made of these and of the chunker's settings. */
  lemma ChunksShowTheirPlace(c: Chunker, text: string, chunks: seq<Chunk>, k: nat)
    requires c.Valid() && Covers(c, text, chunks) && k < |chunks|
    ensures var chunk := chunks[k];
      && chunk.index == k && 0 <= chunk.start < chunk.end <= |text| && chunk.text == text[chunk.start..chunk.end]
      && chunk.id.maxChars == c.maxChars && chunk.id.overlap == c.overlap && chunk.id.index == k
      && chunk.id.start == chunk.start && chunk.id.end == chunk.end && chunk.id.text == chunk.text
      && (k == 0 ==> chunk.start == 0) && (k > 0 ==> chunk.start == chunks[k - 1].end - c.overlap)
  {
    assert k > 0 ==> TextChunking.Joined(c, text, chunks, k);
  }
}
