/** Overlapping, evidence-preserving chunking of one source text. */
module TextChunking {
  import opened Prelude

  const DEFAULT_MAX_CHARS := 4000
  const DEFAULT_OVERLAP_CHARS := 400

  /** A SHA-256 digest over NUL-separated fields is taken as injective, so it is kept as the fields. */
  datatype ChunkId = ChunkId(maxChars: nat, overlap: nat, index: nat, start: nat, end: nat, text: string)

  datatype Chunk = Chunk(index: nat, start: nat, end: nat, text: string, id: ChunkId)

  datatype ChunkingError = BlankText

  datatype Chunker = Chunker(maxChars: nat, overlap: nat) {
    /** What the constructor checks. */
    predicate Valid() {
      0 < maxChars && overlap < maxChars
    }

    function MakeChunk(text: string, index: nat, start: nat, end: nat): Chunk
      requires start <= end <= |text|
    {
      Chunk(index, start, end, text[start..end], ChunkId(maxChars, overlap, index, start, end, text[start..end]))
    }
  }

  // ---------------------------------------------------------------- boundaries

  /** `text.rfind(sub, lo, hi)` */
  function RFind(text: string, sub: string, lo: nat, hi: nat): (r: Option<nat>)
    requires hi <= |text|
    ensures r.Some? ==> lo <= r.value <= hi - |sub|
  {
    if hi < lo + |sub| then None
    else if OccursAt(text, sub, hi - |sub|) then Some(hi - |sub|)
    else if hi == 0 then None
    else RFind(text, sub, lo, hi - 1)
  }

  /** RFind returns the last occurrence in the range, and nothing only when there is none. */
  lemma {:induction false} RFindIsLast(text: string, sub: string, lo: nat, hi: nat)
    requires hi <= |text|
    ensures var r := RFind(text, sub, lo, hi);
      && (r.Some? ==> OccursAt(text, sub, r.value))
      && forall p: nat :: lo <= p <= hi - |sub| && OccursAt(text, sub, p) ==> r.Some? && p <= r.value
  {
    if !(hi < lo + |sub|) && !OccursAt(text, sub, hi - |sub|) && hi > 0 {
      RFindIsLast(text, sub, lo, hi - 1);
    }
  }

  predicate IsStop(c: char) {
    c in {'.', '!', '?', '\U{3002}', '\U{ff01}', '\U{ff1f}'}
  }

  predicate SpaceRunAfterStop(s: string, i: int, e: int) {
    1 <= i < e <= |s| && IsStop(s[i - 1]) && forall k :: i <= k < e ==> IsSpace(s[k])
  }

  /**
   * A match of `(?<=[.!?...])\s+` ends at `e`. The expression is greedy and its first whitespace must
   * follow a stop, so a match is exactly a maximal whitespace run that directly follows a stop.
   */
  predicate SentenceEnd(s: string, e: int) {
    && 2 <= e <= |s|
    && (e == |s| || !IsSpace(s[e]))
    && exists i :: 1 <= i < e && SpaceRunAfterStop(s, i, e)
  }

  /** The last match end in `s[..e]` that is at least `lo`. */
  function LastSentenceEnd(s: string, lo: nat, e: nat): (r: Option<nat>)
    requires e <= |s|
    ensures r.Some? ==> lo <= r.value <= e && 2 <= r.value
  {
    if e < lo then None
    else if SentenceEnd(s, e) then Some(e)
    else if e == 0 then None
    else LastSentenceEnd(s, lo, e - 1)
  }

  lemma {:induction false} LastSentenceEndIsLast(s: string, lo: nat, e: nat)
    requires e <= |s|
    ensures var r := LastSentenceEnd(s, lo, e);
      && (r.Some? ==> SentenceEnd(s, r.value))
      && forall p: nat :: lo <= p <= e && SentenceEnd(s, p) ==> r.Some? && p <= r.value
  {
    if lo <= e && !SentenceEnd(s, e) && e > 0 {
      LastSentenceEndIsLast(s, lo, e - 1);
    }
  }

  function PreferredEnd(text: string, start: nat, hardEnd: nat): nat
    requires start <= hardEnd <= |text|
  {
    var lower := start + (hardEnd - start) / 2;
    match RFind(text, "\n\n", lower, hardEnd)
    case Some(p) => p + 2
    case None =>
      match RFind(text, "\n", lower, hardEnd)
      case Some(p) => p + 1
      case None =>
        match LastSentenceEnd(text[start..hardEnd], lower - start, hardEnd - start)
        case Some(e) => start + e
        case None => hardEnd
  }

  /** Where the chunk that begins at `start` ends. */
  function ChunkEnd(c: Chunker, text: string, start: nat): nat
    requires start < |text|
  {
    var hardEnd := if start + c.maxChars < |text| then start + c.maxChars else |text|;
    if hardEnd == |text| then |text| else PreferredEnd(text, start, hardEnd)
  }

  /** The shortest chunk that any text can force before its last one. */
  function MinStep(maxChars: nat): nat {
    if maxChars < 4 then maxChars / 2 + 1 else maxChars / 2
  }

  lemma ChunkEndBounds(c: Chunker, text: string, start: nat)
    requires c.Valid() && start < |text|
    ensures ProperRange(c, text, start, ChunkEnd(c, text, start))
    ensures ChunkEnd(c, text, start) == |text| <==> |text| <= start + c.maxChars
  {
  }

  // ---------------------------------------------------------------- the split loop

  /** One chunk range: non-empty, bounded, and at least MinStep long unless it ends the text. */
  predicate ProperRange(c: Chunker, text: string, start: int, end: int) {
    && 0 <= start < end <= |text|
    && end <= start + c.maxChars
    && (end < |text| ==> start + MinStep(c.maxChars) <= end)
  }

  /** Chunk `k` starts `overlap` characters before the end of its predecessor, which was not the last. */
  ghost predicate Joined(c: Chunker, text: string, chunks: seq<Chunk>, k: int)
    requires 0 < k < |chunks|
  {
    chunks[k - 1].end < |text| && chunks[k].start == chunks[k - 1].end - c.overlap
  }

  /** The chunks tile the text from offset 0: each later one backs up by exactly `overlap`. */
  ghost predicate Tiles(c: Chunker, text: string, chunks: seq<Chunk>) {
    && (|chunks| > 0 ==> chunks[0].start == 0)
    && (forall k :: 0 <= k < |chunks| ==>
      && ProperRange(c, text, chunks[k].start, chunks[k].end)
      && chunks[k] == c.MakeChunk(text, k, chunks[k].start, chunks[k].end))
    && (forall k :: 0 < k < |chunks| ==> Joined(c, text, chunks, k))
  }

  /** Tiling that reaches the end of the text. */
  ghost predicate Covers(c: Chunker, text: string, chunks: seq<Chunk>) {
    Tiles(c, text, chunks) && |chunks| > 0 && chunks[|chunks| - 1].end == |text|
  }

  /** Every chunk ends where the boundary preference says. */
  ghost predicate EndsAtBoundaries(c: Chunker, text: string, chunks: seq<Chunk>) {
    forall k :: 0 <= k < |chunks| ==> EndsAtBoundary(c, text, chunks[k])
  }

  ghost predicate EndsAtBoundary(c: Chunker, text: string, chunk: Chunk) {
    chunk.start < |text| && chunk.end == ChunkEnd(c, text, chunk.start)
  }

  /** Where the chunk after `chunks` has to start. */
  function NextStart(c: Chunker, chunks: seq<Chunk>): int {
    if chunks == [] then 0 else chunks[|chunks| - 1].end - c.overlap
  }

  lemma TilesExtend(c: Chunker, text: string, chunks: seq<Chunk>, end: int)
    requires Tiles(c, text, chunks) && (chunks != [] ==> chunks[|chunks| - 1].end < |text|)
    requires ProperRange(c, text, NextStart(c, chunks), end)
    ensures Tiles(c, text, chunks + [c.MakeChunk(text, |chunks|, NextStart(c, chunks), end)])
  {
    var longer := chunks + [c.MakeChunk(text, |chunks|, NextStart(c, chunks), end)];
    forall k | 0 < k < |longer| ensures Joined(c, text, longer, k) {
      assert k < |chunks| ==> Joined(c, text, chunks, k);
    }
  }

  /**
   * `DeterministicTextChunker.split`. The source loops forever or raises on some texts when the
   * overlap reaches `MinStep`; SplitReturnsOnEveryText shows this precondition is exact.
   */
  method Split(c: Chunker, text: string) returns (r: Result<seq<Chunk>, ChunkingError>)
    requires c.Valid() && c.overlap < MinStep(c.maxChars)
    ensures r.Failure? <==> Blank(text)
    ensures r.Success? ==> Covers(c, text, r.value) && EndsAtBoundaries(c, text, r.value)
  {
    if Blank(text) {
      return Failure(BlankText);
    }
    var chunks: seq<Chunk> := [];
    var start := 0;
    while start < |text|
      invariant 0 <= start < |text|
      invariant Tiles(c, text, chunks) && EndsAtBoundaries(c, text, chunks)
      invariant start == NextStart(c, chunks)
      invariant chunks != [] ==> chunks[|chunks| - 1].end < |text|
      decreases |text| - start
    {
      ChunkEndBounds(c, text, start);
      var end := ChunkEnd(c, text, start);
      TilesExtend(c, text, chunks, end);
      chunks := chunks + [c.MakeChunk(text, |chunks|, start, end)];
      if end == |text| {
        break;
      }
      start := end - c.overlap;
    }
    return Success(chunks);
  }

  // ---------------------------------------------------------------- what a chunking guarantees

  /** Chunks are non-empty, bounded, and both ends strictly increase. */
  lemma ChunksAdvance(c: Chunker, text: string, chunks: seq<Chunk>, k: nat)
    requires c.Valid() && c.overlap < MinStep(c.maxChars) && Tiles(c, text, chunks) && k < |chunks|
    ensures 0 < |chunks[k].text| <= c.maxChars
    ensures chunks[k].text == text[chunks[k].start..chunks[k].end]
    ensures k > 0 ==>
      && chunks[k - 1].end < chunks[k].end
      && chunks[k - 1].start + (MinStep(c.maxChars) - c.overlap) <= chunks[k].start
      && c.overlap < |chunks[k].text|
  {
    if k > 0 {
      assert Joined(c, text, chunks, k);
    }
  }

  /** The first chunk followed by every later chunk without its leading overlap. */
  function Reassemble(chunks: seq<Chunk>, overlap: nat): string {
    if |chunks| == 0 then ""
    else if |chunks| == 1 then chunks[0].text
    else
      var last := chunks[|chunks| - 1].text;
      Reassemble(chunks[..|chunks| - 1], overlap) + (if overlap <= |last| then last[overlap..] else "")
  }

  lemma TilesPrefix(c: Chunker, text: string, chunks: seq<Chunk>)
    requires Tiles(c, text, chunks) && |chunks| > 1
    ensures var front := chunks[..|chunks| - 1];
      Tiles(c, text, front) && Joined(c, text, chunks, |chunks| - 1)
      && chunks[|chunks| - 1].start == front[|front| - 1].end - c.overlap
  {
    var front := chunks[..|chunks| - 1];
    forall k | 0 < k < |front| ensures Joined(c, text, front, k) {
      assert Joined(c, text, chunks, k);
    }
    assert Joined(c, text, chunks, |chunks| - 1);
  }

  lemma SliceTail(text: string, start: nat, end: nat, overlap: nat)
    requires start + overlap <= end <= |text|
    ensures text[..start + overlap] + text[start..end][overlap..] == text[..end]
  {
  }

  lemma {:induction false} ReassemblePrefix(c: Chunker, text: string, chunks: seq<Chunk>)
    requires c.Valid() && c.overlap < MinStep(c.maxChars) && Tiles(c, text, chunks) && chunks != []
    ensures Reassemble(chunks, c.overlap) == text[..chunks[|chunks| - 1].end]
    decreases |chunks|
  {
    var k := |chunks| - 1;
    ChunksAdvance(c, text, chunks, k);
    if k > 0 {
      TilesPrefix(c, text, chunks);
      ReassemblePrefix(c, text, chunks[..k]);
      SliceTail(text, chunks[k].start, chunks[k].end, c.overlap);
    }
  }

  /** Round trip: nothing of the source is lost, repeated or altered. */
  lemma ChunkingRoundTrip(c: Chunker, text: string, chunks: seq<Chunk>)
    requires c.Valid() && c.overlap < MinStep(c.maxChars) && Covers(c, text, chunks)
    ensures Reassemble(chunks, c.overlap) == text
  {
    ReassemblePrefix(c, text, chunks);
    assert text[..|text|] == text;
  }

  ghost predicate EndsBy(end: int -> int, chunks: seq<Chunk>) {
    forall k :: 0 <= k < |chunks| ==> chunks[k].end == end(chunks[k].start)
  }

  lemma {:induction false} SameChunks(c: Chunker, text: string, end: int -> int, a: seq<Chunk>, b: seq<Chunk>, k: nat)
    requires Covers(c, text, a) && EndsBy(end, a) && k < |a|
    requires Covers(c, text, b) && EndsBy(end, b)
    ensures k < |b| && a[k] == b[k]
  {
    if k > 0 {
      SameChunks(c, text, end, a, b, k - 1);
      assert Joined(c, text, a, k);
      assert k < |b| && Joined(c, text, b, k);
    }
  }

  /** Splitting is deterministic: a text has one chunking, chunk ids included. */
  lemma ChunkingUnique(c: Chunker, text: string, a: seq<Chunk>, b: seq<Chunk>)
    requires Covers(c, text, a) && EndsAtBoundaries(c, text, a)
    requires Covers(c, text, b) && EndsAtBoundaries(c, text, b)
    ensures a == b
  {
    var end := (start: int) => if 0 <= start < |text| then ChunkEnd(c, text, start) else 0;
    assert EndsBy(end, a) && EndsBy(end, b);
    SameLength(c, text, end, a, b);
    forall k | 0 <= k < |a| ensures a[k] == b[k] {
      SameChunks(c, text, end, a, b, k);
    }
  }

  lemma SameLength(c: Chunker, text: string, end: int -> int, a: seq<Chunk>, b: seq<Chunk>)
    requires Covers(c, text, a) && EndsBy(end, a)
    requires Covers(c, text, b) && EndsBy(end, b)
    ensures |a| == |b|
  {
    SameChunks(c, text, end, a, b, |a| - 1);
    SameChunks(c, text, end, b, a, |b| - 1);
  }

  /** Every source range of at most overlap + 1 characters lies wholly inside some chunk. */
  lemma ShortRangesAreContained(c: Chunker, text: string, chunks: seq<Chunk>, a: nat, b: nat)
    requires c.Valid() && c.overlap < MinStep(c.maxChars) && Covers(c, text, chunks)
    requires a <= b <= |text| && b - a <= c.overlap + 1
    ensures exists k :: 0 <= k < |chunks| && chunks[k].start <= a && b <= chunks[k].end
  {
    var k := 0;
    while chunks[k].end < b
      invariant 0 <= k < |chunks|
      invariant k > 0 ==> chunks[k - 1].end < b
      decreases |chunks| - k
    {
      k := k + 1;
    }
    assert k > 0 ==> Joined(c, text, chunks, k);
    assert chunks[k].start <= a && b <= chunks[k].end;
  }

  /** overlap + 1 is the best possible bound: every inner boundary cuts a range one longer. */
  lemma LongerRangesCanBeCut(c: Chunker, text: string, chunks: seq<Chunk>, m: nat)
    requires c.Valid() && c.overlap < MinStep(c.maxChars) && Covers(c, text, chunks) && m + 1 < |chunks|
    ensures var b := chunks[m].end + 1; var a := b - (c.overlap + 2);
      0 <= a && b <= |text| && forall k :: 0 <= k < |chunks| ==> !(chunks[k].start <= a && b <= chunks[k].end)
  {
    assert Joined(c, text, chunks, m + 1);
    ChunksAdvance(c, text, chunks, m);
    ChunksAdvance(c, text, chunks, m + 1);
    var b := chunks[m].end + 1;
    forall k | 0 <= k < |chunks| ensures !(chunks[k].start <= b - (c.overlap + 2) && b <= chunks[k].end) {
      if k <= m {
        ChunksOrdered(c, text, chunks, k, m);
      } else {
        ChunksOrdered(c, text, chunks, m + 1, k);
      }
    }
  }

  lemma {:induction false} ChunksOrdered(c: Chunker, text: string, chunks: seq<Chunk>, i: nat, j: nat)
    requires c.Valid() && c.overlap < MinStep(c.maxChars) && Tiles(c, text, chunks)
    requires j < |chunks|
    requires i <= j
    ensures chunks[i].end <= chunks[j].end && chunks[i].start <= chunks[j].start
    decreases j
  {
    if i < j {
      ChunksOrdered(c, text, chunks, i, j - 1);
      ChunksAdvance(c, text, chunks, j);
    }
  }

  lemma OneMore(k: int, d: int)
    ensures k * d == (k - 1) * d + d
  {
  }

  lemma {:induction false} StartsSpread(c: Chunker, text: string, chunks: seq<Chunk>, k: nat)
    requires c.Valid() && c.overlap < MinStep(c.maxChars) && Tiles(c, text, chunks) && k < |chunks|
    ensures k * (MinStep(c.maxChars) - c.overlap) <= chunks[k].start
  {
    if k > 0 {
      StartsSpread(c, text, chunks, k - 1);
      ChunksAdvance(c, text, chunks, k);
      OneMore(k, MinStep(c.maxChars) - c.overlap);
    }
  }

  /** The number of chunks is below 1 + |text| / (MinStep - overlap). */
  lemma ChunkCountBound(c: Chunker, text: string, chunks: seq<Chunk>)
    requires c.Valid() && c.overlap < MinStep(c.maxChars) && Covers(c, text, chunks)
    ensures (|chunks| - 1) * (MinStep(c.maxChars) - c.overlap) < |text|
  {
    StartsSpread(c, text, chunks, |chunks| - 1);
  }

  // ---------------------------------------------------------------- when the loop returns at all

  datatype LoopState = AtStart(start: int) | Finished | Raised

  /** One pass of the loop body from `start`; a chunk that starts below zero is refused by the chunk's own check. */
  function Pass(c: Chunker, text: string): int -> LoopState {
    (start: int) =>
      if start < 0 then Raised
      else if start >= |text| || ChunkEnd(c, text, start) == |text| then Finished
      else AtStart(ChunkEnd(c, text, start) - c.overlap)
  }

  function After(pass: int -> LoopState, n: nat): LoopState {
    if n == 0 then AtStart(0)
    else match After(pass, n - 1)
      case Finished => Finished
      case Raised => Raised
      case AtStart(start) => pass(start)
  }

  /** The loop of `split` after `n` passes. */
  function LoopAfter(c: Chunker, text: string, n: nat): LoopState {
    After(Pass(c, text), n)
  }

  /** A text on which the loop takes its shortest possible first step. */
  function ShortStepText(maxChars: nat): string
    requires maxChars >= 3
  {
    var h := maxChars / 2;
    seq(maxChars + 1, i requires 0 <= i => if maxChars < 4 then (if i == h then '\n' else 'a')
                           else if i == h - 2 then '.' else if i == h - 1 then ' ' else 'a')
  }

  lemma ShortStepTextHasNoParagraph(m: nat)
    requires m >= 3
    ensures RFind(ShortStepText(m), "\n\n", m / 2, m) == None
  {
    var text := ShortStepText(m);
    RFindIsLast(text, "\n\n", m / 2, m);
    forall p: nat | m / 2 <= p <= m - 2 ensures !OccursAt(text, "\n\n", p) {
      assert text[p..p + 2][1] == text[p + 1] == 'a';
    }
  }

  lemma ShortStepTextNewline(m: nat)
    requires m >= 3
    ensures RFind(ShortStepText(m), "\n", m / 2, m) == if m < 4 then Some(m / 2) else None
  {
    var text, h := ShortStepText(m), m / 2;
    RFindIsLast(text, "\n", h, m);
    forall p: nat | h <= p <= m - 1 && (m < 4 ==> h < p) ensures !OccursAt(text, "\n", p) {
      assert text[p..p + 1][0] == text[p] == 'a';
    }
    assert m < 4 ==> text[h..h + 1] == "\n";
  }

  lemma ShortStepTextSentence(m: nat)
    requires m >= 4
    ensures LastSentenceEnd(ShortStepText(m)[0..m], m / 2, m) == Some(m / 2)
  {
    var s, h := ShortStepText(m)[0..m], m / 2;
    LastSentenceEndIsLast(s, h, m);
    assert SpaceRunAfterStop(s, h - 1, h);
    assert SentenceEnd(s, h);
    forall p: nat | h < p <= m ensures !SentenceEnd(s, p) {
      assert s[p - 1] == 'a';
    }
  }

  lemma ShortStepIsTaken(c: Chunker)
    requires c.Valid() && c.maxChars >= 3
    ensures var text := ShortStepText(c.maxChars);
      !Blank(text) && ChunkEnd(c, text, 0) == MinStep(c.maxChars) < |text|
  {
    ShortStepTextHasNoParagraph(c.maxChars);
    ShortStepTextNewline(c.maxChars);
    if c.maxChars >= 4 {
      ShortStepTextSentence(c.maxChars);
    }
    assert ShortStepText(c.maxChars)[c.maxChars] == 'a';
  }

  lemma {:induction false} PassesAdvance(pass: int -> LoopState, length: nat, n: nat)
    requires length > 0
    requires forall s :: 0 <= s < length ==>
      pass(s).Finished? || (pass(s).AtStart? && s < pass(s).start < length)
    ensures After(pass, n).Finished? || (After(pass, n).AtStart? && n <= After(pass, n).start < length)
  {
    if n > 0 {
      PassesAdvance(pass, length, n - 1);
    }
  }

  lemma {:induction false} PassesNeverFinish(pass: int -> LoopState, back: nat, n: nat)
    requires pass(0) == AtStart(0 - back) && (back > 0 ==> pass(0 - back) == Raised)
    ensures After(pass, n) == AtStart(0) || (back > 0 && After(pass, n) in {AtStart(0 - back), Raised})
  {
    if n > 0 {
      PassesNeverFinish(pass, back, n - 1);
    }
  }

  lemma SplitReturns(c: Chunker, text: string)
    requires c.Valid() && c.overlap < MinStep(c.maxChars) && !Blank(text)
    ensures LoopAfter(c, text, |text|).Finished?
  {
    forall s | 0 <= s < |text| {
      ChunkEndBounds(c, text, s);
    }
    PassesAdvance(Pass(c, text), |text|, |text|);
  }

  lemma SplitLoops(c: Chunker)
    requires c.Valid() && c.overlap >= MinStep(c.maxChars)
    ensures !Blank(ShortStepText(c.maxChars)) && forall n: nat :: !LoopAfter(c, ShortStepText(c.maxChars), n).Finished?
  {
    ShortStepIsTaken(c);
    forall n: nat ensures !LoopAfter(c, ShortStepText(c.maxChars), n).Finished? {
      PassesNeverFinish(Pass(c, ShortStepText(c.maxChars)), c.overlap - MinStep(c.maxChars), n);
    }
  }

  /**
   * The constructor's check (overlap < max_chars) does not make `split` return. It returns on every
   * non-blank text exactly when the overlap is below MinStep; otherwise ShortStepText(max_chars) is a
   * text on which it never does.
   */
  lemma SplitReturnsOnEveryText(c: Chunker)
    requires c.Valid()
    ensures (forall text | !Blank(text) :: exists n: nat :: LoopAfter(c, text, n).Finished?)
      <==> c.overlap < MinStep(c.maxChars)
  {
    if c.overlap < MinStep(c.maxChars) {
      forall text | !Blank(text) ensures exists n: nat :: LoopAfter(c, text, n).Finished? {
        SplitReturns(c, text);
      }
    } else {
      SplitLoops(c);
    }
  }

  /** The smallest refused configuration: three characters with an overlap of two never gets past "a\na". */
  lemma ValidChunkerCanLoopForever(n: nat)
    ensures Chunker(3, 2).Valid() && LoopAfter(Chunker(3, 2), ShortStepText(3), n) == AtStart(0)
  {
    ShortStepIsTaken(Chunker(3, 2));
    PassesNeverFinish(Pass(Chunker(3, 2), ShortStepText(3)), 0, n);
  }
}
