/** Persisting an extraction: durable rows are checked against the manifest, claims and result are stored together. */
module ExtractionRepository {
  import opened Prelude
  import opened TextChunking
  import opened ExtractionHarness
  import EvidenceCapture

  // ---------------------------------------------------------------- rows ordered by chunk index

  predicate Least(m: nat, s: set<nat>) {
    m in s && forall x :: x in s ==> m <= x
  }

  lemma {:induction false} LeastExists(s: set<nat>)
    requires s != {}
    ensures exists m :: m in s && Least(m, s)
    decreases s
  {
    var y :| y in s;
    var rest := s - {y};
    assert forall x :: x in s ==> x == y || x in rest;
    if rest == {} {
      assert Least(y, s);
    } else {
      LeastExists(rest);
      var m :| m in rest && Least(m, rest);
      assert Least(if y < m then y else m, s);
    }
  }

  function Ascending(s: set<nat>): seq<nat>
    decreases s
  {
    if s == {} then []
    else
      LeastExists(s);
      var m :| m in s && Least(m, s);
      [m] + Ascending(s - {m})
  }

  lemma {:induction false} AscendingLength(s: set<nat>)
    ensures |Ascending(s)| == |s|
    ensures forall k :: 0 <= k < |Ascending(s)| ==> Ascending(s)[k] in s
    decreases s
  {
    if s != {} {
      var m := Ascending(s)[0];
      AscendingLength(s - {m});
    }
  }

  /** The `n` indices from `from` on. */
  function Range(from: nat, n: nat): (s: set<nat>)
    ensures forall k :: k in s <==> from <= k < from + n
    decreases n
  {
    if n == 0 then {} else {from} + Range(from + 1, n - 1)
  }

  lemma AscendingHead(s: set<nat>, m: nat)
    requires m in s && Least(m, s)
    ensures Ascending(s) == [m] + Ascending(s - {m})
  {
  }

  function Upwards(from: nat, n: nat): seq<nat>
    decreases n
  {
    if n == 0 then [] else [from] + Upwards(from + 1, n - 1)
  }

  lemma {:induction false} UpwardsAt(from: nat, n: nat)
    ensures |Upwards(from, n)| == n && forall k :: 0 <= k < n ==> Upwards(from, n)[k] == from + k
    decreases n
  {
    if n > 0 {
      UpwardsAt(from + 1, n - 1);
    }
  }

  lemma RangeTail(from: nat, n: nat)
    requires n > 0
    ensures Least(from, Range(from, n)) && Range(from, n) - {from} == Range(from + 1, n - 1)
      && from !in Range(from + 1, n - 1)
  {
  }

  lemma {:induction false} RangeAscends(from: nat, n: nat)
    ensures Ascending(Range(from, n)) == Upwards(from, n) && |Range(from, n)| == n
    decreases n
  {
    if n > 0 {
      RangeAscends(from + 1, n - 1);
      RangeTail(from, n);
      AscendingHead(Range(from, n), from);
    }
  }

  function ChunkIndices(rows: Rows, run: nat, attempt: nat): set<nat> {
    set key | key in rows && key.run == run && key.attempt == attempt :: key.chunk
  }

  /** The attempt's rows, ordered by chunk index. */
  function Records(rows: Rows, run: nat, attempt: nat): (s: seq<nat>)
    ensures forall k :: 0 <= k < |s| ==> RowKey(run, attempt, s[k]) in rows
  {
    AscendingLength(ChunkIndices(rows, run, attempt));
    Ascending(ChunkIndices(rows, run, attempt))
  }

  // ---------------------------------------------------------------- validation against the manifest

  predicate RecordMatches(row: Row, chunk: nat, i: Invocation) {
    && row.status == RowSucceeded && chunk == i.chunk && row.identity == i.identity
    && row.provider == Some(i.provider) && row.model == Some(i.model) && row.responseId == Some(i.responseId)
    && row.usage == i.usage && row.claimCount == i.claimCount
  }

  predicate Validates(rows: Rows, run: nat, attempt: nat, manifest: seq<Invocation>) {
    var records := Records(rows, run, attempt);
    && |records| == |manifest|
    && forall k :: 0 <= k < |records| ==> RecordMatches(rows[RowKey(run, attempt, records[k])], records[k], manifest[k])
  }

  /** `_validate_invocations` */
  method ValidateInvocations(rows: Rows, run: nat, attempt: nat, manifest: seq<Invocation>) returns (ok: bool)
    ensures ok == Validates(rows, run, attempt, manifest)
  {
    var records := Records(rows, run, attempt);
    if |records| != |manifest| {
      return false;
    }
    for k := 0 to |records|
      invariant forall j :: 0 <= j < k ==>
        RecordMatches(rows[RowKey(run, attempt, records[j])], records[j], manifest[j])
    {
      if !RecordMatches(rows[RowKey(run, attempt, records[k])], records[k], manifest[k]) {
        return false;
      }
    }
    return true;
  }

  ghost predicate NoStaleRow(x: Execution, rows: Rows, n: nat) {
    forall key :: key in rows && key.run == x.run && key.attempt == x.attempt ==> key.chunk < n
  }

  lemma RowsPerChunk(x: Execution, rows: Rows, chunks: seq<Chunk>, k: nat)
    requires Indexed(chunks, 0) && Work(x, rows, chunks).1.Completed?
    ensures RowKey(x.run, x.attempt, k) in Work(x, rows, chunks).0
      <==> k < |chunks| || RowKey(x.run, x.attempt, k) in rows
  {
    var (after, end) := Work(x, rows, chunks);
    WorkIsFramed(x, rows, chunks, 0);
    CompletedIsTraced(x, rows, chunks, 0);
    if k < |chunks| {
      assert TracedAt(x, after, chunks[k], end.invocations[k]);
    }
  }

  lemma InChunkIndices(rows: Rows, run: nat, attempt: nat, k: nat)
    ensures k in ChunkIndices(rows, run, attempt) <==> RowKey(run, attempt, k) in rows
  {
  }

  lemma IndicesAfter(x: Execution, rows: Rows, chunks: seq<Chunk>)
    requires Indexed(chunks, 0) && Work(x, rows, chunks).1.Completed?
    ensures Range(0, |chunks|) <= ChunkIndices(Work(x, rows, chunks).0, x.run, x.attempt)
    ensures NoStaleRow(x, rows, |chunks|)
      <==> ChunkIndices(Work(x, rows, chunks).0, x.run, x.attempt) == Range(0, |chunks|)
  {
    var after := Work(x, rows, chunks).0;
    forall k: nat
      ensures k in ChunkIndices(after, x.run, x.attempt) <==> k < |chunks| || RowKey(x.run, x.attempt, k) in rows {
      RowsPerChunk(x, rows, chunks, k);
      InChunkIndices(after, x.run, x.attempt, k);
    }
    if NoStaleRow(x, rows, |chunks|) {
      assert ChunkIndices(after, x.run, x.attempt) == Range(0, |chunks|);
    } else {
      var key :| key in rows && key.run == x.run && key.attempt == x.attempt && key.chunk >= |chunks|;
      assert key == RowKey(x.run, x.attempt, key.chunk);
    }
  }

  lemma RecordsOfRange(rows: Rows, run: nat, attempt: nat, n: nat)
    requires ChunkIndices(rows, run, attempt) == Range(0, n)
    ensures |Records(rows, run, attempt)| == n && forall k :: 0 <= k < n ==> Records(rows, run, attempt)[k] == k
  {
    RangeAscends(0, n);
    UpwardsAt(0, n);
  }

  lemma AllRecordsMatch(x: Execution, rows: Rows, chunks: seq<Chunk>)
    requires Indexed(chunks, 0) && Work(x, rows, chunks).1.Completed?
    requires ChunkIndices(Work(x, rows, chunks).0, x.run, x.attempt) == Range(0, |chunks|)
    ensures Validates(Work(x, rows, chunks).0, x.run, x.attempt, Work(x, rows, chunks).1.invocations)
  {
    var (after, end) := Work(x, rows, chunks);
    CompletedIsTraced(x, rows, chunks, 0);
    RecordsOfRange(after, x.run, x.attempt, |chunks|);
    var records := Records(after, x.run, x.attempt);
    forall k | 0 <= k < |records|
      ensures RecordMatches(after[RowKey(x.run, x.attempt, records[k])], records[k], end.invocations[k]) {
      assert TracedAt(x, after, chunks[k], end.invocations[k]);
    }
  }

  /**
   * After a complete pass the rows match the manifest, unless the attempt number still carries a row for a chunk
   * that the document no longer has: that is the one condition under which validation can fail.
   */
  lemma ValidationIsExact(x: Execution, rows: Rows, chunks: seq<Chunk>)
    requires Chunked(x, chunks) && Work(x, rows, chunks).1.Completed?
    ensures Validates(Work(x, rows, chunks).0, x.run, x.attempt, Work(x, rows, chunks).1.invocations)
      <==> NoStaleRow(x, rows, |chunks|)
  {
    var (after, end) := Work(x, rows, chunks);
    ChunkedIsIndexed(x, chunks);
    IndicesAfter(x, rows, chunks);
    CompletedIsTraced(x, rows, chunks, 0);
    RangeAscends(0, |chunks|);
    if NoStaleRow(x, rows, |chunks|) {
      AllRecordsMatch(x, rows, chunks);
    } else {
      ProperSubset(Range(0, |chunks|), ChunkIndices(after, x.run, x.attempt));
      AscendingLength(ChunkIndices(after, x.run, x.attempt));
    }
  }

  lemma {:induction false} ProperSubset(a: set<nat>, b: set<nat>)
    requires a < b
    ensures |a| < |b|
    decreases a
  {
    if a != {} {
      var x :| x in a;
      ProperSubset(a - {x}, b - {x});
    }
  }

  // ---------------------------------------------------------------- storing

  datatype StoredClaim = StoredClaim(run: nat, claim: CandidateClaim, provider: string, model: string)

  /** One result row per run; the manifest digest is taken as injective, so the row keeps the manifest. */
  datatype ResultRow = ResultRow(text: string, manifest: seq<Invocation>, claimCount: nat, usage: Usage)

  datatype Store = Store(rows: Rows, claims: seq<StoredClaim>, results: map<nat, ResultRow>)

  datatype PersistError = TargetChanged | InvocationsDiffer | SeveralProviders | EvidenceDiffers

  /** Why an attempt ends before the first chunk. */
  datatype Obstacle = TargetUnavailable | TextTooLarge | TextBlank | ContextBlank

  datatype Outcome =
    | AlreadyExtracted
    | NotStarted(obstacle: Obstacle)
    | Interrupted(end: End)
    | Refused(error: PersistError)
    | Stored(claimCount: nat)

  /** `knowledge_document_max_bytes` */
  const DOCUMENT_MAX_BYTES: nat := 2 * 1024 * 1024

  predicate ContextBlanks(x: Execution) {
    || Blank(x.promptVersion) || Blank(x.schemaVersion)
    || Blank(x.document.subjectKey) || Blank(x.document.locale) || Blank(x.document.region)
  }

  /** The first reason against starting the harness; none when the target, its text and its context are usable. */
  function FirstObstacle(x: Execution): Option<Obstacle> {
    if !x.targetFound then Some(TargetUnavailable)
    else if EvidenceCapture.Utf8Size(x.document.text) > x.maxBytes then Some(TextTooLarge)
    else if Blank(x.document.text) then Some(TextBlank)
    else if ContextBlanks(x) then Some(ContextBlank)
    else None
  }

  /** Every evidence quote is exactly the text at its offset. */
  predicate EvidenceExact(text: string, c: CandidateClaim) {
    forall i :: 0 <= i < |c.evidence| ==> OccursAt(text, c.evidence[i].quote, c.evidence[i].start)
  }

  function Providers(manifest: seq<Invocation>): set<(string, string)> {
    set i | 0 <= i < |manifest| :: (manifest[i].provider, manifest[i].model)
  }

  function ClaimRows(run: nat, claims: seq<CandidateClaim>, provider: string, model: string): seq<StoredClaim> {
    seq(|claims|, i requires 0 <= i < |claims| => StoredClaim(run, claims[i], provider, model))
  }

  /** `persist_result` after a complete pass. */
  function Persist(s: Store, x: Execution, end: End): (Store, Outcome)
    requires end.Completed?
  {
    var claims := Distinct(end.claims);
    if x.run in s.results then (s, Stored(s.results[x.run].claimCount))
    else if !x.targetKept then (s, Refused(TargetChanged))
    else if !Validates(s.rows, x.run, x.attempt, end.invocations) then (s, Refused(InvocationsDiffer))
    else if |Providers(end.invocations)| != 1 then (s, Refused(SeveralProviders))
    else if exists i :: 0 <= i < |claims| && !EvidenceExact(x.document.text, claims[i])
      then (s, Refused(EvidenceDiffers))
    else
      var i := end.invocations[0];
      (Store(s.rows, s.claims + ClaimRows(x.run, claims, i.provider, i.model),
             s.results[x.run := ResultRow(x.document.text, end.invocations, |claims|, end.usage)]),
       Stored(|claims|))
  }

  /** `KnowledgeExtractionHandlers.extract`: one attempt at a run. */
  function Extract(s: Store, x: Execution, chunks: seq<Chunk>): (Store, Outcome) {
    if x.run in s.results then (s, AlreadyExtracted)
    else if FirstObstacle(x).Some? then (s, NotStarted(FirstObstacle(x).value))
    else
      var (rows, end) := Work(x, s.rows, chunks);
      if end.Completed? then Persist(s.(rows := rows), x, end) else (s.(rows := rows), Interrupted(end))
  }

  // ---------------------------------------------------------------- histories of attempts

  /** What stays fixed for every attempt at a run: its document, chunking and versions. */
  datatype Corpus = Corpus(inputs: nat -> Execution, chunks: nat -> seq<Chunk>)

  ghost predicate Usable(corpus: Corpus) {
    forall run: nat :: Chunked(corpus.inputs(run), corpus.chunks(run))
  }

  /** Attempt numbers and gateway behaviour are free; everything else is the run's. */
  ghost predicate AttemptOf(corpus: Corpus, x: Execution) {
    var base := corpus.inputs(x.run);
    && x.document == base.document && x.chunker == base.chunker
    && x.promptVersion == base.promptVersion && x.schemaVersion == base.schemaVersion
  }

  ghost predicate RowFits(corpus: Corpus, key: RowKey, row: Row) {
    && key.chunk < |corpus.chunks(key.run)|
    && row.identity == corpus.inputs(key.run).IdentityOf(corpus.chunks(key.run)[key.chunk])
  }

  ghost predicate RowsFit(corpus: Corpus, rows: Rows) {
    forall key :: key in rows ==> RowFits(corpus, key, rows[key])
  }

  function ClaimsOf(claims: seq<StoredClaim>, run: nat): nat {
    if claims == [] then 0
    else ClaimsOf(claims[..|claims| - 1], run) + if claims[|claims| - 1].run == run then 1 else 0
  }

  /** A run has claims exactly with its result row, as many as the row says, each quoting the row's text. */
  ghost predicate Accounted(s: Store) {
    && (forall run: nat :: ClaimsOf(s.claims, run) == if run in s.results then s.results[run].claimCount else 0)
    && (forall i :: 0 <= i < |s.claims| ==> Sourced(s.results, s.claims[i]))
  }

  ghost predicate Sourced(results: map<nat, ResultRow>, c: StoredClaim) {
    c.run in results && EvidenceExact(results[c.run].text, c.claim)
  }

  /** The result of every run is the trace of one of its attempts. */
  ghost predicate ResultsTraced(s: Store) {
    forall run :: run in s.results ==> TracedResult(s.rows, run, s.results[run])
  }

  ghost predicate TracedResult(rows: Rows, run: nat, r: ResultRow) {
    r.usage == TotalUsage(r.manifest) && exists attempt :: Validates(rows, run, attempt, r.manifest)
  }

  function TotalUsage(manifest: seq<Invocation>): Usage {
    if manifest == [] then NO_USAGE else Plus(manifest[0].usage, TotalUsage(manifest[1..]))
  }

  ghost predicate Sound(corpus: Corpus, s: Store) {
    RowsFit(corpus, s.rows) && Accounted(s) && ResultsTraced(s)
  }

  lemma FitsAsBase(corpus: Corpus, x: Execution, k: nat)
    requires AttemptOf(corpus, x) && k < |corpus.chunks(x.run)|
    ensures x.IdentityOf(corpus.chunks(x.run)[k]) == corpus.inputs(x.run).IdentityOf(corpus.chunks(x.run)[k])
  {
  }

  /** Working off the rest of a run's chunks keeps every row fitting, and never finds a changed identity. */
  lemma {:induction false} WorkFits(corpus: Corpus, x: Execution, rows: Rows, from: nat)
    requires AttemptOf(corpus, x) && RowsFit(corpus, rows)
    requires from <= |corpus.chunks(x.run)| && Indexed(corpus.chunks(x.run), 0)
    ensures var (after, end) := Work(x, rows, corpus.chunks(x.run)[from..]);
      RowsFit(corpus, after) && !end.IdentityChanged?
    decreases |corpus.chunks(x.run)| - from
  {
    var all := corpus.chunks(x.run);
    if from < |all| {
      var chunks := all[from..];
      var chunk := chunks[0];
      assert chunk == all[from] && chunk.index == from && chunks[1..] == all[from + 1..];
      FitsAsBase(corpus, x, from);
      var key := x.KeyOf(chunk);
      var started := Started(rows, key, x.IdentityOf(chunk));
      assert started.Some? by {
        assert key in rows ==> RowFits(corpus, key, rows[key]);
      }
      var reply := x.gateway(chunk.index, x.RequestFor(chunk));
      if reply.Answered? {
        WorkFits(corpus, x, started.value[key := SucceededRow(InvocationOf(x, chunk, reply.result))], from + 1);
      }
    }
  }

  lemma {:induction false} WorkAddsUsage(x: Execution, rows: Rows, chunks: seq<Chunk>)
    ensures var end := Work(x, rows, chunks).1; end.Completed? ==> end.usage == TotalUsage(end.invocations)
    decreases |chunks|
  {
    if chunks != [] {
      var chunk := chunks[0];
      var started := Started(rows, x.KeyOf(chunk), x.IdentityOf(chunk));
      var reply := x.gateway(chunk.index, x.RequestFor(chunk));
      if started.Some? && reply.Answered? {
        var i := InvocationOf(x, chunk, reply.result);
        var next := started.value[x.KeyOf(chunk) := SucceededRow(i)];
        WorkAddsUsage(x, next, chunks[1..]);
        var end := Work(x, next, chunks[1..]).1;
        if end.Completed? {
          assert ([i] + end.invocations)[1..] == end.invocations;
        }
      }
    }
  }

  lemma SameRowsSameRecords(before: Rows, after: Rows, run: nat, attempt: nat, manifest: seq<Invocation>)
    requires Validates(before, run, attempt, manifest)
    requires forall key: RowKey :: key.run == run ==>
      (key in before <==> key in after) && (key in before ==> before[key] == after[key])
    ensures Validates(after, run, attempt, manifest)
  {
    forall k ensures k in ChunkIndices(before, run, attempt) <==> k in ChunkIndices(after, run, attempt) {
      assert k in ChunkIndices(before, run, attempt) <==> k >= 0 && RowKey(run, attempt, k) in before;
      assert k in ChunkIndices(after, run, attempt) <==> k >= 0 && RowKey(run, attempt, k) in after;
    }
    assert ChunkIndices(before, run, attempt) == ChunkIndices(after, run, attempt);
  }

  /** An attempt at one run leaves the results of other runs traced. */
  lemma OtherResultsTraced(x: Execution, s: Store, chunks: seq<Chunk>)
    requires ResultsTraced(s) && x.run !in s.results && Indexed(chunks, 0)
    ensures ResultsTraced(s.(rows := Work(x, s.rows, chunks).0))
  {
    var after := Work(x, s.rows, chunks).0;
    WorkIsFramed(x, s.rows, chunks, 0);
    forall run | run in s.results ensures TracedResult(after, run, s.results[run]) {
      assert TracedResult(s.rows, run, s.results[run]);
      var attempt :| Validates(s.rows, run, attempt, s.results[run].manifest);
      SameRowsSameRecords(s.rows, after, run, attempt, s.results[run].manifest);
    }
  }

  lemma {:induction false} ClaimRowsCount(claims: seq<StoredClaim>, more: seq<StoredClaim>, run: nat, other: nat)
    requires forall i :: 0 <= i < |more| ==> more[i].run == run
    ensures ClaimsOf(claims + more, other) == ClaimsOf(claims, other) + if other == run then |more| else 0
  {
    if more == [] {
      assert claims + more == claims;
    } else {
      ClaimRowsCount(claims, more[..|more| - 1], run, other);
      assert (claims + more)[..|claims + more| - 1] == claims + more[..|more| - 1];
    }
  }

  lemma StoringIsAccounted(s: Store, run: nat, rows: seq<StoredClaim>, r: ResultRow)
    requires Accounted(s) && run !in s.results && r.claimCount == |rows|
    requires forall i :: 0 <= i < |rows| ==> rows[i].run == run && EvidenceExact(r.text, rows[i].claim)
    ensures Accounted(s.(claims := s.claims + rows, results := s.results[run := r]))
  {
    var claims, results := s.claims + rows, s.results[run := r];
    forall other: nat ensures ClaimsOf(claims, other) == if other in results then results[other].claimCount else 0 {
      ClaimRowsCount(s.claims, rows, run, other);
    }
    forall i | 0 <= i < |claims| ensures Sourced(results, claims[i]) {
      if i < |s.claims| {
        assert Sourced(s.results, s.claims[i]);
      }
    }
  }

  lemma NewResultTraced(s: Store, run: nat, r: ResultRow)
    requires ResultsTraced(s) && run !in s.results && TracedResult(s.rows, run, r)
    ensures ResultsTraced(s.(results := s.results[run := r]))
  {
  }

  /**
   * Every attempt keeps the tables sound. It never meets a row with another identity, and if all its chunks went
   * through, its rows match the manifest, however often the attempt number was used before.
   */
  lemma ExtractKeepsSound(corpus: Corpus, s: Store, x: Execution)
    requires Usable(corpus) && AttemptOf(corpus, x) && Sound(corpus, s)
    ensures var (t, outcome) := Extract(s, x, corpus.chunks(x.run));
      && Sound(corpus, t)
      && outcome != Refused(InvocationsDiffer)
      && (outcome.Interrupted? ==> !outcome.end.IdentityChanged?)
  {
    var chunks := corpus.chunks(x.run);
    assert Chunked(corpus.inputs(x.run), chunks);
    ChunkedIsIndexed(x, chunks);
    assert chunks[0..] == chunks;
    if x.run !in s.results {
      WorkFits(corpus, x, s.rows, 0);
      OtherResultsTraced(x, s, chunks);
      var (rows, end) := Work(x, s.rows, chunks);
      if end.Completed? {
        CompletedKeepsSound(corpus, s, x);
      }
    }
  }

  lemma CompletedKeepsSound(corpus: Corpus, s: Store, x: Execution)
    requires Usable(corpus) && AttemptOf(corpus, x) && RowsFit(corpus, s.rows) && x.run !in s.results
    requires Work(x, s.rows, corpus.chunks(x.run)).1.Completed?
    requires var mid := s.(rows := Work(x, s.rows, corpus.chunks(x.run)).0); Sound(corpus, mid)
    ensures var (t, outcome) := Persist(s.(rows := Work(x, s.rows, corpus.chunks(x.run)).0), x,
                                        Work(x, s.rows, corpus.chunks(x.run)).1);
      Sound(corpus, t) && outcome != Refused(InvocationsDiffer)
  {
    var chunks := corpus.chunks(x.run);
    assert Chunked(corpus.inputs(x.run), chunks);
    ValidationIsExact(x, s.rows, chunks);
    assert NoStaleRow(x, s.rows, |chunks|) by {
      forall key | key in s.rows && key.run == x.run ensures key.chunk < |chunks| {
        assert RowFits(corpus, key, s.rows[key]);
      }
    }
    WorkAddsUsage(x, s.rows, chunks);
    var (rows, end) := Work(x, s.rows, chunks);
    PersistKeepsSound(corpus, s.(rows := rows), x, end);
  }

  lemma PersistKeepsSound(corpus: Corpus, s: Store, x: Execution, end: End)
    requires Sound(corpus, s) && x.run !in s.results && end.Completed? && end.usage == TotalUsage(end.invocations)
    ensures Sound(corpus, Persist(s, x, end).0)
  {
    var (t, outcome) := Persist(s, x, end);
    if outcome.Stored? {
      var claims := Distinct(end.claims);
      var r := t.results[x.run];
      var rows := ClaimRows(x.run, claims, end.invocations[0].provider, end.invocations[0].model);
      StoringIsAccounted(s, x.run, rows, r);
      NewResultTraced(s, x.run, r);
    }
  }

  const EMPTY := Store(map[], [], map[])

  ghost function Attempts(corpus: Corpus, xs: seq<Execution>): Store {
    if xs == [] then EMPTY
    else Extract(Attempts(corpus, xs[..|xs| - 1]), xs[|xs| - 1], corpus.chunks(xs[|xs| - 1].run)).0
  }

  /** The store after some attempts at the corpus' runs, in any order, with any attempt numbers and gateways. */
  ghost predicate Reachable(corpus: Corpus, s: Store) {
    exists xs: seq<Execution> :: (forall i :: 0 <= i < |xs| ==> AttemptOf(corpus, xs[i])) && s == Attempts(corpus, xs)
  }

  lemma {:induction false} AttemptsAreSound(corpus: Corpus, xs: seq<Execution>)
    requires Usable(corpus) && forall i :: 0 <= i < |xs| ==> AttemptOf(corpus, xs[i])
    ensures Sound(corpus, Attempts(corpus, xs))
  {
    if xs != [] {
      AttemptsAreSound(corpus, xs[..|xs| - 1]);
      ExtractKeepsSound(corpus, Attempts(corpus, xs[..|xs| - 1]), xs[|xs| - 1]);
    }
  }

  /** In every reachable store, whatever attempt comes next, complete passes validate and tables stay accounted. */
  lemma ValidationAlwaysPasses(corpus: Corpus, s: Store, x: Execution)
    requires Usable(corpus) && Reachable(corpus, s) && AttemptOf(corpus, x)
    ensures Sound(corpus, s)
    ensures var (t, outcome) := Extract(s, x, corpus.chunks(x.run));
      && Sound(corpus, t) && outcome != Refused(InvocationsDiffer)
      && (outcome.Interrupted? ==> !outcome.end.IdentityChanged?)
  {
    var xs: seq<Execution> :| (forall i :: 0 <= i < |xs| ==> AttemptOf(corpus, xs[i])) && s == Attempts(corpus, xs);
    AttemptsAreSound(corpus, xs);
    ExtractKeepsSound(corpus, s, x);
  }

  // ---------------------------------------------------------------- captured documents

  /** The document is the stored text of a captured page, and the chunker is the default one. */
  ghost predicate Captured(x: Execution, visible: string) {
    && x.chunker == Chunker(DEFAULT_MAX_CHARS, DEFAULT_OVERLAP_CHARS)
    && EvidenceCapture.StoredText(visible, EvidenceCapture.HTML_MAX_BYTES) == Success(x.document.text)
  }

  lemma CapturedHasNoBlankChunk(x: Execution, chunks: seq<Chunk>, visible: string)
    requires Captured(x, visible) && Chunked(x, chunks)
    ensures NoBlankChunk(chunks)
  {
    var text := x.document.text;
    EvidenceCapture.CapturedTextHasNoGap(visible);
    assert EvidenceCapture.GapsWithin(text, x.chunker.overlap);
    ShortGapsLeaveNoBlankChunk(x.chunker, text, chunks);
  }

  lemma FittingRowsAreTheSame(corpus: Corpus, x: Execution, rows: Rows)
    requires AttemptOf(corpus, x) && RowsFit(corpus, rows) && Indexed(corpus.chunks(x.run), 0)
    ensures SameIdentities(x, rows, corpus.chunks(x.run))
  {
    var chunks := corpus.chunks(x.run);
    forall k | 0 <= k < |chunks| ensures SameIdentity(x, rows, chunks[k]) {
      FitsAsBase(corpus, x, k);
      assert x.KeyOf(chunks[k]) in rows ==> RowFits(corpus, x.KeyOf(chunks[k]), rows[x.KeyOf(chunks[k])]);
    }
  }

  lemma CapturedWorkCompletes(corpus: Corpus, rows: Rows, x: Execution, visible: string)
    requires Usable(corpus) && RowsFit(corpus, rows) && AttemptOf(corpus, x)
    requires Captured(x, visible) && Obliging(x)
    ensures Work(x, rows, corpus.chunks(x.run)).1.Completed?
  {
    var chunks := corpus.chunks(x.run);
    assert Chunked(corpus.inputs(x.run), chunks);
    ChunkedIsIndexed(x, chunks);
    CapturedHasNoBlankChunk(x, chunks, visible);
    FittingRowsAreTheSame(corpus, x, rows);
    CompletesUnlessBlank(x, rows, chunks, 0);
  }

  /** What an attempt at a captured document can end with, once the gateway answers every request. */
  predicate CapturedOutcome(outcome: Outcome) {
    || outcome in {AlreadyExtracted, Refused(TargetChanged), Refused(SeveralProviders), Refused(EvidenceDiffers)}
    || outcome in {NotStarted(TargetUnavailable), NotStarted(TextTooLarge), NotStarted(ContextBlank)}
    || outcome.Stored?
  }

  lemma CompletedOutcome(s: Store, x: Execution, chunks: seq<Chunk>)
    requires Work(x, s.rows, chunks).1.Completed? && !Blank(x.document.text)
    requires Extract(s, x, chunks).1 != Refused(InvocationsDiffer)
    ensures CapturedOutcome(Extract(s, x, chunks).1)
  {
  }

  /**
   * The harness never stops on the way through a captured document: whatever was attempted before, a gateway that
   * answers every request completes every pass that is started.
   */
  lemma CapturedDocumentCompletes(corpus: Corpus, s: Store, x: Execution, visible: string)
    requires Usable(corpus) && Reachable(corpus, s) && AttemptOf(corpus, x)
    requires Captured(x, visible) && Obliging(x)
    ensures Work(x, s.rows, corpus.chunks(x.run)).1.Completed?
    ensures CapturedOutcome(Extract(s, x, corpus.chunks(x.run)).1)
  {
    ValidationAlwaysPasses(corpus, s, x);
    CapturedWorkCompletes(corpus, s.rows, x, visible);
    EvidenceCapture.CapturedTextHasNoGap(visible);
    CompletedOutcome(s, x, corpus.chunks(x.run));
  }

  /** Every answer is from one provider and model, and quotes the document exactly. */
  ghost predicate Truthful(x: Execution, provider: string, model: string) {
    forall n: nat, r: Request :: TruthfulAt(x, n, r, provider, model)
  }

  ghost predicate TruthfulAt(x: Execution, n: nat, r: Request, provider: string, model: string) {
    x.gateway(n, r).Answered? ==>
      && x.gateway(n, r).result.provider == provider && x.gateway(n, r).result.model == model
      && AllExact(x.document.text, x.gateway(n, r).result.claims)
  }

  ghost predicate AllExact(text: string, claims: seq<CandidateClaim>) {
    forall i :: 0 <= i < |claims| ==> EvidenceExact(text, claims[i])
  }

  ghost predicate AllFrom(manifest: seq<Invocation>, provider: string, model: string) {
    forall k :: 0 <= k < |manifest| ==> manifest[k].provider == provider && manifest[k].model == model
  }

  lemma {:induction false} TruthfulWork(x: Execution, rows: Rows, chunks: seq<Chunk>, provider: string, model: string)
    requires Truthful(x, provider, model)
    ensures var end := Work(x, rows, chunks).1;
      end.Completed? ==> AllFrom(end.invocations, provider, model) && AllExact(x.document.text, end.claims)
    decreases |chunks|
  {
    if chunks != [] {
      var chunk := chunks[0];
      var started := Started(rows, x.KeyOf(chunk), x.IdentityOf(chunk));
      var reply := x.gateway(chunk.index, x.RequestFor(chunk));
      assert TruthfulAt(x, chunk.index, x.RequestFor(chunk), provider, model);
      if started.Some? && reply.Answered? {
        TruthfulWork(x, started.value[x.KeyOf(chunk) := SucceededRow(InvocationOf(x, chunk, reply.result))],
                     chunks[1..], provider, model);
      }
    }
  }

  lemma {:induction false} DistinctIsExact(text: string, claims: seq<CandidateClaim>)
    requires AllExact(text, claims)
    ensures AllExact(text, Distinct(claims))
  {
    if claims != [] {
      DistinctIsExact(text, claims[..|claims| - 1]);
    }
  }

  lemma OneProvider(manifest: seq<Invocation>, provider: string, model: string)
    requires AllFrom(manifest, provider, model) && manifest != []
    ensures |Providers(manifest)| == 1
  {
    assert (manifest[0].provider, manifest[0].model) in Providers(manifest);
    assert Providers(manifest) == {(provider, model)};
  }

  lemma TruthfulIsStored(corpus: Corpus, s: Store, x: Execution, provider: string, model: string)
    requires Usable(corpus) && AttemptOf(corpus, x) && x.run !in s.results && Truthful(x, provider, model)
    requires Work(x, s.rows, corpus.chunks(x.run)).1.Completed?
    requires FirstObstacle(x) == None && x.targetKept
    requires Extract(s, x, corpus.chunks(x.run)).1 != Refused(InvocationsDiffer)
    ensures Extract(s, x, corpus.chunks(x.run)).1 == Stored(|Distinct(Work(x, s.rows, corpus.chunks(x.run)).1.claims)|)
  {
    var chunks := corpus.chunks(x.run);
    var end := Work(x, s.rows, chunks).1;
    TruthfulWork(x, s.rows, chunks, provider, model);
    DistinctIsExact(x.document.text, end.claims);
    assert Chunked(corpus.inputs(x.run), chunks);
    ChunkedIsIndexed(x, chunks);
    CompletedIsTraced(x, s.rows, chunks, 0);
    OneProvider(end.invocations, provider, model);
  }

  /**
   * From page to stored claims: with a gateway that answers everything, from one provider and with exact quotes, an
   * attempt at a captured document without a result stores one if and only if the target can be read, the text is
   * within the handler's byte limit, the context is filled in and the target has not changed by the end.
   */
  lemma CapturedDocumentIsStored(corpus: Corpus, s: Store, x: Execution, visible: string, provider: string,
                                 model: string)
    requires Usable(corpus) && Reachable(corpus, s) && AttemptOf(corpus, x) && x.run !in s.results
    requires Captured(x, visible) && Obliging(x) && Truthful(x, provider, model)
    ensures Extract(s, x, corpus.chunks(x.run)).1.Stored?
      <==> x.targetFound && EvidenceCapture.Utf8Size(x.document.text) <= x.maxBytes && !ContextBlanks(x) && x.targetKept
    ensures var (t, outcome) := Extract(s, x, corpus.chunks(x.run));
      outcome.Stored? ==> outcome.claimCount == |Distinct(Work(x, s.rows, corpus.chunks(x.run)).1.claims)|
  {
    ValidationAlwaysPasses(corpus, s, x);
    CapturedDocumentCompletes(corpus, s, x, visible);
    EvidenceCapture.CapturedTextHasNoGap(visible);
    if FirstObstacle(x) == None && x.targetKept {
      TruthfulIsStored(corpus, s, x, provider, model);
    }
  }

  const LARGE_PAGE: nat := 3 * 1024 * 1024

  /** An instance: with the default settings a page of three mebibytes is captured, and no attempt ever extracts it. */
  lemma LargePageIsNeverExtracted(s: Store, x: Execution, chunks: seq<Chunk>)
    requires x.document.text == EvidenceCapture.LongWord(LARGE_PAGE) && x.maxBytes == DOCUMENT_MAX_BYTES
    requires x.run !in s.results
    ensures EvidenceCapture.StoredText(EvidenceCapture.LongWord(LARGE_PAGE), EvidenceCapture.HTML_MAX_BYTES)
      == Success(x.document.text)
    ensures Extract(s, x, chunks) == (s, NotStarted(if x.targetFound then TextTooLarge else TargetUnavailable))
  {
    EvidenceCapture.LongWordIsStored(LARGE_PAGE, EvidenceCapture.HTML_MAX_BYTES);
  }
}
