/** Chunk-by-chunk claim extraction with one durable invocation row per run, attempt and chunk. */
module ExtractionHarness {
  import opened Prelude
  import opened TextChunking
  import EvidenceCapture

  datatype Document = Document(sourceVersion: nat, subjectKey: string, text: string, locale: string, region: string)

  /** A request is its own fingerprint: the SHA-256 digest over all its fields is taken as injective. */
  datatype Request = Request(
    sourceVersion: nat, subjectKey: string, text: string, textStart: nat, locale: string, region: string,
    promptVersion: string, schemaVersion: string)

  datatype Span = Span(start: nat, quote: string)

  datatype CandidateClaim = CandidateClaim(
    predicate_: string, kind: string, value: string, confidence: real, evidence: seq<Span>)

  datatype Usage = Usage(input: nat, output: nat, total: nat)

  datatype Extraction = Extraction(
    provider: string, model: string, responseId: string, fingerprint: Request, claims: seq<CandidateClaim>,
    usage: Usage)

  /** What the gateway call comes to; the worker process may also die during it. */
  datatype Reply = Answered(result: Extraction) | Raised(error: string) | Died

  datatype RowStatus = RowRunning | RowSucceeded | RowFailed

  datatype Identity = Identity(chunkId: ChunkId, start: nat, end: nat, fingerprint: Request)

  datatype Row = Row(
    identity: Identity, status: RowStatus, provider: Option<string>, model: Option<string>, responseId: Option<string>,
    usage: Usage, claimCount: nat, error: Option<string>)

  datatype RowKey = RowKey(run: nat, attempt: nat, chunk: nat)

  type Rows = map<RowKey, Row>

  datatype Invocation = Invocation(
    chunk: nat, identity: Identity, provider: string, model: string, responseId: string, usage: Usage, claimCount: nat)

  const NO_USAGE := Usage(0, 0, 0)

  function Plus(u: Usage, v: Usage): Usage {
    Usage(u.input + v.input, u.output + v.output, u.total + v.total)
  }

  // ---------------------------------------------------------------- the observer's row updates

  function FreshRow(identity: Identity): Row {
    Row(identity, RowRunning, None, None, None, NO_USAGE, 0, None)
  }

  /** `started`: None when the stored identity is another one. */
  function Started(rows: Rows, key: RowKey, identity: Identity): Option<Rows> {
    if key !in rows then Some(rows[key := FreshRow(identity)])
    else if rows[key].identity != identity then None
    else if rows[key].status == RowSucceeded then Some(rows)
    else Some(rows[key := FreshRow(identity)])
  }

  /** The row that a successful invocation leaves behind. */
  function SucceededRow(i: Invocation): Row {
    Row(i.identity, RowSucceeded, Some(i.provider), Some(i.model), Some(i.responseId), i.usage, i.claimCount, None)
  }

  function Truncated(s: string): string {
    if |s| <= 80 then s else s[..80]
  }

  function FailedRow(row: Row, error: string): Row {
    row.(status := RowFailed, error := Some(Truncated(error)))
  }

  // ---------------------------------------------------------------- one execution of the harness

  /**
   * One attempt at one run: its inputs, the handler's byte limit, whether the target can be read before the harness
   * and still is the same afterwards, and how the gateway will behave on each chunk.
   */
  datatype Execution = Execution(
    run: nat, attempt: nat, document: Document, chunker: Chunker, promptVersion: string, schemaVersion: string,
    maxBytes: nat, targetFound: bool, targetKept: bool, gateway: (nat, Request) -> Reply)
  {
    function RequestFor(chunk: Chunk): Request {
      Request(document.sourceVersion, document.subjectKey, chunk.text, chunk.start, document.locale, document.region,
              promptVersion, schemaVersion)
    }

    function IdentityOf(chunk: Chunk): Identity {
      Identity(chunk.id, chunk.start, chunk.end, RequestFor(chunk))
    }

    function KeyOf(chunk: Chunk): RowKey {
      RowKey(run, attempt, chunk.index)
    }
  }

  datatype End =
    | Completed(invocations: seq<Invocation>, claims: seq<CandidateClaim>, usage: Usage)
    | BlankRequest(chunk: nat)
    | IdentityChanged(chunk: nat)
    | GatewayFailed(chunk: nat)
    | FingerprintMismatch(chunk: nat)
    | ProcessDied(chunk: nat)

  function InvocationOf(x: Execution, chunk: Chunk, r: Extraction): Invocation {
    Invocation(chunk.index, x.IdentityOf(chunk), r.provider, r.model, r.responseId, r.usage, |r.claims|)
  }

  function First(i: Invocation, claims: seq<CandidateClaim>, e: End): End {
    if e.Completed? then Completed([i] + e.invocations, claims + e.claims, Plus(i.usage, e.usage)) else e
  }

  /** The rows after working through `chunks`, and how that ended. */
  function Work(x: Execution, rows: Rows, chunks: seq<Chunk>): (Rows, End)
    decreases |chunks|
  {
    if chunks == [] then (rows, Completed([], [], NO_USAGE))
    else
      var chunk := chunks[0];
      var key, identity := x.KeyOf(chunk), x.IdentityOf(chunk);
      if Blank(chunk.text) then (rows, BlankRequest(chunk.index))
      else match Started(rows, key, identity)
        case None => (rows, IdentityChanged(chunk.index))
        case Some(started) =>
          match x.gateway(chunk.index, x.RequestFor(chunk))
          case Died => (started, ProcessDied(chunk.index))
          case Raised(error) => (started[key := FailedRow(started[key], error)], GatewayFailed(chunk.index))
          case Answered(r) =>
            if r.fingerprint != x.RequestFor(chunk) then
              (started[key := FailedRow(started[key], "RequestFingerprintMismatch")], FingerprintMismatch(chunk.index))
            else
              var i := InvocationOf(x, chunk, r);
              var (after, end) := Work(x, started[key := SucceededRow(i)], chunks[1..]);
              (after, First(i, r.claims, end))
  }

  // ---------------------------------------------------------------- what the rows say afterwards

  /** The document has a chunking; the default chunker has exactly one for every text that is not blank. */
  ghost predicate Chunked(x: Execution, chunks: seq<Chunk>) {
    Covers(x.chunker, x.document.text, chunks)
  }

  ghost predicate Indexed(chunks: seq<Chunk>, from: nat) {
    forall k :: 0 <= k < |chunks| ==> chunks[k].index == from + k
  }

  lemma ChunkedIsIndexed(x: Execution, chunks: seq<Chunk>)
    requires Chunked(x, chunks)
    ensures Indexed(chunks, 0)
  {
  }

  /** Rows outside the chunks being worked on stay as they are. */
  ghost predicate Framed(x: Execution, rows: Rows, after: Rows, from: nat, to: nat) {
    && rows.Keys <= after.Keys
    && (forall key :: key in after && key !in rows ==> Ours(x, key, from, to))
    && forall key :: key in rows && !Ours(x, key, from, to) ==> after[key] == rows[key]
  }

  ghost predicate Ours(x: Execution, key: RowKey, from: nat, to: nat) {
    key.run == x.run && key.attempt == x.attempt && from <= key.chunk < to
  }

  lemma {:induction false} WorkIsFramed(x: Execution, rows: Rows, chunks: seq<Chunk>, from: nat)
    requires Indexed(chunks, from)
    ensures Framed(x, rows, Work(x, rows, chunks).0, from, from + |chunks|)
    decreases |chunks|
  {
    if chunks != [] {
      var chunk, to := chunks[0], from + |chunks|;
      assert chunk.index == from;
      var key, identity := x.KeyOf(chunk), x.IdentityOf(chunk);
      match Started(rows, key, identity)
      case None =>
      case Some(started) =>
        match x.gateway(chunk.index, x.RequestFor(chunk))
        case Died =>
        case Raised(error) =>
        case Answered(r) =>
          assert Indexed(chunks[1..], from + 1);
          var next := started[key := SucceededRow(InvocationOf(x, chunk, r))];
          WorkIsFramed(x, next, chunks[1..], from + 1);
    }
  }

  /** When all chunks went through, each has its invocation, in order, and its row says exactly that. */
  ghost predicate Traced(x: Execution, after: Rows, chunks: seq<Chunk>, invocations: seq<Invocation>) {
    && |invocations| == |chunks|
    && forall k :: 0 <= k < |chunks| ==> TracedAt(x, after, chunks[k], invocations[k])
  }

  ghost predicate TracedAt(x: Execution, after: Rows, chunk: Chunk, i: Invocation) {
    && x.KeyOf(chunk) in after && after[x.KeyOf(chunk)] == SucceededRow(i)
    && i.chunk == chunk.index && i.identity == x.IdentityOf(chunk)
  }

  lemma {:induction false} CompletedIsTraced(x: Execution, rows: Rows, chunks: seq<Chunk>, from: nat)
    requires Indexed(chunks, from)
    ensures var (after, end) := Work(x, rows, chunks); end.Completed? ==> Traced(x, after, chunks, end.invocations)
    decreases |chunks|
  {
    var (after, end) := Work(x, rows, chunks);
    if chunks != [] && end.Completed? {
      var chunk := chunks[0];
      var key := x.KeyOf(chunk);
      assert chunk.index == from;
      var started := Started(rows, key, x.IdentityOf(chunk)).value;
      var i := InvocationOf(x, chunk, x.gateway(chunk.index, x.RequestFor(chunk)).result);
      var next := started[key := SucceededRow(i)];
      var rest := chunks[1..];
      assert Indexed(rest, from + 1);
      CompletedIsTraced(x, next, rest, from + 1);
      WorkIsFramed(x, next, rest, from + 1);
      forall k | 0 <= k < |chunks| ensures TracedAt(x, after, chunks[k], end.invocations[k]) {
        if k > 0 {
          assert TracedAt(x, after, rest[k - 1], end.invocations[1..][k - 1]);
        }
      }
    }
  }

  // ---------------------------------------------------------------- when a pass completes

  ghost predicate NoBlankChunk(chunks: seq<Chunk>) {
    forall k :: 0 <= k < |chunks| ==> !Blank(chunks[k].text)
  }

  /** The gateway answers every request, for that request. */
  ghost predicate Obliging(x: Execution) {
    forall n: nat, r: Request :: Obliges(x, n, r)
  }

  ghost predicate Obliges(x: Execution, n: nat, r: Request) {
    x.gateway(n, r).Answered? && x.gateway(n, r).result.fingerprint == r
  }

  /** No row of this attempt belongs to another request. */
  ghost predicate SameIdentities(x: Execution, rows: Rows, chunks: seq<Chunk>) {
    forall k :: 0 <= k < |chunks| ==> SameIdentity(x, rows, chunks[k])
  }

  ghost predicate SameIdentity(x: Execution, rows: Rows, chunk: Chunk) {
    x.KeyOf(chunk) in rows ==> rows[x.KeyOf(chunk)].identity == x.IdentityOf(chunk)
  }

  /** A chunk of whitespace can never be requested: with it no gateway completes a pass, without it a good one does. */
  lemma {:induction false} CompletesUnlessBlank(x: Execution, rows: Rows, chunks: seq<Chunk>, from: nat)
    requires Indexed(chunks, from)
    ensures Work(x, rows, chunks).1.Completed? ==> NoBlankChunk(chunks)
    ensures Obliging(x) && SameIdentities(x, rows, chunks) && NoBlankChunk(chunks)
      ==> Work(x, rows, chunks).1.Completed?
    decreases |chunks|
  {
    if chunks != [] {
      var chunk, rest := chunks[0], chunks[1..];
      assert chunk.index == from && Indexed(rest, from + 1);
      assert chunks == [chunk] + rest;
      var started := Started(rows, x.KeyOf(chunk), x.IdentityOf(chunk));
      var reply := x.gateway(chunk.index, x.RequestFor(chunk));
      if started.Some? && reply.Answered? {
        var next := started.value[x.KeyOf(chunk) := SucceededRow(InvocationOf(x, chunk, reply.result))];
        CompletesUnlessBlank(x, next, rest, from + 1);
        if SameIdentities(x, rows, chunks) {
          forall k | 0 <= k < |rest| ensures SameIdentity(x, next, rest[k]) {
            assert SameIdentity(x, rows, chunks[k + 1]);
          }
        }
      }
      if Obliging(x) {
        assert Obliges(x, chunk.index, x.RequestFor(chunk));
      }
      if SameIdentities(x, rows, chunks) {
        assert SameIdentity(x, rows, chunks[0]);
      }
    }
  }

  /** A chunk can be blank only inside a gap longer than the overlap. */
  lemma ShortGapsLeaveNoBlankChunk(c: Chunker, text: string, chunks: seq<Chunk>)
    requires c.Valid() && c.overlap < MinStep(c.maxChars) && Covers(c, text, chunks)
    requires !Blank(text) && EvidenceCapture.GapsWithin(text, c.overlap)
    ensures NoBlankChunk(chunks)
  {
    forall k | 0 <= k < |chunks| ensures !Blank(chunks[k].text) {
      ChunksAdvance(c, text, chunks, k);
      if |chunks| == 1 {
        assert text[..|text|] == text;
      } else if k == 0 {
        ChunksAdvance(c, text, chunks, 1);
      }
    }
  }

  // ---------------------------------------------------------------- deduplication of claims

  /** The fields that `_deduplicate_claims` compares; confidence is not among them. */
  datatype ClaimKey = ClaimKey(predicate_: string, kind: string, value: string, evidence: seq<Span>)

  function KeyOfClaim(c: CandidateClaim): ClaimKey {
    ClaimKey(c.predicate_, c.kind, c.value, c.evidence)
  }

  function ClaimKeys(claims: seq<CandidateClaim>): set<ClaimKey> {
    set i | 0 <= i < |claims| :: KeyOfClaim(claims[i])
  }

  function Distinct(claims: seq<CandidateClaim>): seq<CandidateClaim> {
    if claims == [] then []
    else
      var front, last := claims[..|claims| - 1], claims[|claims| - 1];
      if KeyOfClaim(last) in ClaimKeys(front) then Distinct(front) else Distinct(front) + [last]
  }

  lemma ClaimKeysGrow(claims: seq<CandidateClaim>, c: CandidateClaim)
    ensures ClaimKeys(claims + [c]) == ClaimKeys(claims) + {KeyOfClaim(c)}
  {
    var all := claims + [c];
    forall k ensures k in ClaimKeys(all) <==> k in ClaimKeys(claims) || k == KeyOfClaim(c) {
      if k in ClaimKeys(claims) {
        var i :| 0 <= i < |claims| && KeyOfClaim(claims[i]) == k;
        assert all[i] == claims[i];
      }
      assert all[|claims|] == c;
    }
  }

  /** Deduplication keeps every key once, by its first claim, in the order of first appearance. */
  lemma {:induction false} DistinctExact(claims: seq<CandidateClaim>)
    ensures var d := Distinct(claims);
      && ClaimKeys(d) == ClaimKeys(claims)
      && (forall i, j :: 0 <= i < j < |d| ==> KeyOfClaim(d[i]) != KeyOfClaim(d[j]))
      && |d| <= |claims|
  {
    if claims != [] {
      var front, last := claims[..|claims| - 1], claims[|claims| - 1];
      assert claims == front + [last];
      DistinctExact(front);
      ClaimKeysGrow(front, last);
      ClaimKeysGrow(Distinct(front), last);
      if KeyOfClaim(last) !in ClaimKeys(front) {
        forall i | 0 <= i < |Distinct(front)| ensures KeyOfClaim(Distinct(front)[i]) != KeyOfClaim(last) {
          assert KeyOfClaim(Distinct(front)[i]) in ClaimKeys(Distinct(front));
        }
      }
    }
  }

  /** Where a kept claim was first produced: no earlier claim has its key. */
  ghost predicate FirstWithKey(claims: seq<CandidateClaim>, i: nat)
    requires i < |claims|
  {
    forall j :: 0 <= j < i ==> KeyOfClaim(claims[j]) != KeyOfClaim(claims[i])
  }

  lemma {:induction false} FirstClaimsAreKept(claims: seq<CandidateClaim>, i: nat)
    requires i < |claims| && FirstWithKey(claims, i)
    ensures claims[i] in Distinct(claims)
  {
    var front, last := claims[..|claims| - 1], claims[|claims| - 1];
    if i == |claims| - 1 {
      forall j | 0 <= j < |front| ensures KeyOfClaim(front[j]) != KeyOfClaim(last) {
        assert front[j] == claims[j];
      }
    } else {
      FirstClaimsAreKept(front, i);
    }
  }

  /** `_deduplicate_claims` */
  method DeduplicateClaims(claims: seq<CandidateClaim>) returns (unique: seq<CandidateClaim>)
    ensures unique == Distinct(claims)
  {
    unique := [];
    var seen: set<ClaimKey> := {};
    for i := 0 to |claims|
      invariant unique == Distinct(claims[..i]) && seen == ClaimKeys(claims[..i])
    {
      assert claims[..i + 1] == claims[..i] + [claims[i]];
      ClaimKeysGrow(claims[..i], claims[i]);
      var key := KeyOfClaim(claims[i]);
      if key !in seen {
        seen := seen + {key};
        unique := unique + [claims[i]];
      }
    }
    assert claims[..|claims|] == claims;
  }
}
