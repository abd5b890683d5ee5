/** What an attempt asks, gathers and stores, stated over the gateway's answers and the stored rows themselves. */
module ExtractionResults {
  import opened Prelude
  import opened TextChunking
  import opened ExtractionHarness
  import EvidenceCapture
  import opened ExtractionRepository

  // ---------------------------------------------------------------- what is asked and answered

  /** What the gateway is asked about a chunk: its text, where it starts, and the context of the document. */
  ghost predicate AsksFor(x: Execution, chunk: Chunk, r: Request) {
    && r.text == chunk.text && r.textStart == chunk.start
    && r.sourceVersion == x.document.sourceVersion && r.subjectKey == x.document.subjectKey
    && r.locale == x.document.locale && r.region == x.document.region
    && r.promptVersion == x.promptVersion && r.schemaVersion == x.schemaVersion
  }

  /** The answer that settles a chunk, which is about the very request. */
  ghost predicate AnsweredBy(x: Execution, chunk: Chunk, r: Request, a: Extraction) {
    AsksFor(x, chunk, r) && x.gateway(chunk.index, r) == Answered(a) && a.fingerprint == r
  }

  /** An invocation says what was asked and what came back. */
  ghost predicate Reports(x: Execution, chunk: Chunk, i: Invocation, a: Extraction) {
    && AnsweredBy(x, chunk, i.identity.fingerprint, a)
    && i.chunk == chunk.index && i.identity.chunkId == chunk.id
    && i.identity.start == chunk.start && i.identity.end == chunk.end
    && i.provider == a.provider && i.model == a.model && i.responseId == a.responseId
    && i.usage == a.usage && i.claimCount == |a.claims|
  }

  function AllClaims(answers: seq<Extraction>): seq<CandidateClaim> {
    if answers == [] then [] else answers[0].claims + AllClaims(answers[1..])
  }

  function InputTokens(answers: seq<Extraction>): nat {
    if answers == [] then 0 else answers[0].usage.input + InputTokens(answers[1..])
  }

  function OutputTokens(answers: seq<Extraction>): nat {
    if answers == [] then 0 else answers[0].usage.output + OutputTokens(answers[1..])
  }

  function TotalTokens(answers: seq<Extraction>): nat {
    if answers == [] then 0 else answers[0].usage.total + TotalTokens(answers[1..])
  }

  /** A complete pass came from one answer per chunk: it reports, claims and token sums are those of the answers. */
  ghost predicate GathersFrom(x: Execution, chunks: seq<Chunk>, end: End, answers: seq<Extraction>) {
    && end.Completed? && |answers| == |chunks| == |end.invocations|
    && (forall k :: 0 <= k < |chunks| ==> Reports(x, chunks[k], end.invocations[k], answers[k]))
    && end.claims == AllClaims(answers)
    && end.usage == Usage(InputTokens(answers), OutputTokens(answers), TotalTokens(answers))
  }

  lemma GathersOneMore(x: Execution, chunk: Chunk, rest: seq<Chunk>, a: Extraction, end: End, answers: seq<Extraction>)
    requires GathersFrom(x, rest, end, answers) && x.gateway(chunk.index, x.RequestFor(chunk)) == Answered(a)
    requires a.fingerprint == x.RequestFor(chunk)
    ensures GathersFrom(x, [chunk] + rest, First(InvocationOf(x, chunk, a), a.claims, end), [a] + answers)
  {
    var chunks, all, whole := [chunk] + rest, [a] + answers, First(InvocationOf(x, chunk, a), a.claims, end);
    assert all[1..] == answers;
    forall k | 0 <= k < |chunks| ensures Reports(x, chunks[k], whole.invocations[k], all[k]) {
      if k > 0 {
        assert Reports(x, rest[k - 1], end.invocations[k - 1], answers[k - 1]);
      }
    }
  }

  /** Every complete pass consists of one answer per chunk, each to the chunk's own text, offset and context. */
  lemma {:induction false} CompletedGathersAnswers(x: Execution, rows: Rows, chunks: seq<Chunk>)
    returns (answers: seq<Extraction>)
    requires Work(x, rows, chunks).1.Completed?
    ensures GathersFrom(x, chunks, Work(x, rows, chunks).1, answers)
    decreases |chunks|
  {
    if chunks == [] {
      return [];
    }
    var chunk := chunks[0];
    var a := x.gateway(chunk.index, x.RequestFor(chunk)).result;
    var started := Started(rows, x.KeyOf(chunk), x.IdentityOf(chunk)).value;
    var next := started[x.KeyOf(chunk) := SucceededRow(InvocationOf(x, chunk, a))];
    var rest := CompletedGathersAnswers(x, next, chunks[1..]);
    GathersOneMore(x, chunk, chunks[1..], a, Work(x, next, chunks[1..]).1, rest);
    assert chunks == [chunk] + chunks[1..];
    return [a] + rest;
  }

  // ---------------------------------------------------------------- where a pass stops

  /** What stops a pass at a chunk, if anything does. */
  function ProblemAt(x: Execution, rows: Rows, chunk: Chunk): Option<End> {
    var key, r := RowKey(x.run, x.attempt, chunk.index), x.RequestFor(chunk);
    if Blank(chunk.text) then Some(BlankRequest(chunk.index))
    else if key in rows && rows[key].identity != Identity(chunk.id, chunk.start, chunk.end, r) then
      Some(IdentityChanged(chunk.index))
    else match x.gateway(chunk.index, r)
      case Died => Some(ProcessDied(chunk.index))
      case Raised(_) => Some(GatewayFailed(chunk.index))
      case Answered(a) => if a.fingerprint == r then None else Some(FingerprintMismatch(chunk.index))
  }

  ghost predicate FirstProblem(x: Execution, rows: Rows, chunks: seq<Chunk>, k: nat)
    requires k < |chunks|
  {
    ProblemAt(x, rows, chunks[k]).Some? && forall j :: 0 <= j < k ==> ProblemAt(x, rows, chunks[j]) == None
  }

  /** A pass stops at the first chunk that has a problem, with that problem, and completes when none has one. */
  lemma {:induction false} StopsAtFirstProblem(x: Execution, rows: Rows, chunks: seq<Chunk>, from: nat)
    requires Indexed(chunks, from)
    ensures Work(x, rows, chunks).1.Completed?
      <==> forall k :: 0 <= k < |chunks| ==> ProblemAt(x, rows, chunks[k]) == None
    ensures forall k :: 0 <= k < |chunks| && FirstProblem(x, rows, chunks, k) ==>
      Work(x, rows, chunks).1 == ProblemAt(x, rows, chunks[k]).value
    decreases |chunks|
  {
    if chunks != [] && ProblemAt(x, rows, chunks[0]) == None {
      var chunk, rest := chunks[0], chunks[1..];
      assert chunk.index == from && Indexed(rest, from + 1);
      var a := x.gateway(chunk.index, x.RequestFor(chunk)).result;
      var started := Started(rows, x.KeyOf(chunk), x.IdentityOf(chunk)).value;
      var next := started[x.KeyOf(chunk) := SucceededRow(InvocationOf(x, chunk, a))];
      forall k | 0 <= k < |rest| ensures ProblemAt(x, next, rest[k]) == ProblemAt(x, rows, chunks[k + 1]) {
        assert rest[k] == chunks[k + 1] && rest[k].index == from + 1 + k;
      }
      StopsAtFirstProblem(x, next, rest, from + 1);
      forall k | 0 <= k < |chunks| && FirstProblem(x, rows, chunks, k)
        ensures k > 0 && FirstProblem(x, next, rest, k - 1) {
      }
    }
  }

  // ---------------------------------------------------------------- the rows after a pass that stopped

  /** The row of a chunk whose request was answered. */
  ghost predicate ShowsAnswer(x: Execution, after: Rows, chunk: Chunk) {
    var key, reply := RowKey(x.run, x.attempt, chunk.index), x.gateway(chunk.index, x.RequestFor(chunk));
    && reply.Answered? && key in after
    && var row, a := after[key], reply.result;
    && row.identity == Identity(chunk.id, chunk.start, chunk.end, x.RequestFor(chunk)) && row.status == RowSucceeded
    && row.provider == Some(a.provider) && row.model == Some(a.model) && row.responseId == Some(a.responseId)
    && row.usage == a.usage && row.claimCount == |a.claims| && row.error == None
  }

  /** What `row` had gathered before: everything when its request was answered earlier, otherwise nothing. */
  ghost predicate Keeps(rows: Rows, key: RowKey, row: Row) {
    if key in rows && rows[key].status == RowSucceeded then
      && row.provider == rows[key].provider && row.model == rows[key].model && row.responseId == rows[key].responseId
      && row.usage == rows[key].usage && row.claimCount == rows[key].claimCount
    else row.provider == row.model == row.responseId == None && row.usage == Usage(0, 0, 0) && row.claimCount == 0
  }

  ghost predicate SameAt(rows: Rows, after: Rows, key: RowKey) {
    (key in after <==> key in rows) && (key in rows ==> after[key] == rows[key])
  }

  /**
   * The row of the chunk at which a pass stopped: untouched when the request was never made, failed with the error's
   * name cut to 80 characters when it failed, and running when the process died with no answer from before.
   */
  ghost predicate ShowsProblem(x: Execution, rows: Rows, after: Rows, chunk: Chunk) {
    var key, identity := RowKey(x.run, x.attempt, chunk.index),
                         Identity(chunk.id, chunk.start, chunk.end, x.RequestFor(chunk));
    if Blank(chunk.text) || (key in rows && rows[key].identity != identity) then SameAt(rows, after, key)
    else
      && key in after && after[key].identity == identity && Keeps(rows, key, after[key])
      && match x.gateway(chunk.index, x.RequestFor(chunk))
         case Died =>
           if key in rows && rows[key].status == RowSucceeded then after[key] == rows[key]
           else after[key].status == RowRunning && after[key].error == None
         case Raised(e) =>
           after[key].status == RowFailed && after[key].error == Some(if |e| > 80 then e[..80] else e)
         case Answered(_) =>
           after[key].status == RowFailed && after[key].error == Some("RequestFingerprintMismatch")
  }

  /** Chunks before `k` show their answers, chunk `k` shows its problem, and later chunks were not touched. */
  ghost predicate StoppedAt(x: Execution, rows: Rows, after: Rows, chunks: seq<Chunk>, k: nat)
    requires k < |chunks|
  {
    && (forall j :: 0 <= j < k ==> ShowsAnswer(x, after, chunks[j]))
    && ShowsProblem(x, rows, after, chunks[k])
    && forall j :: k < j < |chunks| ==> SameAt(rows, after, RowKey(x.run, x.attempt, chunks[j].index))
  }

  lemma StoppedAtOnce(x: Execution, rows: Rows, chunks: seq<Chunk>, from: nat)
    requires Indexed(chunks, from) && chunks != [] && ProblemAt(x, rows, chunks[0]).Some?
    ensures StoppedAt(x, rows, Work(x, rows, chunks).0, chunks, 0)
  {
    var after := Work(x, rows, chunks).0;
    forall j | 0 < j < |chunks| ensures SameAt(rows, after, RowKey(x.run, x.attempt, chunks[j].index)) {
      assert chunks[j].index == from + j && chunks[0].index == from;
    }
    assert ShowsProblem(x, rows, after, chunks[0]);
  }

  /** The rows that a chunk's answer leaves behind. */
  function AfterAnswer(x: Execution, rows: Rows, chunk: Chunk): Rows
    requires ProblemAt(x, rows, chunk) == None
  {
    var a := x.gateway(chunk.index, x.RequestFor(chunk)).result;
    Started(rows, x.KeyOf(chunk), x.IdentityOf(chunk)).value[x.KeyOf(chunk) := SucceededRow(InvocationOf(x, chunk, a))]
  }

  lemma FirstAnswered(x: Execution, rows: Rows, chunks: seq<Chunk>, from: nat)
    requires Indexed(chunks, from) && chunks != [] && ProblemAt(x, rows, chunks[0]) == None
    ensures var next := AfterAnswer(x, rows, chunks[0]);
      && Work(x, rows, chunks).0 == Work(x, next, chunks[1..]).0
      && ShowsAnswer(x, next, chunks[0]) && ShowsAnswer(x, Work(x, next, chunks[1..]).0, chunks[0])
      && forall j :: 0 < j < |chunks| ==> SameAt(rows, next, RowKey(x.run, x.attempt, chunks[j].index))
  {
    var next, rest := AfterAnswer(x, rows, chunks[0]), chunks[1..];
    assert Indexed(rest, from + 1);
    WorkIsFramed(x, next, rest, from + 1);
    forall j | 0 < j < |chunks| ensures SameAt(rows, next, RowKey(x.run, x.attempt, chunks[j].index)) {
      assert chunks[j].index == from + j && chunks[0].index == from;
    }
    assert !Ours(x, x.KeyOf(chunks[0]), from + 1, from + 1 + |rest|);
  }

  lemma SameProblem(x: Execution, rows: Rows, next: Rows, chunk: Chunk)
    requires SameAt(rows, next, RowKey(x.run, x.attempt, chunk.index))
    ensures ProblemAt(x, rows, chunk) == ProblemAt(x, next, chunk)
    ensures forall after: Rows :: ShowsProblem(x, rows, after, chunk) <==> ShowsProblem(x, next, after, chunk)
  {
  }

  /** A pass that stops leaves exactly these rows. */
  lemma {:induction false} StoppedPassIsShown(x: Execution, rows: Rows, chunks: seq<Chunk>, from: nat, k: nat)
    requires Indexed(chunks, from) && k < |chunks| && FirstProblem(x, rows, chunks, k)
    ensures StoppedAt(x, rows, Work(x, rows, chunks).0, chunks, k)
    decreases |chunks|
  {
    if k == 0 {
      StoppedAtOnce(x, rows, chunks, from);
    } else {
      var next, rest := AfterAnswer(x, rows, chunks[0]), chunks[1..];
      FirstAnswered(x, rows, chunks, from);
      forall j | 0 <= j < |rest| ensures ProblemAt(x, next, rest[j]) == ProblemAt(x, rows, chunks[j + 1]) {
        SameProblem(x, rows, next, chunks[j + 1]);
      }
      StoppedPassIsShown(x, next, rest, from + 1, k - 1);
      SameProblem(x, rows, next, chunks[k]);
      StoppedLater(x, rows, next, Work(x, rows, chunks).0, chunks, k);
    }
  }

  lemma StoppedLater(x: Execution, rows: Rows, next: Rows, after: Rows, chunks: seq<Chunk>, k: nat)
    requires 0 < k < |chunks| && StoppedAt(x, next, after, chunks[1..], k - 1) && ShowsAnswer(x, after, chunks[0])
    requires forall j :: 0 < j < |chunks| ==> SameAt(rows, next, RowKey(x.run, x.attempt, chunks[j].index))
    ensures StoppedAt(x, rows, after, chunks, k)
  {
    var rest := chunks[1..];
    SameProblem(x, rows, next, chunks[k]);
    forall j | 0 <= j < k ensures ShowsAnswer(x, after, chunks[j]) {
      assert j > 0 ==> ShowsAnswer(x, after, rest[j - 1]);
    }
    forall j | k < j < |chunks| ensures SameAt(rows, after, RowKey(x.run, x.attempt, chunks[j].index)) {
      assert SameAt(next, after, RowKey(x.run, x.attempt, rest[j - 1].index));
    }
  }

  // ---------------------------------------------------------------- rows and manifest

  /** The row of the invocation's chunk says what the invocation says. */
  ghost predicate ShowsInvocation(rows: Rows, run: nat, attempt: nat, i: Invocation) {
    && RowKey(run, attempt, i.chunk) in rows
    && var row := rows[RowKey(run, attempt, i.chunk)];
    && row.identity == i.identity && row.status == RowSucceeded && row.provider == Some(i.provider)
    && row.model == Some(i.model) && row.responseId == Some(i.responseId) && row.usage == i.usage
    && row.claimCount == i.claimCount
  }

  ghost predicate AscendingChunks(manifest: seq<Invocation>) {
    forall j, k :: 0 <= j < k < |manifest| ==> manifest[j].chunk < manifest[k].chunk
  }

  function Chunks(manifest: seq<Invocation>): seq<nat> {
    seq(|manifest|, k requires 0 <= k < |manifest| => manifest[k].chunk)
  }

  function SetOf(s: seq<nat>): set<nat> {
    set x | x in s
  }

  ghost predicate Increasing(s: seq<nat>) {
    forall j, k :: 0 <= j < k < |s| ==> s[j] < s[k]
  }

  lemma WithoutHead(s: seq<nat>)
    requires Increasing(s) && s != []
    ensures Increasing(s[1..]) && Least(s[0], SetOf(s)) && SetOf(s) - {s[0]} == SetOf(s[1..])
  {
    forall x ensures x in SetOf(s) <==> x == s[0] || x in SetOf(s[1..]) {
      if x in s {
        var k :| 0 <= k < |s| && s[k] == x;
        assert k > 0 ==> s[1..][k - 1] == x;
      }
    }
  }

  lemma {:induction false} AscendingIs(s: seq<nat>)
    requires Increasing(s)
    ensures Ascending(SetOf(s)) == s
  {
    if s != [] {
      WithoutHead(s);
      AscendingIs(s[1..]);
      AscendingHead(SetOf(s), s[0]);
      assert s == [s[0]] + s[1..];
    }
  }

  lemma {:induction false} AscendingHolds(s: set<nat>)
    ensures SetOf(Ascending(s)) == s
    decreases s
  {
    if s != {} {
      var m := Ascending(s)[0];
      AscendingHolds(s - {m});
      assert Ascending(s) == [m] + Ascending(s - {m});
      assert SetOf(Ascending(s)) == {m} + SetOf(Ascending(s - {m}));
    }
  }

  /** The attempt has no row besides those of the manifest. */
  ghost predicate NoOtherRow(rows: Rows, run: nat, attempt: nat, manifest: seq<Invocation>) {
    ChunkIndices(rows, run, attempt) <= SetOf(Chunks(manifest))
  }

  lemma ShownInOrder(rows: Rows, run: nat, attempt: nat, manifest: seq<Invocation>)
    requires AscendingChunks(manifest) && NoOtherRow(rows, run, attempt, manifest)
    requires forall k :: 0 <= k < |manifest| ==> ShowsInvocation(rows, run, attempt, manifest[k])
    ensures Validates(rows, run, attempt, manifest)
  {
    var chunks := Chunks(manifest);
    forall c | c in SetOf(chunks) ensures c in ChunkIndices(rows, run, attempt) {
      var k :| 0 <= k < |chunks| && chunks[k] == c;
      assert ShowsInvocation(rows, run, attempt, manifest[k]);
      InChunkIndices(rows, run, attempt, c);
    }
    assert ChunkIndices(rows, run, attempt) == SetOf(chunks);
    AscendingIs(chunks);
    forall k | 0 <= k < |manifest|
      ensures RecordMatches(rows[RowKey(run, attempt, chunks[k])], chunks[k], manifest[k]) {
      assert ShowsInvocation(rows, run, attempt, manifest[k]);
    }
  }

  /** Validation accepts a manifest exactly when every invocation has its row and the attempt has no other. */
  lemma ValidatesExactly(rows: Rows, run: nat, attempt: nat, manifest: seq<Invocation>)
    requires AscendingChunks(manifest)
    ensures Validates(rows, run, attempt, manifest)
      <==> NoOtherRow(rows, run, attempt, manifest)
           && forall k :: 0 <= k < |manifest| ==> ShowsInvocation(rows, run, attempt, manifest[k])
  {
    if Validates(rows, run, attempt, manifest) {
      var records := Records(rows, run, attempt);
      forall k | 0 <= k < |manifest| ensures ShowsInvocation(rows, run, attempt, manifest[k]) {
        assert RecordMatches(rows[RowKey(run, attempt, records[k])], records[k], manifest[k]);
      }
      AscendingHolds(ChunkIndices(rows, run, attempt));
      assert records == Chunks(manifest);
    } else if NoOtherRow(rows, run, attempt, manifest)
      && forall k :: 0 <= k < |manifest| ==> ShowsInvocation(rows, run, attempt, manifest[k]) {
      ShownInOrder(rows, run, attempt, manifest);
    }
  }

  // ---------------------------------------------------------------- what is stored

  /** The fields that make two claims the same; confidence is not one of them. */
  predicate SameClaim(a: CandidateClaim, b: CandidateClaim) {
    a.predicate_ == b.predicate_ && a.kind == b.kind && a.value == b.value && a.evidence == b.evidence
  }

  /** Claim `i` is the first of its kind. */
  ghost predicate FirstOfItsKind(claims: seq<CandidateClaim>, i: int) {
    0 <= i < |claims| && forall j :: 0 <= j < i ==> !SameClaim(claims[j], claims[i])
  }

  /** The stored rows of one run, in the order they were stored. */
  function RunRows(claims: seq<StoredClaim>, run: nat): seq<StoredClaim> {
    if claims == [] then []
    else
      var last := claims[|claims| - 1];
      RunRows(claims[..|claims| - 1], run) + if last.run == run then [last] else []
  }

  lemma {:induction false} RunRowsConcat(a: seq<StoredClaim>, b: seq<StoredClaim>, run: nat)
    ensures RunRows(a + b, run) == RunRows(a, run) + RunRows(b, run)
  {
    if b == [] {
      assert a + b == a;
    } else {
      RunRowsConcat(a, b[..|b| - 1], run);
      assert (a + b)[..|a + b| - 1] == a + b[..|b| - 1];
    }
  }

  lemma {:induction false} AllOfRun(rows: seq<StoredClaim>, run: nat, of: nat)
    requires forall k :: 0 <= k < |rows| ==> rows[k].run == of
    ensures RunRows(rows, run) == if run == of then rows else []
  {
    if rows != [] {
      AllOfRun(rows[..|rows| - 1], run, of);
      assert rows == rows[..|rows| - 1] + [rows[|rows| - 1]];
    }
  }

  lemma {:induction false} NoRowsYet(claims: seq<StoredClaim>, run: nat)
    requires ClaimsOf(claims, run) == 0
    ensures RunRows(claims, run) == []
  {
    if claims != [] {
      NoRowsYet(claims[..|claims| - 1], run);
    }
  }

  /** The indices of the first claim of each kind, in order. */
  function Firsts(claims: seq<CandidateClaim>): seq<nat> {
    if claims == [] then []
    else
      var n := |claims| - 1;
      Firsts(claims[..n]) + if exists j :: 0 <= j < n && SameClaim(claims[j], claims[n]) then [] else [n]
  }

  lemma {:induction false} FirstsExactly(claims: seq<CandidateClaim>)
    ensures forall k :: 0 <= k < |Firsts(claims)| ==> FirstOfItsKind(claims, Firsts(claims)[k])
    ensures forall i :: FirstOfItsKind(claims, i) ==> i in Firsts(claims)
    ensures forall j, k :: 0 <= j < k < |Firsts(claims)| ==> Firsts(claims)[j] < Firsts(claims)[k]
  {
    if claims != [] {
      var n := |claims| - 1;
      var front := claims[..n];
      FirstsExactly(front);
      forall i ensures FirstOfItsKind(claims, i) <==>
        FirstOfItsKind(front, i) || (i == n && !exists j :: 0 <= j < n && SameClaim(claims[j], claims[n])) {
        if i < n {
          KindInFront(claims, i);
        }
      }
      forall k | 0 <= k < |Firsts(front)| ensures Firsts(front)[k] < n {
        assert FirstOfItsKind(front, Firsts(front)[k]);
      }
    }
  }

  lemma KindInFront(claims: seq<CandidateClaim>, i: int)
    requires claims != [] && i < |claims| - 1
    ensures FirstOfItsKind(claims, i) <==> FirstOfItsKind(claims[..|claims| - 1], i)
  {
    if i >= 0 {
      assert claims[..|claims| - 1][i] == claims[i];
      assert forall j :: 0 <= j < i ==> claims[..|claims| - 1][j] == claims[j];
    }
  }

  lemma SameKeyExactly(claims: seq<CandidateClaim>, c: CandidateClaim)
    ensures KeyOfClaim(c) in ClaimKeys(claims) <==> exists j :: 0 <= j < |claims| && SameClaim(claims[j], c)
  {
    if KeyOfClaim(c) in ClaimKeys(claims) {
      var j :| 0 <= j < |claims| && KeyOfClaim(claims[j]) == KeyOfClaim(c);
      assert SameClaim(claims[j], c);
    }
  }

  /** Deduplication keeps exactly the first claim of each kind, in order. */
  lemma {:induction false} DistinctIsFirsts(claims: seq<CandidateClaim>)
    ensures |Distinct(claims)| == |Firsts(claims)|
    ensures forall k :: 0 <= k < |Firsts(claims)| ==>
      Firsts(claims)[k] < |claims| && Distinct(claims)[k] == claims[Firsts(claims)[k]]
  {
    if claims != [] {
      var n := |claims| - 1;
      DistinctIsFirsts(claims[..n]);
      SameKeyExactly(claims[..n], claims[n]);
      assert (exists j :: 0 <= j < n && SameClaim(claims[..n][j], claims[n])) <==>
        exists j :: 0 <= j < n && SameClaim(claims[j], claims[n]) by {
        assert forall j :: 0 <= j < n ==> claims[..n][j] == claims[j];
      }
    }
  }

  /** The rows hold the first claim of each kind that was gathered, in order and once each, from the one provider. */
  ghost predicate HoldsFirsts(rows: seq<StoredClaim>, run: nat, claims: seq<CandidateClaim>,
                              invocations: seq<Invocation>) {
    && |rows| == |Firsts(claims)|
    && (forall k :: 0 <= k < |rows| ==>
          Firsts(claims)[k] < |claims| && rows[k].run == run && rows[k].claim == claims[Firsts(claims)[k]])
    && (forall k, i :: 0 <= k < |rows| && 0 <= i < |invocations| ==>
          rows[k].provider == invocations[i].provider && rows[k].model == invocations[i].model)
  }

  lemma OneProviderForAll(manifest: seq<Invocation>, i: nat)
    requires |Providers(manifest)| == 1 && i < |manifest|
    ensures manifest[i].provider == manifest[0].provider && manifest[i].model == manifest[0].model
  {
    var a, b := (manifest[0].provider, manifest[0].model), (manifest[i].provider, manifest[i].model);
    assert a in Providers(manifest) && b in Providers(manifest);
    if a != b {
      Subset({a, b}, Providers(manifest));
    }
  }

  lemma {:induction false} Subset<T>(a: set<T>, b: set<T>)
    requires a <= b
    ensures |a| <= |b|
    decreases a
  {
    if a != {} {
      var x :| x in a;
      Subset(a - {x}, b - {x});
    }
  }

  lemma ClaimRowsHoldFirsts(run: nat, end: End)
    requires end.Completed? && |Providers(end.invocations)| == 1
    ensures end.invocations != []
    ensures HoldsFirsts(ClaimRows(run, Distinct(end.claims), end.invocations[0].provider, end.invocations[0].model),
                        run, end.claims, end.invocations)
  {
    var p :| p in Providers(end.invocations);
    DistinctIsFirsts(end.claims);
    forall i | 0 <= i < |end.invocations|
      ensures end.invocations[i].provider == end.invocations[0].provider
      ensures end.invocations[i].model == end.invocations[0].model {
      OneProviderForAll(end.invocations, i);
    }
  }

  lemma StoredMeansPersisted(s: Store, x: Execution, chunks: seq<Chunk>)
    requires x.run !in s.results && Extract(s, x, chunks).1.Stored?
    ensures var t, end := Extract(s, x, chunks).0, Work(x, s.rows, chunks).1;
      && end.Completed? && |Providers(end.invocations)| == 1 && end.invocations != []
      && t.claims
        == s.claims + ClaimRows(x.run, Distinct(end.claims), end.invocations[0].provider, end.invocations[0].model)
      && t.results.Keys == s.results.Keys + {x.run} && t.results[x.run].manifest == end.invocations
      && forall run :: run in s.results ==> t.results[run] == s.results[run]
  {
  }

  lemma AppendedRows(claims: seq<StoredClaim>, rows: seq<StoredClaim>, run: nat, other: nat)
    requires forall k :: 0 <= k < |rows| ==> rows[k].run == run
    ensures RunRows(claims + rows, other) == RunRows(claims, other) + if other == run then rows else []
  {
    RunRowsConcat(claims, rows, other);
    AllOfRun(rows, other, run);
  }

  lemma AppendedClaimsHoldFirsts(claims: seq<StoredClaim>, run: nat, end: End)
    requires ClaimsOf(claims, run) == 0 && end.Completed? && |Providers(end.invocations)| == 1 && end.invocations != []
    ensures var after := claims
        + ClaimRows(run, Distinct(end.claims), end.invocations[0].provider, end.invocations[0].model);
      && HoldsFirsts(RunRows(after, run), run, end.claims, end.invocations)
      && forall other: nat :: other != run ==> RunRows(after, other) == RunRows(claims, other)
  {
    var rows := ClaimRows(run, Distinct(end.claims), end.invocations[0].provider, end.invocations[0].model);
    ClaimRowsHoldFirsts(run, end);
    NoRowsYet(claims, run);
    AppendedRows(claims, rows, run, run);
    assert [] + rows == rows;
    forall other: nat | other != run ensures RunRows(claims + rows, other) == RunRows(claims, other) {
      AppendedRows(claims, rows, run, other);
    }
  }

  /**
   * An attempt that stores a result stores, in order, the first claim of each kind that its answers contained, each
   * once and with the provider that answered, and nothing for any other run.
   */
  lemma StoredClaimsAreExact(corpus: Corpus, s: Store, x: Execution)
    requires Usable(corpus) && Reachable(corpus, s) && AttemptOf(corpus, x) && x.run !in s.results
    requires Extract(s, x, corpus.chunks(x.run)).1.Stored?
    ensures var t := Extract(s, x, corpus.chunks(x.run)).0; var end := Work(x, s.rows, corpus.chunks(x.run)).1;
      && end.Completed? && x.run in t.results && t.results[x.run].manifest == end.invocations
      && HoldsFirsts(RunRows(t.claims, x.run), x.run, end.claims, end.invocations)
      && forall other: nat :: other != x.run ==> RunRows(t.claims, other) == RunRows(s.claims, other)
  {
    ReachableAccounts(corpus, s, x.run);
    StoredMeansPersisted(s, x, corpus.chunks(x.run));
    AppendedClaimsHoldFirsts(s.claims, x.run, Work(x, s.rows, corpus.chunks(x.run)).1);
  }

  /** The quote stands in the text at its offset. */
  predicate StandsIn(text: string, span: Span) {
    span.start + |span.quote| <= |text| && text[span.start..span.start + |span.quote|] == span.quote
  }

  ghost predicate Quotes(text: string, c: CandidateClaim) {
    forall span :: span in c.evidence ==> StandsIn(text, span)
  }

  /** All evidence of all claims stands in the text. */
  ghost predicate AllQuoted(text: string, claims: seq<CandidateClaim>) {
    forall c :: c in claims ==> Quotes(text, c)
  }

  /** All answers come from one model of one provider. */
  ghost predicate OneSource(invocations: seq<Invocation>) {
    && invocations != []
    && forall i :: 0 <= i < |invocations| ==>
         invocations[i].provider == invocations[0].provider && invocations[i].model == invocations[0].model
  }

  /** The target, its text and its context are usable. */
  predicate Ready(x: Execution) {
    && x.targetFound && EvidenceCapture.Utf8Size(x.document.text) <= x.maxBytes
    && Filled(x.document.text) && Filled(x.promptVersion) && Filled(x.schemaVersion)
    && Filled(x.document.subjectKey) && Filled(x.document.locale) && Filled(x.document.region)
  }

  predicate Filled(s: string) {
    exists i :: 0 <= i < |s| && !IsSpace(s[i])
  }

  lemma QuotesExactly(text: string, c: CandidateClaim)
    ensures Quotes(text, c) <==> EvidenceExact(text, c)
  {
    if Quotes(text, c) {
      forall i | 0 <= i < |c.evidence| ensures OccursAt(text, c.evidence[i].quote, c.evidence[i].start) {
        assert StandsIn(text, c.evidence[i]);
      }
    }
  }

  lemma {:induction false} FirstExists(claims: seq<CandidateClaim>, i: nat) returns (f: nat)
    requires i < |claims|
    ensures FirstOfItsKind(claims, f) && SameClaim(claims[f], claims[i])
    decreases i
  {
    if j :| 0 <= j < i && SameClaim(claims[j], claims[i]) {
      f := FirstExists(claims, j);
    } else {
      f := i;
    }
  }

  /** It is enough that the first claims of each kind quote the text. */
  lemma DistinctQuotes(text: string, claims: seq<CandidateClaim>)
    ensures AllQuoted(text, claims)
      <==> forall i :: 0 <= i < |Distinct(claims)| ==> EvidenceExact(text, Distinct(claims)[i])
  {
    DistinctIsFirsts(claims);
    FirstsExactly(claims);
    forall c ensures Quotes(text, c) <==> EvidenceExact(text, c) {
      QuotesExactly(text, c);
    }
    if forall i :: 0 <= i < |Distinct(claims)| ==> EvidenceExact(text, Distinct(claims)[i]) {
      forall c | c in claims ensures Quotes(text, c) {
        var i :| 0 <= i < |claims| && claims[i] == c;
        var f := FirstExists(claims, i);
        var k :| 0 <= k < |Firsts(claims)| && Firsts(claims)[k] == f;
        assert EvidenceExact(text, Distinct(claims)[k]);
      }
    }
  }

  lemma OneSourceExactly(invocations: seq<Invocation>)
    ensures OneSource(invocations) <==> |Providers(invocations)| == 1
  {
    if OneSource(invocations) {
      assert Providers(invocations) == {(invocations[0].provider, invocations[0].model)};
    }
    if |Providers(invocations)| == 1 {
      var p :| p in Providers(invocations);
      forall i | 0 <= i < |invocations|
        ensures invocations[i].provider == invocations[0].provider && invocations[i].model == invocations[0].model {
        OneProviderForAll(invocations, i);
      }
    }
  }

  lemma ReadyExactly(x: Execution)
    ensures Ready(x) <==> FirstObstacle(x) == None
  {
  }

  lemma PersistExactly(s: Store, x: Execution, end: End)
    requires end.Completed? && x.run !in s.results && Persist(s, x, end).1 != Refused(InvocationsDiffer)
    ensures Persist(s, x, end).1.Stored?
      <==> x.targetKept && OneSource(end.invocations) && AllQuoted(x.document.text, end.claims)
    ensures Persist(s, x, end).1.Stored? ==> Persist(s, x, end).1 == Stored(|Firsts(end.claims)|)
  {
    OneSourceExactly(end.invocations);
    DistinctQuotes(x.document.text, end.claims);
    DistinctIsFirsts(end.claims);
  }

  /** When an attempt stores its result. */
  ghost predicate Storable(x: Execution, end: End) {
    && Ready(x) && end.Completed? && x.targetKept && OneSource(end.invocations)
    && AllQuoted(x.document.text, end.claims)
  }

  lemma ExtractExactly(s: Store, x: Execution, chunks: seq<Chunk>)
    requires x.run !in s.results && Extract(s, x, chunks).1 != Refused(InvocationsDiffer)
    ensures var end, (t, outcome) := Work(x, s.rows, chunks).1, Extract(s, x, chunks);
      && (outcome.Stored? <==> Storable(x, end))
      && (outcome.Stored? ==> outcome.claimCount == |Firsts(end.claims)|)
      && (!outcome.Stored? ==> t.claims == s.claims && t.results == s.results)
  {
    var (rows, end) := Work(x, s.rows, chunks);
    ReadyExactly(x);
    if end.Completed? && Ready(x) {
      PersistExactly(s.(rows := rows), x, end);
    }
  }

  /**
   * Over all reachable stores an attempt at a run without a result stores one if and only if the target is usable,
   * the pass completes, the target is still the same, one model answered everything and all evidence stands in the
   * text. Otherwise claims and results stay as they were.
   */
  lemma AttemptExactly(corpus: Corpus, s: Store, x: Execution)
    requires Usable(corpus) && Reachable(corpus, s) && AttemptOf(corpus, x) && x.run !in s.results
    ensures var end, (t, outcome) := Work(x, s.rows, corpus.chunks(x.run)).1, Extract(s, x, corpus.chunks(x.run));
      && (outcome.Stored? <==> Storable(x, end))
      && (outcome.Stored? ==> outcome.claimCount == |Firsts(end.claims)|)
      && (!outcome.Stored? ==> t.claims == s.claims && t.results == s.results)
  {
    ValidationAlwaysPasses(corpus, s, x);
    ExtractExactly(s, x, corpus.chunks(x.run));
  }

  lemma ReachableAccounts(corpus: Corpus, s: Store, run: nat)
    requires Usable(corpus) && Reachable(corpus, s) && run !in s.results
    ensures ClaimsOf(s.claims, run) == 0
  {
    var xs: seq<Execution> :| (forall i :: 0 <= i < |xs| ==> AttemptOf(corpus, xs[i])) && s == Attempts(corpus, xs);
    AttemptsAreSound(corpus, xs);
  }

  lemma UnstoredKeepsClaims(s: Store, x: Execution, chunks: seq<Chunk>)
    requires x.run in s.results || !Extract(s, x, chunks).1.Stored?
    ensures var t := Extract(s, x, chunks).0; t.claims == s.claims && t.results == s.results
  {
  }

  /** Once a run has its result, no attempt at any run changes its rows or its result. */
  lemma StoredRowsStay(corpus: Corpus, s: Store, x: Execution, run: nat)
    requires Usable(corpus) && Reachable(corpus, s) && AttemptOf(corpus, x) && run in s.results
    ensures var t := Extract(s, x, corpus.chunks(x.run)).0;
      run in t.results && t.results[run] == s.results[run] && RunRows(t.claims, run) == RunRows(s.claims, run)
  {
    if Extract(s, x, corpus.chunks(x.run)).1.Stored? && x.run !in s.results {
      StoredMeansPersisted(s, x, corpus.chunks(x.run));
      StoredClaimsAreExact(corpus, s, x);
    } else {
      UnstoredKeepsClaims(s, x, corpus.chunks(x.run));
    }
  }

  ghost function After(corpus: Corpus, s: Store, xs: seq<Execution>): Store {
    if xs == [] then s
    else Extract(After(corpus, s, xs[..|xs| - 1]), xs[|xs| - 1], corpus.chunks(xs[|xs| - 1].run)).0
  }

  lemma {:induction false} AfterAttempts(corpus: Corpus, first: seq<Execution>, xs: seq<Execution>)
    ensures After(corpus, Attempts(corpus, first), xs) == Attempts(corpus, first + xs)
  {
    if xs == [] {
      assert first + xs == first;
    } else {
      AfterAttempts(corpus, first, xs[..|xs| - 1]);
      assert (first + xs)[..|first + xs| - 1] == first + xs[..|xs| - 1];
    }
  }

  lemma AfterIsReachable(corpus: Corpus, s: Store, xs: seq<Execution>)
    requires Reachable(corpus, s) && forall i :: 0 <= i < |xs| ==> AttemptOf(corpus, xs[i])
    ensures Reachable(corpus, After(corpus, s, xs))
  {
    var first: seq<Execution> :| (forall i :: 0 <= i < |first| ==> AttemptOf(corpus, first[i]))
      && s == Attempts(corpus, first);
    AfterAttempts(corpus, first, xs);
    var all := first + xs;
    assert forall i :: 0 <= i < |all| ==> AttemptOf(corpus, all[i]);
  }

  lemma {:induction false} RowsStayForever(corpus: Corpus, s: Store, xs: seq<Execution>, run: nat)
    requires Usable(corpus) && Reachable(corpus, s) && run in s.results
    requires forall i :: 0 <= i < |xs| ==> AttemptOf(corpus, xs[i])
    ensures var t := After(corpus, s, xs);
      run in t.results && t.results[run] == s.results[run] && RunRows(t.claims, run) == RunRows(s.claims, run)
  {
    if xs != [] {
      var front := xs[..|xs| - 1];
      RowsStayForever(corpus, s, front, run);
      AfterIsReachable(corpus, s, front);
      StoredRowsStay(corpus, After(corpus, s, front), xs[|xs| - 1], run);
    }
  }

  /** What was stored is what the run's claims are for good, whatever is attempted later. */
  lemma StoredClaimsStayForever(corpus: Corpus, s: Store, x: Execution, xs: seq<Execution>)
    requires Usable(corpus) && Reachable(corpus, s) && AttemptOf(corpus, x) && x.run !in s.results
    requires Extract(s, x, corpus.chunks(x.run)).1.Stored? && forall i :: 0 <= i < |xs| ==> AttemptOf(corpus, xs[i])
    ensures var t := After(corpus, Extract(s, x, corpus.chunks(x.run)).0, xs);
      var end := Work(x, s.rows, corpus.chunks(x.run)).1;
      end.Completed? && HoldsFirsts(RunRows(t.claims, x.run), x.run, end.claims, end.invocations)
  {
    StoredClaimsAreExact(corpus, s, x);
    var one := [x];
    assert one[..0] == [] && After(corpus, s, one) == Extract(s, x, corpus.chunks(x.run)).0;
    AfterIsReachable(corpus, s, one);
    RowsStayForever(corpus, Extract(s, x, corpus.chunks(x.run)).0, xs, x.run);
  }
}
