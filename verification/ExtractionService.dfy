/** The extraction worker as it runs: rows are rewritten per chunk, claims and result are committed at the end. */
module ExtractionService {
  import opened Prelude
  import opened TextChunking
  import opened ExtractionHarness
  import opened ExtractionRepository
  import EvidenceCapture

  /** What the loop has gathered, continued by how the remaining chunks end. */
  ghost function Gathered(invocations: seq<Invocation>, claims: seq<CandidateClaim>, usage: Usage, e: End): End {
    if e.Completed? then Completed(invocations + e.invocations, claims + e.claims, Plus(usage, e.usage)) else e
  }

  lemma JoinFirst(invocations: seq<Invocation>, claims: seq<CandidateClaim>, usage: Usage, i: Invocation,
                  more: seq<CandidateClaim>, e: End)
    ensures Gathered(invocations, claims, usage, First(i, more, e))
      == Gathered(invocations + [i], claims + more, Plus(usage, i.usage), e)
  {
    if e.Completed? {
      assert invocations + ([i] + e.invocations) == (invocations + [i]) + e.invocations;
      assert claims + (more + e.claims) == (claims + more) + e.claims;
    }
  }

  lemma JoinNothing(e: End)
    ensures Gathered([], [], NO_USAGE, e) == e
  {
    if e.Completed? {
      assert [] + e.invocations == e.invocations && [] + e.claims == e.claims;
    }
  }

  class ExtractionStore {
    var rows: Rows
    var claims: seq<StoredClaim>
    var results: map<nat, ResultRow>

    function State(): Store
      reads this
    {
      Store(rows, claims, results)
    }

    constructor ()
      ensures State() == EMPTY
    {
      rows, claims, results := map[], [], map[];
    }

    /** `started`: a new row, or an old one reset unless it already succeeded. */
    method Started(x: Execution, chunk: Chunk) returns (ok: bool)
      modifies this`rows
      ensures var spec := ExtractionHarness.Started(old(rows), x.KeyOf(chunk), x.IdentityOf(chunk));
        ok == spec.Some? && rows == if ok then spec.value else old(rows)
    {
      var key, identity := x.KeyOf(chunk), x.IdentityOf(chunk);
      if key !in rows {
        rows := rows[key := Row(identity, RowRunning, None, None, None, NO_USAGE, 0, None)];
        return true;
      }
      var row := rows[key];
      if row.identity != identity {
        return false;
      }
      if row.status == RowSucceeded {
        return true;
      }
      row := row.(status := RowRunning);
      row := row.(provider := None, model := None, responseId := None);
      row := row.(usage := NO_USAGE, claimCount := 0);
      row := row.(error := None);
      rows := rows[key := row];
      return true;
    }

    /** `succeeded` */
    method Succeeded(key: RowKey, i: Invocation) returns (ok: bool)
      modifies this`rows
      ensures ok <==> key in old(rows) && old(rows)[key].identity == i.identity
      ensures rows == if ok then old(rows)[key := SucceededRow(i)] else old(rows)
    {
      if key !in rows || rows[key].identity != i.identity {
        return false;
      }
      var row := rows[key].(status := RowSucceeded);
      row := row.(provider := Some(i.provider), model := Some(i.model), responseId := Some(i.responseId));
      row := row.(usage := i.usage, claimCount := i.claimCount);
      row := row.(error := None);
      rows := rows[key := row];
      return true;
    }

    /** `failed` */
    method Failed(key: RowKey, identity: Identity, error: string) returns (ok: bool)
      modifies this`rows
      ensures ok <==> key in old(rows) && old(rows)[key].identity == identity
      ensures rows == if ok then old(rows)[key := FailedRow(old(rows)[key], error)] else old(rows)
    {
      if key !in rows || rows[key].identity != identity {
        return false;
      }
      var row := rows[key].(status := RowFailed);
      row := row.(error := Some(Truncated(error)));
      rows := rows[key := row];
      return true;
    }

    /** One chunk, with `rest` still to come: None when it went through. */
    method WorkOne(x: Execution, chunk: Chunk, ghost rest: seq<Chunk>)
      returns (stop: Option<End>, invocation: Option<Invocation>, found: seq<CandidateClaim>)
      modifies this`rows
      ensures stop.Some? ==> !stop.value.Completed? && Work(x, old(rows), [chunk] + rest) == (rows, stop.value)
      ensures stop == None ==> invocation.Some?
      ensures stop == None ==>
        Work(x, old(rows), [chunk] + rest)
          == (Work(x, rows, rest).0, First(invocation.value, found, Work(x, rows, rest).1))
    {
      invocation, found := None, [];
      assert ([chunk] + rest)[0] == chunk && ([chunk] + rest)[1..] == rest;
      if Blank(chunk.text) {
        return Some(BlankRequest(chunk.index)), None, [];
      }
      var key, request := x.KeyOf(chunk), x.RequestFor(chunk);
      var ok := Started(x, chunk);
      if !ok {
        return Some(IdentityChanged(chunk.index)), None, [];
      }
      match x.gateway(chunk.index, request)
      case Died =>
        return Some(ProcessDied(chunk.index)), None, [];
      case Raised(error) =>
        ok := Failed(key, x.IdentityOf(chunk), error);
        return Some(GatewayFailed(chunk.index)), None, [];
      case Answered(r) =>
        if r.fingerprint != request {
          ok := Failed(key, x.IdentityOf(chunk), "RequestFingerprintMismatch");
          return Some(FingerprintMismatch(chunk.index)), None, [];
        }
        var i := InvocationOf(x, chunk, r);
        ok := Succeeded(key, i);
        return None, Some(i), r.claims;
    }

    /** `ExtractionHarness.run` over the chunks of the document, without the final deduplication. */
    method RunHarness(x: Execution, chunks: seq<Chunk>) returns (end: End)
      modifies this`rows
      ensures Work(x, old(rows), chunks) == (rows, end)
    {
      var invocations: seq<Invocation>, claims: seq<CandidateClaim>, usage := [], [], NO_USAGE;
      assert chunks[0..] == chunks;
      JoinNothing(Work(x, rows, chunks).1);
      for k := 0 to |chunks|
        invariant Work(x, old(rows), chunks).0 == Work(x, rows, chunks[k..]).0
        invariant Work(x, old(rows), chunks).1 == Gathered(invocations, claims, usage, Work(x, rows, chunks[k..]).1)
      {
        assert chunks[k..] == [chunks[k]] + chunks[k + 1..];
        var stop, invocation, found := WorkOne(x, chunks[k], chunks[k + 1..]);
        if stop.Some? {
          return stop.value;
        }
        JoinFirst(invocations, claims, usage, invocation.value, found, Work(x, rows, chunks[k + 1..]).1);
        invocations := invocations + [invocation.value];
        claims := claims + found;
        usage := Plus(usage, invocation.value.usage);
      }
      assert invocations + [] == invocations && claims + [] == claims;
      return Completed(invocations, claims, usage);
    }

    /** `persist_result`: the claim rows and the result row are committed together or not at all. */
    method PersistResult(x: Execution, end: End) returns (outcome: Outcome)
      requires end.Completed?
      modifies this`claims, this`results
      ensures Persist(old(State()), x, end) == (State(), outcome)
    {
      var unique := DeduplicateClaims(end.claims);
      if x.run in results {
        return Stored(results[x.run].claimCount);
      }
      if !x.targetKept {
        return Refused(TargetChanged);
      }
      var valid := ValidateInvocations(rows, x.run, x.attempt, end.invocations);
      if !valid {
        return Refused(InvocationsDiffer);
      }
      if |Providers(end.invocations)| != 1 {
        return Refused(SeveralProviders);
      }
      assert end.invocations != [];
      var provider, model := end.invocations[0].provider, end.invocations[0].model;
      var added := [];
      for i := 0 to |unique|
        invariant added == ClaimRows(x.run, unique[..i], provider, model)
        invariant forall j :: 0 <= j < i ==> EvidenceExact(x.document.text, unique[j])
      {
        if !EvidenceExact(x.document.text, unique[i]) {
          return Refused(EvidenceDiffers);
        }
        added := added + [StoredClaim(x.run, unique[i], provider, model)];
      }
      assert unique[..|unique|] == unique;
      claims := claims + added;
      results := results[x.run := ResultRow(x.document.text, end.invocations, |unique|, end.usage)];
      return Stored(|unique|);
    }

    /** The rest of `extract` once the text is split: the harness, and the result if it completes. */
    method WorkAndPersist(x: Execution, chunks: seq<Chunk>) returns (outcome: Outcome)
      requires x.run !in results && FirstObstacle(x) == None
      modifies this
      ensures ExtractionRepository.Extract(old(State()), x, chunks) == (State(), outcome)
    {
      var end := RunHarness(x, chunks);
      if !end.Completed? {
        return Interrupted(end);
      }
      outcome := PersistResult(x, end);
    }

    /**
     * `extract`: an existing result is returned before anything else is looked at; then the target, the size of its
     * text, the text and its context are checked, and only a text that passes is split.
     */
    method Extract(x: Execution) returns (outcome: Outcome, ghost chunks: seq<Chunk>)
      requires x.chunker == Chunker(DEFAULT_MAX_CHARS, DEFAULT_OVERLAP_CHARS)
      modifies this
      ensures ExtractionRepository.Extract(old(State()), x, chunks) == (State(), outcome)
      ensures outcome.AlreadyExtracted? <==> x.run in old(results)
      ensures outcome.NotStarted? <==> x.run !in old(results) && FirstObstacle(x).Some?
      ensures outcome.AlreadyExtracted? || outcome.NotStarted? ==> State() == old(State())
      ensures outcome.AlreadyExtracted? || outcome.NotStarted?
        || (Chunked(x, chunks) && EndsAtBoundaries(x.chunker, x.document.text, chunks))
    {
      chunks := [];
      if x.run in results {
        return AlreadyExtracted, chunks;
      }
      if !x.targetFound {
        return NotStarted(TargetUnavailable), chunks;
      }
      if EvidenceCapture.Utf8Size(x.document.text) > x.maxBytes {
        return NotStarted(TextTooLarge), chunks;
      }
      if Blank(x.document.text) {
        return NotStarted(TextBlank), chunks;
      }
      if ContextBlanks(x) {
        return NotStarted(ContextBlank), chunks;
      }
      var split := Split(x.chunker, x.document.text);
      chunks := split.value;
      outcome := WorkAndPersist(x, split.value);
    }
  }
}
