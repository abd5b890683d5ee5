/** The human topic gate of one marketing task: an append-only review log with at most one approved candidate. */
module TopicGate {
  import opened Prelude

  datatype Decision = Approve | Reject | Defer

  datatype TopicReview = TopicReview(candidate: nat, decision: Decision, reason: string, reviewer: string, key: string)

  datatype GateError = CandidateNotFound | KeyReused | AnotherApproved

  type Log = seq<TopicReview>

  function Latest(log: Log, c: nat): (r: Option<nat>)
    ensures r.Some? ==> r.value < |log| && log[r.value].candidate == c
  {
    if log == [] then None
    else if log[|log| - 1].candidate == c then Some(|log| - 1)
    else Latest(log[..|log| - 1], c)
  }

  /** The candidate's latest decision is to approve it. */
  predicate Approved(log: Log, c: nat) {
    Latest(log, c).Some? && log[Latest(log, c).value].decision == Approve
  }

  function Find(log: Log, key: string): (r: Option<nat>)
    ensures r.Some? ==> r.value < |log| && log[r.value].key == key
    ensures r == None ==> forall i :: 0 <= i < |log| ==> log[i].key != key
  {
    if log == [] then None
    else if log[|log| - 1].key == key then Some(|log| - 1)
    else Find(log[..|log| - 1], key)
  }

  /** Some other candidate is the currently approved one. */
  ghost predicate OtherApproved(log: Log, c: nat) {
    exists d: nat :: d != c && Approved(log, d)
  }

  /** `review_topic`: the new log and whether a review was added. */
  ghost function Decide(candidates: set<nat>, log: Log, r: TopicReview): Result<(Log, bool), GateError> {
    if r.candidate !in candidates then Failure(CandidateNotFound)
    else match Find(log, r.key)
      case Some(i) => if log[i] != r then Failure(KeyReused) else Success((log, false))
      case None =>
        if r.decision == Approve && OtherApproved(log, r.candidate) then Failure(AnotherApproved)
        else Success((log + [r], true))
  }

  // ---------------------------------------------------------------- histories

  ghost function Step(candidates: set<nat>, log: Log, r: TopicReview): Log {
    var reply := Decide(candidates, log, r);
    if reply.Success? then reply.value.0 else log
  }

  ghost function After(candidates: set<nat>, log: Log, rs: seq<TopicReview>): Log {
    if rs == [] then log else Step(candidates, After(candidates, log, rs[..|rs| - 1]), rs[|rs| - 1])
  }

  ghost predicate Later(candidates: set<nat>, log: Log, later: Log) {
    exists rs :: later == After(candidates, log, rs)
  }

  ghost predicate Reachable(candidates: set<nat>, log: Log) {
    Later(candidates, [], log)
  }

  ghost predicate AtMostOneApproved(log: Log) {
    forall c: nat, d: nat :: Approved(log, c) && Approved(log, d) ==> c == d
  }

  ghost predicate KeysUnique(log: Log) {
    forall i, j :: 0 <= i < j < |log| ==> log[i].key != log[j].key
  }

  lemma LatestAfter(log: Log, r: TopicReview, c: nat)
    ensures Latest(log + [r], c) == if r.candidate == c then Some(|log|) else Latest(log, c)
    ensures Approved(log + [r], c) <==> if r.candidate == c then r.decision == Approve else Approved(log, c)
  {
    assert (log + [r])[..|log|] == log;
  }

  lemma StepKeeps(candidates: set<nat>, log: Log, r: TopicReview)
    requires AtMostOneApproved(log) && KeysUnique(log)
    ensures var next := Step(candidates, log, r); AtMostOneApproved(next) && KeysUnique(next) && log <= next
  {
    var next := Step(candidates, log, r);
    if next != log {
      forall c: nat, d: nat | Approved(next, c) && Approved(next, d) ensures c == d {
        LatestAfter(log, r, c);
        LatestAfter(log, r, d);
        if r.decision == Approve {
          assert !OtherApproved(log, r.candidate);
        }
      }
    }
  }

  lemma {:induction false} AfterKeeps(candidates: set<nat>, log: Log, rs: seq<TopicReview>)
    requires AtMostOneApproved(log) && KeysUnique(log)
    ensures var later := After(candidates, log, rs); AtMostOneApproved(later) && KeysUnique(later) && log <= later
  {
    if rs != [] {
      AfterKeeps(candidates, log, rs[..|rs| - 1]);
      StepKeeps(candidates, After(candidates, log, rs[..|rs| - 1]), rs[|rs| - 1]);
    }
  }

  /** In every reachable log at most one candidate is approved. */
  lemma OneTopicAtMost(candidates: set<nat>, log: Log)
    requires Reachable(candidates, log)
    ensures AtMostOneApproved(log) && KeysUnique(log)
  {
    var rs :| log == After(candidates, [], rs);
    AfterKeeps(candidates, [], rs);
  }

  lemma {:induction false} LatestIsLast(log: Log, c: nat, i: nat)
    requires i < |log| && log[i].candidate == c
    ensures Latest(log, c).Some? && i <= Latest(log, c).value
  {
    if log[|log| - 1].candidate != c {
      LatestIsLast(log[..|log| - 1], c, i);
    }
  }

  /** An approval is lost only by a later rejection or deferral of that same candidate. */
  lemma ApprovalLostOnlyByItsOwnReview(candidates: set<nat>, log: Log, later: Log, c: nat)
    requires Reachable(candidates, log) && Later(candidates, log, later) && Approved(log, c) && !Approved(later, c)
    ensures exists i :: |log| <= i < |later| && later[i].candidate == c && later[i].decision != Approve
  {
    OneTopicAtMost(candidates, log);
    var rs :| later == After(candidates, log, rs);
    AfterKeeps(candidates, log, rs);
    var first := Latest(log, c).value;
    assert later[first] == log[first];
    LatestIsLast(later, c, first);
    var last := Latest(later, c).value;
    if last < |log| {
      assert log[last] == later[last];
      LatestIsLast(log, c, last);
    }
  }

  /** An accepted decision, sent again at any later time, changes nothing, even if another topic is approved by then. */
  lemma DecisionReplaysForever(candidates: set<nat>, log: Log, r: TopicReview, first: Log, later: Log)
    requires Reachable(candidates, log) && Decide(candidates, log, r).Success?
    requires first == Decide(candidates, log, r).value.0 && Later(candidates, first, later)
    ensures Decide(candidates, later, r) == Success((later, false))
  {
    OneTopicAtMost(candidates, log);
    StepKeeps(candidates, log, r);
    assert first == Step(candidates, log, r);
    var rs :| later == After(candidates, first, rs);
    AfterKeeps(candidates, first, rs);
    var i := if Find(log, r.key).Some? then Find(log, r.key).value else |log|;
    assert first[i] == r && later[i] == r;
    var found := Find(later, r.key);
    assert found.Some? && later[found.value].key == later[i].key;
  }

  // ---------------------------------------------------------------- the answer

  /** Review `i` is the last one about candidate `c`. */
  ghost predicate LastReview(log: Log, c: nat, i: nat) {
    i < |log| && log[i].candidate == c && forall j :: 0 <= j < |log| && log[j].candidate == c ==> j <= i
  }

  /** The last review about `c` approves it. */
  ghost predicate Chosen(log: Log, c: nat) {
    exists i: nat :: LastReview(log, c, i) && log[i].decision == Approve
  }

  lemma LatestExactly(log: Log, c: nat)
    ensures Latest(log, c).Some? ==> LastReview(log, c, Latest(log, c).value)
    ensures Latest(log, c) == None ==> forall j :: 0 <= j < |log| ==> log[j].candidate != c
  {
    forall j | 0 <= j < |log| && log[j].candidate == c ensures Latest(log, c).Some? && j <= Latest(log, c).value {
      LatestIsLast(log, c, j);
    }
  }

  lemma ChosenExactly(log: Log, c: nat)
    ensures Chosen(log, c) <==> Approved(log, c)
  {
    LatestExactly(log, c);
  }

  /**
   * With a key not used before, a decision on a listed candidate is recorded, except that a topic cannot be approved
   * while the last review of another one approves that. A rejection or a deferral is never refused.
   */
  lemma NewDecisionExactly(candidates: set<nat>, log: Log, r: TopicReview)
    requires forall i :: 0 <= i < |log| ==> log[i].key != r.key
    ensures var blocked := r.decision == Approve && exists d: nat :: d != r.candidate && Chosen(log, d);
      && (r.candidate in candidates && !blocked ==> Decide(candidates, log, r) == Success((log + [r], true)))
      && (r.candidate in candidates && blocked ==> Decide(candidates, log, r) == Failure(AnotherApproved))
      && (r.candidate !in candidates ==> Decide(candidates, log, r) == Failure(CandidateNotFound))
  {
    forall d: nat ensures Chosen(log, d) <==> Approved(log, d) {
      ChosenExactly(log, d);
    }
  }

  /** With a key that was used before, it is either the recorded decision sent again, or refused. */
  lemma RepeatedDecisionExactly(candidates: set<nat>, log: Log, r: TopicReview, i: nat)
    requires Reachable(candidates, log) && i < |log| && log[i].key == r.key && r.candidate in candidates
    ensures Decide(candidates, log, r) == if log[i] == r then Success((log, false)) else Failure(KeyReused)
  {
    OneTopicAtMost(candidates, log);
    var found := Find(log, r.key);
    assert found.Some? && log[found.value].key == log[i].key;
  }

  // ---------------------------------------------------------------- the transactions

  ghost predicate Listed(log: Log, latest: map<nat, TopicReview>, c: nat) {
    match Latest(log, c)
    case None => c !in latest
    case Some(i) => c in latest && latest[c] == log[i]
  }

  /** `latest` holds every reviewed candidate's latest review. */
  ghost predicate LatestTable(log: Log, latest: map<nat, TopicReview>) {
    forall c: nat :: Listed(log, latest, c)
  }

  lemma TableNext(log: Log, latest: map<nat, TopicReview>, r: TopicReview)
    requires LatestTable(log, latest)
    ensures LatestTable(log + [r], latest[r.candidate := r])
  {
    var longer, next := log + [r], latest[r.candidate := r];
    forall c: nat ensures Listed(longer, next, c) {
      LatestAfter(log, r, c);
      assert Listed(log, latest, c);
    }
  }

  /** The dictionary that both gates build by overwriting. */
  method LatestReviews(log: Log) returns (latest: map<nat, TopicReview>)
    ensures LatestTable(log, latest)
  {
    latest := map[];
    for i := 0 to |log|
      invariant LatestTable(log[..i], latest)
    {
      assert log[..i + 1] == log[..i] + [log[i]];
      TableNext(log[..i], latest, log[i]);
      latest := latest[log[i].candidate := log[i]];
    }
    assert log[..|log|] == log;
  }

  lemma TableApproves(log: Log, latest: map<nat, TopicReview>, c: nat)
    requires LatestTable(log, latest)
    ensures c in latest && latest[c].decision == Approve <==> Approved(log, c)
  {
    assert Listed(log, latest, c);
  }

  function ApprovedIn(latest: map<nat, TopicReview>): set<nat> {
    set c | c in latest && latest[c].decision == Approve
  }

  class TopicStore {
    const candidates: set<nat>
    var log: Log

    constructor (candidates: set<nat>)
      ensures this.candidates == candidates && log == [] && Reachable(candidates, log)
    {
      this.candidates := candidates;
      log := [];
      new;
      assert log == After(candidates, [], []);
    }

    /** `review_topic` */
    method ReviewTopic(r: TopicReview) returns (reply: Result<bool, GateError>)
      modifies this`log
      ensures match Decide(candidates, old(log), r)
        case Failure(error) => reply == Failure(error) && log == old(log)
        case Success(p) => reply == Success(p.1) && log == p.0
    {
      if r.candidate !in candidates {
        return Failure(CandidateNotFound);
      }
      var existing := Find(log, r.key);
      if existing.Some? {
        return if log[existing.value] != r then Failure(KeyReused) else Success(false);
      }
      if r.decision == Approve {
        var latest := LatestReviews(log);
        forall d: nat ensures d in ApprovedIn(latest) <==> Approved(log, d) {
          TableApproves(log, latest, d);
        }
        if exists d :: d in ApprovedIn(latest) && d != r.candidate {
          return Failure(AnotherApproved);
        }
      }
      log := log + [r];
      return Success(true);
    }

    /** `_current_approved_review` of the script service: the one approved topic, or None for its error. */
    method CurrentApproved() returns (current: Option<TopicReview>)
      requires Reachable(candidates, log)
      ensures current == None <==> forall c: nat :: !Approved(log, c)
      ensures current.Some? ==> exists i: nat :: LastReview(log, current.value.candidate, i) && log[i] == current.value
      ensures current.Some? ==> current.value.decision == Approve
    {
      OneTopicAtMost(candidates, log);
      var latest := LatestReviews(log);
      var approved := ApprovedIn(latest);
      forall c: nat ensures c in approved <==> Approved(log, c) {
        TableApproves(log, latest, c);
      }
      if |approved| != 1 {
        AtMostOne(approved);
        return None;
      }
      var c :| c in approved;
      assert Listed(log, latest, c) && Approved(log, c);
      LatestExactly(log, c);
      return Some(latest[c]);
    }
  }

  lemma AtMostOne(s: set<nat>)
    requires |s| != 1 && forall c, d :: c in s && d in s ==> c == d
    ensures s == {}
  {
    if c :| c in s {
      assert s == {c};
    }
  }
}
