/** `_processed_signals` as it runs: fingerprint, cluster and processing tables filled in two passes. */
module TrendProcessing {
  import opened Prelude
  import opened TrendClusters
  import Ordering

  datatype Cluster = Cluster(key: Fingerprint, region: string, kind: Kind, tokens: set<string>, members: seq<nat>)

  predicate FitsCluster(s: Signal, c: Cluster) {
    s.region == c.region && s.kind == c.kind && Overlaps(s.tokens, c.tokens)
  }

  // ---------------------------------------------------------------- what the tables mean

  ghost predicate InRange(items: seq<Signal>, positions: seq<nat>) {
    forall j :: 0 <= j < |positions| ==> positions[j] < |items|
  }

  function Ids(items: seq<Signal>, positions: seq<nat>): seq<nat>
    requires InRange(items, positions)
  {
    seq(|positions|, i requires 0 <= i < |positions| => items[positions[i]].id)
  }

  ghost predicate OpenedBy(items: seq<Signal>, founder: nat, c: Cluster) {
    && founder < |items| && c.key == FingerprintOf(items[founder])
    && c.region == items[founder].region && c.kind == items[founder].kind && c.tokens == items[founder].tokens
  }

  ghost predicate Holds(items: seq<Signal>, positions: seq<nat>, c: Cluster) {
    InRange(items, positions) && c.members == Ids(items, positions)
  }

  /** The clusters after the first `n` signals, for given founders and homes. */
  ghost predicate ClustersAre(items: seq<Signal>, n: nat, founders: seq<nat>, home: nat -> nat,
                              clusters: seq<Cluster>) {
    && |clusters| == |founders|
    && (forall k :: 0 <= k < |clusters| ==> OpenedBy(items, founders[k], clusters[k]))
    && (forall k :: 0 <= k < |clusters| ==> Holds(items, Members(home, n, k), clusters[k]))
  }

  lemma {:induction false} NoMembersYet(home: nat -> nat, n: nat, k: nat)
    requires forall i: nat :: i < n ==> home(i) < k
    ensures Members(home, n, k) == []
  {
    if n > 0 {
      NoMembersYet(home, n - 1, k);
    }
  }

  /** The generator expression of the first pass: the first cluster, in creation order, that the signal fits. */
  method FindCluster(clusters: seq<Cluster>, s: Signal) returns (r: Option<nat>)
    ensures r.Some? ==> r.value < |clusters| && FitsCluster(s, clusters[r.value])
    ensures forall k :: 0 <= k < (if r.Some? then r.value else |clusters|) ==> !FitsCluster(s, clusters[k])
  {
    for k := 0 to |clusters|
      invariant forall j :: 0 <= j < k ==> !FitsCluster(s, clusters[j])
    {
      if FitsCluster(s, clusters[k]) {
        return Some(k);
      }
    }
    return None;
  }

  lemma FoundIsFirstFit(items: seq<Signal>, i: nat, founders: seq<nat>, clusters: seq<Cluster>, r: Option<nat>)
    requires i < |items| && |clusters| == |founders|
    requires forall k :: 0 <= k < |clusters| ==> OpenedBy(items, founders[k], clusters[k])
    requires r.Some? ==> r.value < |clusters| && FitsCluster(items[i], clusters[r.value])
    requires forall k :: 0 <= k < (if r.Some? then r.value else |clusters|) ==> !FitsCluster(items[i], clusters[k])
    ensures FirstFit(FitsIn(items), founders, i) == r
  {
    var fits := FitsIn(items);
    forall k | 0 <= k < |clusters| ensures fits(i, founders[k]) <==> FitsCluster(items[i], clusters[k]) {
      assert OpenedBy(items, founders[k], clusters[k]);
    }
    FirstFitExact(fits, founders, i);
    if r.Some? {
      FirstFitIs(fits, founders, i, r.value);
    }
  }

  lemma JoinCluster(items: seq<Signal>, n: nat, founders: seq<nat>, home: nat -> nat, clusters: seq<Cluster>)
    requires n < |items| && ClustersAre(items, n, founders, home, clusters) && home(n) < |clusters|
    ensures var k := home(n);
      ClustersAre(items, n + 1, founders, home,
                  clusters[k := clusters[k].(members := clusters[k].members + [items[n].id])])
  {
    var k := home(n);
    var after := clusters[k := clusters[k].(members := clusters[k].members + [items[n].id])];
    forall j | 0 <= j < |after| ensures OpenedBy(items, founders[j], after[j]) {
      assert OpenedBy(items, founders[j], clusters[j]);
    }
    forall j | 0 <= j < |after| ensures Holds(items, Members(home, n + 1, j), after[j]) {
      assert Holds(items, Members(home, n, j), clusters[j]);
    }
  }

  lemma OpenedByAppend(items: seq<Signal>, founders: seq<nat>, clusters: seq<Cluster>, n: nat, c: Cluster)
    requires |clusters| == |founders| && OpenedBy(items, n, c)
    requires forall k :: 0 <= k < |clusters| ==> OpenedBy(items, founders[k], clusters[k])
    ensures forall k :: 0 <= k < |clusters + [c]| ==> OpenedBy(items, (founders + [n])[k], (clusters + [c])[k])
  {
  }

  lemma HoldsOne(items: seq<Signal>, n: nat, c: Cluster)
    requires n < |items| && c.members == [items[n].id]
    ensures Holds(items, [n], c)
  {
  }

  lemma OpenCluster(items: seq<Signal>, n: nat, founders: seq<nat>, home: nat -> nat, clusters: seq<Cluster>)
    requires n < |items| && ClustersAre(items, n, founders, home, clusters) && home(n) == |clusters|
    requires forall i: nat :: i < n ==> home(i) < |clusters|
    ensures var s := items[n];
      ClustersAre(items, n + 1, founders + [n], home,
                  clusters + [Cluster(FingerprintOf(s), s.region, s.kind, s.tokens, [s.id])])
  {
    var s, k := items[n], |clusters|;
    var newest := Cluster(FingerprintOf(s), s.region, s.kind, s.tokens, [s.id]);
    var after := clusters + [newest];
    OpenedByAppend(items, founders, clusters, n, newest);
    NoMembersYet(home, n, k);
    assert Members(home, n + 1, k) == [] + [n] == [n];
    HoldsOne(items, n, newest);
    forall j | 0 <= j < |after| ensures Holds(items, Members(home, n + 1, j), after[j]) {
      if j < k {
        assert Members(home, n + 1, j) == Members(home, n, j) + [] == Members(home, n, j);
        assert Holds(items, Members(home, n, j), clusters[j]);
      }
    }
  }

  lemma EarlierHomes(fits: Fitting, n: nat)
    ensures forall i: nat :: i < n ==> HomeBy(fits)(i) < |Founders(fits, n)|
  {
    forall i: nat | i < n ensures HomeBy(fits)(i) < |Founders(fits, n)| {
      HomeExists(fits, i, n);
    }
  }

  /** One signal joins the first cluster it fits or opens its own. */
  method Place(items: seq<Signal>, n: nat, clusters: seq<Cluster>) returns (after: seq<Cluster>, k: nat)
    requires n < |items| && ClustersAre(items, n, Founders(FitsIn(items), n), HomeBy(FitsIn(items)), clusters)
    ensures ClustersAre(items, n + 1, Founders(FitsIn(items), n + 1), HomeBy(FitsIn(items)), after)
    ensures k == Home(FitsIn(items), n) && k < |after|
  {
    var s := items[n];
    ghost var fits := FitsIn(items);
    var found := FindCluster(clusters, s);
    FoundIsFirstFit(items, n, Founders(fits, n), clusters, found);
    if found.Some? {
      k := found.value;
      JoinCluster(items, n, Founders(fits, n), HomeBy(fits), clusters);
      after := clusters[k := clusters[k].(members := clusters[k].members + [s.id])];
    } else {
      k := |clusters|;
      EarlierHomes(fits, n);
      OpenCluster(items, n, Founders(fits, n), HomeBy(fits), clusters);
      after := clusters + [Cluster(FingerprintOf(s), s.region, s.kind, s.tokens, [s.id])];
    }
  }

  // ---------------------------------------------------------------- the two passes

  /** `fingerprints` names the earliest signal of every fingerprint seen so far. */
  ghost predicate EarliestTable(items: seq<Signal>, n: nat, fingerprints: map<Fingerprint, nat>)
    requires n <= |items|
  {
    forall f :: match Earliest(items, n, f)
      case None => f !in fingerprints
      case Some(i) => f in fingerprints && fingerprints[f] == items[i].id
  }

  /** The reports of the first `n` signals; sizes are filled in for the clusters below `sized`. */
  ghost predicate Reported(items: seq<Signal>, report: nat --> Processing, home: nat -> nat, n: nat, sized: nat,
                           processing: map<nat, Processing>)
    requires n <= |items| && forall i: nat :: i < |items| ==> report.requires(i)
  {
    && (forall i: nat :: i < n ==> ReportedAt(items, report, home, i, sized, processing))
    && (forall id :: id in processing ==> exists i :: 0 <= i < n && items[i].id == id)
  }

  ghost predicate ReportedAt(items: seq<Signal>, report: nat --> Processing, home: nat -> nat, i: nat, sized: nat,
                             processing: map<nat, Processing>)
    requires i < |items| && report.requires(i)
  {
    && items[i].id in processing
    && processing[items[i].id] == if home(i) < sized then report(i) else report(i).(clusterSize := 0)
  }

  lemma NextReported(items: seq<Signal>, report: nat --> Processing, home: nat -> nat, n: nat,
                     processing: map<nat, Processing>)
    requires n < |items| && UniqueIds(items) && forall i: nat :: i < |items| ==> report.requires(i)
    requires Reported(items, report, home, n, 0, processing)
    ensures Reported(items, report, home, n + 1, 0, processing[items[n].id := report(n).(clusterSize := 0)])
  {
    var after := processing[items[n].id := report(n).(clusterSize := 0)];
    forall i: nat | i < n + 1 ensures ReportedAt(items, report, home, i, 0, after) {
      if i < n {
        assert ReportedAt(items, report, home, i, 0, processing);
        assert items[i].id != items[n].id;
      }
    }
    forall id | id in after ensures exists i :: 0 <= i < n + 1 && items[i].id == id {
      if id in processing {
        var i :| 0 <= i < n && items[i].id == id;
      } else {
        assert items[n].id == id;
      }
    }
  }

  lemma EarliestTableNext(items: seq<Signal>, n: nat, fingerprints: map<Fingerprint, nat>)
    requires n < |items| && EarliestTable(items, n, fingerprints)
    ensures var f := FingerprintOf(items[n]);
      EarliestTable(items, n + 1, if f in fingerprints then fingerprints else fingerprints[f := items[n].id])
  {
    var f := FingerprintOf(items[n]);
    var after := if f in fingerprints then fingerprints else fingerprints[f := items[n].id];
    forall g ensures match Earliest(items, n + 1, g)
      case None => g !in after
      case Some(i) => g in after && after[g] == items[i].id {
      assert match Earliest(items, n, g)
        case None => g !in fingerprints
        case Some(i) => g in fingerprints && fingerprints[g] == items[i].id;
    }
  }

  /** The clusters are never renumbered, so the key found when a signal is placed is its final cluster key. */
  lemma KeyIsFinal(items: seq<Signal>, n: nat, clusters: seq<Cluster>, k: nat)
    requires n < |items| && k == Home(FitsIn(items), n) && k < |clusters|
    requires ClustersAre(items, n + 1, Founders(FitsIn(items), n + 1), HomeBy(FitsIn(items)), clusters)
    ensures clusters[k].key == FingerprintOf(items[FounderOf(items, n)])
  {
    FoundersGrow(FitsIn(items), n + 1, |items|);
    assert OpenedBy(items, Founders(FitsIn(items), n + 1)[k], clusters[k]);
  }

  /** What the tables say after the first `n` signals. */
  ghost predicate PassedTo(items: seq<Signal>, n: nat, fingerprints: map<Fingerprint, nat>, clusters: seq<Cluster>,
                           processing: map<nat, Processing>)
    requires n <= |items|
  {
    && EarliestTable(items, n, fingerprints)
    && ClustersAre(items, n, Founders(FitsIn(items), n), HomeBy(FitsIn(items)), clusters)
    && Reported(items, ReportIn(items), HomeBy(FitsIn(items)), n, 0, processing)
  }

  lemma NothingPassed(items: seq<Signal>)
    ensures PassedTo(items, 0, map[], [], map[])
  {
  }

  method PassOne(items: seq<Signal>, n: nat, fingerprints: map<Fingerprint, nat>, clusters: seq<Cluster>,
                 processing: map<nat, Processing>)
    returns (seen: map<Fingerprint, nat>, after: seq<Cluster>, table: map<nat, Processing>)
    requires n < |items| && UniqueIds(items) && PassedTo(items, n, fingerprints, clusters, processing)
    ensures PassedTo(items, n + 1, seen, after, table)
  {
    var p;
    EarliestTableNext(items, n, fingerprints);
    NextReported(items, ReportIn(items), HomeBy(FitsIn(items)), n, processing);
    seen, after, p := ProcessOne(items, n, fingerprints, clusters);
    table := processing[items[n].id := p];
  }

  /** The first pass over the ordered signals. */
  method FirstPass(items: seq<Signal>)
    returns (clusters: seq<Cluster>, processing: map<nat, Processing>, ghost fingerprints: map<Fingerprint, nat>)
    requires UniqueIds(items)
    ensures PassedTo(items, |items|, fingerprints, clusters, processing)
  {
    var seen: map<Fingerprint, nat> := map[];
    clusters, processing := [], map[];
    NothingPassed(items);
    for n := 0 to |items|
      invariant PassedTo(items, n, seen, clusters, processing)
    {
      seen, clusters, processing := PassOne(items, n, seen, clusters, processing);
    }
    fingerprints := seen;
  }

  method ProcessOne(items: seq<Signal>, n: nat, fingerprints: map<Fingerprint, nat>, clusters: seq<Cluster>)
    returns (seen: map<Fingerprint, nat>, after: seq<Cluster>, p: Processing)
    requires n < |items| && EarliestTable(items, n, fingerprints)
    requires ClustersAre(items, n, Founders(FitsIn(items), n), HomeBy(FitsIn(items)), clusters)
    ensures seen == if FingerprintOf(items[n]) in fingerprints then fingerprints
                    else fingerprints[FingerprintOf(items[n]) := items[n].id]
    ensures ClustersAre(items, n + 1, Founders(FitsIn(items), n + 1), HomeBy(FitsIn(items)), after)
    ensures p == Report(items, n).(clusterSize := 0)
  {
    var s := items[n];
    var fingerprint := FingerprintOf(s);
    assert match Earliest(items, n, fingerprint)
      case None => fingerprint !in fingerprints
      case Some(i) => fingerprint in fingerprints && fingerprints[fingerprint] == items[i].id;
    seen := fingerprints;
    var duplicateOf := None;
    if fingerprint in fingerprints {
      duplicateOf := Some(fingerprints[fingerprint]);
    } else {
      seen := seen[fingerprint := s.id];
    }
    var k;
    after, k := Place(items, n, clusters);
    KeyIsFinal(items, n, after, k);
    p := Processing(fingerprint, duplicateOf, after[k].key, 0);
  }

  /** Writes one cluster's size into the entries of its members. */
  method WriteSizes(processing: map<nat, Processing>, members: seq<nat>) returns (after: map<nat, Processing>)
    requires forall id :: id in members ==> id in processing
    ensures after.Keys == processing.Keys
    ensures forall id :: id in processing ==>
      after[id] == if id in members then processing[id].(clusterSize := |members|) else processing[id]
  {
    after := processing;
    for i := 0 to |members|
      invariant after.Keys == processing.Keys
      invariant forall id :: id in processing ==>
        after[id] == if id in members[..i] then processing[id].(clusterSize := |members|) else processing[id]
    {
      var id := members[i];
      assert id in members;
      after := after[id := after[id].(clusterSize := |members|)];
      assert members[..i + 1] == members[..i] + [id];
    }
    assert members[..|members|] == members;
  }

  lemma MembersReported(items: seq<Signal>, report: nat --> Processing, home: nat -> nat, k: nat, c: Cluster,
                        processing: map<nat, Processing>)
    requires forall i: nat :: i < |items| ==> report.requires(i)
    requires Reported(items, report, home, |items|, k, processing) && Holds(items, Members(home, |items|, k), c)
    ensures forall id :: id in c.members ==> id in processing
  {
    forall id | id in c.members ensures id in processing {
      var j :| 0 <= j < |c.members| && c.members[j] == id;
      var i := Members(home, |items|, k)[j];
      assert i in Members(home, |items|, k);
      assert ReportedAt(items, report, home, i, k, processing);
    }
  }

  lemma MemberIds(items: seq<Signal>, home: nat -> nat, k: nat, c: Cluster, i: nat)
    requires UniqueIds(items) && i < |items| && Holds(items, Members(home, |items|, k), c)
    ensures items[i].id in c.members <==> home(i) == k
    ensures |c.members| == |Members(home, |items|, k)|
  {
    var members := Members(home, |items|, k);
    MembersExact(home, |items|, k, i);
    if items[i].id in c.members {
      var j :| 0 <= j < |c.members| && c.members[j] == items[i].id;
      assert members[j] in members;
      assert items[members[j]].id == items[i].id;
    }
    if home(i) == k {
      var j :| 0 <= j < |members| && members[j] == i;
      assert c.members[j] == items[i].id;
    }
  }

  /** The sizes that the reports carry are those of the homes. */
  ghost predicate SizesAre(items: seq<Signal>, report: nat --> Processing, home: nat -> nat)
    requires forall i: nat :: i < |items| ==> report.requires(i)
  {
    forall i: nat :: i < |items| ==> report(i).clusterSize == |Members(home, |items|, home(i))|
  }

  /** After one more cluster's sizes are written, its members' reports are complete. */
  lemma SizesWritten(items: seq<Signal>, report: nat --> Processing, home: nat -> nat, k: nat, c: Cluster,
                     processing: map<nat, Processing>, after: map<nat, Processing>)
    requires UniqueIds(items) && forall i: nat :: i < |items| ==> report.requires(i)
    requires SizesAre(items, report, home)
    requires Reported(items, report, home, |items|, k, processing) && Holds(items, Members(home, |items|, k), c)
    requires after.Keys == processing.Keys
    requires forall id :: id in processing ==>
      after[id] == if id in c.members then processing[id].(clusterSize := |c.members|) else processing[id]
    ensures Reported(items, report, home, |items|, k + 1, after)
  {
    var next := k + 1;
    forall i: nat | i < |items| ensures ReportedAt(items, report, home, i, next, after) {
      assert ReportedAt(items, report, home, i, k, processing);
      MemberIds(items, home, k, c, i);
    }
    forall id | id in after ensures exists i :: 0 <= i < |items| && items[i].id == id {
      assert id in processing;
    }
  }

  lemma SizesAreReported(items: seq<Signal>)
    ensures SizesAre(items, ReportIn(items), HomeBy(FitsIn(items)))
  {
  }

  /** The second pass, which fills in the cluster sizes. */
  method SecondPass(items: seq<Signal>, clusters: seq<Cluster>, first: map<nat, Processing>)
    returns (processing: map<nat, Processing>)
    requires UniqueIds(items)
    requires ClustersAre(items, |items|, Founders(FitsIn(items), |items|), HomeBy(FitsIn(items)), clusters)
    requires Reported(items, ReportIn(items), HomeBy(FitsIn(items)), |items|, 0, first)
    ensures Reported(items, ReportIn(items), HomeBy(FitsIn(items)), |items|, |clusters|, processing)
  {
    processing := first;
    ghost var home, report := HomeBy(FitsIn(items)), ReportIn(items);
    SizesAreReported(items);
    for k := 0 to |clusters|
      invariant Reported(items, report, home, |items|, k, processing)
    {
      MembersReported(items, report, home, k, clusters[k], processing);
      var next := WriteSizes(processing, clusters[k].members);
      SizesWritten(items, report, home, k, clusters[k], processing, next);
      processing := next;
    }
  }

  lemma AllSized(items: seq<Signal>, clusters: nat, processing: map<nat, Processing>)
    requires clusters == |Founders(FitsIn(items), |items|)|
    requires Reported(items, ReportIn(items), HomeBy(FitsIn(items)), |items|, clusters, processing)
    ensures Tabulates(items, ReportIn(items), processing)
  {
    EarlierHomes(FitsIn(items), |items|);
    forall i: nat | i < |items| ensures items[i].id in processing && processing[items[i].id] == ReportIn(items)(i) {
      assert ReportedAt(items, ReportIn(items), HomeBy(FitsIn(items)), i, clusters, processing);
    }
  }

  lemma SortKeepsIds(signals: seq<Signal>)
    requires UniqueIds(signals)
    ensures UniqueIds(Ordered(signals)) && forall s :: s in Ordered(signals) <==> s in signals
  {
    var items := Ordered(signals);
    Ordering.SortKeeps(ObservedBefore, signals);
    forall s ensures s in items <==> s in signals {
      Ordering.SortMembers(ObservedBefore, signals, s);
    }
    forall i, j | 0 <= i < j < |items| ensures items[i].id != items[j].id {
      assert items[i] in signals && items[j] in signals;
      if items[i].id == items[j].id {
        TwiceInSequence(items, i, j);
        OnceInUnique(signals, items[i]);
      }
    }
  }

  lemma TwiceInSequence(s: seq<Signal>, i: nat, j: nat)
    requires i < j < |s| && s[i] == s[j]
    ensures multiset(s)[s[i]] >= 2
  {
    assert s == s[..j] + s[j..];
    assert s[i] in s[..j] && s[j] in s[j..];
    assert multiset(s) == multiset(s[..j]) + multiset(s[j..]);
  }

  lemma {:induction false} OnceInUnique(s: seq<Signal>, x: Signal)
    requires UniqueIds(s)
    ensures multiset(s)[x] <= 1
  {
    if s != [] {
      var front, last := s[..|s| - 1], s[|s| - 1];
      OnceInUnique(front, x);
      assert s == front + [last];
      if x == last {
        assert x !in front;
        assert multiset(front)[x] == 0;
      }
    }
  }

  method ProcessOrdered(items: seq<Signal>) returns (processing: map<nat, Processing>)
    requires UniqueIds(items)
    ensures Tabulates(items, ReportIn(items), processing)
  {
    var clusters, first;
    ghost var fingerprints;
    clusters, first, fingerprints := FirstPass(items);
    processing := SecondPass(items, clusters, first);
    AllSized(items, |clusters|, processing);
  }

  lemma EverySignalListed(signals: seq<Signal>, table: map<nat, Processing>)
    requires UniqueIds(signals) && Describes(signals, table)
    ensures forall p :: 0 <= p < |signals| ==> signals[p].id in table
  {
    SortKeepsIds(signals);
    forall p | 0 <= p < |signals| ensures signals[p].id in table {
      assert signals[p] in Ordered(signals);
      var i :| 0 <= i < |Ordered(signals)| && Ordered(signals)[i] == signals[p];
    }
  }

  /** `_processed_signals`: the reports, in the order the signals were given. */
  method ProcessSignals(signals: seq<Signal>) returns (result: seq<Processing>, ghost table: map<nat, Processing>)
    requires UniqueIds(signals)
    ensures Describes(signals, table)
    ensures |result| == |signals|
    ensures forall p :: 0 <= p < |signals| ==> signals[p].id in table && result[p] == table[signals[p].id]
  {
    SortKeepsIds(signals);
    var processing := ProcessOrdered(Ordered(signals));
    table := processing;
    EverySignalListed(signals, processing);
    result := seq(|signals|, p requires 0 <= p < |signals| && signals[p].id in processing => processing[signals[p].id]);
  }
}
