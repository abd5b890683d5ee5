/** Greedy clustering of observed trend signals, and why the outcome does not depend on their input order. */
module TrendClusters {
  import opened Prelude
  import Ordering

  datatype Kind = HashtagSignal | SoundSignal | TopicSignal | SearchSignal

  /** A stored signal; `normalized` is its normalised title and `tokens` the title's words of two or more characters. */
  datatype Signal = Signal(id: nat, observedAt: int, region: string, kind: Kind, normalized: string,
                           tokens: set<string>)

  datatype Fingerprint = Fingerprint(region: string, kind: Kind, normalized: string)

  datatype Processing = Processing(fingerprint: Fingerprint, duplicateOf: Option<nat>, clusterKey: Fingerprint,
                                   clusterSize: nat)

  function FingerprintOf(s: Signal): Fingerprint {
    Fingerprint(s.region, s.kind, s.normalized)
  }

  function KindText(k: Kind): string {
    match k
    case HashtagSignal => "hashtag" case SoundSignal => "sound" case TopicSignal => "topic"
    case SearchSignal => "search"
  }

  /** The text that is hashed. */
  function FingerprintText(f: Fingerprint): string {
    f.region + "|" + KindText(f.kind) + "|" + f.normalized
  }

  predicate NoBar(s: string) {
    forall i :: 0 <= i < |s| ==> s[i] != '|'
  }

  lemma LastBar(a: string, x: string, b: string, y: string)
    requires a + "|" + x == b + "|" + y && NoBar(x) && NoBar(y)
    ensures a == b && x == y
  {
    var s, t := a + "|" + x, b + "|" + y;
    forall i | |a| < i < |s| ensures s[i] != '|' {
      assert s[i] == x[i - |a| - 1];
    }
    forall i | |b| < i < |t| ensures t[i] != '|' {
      assert t[i] == y[i - |b| - 1];
    }
    assert s[|a|] == '|' && t[|b|] == '|';
    assert s[..|a|] == a && t[..|b|] == b && s[|a| + 1..] == x && t[|b| + 1..] == y;
  }

  /** A normalised title has no bar, so different fingerprints hash different texts, whatever the region contains. */
  lemma FingerprintsAreUnambiguous(f: Fingerprint, g: Fingerprint)
    requires FingerprintText(f) == FingerprintText(g) && NoBar(f.normalized) && NoBar(g.normalized)
    ensures f == g
  {
    LastBar(f.region + "|" + KindText(f.kind), f.normalized, g.region + "|" + KindText(g.kind), g.normalized);
    LastBar(f.region, KindText(f.kind), g.region, KindText(g.kind));
  }

  /** `_jaccard(...) >= 0.5`; an empty side counts as no similarity. */
  predicate Overlaps(left: set<string>, right: set<string>) {
    left != {} && right != {} && 2 * |left * right| >= |left + right|
  }

  /** `s` may join the cluster that `founder` opened. */
  predicate Fits(s: Signal, founder: Signal) {
    s.region == founder.region && s.kind == founder.kind && Overlaps(s.tokens, founder.tokens)
  }

  // ---------------------------------------------------------------- greedy clustering by position

  /** Whether the signal at one position fits the founder at another. */
  type Fitting = (nat, nat) -> bool

  /** The first of the founders that `i` fits. */
  function FirstFit(fits: Fitting, founders: seq<nat>, i: nat): (r: Option<nat>)
    ensures r.Some? ==> r.value < |founders|
  {
    if founders == [] then None
    else
      var front := FirstFit(fits, founders[..|founders| - 1], i);
      if front.Some? then front else if fits(i, founders[|founders| - 1]) then Some(|founders| - 1) else None
  }

  lemma {:induction false} FirstFitExact(fits: Fitting, founders: seq<nat>, i: nat)
    ensures var r := FirstFit(fits, founders, i);
      && (r.Some? ==> fits(i, founders[r.value]))
      && forall k :: 0 <= k < (if r.Some? then r.value else |founders|) ==> !fits(i, founders[k])
  {
    if founders != [] {
      FirstFitExact(fits, founders[..|founders| - 1], i);
    }
  }

  lemma {:induction false} FirstFitIs(fits: Fitting, founders: seq<nat>, i: nat, k: nat)
    requires k < |founders| && fits(i, founders[k]) && forall l :: 0 <= l < k ==> !fits(i, founders[l])
    ensures FirstFit(fits, founders, i) == Some(k)
  {
    FirstFitExact(fits, founders, i);
  }

  /** The positions, among the first `n`, that opened a cluster. */
  function Founders(fits: Fitting, n: nat): seq<nat> {
    if n == 0 then []
    else
      var f := Founders(fits, n - 1);
      if FirstFit(fits, f, n - 1).Some? then f else f + [n - 1]
  }

  /** The cluster of position `i`: the first founded before it that it fits, or the one it opens. */
  function Home(fits: Fitting, i: nat): nat {
    var f := Founders(fits, i);
    var fit := FirstFit(fits, f, i);
    if fit.Some? then fit.value else |f|
  }

  /** The positions below `n` that `home` sends to cluster `k`. */
  function Members(home: nat -> nat, n: nat, k: nat): seq<nat> {
    if n == 0 then [] else Members(home, n - 1, k) + if home(n - 1) == k then [n - 1] else []
  }

  function HomeBy(fits: Fitting): nat -> nat {
    (i: nat) => Home(fits, i)
  }

  lemma {:induction false} FoundersAreEarlier(fits: Fitting, n: nat)
    ensures forall k :: 0 <= k < |Founders(fits, n)| ==> Founders(fits, n)[k] < n
  {
    if n > 0 {
      FoundersAreEarlier(fits, n - 1);
    }
  }

  lemma {:induction false} FounderStays(fits: Fitting, m: nat, n: nat, k: nat)
    requires m <= n && k < |Founders(fits, m)|
    ensures k < |Founders(fits, n)| && Founders(fits, n)[k] == Founders(fits, m)[k]
    decreases n
  {
    if m < n {
      FounderStays(fits, m, n - 1, k);
    }
  }

  /** Clusters are never closed or renumbered. */
  lemma FoundersGrow(fits: Fitting, m: nat, n: nat)
    requires m <= n
    ensures Founders(fits, m) <= Founders(fits, n)
  {
    var a, b := Founders(fits, m), Founders(fits, n);
    forall k | 0 <= k < |a| ensures k < |b| && b[k] == a[k] {
      FounderStays(fits, m, n, k);
    }
    if |a| > |b| {
      FounderStays(fits, m, n, |b|);
    }
  }

  lemma HomeExists(fits: Fitting, i: nat, n: nat)
    requires i < n
    ensures Home(fits, i) < |Founders(fits, n)|
  {
    FoundersGrow(fits, i + 1, n);
  }

  /** The earliest of the first `n` signals with this fingerprint. */
  function Earliest(items: seq<Signal>, n: nat, f: Fingerprint): (r: Option<nat>)
    requires n <= |items|
    ensures r.Some? ==> r.value < n && FingerprintOf(items[r.value]) == f
    ensures r.Some? ==> forall j :: 0 <= j < r.value ==> FingerprintOf(items[j]) != f
    ensures r == None ==> forall j :: 0 <= j < n ==> FingerprintOf(items[j]) != f
  {
    if n == 0 then None
    else
      var earlier := Earliest(items, n - 1, f);
      if earlier.Some? then earlier else if FingerprintOf(items[n - 1]) == f then Some(n - 1) else None
  }

  function FitsIn(items: seq<Signal>): Fitting {
    (i: nat, j: nat) => i < |items| && j < |items| && Fits(items[i], items[j])
  }

  /** The founder of the cluster that signal `i` belongs to. */
  function FounderOf(items: seq<Signal>, i: nat): (f: nat)
    requires i < |items|
    ensures f < |items|
  {
    HomeExists(FitsIn(items), i, |items|);
    FoundersAreEarlier(FitsIn(items), |items|);
    Founders(FitsIn(items), |items|)[Home(FitsIn(items), i)]
  }

  /** The members of the cluster that signal `i` belongs to. */
  function ClusterOf(items: seq<Signal>, i: nat): seq<nat> {
    Members(HomeBy(FitsIn(items)), |items|, Home(FitsIn(items), i))
  }

  /** What `_processed_signals` reports for the signal at position `i` of the ordered list. */
  function Report(items: seq<Signal>, i: nat): Processing
    requires i < |items|
  {
    var duplicate := Earliest(items, i, FingerprintOf(items[i]));
    Processing(FingerprintOf(items[i]), if duplicate.Some? then Some(items[duplicate.value].id) else None,
               FingerprintOf(items[FounderOf(items, i)]), |ClusterOf(items, i)|)
  }

  // ---------------------------------------------------------------- the clusters

  lemma {:induction false} MembersExact(home: nat -> nat, n: nat, k: nat, i: nat)
    ensures i in Members(home, n, k) <==> i < n && home(i) == k
  {
    if n > 0 {
      MembersExact(home, n - 1, k, i);
    }
  }

  lemma {:induction false} MembersAscend(home: nat -> nat, n: nat, k: nat)
    ensures forall j :: 0 <= j < |Members(home, n, k)| ==> Members(home, n, k)[j] < n
    ensures forall i, j :: 0 <= i < j < |Members(home, n, k)| ==> Members(home, n, k)[i] < Members(home, n, k)[j]
  {
    if n > 0 {
      MembersAscend(home, n - 1, k);
    }
  }

  /** The sizes of the clusters below `k` added up. */
  function TotalSize(home: nat -> nat, n: nat, k: nat): nat {
    if k == 0 then 0 else TotalSize(home, n, k - 1) + |Members(home, n, k - 1)|
  }

  lemma {:induction false} TotalSizeStep(home: nat -> nat, n: nat, k: nat)
    requires 0 < n
    ensures TotalSize(home, n, k) == TotalSize(home, n - 1, k) + if home(n - 1) < k then 1 else 0
  {
    if k > 0 {
      TotalSizeStep(home, n, k - 1);
    }
  }

  lemma {:induction false} TotalSizeCounts(home: nat -> nat, n: nat, k: nat)
    requires forall i :: 0 <= i < n ==> home(i) < k
    ensures TotalSize(home, n, k) == n
  {
    if n > 0 {
      TotalSizeCounts(home, n - 1, k);
      TotalSizeStep(home, n, k);
    } else {
      NoSize(home, k);
    }
  }

  lemma {:induction false} NoSize(home: nat -> nat, k: nat)
    ensures TotalSize(home, 0, k) == 0
  {
    if k > 0 {
      NoSize(home, k - 1);
    }
  }

  /**
   * The clusters partition the signals: each belongs to exactly one, membership lists have no repeats, and the
   * sizes add up to the number of signals.
   */
  lemma ClustersPartition(items: seq<Signal>)
    ensures var home, clusters := HomeBy(FitsIn(items)), |Founders(FitsIn(items), |items|)|;
      && (forall i: nat, k: nat :: i < |items| ==> (i in Members(home, |items|, k) <==> k == home(i)))
      && (forall i: nat :: i < |items| ==> home(i) < clusters)
      && (forall k: nat, i, j :: 0 <= i < j < |Members(home, |items|, k)| ==>
          Members(home, |items|, k)[i] < Members(home, |items|, k)[j])
      && TotalSize(home, |items|, clusters) == |items|
  {
    var home, clusters := HomeBy(FitsIn(items)), |Founders(FitsIn(items), |items|)|;
    forall i: nat, k: nat | i < |items| ensures i in Members(home, |items|, k) <==> k == home(i) {
      MembersExact(home, |items|, k, i);
    }
    forall k: nat, i, j | 0 <= i < j < |Members(home, |items|, k)|
      ensures Members(home, |items|, k)[i] < Members(home, |items|, k)[j] {
      MembersAscend(home, |items|, k);
    }
    forall i: nat | i < |items| ensures home(i) < clusters {
      HomeExists(FitsIn(items), i, |items|);
    }
    TotalSizeCounts(home, |items|, clusters);
  }

  lemma SelfOverlap(tokens: set<string>)
    requires tokens != {}
    ensures Overlaps(tokens, tokens)
  {
    assert tokens * tokens == tokens && tokens + tokens == tokens;
  }

  /** Placing `i` into `before` gave `after` and cluster `k`; then `j`, which fits as `i` does, goes there too. */
  lemma SameFit(fits: Fitting, before: seq<nat>, after: seq<nat>, f: seq<nat>, i: nat, j: nat, k: nat)
    requires after == (if FirstFit(fits, before, i).Some? then before else before + [i]) && after <= f
    requires k == (if FirstFit(fits, before, i).Some? then FirstFit(fits, before, i).value else |before|)
    requires fits(j, i) && forall l: nat :: fits(j, l) == fits(i, l)
    ensures FirstFit(fits, f, j) == Some(k)
  {
    FirstFitExact(fits, before, i);
    assert f[k] == after[k] && fits(j, f[k]);
    forall l | 0 <= l < k ensures !fits(j, f[l]) {
      assert f[l] == after[l] == before[l];
      assert fits(j, f[l]) == fits(i, f[l]);
    }
    FirstFitIs(fits, f, j, k);
  }

  /** A later position that fits whatever `i` fits, and also `i` itself, lands in the same cluster. */
  lemma FollowsHome(fits: Fitting, i: nat, j: nat)
    requires i < j && fits(j, i) && forall k: nat :: fits(j, k) == fits(i, k)
    ensures Home(fits, i) == Home(fits, j)
  {
    FoundersGrow(fits, i + 1, j);
    SameFit(fits, Founders(fits, i), Founders(fits, i + 1), Founders(fits, j), i, j, Home(fits, i));
  }

  predicate Alike(s: Signal, t: Signal) {
    s.region == t.region && s.kind == t.kind && s.tokens == t.tokens
  }

  lemma AlikeFit(items: seq<Signal>, i: nat, j: nat)
    requires i < |items| && j < |items| && Alike(items[i], items[j]) && items[i].tokens != {}
    ensures FitsIn(items)(j, i)
  {
    SelfOverlap(items[i].tokens);
  }

  /** Signals of one region and kind with the same non-empty words always share a cluster. */
  lemma EqualSignalsShareACluster(items: seq<Signal>, i: nat, j: nat)
    requires i < |items| && j < |items| && Alike(items[i], items[j]) && items[i].tokens != {}
    ensures Home(FitsIn(items), i) == Home(FitsIn(items), j)
  {
    AlikeFit(items, i, j);
    AlikeFit(items, j, i);
    if i < j {
      FollowsHome(FitsIn(items), i, j);
    } else if j < i {
      FollowsHome(FitsIn(items), j, i);
    }
  }

  /** `duplicateOf` names the earliest signal with the fingerprint, and that one is no duplicate itself. */
  lemma DuplicatesPointToTheFirst(items: seq<Signal>, i: nat, j: nat)
    requires i < |items| && j < |items| && FingerprintOf(items[i]) == FingerprintOf(items[j])
    ensures var first := Earliest(items, |items|, FingerprintOf(items[i]));
      && first.Some? && first.value <= i && first.value <= j
      && Report(items, first.value).duplicateOf == None
      && (i != first.value ==> Report(items, i).duplicateOf == Some(items[first.value].id))
  {
    EarliestStable(items, i + 1, |items|, FingerprintOf(items[i]));
    EarliestStable(items, j + 1, |items|, FingerprintOf(items[j]));
    var first := Earliest(items, |items|, FingerprintOf(items[i])).value;
    if i != first {
      EarliestStable(items, i, |items|, FingerprintOf(items[i]));
    }
  }

  lemma {:induction false} EarliestStable(items: seq<Signal>, m: nat, n: nat, f: Fingerprint)
    requires m <= n <= |items| && Earliest(items, m, f).Some?
    ensures Earliest(items, n, f) == Earliest(items, m, f)
    decreases n
  {
    if m < n {
      EarliestStable(items, m, n - 1, f);
    }
  }

  lemma {:induction false} FounderHome(fits: Fitting, n: nat, k: nat)
    requires k < |Founders(fits, n)|
    ensures Home(fits, Founders(fits, n)[k]) == k
  {
    var f := Founders(fits, n - 1);
    if k < |f| {
      FoundersGrow(fits, n - 1, n);
      FounderHome(fits, n - 1, k);
    }
  }

  /** The title's words are a function of the title. */
  ghost predicate WordsFollowTitles(items: seq<Signal>) {
    forall i, j :: 0 <= i < |items| && 0 <= j < |items| && items[i].normalized == items[j].normalized
      ==> items[i].tokens == items[j].tokens
  }

  /** Two clusters carry the same key only when their founders have equal titles without any word. */
  lemma KeysClashOnlyWithoutWords(items: seq<Signal>, a: nat, b: nat)
    requires WordsFollowTitles(items) && a < b < |Founders(FitsIn(items), |items|)|
    ensures forall k :: 0 <= k < |Founders(FitsIn(items), |items|)| ==> Founders(FitsIn(items), |items|)[k] < |items|
    ensures var f := Founders(FitsIn(items), |items|);
      FingerprintOf(items[f[a]]) == FingerprintOf(items[f[b]]) ==> items[f[a]].tokens == items[f[b]].tokens == {}
  {
    FoundersAreEarlier(FitsIn(items), |items|);
    var f := Founders(FitsIn(items), |items|);
    FounderHome(FitsIn(items), |items|, a);
    FounderHome(FitsIn(items), |items|, b);
    if FingerprintOf(items[f[a]]) == FingerprintOf(items[f[b]]) && items[f[a]].tokens != {} {
      EqualSignalsShareACluster(items, f[a], f[b]);
    }
  }

  lemma MisfitStandsAlone(fits: Fitting, i: nat, j: nat)
    requires i < j && forall k: nat :: !fits(i, k) && !fits(k, i)
    ensures Home(fits, i) < Home(fits, j) || Home(fits, j) < Home(fits, i)
  {
    FoundersGrow(fits, i + 1, j);
    FirstFitExact(fits, Founders(fits, i), i);
    FirstFitExact(fits, Founders(fits, j), j);
    assert Home(fits, i) == |Founders(fits, i)| && Founders(fits, i + 1) == Founders(fits, i) + [i];
    assert Founders(fits, j)[Home(fits, i)] == i;
  }

  lemma EarlierThanMisfit(fits: Fitting, i: nat, j: nat)
    requires j < i && forall k: nat :: !fits(i, k)
    ensures Home(fits, j) < Home(fits, i)
  {
    FirstFitExact(fits, Founders(fits, i), i);
    HomeExists(fits, j, i);
  }

  /** A signal without words always opens a cluster of its own and stays its only member. */
  lemma WordlessSignalsStandAlone(items: seq<Signal>, i: nat, j: nat)
    requires i < |items| && items[i].tokens == {} && j < |items| && i != j
    ensures Home(FitsIn(items), i) != Home(FitsIn(items), j)
  {
    if i < j {
      MisfitStandsAlone(FitsIn(items), i, j);
    } else {
      EarlierThanMisfit(FitsIn(items), i, j);
    }
  }

  lemma WordlessIsFounder(items: seq<Signal>, i: nat)
    requires i < |items| && items[i].tokens == {}
    ensures FounderOf(items, i) == i
  {
    var fits := FitsIn(items);
    FirstFitExact(fits, Founders(fits, i), i);
    FoundersGrow(fits, i + 1, |items|);
    assert Founders(fits, i + 1)[Home(fits, i)] == i;
  }

  lemma WordlessFounderIsAlone(items: seq<Signal>, i: nat)
    requires i < |items| && items[FounderOf(items, i)].tokens == {}
    ensures FounderOf(items, i) == i
  {
    var f := FounderOf(items, i);
    HomeExists(FitsIn(items), i, |items|);
    FounderHome(FitsIn(items), |items|, Home(FitsIn(items), i));
    if f != i {
      WordlessSignalsStandAlone(items, f, i);
    }
  }

  /**
   * Signals of different clusters are reported under one key exactly when they have the same region, kind and
   * normalised title, and that title has no word; keys identify clusters otherwise.
   */
  lemma KeysClashExactly(items: seq<Signal>, i: nat, j: nat)
    requires WordsFollowTitles(items) && i < |items| && j < |items| && i != j
    ensures Home(FitsIn(items), i) != Home(FitsIn(items), j)
      && Report(items, i).clusterKey == Report(items, j).clusterKey
      <==> FingerprintOf(items[i]) == FingerprintOf(items[j]) && items[i].tokens == {}
  {
    var fits := FitsIn(items);
    HomeExists(fits, i, |items|);
    HomeExists(fits, j, |items|);
    if Home(fits, i) != Home(fits, j) && Report(items, i).clusterKey == Report(items, j).clusterKey {
      if Home(fits, i) < Home(fits, j) {
        KeysClashOnlyWithoutWords(items, Home(fits, i), Home(fits, j));
      } else {
        KeysClashOnlyWithoutWords(items, Home(fits, j), Home(fits, i));
      }
      WordlessFounderIsAlone(items, i);
      WordlessFounderIsAlone(items, j);
    }
    if FingerprintOf(items[i]) == FingerprintOf(items[j]) && items[i].tokens == {} {
      WordlessSignalsStandAlone(items, i, j);
      WordlessIsFounder(items, i);
      WordlessIsFounder(items, j);
    }
  }

  /** An instance: two signals with the one-letter title "x" are in different clusters under one key. */
  lemma KeysDoClash()
    ensures var items := [Signal(0, 0, "US", TopicSignal, "x", {}), Signal(1, 1, "US", TopicSignal, "x", {})];
      && Home(FitsIn(items), 0) != Home(FitsIn(items), 1)
      && Report(items, 0).clusterKey == Report(items, 1).clusterKey
      && Report(items, 1).duplicateOf == Some(0)
  {
    var items := [Signal(0, 0, "US", TopicSignal, "x", {}), Signal(1, 1, "US", TopicSignal, "x", {})];
    KeysClashExactly(items, 0, 1);
    assert FingerprintOf(items[0]) == FingerprintOf(items[1]);
    DuplicatesPointToTheFirst(items, 1, 0);
  }

  // ---------------------------------------------------------------- ordering

  /** `(observed_at, id)` */
  predicate ObservedBefore(a: Signal, b: Signal) {
    a.observedAt < b.observedAt || (a.observedAt == b.observedAt && a.id <= b.id)
  }

  function Ordered(signals: seq<Signal>): seq<Signal> {
    Ordering.Sort(ObservedBefore, signals)
  }

  ghost predicate UniqueIds(signals: seq<Signal>) {
    forall i, j :: 0 <= i < j < |signals| ==> signals[i].id != signals[j].id
  }

  /** `result` holds the report of every item under its id, and nothing else. */
  ghost predicate Tabulates(items: seq<Signal>, report: nat --> Processing, result: map<nat, Processing>)
    requires forall i: nat :: i < |items| ==> report.requires(i)
  {
    && (forall i: nat :: i < |items| ==> items[i].id in result && result[items[i].id] == report(i))
    && (forall id :: id in result ==> exists i :: 0 <= i < |items| && items[i].id == id)
  }

  ghost function ReportIn(items: seq<Signal>): nat --> Processing {
    (i: nat) requires i < |items| => Report(items, i)
  }

  /** The processing of each signal, by id. */
  ghost predicate Describes(signals: seq<Signal>, result: map<nat, Processing>) {
    Tabulates(Ordered(signals), ReportIn(Ordered(signals)), result)
  }

  lemma OrderedIgnoresOrder(a: seq<Signal>, b: seq<Signal>)
    requires multiset(a) == multiset(b) && UniqueIds(a)
    ensures Ordered(a) == Ordered(b)
  {
    forall x, y | x in multiset(a) && y in multiset(a) && ObservedBefore(x, y) && ObservedBefore(y, x) ensures x == y {
      var i :| 0 <= i < |a| && a[i] == x;
      var j :| 0 <= j < |a| && a[j] == y;
    }
    Ordering.SortIgnoresOrder(ObservedBefore, a, b);
  }

  /** Whatever order the signals arrive in, every one of them is processed to the same result. */
  lemma ProcessingIgnoresInputOrder(a: seq<Signal>, b: seq<Signal>, ra: map<nat, Processing>, rb: map<nat, Processing>)
    requires multiset(a) == multiset(b) && UniqueIds(a) && Describes(a, ra) && Describes(b, rb)
    ensures ra == rb
  {
    OrderedIgnoresOrder(a, b);
    OneTable(Ordered(a), ReportIn(Ordered(a)), ra, rb);
  }

  lemma OneTable(items: seq<Signal>, report: nat --> Processing, ra: map<nat, Processing>, rb: map<nat, Processing>)
    requires forall i: nat :: i < |items| ==> report.requires(i)
    requires Tabulates(items, report, ra) && Tabulates(items, report, rb)
    ensures ra == rb
  {
    forall id ensures id in ra <==> id in rb {
      if id in ra {
        var i :| 0 <= i < |items| && items[i].id == id;
      }
      if id in rb {
        var i :| 0 <= i < |items| && items[i].id == id;
      }
    }
    forall id | id in ra ensures ra[id] == rb[id] {
      var i :| 0 <= i < |items| && items[i].id == id;
    }
  }
}
