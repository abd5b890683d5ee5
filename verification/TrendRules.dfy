/** Which cluster a trend signal joins and what is reported of it, stated over the signals alone. */
module TrendRules {
  import opened Prelude
  import opened TrendClusters
  import Ordering

  // ---------------------------------------------------------------- similarity

  /** The shared words among all words of the two titles; nothing is shared with a title without words. */
  ghost function Ratio(left: set<string>, right: set<string>): real {
    if left == {} || right == {} then 0.0
    else
      assert left + right != {};
      |left * right| as real / |left + right| as real
  }

  /** Signals of one region and kind are similar when at least half of their words are shared. */
  ghost predicate Similar(s: Signal, t: Signal) {
    s.region == t.region && s.kind == t.kind && Ratio(s.tokens, t.tokens) >= 0.5
  }

  lemma HalfIsEnough(shared: nat, all: nat)
    requires all > 0
    ensures shared as real / all as real >= 0.5 <==> 2 * shared >= all
  {
    var ratio := shared as real / all as real;
    assert ratio * (all as real) == shared as real;
    if ratio >= 0.5 {
      assert ratio * (all as real) >= 0.5 * (all as real);
    } else {
      assert ratio * (all as real) < 0.5 * (all as real);
    }
  }

  lemma SimilarExactly(s: Signal, t: Signal)
    ensures Similar(s, t) <==> Fits(s, t)
  {
    if s.tokens != {} && t.tokens != {} {
      assert s.tokens + t.tokens != {};
      HalfIsEnough(|s.tokens * t.tokens|, |s.tokens + t.tokens|);
    }
  }

  // ---------------------------------------------------------------- who opens a cluster

  /**
   * `opener` names the signal that opened the cluster of signal `i`: the earliest opener that is similar to it, and
   * the signal itself when there is none.
   */
  ghost predicate PlacedBy(items: seq<Signal>, opener: nat -> nat, i: nat)
    requires i < |items|
  {
    && opener(i) <= i
    && (opener(i) < i ==> opener(opener(i)) == opener(i) && Similar(items[i], items[opener(i)]))
    && forall e: nat :: e < opener(i) && opener(e) == e ==> !Similar(items[i], items[e])
  }

  ghost predicate Clustering(items: seq<Signal>, opener: nat -> nat) {
    forall i: nat :: i < |items| ==> PlacedBy(items, opener, i)
  }

  /** The rule leaves no choice. */
  lemma {:induction false} OneClustering(items: seq<Signal>, a: nat -> nat, b: nat -> nat, i: nat)
    requires Clustering(items, a) && Clustering(items, b) && i < |items|
    ensures a(i) == b(i)
    decreases i
  {
    assert PlacedBy(items, a, i) && PlacedBy(items, b, i);
    if a(i) < b(i) {
      OneClustering(items, a, b, a(i));
    } else if b(i) < a(i) {
      OneClustering(items, a, b, b(i));
    }
  }

  ghost function OpenerIn(items: seq<Signal>): nat -> nat {
    (i: nat) => if i < |items| then FounderOf(items, i) else i
  }

  lemma {:induction false} FoundersAscend(fits: Fitting, n: nat, j: nat, k: nat)
    requires j < k < |Founders(fits, n)|
    ensures Founders(fits, n)[j] < Founders(fits, n)[k]
  {
    var f := Founders(fits, n - 1);
    if k < |f| {
      FoundersAscend(fits, n - 1, j, k);
    } else {
      FoundersAreEarlier(fits, n - 1);
    }
  }

  lemma HomeIsFirst(fits: Fitting, i: nat, n: nat)
    requires i < n
    ensures var f, h := Founders(fits, n), Home(fits, i);
      && h < |f| && f[h] <= i && (f[h] < i ==> fits(i, f[h])) && forall k :: 0 <= k < h ==> !fits(i, f[k])
  {
    FoundersGrow(fits, i, n);
    FoundersGrow(fits, i + 1, n);
    FoundersAreEarlier(fits, i);
    FirstFitExact(fits, Founders(fits, i), i);
  }

  lemma OpenerOpens(items: seq<Signal>, i: nat)
    requires i < |items|
    ensures FounderOf(items, FounderOf(items, i)) == FounderOf(items, i)
  {
    var fits, n := FitsIn(items), |items|;
    HomeExists(fits, i, n);
    FounderHome(fits, n, Home(fits, i));
  }

  lemma EarlierOpenerHasEarlierHome(items: seq<Signal>, e: nat, i: nat)
    requires i < |items| && e < FounderOf(items, i) && FounderOf(items, e) == e
    ensures Home(FitsIn(items), e) < Home(FitsIn(items), i)
  {
    var fits, n := FitsIn(items), |items|;
    HomeExists(fits, e, n);
    HomeExists(fits, i, n);
    if Home(fits, i) < Home(fits, e) {
      FoundersAscend(fits, n, Home(fits, i), Home(fits, e));
    }
  }

  /** Processing clusters by that rule. */
  lemma ProcessingClusters(items: seq<Signal>)
    ensures Clustering(items, OpenerIn(items))
  {
    var fits, opener := FitsIn(items), OpenerIn(items);
    forall i: nat | i < |items| ensures PlacedBy(items, opener, i) {
      HomeIsFirst(fits, i, |items|);
      OpenerOpens(items, i);
      SimilarExactly(items[i], items[opener(i)]);
      forall e: nat | e < opener(i) && opener(e) == e ensures !Similar(items[i], items[e]) {
        EarlierOpenerHasEarlierHome(items, e, i);
        SimilarExactly(items[i], items[e]);
        assert !fits(i, Founders(fits, |items|)[Home(fits, e)]);
      }
    }
  }

  // ---------------------------------------------------------------- the report

  /** The signals whose cluster was opened by `e`. */
  ghost function OpenedBy(items: seq<Signal>, opener: nat -> nat, e: nat): set<nat> {
    set i: nat | i < |items| && opener(i) == e
  }

  ghost predicate SameTrend(s: Signal, t: Signal) {
    s.region == t.region && s.kind == t.kind && s.normalized == t.normalized
  }

  /** Signal `d` is the earliest one that says the same as signal `i`. */
  ghost predicate FirstToSay(items: seq<Signal>, d: nat, i: nat) {
    && d < |items| && i < |items| && SameTrend(items[d], items[i])
    && forall e :: 0 <= e < d ==> !SameTrend(items[e], items[i])
  }

  ghost function SentTo(home: nat -> nat, n: nat, k: nat): set<nat> {
    set i: nat | i < n && home(i) == k
  }

  lemma SentNext(home: nat -> nat, n: nat, k: nat)
    requires n > 0
    ensures |SentTo(home, n, k)| == |SentTo(home, n - 1, k)| + if home(n - 1) == k then 1 else 0
  {
    assert SentTo(home, n, k) == SentTo(home, n - 1, k) + if home(n - 1) == k then {n - 1} else {};
  }

  lemma {:induction false} MembersAreCounted(home: nat -> nat, n: nat, k: nat)
    ensures |Members(home, n, k)| == |SentTo(home, n, k)|
  {
    if n > 0 {
      MembersAreCounted(home, n - 1, k);
      SentNext(home, n, k);
    }
  }

  lemma SameHomeSameOpener(items: seq<Signal>, i: nat, j: nat)
    requires i < |items| && j < |items|
    ensures Home(FitsIn(items), i) == Home(FitsIn(items), j) <==> FounderOf(items, i) == FounderOf(items, j)
  {
    var fits, n := FitsIn(items), |items|;
    HomeExists(fits, i, n);
    HomeExists(fits, j, n);
    FounderHome(fits, n, Home(fits, i));
    FounderHome(fits, n, Home(fits, j));
  }

  lemma ClusterSizeExactly(items: seq<Signal>, i: nat)
    requires i < |items|
    ensures Report(items, i).clusterSize == |OpenedBy(items, OpenerIn(items), FounderOf(items, i))|
  {
    var home := HomeBy(FitsIn(items));
    MembersAreCounted(home, |items|, home(i));
    forall j: nat | j < |items| ensures home(j) == home(i) <==> OpenerIn(items)(j) == FounderOf(items, i) {
      SameHomeSameOpener(items, i, j);
    }
    assert OpenedBy(items, OpenerIn(items), FounderOf(items, i)) == SentTo(home, |items|, home(i));
  }

  /**
   * What is reported of a signal: its own fingerprint, the earliest signal that says the same unless that is itself,
   * the fingerprint of the signal that opened its cluster, and how many signals that cluster has in the end.
   */
  lemma ReportExactly(items: seq<Signal>, opener: nat -> nat, i: nat, d: nat)
    requires Clustering(items, opener) && i < |items| && FirstToSay(items, d, i)
    ensures opener(i) < |items| && d <= i
    ensures var s, o := items[i], items[opener(i)];
      Report(items, i) == Processing(Fingerprint(s.region, s.kind, s.normalized),
                                     if d == i then None else Some(items[d].id),
                                     Fingerprint(o.region, o.kind, o.normalized),
                                     |OpenedBy(items, opener, opener(i))|)
  {
    assert PlacedBy(items, opener, i);
    ProcessingClusters(items);
    forall j: nat | j < |items| ensures opener(j) == OpenerIn(items)(j) {
      OneClustering(items, opener, OpenerIn(items), j);
    }
    ClusterSizeExactly(items, i);
    assert OpenedBy(items, opener, opener(i)) == OpenedBy(items, OpenerIn(items), opener(i));
    DuplicateExactly(items, d, i);
  }

  lemma DuplicateExactly(items: seq<Signal>, d: nat, i: nat)
    requires FirstToSay(items, d, i)
    ensures d <= i && Report(items, i).duplicateOf == if d == i then None else Some(items[d].id)
  {
    assert SameTrend(items[i], items[i]);
    var found := Earliest(items, i, FingerprintOf(items[i]));
    if found.Some? {
      assert SameTrend(items[found.value], items[i]);
    }
    if d < i {
      assert FingerprintOf(items[d]) == FingerprintOf(items[i]);
    }
  }

  /** Signals are processed in the order of their observation, and those observed at once in the order of their ids. */
  lemma OrderedExactly(signals: seq<Signal>)
    ensures multiset(Ordered(signals)) == multiset(signals)
    ensures forall i, j :: 0 <= i < j < |Ordered(signals)| ==> EarlierOf(Ordered(signals)[i], Ordered(signals)[j])
  {
    Ordering.SortKeeps(ObservedBefore, signals);
    Ordering.SortSorts(ObservedBefore, signals);
  }

  ghost predicate EarlierOf(s: Signal, t: Signal) {
    s.observedAt <= t.observedAt && (s.observedAt == t.observedAt ==> s.id <= t.id)
  }
}
