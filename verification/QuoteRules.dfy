/** The offset repair as a rule over the text, the quotes and the offsets found so far. */
module QuoteRules {
  import opened Prelude
  import opened QuoteRepair

  // ---------------------------------------------------------------- the rule

  /** The distance of two offsets. */
  function Away(a: nat, b: nat): nat {
    if a <= b then b - a else a - b
  }

  /** Entry `i` has a quote that occurs, and no offset yet. */
  ghost predicate Open(text: string, quotes: seq<string>, found: map<nat, nat>, i: nat) {
    i < |quotes| && quotes[i] != "" && i !in found && exists p: nat :: OccursAt(text, quotes[i], p)
  }

  /** What entry `i` can be measured against: the offsets found so far and every occurrence of the other open quotes. */
  ghost predicate Reference(text: string, quotes: seq<string>, found: map<nat, nat>, i: nat, r: nat) {
    || (exists j :: j in found && found[j] == r)
    || (exists j: nat :: j != i && Open(text, quotes, found, j) && OccursAt(text, quotes[j], r))
  }

  /** No other occurrence of the quote is as near to any reference as `p` is to `r`. */
  ghost predicate Closest(text: string, quotes: seq<string>, found: map<nat, nat>, i: nat, p: nat, r: nat)
    requires i < |quotes|
  {
    forall q: nat, s: nat :: OccursAt(text, quotes[i], q) && q != p && Reference(text, quotes, found, i, s) ==>
      Away(p, r) < Away(q, s)
  }

  /** The occurrence at `p` is nearer to some reference than any other occurrence is to any. */
  ghost predicate Nearest(text: string, quotes: seq<string>, found: map<nat, nat>, i: nat, p: nat)
    requires i < |quotes|
  {
    && OccursAt(text, quotes[i], p)
    && exists r: nat :: Reference(text, quotes, found, i, r) && Closest(text, quotes, found, i, p, r)
  }

  ghost predicate Placeable(text: string, quotes: seq<string>, found: map<nat, nat>, i: nat, p: nat) {
    Open(text, quotes, found, i) && Nearest(text, quotes, found, i, p)
  }

  /** Entry `i` is the first one that can be placed, and it goes to `p`. */
  ghost predicate NextPlaced(text: string, quotes: seq<string>, found: map<nat, nat>, i: nat, p: nat) {
    Placeable(text, quotes, found, i, p) && forall j: nat, q: nat :: j < i ==> !Placeable(text, quotes, found, j, q)
  }

  ghost predicate OccursOnlyAt(text: string, quote: string, p: nat) {
    quote != "" && forall q: nat :: OccursAt(text, quote, q) <==> q == p
  }

  /** At first the quotes that occur once have their offsets, and no other. */
  ghost predicate Unique(text: string, quotes: seq<string>, found: map<nat, nat>) {
    && (forall i: nat :: i in found ==> i < |quotes| && OccursOnlyAt(text, quotes[i], found[i]))
    && (forall i: nat, p: nat :: i < |quotes| && OccursOnlyAt(text, quotes[i], p) ==> i in found)
  }

  ghost predicate StepsTo(text: string, quotes: seq<string>, found: map<nat, nat>, next: map<nat, nat>) {
    exists i: nat, p: nat :: NextPlaced(text, quotes, found, i, p) && next == found[i := p]
  }

  ghost predicate Finished(text: string, quotes: seq<string>, found: map<nat, nat>) {
    forall i: nat, p: nat :: !Placeable(text, quotes, found, i, p)
  }

  /** From the unique quotes on, one placement after the other, until nothing can be placed. */
  ghost predicate Follows(text: string, quotes: seq<string>, steps: seq<map<nat, nat>>) {
    && steps != []
    && (forall k :: 0 < k < |steps| ==> StepsTo(text, quotes, steps[k - 1], steps[k]))
    && Finished(text, quotes, steps[|steps| - 1])
  }

  // ---------------------------------------------------------------- the worklist follows the rule

  lemma {:induction false} AllPositionsExactly(pending: seq<Candidate>, r: nat)
    ensures r in AllPositions(pending) <==> exists k :: 0 <= k < |pending| && r in pending[k].positions
  {
    if pending != [] {
      AllPositionsExactly(pending[1..], r);
      if k :| 0 <= k < |pending| && r in pending[k].positions {
        assert k > 0 ==> r in pending[1..][k - 1].positions;
      }
    }
  }

  lemma WithoutExactly(pending: seq<Candidate>, k: nat, r: nat)
    requires k < |pending|
    ensures r in AllPositions(Without(pending, k))
      <==> exists j :: 0 <= j < |pending| && j != k && r in pending[j].positions
  {
    var rest := Without(pending, k);
    AllPositionsExactly(rest, r);
    if i :| 0 <= i < |rest| && r in rest[i].positions {
      var j := if i < k then i else i + 1;
      assert pending[j] == rest[i];
    }
    if j :| 0 <= j < |pending| && j != k && r in pending[j].positions {
      var i := if j < k then j else j - 1;
      assert rest[i] == pending[j];
    }
  }

  /** The anchors are exactly the offsets found, and the open entries are listed in their order. */
  ghost predicate Tracks(p: Progress) {
    && (forall r :: r in p.anchors <==> exists j :: j in p.placed && p.placed[j] == r)
    && (forall j, k :: 0 <= j < k < |p.pending| ==> p.pending[j].index < p.pending[k].index)
  }

  ghost predicate Faithful(text: string, quotes: seq<string>, p: Progress) {
    && IsTable(PositionTable(text, quotes), quotes) && Sound(PositionTable(text, quotes), quotes, p, |quotes|)
    && Tracks(p)
  }

  lemma OpenExactly(text: string, quotes: seq<string>, p: Progress, i: nat)
    requires Faithful(text, quotes, p)
    ensures Open(text, quotes, p.placed, i) <==> IsPending(p.pending, i)
    ensures i < |quotes| ==> forall q: nat :: q in PositionTable(text, quotes)[i] <==> OccursAt(text, quotes[i], q)
  {
    var table := PositionTable(text, quotes);
    if i < |quotes| {
      OccurrencesExact(text, quotes[i]);
    }
    if k :| 0 <= k < |p.pending| && p.pending[k].index == i {
      assert OpenEntry(table, quotes, p, k, |quotes|);
      assert table[i][0] in table[i];
    }
  }

  lemma PendingEntry(text: string, quotes: seq<string>, p: Progress, k: nat)
    requires Faithful(text, quotes, p) && k < |p.pending|
    ensures var i := p.pending[k].index;
      && i < |quotes| && quotes[i] != "" && p.pending[k].positions == PositionTable(text, quotes)[i]
      && |p.pending[k].positions| > 1
      && Distinct(p.pending[k].positions) && Open(text, quotes, p.placed, i)
      && forall q: nat :: q in p.pending[k].positions <==> OccursAt(text, quotes[i], q)
  {
    var table := PositionTable(text, quotes);
    assert OpenEntry(table, quotes, p, k, |quotes|);
    OpenExactly(text, quotes, p, p.pending[k].index);
  }

  lemma ReferenceExactly(text: string, quotes: seq<string>, p: Progress, k: nat, r: nat)
    requires Faithful(text, quotes, p) && k < |p.pending|
    ensures r in References(p, k) <==> Reference(text, quotes, p.placed, p.pending[k].index, r)
  {
    var i := p.pending[k].index;
    WithoutExactly(p.pending, k, r);
    if j :| 0 <= j < |p.pending| && j != k && r in p.pending[j].positions {
      PendingEntry(text, quotes, p, j);
      assert p.pending[j].index != i;
    }
    if j: nat :| j != i && Open(text, quotes, p.placed, j) && OccursAt(text, quotes[j], r) {
      OpenExactly(text, quotes, p, j);
      var m :| 0 <= m < |p.pending| && p.pending[m].index == j;
      PendingEntry(text, quotes, p, m);
    }
  }

  lemma DistanceIsAway(position: nat, references: seq<nat>) returns (r: nat)
    requires references != []
    ensures r in references && Distance(position, references) == Away(position, r)
    ensures forall s :: s in references ==> Distance(position, references) <= Away(position, s)
  {
    var d := Distance(position, references);
    r :| r in references && d == Gap(position, r);
  }

  /** An open entry is given a place by the worklist exactly when the rule gives it that place. */
  lemma ChoiceExactly(text: string, quotes: seq<string>, p: Progress, k: nat, at: nat)
    requires Faithful(text, quotes, p) && k < |p.pending|
    ensures p.pending[k].index < |quotes|
    ensures Choices(p)(k) == Some(at) <==> Nearest(text, quotes, p.placed, p.pending[k].index, at)
  {
    var i, positions, references := p.pending[k].index, p.pending[k].positions, References(p, k);
    PendingEntry(text, quotes, p, k);
    PickIsStrictlyNearest(positions, references, at);
    forall r: nat ensures r in references <==> Reference(text, quotes, p.placed, i, r) {
      ReferenceExactly(text, quotes, p, k, r);
    }
    if references != [] {
      if StrictlyNearest(at, positions, references) {
        StrictlyNearestIsNearest(text, quotes, p, k, at);
      }
      if Nearest(text, quotes, p.placed, i, at) {
        NearestIsStrictlyNearest(text, quotes, p, k, at);
      }
    }
  }

  lemma StrictlyNearestIsNearest(text: string, quotes: seq<string>, p: Progress, k: nat, at: nat)
    requires Faithful(text, quotes, p) && k < |p.pending| && References(p, k) != []
    requires StrictlyNearest(at, p.pending[k].positions, References(p, k))
    ensures p.pending[k].index < |quotes| && Nearest(text, quotes, p.placed, p.pending[k].index, at)
  {
    var i, references := p.pending[k].index, References(p, k);
    PendingEntry(text, quotes, p, k);
    var r := DistanceIsAway(at, references);
    ReferenceExactly(text, quotes, p, k, r);
    forall q: nat, s: nat | OccursAt(text, quotes[i], q) && q != at && Reference(text, quotes, p.placed, i, s)
      ensures Away(at, r) < Away(q, s) {
      ReferenceExactly(text, quotes, p, k, s);
      var t := DistanceIsAway(q, references);
    }
  }

  lemma NearestIsStrictlyNearest(text: string, quotes: seq<string>, p: Progress, k: nat, at: nat)
    requires Faithful(text, quotes, p) && k < |p.pending| && References(p, k) != []
    requires p.pending[k].index < |quotes| && Nearest(text, quotes, p.placed, p.pending[k].index, at)
    ensures StrictlyNearest(at, p.pending[k].positions, References(p, k))
  {
    var i, references := p.pending[k].index, References(p, k);
    PendingEntry(text, quotes, p, k);
    var r: nat :| Reference(text, quotes, p.placed, i, r) && Closest(text, quotes, p.placed, i, at, r);
    ReferenceExactly(text, quotes, p, k, r);
    forall q | q in p.pending[k].positions && q != at ensures Distance(at, references) < Distance(q, references) {
      var t := DistanceIsAway(q, references);
      ReferenceExactly(text, quotes, p, k, t);
      var u := DistanceIsAway(at, references);
    }
  }

  lemma PlaceableExactly(text: string, quotes: seq<string>, p: Progress, i: nat, at: nat)
    requires Faithful(text, quotes, p)
    ensures Placeable(text, quotes, p.placed, i, at)
      <==> exists k: nat :: k < |p.pending| && p.pending[k].index == i && Choices(p)(k) == Some(at)
  {
    OpenExactly(text, quotes, p, i);
    if Placeable(text, quotes, p.placed, i, at) {
      var k :| 0 <= k < |p.pending| && p.pending[k].index == i;
      ChoiceExactly(text, quotes, p, k, at);
    }
    if k: nat :| k < |p.pending| && p.pending[k].index == i && Choices(p)(k) == Some(at) {
      ChoiceExactly(text, quotes, p, k, at);
    }
  }

  lemma FirstChoiceIsNext(text: string, quotes: seq<string>, p: Progress, k: nat)
    requires Faithful(text, quotes, p) && FirstChoice(Choices(p), 0, |p.pending|) == Some(k)
    ensures k < |p.pending| && Choices(p)(k).Some?
    ensures NextPlaced(text, quotes, p.placed, p.pending[k].index, Choices(p)(k).value)
  {
    var i, at := p.pending[k].index, Choices(p)(k).value;
    PlaceableExactly(text, quotes, p, i, at);
    forall j: nat, q: nat | j < i ensures !Placeable(text, quotes, p.placed, j, q) {
      PlaceableExactly(text, quotes, p, j, q);
      forall m: nat | m < |p.pending| && p.pending[m].index == j ensures Choices(p)(m) == None {
        assert m < k;
      }
    }
  }

  lemma PlacingTracks(p: Progress, k: nat, start: nat)
    requires Tracks(p) && k < |p.pending| && p.pending[k].index !in p.placed
    ensures Tracks(Settle(p, k, start))
  {
    var q, i := Settle(p, k, start), p.pending[k].index;
    forall r ensures r in q.anchors <==> exists j :: j in q.placed && q.placed[j] == r {
      if j :| j in p.placed && p.placed[j] == r {
        assert q.placed[j] == r;
      }
      assert q.placed[i] == start;
    }
  }

  lemma SettleTracks(text: string, quotes: seq<string>, p: Progress, k: nat)
    requires Faithful(text, quotes, p) && k < |p.pending| && Choices(p)(k).Some?
    ensures Faithful(text, quotes, Settle(p, k, Choices(p)(k).value))
  {
    ChoiceSettles(PositionTable(text, quotes), quotes, p, k);
    PendingEntry(text, quotes, p, k);
    PlacingTracks(p, k, Choices(p)(k).value);
  }

  lemma NoChoiceIsFinished(text: string, quotes: seq<string>, p: Progress)
    requires Faithful(text, quotes, p) && FirstChoice(Choices(p), 0, |p.pending|) == None
    ensures Finished(text, quotes, p.placed)
  {
    forall i: nat, at: nat ensures !Placeable(text, quotes, p.placed, i, at) {
      PlaceableExactly(text, quotes, p, i, at);
    }
  }

  lemma ChoiceIsStep(text: string, quotes: seq<string>, p: Progress, k: nat)
    requires Faithful(text, quotes, p) && FirstChoice(Choices(p), 0, |p.pending|) == Some(k)
    ensures k < |p.pending| && Choices(p)(k).Some?
    ensures Faithful(text, quotes, Settle(p, k, Choices(p)(k).value))
    ensures StepsTo(text, quotes, p.placed, Settle(p, k, Choices(p)(k).value).placed)
  {
    FirstChoiceIsNext(text, quotes, p, k);
    SettleTracks(text, quotes, p, k);
  }

  lemma {:induction false} ResolveFollows(text: string, quotes: seq<string>, p: Progress)
    returns (steps: seq<map<nat, nat>>)
    requires Faithful(text, quotes, p)
    ensures Follows(text, quotes, steps) && steps[0] == p.placed && steps[|steps| - 1] == Resolve(p).placed
    decreases |p.pending|
  {
    var next := FirstChoice(Choices(p), 0, |p.pending|);
    if next == None {
      NoChoiceIsFinished(text, quotes, p);
      return [p.placed];
    }
    ChoiceIsStep(text, quotes, p, next.value);
    var rest := ResolveFollows(text, quotes, Settle(p, next.value, Choices(p)(next.value).value));
    OneStepMore(text, quotes, p.placed, rest);
    return [p.placed] + rest;
  }

  lemma OneStepMore(text: string, quotes: seq<string>, found: map<nat, nat>, rest: seq<map<nat, nat>>)
    requires Follows(text, quotes, rest) && StepsTo(text, quotes, found, rest[0])
    ensures Follows(text, quotes, [found] + rest)
  {
    var steps := [found] + rest;
    forall j | 0 < j < |steps| ensures StepsTo(text, quotes, steps[j - 1], steps[j]) {
      assert j > 1 ==> StepsTo(text, quotes, rest[j - 2], rest[j - 1]);
    }
  }

  lemma {:induction false} ScanTracks(text: string, quotes: seq<string>, n: nat)
    requires n <= |quotes|
    ensures var p := Scan(PositionTable(text, quotes), quotes, n);
      && Tracks(p) && (forall k :: 0 <= k < |p.pending| ==> p.pending[k].index < n) && forall i :: i in p.placed ==>
        i < n
  {
    if n > 0 {
      ScanTracks(text, quotes, n - 1);
      EnterTracks(Scan(PositionTable(text, quotes), quotes, n - 1), n - 1, quotes[n - 1],
                  PositionTable(text, quotes)[n - 1]);
    }
  }

  lemma EnterTracks(p: Progress, i: nat, quote: string, positions: seq<nat>)
    requires Tracks(p) && (forall k :: 0 <= k < |p.pending| ==> p.pending[k].index < i) && forall j :: j in p.placed ==>
      j < i
    ensures Tracks(Enter(p, i, quote, positions))
  {
    var q := Enter(p, i, quote, positions);
    forall r ensures r in q.anchors <==> exists j :: j in q.placed && q.placed[j] == r {
      if j :| j in p.placed && p.placed[j] == r {
        assert j in q.placed && q.placed[j] == r;
      }
      if quote != "" && |positions| == 1 {
        assert q.placed[i] == positions[0];
      }
    }
  }

  lemma OneOccurrence(text: string, quote: string, p: nat)
    requires quote != ""
    ensures OccursOnlyAt(text, quote, p) <==> Occurrences(text, quote) == [p]
  {
    var row := Occurrences(text, quote);
    OccurrencesExact(text, quote);
    if OccursOnlyAt(text, quote, p) {
      assert forall q: nat :: q in row <==> q == p;
      SinglePosition(row, p);
    }
    if row == [p] {
      assert forall q: nat :: q in row <==> q == p;
    }
  }

  lemma {:induction false} ScanPlaces(table: seq<seq<nat>>, quotes: seq<string>, n: nat)
    requires n <= |quotes| == |table|
    ensures var placed := Scan(table, quotes, n).placed;
      && (forall i :: i in placed <==> 0 <= i < n && quotes[i] != "" && |table[i]| == 1)
      && (forall i :: i in placed ==> placed[i] == table[i][0])
  {
    if n > 0 {
      ScanPlaces(table, quotes, n - 1);
    }
  }

  lemma ScanIsUnique(text: string, quotes: seq<string>)
    ensures Unique(text, quotes, Scan(PositionTable(text, quotes), quotes, |quotes|).placed)
  {
    var table := PositionTable(text, quotes);
    var placed := Scan(table, quotes, |quotes|).placed;
    ScanPlaces(table, quotes, |quotes|);
    forall i: nat | i in placed ensures i < |quotes| && OccursOnlyAt(text, quotes[i], placed[i]) {
      assert table[i] == [placed[i]];
      OneOccurrence(text, quotes[i], placed[i]);
    }
    forall i: nat, p: nat | i < |quotes| && OccursOnlyAt(text, quotes[i], p) ensures i in placed {
      OneOccurrence(text, quotes[i], p);
    }
  }

  /**
   * The repair starts with the quotes that occur once and then places, one at a time, the first open entry that has
   * an occurrence strictly nearest to the offsets found so far and to the occurrences of the other open quotes, until
   * there is none. The offsets it ends with are the last ones of this run.
   */
  lemma RepairFollowsRule(text: string, quotes: seq<string>) returns (steps: seq<map<nat, nat>>)
    ensures Follows(text, quotes, steps) && Unique(text, quotes, steps[0])
    ensures steps[|steps| - 1] == Repairs(text, quotes).placed
  {
    var p := Scan(PositionTable(text, quotes), quotes, |quotes|);
    TableOfText(text, quotes);
    ScanSound(PositionTable(text, quotes), quotes, |quotes|);
    ScanTracks(text, quotes, |quotes|);
    ScanIsUnique(text, quotes);
    steps := ResolveFollows(text, quotes, p);
  }

  lemma NearestIsUnique(text: string, quotes: seq<string>, found: map<nat, nat>, i: nat, p: nat, q: nat)
    requires i < |quotes| && Nearest(text, quotes, found, i, p) && Nearest(text, quotes, found, i, q)
    ensures p == q
  {
    var r: nat :| Reference(text, quotes, found, i, r) && Closest(text, quotes, found, i, p, r);
    var t: nat :| Reference(text, quotes, found, i, t) && Closest(text, quotes, found, i, q, t);
  }

  lemma OneStep(text: string, quotes: seq<string>, found: map<nat, nat>, a: map<nat, nat>, b: map<nat, nat>)
    requires StepsTo(text, quotes, found, a) && StepsTo(text, quotes, found, b)
    ensures a == b
  {
    var i: nat, p: nat :| NextPlaced(text, quotes, found, i, p) && a == found[i := p];
    var j: nat, q: nat :| NextPlaced(text, quotes, found, j, q) && b == found[j := q];
    assert i == j;
    NearestIsUnique(text, quotes, found, i, p, q);
  }

  /** The rule leaves no choice: two runs from the same offsets are the same. */
  lemma {:induction false} RuleIsDeterministic(text: string, quotes: seq<string>, a: seq<map<nat, nat>>,
                                               b: seq<map<nat, nat>>)
    requires Follows(text, quotes, a) && Follows(text, quotes, b) && a[0] == b[0]
    ensures a == b
  {
    assert |a| > 1 ==> StepsTo(text, quotes, a[0], a[1]);
    assert |b| > 1 ==> StepsTo(text, quotes, b[0], b[1]);
    if |a| > 1 && |b| > 1 {
      OneStep(text, quotes, a[0], a[1], b[1]);
      TailFollows(text, quotes, a);
      TailFollows(text, quotes, b);
      RuleIsDeterministic(text, quotes, a[1..], b[1..]);
      assert a == [a[0]] + a[1..] && b == [b[0]] + b[1..];
    }
  }

  lemma TailFollows(text: string, quotes: seq<string>, a: seq<map<nat, nat>>)
    requires Follows(text, quotes, a) && |a| > 1
    ensures Follows(text, quotes, a[1..])
  {
    forall k | 0 < k < |a[1..]| ensures StepsTo(text, quotes, a[1..][k - 1], a[1..][k]) {
      assert StepsTo(text, quotes, a[k], a[k + 1]);
    }
  }

  /** A placement is kept for good. */
  lemma {:induction false} StepsKeep(text: string, quotes: seq<string>, steps: seq<map<nat, nat>>, i: nat)
    requires Follows(text, quotes, steps) && i in steps[0]
    ensures i in steps[|steps| - 1] && steps[|steps| - 1][i] == steps[0][i]
  {
    if |steps| > 1 {
      assert StepsTo(text, quotes, steps[0], steps[1]);
      TailFollows(text, quotes, steps);
      StepsKeep(text, quotes, steps[1..], i);
    }
  }

  /**
   * No anchor is needed: when no quote occurs just once, the first entry with an occurrence strictly nearest to those
   * of the other quotes is placed there.
   */
  lemma FirstPlaceableIsPlaced(text: string, quotes: seq<string>, i: nat, p: nat)
    requires Unique(text, quotes, map[]) && NextPlaced(text, quotes, map[], i, p)
    ensures i in Repairs(text, quotes).placed && Repairs(text, quotes).placed[i] == p
  {
    var steps := RepairFollowsRule(text, quotes);
    NothingUnique(text, quotes, steps[0]);
    assert Placeable(text, quotes, steps[0], i, p);
    assert StepsTo(text, quotes, steps[0], map[][i := p]);
    assert |steps| > 1 && StepsTo(text, quotes, steps[0], steps[1]);
    OneStep(text, quotes, steps[0], steps[1], map[][i := p]);
    TailFollows(text, quotes, steps);
    StepsKeep(text, quotes, steps[1..], i);
  }

  lemma NothingUnique(text: string, quotes: seq<string>, found: map<nat, nat>)
    requires Unique(text, quotes, map[]) && Unique(text, quotes, found)
    ensures found == map[]
  {
    var none: map<nat, nat> := map[];
    assert forall i: nat :: i in found ==> i < |quotes| && OccursOnlyAt(text, quotes[i], found[i]);
    assert forall i: nat :: i in found ==> i in none;
  }

  lemma {:induction false} FoundOnTheWay(text: string, quotes: seq<string>, steps: seq<map<nat, nat>>, i: nat)
    returns (k: nat)
    requires Follows(text, quotes, steps) && i !in steps[0] && i in steps[|steps| - 1]
    ensures k < |steps| && NextPlaced(text, quotes, steps[k], i, steps[|steps| - 1][i])
  {
    assert StepsTo(text, quotes, steps[0], steps[1]);
    TailFollows(text, quotes, steps);
    if i in steps[1] {
      StepsKeep(text, quotes, steps[1..], i);
      return 0;
    }
    k := FoundOnTheWay(text, quotes, steps[1..], i);
    k := k + 1;
  }

  /**
   * A repeated quote is placed only where it was, at some point of the run, strictly nearest to the offsets found by
   * then and to the occurrences of the quotes still open.
   */
  lemma RepeatedQuotesArePlacedNearest(text: string, quotes: seq<string>, i: nat)
    returns (steps: seq<map<nat, nat>>, k: nat)
    requires i in Repairs(text, quotes).placed && i < |quotes|
    requires !OccursOnlyAt(text, quotes[i], Repairs(text, quotes).placed[i])
    ensures Follows(text, quotes, steps) && Unique(text, quotes, steps[0]) && k < |steps|
    ensures NextPlaced(text, quotes, steps[k], i, Repairs(text, quotes).placed[i])
  {
    steps := RepairFollowsRule(text, quotes);
    if i in steps[0] {
      StepsKeep(text, quotes, steps, i);
    }
    k := FoundOnTheWay(text, quotes, steps, i);
  }

  /** What is left open at the end has no occurrence strictly nearest to all that was found and all that is open. */
  lemma UnplacedQuotesAreAmbiguous(text: string, quotes: seq<string>, i: nat, at: nat, p: nat)
    requires i < |quotes| && quotes[i] != "" && OccursAt(text, quotes[i], at) && i !in Repairs(text, quotes).placed
    ensures !Nearest(text, quotes, Repairs(text, quotes).placed, i, p)
  {
    var steps := RepairFollowsRule(text, quotes);
    assert Open(text, quotes, Repairs(text, quotes).placed, i);
    assert !Placeable(text, quotes, steps[|steps| - 1], i, p);
  }

  // ---------------------------------------------------------------- an instance

  const TEXT := "ab--a----b"
  const QUOTES: seq<string> := ["a", "b"]

  lemma LettersOccur(p: nat)
    ensures OccursAt(TEXT, "a", p) <==> p == 0 || p == 4
    ensures OccursAt(TEXT, "b", p) <==> p == 1 || p == 9
  {
    if p < 10 {
      assert TEXT[p..p + 1] == [TEXT[p]];
    }
  }

  lemma LettersAre()
    ensures |QUOTES| == 2 && QUOTES[0] == "a" && QUOTES[1] == "b"
    ensures forall p: nat :: OccursAt(TEXT, "a", p) <==> p == 0 || p == 4
    ensures forall p: nat :: OccursAt(TEXT, "b", p) <==> p == 1 || p == 9
  {
    forall p: nat
      ensures OccursAt(TEXT, "a", p) <==> p == 0 || p == 4
      ensures OccursAt(TEXT, "b", p) <==> p == 1 || p == 9 {
      LettersOccur(p);
    }
  }

  lemma NothingFoundYet()
    ensures Unique(TEXT, QUOTES, map[]) && NextPlaced(TEXT, QUOTES, map[], 0, 0)
  {
    var none: map<nat, nat> := map[];
    LettersAre();
    assert OccursAt(TEXT, "a", 0) && OccursAt(TEXT, "a", 4) && OccursAt(TEXT, "b", 1) && OccursAt(TEXT, "b", 9);
    assert Open(TEXT, QUOTES, none, 0) && Open(TEXT, QUOTES, none, 1);
    forall r: nat ensures Reference(TEXT, QUOTES, none, 0, r) <==> r == 1 || r == 9 {
    }
    assert Reference(TEXT, QUOTES, none, 0, 1) && Closest(TEXT, QUOTES, none, 0, 0, 1);
  }

  lemma FirstFound()
    ensures NextPlaced(TEXT, QUOTES, map[0 := 0], 1, 1)
  {
    var one: map<nat, nat> := map[0 := 0];
    LettersAre();
    assert OccursAt(TEXT, "b", 1) && Open(TEXT, QUOTES, one, 1) && !Open(TEXT, QUOTES, one, 0);
    assert one[0] == 0;
    forall r: nat ensures Reference(TEXT, QUOTES, one, 1, r) <==> r == 0 {
    }
    assert Reference(TEXT, QUOTES, one, 1, 0) && Closest(TEXT, QUOTES, one, 1, 1, 0);
  }

  /** Two repeated quotes without any unique one settle each other: "a" goes to 0 and "b" to 1. */
  lemma RepeatedQuotesSettleEachOther()
    ensures Repairs(TEXT, QUOTES).placed == map[0 := 0, 1 := 1]
  {
    var m0: map<nat, nat>, m1: map<nat, nat>, m2: map<nat, nat> := map[], map[0 := 0], map[0 := 0, 1 := 1];
    NothingFoundYet();
    FirstFound();
    assert m1 == m0[0 := 0] && m2 == m1[1 := 1];
    assert StepsTo(TEXT, QUOTES, m0, m1) && StepsTo(TEXT, QUOTES, m1, m2);
    assert Follows(TEXT, QUOTES, [m0, m1, m2]);
    var steps := RepairFollowsRule(TEXT, QUOTES);
    NothingUnique(TEXT, QUOTES, steps[0]);
    RuleIsDeterministic(TEXT, QUOTES, steps, [m0, m1, m2]);
  }
}
