/** Repair of model-supplied evidence offsets from exact quotes (`_canonicalize_unique_quote_offsets`). */
module QuoteRepair {
  import opened Prelude
  import Ordering

  /** One entry of a claim's evidence list; entries without a non-empty string quote are passed over. */
  datatype Item = Skipped | Span(quote: string, start: int, end: int)

  // ---------------------------------------------------------------- exact positions

  /** `text.find(quote, start)` */
  function Find(text: string, quote: string, start: nat): (r: Option<nat>)
    ensures r.Some? ==> start <= r.value && OccursAt(text, quote, r.value)
    decreases |text| - start
  {
    if start + |quote| > |text| then None
    else if OccursAt(text, quote, start) then Some(start)
    else Find(text, quote, start + 1)
  }

  /** All occurrences at or after `start`, overlapping ones included. */
  function OccurrencesFrom(text: string, quote: string, start: nat): seq<nat>
    decreases |text| - start
  {
    if start + |quote| > |text| then []
    else if OccursAt(text, quote, start) then [start] + OccurrencesFrom(text, quote, start + 1)
    else OccurrencesFrom(text, quote, start + 1)
  }

  function Occurrences(text: string, quote: string): seq<nat> {
    OccurrencesFrom(text, quote, 0)
  }

  lemma {:induction false} OccurrencesFromExact(text: string, quote: string, start: nat)
    ensures var s := OccurrencesFrom(text, quote, start);
      && (forall p: nat :: p in s <==> start <= p && OccursAt(text, quote, p))
      && (forall i, j :: 0 <= i < j < |s| ==> s[i] < s[j])
    decreases |text| - start
  {
    if start + |quote| <= |text| {
      OccurrencesFromExact(text, quote, start + 1);
      var rest := OccurrencesFrom(text, quote, start + 1);
      forall j | 0 <= j < |rest| ensures start < rest[j] {
        var p := rest[j];
        assert p in rest;
      }
    }
  }

  /** The positions are exactly all occurrences, in increasing order. */
  lemma OccurrencesExact(text: string, quote: string)
    ensures forall p: nat :: p in Occurrences(text, quote) <==> OccursAt(text, quote, p)
    ensures var s := Occurrences(text, quote); forall i, j :: 0 <= i < j < |s| ==> s[i] < s[j]
  {
    OccurrencesFromExact(text, quote, 0);
  }

  lemma {:induction false} SkipToFind(text: string, quote: string, start: nat)
    ensures match Find(text, quote, start)
      case None => OccurrencesFrom(text, quote, start) == []
      case Some(p) => OccurrencesFrom(text, quote, start) == [p] + OccurrencesFrom(text, quote, p + 1)
    decreases |text| - start
  {
    if start + |quote| <= |text| && !OccursAt(text, quote, start) {
      SkipToFind(text, quote, start + 1);
    }
  }

  /** `_exact_positions` */
  method ExactPositions(text: string, quote: string) returns (positions: seq<nat>)
    ensures positions == Occurrences(text, quote)
  {
    positions := [];
    var start := 0;
    while true
      invariant start <= |text| + 1
      invariant positions + OccurrencesFrom(text, quote, start) == Occurrences(text, quote)
      decreases |text| + 1 - start
    {
      SkipToFind(text, quote, start);
      match Find(text, quote, start)
      case None =>
        return;
      case Some(position) =>
        positions := positions + [position];
        start := position + 1;
    }
  }

  // ---------------------------------------------------------------- strictly nearest position

  function Gap(a: int, b: int): nat {
    if a < b then b - a else a - b
  }

  function Distance(position: int, references: seq<nat>): (d: nat)
    requires references != []
    ensures exists r :: r in references && d == Gap(position, r)
    ensures forall r :: r in references ==> d <= Gap(position, r)
  {
    var here := Gap(position, references[0]);
    if |references| == 1 then here
    else
      var rest := Distance(position, references[1..]);
      if here < rest then here else rest
  }

  predicate PairLe(a: (nat, nat), b: (nat, nat)) {
    a.0 < b.0 || (a.0 == b.0 && a.1 <= b.1)
  }

  function Ranked(positions: seq<nat>, references: seq<nat>): seq<(nat, nat)>
    requires references != []
  {
    Ordering.Sort(PairLe, seq(|positions|, i requires 0 <= i < |positions| =>
      (Distance(positions[i], references), positions[i])))
  }

  /** The position the repair picks, unless the two best ones tie or there is nothing to refer to. */
  function Pick(positions: seq<nat>, references: seq<nat>): Option<nat>
  {
    if references == [] || positions == [] then None
    else
      var ranked := Ranked(positions, references);
      if ranked == [] || (|ranked| > 1 && ranked[0].0 == ranked[1].0) then None else Some(ranked[0].1)
  }

  ghost predicate StrictlyNearest(p: nat, positions: seq<nat>, references: seq<nat>)
    requires references != []
  {
    p in positions && forall q :: q in positions && q != p ==> Distance(p, references) < Distance(q, references)
  }

  ghost predicate Distinct(s: seq<nat>) {
    forall i, j :: 0 <= i < j < |s| ==> s[i] != s[j]
  }

  lemma RankedFacts(positions: seq<nat>, references: seq<nat>)
    requires references != [] && Distinct(positions)
    ensures var r := Ranked(positions, references);
      && |r| == |positions| && Ordering.SortedBy(PairLe, r)
      && (forall i :: 0 <= i < |r| ==> r[i].1 in positions && r[i].0 == Distance(r[i].1, references))
      && (forall p :: p in positions ==> (Distance(p, references), p) in r)
  {
    var pairs := seq(|positions|, i requires 0 <= i < |positions| =>
      (Distance(positions[i], references), positions[i]));
    var r := Ranked(positions, references);
    Ordering.SortSorts(PairLe, pairs);
    Ordering.SortKeeps(PairLe, pairs);
    forall i | 0 <= i < |r| ensures r[i].1 in positions && r[i].0 == Distance(r[i].1, references) {
      assert r[i] in multiset(r) && r[i] in multiset(pairs);
    }
    forall p | p in positions ensures (Distance(p, references), p) in r {
      var i :| 0 <= i < |positions| && positions[i] == p;
      assert pairs[i] in multiset(pairs) && pairs[i] in multiset(r);
    }
  }

  lemma RankedDistinct(positions: seq<nat>, references: seq<nat>, i: nat, j: nat)
    requires references != [] && Distinct(positions) && i < j < |positions|
    ensures |Ranked(positions, references)| == |positions|
      && Ranked(positions, references)[i] != Ranked(positions, references)[j]
  {
    var pairs := seq(|positions|, i requires 0 <= i < |positions| =>
      (Distance(positions[i], references), positions[i]));
    var r := Ranked(positions, references);
    Ordering.SortKeeps(PairLe, pairs);
    if r[i] == r[j] {
      TwiceInMultiset(r, i, j);
      OnceInMultiset(pairs, r[i]);
    }
  }

  lemma TwiceInMultiset<T>(s: seq<T>, i: nat, j: nat)
    requires i < j < |s| && s[i] == s[j]
    ensures multiset(s)[s[i]] >= 2
  {
    assert s == s[..j] + [s[j]] + s[j + 1..];
    assert s[..j][i] == s[i];
  }

  lemma {:induction false} OnceInMultiset<T>(s: seq<T>, x: T)
    requires forall i, j :: 0 <= i < j < |s| ==> s[i] != s[j]
    ensures multiset(s)[x] <= 1
  {
    if s != [] {
      var n := |s| - 1;
      assert s == s[..n] + [s[n]];
      OnceInMultiset(s[..n], x);
      assert s[n] !in s[..n];
    }
  }

  lemma PickedIsNearest(positions: seq<nat>, references: seq<nat>, p: nat)
    requires positions != [] && references != [] && Distinct(positions)
    requires Pick(positions, references) == Some(p)
    ensures StrictlyNearest(p, positions, references)
  {
    RankedFacts(positions, references);
    var r := Ranked(positions, references);
    forall q | q in positions && q != p ensures Distance(p, references) < Distance(q, references) {
      var k :| 0 <= k < |r| && r[k] == (Distance(q, references), q);
      assert PairLe(r[0], r[1]);
      assert k > 1 ==> PairLe(r[1], r[k]);
    }
  }

  lemma NearestIsPicked(positions: seq<nat>, references: seq<nat>, p: nat)
    requires positions != [] && references != [] && Distinct(positions)
    requires StrictlyNearest(p, positions, references)
    ensures Pick(positions, references) == Some(p)
  {
    RankedFacts(positions, references);
    var r := Ranked(positions, references);
    var k :| 0 <= k < |r| && r[k] == (Distance(p, references), p);
    assert k > 0 ==> PairLe(r[0], r[k]);
    assert r[0].1 in positions;
    if |r| > 1 {
      RankedDistinct(positions, references, 0, 1);
      assert r[1].1 in positions;
    }
  }

  /** A position is picked exactly when it is strictly the nearest one to the references. */
  lemma PickIsStrictlyNearest(positions: seq<nat>, references: seq<nat>, p: nat)
    requires positions != [] && Distinct(positions)
    ensures Pick(positions, references) == Some(p) <==> references != [] && StrictlyNearest(p, positions, references)
  {
    if references != [] {
      if Pick(positions, references) == Some(p) {
        PickedIsNearest(positions, references, p);
      }
      if StrictlyNearest(p, positions, references) {
        NearestIsPicked(positions, references, p);
      }
    }
  }

  // ---------------------------------------------------------------- the repair of one evidence list

  datatype Candidate = Candidate(index: nat, positions: seq<nat>)

  /** What the repair has decided so far: start offsets by entry, their values in order, open entries. */
  datatype Progress = Progress(placed: map<nat, nat>, anchors: seq<nat>, pending: seq<Candidate>)

  function Quote(item: Item): string {
    if item.Span? then item.quote else ""
  }

  /** What the repair may look at: the quotes, not the offsets that came with them. */
  function Quotes(items: seq<Item>): (q: seq<string>)
    ensures |q| == |items| && forall i :: 0 <= i < |q| ==> q[i] == Quote(items[i])
  {
    seq(|items|, i requires 0 <= i < |items| => Quote(items[i]))
  }

  /** Enters entry `i`: a unique quote becomes an anchor, a repeated one stays open. */
  function Enter(p: Progress, i: nat, quote: string, positions: seq<nat>): Progress {
    if quote == "" || positions == [] then p
    else if |positions| == 1 then p.(placed := p.placed[i := positions[0]], anchors := p.anchors + [positions[0]])
    else p.(pending := p.pending + [Candidate(i, positions)])
  }

  /** The first pass over the first `n` entries, given each quote's positions. */
  function Scan(positions: seq<seq<nat>>, quotes: seq<string>, n: nat): Progress
    requires n <= |quotes| == |positions|
  {
    if n == 0 then Progress(map[], [], [])
    else Enter(Scan(positions, quotes, n - 1), n - 1, quotes[n - 1], positions[n - 1])
  }

  function PositionTable(text: string, quotes: seq<string>): seq<seq<nat>> {
    seq(|quotes|, i requires 0 <= i < |quotes| => Occurrences(text, quotes[i]))
  }

  function AllPositions(pending: seq<Candidate>): seq<nat> {
    if pending == [] then [] else pending[0].positions + AllPositions(pending[1..])
  }

  function Without(pending: seq<Candidate>, k: nat): seq<Candidate>
    requires k < |pending|
  {
    pending[..k] + pending[k + 1..]
  }

  /** The anchors and every position of the other open entries. */
  function References(p: Progress, k: nat): seq<nat>
    requires k < |p.pending|
  {
    p.anchors + AllPositions(Without(p.pending, k))
  }

  /** The choice, if any, for open entry `k`. */
  function Choices(p: Progress): nat -> Option<nat> {
    (k: nat) => if k < |p.pending| then Pick(p.pending[k].positions, References(p, k)) else None
  }

  /** The first of the entries `k..n` that has a choice. */
  function FirstChoice(choices: nat -> Option<nat>, k: nat, n: nat): (r: Option<nat>)
    ensures r.Some? ==> k <= r.value < n && choices(r.value).Some?
    ensures forall i :: k <= i < (if r.Some? then r.value else n) ==> choices(i) == None
    decreases n - k
  {
    if k >= n then None else if choices(k).Some? then Some(k) else FirstChoice(choices, k + 1, n)
  }

  function Settle(p: Progress, k: nat, start: nat): Progress
    requires k < |p.pending|
  {
    Progress(p.placed[p.pending[k].index := start], p.anchors + [start], Without(p.pending, k))
  }

  function Resolve(p: Progress): Progress
    decreases |p.pending|
  {
    match FirstChoice(Choices(p), 0, |p.pending|)
    case None => p
    case Some(k) => Resolve(Settle(p, k, Choices(p)(k).value))
  }

  function Repairs(text: string, quotes: seq<string>): Progress {
    Resolve(Scan(PositionTable(text, quotes), quotes, |quotes|))
  }

  function PlaceAt(item: Item, start: nat): Item {
    if item.Span? then Span(item.quote, start, start + |item.quote|) else item
  }

  function Patched(items: seq<Item>, placed: map<nat, nat>, i: nat): Item
    requires i < |items|
  {
    if i in placed then PlaceAt(items[i], placed[i]) else items[i]
  }

  function Overlay(items: seq<Item>, placed: map<nat, nat>): seq<Item> {
    seq(|items|, i requires 0 <= i < |items| => Patched(items, placed, i))
  }

  lemma {:induction false} ScanIndexes(positions: seq<seq<nat>>, quotes: seq<string>, n: nat)
    requires n <= |quotes| == |positions|
    ensures IndexesBelow(Scan(positions, quotes, n).pending, n)
  {
    if n > 0 {
      ScanIndexes(positions, quotes, n - 1);
    }
  }

  ghost predicate IndexesBelow(pending: seq<Candidate>, n: nat) {
    forall i :: 0 <= i < |pending| ==> pending[i].index < n
  }

  /** The entries with the placements so far written into them. */
  ghost predicate PatchedBy(now: seq<Item>, before: seq<Item>, placed: map<nat, nat>) {
    |now| == |before| && forall k :: 0 <= k < |before| ==> now[k] == Patched(before, placed, k)
  }

  /** One pass of the first loop. */
  method EnterEntry(text: string, evidence: array<Item>, i: nat, anchors: seq<nat>, unresolved: seq<Candidate>,
                    ghost before: seq<Item>, ghost placed: map<nat, nat>)
    returns (anchors': seq<nat>, unresolved': seq<Candidate>, ghost placed': map<nat, nat>)
    requires PatchedBy(evidence[..], before, placed) && i < |before| && i !in placed
    modifies evidence
    ensures PatchedBy(evidence[..], before, placed')
    ensures Progress(placed', anchors', unresolved')
      == Enter(Progress(placed, anchors, unresolved), i, Quote(before[i]), Occurrences(text, Quote(before[i])))
  {
    assert evidence[i] == Patched(before, placed, i);
    anchors', unresolved', placed' := anchors, unresolved, placed;
    var quote := Quote(evidence[i]);
    if quote == "" {
      return;
    }
    var positions := ExactPositions(text, quote);
    if |positions| == 1 {
      var start := positions[0];
      evidence[i] := PlaceAt(evidence[i], start);
      anchors' := anchors + [start];
      placed' := placed[i := start];
    } else if positions != [] {
      unresolved' := unresolved + [Candidate(i, positions)];
    }
  }

  /** The first pass: entries with a unique quote are rewritten at once. */
  method PlaceUniqueQuotes(text: string, evidence: array<Item>)
    returns (anchors: seq<nat>, unresolved: seq<Candidate>, ghost placed: map<nat, nat>)
    modifies evidence
    ensures var quotes := Quotes(old(evidence[..]));
      Progress(placed, anchors, unresolved) == Scan(PositionTable(text, quotes), quotes, evidence.Length)
    ensures forall k :: 0 <= k < evidence.Length ==> evidence[k] == Patched(old(evidence[..]), placed, k)
  {
    ghost var before := evidence[..];
    ghost var quotes := Quotes(before);
    ghost var table := PositionTable(text, quotes);
    placed := map[];
    anchors, unresolved := [], [];
    for i := 0 to evidence.Length
      invariant Progress(placed, anchors, unresolved) == Scan(table, quotes, i)
      invariant forall k :: k in placed ==> k < i
      invariant PatchedBy(evidence[..], before, placed)
    {
      assert quotes[i] == Quote(before[i]) && table[i] == Occurrences(text, quotes[i]);
      anchors, unresolved, placed := EnterEntry(text, evidence, i, anchors, unresolved, before, placed);
    }
    assert PatchedBy(evidence[..], before, placed);
  }

  /** One sweep over the open entries for the first that can be placed. */
  method FindResolvable(anchors: seq<nat>, pending: seq<Candidate>, ghost placed: map<nat, nat>)
    returns (resolved: Option<nat>, start: nat)
    ensures resolved == FirstChoice(Choices(Progress(placed, anchors, pending)), 0, |pending|)
    ensures resolved.Some? ==> Choices(Progress(placed, anchors, pending))(resolved.value) == Some(start)
  {
    ghost var choices := Choices(Progress(placed, anchors, pending));
    var index := 0;
    while index < |pending|
      invariant 0 <= index <= |pending|
      invariant FirstChoice(choices, 0, |pending|) == FirstChoice(choices, index, |pending|)
    {
      var references := anchors + AllPositions(Without(pending, index));
      var choice := Pick(pending[index].positions, references);
      assert choice == choices(index);
      if choice.Some? {
        return Some(index), choice.value;
      }
      index := index + 1;
    }
    return None, 0;
  }

  /** The second pass: a worklist over the repeated quotes, until none of them can be placed. */
  method PlaceRepeatedQuotes(evidence: array<Item>, ghost before: seq<Item>, anchors0: seq<nat>,
                             unresolved: seq<Candidate>, ghost placed0: map<nat, nat>)
    requires |before| == evidence.Length && IndexesBelow(unresolved, |before|)
    requires forall k :: 0 <= k < |before| ==> evidence[k] == Patched(before, placed0, k)
    modifies evidence
    ensures forall k :: 0 <= k < |before| ==>
      evidence[k] == Patched(before, Resolve(Progress(placed0, anchors0, unresolved)).placed, k)
  {
    ghost var goal := Resolve(Progress(placed0, anchors0, unresolved));
    var anchors, pending := anchors0, unresolved;
    ghost var placed: map<nat, nat> := placed0;
    while pending != []
      invariant IndexesBelow(pending, |before|)
      invariant Resolve(Progress(placed, anchors, pending)) == goal
      invariant forall k :: 0 <= k < |before| ==> evidence[k] == Patched(before, placed, k)
      decreases |pending|
    {
      var resolved: Option<nat>;
      var start: nat;
      resolved, start := FindResolvable(anchors, pending, placed);
      if resolved == None {
        break;
      }
      var entry := pending[resolved.value].index;
      evidence[entry] := PlaceAt(evidence[entry], start);
      anchors := anchors + [start];
      placed := placed[entry := start];
      pending := Without(pending, resolved.value);
    }
  }

  /** `_canonicalize_unique_quote_offsets` for one claim: its evidence entries are rewritten in place. */
  method RepairEvidence(text: string, evidence: array<Item>)
    modifies evidence
    ensures evidence[..] == Overlay(old(evidence[..]), Repairs(text, Quotes(old(evidence[..]))).placed)
  {
    ghost var before := evidence[..];
    ghost var quotes := Quotes(before);
    var anchors, unresolved;
    ghost var placed: map<nat, nat>;
    anchors, unresolved, placed := PlaceUniqueQuotes(text, evidence);
    ScanIndexes(PositionTable(text, quotes), quotes, |quotes|);
    PlaceRepeatedQuotes(evidence, before, anchors, unresolved, placed);
  }

  // ---------------------------------------------------------------- what the repair guarantees

  /** One row per quote, and no row repeats a position. */
  ghost predicate IsTable(table: seq<seq<nat>>, quotes: seq<string>) {
    |table| == |quotes| && forall i :: 0 <= i < |table| ==> Distinct(table[i])
  }

  ghost predicate IsPending(pending: seq<Candidate>, i: nat) {
    exists k :: 0 <= k < |pending| && pending[k].index == i
  }

  /** Everything decided is a listed position, and no listed quote among the first `n` is forgotten. */
  ghost predicate Sound(table: seq<seq<nat>>, quotes: seq<string>, p: Progress, n: nat)
    requires IsTable(table, quotes) && n <= |quotes|
  {
    && (forall i :: i in p.placed ==> i < n && quotes[i] != "" && p.placed[i] in table[i])
    && (forall k :: 0 <= k < |p.pending| ==> OpenEntry(table, quotes, p, k, n))
    && (forall i :: 0 <= i < n && quotes[i] != "" && table[i] != [] ==>
      i in p.placed || (IsPending(p.pending, i) && |table[i]| > 1))
    && (forall j, k :: 0 <= j < k < |p.pending| ==> p.pending[j].index != p.pending[k].index)
  }

  ghost predicate OpenEntry(table: seq<seq<nat>>, quotes: seq<string>, p: Progress, k: nat, n: nat)
    requires IsTable(table, quotes) && n <= |quotes| && k < |p.pending|
  {
    var i := p.pending[k].index;
    i < n && i !in p.placed && quotes[i] != "" && |table[i]| > 1 && p.pending[k].positions == table[i]
  }

  lemma {:induction false} ScanSound(table: seq<seq<nat>>, quotes: seq<string>, n: nat)
    requires IsTable(table, quotes) && n <= |quotes|
    ensures Sound(table, quotes, Scan(table, quotes, n), n)
  {
    if n > 0 {
      ScanSound(table, quotes, n - 1);
      EnterSound(table, quotes, Scan(table, quotes, n - 1), n - 1);
    }
  }

  lemma EnterSound(table: seq<seq<nat>>, quotes: seq<string>, p: Progress, i: nat)
    requires IsTable(table, quotes) && i < |quotes| && Sound(table, quotes, p, i)
    ensures Sound(table, quotes, Enter(p, i, quotes[i], table[i]), i + 1)
  {
    var q := Enter(p, i, quotes[i], table[i]);
    forall k | 0 <= k < |p.pending| ensures p.pending[k].index < i {
      assert OpenEntry(table, quotes, p, k, i);
    }
    forall j | IsPending(p.pending, j) ensures IsPending(q.pending, j) {
      var k :| 0 <= k < |p.pending| && p.pending[k].index == j;
      assert q.pending[k].index == j;
    }
    if quotes[i] != "" && |table[i]| > 1 {
      assert q.pending[|q.pending| - 1].index == i;
    }
    var n := i + 1;
    forall k | 0 <= k < |q.pending| ensures OpenEntry(table, quotes, q, k, n) {
      assert k < |p.pending| ==> OpenEntry(table, quotes, p, k, i);
    }
  }

  lemma SettleSound(table: seq<seq<nat>>, quotes: seq<string>, p: Progress, k: nat, start: nat)
    requires IsTable(table, quotes) && Sound(table, quotes, p, |quotes|)
    requires k < |p.pending| && start in p.pending[k].positions
    ensures Sound(table, quotes, Settle(p, k, start), |quotes|)
  {
    var q := Settle(p, k, start);
    assert OpenEntry(table, quotes, p, k, |quotes|);
    forall i | IsPending(p.pending, i) && i != p.pending[k].index ensures IsPending(q.pending, i) {
      var j :| 0 <= j < |p.pending| && p.pending[j].index == i;
      assert j < k ==> q.pending[j] == p.pending[j];
      assert j > k ==> q.pending[j - 1] == p.pending[j];
    }
    forall j | 0 <= j < |q.pending| ensures OpenEntry(table, quotes, q, j, |quotes|) {
      assert OpenEntry(table, quotes, p, if j < k then j else j + 1, |quotes|);
    }
  }

  lemma ChoiceSettles(table: seq<seq<nat>>, quotes: seq<string>, p: Progress, k: nat)
    requires IsTable(table, quotes) && Sound(table, quotes, p, |quotes|) && k < |p.pending| && Choices(p)(k).Some?
    ensures Sound(table, quotes, Settle(p, k, Choices(p)(k).value), |quotes|)
  {
    assert OpenEntry(table, quotes, p, k, |quotes|);
    PickedIsNearest(p.pending[k].positions, References(p, k), Choices(p)(k).value);
    SettleSound(table, quotes, p, k, Choices(p)(k).value);
  }

  lemma {:induction false} ResolveSound(table: seq<seq<nat>>, quotes: seq<string>, p: Progress)
    requires IsTable(table, quotes) && Sound(table, quotes, p, |quotes|)
    ensures Sound(table, quotes, Resolve(p), |quotes|)
    ensures forall i :: i in p.placed ==> i in Resolve(p).placed && Resolve(p).placed[i] == p.placed[i]
    ensures FirstChoice(Choices(Resolve(p)), 0, |Resolve(p).pending|) == None
    decreases |p.pending|
  {
    var next := FirstChoice(Choices(p), 0, |p.pending|);
    if next.Some? {
      ChoiceSettles(table, quotes, p, next.value);
      ResolveSound(table, quotes, Settle(p, next.value, Choices(p)(next.value).value));
      assert OpenEntry(table, quotes, p, next.value, |quotes|);
    }
  }

  lemma TableOfText(text: string, quotes: seq<string>)
    ensures IsTable(PositionTable(text, quotes), quotes)
  {
    forall i | 0 <= i < |quotes| ensures Distinct(Occurrences(text, quotes[i])) {
      OccurrencesExact(text, quotes[i]);
    }
  }

  lemma RepairsSound(text: string, quotes: seq<string>)
    ensures IsTable(PositionTable(text, quotes), quotes)
    ensures Sound(PositionTable(text, quotes), quotes, Repairs(text, quotes), |quotes|)
  {
    var table := PositionTable(text, quotes);
    TableOfText(text, quotes);
    ScanSound(table, quotes, |quotes|);
    ResolveSound(table, quotes, Scan(table, quotes, |quotes|));
  }

  /** Every rewritten span quotes the source exactly; all other entries are left as they came. */
  lemma RepairIsExact(text: string, items: seq<Item>, i: nat)
    requires i < |items|
    ensures var out := Overlay(items, Repairs(text, Quotes(items)).placed)[i];
      || out == items[i]
      || (out.Span? && items[i].Span? && out.quote == items[i].quote
          && OccursAt(text, out.quote, out.start) && out.end == out.start + |out.quote|)
  {
    RepairsSound(text, Quotes(items));
    OccurrencesExact(text, Quotes(items)[i]);
  }

  lemma EqualIsNotIncreasing(row: seq<nat>)
    requires |row| > 1 && row[0] == row[1]
    ensures !(forall i, j :: 0 <= i < j < |row| ==> row[i] < row[j])
  {
  }

  lemma SinglePosition(row: seq<nat>, at: nat)
    requires forall i, j :: 0 <= i < j < |row| ==> row[i] < row[j]
    requires forall p: nat :: p in row <==> p == at
    ensures row == [at]
  {
    assert at in row;
    forall j | 0 <= j < |row| ensures row[j] == at {
      var p := row[j];
      assert p in row;
    }
    if |row| > 1 {
      EqualIsNotIncreasing(row);
    }
  }

  /** A quote that stands at one place only is always put there. */
  lemma UniqueQuotesArePlaced(text: string, items: seq<Item>, i: nat, at: nat)
    requires i < |items| && items[i].Span? && items[i].quote != ""
    requires forall p: nat :: OccursAt(text, items[i].quote, p) <==> p == at
    ensures Overlay(items, Repairs(text, Quotes(items)).placed)[i] == Span(items[i].quote, at, at + |items[i].quote|)
  {
    var quotes := Quotes(items);
    var row := Occurrences(text, quotes[i]);
    OccurrencesExact(text, quotes[i]);
    RepairsSound(text, quotes);
    assert PositionTable(text, quotes)[i] == row && at in row;
    SinglePosition(row, at);
  }

  /** Two evidence lists with the same quotes are given the same offsets, whatever offsets they came with. */
  lemma SentOffsetsDoNotMatter(text: string, a: seq<Item>, b: seq<Item>, i: nat)
    requires Quotes(a) == Quotes(b) && i < |a| && i in Repairs(text, Quotes(a)).placed
    ensures Overlay(a, Repairs(text, Quotes(a)).placed)[i] == Overlay(b, Repairs(text, Quotes(b)).placed)[i]
  {
    RepairsSound(text, Quotes(a));
    assert Quotes(a)[i] == Quotes(b)[i] != "";
  }

  lemma OverlayTwice(items: seq<Item>, placed: map<nat, nat>)
    ensures Quotes(Overlay(items, placed)) == Quotes(items)
    ensures Overlay(Overlay(items, placed), placed) == Overlay(items, placed)
  {
  }

  /** Repairing a repaired list changes nothing. */
  lemma RepairIsIdempotent(text: string, items: seq<Item>)
    ensures var once := Overlay(items, Repairs(text, Quotes(items)).placed);
      Quotes(once) == Quotes(items) && Overlay(once, Repairs(text, Quotes(once)).placed) == once
  {
    OverlayTwice(items, Repairs(text, Quotes(items)).placed);
  }
}
