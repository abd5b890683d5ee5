/** Resumable delivery of one run's audit events, by polling after the last received event. */
module EventCursor {
  import opened Prelude
  import Ordering

  /**
   * `at` is the timestamp taken when the row is written, before its commit, `id` the event's UUID; `at` and then `id`
   * order the stream.
   */
  datatype Event = Event(at: int, id: nat, body: string)

  predicate After(a: Event, b: Event) {
    a.at > b.at || (a.at == b.at && a.id > b.id)
  }

  predicate InOrder(a: Event, b: Event) {
    !After(a, b)
  }

  /** The rows the statement selects. */
  function Selected(log: seq<Event>, cursor: Option<Event>): seq<Event> {
    if log == [] then []
    else
      var last := log[|log| - 1];
      Selected(log[..|log| - 1], cursor) + if cursor.Some? && !After(last, cursor.value) then [] else [last]
  }

  /** `events_after` */
  function EventsAfter(log: seq<Event>, cursor: Option<Event>): seq<Event> {
    Ordering.Sort(InOrder, Selected(log, cursor))
  }

  // ---------------------------------------------------------------- timestamps

  /** `utc_now`: the clock's reading, or one microsecond more than the last timestamp if the clock has not moved on. */
  function UtcNow(last: Option<int>, clock: int): (now: int)
    ensures last.Some? ==> now > last.value
    ensures now >= clock
    ensures now == clock || last == Some(now - 1)
  {
    if last.Some? && clock <= last.value then last.value + 1 else clock
  }

  /** Every event is later than all before it. */
  ghost predicate Increasing(log: seq<Event>) {
    forall i, j :: 0 <= i < j < |log| ==> log[i].at < log[j].at
  }

  /** The timestamps one process hands out for the given clock readings. */
  function Timestamps(clocks: seq<int>): seq<int> {
    if clocks == [] then []
    else
      var earlier := Timestamps(clocks[..|clocks| - 1]);
      var last := if earlier == [] then None else Some(earlier[|earlier| - 1]);
      earlier + [UtcNow(last, clocks[|clocks| - 1])]
  }

  /** One process never repeats or reverses a timestamp, however its clock behaves. */
  lemma {:induction false} TimestampsIncrease(clocks: seq<int>)
    ensures var ts := Timestamps(clocks); |ts| == |clocks| && forall i, j :: 0 <= i < j < |ts| ==> ts[i] < ts[j]
  {
    if clocks != [] {
      TimestampsIncrease(clocks[..|clocks| - 1]);
    }
  }

  // ---------------------------------------------------------------- one poll

  /** The cursor after the first `n` events of the log. */
  function CursorAt(log: seq<Event>, n: nat): Option<Event>
    requires n <= |log|
  {
    if n == 0 then None else Some(log[n - 1])
  }

  lemma SelectedNext(log: seq<Event>, n: nat, m: nat)
    requires Increasing(log) && n <= m < |log| && Selected(log[..m], CursorAt(log, n)) == log[n..m]
    ensures Selected(log[..m + 1], CursorAt(log, n)) == log[n..m + 1]
  {
    assert log[..m + 1][..m] == log[..m] && log[..m + 1][m] == log[m];
    assert log[n..m + 1] == log[n..m] + [log[m]];
    assert n > 0 ==> log[n - 1].at < log[m].at;
  }

  lemma {:induction false} SelectedIsSuffix(log: seq<Event>, n: nat, m: nat)
    requires Increasing(log) && n <= m <= |log|
    ensures Selected(log[..m], CursorAt(log, n)) == log[n..m]
    decreases m
  {
    if m > n {
      SelectedIsSuffix(log, n, m - 1);
      SelectedNext(log, n, m - 1);
    } else {
      NothingSelected(log, n, m);
    }
  }

  lemma {:induction false} NothingSelected(log: seq<Event>, n: nat, m: nat)
    requires Increasing(log) && m <= n <= |log|
    ensures Selected(log[..m], CursorAt(log, n)) == []
    decreases m
  {
    if m > 0 {
      NothingSelected(log, n, m - 1);
      assert log[..m][..m - 1] == log[..m - 1];
      assert log[m - 1].at <= log[n - 1].at;
    }
  }

  lemma {:induction false} InsertLast(s: seq<Event>, x: Event)
    requires forall i :: 0 <= i < |s| ==> s[i].at < x.at
    ensures Ordering.Insert(InOrder, x, s) == s + [x]
  {
    if s != [] {
      InsertLast(s[1..], x);
      assert s + [x] == [s[0]] + (s[1..] + [x]);
    }
  }

  lemma {:induction false} SortIncreasing(s: seq<Event>)
    requires Increasing(s)
    ensures Ordering.Sort(InOrder, s) == s
  {
    if s != [] {
      SortIncreasing(s[..|s| - 1]);
      InsertLast(s[..|s| - 1], s[|s| - 1]);
    }
  }

  /** With increasing timestamps a poll returns exactly the events behind the cursor. */
  lemma PollReturnsTheRest(log: seq<Event>, n: nat)
    requires Increasing(log) && n <= |log|
    ensures EventsAfter(log, CursorAt(log, n)) == log[n..]
  {
    SelectedIsSuffix(log, n, |log|);
    assert log[..|log|] == log && log[n..|log|] == log[n..];
    SortIncreasing(log[n..]);
  }

  // ---------------------------------------------------------------- streams

  datatype Stream = Stream(log: seq<Event>, delivered: seq<Event>)

  datatype Action =
    | Append(e: Event)
    /**
     * A poll, on the same connection or after a reconnect with the last received id, of which `received` events arrive.
     */
    | Poll(received: nat)

  function Cursor(delivered: seq<Event>): Option<Event> {
    if delivered == [] then None else Some(delivered[|delivered| - 1])
  }

  function Act(s: Stream, a: Action): Stream {
    match a
    case Append(e) => s.(log := s.log + [e])
    case Poll(received) =>
      var batch := EventsAfter(s.log, Cursor(s.delivered));
      s.(delivered := s.delivered + if received <= |batch| then batch[..received] else batch)
  }

  function Acts(s: Stream, actions: seq<Action>): Stream {
    if actions == [] then s else Act(Acts(s, actions[..|actions| - 1]), actions[|actions| - 1])
  }

  ghost predicate ExactlyOnce(s: Stream) {
    s.delivered <= s.log
  }

  lemma PollDelivers(log: seq<Event>, delivered: seq<Event>)
    requires Increasing(log) && delivered <= log
    ensures delivered + EventsAfter(log, Cursor(delivered)) == log
  {
    assert Cursor(delivered) == CursorAt(log, |delivered|);
    PollReturnsTheRest(log, |delivered|);
    assert log == log[..|delivered|] + log[|delivered|..];
  }

  lemma PrefixIncreasing(a: seq<Event>, b: seq<Event>)
    requires a <= b && Increasing(b)
    ensures Increasing(a)
  {
    forall i, j | 0 <= i < j < |a| ensures a[i].at < a[j].at {
      assert a[i] == b[i] && a[j] == b[j];
    }
  }

  lemma ActKeepsExactlyOnce(s: Stream, a: Action)
    requires ExactlyOnce(s) && Increasing(Act(s, a).log)
    ensures ExactlyOnce(Act(s, a))
    ensures a.Poll? && a.received >= |EventsAfter(s.log, Cursor(s.delivered))| ==> Act(s, a).delivered == s.log
  {
    if a.Poll? {
      PollDelivers(s.log, s.delivered);
      var batch := EventsAfter(s.log, Cursor(s.delivered));
      if a.received <= |batch| {
        assert s.delivered + batch == s.delivered + batch[..a.received] + batch[a.received..];
        assert batch[..|batch|] == batch;
      }
    }
  }

  lemma {:induction false} LogsGrow(s: Stream, actions: seq<Action>)
    ensures s.log <= Acts(s, actions).log && s.delivered <= Acts(s, actions).delivered
  {
    if actions != [] {
      LogsGrow(s, actions[..|actions| - 1]);
    }
  }

  /** A fresh client of an existing log. */
  predicate Fresh(s: Stream) {
    s.delivered == []
  }

  /**
   * For any interleaving of appends, polls, interrupted deliveries and reconnects: what the client has received is
   * a prefix of the log, so no event is lost, repeated or reordered.
   */
  lemma {:induction false} DeliveredIsPrefix(s: Stream, actions: seq<Action>)
    requires Fresh(s) && Increasing(Acts(s, actions).log)
    ensures ExactlyOnce(Acts(s, actions))
  {
    if actions != [] {
      var front := actions[..|actions| - 1];
      PrefixIncreasing(Acts(s, front).log, Acts(s, actions).log);
      DeliveredIsPrefix(s, front);
      ActKeepsExactlyOnce(Acts(s, front), actions[|actions| - 1]);
    }
  }

  /** After a poll that is received in full, as the one that ends the stream is, the client has the whole log. */
  lemma CompletePollDeliversAll(s: Stream, actions: seq<Action>, received: nat)
    requires Fresh(s) && Increasing(Acts(s, actions).log)
    requires received >= |EventsAfter(Acts(s, actions).log, Cursor(Acts(s, actions).delivered))|
    ensures Act(Acts(s, actions), Poll(received)).delivered == Acts(s, actions).log
  {
    DeliveredIsPrefix(s, actions);
    ActKeepsExactlyOnce(Acts(s, actions), Poll(received));
  }

  // ---------------------------------------------------------------- several processes

  lemma {:induction false} SelectedExact(log: seq<Event>, cursor: Option<Event>, e: Event)
    ensures e in Selected(log, cursor) <==> e in log && (cursor == None || After(e, cursor.value))
  {
    if log != [] {
      SelectedExact(log[..|log| - 1], cursor, e);
      assert log == log[..|log| - 1] + [log[|log| - 1]];
    }
  }

  /** A poll returns an event exactly if it is in the log and ordered behind the cursor. */
  lemma PollIsExact(log: seq<Event>, cursor: Option<Event>, e: Event)
    ensures e in EventsAfter(log, cursor) <==> e in log && (cursor == None || After(e, cursor.value))
  {
    Ordering.SortMembers(InOrder, Selected(log, cursor), e);
    SelectedExact(log, cursor, e);
  }

  /** What has arrived since `since` was the cursor is ordered behind it. */
  ghost predicate AllSince(delivered: seq<Event>, n: nat, since: Event) {
    forall i :: n <= i < |delivered| ==> After(delivered[i], since)
  }

  lemma PollKeepsAllSince(s: Stream, n: nat, since: Event, received: nat)
    requires 0 < n <= |s.delivered| && AllSince(s.delivered, n, since) && s.delivered[n - 1] == since
    ensures AllSince(Act(s, Poll(received)).delivered, n, since)
  {
    PolledAreAfter(s.log, Cursor(s.delivered), since);
  }

  /** Once a cursor is set, whatever arrives later is ordered behind it. */
  lemma {:induction false} CursorAdvances(s: Stream, actions: seq<Action>)
    requires s.delivered != []
    ensures AllSince(Acts(s, actions).delivered, |s.delivered|, Cursor(s.delivered).value)
  {
    if actions != [] {
      var front, a := actions[..|actions| - 1], actions[|actions| - 1];
      CursorAdvances(s, front);
      LogsGrow(s, front);
      if a.Poll? {
        PollKeepsAllSince(Acts(s, front), |s.delivered|, Cursor(s.delivered).value, a.received);
      }
    }
  }

  lemma PolledAreAfter(log: seq<Event>, cursor: Option<Event>, since: Event)
    requires cursor.Some? && (cursor.value == since || After(cursor.value, since))
    ensures forall i :: 0 <= i < |EventsAfter(log, cursor)| ==> After(EventsAfter(log, cursor)[i], since)
  {
    var batch := EventsAfter(log, cursor);
    forall i | 0 <= i < |batch| ensures After(batch[i], since) {
      PollIsExact(log, cursor, batch[i]);
      assert batch[i] in batch;
    }
  }

  /**
   * Each process keeps its own timestamps and takes them before the commit, so an event can be appended that is
   * ordered at or before the cursor. Such an event is never delivered, whatever happens next.
   */
  lemma LateEventIsLost(s: Stream, e: Event, actions: seq<Action>)
    requires s.delivered != [] && e !in s.delivered && !After(e, Cursor(s.delivered).value)
    ensures e !in Acts(Act(s, Append(e)), actions).delivered
  {
    var appended := Act(s, Append(e));
    LogsGrow(appended, actions);
    CursorAdvances(appended, actions);
    var delivered := Acts(appended, actions).delivered;
    forall i | 0 <= i < |delivered| ensures delivered[i] != e {
      if i < |s.delivered| {
        assert delivered[i] == s.delivered[i];
      }
    }
  }

  /** Ids are primary keys. */
  ghost predicate UniqueIds(log: seq<Event>) {
    forall i, j :: 0 <= i < j < |log| ==> log[i].id != log[j].id
  }

  lemma PrefixUnique(a: seq<Event>, b: seq<Event>)
    requires a <= b && UniqueIds(b)
    ensures UniqueIds(a)
  {
    forall i, j | 0 <= i < j < |a| ensures a[i].id != a[j].id {
      assert a[i] == b[i] && a[j] == b[j];
    }
  }

  lemma BatchIsSorted(log: seq<Event>, cursor: Option<Event>)
    ensures Ordering.SortedBy(InOrder, EventsAfter(log, cursor))
  {
    Ordering.SortSorts(InOrder, Selected(log, cursor));
  }

  /** Of two different events of the log, the one that comes later in a batch is ordered behind the other. */
  lemma LaterInBatch(log: seq<Event>, cursor: Option<Event>, p: nat, q: nat)
    requires UniqueIds(log) && p < q < |EventsAfter(log, cursor)|
    requires EventsAfter(log, cursor)[p] != EventsAfter(log, cursor)[q]
    ensures After(EventsAfter(log, cursor)[q], EventsAfter(log, cursor)[p])
  {
    var batch := EventsAfter(log, cursor);
    BatchIsSorted(log, cursor);
    PollIsExact(log, cursor, batch[p]);
    PollIsExact(log, cursor, batch[q]);
    assert batch[p] in batch && batch[q] in batch;
    assert InOrder(batch[p], batch[q]);
    assert batch[p].id != batch[q].id;
  }

  /** The event has arrived or is still ordered behind the cursor. */
  predicate Outstanding(s: Stream, e: Event) {
    e in s.delivered || (e in s.log && (s.delivered == [] || After(e, Cursor(s.delivered).value)))
  }

  lemma PollKeepsOutstanding(s: Stream, e: Event, received: nat)
    requires UniqueIds(s.log) && Outstanding(s, e)
    ensures Outstanding(Act(s, Poll(received)), e)
    ensures received >= |EventsAfter(s.log, Cursor(s.delivered))| ==> e in Act(s, Poll(received)).delivered
  {
    var batch := EventsAfter(s.log, Cursor(s.delivered));
    var n := if received <= |batch| then received else |batch|;
    assert batch[..|batch|] == batch;
    assert Act(s, Poll(received)).delivered == s.delivered + batch[..n];
    PollIsExact(s.log, Cursor(s.delivered), e);
    if e !in s.delivered {
      var q :| 0 <= q < |batch| && batch[q] == e;
      if q < n {
        assert batch[..n][q] == e;
      } else if n > 0 && batch[n - 1] != e {
        LaterInBatch(s.log, Cursor(s.delivered), n - 1, q);
      }
    }
  }

  lemma {:induction false} ActsKeepOutstanding(s: Stream, e: Event, actions: seq<Action>)
    requires UniqueIds(Acts(s, actions).log) && Outstanding(s, e)
    ensures Outstanding(Acts(s, actions), e)
  {
    if actions != [] {
      var front, a := actions[..|actions| - 1], actions[|actions| - 1];
      PrefixUnique(Acts(s, front).log, Acts(s, actions).log);
      ActsKeepOutstanding(s, e, front);
      if a.Poll? {
        PollKeepsOutstanding(Acts(s, front), e, a.received);
      }
    }
  }

  /**
   * Whatever the timestamps, and whatever is appended, polled, interrupted and reconnected in between: an event is
   * in the client's hands after a later poll that is received in full if and only if it was ordered behind the
   * client's cursor at the moment it was appended.
   */
  lemma DeliveredIffBehindCursor(s: Stream, e: Event, actions: seq<Action>, received: nat)
    requires e !in s.delivered && UniqueIds(Acts(Act(s, Append(e)), actions).log)
    requires var t := Acts(Act(s, Append(e)), actions); received >= |EventsAfter(t.log, Cursor(t.delivered))|
    ensures e in Act(Acts(Act(s, Append(e)), actions), Poll(received)).delivered
      <==> s.delivered == [] || After(e, Cursor(s.delivered).value)
  {
    var t := Acts(Act(s, Append(e)), actions);
    if s.delivered == [] || After(e, Cursor(s.delivered).value) {
      ActsKeepOutstanding(Act(s, Append(e)), e, actions);
      PollKeepsOutstanding(t, e, received);
    } else {
      var all := actions + [Poll(received)];
      assert all[..|actions|] == actions;
      LateEventIsLost(s, e, all);
    }
  }

  lemma OneEventReceived(first: Event)
    ensures Acts(Stream([], []), [Append(first)] + [Poll(1)]) == Stream([first], [first])
  {
    var actions := [Append(first)] + [Poll(1)];
    PollDelivers([first], []);
    assert actions[..1] == [Append(first)] && actions[..1][..0] == [];
    assert Acts(Stream([], []), actions[..1]) == Stream([first], []);
    assert [first][..1] == [first];
  }

  const FIRST := Event(10, 0, "first")
  const LATE := Event(9, 1, "late")

  lemma AppendedLateIsLost(first: Event, late: Event, actions: seq<Action>)
    requires After(first, late)
    ensures var s := Act(Acts(Stream([], []), [Append(first)] + [Poll(1)]), Append(late));
      s.log == [first] + [late] && late !in Acts(s, actions).delivered
  {
    OneEventReceived(first);
    LateEventIsLost(Stream([first], [first]), late, actions);
  }

  /** An instance: a process whose timestamps lag behind appends an event that a client with a cursor never receives. */
  lemma LaggingProcessLosesAnEvent(actions: seq<Action>)
    ensures var s := Act(Acts(Stream([], []), [Append(FIRST)] + [Poll(1)]), Append(LATE));
      s.log == [FIRST] + [LATE] && LATE !in Acts(s, actions).delivered
  {
    AppendedLateIsLost(FIRST, LATE, actions);
  }

  /** Each event is ordered behind all before it; in particular none occurs twice. */
  ghost predicate Ascending(events: seq<Event>) {
    forall i, j :: 0 <= i < j < |events| ==> After(events[j], events[i])
  }

  lemma {:induction false} SelectedOnce(log: seq<Event>, cursor: Option<Event>)
    requires UniqueIds(log)
    ensures forall e :: multiset(Selected(log, cursor))[e] <= 1
  {
    if log != [] {
      var front, last := log[..|log| - 1], log[|log| - 1];
      PrefixUnique(front, log);
      SelectedOnce(front, cursor);
      SelectedExact(front, cursor, last);
      assert forall i :: 0 <= i < |front| ==> front[i] == log[i] && log[i].id != last.id;
      assert last !in Selected(front, cursor);
    }
  }

  lemma RepeatCounts(s: seq<Event>, p: nat, q: nat)
    requires p < q < |s| && s[p] == s[q]
    ensures multiset(s)[s[p]] >= 2
  {
    assert s == s[..q] + s[q..];
    assert s[..q][p] == s[p] && s[q..][0] == s[p];
    assert multiset(s) == multiset(s[..q]) + multiset(s[q..]);
    assert s[p] in multiset(s[..q]) && s[p] in multiset(s[q..]);
  }

  lemma BatchAscends(log: seq<Event>, cursor: Option<Event>)
    requires UniqueIds(log)
    ensures Ascending(EventsAfter(log, cursor))
  {
    var batch := EventsAfter(log, cursor);
    SelectedOnce(log, cursor);
    Ordering.SortKeeps(InOrder, Selected(log, cursor));
    forall p, q | 0 <= p < q < |batch| ensures After(batch[q], batch[p]) {
      if batch[p] == batch[q] {
        RepeatCounts(batch, p, q);
      }
      LaterInBatch(log, cursor, p, q);
    }
  }

  lemma AscendingJoin(sent: seq<Event>, cursor: Option<Event>, log: seq<Event>, n: nat)
    requires UniqueIds(log) && Ascending(sent) && (sent != [] ==> cursor == Cursor(sent))
    requires n <= |EventsAfter(log, cursor)|
    ensures Ascending(sent + EventsAfter(log, cursor)[..n])
  {
    var batch := EventsAfter(log, cursor);
    BatchAscends(log, cursor);
    forall i, j | 0 <= i < j < |sent + batch[..n]| ensures After((sent + batch[..n])[j], (sent + batch[..n])[i]) {
      if i < |sent| <= j {
        PollIsExact(log, cursor, batch[j - |sent|]);
        assert batch[j - |sent|] in batch;
        assert i < |sent| - 1 ==> After(sent[|sent| - 1], sent[i]);
      }
    }
  }

  /** With any timestamps and any interleaving, a client receives events in their order and never one twice. */
  lemma {:induction false} NothingIsDeliveredTwice(s: Stream, actions: seq<Action>)
    requires Fresh(s) && UniqueIds(Acts(s, actions).log)
    ensures Ascending(Acts(s, actions).delivered)
  {
    if actions != [] {
      var front, a := actions[..|actions| - 1], actions[|actions| - 1];
      var before := Acts(s, front);
      PrefixUnique(before.log, Acts(s, actions).log);
      NothingIsDeliveredTwice(s, front);
      if a.Poll? {
        var batch := EventsAfter(before.log, Cursor(before.delivered));
        var n := if a.received <= |batch| then a.received else |batch|;
        assert batch[..|batch|] == batch;
        AscendingJoin(before.delivered, Cursor(before.delivered), before.log, n);
      }
    }
  }

  // ---------------------------------------------------------------- the stream as it runs

  /** The cursor of a request: None for the whole log, or an event of this very run. */
  method PollOnce(log: seq<Event>, cursor: Option<Event>, knownTerminal: bool)
    returns (events: Option<seq<Event>>, terminal: bool)
    ensures events == None <==> cursor.Some? && cursor.value !in log
    ensures events.Some? ==> events.value == EventsAfter(log, cursor) && terminal == knownTerminal
  {
    if cursor.Some? && cursor.value !in log {
      return None, false;
    }
    var rows: seq<Event> := [];
    for i := 0 to |log|
      invariant rows == Selected(log[..i], cursor)
    {
      assert log[..i + 1][..i] == log[..i];
      if cursor == None || After(log[i], cursor.value) {
        rows := rows + [log[i]];
      }
    }
    assert log[..|log|] == log;
    return Some(Ordering.Sort(InOrder, rows)), knownTerminal;
  }

  /** What a poll finds: the run's log and whether the run has ended. */
  datatype View = View(log: seq<Event>, terminal: bool)

  /** The cursor once `sent` has gone out. */
  function Moved(cursor: Option<Event>, sent: seq<Event>): Option<Event> {
    if sent == [] then cursor else Cursor(sent)
  }

  /** What one connection sends in its first `n` polls. */
  function Sent(views: seq<View>, cursor: Option<Event>, n: nat): seq<Event>
    requires n <= |views|
  {
    if n == 0 then []
    else
      var before := Sent(views, cursor, n - 1);
      before + EventsAfter(views[n - 1].log, Moved(cursor, before))
  }

  /** The log only grows from one poll to the next. */
  ghost predicate Extends(views: seq<View>, k: nat)
    requires 0 < k < |views|
  {
    views[k - 1].log <= views[k].log
  }

  ghost predicate AppendOnly(views: seq<View>) {
    forall k :: 0 < k < |views| ==> Extends(views, k)
  }

  lemma {:induction false} ViewsGrow(views: seq<View>, k: nat, n: nat)
    requires AppendOnly(views) && k <= n < |views|
    ensures views[k].log <= views[n].log
    decreases n
  {
    if k < n {
      ViewsGrow(views, k, n - 1);
      assert Extends(views, n);
    }
  }

  lemma MovedIsKnown(views: seq<View>, cursor: Option<Event>, n: nat)
    requires AppendOnly(views) && n < |views| && (cursor.Some? ==> cursor.value in views[0].log)
    ensures var c := Moved(cursor, Sent(views, cursor, n)); c.Some? ==> c.value in views[n].log
  {
    ViewsGrow(views, 0, n);
    var sent := Sent(views, cursor, n);
    if sent != [] {
      SentIsLogged(views, cursor, n, sent[|sent| - 1]);
      assert Extends(views, n);
    }
  }

  lemma {:induction false} SentIsLogged(views: seq<View>, cursor: Option<Event>, n: nat, e: Event)
    requires AppendOnly(views) && n <= |views| && e in Sent(views, cursor, n)
    ensures n > 0 && e in views[n - 1].log
  {
    if n > 0 {
      var before := Sent(views, cursor, n - 1);
      if e in before {
        SentIsLogged(views, cursor, n - 1, e);
        assert Extends(views, n - 1);
      } else {
        PollIsExact(views[n - 1].log, Moved(cursor, before), e);
      }
    }
  }

  /** What `n` polls have sent, and where that leaves the cursor. */
  ghost predicate SentBy(views: seq<View>, cursor: Option<Event>, n: nat, sent: seq<Event>, current: Option<Event>)
    requires n <= |views|
  {
    sent == Sent(views, cursor, n) && current == Moved(cursor, sent)
  }

  lemma NothingSent(views: seq<View>, cursor: Option<Event>)
    ensures SentBy(views, cursor, 0, [], cursor)
  {
  }

  /** One more poll sends what is behind the cursor that the earlier ones have left. */
  lemma SentNext(views: seq<View>, cursor: Option<Event>, n: nat, sent: seq<Event>, current: Option<Event>,
                 batch: seq<Event>)
    requires n < |views| && SentBy(views, cursor, n, sent, current) && batch == EventsAfter(views[n].log, current)
    ensures SentBy(views, cursor, n + 1, sent + batch, Moved(current, batch))
  {
  }

  /**
   * One connection: poll `k` finds `views[k]`, a cursor of another run is refused at once, and the first terminal
   * poll ends the stream.
   */
  method Deliver(views: seq<View>, cursor: Option<Event>) returns (sent: Option<seq<Event>>, polls: nat)
    requires AppendOnly(views) && views != []
    ensures sent == None <==> cursor.Some? && cursor.value !in views[0].log
    ensures 0 < polls <= |views| && forall k :: 0 <= k < polls - 1 ==> !views[k].terminal
    ensures sent.Some? ==> sent.value == Sent(views, cursor, polls) && (polls < |views| ==> views[polls - 1].terminal)
  {
    polls := 1;
    NothingSent(views, cursor);
    var first, current, terminal := PollAndSend(views[0], cursor);
    if first == None {
      return None, polls;
    }
    var out := first.value;
    SentNext(views, cursor, 0, [], cursor, out);
    assert [] + out == out;
    while polls < |views| && !terminal
      invariant 0 < polls <= |views| && terminal == views[polls - 1].terminal
      invariant forall k :: 0 <= k < polls - 1 ==> !views[k].terminal
      invariant SentBy(views, cursor, polls, out, current)
    {
      MovedIsKnown(views, cursor, polls);
      var batch, next;
      batch, next, terminal := PollAndSend(views[polls], current);
      SentNext(views, cursor, polls, out, current, batch.value);
      out, current, polls := out + batch.value, next, polls + 1;
    }
    return Some(out), polls;
  }

  /** One poll, and its batch. */
  method PollAndSend(view: View, cursor: Option<Event>)
    returns (batch: Option<seq<Event>>, current: Option<Event>, terminal: bool)
    ensures batch == None <==> cursor.Some? && cursor.value !in view.log
    ensures batch.Some? ==>
      batch.value == EventsAfter(view.log, cursor) && current == Moved(cursor, batch.value) && terminal == view.terminal
  {
    batch, terminal := PollOnce(view.log, cursor, view.terminal);
    current := cursor;
    if batch.Some? {
      current := Send(batch.value, cursor);
    }
  }

  /** The inner loop: the batch goes out event by event and moves the cursor along. */
  method Send(events: seq<Event>, cursor: Option<Event>) returns (current: Option<Event>)
    ensures current == Moved(cursor, events)
  {
    current := cursor;
    for i := 0 to |events|
      invariant current == Moved(cursor, events[..i])
    {
      current := Some(events[i]);
    }
    assert events[..|events|] == events;
  }

  /** With increasing timestamps a connection completes what the client had to the log of its last poll. */
  lemma {:induction false} SentCompletesTheLog(views: seq<View>, seen: seq<Event>, n: nat)
    requires AppendOnly(views) && 0 < n <= |views| && Increasing(views[n - 1].log) && seen <= views[0].log
    ensures seen + Sent(views, Cursor(seen), n) == views[n - 1].log
  {
    var before := Sent(views, Cursor(seen), n - 1);
    if n > 1 {
      assert Extends(views, n - 1);
      PrefixIncreasing(views[n - 2].log, views[n - 1].log);
      SentCompletesTheLog(views, seen, n - 1);
    } else {
      assert seen + before == seen;
    }
    BatchCompletes(views[n - 1].log, seen, before);
  }

  lemma BatchCompletes(log: seq<Event>, seen: seq<Event>, before: seq<Event>)
    requires Increasing(log) && seen + before <= log
    ensures seen + (before + EventsAfter(log, Moved(Cursor(seen), before))) == log
  {
    if before == [] {
      assert seen + before == seen;
    }
    PollDelivers(log, seen + before);
    var batch := EventsAfter(log, Cursor(seen + before));
    assert seen + (before + batch) == (seen + before) + batch;
  }

  /** With any timestamps a connection sends only events behind its cursor, in their order and none twice. */
  lemma {:induction false} SentAscends(views: seq<View>, cursor: Option<Event>, n: nat)
    requires AppendOnly(views) && 0 < n <= |views| && UniqueIds(views[n - 1].log)
    ensures Ascending(Sent(views, cursor, n))
    ensures forall i :: 0 <= i < |Sent(views, cursor, n)| && cursor.Some? ==>
      After(Sent(views, cursor, n)[i], cursor.value)
  {
    var before, log := Sent(views, cursor, n - 1), views[n - 1].log;
    if n > 1 {
      assert Extends(views, n - 1);
      PrefixUnique(views[n - 2].log, log);
      SentAscends(views, cursor, n - 1);
    }
    var batch := EventsAfter(log, Moved(cursor, before));
    AscendingJoin(before, Moved(cursor, before), log, |batch|);
    assert batch[..|batch|] == batch;
    if cursor.Some? {
      PolledAreAfter(log, Moved(cursor, before), cursor.value);
    }
  }
}
