/** Threads sharing per-host and global request slots with minimum spacing, as an interleaving state machine. */
module HostScheduler {
  type Host = string
  type Thread = nat

  /** Where a thread stands in `slot`. */
  datatype Phase =
    | Idle
    | WantsGlobal(host: Host)
    | WantsHost(host: Host)
    | Admitted(host: Host)
    /** Waiting for the time of its reservation, the one at position `reservation` of the log. */
    | Reserved(host: Host, reservation: nat)
    | InSlot(host: Host)
    | Leaving(host: Host)

  datatype Reservation = Reservation(host: Host, at: real, interval: real)

  /** When the request of a reservation was let go. */
  datatype Start = Start(reservation: nat, at: real)

  datatype Limits = Limits(global: nat, perHost: nat, interval: real) {
    /** What the constructor checks. */
    predicate Valid() {
      global > 0 && perHost > 0 && interval >= 0.0
    }
  }

  datatype State = State(
    threads: map<Thread, Phase>, globalFree: nat, hostFree: map<Host, nat>,
    intervals: map<Host, real>, nextAllowed: map<Host, real>, log: seq<Reservation>, starts: seq<Start>)

  function Initial(l: Limits, threads: set<Thread>): State {
    State(map t | t in threads :: Idle, l.global, map[], map[], map[], [], [])
  }

  function IntervalOf(l: Limits, s: State, h: Host): real {
    if h in s.intervals then s.intervals[h] else l.interval
  }

  function Max(a: real, b: real): real {
    if a >= b then a else b
  }

  // ---------------------------------------------------------------- steps

  datatype Step =
    | Enter(t: Thread, host: Host)
    | TakeGlobal(t: Thread)
    | TakeHost(t: Thread)
    | Reserve(t: Thread, now: real)
    /**
     * The clock is read once more at `read`; the thread goes on at `woke`, after a sleep if its time is still ahead.
     */
    | Begin(t: Thread, read: real, woke: real)
    | GiveHost(t: Thread)
    | GiveGlobal(t: Thread)
    | Slower(host: Host, seconds: real)

  predicate Enabled(s: State, a: Step) {
    match a
    case Enter(t, _) => t in s.threads && s.threads[t] == Idle
    case TakeGlobal(t) => t in s.threads && s.threads[t].WantsGlobal? && s.globalFree > 0
    case TakeHost(t) =>
      && t in s.threads && s.threads[t].WantsHost?
      && s.threads[t].host in s.hostFree && s.hostFree[s.threads[t].host] > 0
    case Reserve(t, _) => t in s.threads && s.threads[t].Admitted?
    case Begin(t, read, woke) =>
      && t in s.threads && s.threads[t].Reserved? && s.threads[t].reservation < |s.log|
      && Waits(s.log[s.threads[t].reservation].at, read, woke)
    case GiveHost(t) =>
      t in s.threads && AtHost(s.threads[t]) && s.threads[t].host in s.hostFree
    case GiveGlobal(t) => t in s.threads && s.threads[t].Leaving?
    case Slower(_, seconds) => seconds >= 0.0
  }

  /** The phases that hold a host slot; a failure in any of them releases it. */
  predicate AtHost(p: Phase) {
    p.Admitted? || p.Reserved? || p.InSlot?
  }

  /** A sleep takes at least the delay that is left, and no sleep takes no negative time. */
  predicate Waits(scheduledAt: real, read: real, woke: real) {
    woke >= read && (scheduledAt - read > 0.0 ==> woke >= read + (scheduledAt - read))
  }

  /** `scheduled_at` of the reservation block. */
  function ScheduledAt(s: State, h: Host, now: real): real {
    if h in s.nextAllowed then Max(now, s.nextAllowed[h]) else now
  }

  function Apply(l: Limits, s: State, a: Step): State
    requires Enabled(s, a)
  {
    match a
    case Enter(t, h) =>
      s.(threads := s.threads[t := WantsGlobal(h)],
         hostFree := if h in s.hostFree then s.hostFree else s.hostFree[h := l.perHost])
    case TakeGlobal(t) => s.(threads := s.threads[t := WantsHost(s.threads[t].host)], globalFree := s.globalFree - 1)
    case TakeHost(t) =>
      var h := s.threads[t].host;
      s.(threads := s.threads[t := Admitted(h)], hostFree := s.hostFree[h := s.hostFree[h] - 1])
    case Reserve(t, now) =>
      var h := s.threads[t].host;
      var at, interval := ScheduledAt(s, h, now), IntervalOf(l, s, h);
      s.(threads := s.threads[t := Reserved(h, |s.log|)], nextAllowed := s.nextAllowed[h := at + interval],
         log := s.log + [Reservation(h, at, interval)])
    case Begin(t, _, woke) =>
      s.(threads := s.threads[t := InSlot(s.threads[t].host)],
         starts := s.starts + [Start(s.threads[t].reservation, woke)])
    case GiveHost(t) =>
      var h := s.threads[t].host;
      s.(threads := s.threads[t := Leaving(h)], hostFree := s.hostFree[h := s.hostFree[h] + 1])
    case GiveGlobal(t) => s.(threads := s.threads[t := Idle], globalFree := s.globalFree + 1)
    case Slower(h, seconds) => s.(intervals := s.intervals[h := Max(IntervalOf(l, s, h), seconds)])
  }

  // ---------------------------------------------------------------- counting threads

  function Having(threads: map<Thread, Phase>, test: Phase -> bool): set<Thread> {
    set t | t in threads && test(threads[t])
  }

  function HoldsGlobal(): Phase -> bool {
    (p: Phase) => p.WantsHost? || AtHost(p) || p.Leaving?
  }

  function HoldsHost(h: Host): Phase -> bool {
    (p: Phase) => AtHost(p) && p.host == h
  }

  lemma CountWithout(threads: map<Thread, Phase>, t: Thread, test: Phase -> bool)
    requires t in threads
    ensures |Having(threads, test)| == |Having(threads, test) - {t}| + if test(threads[t]) then 1 else 0
  {
    var all := Having(threads, test);
    if test(threads[t]) {
      assert all == (all - {t}) + {t};
    } else {
      assert all == all - {t};
    }
  }

  lemma CountMoves(threads: map<Thread, Phase>, t: Thread, p: Phase, test: Phase -> bool)
    requires t in threads
    ensures |Having(threads[t := p], test)|
      == |Having(threads, test)| - (if test(threads[t]) then 1 else 0) + (if test(p) then 1 else 0)
  {
    CountWithout(threads, t, test);
    CountWithout(threads[t := p], t, test);
    assert Having(threads[t := p], test) - {t} == Having(threads, test) - {t};
  }

  lemma NoneHaving(threads: map<Thread, Phase>, test: Phase -> bool)
    requires forall t :: t in threads ==> !test(threads[t])
    ensures Having(threads, test) == {}
  {
  }

  // ---------------------------------------------------------------- the slot invariant

  /** Free slots and holders add up to the limits. */
  ghost predicate SlotsBalance(l: Limits, s: State) {
    && s.globalFree + |Having(s.threads, HoldsGlobal())| == l.global
    && (forall h :: h in s.hostFree ==> HostBalances(l, s, h))
    && (forall t :: t in s.threads && !s.threads[t].Idle? ==> s.threads[t].host in s.hostFree)
  }

  ghost predicate HostBalances(l: Limits, s: State, h: Host)
    requires h in s.hostFree
  {
    s.hostFree[h] + |Having(s.threads, HoldsHost(h))| == l.perHost
  }

  lemma NobodyHolds(l: Limits, s: State, h: Host)
    requires SlotsBalance(l, s) && h !in s.hostFree
    ensures Having(s.threads, HoldsHost(h)) == {}
  {
    forall t | t in s.threads ensures !HoldsHost(h)(s.threads[t]) {
    }
  }

  /** The free slots that a step takes or returns are those its thread gains or loses. */
  lemma StepKeepsGlobal(l: Limits, s: State, a: Step)
    requires Enabled(s, a) && s.globalFree + |Having(s.threads, HoldsGlobal())| == l.global
    ensures var next := Apply(l, s, a); next.globalFree + |Having(next.threads, HoldsGlobal())| == l.global
  {
    if !a.Slower? {
      CountMoves(s.threads, a.t, Apply(l, s, a).threads[a.t], HoldsGlobal());
    }
  }

  lemma StepKeepsHost(l: Limits, s: State, a: Step, h: Host)
    requires Enabled(s, a) && h in s.hostFree && HostBalances(l, s, h)
    ensures h in Apply(l, s, a).hostFree && HostBalances(l, Apply(l, s, a), h)
  {
    if !a.Slower? {
      CountMoves(s.threads, a.t, Apply(l, s, a).threads[a.t], HoldsHost(h));
    }
  }

  lemma NewHostBalances(l: Limits, s: State, a: Step, h: Host)
    requires SlotsBalance(l, s) && Enabled(s, a) && h !in s.hostFree && h in Apply(l, s, a).hostFree
    ensures HostBalances(l, Apply(l, s, a), h)
  {
    CountMoves(s.threads, a.t, Apply(l, s, a).threads[a.t], HoldsHost(h));
    NobodyHolds(l, s, h);
  }

  lemma StepKeepsBalance(l: Limits, s: State, a: Step)
    requires SlotsBalance(l, s) && Enabled(s, a)
    ensures SlotsBalance(l, Apply(l, s, a))
  {
    var next := Apply(l, s, a);
    StepKeepsGlobal(l, s, a);
    forall h | h in next.hostFree ensures HostBalances(l, next, h) {
      if h in s.hostFree {
        StepKeepsHost(l, s, a, h);
      } else {
        NewHostBalances(l, s, a, h);
      }
    }
  }

  // ---------------------------------------------------------------- the spacing invariant

  /** The intervals in force at the reservations on `h` from position `i` on, added up. */
  function Spacing(log: seq<Reservation>, h: Host, i: nat): real
    decreases |log| - i
  {
    if i >= |log| then 0.0
    else (if log[i].host == h then log[i].interval else 0.0) + Spacing(log, h, i + 1)
  }

  /** The next reservation on `h` cannot come before reservation `i` plus all spacing since. */
  ghost predicate Spaced(s: State, i: nat)
    requires i < |s.log|
  {
    s.log[i].host in s.nextAllowed && s.nextAllowed[s.log[i].host] >= s.log[i].at + Spacing(s.log, s.log[i].host, i)
  }

  /** A later reservation keeps its distance from an earlier one on the same host. */
  ghost predicate Apart(log: seq<Reservation>, i: nat, j: nat)
    requires i < j < |log|
  {
    log[i].host == log[j].host ==> log[j].at >= log[i].at + Spacing(log[..j], log[i].host, i)
  }

  ghost predicate SpacingKept(l: Limits, s: State) {
    && (forall h :: h in s.intervals ==> s.intervals[h] >= l.interval)
    && (forall i :: 0 <= i < |s.log| ==> s.log[i].interval >= l.interval)
    && (forall i :: 0 <= i < |s.log| ==> Spaced(s, i))
    && (forall i, j :: 0 <= i < j < |s.log| ==> Apart(s.log, i, j))
  }

  lemma {:induction false} SpacingAppends(log: seq<Reservation>, r: Reservation, h: Host, i: nat)
    requires i <= |log|
    ensures Spacing(log + [r], h, i) == Spacing(log, h, i) + if r.host == h then r.interval else 0.0
    decreases |log| - i
  {
    if i < |log| {
      SpacingAppends(log, r, h, i + 1);
    }
  }

  lemma ReserveKeepsSpacing(l: Limits, s: State, t: Thread, now: real)
    requires l.Valid() && SpacingKept(l, s) && Enabled(s, Reserve(t, now))
    ensures SpacingKept(l, Apply(l, s, Reserve(t, now)))
  {
    var next := Apply(l, s, Reserve(t, now));
    var r := next.log[|s.log|];
    forall i | 0 <= i < |next.log| ensures Spaced(next, i) {
      if i < |s.log| {
        assert Spaced(s, i);
        SpacingAppends(s.log, r, next.log[i].host, i);
      } else {
        SpacingAppends(s.log, r, r.host, i);
      }
    }
    forall i, j | 0 <= i < j < |next.log| ensures Apart(next.log, i, j) {
      if j < |s.log| {
        assert Apart(s.log, i, j);
        assert next.log[..j] == s.log[..j];
      } else {
        assert Spaced(s, i);
        assert next.log[..j] == s.log;
      }
    }
  }

  lemma StepKeepsSpacing(l: Limits, s: State, a: Step)
    requires l.Valid() && SpacingKept(l, s) && Enabled(s, a)
    ensures SpacingKept(l, Apply(l, s, a))
  {
    if a.Reserve? {
      ReserveKeepsSpacing(l, s, a.t, a.now);
    } else {
      var next := Apply(l, s, a);
      forall i | 0 <= i < |next.log| ensures Spaced(next, i) {
        assert Spaced(s, i);
      }
    }
  }

  // ---------------------------------------------------------------- the invariant of starts

  /** A waiting thread has a reservation of its host. */
  ghost predicate HasReservation(s: State, t: Thread)
    requires t in s.threads && s.threads[t].Reserved?
  {
    s.threads[t].reservation < |s.log| && s.log[s.threads[t].reservation].host == s.threads[t].host
  }

  /** A request started for a reservation, and not before its time. */
  ghost predicate InTime(s: State, k: nat)
    requires k < |s.starts|
  {
    s.starts[k].reservation < |s.log| && s.starts[k].at >= s.log[s.starts[k].reservation].at
  }

  ghost predicate Waiting(s: State, t: Thread, reservation: nat) {
    t in s.threads && s.threads[t].Reserved? && s.threads[t].reservation == reservation
  }

  /** No reservation is used twice: by two waiting threads, two starts, or one of each. */
  ghost predicate UsedOnce(s: State) {
    && (forall t, u, r: nat :: Waiting(s, t, r) && Waiting(s, u, r) ==> t == u)
    && (forall t, k :: 0 <= k < |s.starts| ==> !Waiting(s, t, s.starts[k].reservation))
    && (forall j, k :: 0 <= j < k < |s.starts| ==> s.starts[j].reservation != s.starts[k].reservation)
  }

  ghost predicate StartsOk(s: State) {
    && (forall t :: t in s.threads && s.threads[t].Reserved? ==> HasReservation(s, t))
    && (forall k :: 0 <= k < |s.starts| ==> InTime(s, k))
    && UsedOnce(s)
  }

  lemma ReserveKeepsStarts(l: Limits, s: State, t: Thread, now: real)
    requires StartsOk(s) && Enabled(s, Reserve(t, now))
    ensures StartsOk(Apply(l, s, Reserve(t, now)))
  {
    var next := Apply(l, s, Reserve(t, now));
    forall u | u in next.threads && next.threads[u].Reserved? ensures HasReservation(next, u) {
      assert u != t ==> HasReservation(s, u);
    }
    forall k | 0 <= k < |next.starts| ensures InTime(next, k) {
      assert InTime(s, k);
    }
    forall u, r: nat ensures Waiting(next, u, r) <==> (u == t && r == |s.log|) || (u != t && Waiting(s, u, r)) {
    }
    forall u, k | 0 <= k < |next.starts| ensures !Waiting(next, u, next.starts[k].reservation) {
      assert InTime(s, k) && !Waiting(s, u, s.starts[k].reservation);
    }
    forall u, v, r: nat | Waiting(next, u, r) && Waiting(next, v, r) ensures u == v {
      assert u != t ==> HasReservation(s, u);
      assert v != t ==> HasReservation(s, v);
    }
  }

  lemma BeginKeepsStarts(l: Limits, s: State, a: Step)
    requires StartsOk(s) && a.Begin? && Enabled(s, a)
    ensures StartsOk(Apply(l, s, a))
  {
    var next := Apply(l, s, a);
    var mine := s.threads[a.t].reservation;
    assert Waiting(s, a.t, mine);
    forall u, r: nat ensures Waiting(next, u, r) <==> u != a.t && Waiting(s, u, r) {
    }
    forall u | u in next.threads && next.threads[u].Reserved? ensures HasReservation(next, u) {
      assert HasReservation(s, u);
    }
    forall k | 0 <= k < |next.starts| ensures InTime(next, k) {
      assert k < |s.starts| ==> InTime(s, k);
    }
    forall u, k | 0 <= k < |next.starts| ensures !Waiting(next, u, next.starts[k].reservation) {
      if k < |s.starts| {
        assert !Waiting(s, u, s.starts[k].reservation);
      }
    }
    forall j, k | 0 <= j < k < |next.starts| ensures next.starts[j].reservation != next.starts[k].reservation {
      assert !Waiting(s, a.t, s.starts[j].reservation);
    }
  }

  lemma StepKeepsStarts(l: Limits, s: State, a: Step)
    requires StartsOk(s) && Enabled(s, a)
    ensures StartsOk(Apply(l, s, a))
  {
    if a.Reserve? {
      ReserveKeepsStarts(l, s, a.t, a.now);
    } else if a.Begin? {
      BeginKeepsStarts(l, s, a);
    } else {
      var next := Apply(l, s, a);
      forall u, r: nat | Waiting(next, u, r) ensures Waiting(s, u, r) {
      }
      forall u | u in next.threads && next.threads[u].Reserved? ensures HasReservation(next, u) {
        assert HasReservation(s, u);
      }
      forall k | 0 <= k < |next.starts| ensures InTime(next, k) {
        assert InTime(s, k);
      }
    }
  }

  // ---------------------------------------------------------------- all interleavings

  ghost function Run(l: Limits, s: State, steps: seq<Step>): State {
    if steps == [] then s
    else
      var before := Run(l, s, steps[..|steps| - 1]);
      var a := steps[|steps| - 1];
      if Enabled(before, a) then Apply(l, before, a) else before
  }

  ghost predicate Later(l: Limits, s: State, t: State) {
    exists steps :: t == Run(l, s, steps)
  }

  ghost predicate Reachable(l: Limits, s: State) {
    exists threads: set<Thread> :: Later(l, Initial(l, threads), s)
  }

  ghost predicate Sound(l: Limits, s: State) {
    SlotsBalance(l, s) && SpacingKept(l, s) && StartsOk(s)
  }

  lemma InitiallySound(l: Limits, threads: set<Thread>)
    requires l.Valid()
    ensures Sound(l, Initial(l, threads))
  {
    assert Having(Initial(l, threads).threads, HoldsGlobal()) == {};
  }

  /** Every interval in force stays or grows. */
  ghost predicate NoFaster(l: Limits, s: State, t: State) {
    forall h :: IntervalOf(l, s, h) <= IntervalOf(l, t, h)
  }

  lemma {:induction false} RunKeepsSound(l: Limits, s: State, steps: seq<Step>)
    requires l.Valid() && Sound(l, s)
    ensures Sound(l, Run(l, s, steps)) && NoFaster(l, s, Run(l, s, steps)) && s.log <= Run(l, s, steps).log
  {
    if steps != [] {
      RunKeepsSound(l, s, steps[..|steps| - 1]);
      var before, a := Run(l, s, steps[..|steps| - 1]), steps[|steps| - 1];
      if Enabled(before, a) {
        StepKeepsBalance(l, before, a);
        StepKeepsSpacing(l, before, a);
        StepKeepsStarts(l, before, a);
      }
    }
  }

  lemma ReachableIsSound(l: Limits, s: State)
    requires l.Valid() && Reachable(l, s)
    ensures Sound(l, s)
  {
    var threads: set<Thread> :| Later(l, Initial(l, threads), s);
    InitiallySound(l, threads);
    var steps :| s == Run(l, Initial(l, threads), steps);
    RunKeepsSound(l, Initial(l, threads), steps);
  }

  // ---------------------------------------------------------------- what every interleaving guarantees

  /** At most the global number of threads hold a slot, and at most the host's number are admitted per host. */
  lemma InFlightIsBounded(l: Limits, s: State, h: Host)
    requires l.Valid() && Reachable(l, s)
    ensures |Having(s.threads, HoldsGlobal())| <= l.global && |Having(s.threads, HoldsHost(h))| <= l.perHost
  {
    ReachableIsSound(l, s);
    if h in s.hostFree {
      assert HostBalances(l, s, h);
    } else {
      NobodyHolds(l, s, h);
    }
  }

  /** Two reservations on one host are at least the intervals in force at all reservations between them apart. */
  lemma ReservationsAreSpaced(l: Limits, s: State, i: nat, j: nat)
    requires l.Valid() && Reachable(l, s) && i < j < |s.log| && s.log[i].host == s.log[j].host
    ensures s.log[j].at >= s.log[i].at + Spacing(s.log[..j], s.log[i].host, i)
    ensures s.log[i].interval >= l.interval
  {
    ReachableIsSound(l, s);
    assert Apart(s.log, i, j);
  }

  /** No request starts before the time it has reserved, and each reservation lets at most one request go. */
  lemma NoRequestStartsEarly(l: Limits, s: State, k: nat)
    requires l.Valid() && Reachable(l, s) && k < |s.starts|
    ensures s.starts[k].reservation < |s.log| && s.starts[k].at >= s.log[s.starts[k].reservation].at
    ensures forall j :: 0 <= j < |s.starts| && j != k ==> s.starts[j].reservation != s.starts[k].reservation
  {
    ReachableIsSound(l, s);
    assert InTime(s, k);
  }

  /** How much later than reserved a request started. */
  function Lateness(s: State, k: nat): real
    requires k < |s.starts| && s.starts[k].reservation < |s.log|
  {
    s.starts[k].at - s.log[s.starts[k].reservation].at
  }

  /**
   * The requests themselves are spaced less strictly: the later one may come nearer by as much as the earlier one was
   * late. With an earlier request on time the full spacing is kept.
   */
  lemma StartsAreSpacedUpToLateness(l: Limits, s: State, j: nat, k: nat)
    requires l.Valid() && Reachable(l, s) && j < |s.starts| && k < |s.starts|
    requires s.starts[j].reservation < s.starts[k].reservation < |s.log|
    requires s.log[s.starts[j].reservation].host == s.log[s.starts[k].reservation].host
    ensures var i := s.starts[j].reservation; var m := s.starts[k].reservation;
      && Lateness(s, j) >= 0.0
      && s.starts[k].at >= s.starts[j].at + Spacing(s.log[..m], s.log[i].host, i) - Lateness(s, j)
  {
    NoRequestStartsEarly(l, s, j);
    NoRequestStartsEarly(l, s, k);
    ReservationsAreSpaced(l, s, s.starts[j].reservation, s.starts[k].reservation);
  }

  lemma RunStep(l: Limits, s: State, steps: seq<Step>, a: Step)
    ensures Run(l, s, steps + [a])
      == var before := Run(l, s, steps); if Enabled(before, a) then Apply(l, before, a) else before
  {
    assert (steps + [a])[..|steps|] == steps;
  }

  const ONE_HOST := "host"
  const TWO_AT_ONCE := Limits(2, 2, 10.0)

  const TWO_THREADS := Initial(TWO_AT_ONCE, {0, 1})

  /** Both threads get their slots. */
  const BOTH_ENTER: seq<Step> := [Enter(0, ONE_HOST)] + [Enter(1, ONE_HOST)] + [TakeGlobal(0)]
  const BOTH_ADMITTED: seq<Step> := BOTH_ENTER + [TakeGlobal(1)] + [TakeHost(0)] + [TakeHost(1)]

  /** They reserve at time 0; the first oversleeps, the second starts on time. */
  const OVERSLEEPING: seq<Step> :=
    BOTH_ADMITTED + [Reserve(0, 0.0)] + [Reserve(1, 0.0)] + [Begin(0, 0.0, 9.0)] + [Begin(1, 0.0, 10.0)]

  lemma BothEnter()
    ensures Run(TWO_AT_ONCE, TWO_THREADS, BOTH_ENTER)
      == State(map[0 := WantsHost(ONE_HOST), 1 := WantsGlobal(ONE_HOST)], 1, map[ONE_HOST := 2], map[], map[], [], [])
  {
    var l, s := TWO_AT_ONCE, TWO_THREADS;
    var a, b := Enter(0, ONE_HOST), Enter(1, ONE_HOST);
    assert s == State(map[0 := Idle, 1 := Idle], 2, map[], map[], map[], [], []);
    RunStep(l, s, [], a);
    assert [] + [a] == [a];
    RunStep(l, s, [a], b);
    RunStep(l, s, [a] + [b], TakeGlobal(0));
  }

  lemma BothAdmitted()
    ensures Run(TWO_AT_ONCE, TWO_THREADS, BOTH_ADMITTED)
      == State(map[0 := Admitted(ONE_HOST), 1 := Admitted(ONE_HOST)], 0, map[ONE_HOST := 0], map[], map[], [], [])
  {
    var l, s := TWO_AT_ONCE, TWO_THREADS;
    BothEnter();
    RunStep(l, s, BOTH_ENTER, TakeGlobal(1));
    RunStep(l, s, BOTH_ENTER + [TakeGlobal(1)], TakeHost(0));
    RunStep(l, s, BOTH_ENTER + [TakeGlobal(1)] + [TakeHost(0)], TakeHost(1));
  }

  lemma BothReserved()
    ensures var s := Run(TWO_AT_ONCE, TWO_THREADS, BOTH_ADMITTED + [Reserve(0, 0.0)] + [Reserve(1, 0.0)]);
      && s.threads == map[0 := Reserved(ONE_HOST, 0), 1 := Reserved(ONE_HOST, 1)] && s.starts == []
      && s.log == [Reservation(ONE_HOST, 0.0, 10.0), Reservation(ONE_HOST, 10.0, 10.0)]
  {
    BothAdmitted();
    RunStep(TWO_AT_ONCE, TWO_THREADS, BOTH_ADMITTED, Reserve(0, 0.0));
    RunStep(TWO_AT_ONCE, TWO_THREADS, BOTH_ADMITTED + [Reserve(0, 0.0)], Reserve(1, 0.0));
  }

  /** An instance: with an interval of ten seconds the second request starts one second after the first. */
  lemma OversleepingBringsStartsTogether()
    ensures var s := Run(TWO_AT_ONCE, TWO_THREADS, OVERSLEEPING);
      && s.starts == [Start(0, 9.0), Start(1, 10.0)]
      && s.log == [Reservation(ONE_HOST, 0.0, 10.0), Reservation(ONE_HOST, 10.0, 10.0)]
  {
    var reserved := BOTH_ADMITTED + [Reserve(0, 0.0)] + [Reserve(1, 0.0)];
    BothReserved();
    RunStep(TWO_AT_ONCE, TWO_THREADS, reserved, Begin(0, 0.0, 9.0));
    RunStep(TWO_AT_ONCE, TWO_THREADS, reserved + [Begin(0, 0.0, 9.0)], Begin(1, 0.0, 10.0));
  }

  /** A host's interval never shrinks. */
  lemma IntervalsNeverShrink(l: Limits, s: State, t: State, h: Host)
    requires l.Valid() && Reachable(l, s) && Later(l, s, t)
    ensures IntervalOf(l, s, h) <= IntervalOf(l, t, h)
  {
    ReachableIsSound(l, s);
    var steps :| t == Run(l, s, steps);
    RunKeepsSound(l, s, steps);
  }

  /** The steps a thread still has to take to leave `slot`. */
  function Remaining(p: Phase): nat {
    match p
    case Idle => 0
    case WantsGlobal(_) => 6
    case WantsHost(_) => 5
    case Admitted(_) => 4
    case Reserved(_, _) => 3
    case InSlot(_) => 2
    case Leaving(_) => 1
  }

  /** The next step of a thread inside `slot`; one that waits goes on at its time, or now if that is over. */
  function NextStep(s: State, t: Thread, now: real): Step
    requires t in s.threads && s.threads[t] != Idle
    requires s.threads[t].Reserved? ==> s.threads[t].reservation < |s.log|
  {
    match s.threads[t]
    case WantsGlobal(_) => TakeGlobal(t)
    case WantsHost(_) => TakeHost(t)
    case Admitted(_) => Reserve(t, now)
    case Reserved(_, r) => Begin(t, now, Max(now, s.log[r].at))
    case InSlot(_) => GiveHost(t)
    case Leaving(_) => GiveGlobal(t)
  }

  /** Some thread inside `slot` can take its next step, which brings it nearer to leaving. */
  ghost predicate CanProceed(l: Limits, s: State, t: Thread, now: real) {
    && t in s.threads && s.threads[t] != Idle
    && (s.threads[t].Reserved? ==> s.threads[t].reservation < |s.log|)
    && var a := NextStep(s, t, now);
    && Enabled(s, a)
    && Remaining(Apply(l, s, a).threads[t]) < Remaining(s.threads[t])
    && forall u :: u in s.threads && u != t ==> Apply(l, s, a).threads[u] == s.threads[u]
  }

  /** A thread that waits for no semaphore can always go on. */
  lemma HolderProceeds(l: Limits, s: State, t: Thread, now: real)
    requires t in s.threads && (AtHost(s.threads[t]) || s.threads[t].Leaving?) && s.threads[t].host in s.hostFree
    requires s.threads[t].Reserved? ==> HasReservation(s, t)
    ensures CanProceed(l, s, t, now)
  {
  }

  /** When nobody holds a host slot, a thread that waits for one gets it. */
  lemma HostSlotIsFree(l: Limits, s: State, t: Thread, now: real)
    requires l.Valid() && Sound(l, s) && t in s.threads && s.threads[t].WantsHost?
    requires forall u :: u in s.threads ==> !AtHost(s.threads[u])
    ensures CanProceed(l, s, t, now)
  {
    assert HostBalances(l, s, s.threads[t].host);
    NoneHaving(s.threads, HoldsHost(s.threads[t].host));
  }

  /** When nobody holds a global slot, a thread that waits for one gets it. */
  lemma GlobalSlotIsFree(l: Limits, s: State, t: Thread, now: real)
    requires l.Valid() && Sound(l, s) && t in s.threads && s.threads[t].WantsGlobal?
    requires forall u :: u in s.threads ==> !HoldsGlobal()(s.threads[u])
    ensures CanProceed(l, s, t, now)
  {
    NoneHaving(s.threads, HoldsGlobal());
  }

  /** No reachable state is deadlocked: whenever a thread is inside `slot`, one of them can proceed. */
  lemma NeverDeadlocked(l: Limits, s: State, busy: Thread, now: real) returns (t: Thread)
    requires l.Valid() && Reachable(l, s) && busy in s.threads && s.threads[busy] != Idle
    ensures CanProceed(l, s, t, now)
  {
    ReachableIsSound(l, s);
    if u :| u in s.threads && (AtHost(s.threads[u]) || s.threads[u].Leaving?) {
      HolderProceeds(l, s, u, now);
      return u;
    } else if u :| u in s.threads && s.threads[u].WantsHost? {
      HostSlotIsFree(l, s, u, now);
      return u;
    } else {
      GlobalSlotIsFree(l, s, busy, now);
      return busy;
    }
  }

  function At(remaining: nat): Phase -> bool {
    (p: Phase) => Remaining(p) == remaining
  }

  /** The steps that all threads together still have to take. */
  function Load(threads: map<Thread, Phase>): nat {
    6 * |Having(threads, At(6))| + 5 * |Having(threads, At(5))| + 4 * |Having(threads, At(4))|
      + 3 * |Having(threads, At(3))|
    + 2 * |Having(threads, At(2))| + |Having(threads, At(1))|
  }

  lemma LoadFalls(threads: map<Thread, Phase>, t: Thread, p: Phase)
    requires t in threads && Remaining(p) < Remaining(threads[t])
    ensures Load(threads[t := p]) < Load(threads)
  {
    CountMoves(threads, t, p, At(6));
    CountMoves(threads, t, p, At(5));
    CountMoves(threads, t, p, At(4));
    CountMoves(threads, t, p, At(3));
    CountMoves(threads, t, p, At(2));
    CountMoves(threads, t, p, At(1));
  }

  lemma {:induction false} RunConcat(l: Limits, s: State, a: seq<Step>, b: seq<Step>)
    ensures Run(l, Run(l, s, a), b) == Run(l, s, a + b)
  {
    if b == [] {
      assert a + b == a;
    } else {
      RunConcat(l, s, a, b[..|b| - 1]);
      assert (a + b)[..|a + b| - 1] == a + b[..|b| - 1];
    }
  }

  lemma StepStaysReachable(l: Limits, s: State, a: Step)
    requires Reachable(l, s) && Enabled(s, a)
    ensures Reachable(l, Apply(l, s, a)) && Run(l, s, [a]) == Apply(l, s, a)
  {
    var threads: set<Thread> :| Later(l, Initial(l, threads), s);
    var steps :| s == Run(l, Initial(l, threads), steps);
    assert Run(l, s, []) == s && [a][..0] == [];
    RunConcat(l, Initial(l, threads), steps, [a]);
    assert Later(l, Initial(l, threads), Apply(l, s, a));
  }

  /** From every reachable state the threads inside `slot` can all leave it, whatever has been reserved. */
  lemma {:induction false} EveryoneCanLeave(l: Limits, s: State, now: real) returns (steps: seq<Step>)
    requires l.Valid() && Reachable(l, s)
    ensures forall t :: t in Run(l, s, steps).threads ==> Run(l, s, steps).threads[t] == Idle
    decreases Load(s.threads)
  {
    if busy :| busy in s.threads && s.threads[busy] != Idle {
      var t := NeverDeadlocked(l, s, busy, now);
      var a := NextStep(s, t, now);
      var next := Apply(l, s, a);
      LoadFalls(s.threads, t, next.threads[t]);
      StepStaysReachable(l, s, a);
      assert next.threads == s.threads[t := next.threads[t]];
      var rest := EveryoneCanLeave(l, next, now);
      RunConcat(l, s, [a], rest);
      return [a] + rest;
    }
    return [];
  }

  // ---------------------------------------------------------------- the object

  /** The scheduler's own dictionaries; the two blocks under its lock, as they run. */
  class HostAccessScheduler {
    const limits: Limits
    var hostFree: map<Host, nat>
    var intervals: map<Host, real>
    var nextAllowed: map<Host, real>
    ghost var log: seq<Reservation>
    ghost var starts: seq<Start>

    ghost function View(threads: map<Thread, Phase>, globalFree: nat): State
      reads this
    {
      State(threads, globalFree, hostFree, intervals, nextAllowed, log, starts)
    }

    constructor (limits: Limits)
      requires limits.Valid()
      ensures this.limits == limits
      ensures forall threads: set<Thread> ::
        View(Initial(limits, threads).threads, limits.global) == Initial(limits, threads)
    {
      this.limits := limits;
      hostFree, intervals, nextAllowed, log, starts := map[], map[], map[], [], [];
    }

    /** The reservation block of `slot`. */
    method ReserveSlot(hostname: Host, now: real, ghost threads: map<Thread, Phase>, ghost globalFree: nat,
                       ghost t: Thread)
      returns (scheduledAt: real)
      requires Enabled(View(threads, globalFree), Reserve(t, now)) && threads[t].host == hostname
      modifies this`nextAllowed, this`log
      ensures View(threads[t := Reserved(hostname, |old(log)|)], globalFree)
        == Apply(limits, old(View(threads, globalFree)), Reserve(t, now))
      ensures scheduledAt >= now && log == old(log) + [Reservation(hostname, scheduledAt, log[|old(log)|].interval)]
    {
      var earliest := if hostname in nextAllowed then nextAllowed[hostname] else now;
      scheduledAt := if now >= earliest then now else earliest;
      var interval := if hostname in intervals then intervals[hostname] else limits.interval;
      nextAllowed := nextAllowed[hostname := scheduledAt + interval];
      log := log + [Reservation(hostname, scheduledAt, interval)];
    }

    /** The wait for the reserved time; a sleep may take longer than asked for, by `over`. */
    method AwaitTurn(scheduledAt: real, read: real, over: real, ghost threads: map<Thread, Phase>,
                     ghost globalFree: nat, ghost t: Thread)
      returns (woke: real)
      requires over >= 0.0 && t in threads && threads[t].Reserved? && threads[t].reservation < |log|
      requires log[threads[t].reservation].at == scheduledAt
      modifies this`starts
      ensures Enabled(old(View(threads, globalFree)), Begin(t, read, woke))
      ensures View(threads[t := InSlot(threads[t].host)], globalFree)
        == Apply(limits, old(View(threads, globalFree)), Begin(t, read, woke))
    {
      var delay := scheduledAt - read;
      woke := read;
      if delay > 0.0 {
        woke := read + delay + over;
      }
      starts := starts + [Start(threads[t].reservation, woke)];
    }

    /** `update_host_interval`; a negative interval is refused. */
    method UpdateHostInterval(hostname: Host, seconds: real, ghost threads: map<Thread, Phase>, ghost globalFree: nat)
      returns (accepted: bool)
      modifies this`intervals
      ensures accepted <==> seconds >= 0.0
      ensures View(threads, globalFree)
        == if accepted then Apply(limits, old(View(threads, globalFree)), Slower(hostname, seconds))
           else old(View(threads, globalFree))
    {
      if seconds < 0.0 {
        return false;
      }
      var current := if hostname in intervals then intervals[hostname] else limits.interval;
      intervals := intervals[hostname := if current >= seconds then current else seconds];
      return true;
    }
  }
}
