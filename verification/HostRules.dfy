/** When a request may go and how far apart requests are kept, stated over the reservations and the steps alone. */
module HostRules {
  import opened HostScheduler

  // ---------------------------------------------------------------- reservations

  /** Reservation `p` is the last one on `h`. */
  ghost predicate LastOn(log: seq<Reservation>, h: Host, p: nat) {
    p < |log| && log[p].host == h && forall i :: 0 <= i < |log| && log[i].host == h ==> i <= p
  }

  ghost predicate NoneOn(log: seq<Reservation>, h: Host) {
    forall i :: 0 <= i < |log| ==> log[i].host != h
  }

  /** The next time on `h` is that of its last reservation and the interval in force then. */
  ghost predicate Paced(s: State, h: Host) {
    if h in s.nextAllowed then
      exists p: nat :: LastOn(s.log, h, p) && s.nextAllowed[h] == s.log[p].at + s.log[p].interval
    else NoneOn(s.log, h)
  }

  ghost predicate AllPaced(s: State) {
    forall h :: Paced(s, h)
  }

  lemma ReservePaces(l: Limits, s: State, t: Thread, now: real)
    requires AllPaced(s) && Enabled(s, Reserve(t, now))
    ensures AllPaced(Apply(l, s, Reserve(t, now)))
  {
    var next, n := Apply(l, s, Reserve(t, now)), |s.log|;
    forall h ensures Paced(next, h) {
      assert Paced(s, h);
      if h == s.threads[t].host {
        assert LastOn(next.log, h, n);
      } else if h in s.nextAllowed {
        var p: nat :| LastOn(s.log, h, p) && s.nextAllowed[h] == s.log[p].at + s.log[p].interval;
        assert LastOn(next.log, h, p);
      }
    }
  }

  lemma StepPaces(l: Limits, s: State, a: Step)
    requires AllPaced(s) && Enabled(s, a)
    ensures AllPaced(Apply(l, s, a))
  {
    if a.Reserve? {
      ReservePaces(l, s, a.t, a.now);
    } else {
      var next := Apply(l, s, a);
      forall h ensures Paced(next, h) {
        assert Paced(s, h);
      }
    }
  }

  lemma {:induction false} RunPaces(l: Limits, threads: set<Thread>, steps: seq<Step>)
    ensures AllPaced(Run(l, Initial(l, threads), steps))
  {
    if steps != [] {
      RunPaces(l, threads, steps[..|steps| - 1]);
      var before, a := Run(l, Initial(l, threads), steps[..|steps| - 1]), steps[|steps| - 1];
      if Enabled(before, a) {
        StepPaces(l, before, a);
      }
    }
  }

  /**
   * A request is not held back longer than the rule asks for: it reserves the time at which it comes, or, if that is
   * too early, the time of the last reservation on its host and the interval in force then.
   */
  lemma ReservationIsTight(l: Limits, s: State, t: Thread, now: real)
    requires Reachable(l, s) && Enabled(s, Reserve(t, now))
    ensures var next, h, n := Apply(l, s, Reserve(t, now)), s.threads[t].host, |s.log|;
      && |next.log| == n + 1 && next.log[..n] == s.log && next.log[n].host == h && next.log[n].at >= now
      && (NoneOn(s.log, h) ==> next.log[n].at == now)
      && (forall p: nat :: LastOn(s.log, h, p) ==>
            && next.log[n].at >= s.log[p].at + s.log[p].interval
            && (next.log[n].at == now || next.log[n].at == s.log[p].at + s.log[p].interval))
  {
    var threads: set<Thread> :| Later(l, Initial(l, threads), s);
    var steps :| s == Run(l, Initial(l, threads), steps);
    RunPaces(l, threads, steps);
    var h := s.threads[t].host;
    assert Paced(s, h);
    if h in s.nextAllowed {
      var p: nat :| LastOn(s.log, h, p) && s.nextAllowed[h] == s.log[p].at + s.log[p].interval;
      assert forall q: nat :: LastOn(s.log, h, q) ==> q == p;
    }
  }

  // ---------------------------------------------------------------- intervals

  /** Among the steps is one that asks for this interval on `h`. */
  ghost predicate Asked(steps: seq<Step>, h: Host, seconds: real) {
    exists k :: 0 <= k < |steps| && steps[k] == Slower(h, seconds)
  }

  /** `seconds` is the longest of the default interval and all that were asked for. */
  ghost predicate LongestAsked(l: Limits, steps: seq<Step>, h: Host, seconds: real) {
    && (seconds == l.interval || Asked(steps, h, seconds))
    && seconds >= l.interval && forall k :: 0 <= k < |steps| ==> AsksWithin(steps[k], h, seconds)
  }

  ghost predicate AsksWithin(a: Step, h: Host, seconds: real) {
    a.Slower? && a.host == h ==> a.seconds <= seconds
  }

  lemma LongestNext(l: Limits, steps: seq<Step>, a: Step, h: Host, before: real, after: real)
    requires LongestAsked(l, steps, h, before) && after >= before && AsksWithin(a, h, after)
    requires after == before || a == Slower(h, after)
    ensures LongestAsked(l, steps + [a], h, after)
  {
    var longer := steps + [a];
    if after == before {
      if k :| 0 <= k < |steps| && steps[k] == Slower(h, before) {
        assert longer[k] == Slower(h, after);
      }
    } else {
      assert longer[|steps|] == Slower(h, after);
    }
    forall k | 0 <= k < |longer| ensures AsksWithin(longer[k], h, after) {
      assert k < |steps| ==> AsksWithin(steps[k], h, before);
    }
  }

  /** After any steps whatever, the interval in force on a host is the longest of the default and all asked for. */
  lemma {:induction false} IntervalIsLongestAsked(l: Limits, threads: set<Thread>, steps: seq<Step>, h: Host)
    requires l.Valid()
    ensures LongestAsked(l, steps, h, IntervalOf(l, Run(l, Initial(l, threads), steps), h))
  {
    var s := Initial(l, threads);
    if steps != [] {
      var front, a := steps[..|steps| - 1], steps[|steps| - 1];
      IntervalIsLongestAsked(l, threads, front, h);
      LongestNext(l, front, a, h, IntervalOf(l, Run(l, s, front), h), IntervalOf(l, Run(l, s, steps), h));
      assert front + [a] == steps;
    }
  }

  /** Every reservation carries the interval in force when it was made. */
  lemma ReservedIntervalIsInForce(l: Limits, threads: set<Thread>, steps: seq<Step>, t: Thread, now: real)
    requires l.Valid() && Enabled(Run(l, Initial(l, threads), steps), Reserve(t, now))
    ensures var s := Run(l, Initial(l, threads), steps);
      LongestAsked(l, steps, s.threads[t].host, Apply(l, s, Reserve(t, now)).log[|s.log|].interval)
  {
    IntervalIsLongestAsked(l, threads, steps, Run(l, Initial(l, threads), steps).threads[t].host);
  }
}
