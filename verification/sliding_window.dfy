/**
 The rate limiter over whole traces of calls, compared with a true sliding
 window.

 `Run` replays a trace from the empty table. The reference is stated on the
 timestamps of every call a user ever had admitted, none of them dropped:
 `Recent` keeps those that are not expired at a given instant. When every user's
 clock readings never go backwards, the limiter's decision on each call is
 exactly "fewer than `MaxRequests` admitted calls are recent", and after every
 call at most `MaxRequests` admitted calls lie in the window ending at it.
 */
module SlidingWindow {
  import opened RateLimiter

  /** The records of `h` that are not expired at `now`, in their order. */
  function Recent(h: Log, now: Timestamp): (r: Log)
    ensures |r| <= |h|
    ensures forall t :: t in r ==> t in h
    decreases |h|
  {
    if h == [] then []
    else (if Expired(h[0], now) then [] else [h[0]]) + Recent(h[1..], now)
  }

  /** The table after replaying `calls` from the empty one. Whatever the clock
      does, no user's log ever holds more than `MaxRequests` records. */
  function Run(calls: seq<Call>): (s: State)
    ensures forall u :: |LogOf(s, u)| <= MaxRequests
    decreases |calls|
  {
    if calls == [] then map[]
    else
      var s0 := Run(calls[..|calls| - 1]);
      var c := calls[|calls| - 1];
      assert |LogOf(s0, c.user)| <= MaxRequests;
      Step(s0, c).0
  }

  /** The outcome of call `i` of a trace replayed from the empty table. */
  function Decide(calls: seq<Call>, i: nat): Outcome
    requires i < |calls|
  {
    Step(Run(calls[..i]), calls[i]).1
  }

  /** The times of the calls of `u` that the limiter admitted, in the order the
      calls arrived. */
  function AdmittedTimes(calls: seq<Call>, u: UserId): Log
    decreases |calls|
  {
    if calls == [] then []
    else
      var c := calls[|calls| - 1];
      AdmittedTimes(calls[..|calls| - 1], u)
      + (if c.user == u && Step(Run(calls[..|calls| - 1]), c).1.Admitted? then [c.now] else [])
  }

  /** Each user's clock readings never go backwards along the trace. */
  predicate PerUserMonotone(calls: seq<Call>)
  {
    forall i, j :: 0 <= i < j < |calls| && calls[i].user == calls[j].user ==> calls[i].now <= calls[j].now
  }

  /** `now` is no earlier than any call of `u` in the trace. */
  predicate NotBefore(calls: seq<Call>, u: UserId, now: Timestamp)
  {
    forall j :: 0 <= j < |calls| && calls[j].user == u ==> calls[j].now <= now
  }

  /** The recent records are exactly the records of `h` not expired at `now`. */
  lemma {:induction false} RecentMembers(h: Log, now: Timestamp)
    ensures forall t :: t in Recent(h, now) <==> t in h && !Expired(t, now)
    decreases |h|
  {
    if h != [] {
      RecentMembers(h[1..], now);
      assert h == [h[0]] + h[1..];
    }
  }

  lemma {:induction false} RecentConcat(a: Log, b: Log, now: Timestamp)
    ensures Recent(a + b, now) == Recent(a, now) + Recent(b, now)
    decreases |a|
  {
    if a != [] {
      var head := if Expired(a[0], now) then [] else [a[0]];
      assert (a + b)[0] == a[0] && (a + b)[1..] == a[1..] + b;
      RecentConcat(a[1..], b, now);
      calc {
        Recent(a + b, now);
        head + Recent(a[1..] + b, now);
        head + (Recent(a[1..], now) + Recent(b, now));
        (head + Recent(a[1..], now)) + Recent(b, now);
      }
    } else {
      assert a + b == b;
    }
  }

  /** Dropping what is expired at an earlier instant first changes nothing. */
  lemma {:induction false} RecentCompose(h: Log, earlier: Timestamp, now: Timestamp)
    requires earlier <= now
    ensures Recent(Recent(h, earlier), now) == Recent(h, now)
    decreases |h|
  {
    if h != [] {
      RecentCompose(h[1..], earlier, now);
      var head := if Expired(h[0], earlier) then [] else [h[0]];
      RecentConcat(head, Recent(h[1..], earlier), now);
    }
  }

  /** A log with nothing expired is its own recent part. */
  lemma {:induction false} RecentOfFresh(h: Log, now: Timestamp)
    requires forall i :: 0 <= i < |h| ==> !Expired(h[i], now)
    ensures Recent(h, now) == h
    decreases |h|
  {
    if h != [] {
      RecentOfFresh(h[1..], now);
    }
  }

  /** The recent part of a sorted log is sorted. */
  lemma {:induction false} RecentSorted(h: Log, now: Timestamp)
    requires Sorted(h)
    ensures Sorted(Recent(h, now))
    decreases |h|
  {
    if h != [] {
      RecentSorted(h[1..], now);
      var rest := Recent(h[1..], now);
      var r := Recent(h, now);
      if !Expired(h[0], now) {
        forall i, j | 0 <= i < j < |r|
          ensures r[i] <= r[j]
        {
          if i == 0 {
            assert r[j] == rest[j - 1] && rest[j - 1] in h[1..];
          } else {
            assert r[i] == rest[i - 1] && r[j] == rest[j - 1];
          }
        }
      }
    }
  }

  /** On a sorted log, trimming the expired head is the reference filter: no
      expired record hides behind a fresh one. */
  lemma {:induction false} TrimSortedIsRecent(h: Log, now: Timestamp)
    requires Sorted(h)
    ensures Trim(h, now) == Recent(h, now)
    decreases |h|
  {
    if h != [] {
      if Expired(h[0], now) {
        TrimSortedIsRecent(h[1..], now);
      } else {
        RecentOfFresh(h, now);
      }
    }
  }

  lemma PrefixMonotone(calls: seq<Call>, k: nat)
    requires PerUserMonotone(calls) && k <= |calls|
    ensures PerUserMonotone(calls[..k])
  {
  }

  /** Every admitted time of `u` is the time of one of `u`'s calls, so none is
      later than an instant no earlier than all of them. */
  lemma {:induction false} AdmittedNotAfter(calls: seq<Call>, u: UserId, now: Timestamp)
    requires NotBefore(calls, u, now)
    ensures forall t :: t in AdmittedTimes(calls, u) ==> t <= now
    decreases |calls|
  {
    if calls != [] {
      var init := calls[..|calls| - 1];
      NotBeforeInit(calls, u, now);
      AdmittedNotAfter(init, u, now);
    }
  }

  /** Along a trace with per-user monotone clocks the admitted times of each
      user are in order. */
  lemma {:induction false} AdmittedSorted(calls: seq<Call>, u: UserId)
    requires PerUserMonotone(calls)
    ensures Sorted(AdmittedTimes(calls, u))
    decreases |calls|
  {
    if calls != [] {
      var init := calls[..|calls| - 1];
      var c := calls[|calls| - 1];
      PrefixMonotone(calls, |calls| - 1);
      AdmittedSorted(init, u);
      if c.user == u {
        LastNotBeforeInit(calls);
        AdmittedNotAfter(init, u, c.now);
        SortedAppend(AdmittedTimes(init, u), c.now);
      }
    }
  }

  /** Dropping the last call of a trace keeps an instant no earlier than all of
      `u`'s calls. */
  lemma NotBeforeInit(calls: seq<Call>, u: UserId, now: Timestamp)
    requires calls != [] && NotBefore(calls, u, now)
    ensures NotBefore(calls[..|calls| - 1], u, now)
  {
    var init := calls[..|calls| - 1];
    forall j | 0 <= j < |init| && init[j].user == u
      ensures init[j].now <= now
    {
      assert init[j] == calls[j];
    }
  }

  /** With per-user monotone clocks the last call is no earlier than its user's
      earlier calls. */
  lemma LastNotBeforeInit(calls: seq<Call>)
    requires calls != [] && PerUserMonotone(calls)
    ensures NotBefore(calls[..|calls| - 1], calls[|calls| - 1].user, calls[|calls| - 1].now)
  {
    var init := calls[..|calls| - 1];
    var c := calls[|calls| - 1];
    forall j | 0 <= j < |init| && init[j].user == c.user
      ensures init[j].now <= c.now
    {
      assert init[j] == calls[j];
    }
  }

  /** One call on logs alone: if the trimmed log at `t0` is the recent part of an
      ordered admitted history no later than `t0`, then at any later instant the
      log stored by the call (with or without `t0` appended) trims to the recent
      part of the history (with or without `t0` appended). */
  lemma StoredLogTracksHistory(a: Log, t0: Timestamp, now: Timestamp, appended: bool)
    requires Sorted(a) && forall t :: t in a ==> t <= t0
    requires t0 <= now
    ensures var kept := Recent(a, t0);
      if appended then Trim(kept + [t0], now) == Recent(a + [t0], now)
      else Trim(kept, now) == Recent(a, now)
  {
    var kept := Recent(a, t0);
    RecentSorted(a, t0);
    RecentCompose(a, t0, now);
    if appended {
      SortedAppend(kept, t0);
      TrimSortedIsRecent(kept + [t0], now);
      RecentConcat(kept, [t0], now);
      RecentConcat(a, [t0], now);
    } else {
      TrimSortedIsRecent(kept, now);
    }
  }

  /** The central invariant: at any instant no earlier than all of `u`'s calls,
      trimming the limiter's log for `u` leaves exactly the recent admitted calls
      of `u`. */
  lemma {:induction false} TrimMatchesHistory(calls: seq<Call>, u: UserId, now: Timestamp)
    requires PerUserMonotone(calls)
    requires NotBefore(calls, u, now)
    ensures Trim(LogOf(Run(calls), u), now) == Recent(AdmittedTimes(calls, u), now)
    decreases |calls|
  {
    if calls != [] {
      var init := calls[..|calls| - 1];
      var c := calls[|calls| - 1];
      var s := Run(init);
      PrefixMonotone(calls, |calls| - 1);
      NotBeforeInit(calls, u, now);
      if c.user != u {
        var a := AdmittedTimes(init, u);
        assert AdmittedTimes(calls, u) == a + [] == a;
        TrimMatchesHistory(init, u, now);
        calc {
          Trim(LogOf(Run(calls), u), now);
          Trim(LogOf(s, u), now);
          Recent(a, now);
        }
      } else {
        var a := AdmittedTimes(init, u);
        LastNotBeforeInit(calls);
        TrimMatchesHistory(init, u, c.now);
        AdmittedSorted(init, u);
        AdmittedNotAfter(init, u, c.now);
        var kept := Trim(LogOf(s, u), c.now);
        assert kept == Recent(a, c.now);
        if |kept| < MaxRequests {
          assert LogOf(Run(calls), u) == kept + [c.now];
          assert AdmittedTimes(calls, u) == a + [c.now];
          StoredLogTracksHistory(a, c.now, now, true);
        } else {
          assert LogOf(Run(calls), u) == kept;
          assert AdmittedTimes(calls, u) == a;
          StoredLogTracksHistory(a, c.now, now, false);
        }
      }
    }
  }

  /** The limiter is a true sliding window: a call is admitted exactly when
      fewer than `MaxRequests` of its user's earlier admitted calls are recent. */
  lemma DecisionIsSlidingWindow(calls: seq<Call>, i: nat)
    requires PerUserMonotone(calls) && i < |calls|
    ensures Decide(calls, i).Admitted?
        <==> |Recent(AdmittedTimes(calls[..i], calls[i].user), calls[i].now)| < MaxRequests
  {
    var prefix := calls[..i];
    PrefixMonotone(calls, i);
    assert NotBefore(prefix, calls[i].user, calls[i].now);
    TrimMatchesHistory(prefix, calls[i].user, calls[i].now);
  }

  /** The window bound: after the last call of a trace (so after any call, taking
      the trace up to it), its user has at most `MaxRequests` admitted calls that
      are not expired, all of them no later than that call. */
  lemma WindowBound(calls: seq<Call>)
    requires PerUserMonotone(calls) && calls != []
    ensures var last := calls[|calls| - 1];
      forall t :: t in AdmittedTimes(calls, last.user) ==> t <= last.now
    ensures var last := calls[|calls| - 1];
      |Recent(AdmittedTimes(calls, last.user), last.now)| <= MaxRequests
  {
    var last := calls[|calls| - 1];
    assert NotBefore(calls, last.user, last.now);
    AdmittedNotAfter(calls, last.user, last.now);
    TrimMatchesHistory(calls, last.user, last.now);
  }

  /** Every record in a user's log is the time of one of that user's calls, so
      none is later than an instant no earlier than all of them. */
  lemma {:induction false} RunLogNotAfter(calls: seq<Call>, u: UserId, now: Timestamp)
    requires NotBefore(calls, u, now)
    ensures forall t :: t in LogOf(Run(calls), u) ==> t <= now
    decreases |calls|
  {
    if calls != [] {
      var init := calls[..|calls| - 1];
      var c := calls[|calls| - 1];
      var s := Run(init);
      NotBeforeInit(calls, u, now);
      RunLogNotAfter(init, u, now);
      if c.user == u {
        assert c.now <= now;
        StoredRecords(LogOf(s, u), c.now);
        assert LogOf(Run(calls), u) == Stored(LogOf(s, u), c.now);
      } else {
        assert LogOf(Run(calls), u) == LogOf(s, u);
      }
    }
  }

  /** With per-user monotone clocks every user's log stays ordered oldest first,
      which is what makes trimming only the head correct. */
  lemma {:induction false} RunKeepsLogsSorted(calls: seq<Call>, u: UserId)
    requires PerUserMonotone(calls)
    ensures Sorted(LogOf(Run(calls), u))
    decreases |calls|
  {
    if calls != [] {
      var init := calls[..|calls| - 1];
      var c := calls[|calls| - 1];
      var s := Run(init);
      PrefixMonotone(calls, |calls| - 1);
      RunKeepsLogsSorted(init, u);
      if c.user == u {
        LastNotBeforeInit(calls);
        RunLogNotAfter(init, u, c.now);
        StepKeepsLogSorted(s, c);
      } else {
        assert LogOf(Run(calls), u) == LogOf(s, u);
      }
    }
  }
}
