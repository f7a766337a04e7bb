/** The limiter refines counting a log that is never compacted and never swept. */
module LimiterLaws {
  import opened Timestamps
  import opened RateLimiter

  datatype Call = Attempt(key: string, limit: int, now: Time) | Reset(key: string)

  function Step(t: Table, c: Call, window: int): Table {
    match c
    case Attempt(key, limit, now) => Allowing(t, key, limit, window, now).0
    case Reset(key) => Resetting(t, key)
  }

  /** The table after a history of calls, all with one window. */
  function Run(h: seq<Call>, window: int): Table {
    if h == [] then Table(map[], ZERO_TIME) else Step(Run(h[..|h| - 1], window), h[|h| - 1], window)
  }

  /** The answer a call made now would get. */
  function Answer(h: seq<Call>, window: int, key: string, limit: int, now: Time): bool {
    Allowing(Run(h, window), key, limit, window, now).1
  }

  function LogStep(log: seq<Time>, c: Call, key: string): seq<Time> {
    if c.key != key then log
    else if c.Reset? then []
    else if c.limit > 0 then log + [c.now] else log
  }

  /** The log: every attempt the limiter was asked to count, since the key's last reset. */
  function Log(h: seq<Call>, key: string): seq<Time> {
    if h == [] then [] else LogStep(Log(h[..|h| - 1], key), h[|h| - 1], key)
  }

  /** The latest time in the history. */
  function Latest(h: seq<Call>): Time {
    if h == [] then ZERO_TIME
    else if h[|h| - 1].Attempt? then h[|h| - 1].now else Latest(h[..|h| - 1])
  }

  /** The clock never runs backwards, nor starts before the zero time. */
  ghost predicate Ordered(h: seq<Call>) {
    h == [] || (Ordered(h[..|h| - 1]) && (h[|h| - 1].Attempt? ==> h[|h| - 1].now >= Latest(h[..|h| - 1])))
  }

  // ------------------------------------------------------------------------- filtering

  lemma {:induction false} RecentAppend(a: seq<Time>, t: Time, cutoff: Time)
    ensures Recent(a + [t], cutoff) == Recent(a, cutoff) + (if t > cutoff then [t] else [])
  {
    assert (a + [t])[..|a|] == a;
  }

  /** How many of some times are strictly later than another. */
  function After(times: seq<Time>, cutoff: Time): set<nat> { set i: nat | i < |times| && times[i] > cutoff }

  /** The recent times are exactly those strictly after the cutoff, each as often as it is there. */
  lemma {:induction false} RecentIs(a: seq<Time>, cutoff: Time)
    ensures |Recent(a, cutoff)| == |After(a, cutoff)|
    ensures forall t :: t in Recent(a, cutoff) <==> t in a && t > cutoff
  {
    if a != [] {
      var n := |a| - 1;
      RecentIs(a[..n], cutoff);
      assert a == a[..n] + [a[n]];
      assert After(a, cutoff) == if a[n] > cutoff then After(a[..n], cutoff) + {n} else After(a[..n], cutoff);
    }
  }

  /** What a sweep leaves: once a window at most, the keys with an entry after the cutoff, as they were. */
  lemma {:induction false} SweepIs(t: Table, now: Time, window: int)
    ensures var after := Sweep(t, now, window);
            && (now - t.lastSweep < window ==> after == t)
            && (now - t.lastSweep >= window ==>
                  && after.lastSweep == now
                  && (forall k :: k in after.hits <==> k in t.hits && Newest(t.hits[k]) > now - window)
                  && (forall k | k in after.hits :: after.hits[k] == t.hits[k]))
    ensures forall a: seq<Time>, last: Time :: Newest(a + [last]) == last
  {
  }

  /** A limit or window that is not positive switches a check off; otherwise each attempt is added. */
  lemma {:induction false} AttemptIs(t: Table, key: string, limit: int, window: int, now: Time)
    ensures limit <= 0 || window <= 0 ==> Allowing(t, key, limit, window, now) == (t, true)
    ensures limit > 0 && window > 0 ==>
              && (Allowing(t, key, limit, window, now).1 <==> |After(HitsOf(t, key), now - window)| < limit)
              && Allowing(t, key, limit, window, now).0
                 == Sweep(t.(hits := t.hits[key := Recent(HitsOf(t, key), now - window) + [now]]), now, window)
  {
    RecentIs(HitsOf(t, key), now - window);
  }

  /** Filtering at an earlier cutoff first makes no difference. */
  lemma {:induction false} RecentTwice(a: seq<Time>, early: Time, late: Time)
    requires early <= late
    ensures Recent(Recent(a, early), late) == Recent(a, late)
  {
    if a != [] {
      var n := |a| - 1;
      RecentTwice(a[..n], early, late);
      if a[n] > early {
        RecentAppend(Recent(a[..n], early), a[n], late);
      } else {
        assert Recent(a, early) == Recent(a[..n], early);
      }
    }
  }

  /** In order, and none later than the given time. */
  ghost predicate Tidy(a: seq<Time>, latest: Time) {
    a != [] ==> a[|a| - 1] <= latest && Tidy(a[..|a| - 1], a[|a| - 1])
  }

  lemma {:induction false} TidySnoc(a: seq<Time>, t: Time, latest: Time)
    requires Tidy(a, t) && t <= latest
    ensures Tidy(a + [t], latest)
  {
    assert (a + [t])[..|a|] == a;
  }

  lemma {:induction false} TidyLater(a: seq<Time>, early: Time, late: Time)
    requires Tidy(a, early) && early <= late
    ensures Tidy(a, late)
  {
  }

  /** If the newest entry is out, so are all. */
  lemma {:induction false} AllAged(a: seq<Time>, cutoff: Time)
    requires Tidy(a, cutoff)
    ensures Recent(a, cutoff) == []
  {
    if a != [] {
      TidyLater(a[..|a| - 1], a[|a| - 1], cutoff);
      AllAged(a[..|a| - 1], cutoff);
    }
  }

  lemma {:induction false} RecentTidy(a: seq<Time>, cutoff: Time, latest: Time)
    requires Tidy(a, latest)
    ensures Tidy(Recent(a, cutoff), latest)
  {
    if a != [] {
      var n := |a| - 1;
      RecentTidy(a[..n], cutoff, a[n]);
      TidySnoc(Recent(a[..n], cutoff), a[n], latest);
      TidyLater(Recent(a[..n], cutoff), a[n], latest);
      assert a[n] <= cutoff ==> Recent(a, cutoff) == Recent(a[..n], cutoff);
    }
  }

  // ------------------------------------------------------------------------ refinement

  /** Every key's times are in order and none is later than the given time. */
  ghost predicate Settled(t: Table, now: Time) {
    forall k | k in t.hits :: Tidy(t.hits[k], now)
  }

  lemma {:induction false} SettledLater(t: Table, early: Time, late: Time)
    requires Settled(t, early) && early <= late
    ensures Settled(t, late)
  {
    forall k | k in t.hits ensures Tidy(t.hits[k], late) {
      TidyLater(t.hits[k], early, late);
    }
  }

  lemma {:induction false} RecordedSettled(t: Table, key: string, cutoff: Time, now: Time)
    requires Settled(t, now)
    ensures Settled(Recorded(t, key, cutoff, now), now)
  {
    RecordedTidy(t, key, cutoff, now, key);
  }

  lemma {:induction false} RecordedTidy(t: Table, key: string, cutoff: Time, now: Time, k: string)
    requires Tidy(HitsOf(t, key), now) && Tidy(HitsOf(t, k), now)
    ensures Tidy(HitsOf(Recorded(t, key, cutoff, now), k), now)
  {
    RecentTidy(HitsOf(t, key), cutoff, now);
    TidySnoc(Recent(HitsOf(t, key), cutoff), now, now);
  }

  lemma {:induction false} SettledKey(t: Table, now: Time, k: string)
    requires Settled(t, now)
    ensures Tidy(HitsOf(t, k), now)
  {
  }

  lemma {:induction false} SweepSettled(t: Table, window: int, now: Time)
    requires Settled(t, now)
    ensures Settled(Sweep(t, now, window), now)
  {
  }

  lemma {:induction false} AlwaysSettled(h: seq<Call>, window: int, now: Time)
    requires Ordered(h) && now >= Latest(h)
    ensures Settled(Run(h, window), now)
  {
    if h != [] {
      var before, c := h[..|h| - 1], h[|h| - 1];
      if c.Attempt? {
        AlwaysSettled(before, window, c.now);
        RecordedSettled(Run(before, window), c.key, c.now - window, c.now);
        SweepSettled(Recorded(Run(before, window), c.key, c.now - window, c.now), window, c.now);
        SettledLater(Run(h, window), c.now, now);
      } else {
        AlwaysSettled(before, window, now);
      }
    }
  }

  /** The sweep only takes keys with nothing left beyond the cutoff. */
  lemma {:induction false} SweepKeepsRecent(t: Table, window: int, now: Time, k: string, cutoff: Time)
    requires cutoff >= now - window && Tidy(HitsOf(t, k), now)
    ensures Recent(HitsOf(Sweep(t, now, window), k), cutoff) == Recent(HitsOf(t, k), cutoff)
  {
    if k in t.hits && Newest(t.hits[k]) <= now - window {
      var a := t.hits[k];
      assert Tidy(a, now);
      AllAged(a, cutoff);
    }
  }

  lemma {:induction false} HitsRecorded(t: Table, key: string, cutoff: Time, now: Time, k: string)
    ensures HitsOf(Recorded(t, key, cutoff, now), k)
            == if k == key then Recent(HitsOf(t, key), cutoff) + [now] else HitsOf(t, k)
  {
  }

  /** What an attempt on one key adds to another's recent times. */
  function Added(key: string, now: Time, k: string, cutoff: Time): seq<Time> {
    if k == key && now > cutoff then [now] else []
  }

  /** Recording leaves, beyond any cutoff still in play, exactly the old times and the new one. */
  lemma {:induction false} RecordedRecent(t: Table, key: string, early: Time, now: Time, k: string, cutoff: Time)
    requires cutoff >= early
    ensures Recent(HitsOf(Recorded(t, key, early, now), k), cutoff)
            == Recent(HitsOf(t, k), cutoff) + Added(key, now, k, cutoff)
  {
    HitsRecorded(t, key, early, now, k);
    RecentTwice(HitsOf(t, key), early, cutoff);
    RecentAppend(Recent(HitsOf(t, key), early), now, cutoff);
  }

  /** The two together: the key's times after recording, in order, and what of them is recent. */
  lemma {:induction false} RecordedTimes(t: Table, key: string, early: Time, now: Time, k: string, cutoff: Time) returns (a: seq<Time>)
    requires cutoff >= early && Settled(t, now)
    ensures a == HitsOf(Recorded(t, key, early, now), k) && Tidy(a, now)
    ensures Recent(a, cutoff) == Recent(HitsOf(t, k), cutoff) + Added(key, now, k, cutoff)
  {
    a := HitsOf(Recorded(t, key, early, now), k);
    SettledKey(t, now, key);
    SettledKey(t, now, k);
    RecordedTidy(t, key, early, now, k);
    RecordedRecent(t, key, early, now, k, cutoff);
  }

  lemma {:induction false} SweptStill(t: Table, window: int, now: Time, k: string, cutoff: Time, a: seq<Time>, times: seq<Time>)
    requires cutoff >= now - window && a == HitsOf(t, k) && Tidy(a, now) && Recent(a, cutoff) == times
    ensures Recent(HitsOf(Sweep(t, now, window), k), cutoff) == times
  {
    SweepKeepsRecent(t, window, now, k, cutoff);
  }

  lemma {:induction false} StepIsSweep(t: Table, c: Call, window: int)
    requires c.Attempt? && c.limit > 0 && window > 0
    ensures Step(t, c, window) == Sweep(Recorded(t, c.key, c.now - window, c.now), c.now, window)
  {
  }

  lemma {:induction false} AttemptAdds(t: Table, c: Call, window: int, key: string, cutoff: Time, times: seq<Time>)
    requires c.Attempt? && c.limit > 0 && window > 0 && cutoff >= c.now - window && Settled(t, c.now)
    requires times == Recent(HitsOf(t, key), cutoff) + Added(c.key, c.now, key, cutoff)
    ensures Recent(HitsOf(Step(t, c, window), key), cutoff) == times
  {
    var a := RecordedTimes(t, c.key, c.now - window, c.now, key, cutoff);
    SweptStill(Recorded(t, c.key, c.now - window, c.now), window, c.now, key, cutoff, a, times);
    StepIsSweep(t, c, window);
  }

  lemma {:induction false} LogAdds(log: seq<Time>, c: Call, key: string, cutoff: Time)
    requires c.Attempt? && c.limit > 0
    ensures Recent(LogStep(log, c, key), cutoff) == Recent(log, cutoff) + Added(c.key, c.now, key, cutoff)
  {
    RecentAppend(log, c.now, cutoff);
  }

  /** One call does the same to the table as to the log, beyond any cutoff still in play. */
  lemma {:induction false} StepKeepsLog(t: Table, c: Call, window: int, key: string, cutoff: Time, log: seq<Time>)
    requires window > 0 && (c.Attempt? ==> cutoff >= c.now - window && Settled(t, c.now))
    requires Recent(HitsOf(t, key), cutoff) == Recent(log, cutoff)
    ensures Recent(HitsOf(Step(t, c, window), key), cutoff) == Recent(LogStep(log, c, key), cutoff)
  {
    if c.Attempt? && c.limit > 0 {
      LogAdds(log, c, key, cutoff);
      AttemptAdds(t, c, window, key, cutoff, Recent(LogStep(log, c, key), cutoff));
    }
  }

  /** What the table keeps and what the log keeps are the same beyond the trailing window. */
  lemma {:induction false} TableIsLog(h: seq<Call>, window: int, key: string, cutoff: Time)
    requires Ordered(h) && window > 0 && cutoff >= Latest(h) - window
    ensures Recent(HitsOf(Run(h, window), key), cutoff) == Recent(Log(h, key), cutoff)
  {
    if h != [] {
      var before, c := h[..|h| - 1], h[|h| - 1];
      TableIsLog(before, window, key, cutoff);
      if c.Attempt? {
        AlwaysSettled(before, window, c.now);
      }
      StepKeepsLog(Run(before, window), c, window, key, cutoff, Log(before, key));
    }
  }

  /** The answer is what counting the whole log would give, whatever was compacted or swept:
      fewer than limit attempts on this key since its last reset fall in the trailing window. */
  lemma {:induction false} CountsTheLog(h: seq<Call>, window: int, key: string, limit: int, now: Time)
    requires Ordered(h) && window > 0 && limit > 0 && now >= Latest(h)
    ensures Answer(h, window, key, limit, now) <==> |After(Log(h, key), now - window)| < limit
  {
    TableIsLog(h, window, key, now - window);
    RecentIs(Log(h, key), now - window);
  }

  /** What the log holds of a key: the times of the attempts on it since its last reset, allowed or
      not, in order; checks that are switched off are not attempts. */
  lemma {:induction false} LogIs(h: seq<Call>, c: Call, key: string)
    ensures Log([], key) == []
    ensures c.Attempt? && c.key == key && c.limit > 0 ==> Log(h + [c], key) == Log(h, key) + [c.now]
    ensures c.Reset? && c.key == key ==> Log(h + [c], key) == []
    ensures c.key != key || (c.Attempt? && c.limit <= 0) ==> Log(h + [c], key) == Log(h, key)
  {
    assert (h + [c])[..|h|] == h;
  }

  /** A non-positive limit allows everything and leaves no trace. */
  lemma {:induction false} DisabledCheck(h: seq<Call>, window: int, key: string, limit: int, now: Time)
    requires limit <= 0
    ensures Answer(h, window, key, limit, now) && Run(h + [Attempt(key, limit, now)], window) == Run(h, window)
  {
    assert (h + [Attempt(key, limit, now)])[..|h|] == h;
  }

  // ---------------------------------------------------------------------- window bound

  /** Calls on the key that were allowed at times after lo and up to hi. */
  function Granted(h: seq<Call>, window: int, key: string, lo: Time, hi: Time): nat {
    if h == [] then 0
    else
      var before, c := h[..|h| - 1], h[|h| - 1];
      Granted(before, window, key, lo, hi) +
      (if c.Attempt? && c.key == key && lo < c.now <= hi && Answer(before, window, key, c.limit, c.now)
       then 1 else 0)
  }

  /** The key is only ever asked about with this limit, and never reset. */
  ghost predicate Steady(h: seq<Call>, key: string, limit: int) {
    forall c | c in h && c.key == key :: c.Attempt? && c.limit == limit
  }

  lemma {:induction false} GrantedAreLogged(h: seq<Call>, window: int, key: string, limit: int, lo: Time, hi: Time)
    requires Steady(h, key, limit) && limit > 0
    ensures Granted(h, window, key, lo, hi) <= |Recent(Log(h, key), lo)|
  {
    if h != [] {
      var before, c := h[..|h| - 1], h[|h| - 1];
      assert c in h && forall x | x in before :: x in h;
      GrantedAreLogged(before, window, key, limit, lo, hi);
      if c.Attempt? && c.key == key {
        RecentAppend(Log(before, key), c.now, lo);
      }
    }
  }

  lemma {:induction false} LaterCutoffKeepsFewer(a: seq<Time>, early: Time, late: Time)
    requires early <= late
    ensures |Recent(a, late)| <= |Recent(a, early)|
  {
    if a != [] {
      LaterCutoffKeepsFewer(a[..|a| - 1], early, late);
    }
  }

  /** No window's worth of time, wherever it starts, holds more than limit allowed calls. */
  lemma {:induction false} WindowBound(h: seq<Call>, window: int, key: string, limit: int, lo: Time)
    requires Ordered(h) && Steady(h, key, limit) && limit > 0 && window > 0
    ensures Granted(h, window, key, lo, lo + window) <= limit
  {
    if h != [] {
      var before, c := h[..|h| - 1], h[|h| - 1];
      assert c in h && forall x | x in before :: x in h;
      WindowBound(before, window, key, limit, lo);
      if c.Attempt? && c.key == key && lo < c.now <= lo + window
         && Answer(before, window, key, c.limit, c.now)
      {
        CountsTheLog(before, window, key, limit, c.now);
        RecentIs(Log(before, key), c.now - window);
        GrantedAreLogged(before, window, key, limit, lo, lo + window);
        LaterCutoffKeepsFewer(Log(before, key), c.now - window, lo);
      }
    }
  }
}
