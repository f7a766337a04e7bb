/** Signing in over whole runs: who is told what, with the limiter told from a log of its calls. */
module SignIn {
  import opened Basics
  import opened Timestamps
  import opened RateLimiter
  import opened Lockout
  import Limits = LimiterLaws

  /** The limiter calls of one try: none when the account is locked; one for the name; one for the
      address, when the name has room and an address is known; and a reset after a success. */
  function TryCalls(s: State, limit: int, lockout: int, t: Try): seq<Limits.Call> {
    if IsLocked(s, t) then []
    else
      [Limits.Attempt(UserKey(t.username), limit, t.clock.user)]
      + (if Allowing(s.table, UserKey(t.username), limit, MINUTE, t.clock.user).1 && t.clientIP != "" then
           [Limits.Attempt(IpKey(t.clientIP), limit * 4, t.clock.ip)] else [])
      + (if Authenticating(s, limit, lockout, t).1 == Accepted then [Limits.Reset(UserKey(t.username))] else [])
  }

  /** All of them, over a run. */
  function Calls(s: State, limit: int, lockout: int, h: seq<Try>): seq<Limits.Call> {
    if h == [] then []
    else
      var n := |h| - 1;
      Calls(s, limit, lockout, h[..n]) + TryCalls(Run(s, limit, lockout, h[..n]), limit, lockout, h[n])
  }

  /** The clock never runs backwards, within a try or from one to the next. */
  function LastClock(h: seq<Try>): Time { if h == [] then ZERO_TIME else h[|h| - 1].clock.record }

  ghost predicate Timely(h: seq<Try>) {
    h == []
    || (Timely(h[..|h| - 1])
        && var c := h[|h| - 1].clock; LastClock(h[..|h| - 1]) <= c.check <= c.user <= c.ip <= c.record)
  }

  // ------------------------------------------------------------ the limiter's calls, in order

  lemma {:induction false} RunSnoc(calls: seq<Limits.Call>, c: Limits.Call)
    ensures Limits.Run(calls + [c], MINUTE) == Limits.Step(Limits.Run(calls, MINUTE), c, MINUTE)
    ensures Limits.Latest(calls + [c]) == if c.Attempt? then c.now else Limits.Latest(calls)
    ensures Limits.Ordered(calls) && (c.Attempt? ==> Limits.Latest(calls) <= c.now) ==> Limits.Ordered(calls + [c])
  {
    assert (calls + [c])[..|calls|] == calls;
  }

  /** A well-ordered log of calls, up to a time, that leaves this table. */
  ghost predicate Logs(calls: seq<Limits.Call>, table: Table, now: Time) {
    Limits.Run(calls, MINUTE) == table && Limits.Ordered(calls) && Limits.Latest(calls) <= now
  }

  lemma {:induction false} LogsMore(calls: seq<Limits.Call>, table: Table, now: Time, c: Limits.Call, later: Time)
    requires Logs(calls, table, now) && now <= later && (c.Attempt? ==> c.now == later)
    ensures Logs(calls + [c], Limits.Step(table, c, MINUTE), later)
  {
    RunSnoc(calls, c);
  }

  /** One try makes the calls that are listed for it. */
  lemma {:induction false} TryLogs(s: State, limit: int, lockout: int, t: Try, calls: seq<Limits.Call>, now: Time)
    requires Logs(calls, s.table, now) && now <= t.clock.check <= t.clock.user <= t.clock.ip <= t.clock.record
    ensures Logs(calls + TryCalls(s, limit, lockout, t), Authenticating(s, limit, lockout, t).0.table, t.clock.record)
  {
    var made := TryCalls(s, limit, lockout, t);
    if IsLocked(s, t) {
      assert calls + made == calls;
    } else {
      var first := Limits.Attempt(UserKey(t.username), limit, t.clock.user);
      LogsMore(calls, s.table, now, first, t.clock.user);
      var log, table := calls + [first], Limits.Step(s.table, first, MINUTE);
      if Allowing(s.table, UserKey(t.username), limit, MINUTE, t.clock.user).1 && t.clientIP != "" {
        var second := Limits.Attempt(IpKey(t.clientIP), limit * 4, t.clock.ip);
        LogsMore(log, table, t.clock.user, second, t.clock.ip);
        log, table := log + [second], Limits.Step(table, second, MINUTE);
      }
      assert table == Throttle(s.table, limit, t).0;
      if Authenticating(s, limit, lockout, t).1 == Accepted {
        LogsMore(log, table, t.clock.ip, Limits.Reset(UserKey(t.username)), t.clock.ip);
        log := log + [Limits.Reset(UserKey(t.username))];
      }
      assert log == calls + made;
    }
  }

  lemma {:induction false} RunLogs(s: State, limit: int, lockout: int, h: seq<Try>)
    requires s.table == Table(map[], ZERO_TIME) && Timely(h)
    ensures Logs(Calls(s, limit, lockout, h), Run(s, limit, lockout, h).table, LastClock(h))
  {
    if h != [] {
      var n := |h| - 1;
      RunLogs(s, limit, lockout, h[..n]);
      TryLogs(Run(s, limit, lockout, h[..n]), limit, lockout, h[n], Calls(s, limit, lockout, h[..n]), LastClock(h[..n]));
    }
  }

  // ------------------------------------------------------------------------ the replies

  /** As many attempts as allowed, of those logged on a key since its last reset, in the minute before. */
  predicate LogFull(calls: seq<Limits.Call>, key: string, limit: int, now: Time) {
    limit > 0 && |Limits.After(Limits.Log(calls, key), now - MINUTE)| >= limit
  }

  lemma {:induction false} NameFromLog(calls: seq<Limits.Call>, table: Table, limit: int, t: Try)
    requires Logs(calls, table, t.clock.user)
    ensures NameFull(table, limit, t) <==> LogFull(calls, UserKey(t.username), limit, t.clock.user)
  {
    SameCount(calls, table, UserKey(t.username), t.clock.user);
  }

  lemma {:induction false} AddressFromLog(calls: seq<Limits.Call>, table: Table, limit: int, t: Try)
    requires Logs(calls, table, t.clock.ip)
    ensures AddressFull(table, limit, t) <==> t.clientIP != "" && LogFull(calls, IpKey(t.clientIP), 4 * limit, t.clock.ip)
  {
    SameCount(calls, table, IpKey(t.clientIP), t.clock.ip);
  }

  lemma {:induction false} LogsSettled(calls: seq<Limits.Call>, table: Table, now: Time)
    requires Logs(calls, table, now)
    ensures Limits.Settled(table, now)
  {
    Limits.AlwaysSettled(calls, MINUTE, now);
  }

  /** Over any run from an empty limiter, every try is answered by the account as the run left it and by
      the log of limiter calls: refused for its name or its address exactly when the log is full there. */
  lemma {:induction false} RepliesOverRuns(s: State, limit: int, lockout: int, h: seq<Try>, t: Try)
    requires s.table == Table(map[], ZERO_TIME) && Timely(h)
    requires LastClock(h) <= t.clock.check <= t.clock.user <= t.clock.ip <= t.clock.record
    ensures var before, calls := Run(s, limit, lockout, h), Calls(s, limit, lockout, h);
            && Answers(before, limit, lockout, t, Authenticating(before, limit, lockout, t).0,
                       Authenticating(before, limit, lockout, t).1)
            && (NameFull(before.table, limit, t) <==> LogFull(calls, UserKey(t.username), limit, t.clock.user))
            && (AddressFull(before.table, limit, t) <==>
                  t.clientIP != "" && LogFull(calls, IpKey(t.clientIP), 4 * limit, t.clock.ip))
  {
    RunLogs(s, limit, lockout, h);
    AnswersFromLog(Run(s, limit, lockout, h), Calls(s, limit, lockout, h), limit, lockout, t);
  }

  lemma {:induction false} AnswersFromLog(before: State, calls: seq<Limits.Call>, limit: int, lockout: int, t: Try)
    requires Logs(calls, before.table, t.clock.user) && t.clock.user <= t.clock.ip
    ensures Answers(before, limit, lockout, t, Authenticating(before, limit, lockout, t).0,
                    Authenticating(before, limit, lockout, t).1)
    ensures NameFull(before.table, limit, t) <==> LogFull(calls, UserKey(t.username), limit, t.clock.user)
    ensures AddressFull(before.table, limit, t) <==>
              t.clientIP != "" && LogFull(calls, IpKey(t.clientIP), 4 * limit, t.clock.ip)
  {
    LogsSettled(calls, before.table, t.clock.user);
    ReplyLaw(before, limit, lockout, t);
    NameFromLog(calls, before.table, limit, t);
    AddressFromLog(calls, before.table, limit, t);
  }

  lemma {:induction false} SameCount(calls: seq<Limits.Call>, table: Table, key: string, now: Time)
    requires Logs(calls, table, now)
    ensures |Limits.After(HitsOf(table, key), now - MINUTE)| == |Limits.After(Limits.Log(calls, key), now - MINUTE)|
  {
    Limits.TableIsLog(calls, MINUTE, key, now - MINUTE);
    Limits.RecentIs(HitsOf(table, key), now - MINUTE);
    Limits.RecentIs(Limits.Log(calls, key), now - MINUTE);
  }

  /** The right password on an active account that is not locked, with room in both logs, signs in. */
  lemma {:induction false} RightPasswordSignsIn(s: State, limit: int, lockout: int, h: seq<Try>, t: Try)
    requires s.table == Table(map[], ZERO_TIME) && Timely(h)
    requires LastClock(h) <= t.clock.check <= t.clock.user <= t.clock.ip <= t.clock.record
    requires var users := Run(s, limit, lockout, h).users;
             && t.username in users && users[t.username].active && t.verdict == Right
             && (users[t.username].lockedUntil.Some? ==> users[t.username].lockedUntil.value <= t.clock.check)
    requires !LogFull(Calls(s, limit, lockout, h), UserKey(t.username), limit, t.clock.user)
    requires t.clientIP != "" ==> !LogFull(Calls(s, limit, lockout, h), IpKey(t.clientIP), 4 * limit, t.clock.ip)
    ensures ReplyTo(s, limit, lockout, h + [t], |h|) == Accepted
    ensures Run(s, limit, lockout, h + [t]).users[t.username] == User(true, 0, None, Some(Stamp(t.clock.record)))
  {
    RepliesOverRuns(s, limit, lockout, h, t);
    assert (h + [t])[..|h|] == h;
  }
}
