/** Signing in: the limiter in front, the per-account failure counter and lock behind it. */
module Lockout {
  import opened Basics
  import opened Powers
  import opened Timestamps
  import opened RateLimiter
  import Limits = LimiterLaws

  datatype User = User(active: bool, failed: int, lockedUntil: Option<Time>, lastLogin: Option<Time>)

  /** What checking the password against the stored hash says, if it comes to that. */
  datatype Verdict = Right | Wrong | BadHash

  /** The clock as it is read: at the lock check, by each limiter call, and when the row is written. */
  datatype Clock = Clock(check: Time, user: Time, ip: Time, record: Time)

  datatype Try = Try(username: string, verdict: Verdict, clientIP: string, clock: Clock)

  datatype Reply = Locked(until: Time) | RateLimited | InvalidCredentials | Fault | Inactive | Accepted

  datatype State = State(users: map<string, User>, table: Table)

  function Lower(s: string): string
  {
    if s == "" then ""
    else
      var n := |s| - 1;
      Lower(s[..n]) + [if 'A' <= s[n] <= 'Z' then (s[n] as int + 32) as char else s[n]]
  }

  function UserKey(username: string): string { "user:" + Lower(username) }

  function IpKey(clientIP: string): string { "ip:" + clientIP }

  function RecordFailure(user: User, threshold: int, lockout: int, now: Time): User {
    if threshold > 0 && user.failed + 1 >= threshold then
      user.(failed := 0, lockedUntil := Some(Stamp(now + lockout)))
    else user.(failed := user.failed + 1)
  }

  function RecordSuccess(user: User, now: Time): User {
    user.(failed := 0, lockedUntil := None, lastLogin := Some(Stamp(now)))
  }

  predicate IsLocked(s: State, t: Try) {
    t.username in s.users && s.users[t.username].lockedUntil.Some?
    && s.users[t.username].lockedUntil.value > t.clock.check
  }

  /** The two limiter calls in front of the password check. */
  function Throttle(table: Table, limit: int, t: Try): (Table, bool) {
    var (byUser, ok) := Allowing(table, UserKey(t.username), limit, MINUTE, t.clock.user);
    if !ok then (byUser, false)
    else if t.clientIP == "" then (byUser, true)
    else Allowing(byUser, IpKey(t.clientIP), limit * 4, MINUTE, t.clock.ip)
  }

  /** What the account row and the caller see once the password has been looked at. */
  function Judge(user: User, threshold: int, lockout: int, t: Try): (User, Reply) {
    match t.verdict
    case BadHash => (user, Fault)
    case Wrong => (RecordFailure(user, threshold, lockout, t.clock.record), InvalidCredentials)
    case Right =>
      if !user.active then (user, Inactive) else (RecordSuccess(user, t.clock.record), Accepted)
  }

  function Authenticating(s: State, limit: int, lockout: int, t: Try): (State, Reply) {
    if IsLocked(s, t) then (s, Locked(s.users[t.username].lockedUntil.value))
    else
      var (table, ok) := Throttle(s.table, limit, t);
      if !ok then (s.(table := table), RateLimited)
      else if t.username !in s.users then (s.(table := table), InvalidCredentials)
      else
        var (user, reply) := Judge(s.users[t.username], limit, lockout, t);
        (State(s.users[t.username := user],
               if reply == Accepted then Resetting(table, UserKey(t.username)) else table), reply)
  }

  // ------------------------------------------------------------------ who is told what

  /** No room under the name: as many tries as the limit within the minute before this one. */
  predicate NameFull(table: Table, limit: int, t: Try) {
    limit > 0 && |Limits.After(HitsOf(table, "user:" + Lower(t.username)), t.clock.user - 60_000_000_000)| >= limit
  }

  /** No room under the address, where one is known: four times the limit. */
  predicate AddressFull(table: Table, limit: int, t: Try) {
    t.clientIP != "" && limit > 0
    && |Limits.After(HitsOf(table, "ip:" + t.clientIP), t.clock.ip - 60_000_000_000)| >= 4 * limit
  }

  /** The answer to a try, and what it does to the account: which comes when, and nothing else does. */
  ghost predicate Answers(s: State, limit: int, lockout: int, t: Try, s': State, reply: Reply) {
    var known := t.username in s.users;
    var locked := known && s.users[t.username].lockedUntil.Some? && t.clock.check < s.users[t.username].lockedUntil.value;
    var heard := !locked && !NameFull(s.table, limit, t) && !AddressFull(s.table, limit, t);
    && (reply.Locked? <==> locked)
    && (reply.RateLimited? <==> !locked && !heard)
    && (reply.InvalidCredentials? <==> heard && (!known || t.verdict == Wrong))
    && (reply.Fault? <==> heard && known && t.verdict == BadHash)
    && (reply.Inactive? <==> heard && known && t.verdict == Right && !s.users[t.username].active)
    && (reply.Accepted? <==> heard && known && t.verdict == Right && s.users[t.username].active)
    && (locked ==> s' == s && reply.until == s.users[t.username].lockedUntil.value)
    && (reply.Accepted? ==>
          && s'.users == s.users[t.username := User(true, 0, None, Some(Stamp(t.clock.record)))]
          && HitsOf(s'.table, "user:" + Lower(t.username)) == [])
    && (reply.InvalidCredentials? && known ==>
          var user := s.users[t.username];
          s'.users == s.users[t.username :=
            if 0 < limit <= user.failed + 1 then
              User(user.active, 0, Some(Stamp(t.clock.record + lockout)), user.lastLogin)
            else User(user.active, user.failed + 1, user.lockedUntil, user.lastLogin)])
    && (!reply.Accepted? && !(reply.InvalidCredentials? && known) ==> s'.users == s.users)
  }

  /** The two limiter calls let a try through exactly when neither key is full. */
  lemma {:induction false} ThrottleIff(table: Table, limit: int, t: Try)
    requires t.clock.user <= t.clock.ip && Limits.Settled(table, t.clock.user)
    ensures Throttle(table, limit, t).1 <==> !NameFull(table, limit, t) && !AddressFull(table, limit, t)
  {
    var userKey, ipKey := UserKey(t.username), IpKey(t.clientIP);
    KeysApart(t.username, t.clientIP);
    Limits.RecentIs(HitsOf(table, userKey), t.clock.user - MINUTE);
    Limits.RecentIs(HitsOf(table, ipKey), t.clock.ip - MINUTE);
    if limit > 0 {
      var cutoff := t.clock.ip - MINUTE;
      Limits.AttemptAdds(table, Limits.Attempt(userKey, limit, t.clock.user), MINUTE, ipKey, cutoff,
                         Recent(HitsOf(table, ipKey), cutoff));
    }
  }

  /** Exactly who is told what, from the state the try finds. */
  lemma {:induction false} ReplyLaw(s: State, limit: int, lockout: int, t: Try)
    requires t.clock.user <= t.clock.ip && Limits.Settled(s.table, t.clock.user)
    ensures var (s', reply) := Authenticating(s, limit, lockout, t); Answers(s, limit, lockout, t, s', reply)
  {
    ThrottleIff(s.table, limit, t);
  }

  /** The name's key does not tell capital letters from small ones, nor change anything else. */
  lemma {:induction false} LowerIs(s: string)
    ensures |Lower(s)| == |s|
    ensures forall i | 0 <= i < |s| ::
              Lower(s)[i] == if 'A' <= s[i] <= 'Z' then (s[i] as int - 'A' as int + 'a' as int) as char else s[i]
  {
    if s != "" {
      LowerIs(s[..|s| - 1]);
    }
  }

  class Service {
    const limiter: Limiter
    var users: map<string, User>

    constructor (users: map<string, User>)
      ensures limiter.Valid() && fresh(limiter) && limiter.table == Table(map[], ZERO_TIME) && this.users == users
      ensures limiter.owner == map[]
    {
      limiter := new Limiter();
      this.users := users;
    }

    ghost function Now(): State
      reads this, limiter
    {
      State(users, limiter.table)
    }

    /** By account, then by client address. */
    method Admit(t: Try, limit: int) returns (ok: bool)
      requires limiter.Valid()
      modifies limiter, limiter.owner.Keys
      ensures limiter.Valid() && fresh(limiter.owner.Keys - old(limiter.owner.Keys))
      ensures (limiter.table, ok) == Throttle(old(limiter.table), limit, t)
    {
      ok := limiter.Allow(UserKey(t.username), limit, MINUTE, t.clock.user);
      if ok && t.clientIP != "" {
        ok := limiter.Allow(IpKey(t.clientIP), limit * 4, MINUTE, t.clock.ip);
      }
    }

    /** Lock, then throttle, then verify: the order decides what the caller is told. */
    method Authenticate(t: Try, limit: int, lockout: int) returns (reply: Reply)
      requires limiter.Valid()
      modifies this, limiter, limiter.owner.Keys
      ensures limiter.Valid() && fresh(limiter.owner.Keys - old(limiter.owner.Keys))
      ensures (Now(), reply) == Authenticating(old(Now()), limit, lockout, t)
      ensures t.clock.user <= t.clock.ip && Limits.Settled(old(limiter.table), t.clock.user) ==>
                Answers(old(Now()), limit, lockout, t, Now(), reply)
    {
      if t.clock.user <= t.clock.ip && Limits.Settled(limiter.table, t.clock.user) {
        ReplyLaw(Now(), limit, lockout, t);
      }
      var user := if t.username in users then Some(users[t.username]) else None;
      if user.Some? && user.value.lockedUntil.Some? && user.value.lockedUntil.value > t.clock.check {
        return Locked(user.value.lockedUntil.value);
      }
      var ok := Admit(t, limit);
      if !ok {
        return RateLimited;
      }
      if user.None? {
        return InvalidCredentials;
      }
      reply := Verify(t, user.value, limit, lockout);
    }

    /** The password, looked at. */
    method Verify(t: Try, user: User, limit: int, lockout: int) returns (reply: Reply)
      requires limiter.Valid() && t.username in users && users[t.username] == user
      modifies this, limiter
      ensures limiter.Valid() && limiter.owner == old(limiter.owner)
      ensures reply == Judge(user, limit, lockout, t).1
      ensures users == old(users)[t.username := Judge(user, limit, lockout, t).0]
      ensures limiter.table == if reply == Accepted then Resetting(old(limiter.table), UserKey(t.username)) else old(limiter.table)
    {
      assert users == users[t.username := user];
      match t.verdict {
        case BadHash => return Fault;
        case Wrong =>
          users := users[t.username := RecordFailure(user, limit, lockout, t.clock.record)];
          return InvalidCredentials;
        case Right =>
          if !user.active {
            return Inactive;
          }
          users := users[t.username := RecordSuccess(user, t.clock.record)];
          limiter.Reset(UserKey(t.username));
          return Accepted;
      }
    }
  }

  // ------------------------------------------------------------------------ over runs

  function Run(s: State, limit: int, lockout: int, h: seq<Try>): State {
    if h == [] then s
    else Authenticating(Run(s, limit, lockout, h[..|h| - 1]), limit, lockout, h[|h| - 1]).0
  }

  function ReplyTo(s: State, limit: int, lockout: int, h: seq<Try>, i: nat): Reply
    requires i < |h|
  {
    Authenticating(Run(s, limit, lockout, h[..i]), limit, lockout, h[i]).1
  }

  /** Wrong passwords verified for the account since it last signed in. */
  function WrongSinceSuccess(s: State, limit: int, lockout: int, h: seq<Try>, name: string): nat {
    if h == [] then 0
    else
      var n := |h| - 1;
      var before := WrongSinceSuccess(s, limit, lockout, h[..n], name);
      if h[n].username != name then before
      else WrongThen(before, Authenticating(Run(s, limit, lockout, h[..n]), limit, lockout, h[n]).1)
  }

  function WrongThen(before: nat, reply: Reply): nat {
    if reply == Accepted then 0
    else if reply == InvalidCredentials then before + 1 else before
  }

  /** Counting to n and starting again. */
  function Cycle(w: nat, n: int): int {
    if w == 0 then 0 else if Cycle(w - 1, n) + 1 >= n then 0 else Cycle(w - 1, n) + 1
  }

  lemma {:induction false} NextRemainder(w: nat, n: int)
    requires n > 0
    ensures (w + 1) % n == if w % n + 1 >= n then 0 else w % n + 1
  {
    var q, f := w / n, w % n;
    assert w == q * n + f;
    if f + 1 >= n {
      Distribute(q, 1, n);
      QuotientUnique(q + 1, 0, n);
    } else {
      QuotientUnique(q, f + 1, n);
    }
  }

  lemma {:induction false} CycleIsModulo(w: nat, n: int)
    requires n > 0
    ensures Cycle(w, n) == w % n
  {
    if w > 0 {
      CycleIsModulo(w - 1, n);
      NextRemainder(w - 1, n);
    } else {
      QuotientUnique(0, 0, n);
    }
  }

  /** What one try does to an account's row. */
  lemma {:induction false} RowStep(s: State, limit: int, lockout: int, t: Try, name: string)
    requires name in s.users
    ensures var (s', reply) := Authenticating(s, limit, lockout, t);
            && name in s'.users
            && s'.users[name] ==
               if t.username != name then s.users[name]
               else if reply == Accepted then RecordSuccess(s.users[name], t.clock.record)
               else if reply == InvalidCredentials then RecordFailure(s.users[name], limit, lockout, t.clock.record)
               else s.users[name]
  {
  }

  lemma {:induction false} CounterCycles(s: State, limit: int, lockout: int, h: seq<Try>, name: string)
    requires limit > 0 && name in s.users && s.users[name].failed == 0
    ensures var now := Run(s, limit, lockout, h);
            && name in now.users
            && 0 <= now.users[name].failed < limit
            && now.users[name].failed == Cycle(WrongSinceSuccess(s, limit, lockout, h, name), limit)
  {
    if h != [] {
      var n := |h| - 1;
      CounterCycles(s, limit, lockout, h[..n], name);
      CounterStep(Run(s, limit, lockout, h[..n]), limit, lockout, h[n], name,
                  WrongSinceSuccess(s, limit, lockout, h[..n], name));
    }
  }

  lemma {:induction false} CounterStep(s: State, limit: int, lockout: int, t: Try, name: string, w: nat)
    requires limit > 0 && name in s.users && 0 <= s.users[name].failed < limit
    requires s.users[name].failed == Cycle(w, limit)
    ensures var (now, reply) := Authenticating(s, limit, lockout, t);
            && name in now.users && 0 <= now.users[name].failed < limit
            && now.users[name].failed == Cycle(if t.username == name then WrongThen(w, reply) else w, limit)
  {
    RowStep(s, limit, lockout, t, name);
  }

  /** The counter is the wrong passwords since the last success, modulo the threshold: every
      threshold-th one locks and starts the count again, and nothing else moves it. */
  lemma {:induction false} CounterIsModulo(s: State, limit: int, lockout: int, h: seq<Try>, name: string)
    requires limit > 0 && name in s.users && s.users[name].failed == 0
    ensures var now := Run(s, limit, lockout, h);
            && name in now.users
            && 0 <= now.users[name].failed < limit
            && now.users[name].failed == WrongSinceSuccess(s, limit, lockout, h, name) % limit
  {
    CounterCycles(s, limit, lockout, h, name);
    CycleIsModulo(WrongSinceSuccess(s, limit, lockout, h, name), limit);
  }

  /** The wrong password that completes a multiple of the threshold locks the account,
      and no other wrong password does. */
  lemma {:induction false} LocksAtThreshold(s: State, limit: int, lockout: int, h: seq<Try>, t: Try)
    requires limit > 0 && t.username in s.users && s.users[t.username].failed == 0
    requires ReplyTo(s, limit, lockout, h + [t], |h|) == InvalidCredentials
    ensures var before, after := Run(s, limit, lockout, h), Run(s, limit, lockout, h + [t]);
            && t.username in before.users && t.username in after.users
            && after.users[t.username].lockedUntil
               == if WrongSinceSuccess(s, limit, lockout, h + [t], t.username) % limit == 0
                  then Some(Stamp(t.clock.record + lockout)) else before.users[t.username].lockedUntil
  {
    assert (h + [t])[..|h|] == h;
    CounterIsModulo(s, limit, lockout, h, t.username);
    CounterIsModulo(s, limit, lockout, h + [t], t.username);
    RowStep(Run(s, limit, lockout, h), limit, lockout, t, t.username);
  }

  /** While the lock lasts nothing is verified: every try on the account is told it is locked,
      whatever else is tried in between, and its row does not move. */
  lemma {:induction false} LockHolds(s: State, limit: int, lockout: int, h: seq<Try>, name: string, until: Time)
    requires name in s.users && s.users[name].lockedUntil == Some(until)
    requires forall t | t in h && t.username == name :: t.clock.check < until
    ensures var now := Run(s, limit, lockout, h);
            name in now.users && now.users[name] == s.users[name]
    ensures forall i | 0 <= i < |h| && h[i].username == name :: ReplyTo(s, limit, lockout, h, i) == Locked(until)
  {
    if h != [] {
      var n := |h| - 1;
      assert forall t | t in h[..n] :: t in h;
      assert h[n] in h;
      LockHolds(s, limit, lockout, h[..n], name, until);
      forall i | 0 <= i < |h| && h[i].username == name ensures ReplyTo(s, limit, lockout, h, i) == Locked(until) {
        assert i < n ==> h[..n][..i] == h[..i];
        assert i < n ==> ReplyTo(s, limit, lockout, h[..n], i) == Locked(until);
      }
    }
  }

  // ---------------------------------------------------------------- lock before throttle

  lemma {:induction false} KeysApart(username: string, clientIP: string)
    ensures UserKey(username) != IpKey(clientIP)
  {
    assert UserKey(username)[0] == 'u' && IpKey(clientIP)[0] == 'i';
  }

  /** A limiter call lengthens its own key's list by at most one and no other's. */
  lemma {:induction false} AllowingGrows(t: Table, key: string, limit: int, now: Time, k: string)
    requires limit > 0
    ensures |HitsOf(Allowing(t, key, limit, MINUTE, now).0, k)|
            <= if k == key then |Recent(HitsOf(t, key), now - MINUTE)| + 1 else |HitsOf(t, k)|
  {
  }

  /** How many recent entries stand against the name and the address before a try. */
  ghost predicate Room(table: Table, limit: int, t: Try, j: nat) {
    && |Recent(HitsOf(table, UserKey(t.username)), t.clock.user - MINUTE)| <= j
    && (t.clientIP != "" ==> |Recent(HitsOf(table, IpKey(t.clientIP)), t.clock.ip - MINUTE)| <= 3 * limit + j)
  }

  /** How many entries at all. */
  ghost predicate Entries(table: Table, limit: int, name: string, clientIP: string, j: nat) {
    && |HitsOf(table, UserKey(name))| <= j
    && (clientIP != "" ==> |HitsOf(table, IpKey(clientIP))| <= 3 * limit + j)
  }

  /** A try that finds room for fewer than the threshold is not throttled, and adds one entry. */
  lemma {:induction false} ThrottlePasses(table: Table, limit: int, t: Try, j: nat)
    requires j < limit && Room(table, limit, t, j)
    ensures var (table', ok) := Throttle(table, limit, t);
            ok && Entries(table', limit, t.username, t.clientIP, j + 1)
  {
    var userKey, ipKey := UserKey(t.username), IpKey(t.clientIP);
    KeysApart(t.username, t.clientIP);
    var byUser := Allowing(table, userKey, limit, MINUTE, t.clock.user).0;
    AllowingGrows(table, userKey, limit, t.clock.user, userKey);
    if t.clientIP != "" {
      OtherKeyRecent(table, userKey, limit, t.clock.user, ipKey, t.clock.ip - MINUTE);
      AllowingGrows(byUser, ipKey, limit * 4, t.clock.ip, ipKey);
      AllowingGrows(byUser, ipKey, limit * 4, t.clock.ip, userKey);
    }
  }

  /** A call on one key never gives another key more recent entries. */
  lemma {:induction false} OtherKeyRecent(t: Table, key: string, limit: int, now: Time, k: string, cutoff: Time)
    requires limit > 0 && k != key
    ensures |Recent(HitsOf(Allowing(t, key, limit, MINUTE, now).0, k), cutoff)| <= |Recent(HitsOf(t, k), cutoff)|
  {
  }

  /** Wrong passwords, one after the other, on one account from one address, while it is not locked. */
  ghost predicate Barrage(s: State, h: seq<Try>, name: string, clientIP: string) {
    && name in s.users
    && forall t | t in h ::
         && t.username == name && t.clientIP == clientIP && t.verdict == Wrong
         && (s.users[name].lockedUntil.Some? ==> s.users[name].lockedUntil.value <= t.clock.check)
  }

  /** A wrong password that gets past the limiter is counted against the account. */
  lemma {:induction false} WrongCounted(s: State, limit: int, lockout: int, t: Try)
    requires t.username in s.users && t.verdict == Wrong && !IsLocked(s, t) && Throttle(s.table, limit, t).1
    ensures var user := RecordFailure(s.users[t.username], limit, lockout, t.clock.record);
            Authenticating(s, limit, lockout, t)
            == (State(s.users[t.username := user], Throttle(s.table, limit, t).0), InvalidCredentials)
  {
  }

  /** Up to the threshold, every one of them is verified and counted. */
  lemma {:induction false} BarrageCounts(s: State, limit: int, lockout: int, h: seq<Try>, name: string, clientIP: string)
    requires limit > 0 && Barrage(s, h, name, clientIP) && 0 <= s.users[name].failed
    requires s.users[name].failed + |h| < limit
    requires h != [] ==> Room(s.table, limit, h[0], 0)
    ensures var now := Run(s, limit, lockout, h);
            && name in now.users
            && now.users[name] == s.users[name].(failed := s.users[name].failed + |h|)
            && (h != [] ==> Entries(now.table, limit, name, clientIP, |h|))
  {
    if h != [] {
      var n := |h| - 1;
      var t := h[n];
      assert t in h && forall x | x in h[..n] :: x in h;
      BarrageCounts(s, limit, lockout, h[..n], name, clientIP);
      var before := Run(s, limit, lockout, h[..n]);
      if n > 0 {
        RoomFromEntries(before.table, limit, t, n);
      }
      CountingTry(before, limit, lockout, t, n);
    }
  }

  lemma {:induction false} RoomFromEntries(table: Table, limit: int, t: Try, n: nat)
    requires Entries(table, limit, t.username, t.clientIP, n)
    ensures Room(table, limit, t, n)
  {
  }

  /** A verified wrong password further below the threshold only counts. */
  lemma {:induction false} CountingTry(s: State, limit: int, lockout: int, t: Try, n: nat)
    requires t.username in s.users && 0 <= s.users[t.username].failed && s.users[t.username].failed + 1 < limit
    requires t.verdict == Wrong && !IsLocked(s, t) && Room(s.table, limit, t, n) && n < limit
    ensures var now := Authenticating(s, limit, lockout, t).0;
            && t.username in now.users
            && now.users[t.username] == s.users[t.username].(failed := s.users[t.username].failed + 1)
            && Entries(now.table, limit, t.username, t.clientIP, n + 1)
  {
    ThrottlePasses(s.table, limit, t, n);
    WrongCounted(s, limit, lockout, t);
  }

  /** A barrage of wrong passwords is never throttled before it locks the account: from no recent
      attempt on the name and at most three thresholds' worth from the address, the wrong password
      that brings the counter to the threshold is reached, and it locks. */
  lemma {:induction false} BarrageLocks(s: State, limit: int, lockout: int, h: seq<Try>, name: string, clientIP: string)
    requires limit > 0 && Barrage(s, h, name, clientIP) && 0 <= s.users[name].failed < limit
    requires |h| == limit - s.users[name].failed && Room(s.table, limit, h[0], 0)
    ensures var now := Run(s, limit, lockout, h);
            && name in now.users && now.users[name].failed == 0
            && now.users[name].lockedUntil == Some(Stamp(h[|h| - 1].clock.record + lockout))
    ensures forall i | 0 <= i < |h| :: ReplyTo(s, limit, lockout, h, i) == InvalidCredentials
  {
    forall i | 0 <= i < |h| ensures ReplyTo(s, limit, lockout, h, i) == InvalidCredentials {
      BarrageReply(s, limit, lockout, h, name, clientIP, i);
    }
    LastOneLocks(s, limit, lockout, h, name, clientIP);
  }

  lemma {:induction false} LastOneLocks(s: State, limit: int, lockout: int, h: seq<Try>, name: string, clientIP: string)
    requires limit > 0 && Barrage(s, h, name, clientIP) && 0 <= s.users[name].failed < limit
    requires |h| == limit - s.users[name].failed && Room(s.table, limit, h[0], 0)
    ensures var now := Run(s, limit, lockout, h);
            && name in now.users && now.users[name].failed == 0
            && now.users[name].lockedUntil == Some(Stamp(h[|h| - 1].clock.record + lockout))
  {
    var n := |h| - 1;
    assert h[n] in h;
    BarragePrefix(s, limit, lockout, h, name, clientIP, n);
    CompletingTry(Run(s, limit, lockout, h[..n]), limit, lockout, h[n], n);
  }

  /** A verified wrong password one short of the threshold locks. */
  lemma {:induction false} CompletingTry(s: State, limit: int, lockout: int, t: Try, n: nat)
    requires limit > 0 && t.username in s.users && s.users[t.username].failed == limit - 1
    requires t.verdict == Wrong && !IsLocked(s, t) && Room(s.table, limit, t, n) && n < limit
    ensures var now := Authenticating(s, limit, lockout, t).0;
            && t.username in now.users && now.users[t.username].failed == 0
            && now.users[t.username].lockedUntil == Some(Stamp(t.clock.record + lockout))
  {
    ThrottlePasses(s.table, limit, t, n);
    WrongCounted(s, limit, lockout, t);
  }

  lemma {:induction false} BarragePrefix(s: State, limit: int, lockout: int, h: seq<Try>, name: string, clientIP: string, i: nat)
    requires limit > 0 && Barrage(s, h, name, clientIP) && 0 <= s.users[name].failed
    requires i < |h| <= limit - s.users[name].failed && Room(s.table, limit, h[0], 0)
    ensures var now := Run(s, limit, lockout, h[..i]);
            && name in now.users
            && now.users[name] == s.users[name].(failed := s.users[name].failed + i)
            && Room(now.table, limit, h[i], i)
  {
    assert forall x | x in h[..i] :: x in h;
    assert h[i] in h;
    BarrageCounts(s, limit, lockout, h[..i], name, clientIP);
  }

  lemma {:induction false} BarrageReply(s: State, limit: int, lockout: int, h: seq<Try>, name: string, clientIP: string, i: nat)
    requires limit > 0 && Barrage(s, h, name, clientIP) && 0 <= s.users[name].failed
    requires i < |h| <= limit - s.users[name].failed && Room(s.table, limit, h[0], 0)
    ensures ReplyTo(s, limit, lockout, h, i) == InvalidCredentials
  {
    assert h[i] in h;
    BarragePrefix(s, limit, lockout, h, name, clientIP, i);
    ThrottlePasses(Run(s, limit, lockout, h[..i]).table, limit, h[i], i);
    WrongCounted(Run(s, limit, lockout, h[..i]), limit, lockout, h[i]);
  }
}
