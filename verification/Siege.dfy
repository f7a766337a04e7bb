/** Wrong passwords on one account among everybody else's tries: the lock still comes first. */
module Siege {
  import opened Basics
  import opened Timestamps
  import opened RateLimiter
  import Log = LimiterLaws
  import opened Lockout

  type History = seq<Try>

  /** Tries on the account. */
  function TriesOn(h: History, name: string): nat {
    if h == [] then 0 else TriesOn(h[..|h| - 1], name) + (if h[|h| - 1].username == name then 1 else 0)
  }

  /** A try that may put an entry under the key. */
  predicate Touches(t: Try, key: string) {
    UserKey(t.username) == key || (t.clientIP != "" && IpKey(t.clientIP) == key)
  }

  function Calls(h: History, key: string): nat {
    if h == [] then 0 else Calls(h[..|h| - 1], key) + (if Touches(h[|h| - 1], key) then 1 else 0)
  }

  // ------------------------------------------------------------- how full the limiter can get

  lemma {:induction false} RecentOfRecent(a: seq<Time>, first: Time, cutoff: Time)
    ensures |Recent(Recent(a, first), cutoff)| <= |Recent(a, cutoff)|
  {
    if a != [] {
      var n := |a| - 1;
      RecentOfRecent(a[..n], first, cutoff);
      if a[n] > first {
        Log.RecentAppend(Recent(a[..n], first), a[n], cutoff);
      } else {
        assert Recent(a, first) == Recent(a[..n], first);
      }
    }
  }

  /** Whatever its clock, a call gives its own key at most one more entry beyond a cutoff, and no other any. */
  lemma {:induction false} CallBound(t: Table, key: string, limit: int, now: Time, k: string, cutoff: Time)
    ensures |Recent(HitsOf(Allowing(t, key, limit, MINUTE, now).0, k), cutoff)|
            <= |Recent(HitsOf(t, k), cutoff)| + (if k == key then 1 else 0)
  {
    RecentOfRecent(HitsOf(t, key), now - MINUTE, cutoff);
    Log.RecentAppend(Recent(HitsOf(t, key), now - MINUTE), now, cutoff);
  }

  lemma {:induction false} ThrottleBound(table: Table, limit: int, t: Try, k: string, cutoff: Time)
    ensures |Recent(HitsOf(Throttle(table, limit, t).0, k), cutoff)|
            <= |Recent(HitsOf(table, k), cutoff)| + (if Touches(t, k) then 1 else 0)
  {
    KeysApart(t.username, t.clientIP);
    var byUser := Allowing(table, UserKey(t.username), limit, MINUTE, t.clock.user).0;
    CallBound(table, UserKey(t.username), limit, t.clock.user, k, cutoff);
    CallBound(byUser, IpKey(t.clientIP), limit * 4, t.clock.ip, k, cutoff);
  }

  lemma {:induction false} TryBound(s: State, limit: int, lockout: int, t: Try, k: string, cutoff: Time)
    ensures |Recent(HitsOf(Authenticating(s, limit, lockout, t).0.table, k), cutoff)|
            <= |Recent(HitsOf(s.table, k), cutoff)| + (if Touches(t, k) then 1 else 0)
  {
    ThrottleBound(s.table, limit, t, k, cutoff);
  }

  /** Over any run, a key's recent entries are at most those it had and the tries that touch it. */
  lemma {:induction false} RunBound(s: State, limit: int, lockout: int, h: History, k: string, cutoff: Time)
    ensures |Recent(HitsOf(Run(s, limit, lockout, h).table, k), cutoff)| <= |Recent(HitsOf(s.table, k), cutoff)| + Calls(h, k)
  {
    if h != [] {
      var n := |h| - 1;
      RunBound(s, limit, lockout, h[..n], k, cutoff);
      TryBound(Run(s, limit, lockout, h[..n]), limit, lockout, h[n], k, cutoff);
    }
  }

  // ------------------------------------------------------------------------- under siege

  /** The i-th try finds room under its name and under its address: entries from before, still recent
      by its own clock, and tries since, whoever made them. */
  ghost predicate HasRoom(s: State, limit: int, h: History, i: nat)
    requires i < |h|
  {
    var t := h[i];
    && |Recent(HitsOf(s.table, UserKey(t.username)), t.clock.user - MINUTE)| + Calls(h[..i], UserKey(t.username)) < limit
    && (t.clientIP != "" ==>
          |Recent(HitsOf(s.table, IpKey(t.clientIP)), t.clock.ip - MINUTE)| + Calls(h[..i], IpKey(t.clientIP)) < 4 * limit)
  }

  lemma {:induction false} RoomPasses(s: State, limit: int, lockout: int, h: History, i: nat)
    requires limit > 0 && i < |h| && HasRoom(s, limit, h, i)
    ensures Throttle(Run(s, limit, lockout, h[..i]).table, limit, h[i]).1
  {
    var t := h[i];
    FewRecent(s, limit, lockout, h[..i], UserKey(t.username), t.clock.user - MINUTE, limit);
    if t.clientIP != "" {
      FewRecent(s, limit, lockout, h[..i], IpKey(t.clientIP), t.clock.ip - MINUTE, 4 * limit);
    }
    FewPass(Run(s, limit, lockout, h[..i]).table, limit, t);
  }

  lemma {:induction false} FewRecent(s: State, limit: int, lockout: int, h: History, k: string, cutoff: Time, bound: int)
    requires |Recent(HitsOf(s.table, k), cutoff)| + Calls(h, k) < bound
    ensures |Recent(HitsOf(Run(s, limit, lockout, h).table, k), cutoff)| < bound
  {
    RunBound(s, limit, lockout, h, k, cutoff);
  }

  /** Few enough recent entries under both keys, and neither call refuses. */
  lemma {:induction false} FewPass(table: Table, limit: int, t: Try)
    requires limit > 0 && |Recent(HitsOf(table, UserKey(t.username)), t.clock.user - MINUTE)| < limit
    requires t.clientIP != "" ==> |Recent(HitsOf(table, IpKey(t.clientIP)), t.clock.ip - MINUTE)| < 4 * limit
    ensures Throttle(table, limit, t).1
  {
    KeysApart(t.username, t.clientIP);
    CallBound(table, UserKey(t.username), limit, t.clock.user, IpKey(t.clientIP), t.clock.ip - MINUTE);
  }

  /** Any history in which the tries on the account are wrong passwords that find room, made when the
      lock it came with, if any, has passed. Everybody else does as they like. */
  ghost predicate Besieged(s: State, limit: int, h: History, name: string) {
    && name in s.users
    && forall i | 0 <= i < |h| && h[i].username == name ::
         && h[i].verdict == Wrong && HasRoom(s, limit, h, i)
         && (s.users[name].lockedUntil.Some? ==> s.users[name].lockedUntil.value <= h[i].clock.check)
  }

  lemma {:induction false} BesiegedPrefix(s: State, limit: int, h: History, name: string, n: nat)
    requires Besieged(s, limit, h, name) && n <= |h|
    ensures Besieged(s, limit, h[..n], name)
  {
    forall i | 0 <= i < n && h[i].username == name ensures HasRoom(s, limit, h[..n], i) {
      RoomPrefix(s, limit, h, n, i);
    }
  }

  lemma {:induction false} RoomPrefix(s: State, limit: int, h: History, n: nat, i: nat)
    requires i < n <= |h| && HasRoom(s, limit, h, i)
    ensures HasRoom(s, limit, h[..n], i)
  {
    assert h[..n][..i] == h[..i];
  }

  /** Below the threshold the account's row only counts its own tries. */
  lemma {:induction false} SiegeCounts(s: State, limit: int, lockout: int, h: History, name: string)
    requires limit > 0 && Besieged(s, limit, h, name) && 0 <= s.users[name].failed
    requires s.users[name].failed + TriesOn(h, name) < limit
    ensures var now := Run(s, limit, lockout, h);
            name in now.users && now.users[name] == s.users[name].(failed := s.users[name].failed + TriesOn(h, name))
  {
    if h != [] {
      var n := |h| - 1;
      var before := Run(s, limit, lockout, h[..n]);
      BesiegedPrefix(s, limit, h, name, n);
      SiegeCounts(s, limit, lockout, h[..n], name);
      if h[n].username == name {
        RoomPasses(s, limit, lockout, h, n);
        WrongCounted(before, limit, lockout, h[n]);
      } else {
        RowStep(before, limit, lockout, h[n], name);
      }
    }
  }

  lemma {:induction false} TriesRise(h: History, name: string, i: nat)
    requires i < |h| && h[i].username == name
    ensures TriesOn(h[..i], name) < TriesOn(h, name)
  {
    var n := |h| - 1;
    if i < n {
      TriesRise(h[..n], name, i);
      assert h[..n][..i] == h[..i];
    }
  }

  /** Up to the threshold each of them is verified. */
  lemma {:induction false} SiegeReply(s: State, limit: int, lockout: int, h: History, name: string, i: nat)
    requires limit > 0 && Besieged(s, limit, h, name) && 0 <= s.users[name].failed
    requires s.users[name].failed + TriesOn(h, name) <= limit && i < |h| && h[i].username == name
    ensures ReplyTo(s, limit, lockout, h, i) == InvalidCredentials
  {
    TriesRise(h, name, i);
    BesiegedPrefix(s, limit, h, name, i);
    SiegeCounts(s, limit, lockout, h[..i], name);
    RoomPasses(s, limit, lockout, h, i);
    WrongCounted(Run(s, limit, lockout, h[..i]), limit, lockout, h[i]);
  }

  /** Lock before throttle, among everybody else's tries and from any number of addresses: every one of
      the wrong passwords up to the threshold is verified, and the one that reaches it locks. */
  lemma {:induction false} SiegeLocks(s: State, limit: int, lockout: int, h: History, name: string)
    requires limit > 0 && Besieged(s, limit, h, name) && 0 <= s.users[name].failed < limit
    requires TriesOn(h, name) == limit - s.users[name].failed && h != [] && h[|h| - 1].username == name
    ensures forall i | 0 <= i < |h| && h[i].username == name :: ReplyTo(s, limit, lockout, h, i) == InvalidCredentials
    ensures var now := Run(s, limit, lockout, h);
            && name in now.users && now.users[name].failed == 0
            && now.users[name].lockedUntil == Some(Stamp(h[|h| - 1].clock.record + lockout))
  {
    forall i | 0 <= i < |h| && h[i].username == name ensures ReplyTo(s, limit, lockout, h, i) == InvalidCredentials {
      SiegeReply(s, limit, lockout, h, name, i);
    }
    var n := |h| - 1;
    BesiegedPrefix(s, limit, h, name, n);
    SiegeCounts(s, limit, lockout, h[..n], name);
    RoomPasses(s, limit, lockout, h, n);
    WrongCounted(Run(s, limit, lockout, h[..n]), limit, lockout, h[n]);
  }

  // ---------------------------------------------------------------------- where room comes from

  /** Tries from the address on other accounts. */
  function OthersFrom(h: History, clientIP: string, name: string): nat {
    if h == [] then 0
    else OthersFrom(h[..|h| - 1], clientIP, name)
         + (if h[|h| - 1].clientIP == clientIP && h[|h| - 1].username != name then 1 else 0)
  }

  lemma {:induction false} SameAddress(a: string, b: string)
    requires IpKey(a) == IpKey(b)
    ensures a == b
  {
    assert IpKey(a)[3..] == a && IpKey(b)[3..] == b;
  }

  lemma {:induction false} CallsSplit(h: History, name: string, clientIP: string)
    requires forall t | t in h && UserKey(t.username) == UserKey(name) :: t.username == name
    ensures Calls(h, UserKey(name)) == TriesOn(h, name)
    ensures Calls(h, IpKey(clientIP)) <= TriesOn(h, name) + OthersFrom(h, clientIP, name)
  {
    if h != [] {
      var n := |h| - 1;
      var t := h[n];
      assert t in h && forall x | x in h[..n] :: x in h;
      CallsSplit(h[..n], name, clientIP);
      KeysApart(t.username, clientIP);
      KeysApart(name, t.clientIP);
      if IpKey(t.clientIP) == IpKey(clientIP) {
        SameAddress(t.clientIP, clientIP);
      }
    }
  }

  /** With nothing recent on the name, nobody else's name folding to it, and at most three thresholds'
      worth from each address used (recent ones, and others' since), every try up to the threshold
      finds room. */
  lemma {:induction false} FreshNameHasRoom(s: State, limit: int, h: History, name: string, i: nat)
    requires i < |h| && h[i].username == name && TriesOn(h, name) <= limit
    requires forall t | t in h && UserKey(t.username) == UserKey(name) :: t.username == name
    requires |Recent(HitsOf(s.table, UserKey(name)), h[i].clock.user - MINUTE)| == 0
    requires h[i].clientIP != "" ==>
               |Recent(HitsOf(s.table, IpKey(h[i].clientIP)), h[i].clock.ip - MINUTE)| + OthersFrom(h[..i], h[i].clientIP, name)
               <= 3 * limit
    ensures HasRoom(s, limit, h, i)
  {
    TriesRise(h, name, i);
    assert forall x | x in h[..i] :: x in h;
    CallsSplit(h[..i], name, h[i].clientIP);
  }
}
