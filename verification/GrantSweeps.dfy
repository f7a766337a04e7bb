/** What a sweep changes: no answer to a caller, except the row's number, and exactly when. */
module GrantSweeps {
  import opened Basics
  import opened Timestamps
  import opened Grants
  import opened GrantLaws

  function WithoutSweeps(h: seq<Event>): seq<Event> {
    if h == [] then []
    else WithoutSweeps(h[..|h| - 1]) + (if h[|h| - 1].op.Sweep? then [] else [h[|h| - 1]])
  }

  lemma {:induction false} SweepsLeaveTheGrant(h: seq<Event>)
    ensures Current(WithoutSweeps(h)) == Current(h)
  {
    if h != [] {
      var n := |h| - 1;
      SweepsLeaveTheGrant(h[..n]);
      var w := WithoutSweeps(h[..n]);
      if h[n].op.Sweep? {
        assert WithoutSweeps(h) == w;
      } else {
        assert (w + [h[n]])[..|w|] == w;
      }
    }
  }

  /** Two runs that differ only in when they swept answer every caller alike, up to the row's number. */
  lemma {:induction false} SweepInvisible(h: seq<Event>, g: seq<Event>, e: Event)
    requires Ordered(h + [e]) && FreshTokens(h + [e])
    requires Ordered(g + [e]) && FreshTokens(g + [e])
    requires WithoutSweeps(h) == WithoutSweeps(g)
    requires e.op.Issue? || e.op.Live? || e.op.Redeem?
    ensures WithoutId(AnswerTo(h, e)) == WithoutId(AnswerTo(g, e))
  {
    SweepsLeaveTheGrant(h);
    SweepsLeaveTheGrant(g);
    AnswersTold(h, e);
    AnswersTold(g, e);
  }

  // --------------------------------------------------------------- the row's number

  /** The stored expiry of the last link handed out. */
  function NewestExpiry(h: seq<Event>): Option<Time> {
    if h == [] then None
    else if Mints(h, |h| - 1) then Some(Stamp(h[|h| - 1].now + WINDOW)) else NewestExpiry(h[..|h| - 1])
  }

  /** A sweep that runs when a link has been handed out and the newest is past its stored expiry. */
  predicate Empties(h: seq<Event>, i: nat)
    requires i < |h|
  {
    h[i].op.Sweep? && NewestExpiry(h[..i]).Some? && NewestExpiry(h[..i]).value <= h[i].now
  }

  /** How many links have been handed out, and how many since a sweep last emptied the table. */
  function HandedOut(h: seq<Event>): nat {
    if h == [] then 0 else HandedOut(h[..|h| - 1]) + (if Mints(h, |h| - 1) then 1 else 0)
  }

  function SinceEmptied(h: seq<Event>): nat {
    if h == [] then 0
    else if Empties(h, |h| - 1) then 0
    else SinceEmptied(h[..|h| - 1]) + (if Mints(h, |h| - 1) then 1 else 0)
  }

  predicate NeverEmptied(h: seq<Event>) { forall i | 0 <= i < |h| :: !Empties(h, i) }

  /** The last row bears the highest number and the latest expiry, and is the only one that may be open. */
  ghost predicate Numbered(rows: seq<Row>, k: nat, newest: Option<Time>, now: Time) {
    && (rows == [] <==> k == 0)
    && (newest.Some? ==> IsStamp(newest.value) && newest.value <= Stamp(now + WINDOW))
    && (forall i | 0 <= i < |rows| ::
          rows[i].id <= k && newest.Some? && rows[i].expires <= newest.value && IsStamp(rows[i].expires))
    && (forall i | 0 <= i < |rows| - 1 :: !Open(rows[i], now))
    && (rows != [] ==> rows[|rows| - 1].id == k && newest == Some(rows[|rows| - 1].expires))
  }

  lemma {:induction false} NumberedLater(rows: seq<Row>, k: nat, newest: Option<Time>, early: Time, late: Time)
    requires Numbered(rows, k, newest, early) && early <= late
    ensures Numbered(rows, k, newest, late)
  {
  }

  lemma {:induction false} HighestNumber(rows: seq<Row>, k: nat, newest: Option<Time>, now: Time)
    requires Numbered(rows, k, newest, now)
    ensures MaxId(rows) == k
  {
    AtMost(rows, k);
    if rows != [] {
      assert rows[|rows| - 1] in rows;
    }
  }

  lemma {:induction false} AtMost(rows: seq<Row>, k: nat)
    requires forall i | 0 <= i < |rows| :: rows[i].id <= k
    ensures MaxId(rows) <= k
  {
    if rows != [] {
      AtMost(rows[..|rows| - 1], k);
    }
  }

  lemma {:induction false} NumberedIssue(rows: seq<Row>, k: nat, newest: Option<Time>, token: string, now: Time)
    requires Numbered(rows, k, newest, now) && NewestOpen(rows, Stamp(now)).None?
    ensures Numbered(Issuing(rows, token, now).0, k + 1, Some(Stamp(now + WINDOW)), now)
  {
    HighestNumber(rows, k, newest, now);
    forall i | 0 <= i < |rows| ensures !Open(rows[i], now) {
      assert rows[i] in rows;
      StampCompare(rows[i].expires, now);
    }
    NumberedMore(rows, k, newest, now, Row(k + 1, token, Stamp(now + WINDOW), Stamp(now), 0, false));
  }

  lemma {:induction false} NumberedMore(rows: seq<Row>, k: nat, newest: Option<Time>, now: Time, r: Row)
    requires Numbered(rows, k, newest, now) && forall i | 0 <= i < |rows| :: !Open(rows[i], now)
    requires r.id == k + 1 && r.expires == Stamp(now + WINDOW)
    ensures Numbered(rows + [r], k + 1, Some(r.expires), now)
  {
    var more := rows + [r];
    assert more[|rows|] == r && forall i | 0 <= i < |rows| :: more[i] == rows[i];
  }

  lemma {:induction false} NumberedSweep(rows: seq<Row>, k: nat, newest: Option<Time>, now: Time)
    requires Numbered(rows, k, newest, now)
    ensures Numbered(Unexpired(rows, Stamp(now)), if newest.Some? && newest.value <= now then 0 else k, newest, now)
  {
    var left := Unexpired(rows, Stamp(now));
    if newest.Some? {
      StampCompare(newest.value, now);
    }
    if rows != [] {
      assert left == Unexpired(rows[..|rows| - 1], Stamp(now))
                     + (if rows[|rows| - 1].expires > Stamp(now) then [rows[|rows| - 1]] else []);
      assert left != [] ==> left[0] in left;
    }
    forall i | 0 <= i < |left|
      ensures exists j :: 0 <= j < |rows| && rows[j] == left[i] && (i < |left| - 1 ==> j < |rows| - 1)
    {
      var j := SweptFrom(rows, Stamp(now), i);
    }
  }

  /** What a sweep leaves keeps its order. */
  lemma {:induction false} SweptFrom(rows: seq<Row>, now: Time, i: nat) returns (j: nat)
    requires i < |Unexpired(rows, now)|
    ensures j < |rows| && rows[j] == Unexpired(rows, now)[i] && (i < |Unexpired(rows, now)| - 1 ==> j < |rows| - 1)
  {
    var n := |rows| - 1;
    if i < |Unexpired(rows[..n], now)| {
      j := SweptFrom(rows[..n], now, i);
    } else {
      j := n;
    }
  }

  lemma {:induction false} NumberedOther(rows: seq<Row>, k: nat, newest: Option<Time>, e: Event)
    requires Numbered(rows, k, newest, e.now) && (e.op.Live? || e.op.Redeem? || e.op.Revoke?)
    ensures Numbered(Do(rows, e).0, k, newest, e.now)
  {
  }

  /** Handing out a new secret is finding no row open. */
  lemma {:induction false} MintsIffNoneOpen(h: seq<Event>, n: nat)
    requires FreshTokens(h) && n < |h|
    ensures Mints(h, n) <==> h[n].op.Issue? && NewestOpen(Run(h[..n]), Stamp(h[n].now)).None?
  {
    assert h[n].op.Issue? ==> h[n].op.token != "";
  }

  lemma {:induction false} RunNumbered(h: seq<Event>, now: Time)
    requires Ordered(h) && FreshTokens(h) && (h != [] ==> h[|h| - 1].now <= now)
    ensures Numbered(Run(h), SinceEmptied(h), NewestExpiry(h), now)
  {
    if h != [] {
      var n := |h| - 1;
      var rows, k, newest, e := Run(h[..n]), SinceEmptied(h[..n]), NewestExpiry(h[..n]), h[n];
      RunNumbered(h[..n], e.now);
      MintsIffNoneOpen(h, n);
      if e.op.Issue? && NewestOpen(rows, Stamp(e.now)).None? {
        NumberedIssue(rows, k, newest, e.op.token, e.now);
      } else if e.op.Sweep? {
        NumberedSweep(rows, k, newest, e.now);
      } else if !e.op.Issue? {
        NumberedOther(rows, k, newest, e);
      }
      NumberedLater(Run(h), SinceEmptied(h), NewestExpiry(h), e.now, now);
    }
  }

  /** The only row that can be shown or redeemed is the last. */
  lemma {:induction false} OpenIsLast(rows: seq<Row>, k: nat, newest: Option<Time>, now: Time, r: Row)
    requires Numbered(rows, k, newest, now) && r in rows && Open(r, now)
    ensures r.id == k
  {
    var i :| 0 <= i < |rows| && rows[i] == r;
  }

  /** A new link is numbered one past those handed out since a sweep last ran at or past the newest
      link's stored expiry; a link shown or redeemed has the number of the last of them. */
  lemma {:induction false} NumberRule(h: seq<Event>, e: Event)
    requires Ordered(h + [e]) && FreshTokens(h + [e]) && AnswerTo(h, e).Got?
    ensures AnswerTo(h, e).grant.id == SinceEmptied(h) + (if HandsOut(h, e) then 1 else 0)
  {
    var g := h + [e];
    assert g[..|h|] == h && g[|h|] == e && forall i | 0 <= i < |h| :: g[i] == h[i];
    RunNumbered(h, e.now);
    if e.op.Redeem? {
      RedeemedNumber(Run(h), SinceEmptied(h), NewestExpiry(h), e.op.token, e.now);
    } else {
      MintsIffNoneOpen(g, |h|);
      ShownNumber(Run(h), SinceEmptied(h), NewestExpiry(h), e);
    }
  }

  lemma {:induction false} RedeemedNumber(rows: seq<Row>, k: nat, newest: Option<Time>, token: string, now: Time)
    requires Numbered(rows, k, newest, now) && Redeeming(rows, token, now).1.Got?
    ensures Redeeming(rows, token, now).1.grant.id == k
  {
    OpenIsLast(rows, k, newest, now, FindToken(rows, token).value);
  }

  lemma {:induction false} ShownNumber(rows: seq<Row>, k: nat, newest: Option<Time>, e: Event)
    requires Numbered(rows, k, newest, e.now) && (e.op.Issue? || e.op.Live?) && Do(rows, e).1.Got?
    ensures Do(rows, e).1.grant.id == if NewestOpen(rows, Stamp(e.now)).None? then k + 1 else k
  {
    HighestNumber(rows, k, newest, e.now);
    if NewestOpen(rows, Stamp(e.now)).Some? {
      var r := NewestOpen(rows, Stamp(e.now)).value;
      var i :| 0 <= i < |rows| && rows[i] == r;
      StampCompare(r.expires, e.now);
      OpenIsLast(rows, k, newest, e.now, r);
    }
  }

  /** Nothing is lost from the count exactly when no sweep emptied the table. */
  lemma {:induction false} CountsAllIff(h: seq<Event>)
    ensures SinceEmptied(h) <= HandedOut(h)
    ensures SinceEmptied(h) == HandedOut(h) <==> NeverEmptied(h)
    ensures NewestExpiry(h).Some? <==> HandedOut(h) > 0
  {
    if h != [] {
      var n := |h| - 1;
      CountsAllIff(h[..n]);
      assert forall i | 0 <= i < n :: h[..n][..i] == h[..i];
      assert NeverEmptied(h) <==> NeverEmptied(h[..n]) && !Empties(h, n) by {
        forall i | 0 <= i < n ensures Empties(h[..n], i) <==> Empties(h, i) {
          assert h[..n][..i] == h[..i];
        }
      }
    }
  }

  lemma {:induction false} WithoutSweepsIn(h: seq<Event>)
    ensures forall x | x in WithoutSweeps(h) :: x in h && !x.op.Sweep?
  {
    if h != [] {
      WithoutSweepsIn(h[..|h| - 1]);
    }
  }

  /** An event may follow these. */
  ghost predicate MayFollow(h: seq<Event>, e: Event) {
    && (forall x | x in h :: x.now <= e.now)
    && (e.op.Issue? ==> e.op.token != "" && forall x | x in h && x.op.Issue? :: x.op.token != e.op.token)
  }

  lemma {:induction false} LastMayFollow(h: seq<Event>)
    requires Ordered(h) && FreshTokens(h) && h != []
    ensures MayFollow(h[..|h| - 1], h[|h| - 1])
  {
    var n := |h| - 1;
    forall x | x in h[..n] ensures x.now <= h[n].now && (x.op.Issue? && h[n].op.Issue? ==> x.op.token != h[n].op.token) {
      var i :| 0 <= i < n && h[..n][i] == x;
      assert h[i] == x;
    }
  }

  lemma {:induction false} FollowedFits(h: seq<Event>, e: Event)
    requires Ordered(h) && FreshTokens(h) && MayFollow(h, e)
    ensures Ordered(h + [e]) && FreshTokens(h + [e])
  {
    assert forall i | 0 <= i < |h| :: h[i] in h;
  }

  /** Leaving the sweeps out leaves the clock in order and the secrets fresh. */
  lemma {:induction false} WithoutSweepsFit(h: seq<Event>)
    requires Ordered(h) && FreshTokens(h)
    ensures Ordered(WithoutSweeps(h)) && FreshTokens(WithoutSweeps(h))
  {
    if h != [] {
      var n := |h| - 1;
      WithoutSweepsFit(h[..n]);
      LastMayFollow(h);
      WithoutSweepsIn(h[..n]);
      FollowedFits(WithoutSweeps(h[..n]), h[n]);
    }
  }

  lemma {:induction false} HandedOutSnoc(h: seq<Event>, e: Event)
    ensures HandedOut(h + [e]) == HandedOut(h) + (if HandsOut(h, e) then 1 else 0)
  {
    assert (h + [e])[..|h|] == h;
  }

  /** The sweeps make no difference to what is handed out. */
  lemma {:induction false} SweepsLeaveTheLinks(h: seq<Event>)
    requires Ordered(h) && FreshTokens(h)
    ensures HandedOut(WithoutSweeps(h)) == HandedOut(h)
  {
    if h != [] {
      var n := |h| - 1;
      SweepsLeaveTheLinks(h[..n]);
      LinksStep(h[..n], h[n]);
      assert h[..n] + [h[n]] == h;
    }
  }

  lemma {:induction false} LinksStep(h: seq<Event>, e: Event)
    requires Ordered(h + [e]) && FreshTokens(h + [e]) && HandedOut(WithoutSweeps(h)) == HandedOut(h)
    ensures HandedOut(WithoutSweeps(h + [e])) == HandedOut(h + [e])
  {
    var w := WithoutSweeps(h);
    HandedOutSnoc(h, e);
    assert (h + [e])[..|h|] == h;
    if e.op.Sweep? {
      assert WithoutSweeps(h + [e]) == w;
    } else {
      assert WithoutSweeps(h + [e]) == w + [e];
      WithoutSweepsFit(h + [e]);
      SameHandedOut(h, e);
      HandedOutSnoc(w, e);
    }
  }

  lemma {:induction false} SameHandedOut(h: seq<Event>, e: Event)
    requires Ordered(h + [e]) && FreshTokens(h + [e])
    requires Ordered(WithoutSweeps(h) + [e]) && FreshTokens(WithoutSweeps(h) + [e])
    ensures HandsOut(WithoutSweeps(h), e) <==> HandsOut(h, e)
  {
    if e.op.Issue? {
      SweepsLeaveTheGrant(h);
      AnswersTold(h, e);
      AnswersTold(WithoutSweeps(h), e);
    }
  }

  /** A history and the same history never swept give one answer, number and all, unless some
      sweep emptied the table of a link that had been handed out; then no number is the same. */
  lemma {:induction false} SweepKeepsNumberIff(h: seq<Event>, e: Event)
    requires Ordered(h + [e]) && FreshTokens(h + [e])
    requires e.op.Issue? || e.op.Live? || e.op.Redeem?
    ensures AnswerTo(h, e) == AnswerTo(WithoutSweeps(h), e) <==> !AnswerTo(h, e).Got? || NeverEmptied(h)
  {
    UnsweptFits(h, e);
    UnsweptTwice(h);
    SweptAlikeIff(h, WithoutSweeps(h), e);
    CountsAllIff(h);
    NeverSwept(h);
    CountsAllIff(WithoutSweeps(h));
    SweepsLeaveTheLinks(h);
  }

  lemma {:induction false} UnsweptFits(h: seq<Event>, e: Event)
    requires Ordered(h + [e]) && FreshTokens(h + [e]) && !e.op.Sweep?
    ensures Ordered(h) && FreshTokens(h)
    ensures Ordered(WithoutSweeps(h) + [e]) && FreshTokens(WithoutSweeps(h) + [e])
  {
    var g := h + [e];
    assert g[..|h|] == h && g[|h|] == e && forall i | 0 <= i < |h| :: g[i] == h[i];
    WithoutSweepsFit(g);
    assert WithoutSweeps(g) == WithoutSweeps(h) + [e];
  }

  /** Leaving the sweeps out of what has none changes nothing. */
  lemma {:induction false} UnsweptTwice(h: seq<Event>)
    ensures WithoutSweeps(WithoutSweeps(h)) == WithoutSweeps(h)
  {
    if h != [] {
      var n := |h| - 1;
      UnsweptTwice(h[..n]);
      var w := WithoutSweeps(h[..n]);
      if h[n].op.Sweep? {
        assert WithoutSweeps(h) == w;
      } else {
        assert (w + [h[n]])[..|w|] == w;
      }
    }
  }

  /** Two histories that differ only in their sweeps give one answer, number and all, exactly when they
      give none or have handed out as many links since the table was last emptied. */
  lemma {:induction false} SweptAlikeIff(h: seq<Event>, g: seq<Event>, e: Event)
    requires Ordered(h + [e]) && FreshTokens(h + [e])
    requires Ordered(g + [e]) && FreshTokens(g + [e])
    requires WithoutSweeps(h) == WithoutSweeps(g)
    requires e.op.Issue? || e.op.Live? || e.op.Redeem?
    ensures AnswerTo(h, e) == AnswerTo(g, e) <==> !AnswerTo(h, e).Got? || SinceEmptied(h) == SinceEmptied(g)
  {
    SweepInvisible(h, g, e);
    if AnswerTo(h, e).Got? {
      NumberRule(h, e);
      NumberRule(g, e);
    }
  }

  lemma {:induction false} NeverSwept(h: seq<Event>)
    ensures NeverEmptied(WithoutSweeps(h))
  {
    WithoutSweepsIn(h);
    forall i | 0 <= i < |WithoutSweeps(h)| ensures !WithoutSweeps(h)[i].op.Sweep? {
      assert WithoutSweeps(h)[i] in WithoutSweeps(h);
    }
  }

  /** The number itself can differ: a sweep that empties the table lets it start over. */
  lemma {:induction false} SweepReusesNumbers()
    ensures var first := Event(Issue("a"), 0);
            var again := Event(Issue("b"), WINDOW);
            && AnswerTo([first], again) == Got(Grant(2, "b", 2 * WINDOW, WINDOW, 0))
            && AnswerTo([first, Event(Sweep, WINDOW)], again) == Got(Grant(1, "b", 2 * WINDOW, WINDOW, 0))
  {
    var first, sweep, again := Event(Issue("a"), 0), Event(Sweep, WINDOW), Event(Issue("b"), WINDOW);
    var row := Row(1, "a", WINDOW, 0, 0, false);
    assert [first][..0] == [] && [first, sweep][..1] == [first];
    assert Run([]) == [] && NewestOpen([], 0) == None && MaxId([]) == 0;
    assert Do([], first).0 == [row];
    assert Run([first]) == [row];
    assert [row][..0] == [];
    assert NewestOpen([row], WINDOW) == None && MaxId([row]) == 1 && Unexpired([row], WINDOW) == [];
    assert Run([first, sweep]) == [];
    assert NewestOpen([], WINDOW) == None;
    assert Stamp(WINDOW) == WINDOW && Stamp(2 * WINDOW) == 2 * WINDOW;
    assert AnswerTo([first], again) == Issuing([row], "b", WINDOW).1;
    assert AnswerTo([first, sweep], again) == Issuing([], "b", WINDOW).1;
  }
}
