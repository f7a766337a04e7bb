/** What the table amounts to: at most one grant in hand, and the history that put it there. */
module GrantLaws {
  import opened Basics
  import opened Timestamps
  import opened Grants

  function Run(h: seq<Event>): seq<Row> {
    if h == [] then [] else Do(Run(h[..|h| - 1]), h[|h| - 1]).0
  }

  function AnswerTo(h: seq<Event>, e: Event): Answer { Do(Run(h), e).1 }

  /** The clock never runs backwards. */
  ghost predicate Ordered(h: seq<Event>) {
    forall i, j | 0 <= i < j < |h| :: h[i].now <= h[j].now
  }

  /** No secret is drawn twice, nor is any empty. */
  ghost predicate FreshTokens(h: seq<Event>) {
    && (forall i | 0 <= i < |h| && h[i].op.Issue? :: h[i].op.token != "")
    && (forall i, j | 0 <= i < j < |h| && h[i].op.Issue? && h[j].op.Issue? :: h[i].op.token != h[j].op.token)
  }

  // --------------------------------------------------------------- the grant in hand

  datatype Held = Held(token: string, expires: Time, created: Time, downloads: nat)

  /** The last grant minted and not revoked, expired or not; sweeping is nothing to it. */
  function Keep(cur: Option<Held>, e: Event): Option<Held> {
    match e.op
    case Issue(token) =>
      if cur.Some? && cur.value.expires > e.now then cur
      else Some(Held(token, Stamp(e.now + WINDOW), Stamp(e.now), 0))
    case Live => cur
    case Redeem(token) =>
      if cur.Some? && cur.value.token == token && cur.value.expires > e.now then
        Some(cur.value.(downloads := cur.value.downloads + 1))
      else cur
    case Revoke => None
    case Sweep => cur
  }

  function Current(h: seq<Event>): Option<Held> {
    if h == [] then None else Keep(Current(h[..|h| - 1]), h[|h| - 1])
  }

  /** What a caller is told, leaving out row numbers and the counts housekeeping reports. */
  function Told(cur: Option<Held>, e: Event): Answer {
    var live := cur.Some? && cur.value.expires > e.now;
    match e.op
    case Issue(token) =>
      if live then Got(Grant(0, "", cur.value.expires, cur.value.created, cur.value.downloads))
      else Got(Grant(0, token, e.now + WINDOW, e.now, 0))
    case Live =>
      if live then Got(Grant(0, "", cur.value.expires, cur.value.created, cur.value.downloads)) else NoGrant
    case Redeem(token) =>
      if live && cur.value.token == token then Got(Grant(0, "", cur.value.expires, 0, cur.value.downloads + 1))
      else NoGrant
    case Revoke => NoGrant
    case Sweep => NoGrant
  }

  function WithoutId(a: Answer): Answer {
    if a.Got? then Got(a.grant.(id := 0)) else a
  }

  function HeldOf(r: Row): Held { Held(r.token, r.expires, r.created, r.downloads) }

  /** The only row still open is the grant in hand. */
  ghost predicate Refines(rows: seq<Row>, cur: Option<Held>, now: Time) {
    && Distinct(rows)
    && (forall i | 0 <= i < |rows| :: IsStamp(rows[i].expires) && rows[i].token != "")
    && (forall i | 0 <= i < |rows| && Open(rows[i], now) :: cur == Some(HeldOf(rows[i])))
    && (cur.Some? && cur.value.expires > now ==> exists i :: 0 <= i < |rows| && Open(rows[i], now))
  }

  /** Time passing closes rows and never opens one. */
  lemma {:induction false} RefinesLater(rows: seq<Row>, cur: Option<Held>, early: Time, late: Time)
    requires Refines(rows, cur, early) && early <= late
    ensures Refines(rows, cur, late)
  {
    if cur.Some? && cur.value.expires > late {
      var i :| 0 <= i < |rows| && Open(rows[i], early);
      assert Open(rows[i], late);
    }
  }

  /** The row the queries find is the grant in hand, and they find it exactly while it lives. */
  lemma {:induction false} LiveRow(rows: seq<Row>, cur: Option<Held>, now: Time) returns (i: nat)
    requires Refines(rows, cur, now)
    ensures var r := NewestOpen(rows, Stamp(now));
            && (r.Some? <==> cur.Some? && cur.value.expires > now)
            && (r.Some? ==> i < |rows| && rows[i] == r.value && Open(rows[i], now) && cur == Some(HeldOf(rows[i])))
  {
    var r := NewestOpen(rows, Stamp(now));
    i := 0;
    if r.Some? {
      i :| 0 <= i < |rows| && rows[i] == r.value;
      StampCompare(rows[i].expires, now);
    }
    forall k | 0 <= k < |rows| && Open(rows[k], now) ensures r.Some? {
      StampCompare(rows[k].expires, now);
      assert rows[k] in rows;
    }
  }

  lemma {:induction false} TokenRow(rows: seq<Row>, cur: Option<Held>, now: Time, token: string) returns (i: nat)
    requires Refines(rows, cur, now)
    ensures var r := FindToken(rows, token);
            && (r.Some? && r.value.expires > now <==> cur.Some? && cur.value.expires > now && cur.value.token == token)
            && (r.Some? && r.value.expires > now ==>
                  i < |rows| && rows[i] == r.value && Open(rows[i], now) && cur == Some(HeldOf(rows[i])))
  {
    var r := FindToken(rows, token);
    i := 0;
    if r.Some? && r.value.expires > now {
      i :| 0 <= i < |rows| && rows[i] == r.value;
    }
    forall k | 0 <= k < |rows| && Open(rows[k], now) && rows[k].token == token ensures r == Some(rows[k]) {
      assert rows[k] in rows;
      var j :| 0 <= j < |rows| && rows[j] == r.value;
    }
  }

  // --------------------------------------------------------------- one step

  /** Every row already closed: a fresh one becomes the grant in hand. */
  lemma {:induction false} Minting(rows: seq<Row>, cur: Option<Held>, r: Row, now: Time)
    requires Refines(rows, cur, now) && !(cur.Some? && cur.value.expires > now)
    requires forall x | x in rows :: x.token != r.token && x.id < r.id
    requires IsStamp(r.expires) && r.token != "" && Open(r, now)
    ensures Refines(rows + [r], Some(HeldOf(r)), now)
  {
    var more := rows + [r];
    forall i | 0 <= i < |rows| ensures more[i].token != r.token && more[i].id != r.id && !Open(more[i], now) {
      assert rows[i] in rows;
    }
    assert more[|rows|] == r;
  }

  lemma {:induction false} Downloading(rows: seq<Row>, cur: Option<Held>, i: nat, now: Time)
    requires Refines(rows, cur, now) && i < |rows| && Open(rows[i], now)
    ensures Refines(Counted(rows, rows[i].id), Some(HeldOf(rows[i].(downloads := rows[i].downloads + 1))), now)
  {
    var more := Counted(rows, rows[i].id);
    assert Open(more[i], now);
    forall k | 0 <= k < |more| && Open(more[k], now) ensures k == i {
      assert Open(rows[k], now);
    }
  }

  lemma {:induction false} Sweeping(rows: seq<Row>, cur: Option<Held>, now: Time)
    requires Refines(rows, cur, now)
    ensures Refines(Unexpired(rows, Stamp(now)), cur, now)
  {
    var left := Unexpired(rows, Stamp(now));
    KeepsOthers(rows, Stamp(now));
    forall i | 0 <= i < |left|
      ensures IsStamp(left[i].expires) && left[i].token != ""
      ensures Open(left[i], now) ==> cur == Some(HeldOf(left[i]))
    {
      assert left[i] in left;
      var k :| 0 <= k < |rows| && rows[k] == left[i];
    }
    if cur.Some? && cur.value.expires > now {
      var k :| 0 <= k < |rows| && Open(rows[k], now);
      StampCompare(rows[k].expires, now);
      assert rows[k] in left;
      var i :| 0 <= i < |left| && left[i] == rows[k];
      assert Open(left[i], now);
    }
  }

  lemma {:induction false} IssueStep(rows: seq<Row>, cur: Option<Held>, token: string, now: Time)
    requires Refines(rows, cur, now)
    requires token != "" && forall x | x in rows :: x.token != token
    ensures var e := Event(Issue(token), now);
            Refines(Issuing(rows, token, now).0, Keep(cur, e), now)
            && WithoutId(Issuing(rows, token, now).1) == Told(cur, e)
  {
    var i := LiveRow(rows, cur, now);
    if NewestOpen(rows, Stamp(now)).None? {
      Minting(rows, cur, Row(MaxId(rows) + 1, token, Stamp(now + WINDOW), Stamp(now), 0, false), now);
    }
  }

  lemma {:induction false} RedeemStep(rows: seq<Row>, cur: Option<Held>, token: string, now: Time)
    requires Refines(rows, cur, now)
    ensures var e := Event(Redeem(token), now);
            Refines(Redeeming(rows, token, now).0, Keep(cur, e), now)
            && WithoutId(Redeeming(rows, token, now).1) == Told(cur, e)
  {
    var i := TokenRow(rows, cur, now, token);
    if cur.Some? && cur.value.expires > now && cur.value.token == token {
      Downloading(rows, cur, i, now);
    }
  }

  lemma {:induction false} RevokeStep(rows: seq<Row>, cur: Option<Held>, now: Time)
    requires Refines(rows, cur, now)
    ensures Refines(Revoked(rows), None, now)
  {
  }

  /** The table and the grant in hand move together, and the callers are told about that grant. */
  lemma {:induction false} StepRefines(rows: seq<Row>, cur: Option<Held>, e: Event)
    requires Refines(rows, cur, e.now)
    requires e.op.Issue? ==> e.op.token != "" && forall x | x in rows :: x.token != e.op.token
    ensures Refines(Do(rows, e).0, Keep(cur, e), e.now)
    ensures e.op.Issue? || e.op.Live? || e.op.Redeem? ==> WithoutId(Do(rows, e).1) == Told(cur, e)
  {
    match e.op
    case Issue(token) => IssueStep(rows, cur, token, e.now);
    case Live => var i := LiveRow(rows, cur, e.now);
    case Redeem(token) => RedeemStep(rows, cur, token, e.now);
    case Revoke => RevokeStep(rows, cur, e.now);
    case Sweep => Sweeping(rows, cur, e.now);
  }

  // --------------------------------------------------------------- whole runs

  function Minted(h: seq<Event>): set<string> {
    set i | 0 <= i < |h| && h[i].op.Issue? :: h[i].op.token
  }

  lemma {:induction false} TokensMinted(h: seq<Event>)
    ensures forall r | r in Run(h) :: r.token in Minted(h)
  {
    if h != [] {
      var n := |h| - 1;
      TokensMinted(h[..n]);
      var rows, e := Run(h[..n]), h[n];
      forall t | t in Minted(h[..n]) ensures t in Minted(h) {
        var i :| 0 <= i < n && h[..n][i].op.Issue? && h[..n][i].op.token == t;
        assert h[i].op.token == t;
      }
      forall r | r in Run(h) ensures r.token in Minted(h) {
        if e.op.Issue? && r !in rows {
          assert h[n].op.token == r.token;
        } else if e.op.Redeem? || e.op.Revoke? {
          var k :| 0 <= k < |Run(h)| && Run(h)[k] == r;
          assert rows[k] in rows;
        }
      }
    }
  }

  /** A secret about to be drawn is on no row. */
  lemma {:induction false} NextTokenIsNew(h: seq<Event>, n: nat)
    requires FreshTokens(h) && n < |h| && h[n].op.Issue?
    ensures h[n].op.token != "" && h[n].op.token !in Minted(h[..n])
    ensures forall x | x in Run(h[..n]) :: x.token != h[n].op.token
  {
    TokensMinted(h[..n]);
  }

  lemma {:induction false} RunRefines(h: seq<Event>, now: Time)
    requires Ordered(h) && FreshTokens(h)
    requires h != [] ==> h[|h| - 1].now <= now
    ensures Refines(Run(h), Current(h), now)
  {
    if h != [] {
      var n := |h| - 1;
      RunRefines(h[..n], h[n].now);
      if h[n].op.Issue? {
        NextTokenIsNew(h, n);
      }
      StepRefines(Run(h[..n]), Current(h[..n]), h[n]);
      RefinesLater(Run(h), Current(h), h[n].now, now);
    }
  }

  lemma {:induction false} AnswersTold(h: seq<Event>, e: Event)
    requires Ordered(h + [e]) && FreshTokens(h + [e])
    requires e.op.Issue? || e.op.Live? || e.op.Redeem?
    ensures WithoutId(AnswerTo(h, e)) == Told(Current(h), e)
  {
    var g := h + [e];
    assert g[..|h|] == h && g[|h|] == e;
    assert forall i | 0 <= i < |h| :: g[i] == h[i];
    RunRefines(h, e.now);
    if e.op.Issue? {
      NextTokenIsNew(g, |h|);
    }
    StepRefines(Run(h), Current(h), e);
  }

  /** However the run went, no two rows are open at once. */
  lemma {:induction false} AtMostOneLive(h: seq<Event>, now: Time)
    requires Ordered(h) && FreshTokens(h)
    requires h != [] ==> h[|h| - 1].now <= now
    ensures forall i, j | 0 <= i < |Run(h)| && 0 <= j < |Run(h)| && Open(Run(h)[i], now) && Open(Run(h)[j], now) :: i == j
  {
    RunRefines(h, now);
  }

  // --------------------------------------------------------------- which tokens work

  /** The i-th event handed out a new secret. */
  predicate Mints(h: seq<Event>, i: nat)
    requires i < |h|
  {
    HandsOut(h[..i], h[i])
  }

  predicate HandsOut(h: seq<Event>, e: Event) {
    e.op.Issue? && AnswerTo(h, e).Got? && AnswerTo(h, e).grant.token != ""
  }

  predicate NoRevoke(h: seq<Event>, from: nat, to: nat)
    requires to <= |h|
  {
    forall j | from <= j < to :: !h[j].op.Revoke?
  }

  /** Handed out by the i-th event, not revoked since, and its stored expiry still ahead. */
  predicate Usable(h: seq<Event>, i: nat, token: string, now: Time)
    requires i < |h|
  {
    Mints(h, i) && h[i].op.token == token && NoRevoke(h, i + 1, |h|) && now < Stamp(h[i].now + 900_000_000_000)
  }

  /** The grant in hand after the first n events. */
  function InHand(h: seq<Event>, n: nat): Option<Held>
    requires n <= |h|
  {
    if n == 0 then None else Keep(InHand(h, n - 1), h[n - 1])
  }

  lemma {:induction false} InHandIsCurrent(h: seq<Event>, n: nat)
    requires n <= |h|
    ensures InHand(h, n) == Current(h[..n])
  {
    if n > 0 {
      InHandIsCurrent(h, n - 1);
      assert h[..n][..n - 1] == h[..n - 1];
    }
  }

  predicate Starts(h: seq<Event>, i: nat)
    requires i < |h|
  {
    h[i].op.Issue? && !(InHand(h, i).Some? && InHand(h, i).value.expires > h[i].now)
  }

  /** A new secret goes out exactly when none is in hand. */
  lemma {:induction false} MintsIff(h: seq<Event>, i: nat)
    requires Ordered(h) && FreshTokens(h) && i < |h|
    ensures Mints(h, i) <==> Starts(h, i)
  {
    if h[i].op.Issue? {
      assert h[i].op.token != "";
      assert h[..i] + [h[i]] == h[..i + 1];
      AnswersTold(h[..i], h[i]);
      InHandIsCurrent(h, i);
    }
  }

  predicate HeldFrom(c: Held, e: Event) {
    e.op.Issue? && c.token == e.op.token && c.expires == Stamp(e.now + WINDOW)
  }

  /** The grant in hand came from an issue that nothing has revoked. */
  lemma {:induction false} HeldWasMinted(h: seq<Event>, n: nat) returns (i: nat)
    requires n <= |h| && InHand(h, n).Some?
    ensures i < n && Starts(h, i) && HeldFrom(InHand(h, n).value, h[i]) && NoRevoke(h, i + 1, n)
  {
    if Starts(h, n - 1) {
      i := n - 1;
    } else {
      i := HeldWasMinted(h, n - 1);
    }
  }

  /** What an issue minted stays in hand until revoked or out of time. */
  lemma {:induction false} MintedIsHeld(h: seq<Event>, i: nat, n: nat)
    requires i < n <= |h| && Starts(h, i) && NoRevoke(h, i + 1, n)
    requires forall j | i < j < n :: h[j].now < Stamp(h[i].now + WINDOW)
    ensures InHand(h, n).Some? && HeldFrom(InHand(h, n).value, h[i])
  {
    if i < n - 1 {
      MintedIsHeld(h, i, n - 1);
    }
  }

  lemma {:induction false} HeldIff(h: seq<Event>, token: string, now: Time)
    requires Ordered(h) && FreshTokens(h) && forall j | 0 <= j < |h| :: h[j].now <= now
    ensures Current(h).Some? && Current(h).value.expires > now && Current(h).value.token == token
       <==> exists i | 0 <= i < |h| :: Usable(h, i, token, now)
  {
    InHandIsCurrent(h, |h|);
    assert h[..|h|] == h;
    var c := Current(h);
    if c.Some? && c.value.expires > now && c.value.token == token {
      var i := HeldIsUsable(h, now);
    }
    forall i | 0 <= i < |h| && Usable(h, i, token, now)
      ensures c.Some? && c.value.expires > now && c.value.token == token
    {
      UsableIsHeld(h, i, token, now);
    }
  }

  lemma {:induction false} HeldIsUsable(h: seq<Event>, now: Time) returns (i: nat)
    requires Ordered(h) && FreshTokens(h) && InHand(h, |h|).Some? && InHand(h, |h|).value.expires > now
    ensures i < |h| && Usable(h, i, InHand(h, |h|).value.token, now)
  {
    i := HeldWasMinted(h, |h|);
    MintsIff(h, i);
  }

  lemma {:induction false} UsableIsHeld(h: seq<Event>, i: nat, token: string, now: Time)
    requires Ordered(h) && FreshTokens(h) && forall j | 0 <= j < |h| :: h[j].now <= now
    requires i < |h| && Usable(h, i, token, now)
    ensures InHand(h, |h|).Some? && InHand(h, |h|).value.expires > now && InHand(h, |h|).value.token == token
  {
    MintsIff(h, i);
    MintedIsHeld(h, i, |h|);
  }

  /** A token works exactly when it was minted less than a window ago, to the millisecond, and not revoked. */
  lemma {:induction false} RedeemIff(h: seq<Event>, token: string, now: Time)
    requires Ordered(h + [Event(Redeem(token), now)]) && FreshTokens(h)
    ensures AnswerTo(h, Event(Redeem(token), now)).Got? <==> exists i | 0 <= i < |h| :: Usable(h, i, token, now)
  {
    var e := Event(Redeem(token), now);
    OneMore(h, e);
    AnswersTold(h, e);
    HeldIff(h, token, now);
  }

  lemma {:induction false} OneMore(h: seq<Event>, e: Event)
    requires Ordered(h + [e]) && FreshTokens(h) && !e.op.Issue?
    ensures Ordered(h) && FreshTokens(h + [e]) && forall j | 0 <= j < |h| :: h[j].now <= e.now
  {
    var g := h + [e];
    assert g[|h|] == e && forall i | 0 <= i < |h| :: g[i] == h[i];
    assert forall j | 0 <= j < |h| :: g[j].now <= g[|h|].now;
  }

  // --------------------------------------------------------------- counting downloads

  /** How often the token was redeemed with success. */
  function Redemptions(h: seq<Event>, token: string): nat {
    if h == [] then 0
    else
      var n := |h| - 1;
      Redemptions(h[..n], token) + (if h[n].op == Redeem(token) && AnswerTo(h[..n], h[n]).Got? then 1 else 0)
  }

  lemma {:induction false} OnlyMintedRedeem(h: seq<Event>, token: string)
    ensures Redemptions(h, token) > 0 ==> token in Minted(h)
  {
    if h != [] {
      var n := |h| - 1;
      OnlyMintedRedeem(h[..n], token);
      TokensMinted(h[..n]);
      if Redemptions(h, token) > 0 {
        assert token in Minted(h[..n]);
        var i :| 0 <= i < n && h[..n][i].op.Issue? && h[..n][i].op.token == token;
        assert h[i].op.token == token;
      }
    }
  }

  /** Every row's count, live or dead, is the successful redemptions of its token. */
  lemma {:induction false} DownloadCountIsRedemptions(h: seq<Event>)
    requires Ordered(h) && FreshTokens(h)
    ensures forall r | r in Run(h) :: r.downloads == Redemptions(h, r.token)
  {
    if h != [] {
      var n := |h| - 1;
      var rows, e := Run(h[..n]), h[n];
      DownloadCountIsRedemptions(h[..n]);
      if e.op.Issue? {
        OnlyMintedRedeem(h[..n], e.op.token);
        NextTokenIsNew(h, n);
      }
      RunRefines(h[..n], e.now);
      forall r | r in Run(h) ensures r.downloads == Redemptions(h, r.token) {
        CountStep(rows, e, r);
      }
    }
  }

  /** One event adds one to the row it redeems and leaves the others' counts. */
  lemma {:induction false} CountStep(rows: seq<Row>, e: Event, r: Row)
    requires Distinct(rows) && r in Do(rows, e).0
    requires e.op.Issue? ==> forall x | x in rows :: x.token != e.op.token
    ensures (exists x :: x in rows && x.token == r.token) || (e.op == Issue(r.token) && r.downloads == 0)
    ensures forall x | x in rows && x.token == r.token ::
              r.downloads == x.downloads + (if e.op == Redeem(r.token) && Do(rows, e).1.Got? then 1 else 0)
  {
    if e.op.Redeem? || e.op.Revoke? {
      var k :| 0 <= k < |Do(rows, e).0| && Do(rows, e).0[k] == r;
      assert rows[k] in rows && rows[k].token == r.token;
      if e.op.Redeem? && Do(rows, e).1.Got? {
        var j :| 0 <= j < |rows| && Some(rows[j]) == FindToken(rows, e.op.token);
      }
    }
  }
}
