/** Download links: one live at a time, refused by the row's own expiry, swept when it does not matter. */
module Grants {
  import opened Basics
  import opened Timestamps

  const WINDOW: int := 15 * MINUTE

  /** A row; the token stands for its hash, which is taken to be injective. */
  datatype Row = Row(id: nat, token: string, expires: Time, created: Time, downloads: nat, deleted: bool)

  datatype Grant = Grant(id: nat, token: string, expiresAt: Time, created: Time, downloads: nat)

  datatype Op = Issue(token: string) | Live | Redeem(token: string) | Revoke | Sweep

  /** An operation at a time; Issue carries the secret it would mint. */
  datatype Event = Event(op: Op, now: Time)

  datatype Answer = Got(grant: Grant) | NoGrant | Count(n: nat)

  /** Still usable at the given time. */
  predicate Open(r: Row, now: Time) { !r.deleted && r.expires > now }

  /** The newest unexpired row, as the query orders them. */
  function NewestOpen(rows: seq<Row>, now: Time): (r: Option<Row>)
    ensures r.Some? ==> r.value in rows && Open(r.value, now)
    ensures forall x | x in rows && Open(x, now) :: r.Some? && x.expires <= r.value.expires
  {
    if rows == [] then None
    else
      var n := |rows| - 1;
      var best := NewestOpen(rows[..n], now);
      assert rows == rows[..n] + [rows[n]];
      if Open(rows[n], now) && (best.None? || rows[n].expires > best.value.expires) then Some(rows[n]) else best
  }

  /** The undeleted row with the token. */
  function FindToken(rows: seq<Row>, token: string): (r: Option<Row>)
    ensures r.Some? ==> r.value in rows && r.value.token == token && !r.value.deleted
    ensures r.None? ==> forall x | x in rows && x.token == token :: x.deleted
  {
    if rows == [] then None
    else
      var n := |rows| - 1;
      assert rows == rows[..n] + [rows[n]];
      if rows[n].token == token && !rows[n].deleted then Some(rows[n]) else FindToken(rows[..n], token)
  }

  /** INTEGER PRIMARY KEY: one more than the largest id still in the table. */
  function MaxId(rows: seq<Row>): (m: nat)
    ensures forall r | r in rows :: r.id <= m
  {
    if rows == [] then 0
    else
      var n := |rows| - 1;
      assert rows == rows[..n] + [rows[n]];
      if rows[n].id > MaxId(rows[..n]) then rows[n].id else MaxId(rows[..n])
  }

  function Counted(rows: seq<Row>, id: nat): (r: seq<Row>)
    ensures |r| == |rows|
  {
    seq(|rows|, i requires 0 <= i < |rows| =>
      if rows[i].id == id then rows[i].(downloads := rows[i].downloads + 1) else rows[i])
  }

  function Revoked(rows: seq<Row>): (r: seq<Row>)
    ensures |r| == |rows|
  {
    seq(|rows|, i requires 0 <= i < |rows| => rows[i].(deleted := true))
  }

  function Undeleted(rows: seq<Row>): nat {
    if rows == [] then 0
    else Undeleted(rows[..|rows| - 1]) + (if rows[|rows| - 1].deleted then 0 else 1)
  }

  /** The rows a sweep leaves. */
  function Unexpired(rows: seq<Row>, now: Time): (r: seq<Row>)
    ensures |r| <= |rows|
    ensures forall x :: x in r <==> x in rows && x.expires > now
  {
    if rows == [] then []
    else
      var n := |rows| - 1;
      assert rows == rows[..n] + [rows[n]];
      Unexpired(rows[..n], now) + (if rows[n].expires > now then [rows[n]] else [])
  }

  function Shown(r: Row): Grant { Grant(r.id, "", r.expires, r.created, r.downloads) }

  function Issuing(rows: seq<Row>, token: string, now: Time): (seq<Row>, Answer) {
    match NewestOpen(rows, Stamp(now))
    case Some(r) => (rows, Got(Shown(r)))
    case None =>
      var id := MaxId(rows) + 1;
      (rows + [Row(id, token, Stamp(now + WINDOW), Stamp(now), 0, false)],
       Got(Grant(id, token, now + WINDOW, now, 0)))
  }

  function Redeeming(rows: seq<Row>, token: string, now: Time): (seq<Row>, Answer) {
    if token == "" then (rows, NoGrant)
    else
      match FindToken(rows, token)
      case None => (rows, NoGrant)
      case Some(r) =>
        if r.expires <= now then (rows, NoGrant)
        else (Counted(rows, r.id), Got(Grant(r.id, "", r.expires, 0, r.downloads + 1)))
  }

  function Do(rows: seq<Row>, e: Event): (seq<Row>, Answer) {
    match e.op
    case Issue(token) => Issuing(rows, token, e.now)
    case Live => (rows, match NewestOpen(rows, Stamp(e.now)) case Some(r) => Got(Shown(r)) case None => NoGrant)
    case Redeem(token) => Redeeming(rows, token, e.now)
    case Revoke => (Revoked(rows), Count(Undeleted(rows)))
    case Sweep => (Unexpired(rows, Stamp(e.now)), Count(|rows| - |Unexpired(rows, Stamp(e.now))|))
  }

  /** The table's own constraints: a primary key, and no token twice. */
  ghost predicate Distinct(rows: seq<Row>) {
    forall i, j | 0 <= i < j < |rows| :: rows[i].token != rows[j].token && rows[i].id != rows[j].id
  }

  /** A grant that shows an open row than which none lasts longer. */
  ghost predicate ShowsNewest(rows: seq<Row>, now: Time, g: Grant) {
    exists r | r in rows ::
      && Open(r, now) && (forall x | x in rows && Open(x, now) :: x.expires <= r.expires)
      && g == Grant(r.id, "", r.expires, r.created, r.downloads)
  }

  ghost predicate AnyOpen(rows: seq<Row>, now: Time) { exists r | r in rows :: Open(r, now) }

  /** One row more, under a number above all the others. */
  ghost predicate Added(was: seq<Row>, rows: seq<Row>, token: string, now: Time, a: Answer) {
    && |rows| == |was| + 1 && rows[..|was|] == was
    && var r := rows[|was|];
    && (forall x | x in was :: x.id < r.id)
    && r == Row(r.id, token, Stamp(now + WINDOW), Stamp(now), 0, false)
    && a == Got(Grant(r.id, token, now + WINDOW, now, 0))
  }

  /** Rows that a token opens. */
  predicate Redeemable(r: Row, token: string, now: Time) { r.token == token && !r.deleted && r.expires > now }

  lemma {:induction false} FoundIsNewest(rows: seq<Row>, now: Time)
    ensures NewestOpen(rows, now).None? <==> !AnyOpen(rows, now)
    ensures NewestOpen(rows, now).Some? ==> ShowsNewest(rows, now, Shown(NewestOpen(rows, now).value))
  {
  }

  lemma {:induction false} FoundIsTheRow(rows: seq<Row>, token: string, i: nat)
    requires Distinct(rows) && i < |rows| && rows[i].token == token
    ensures FindToken(rows, token) == if rows[i].deleted then None else Some(rows[i])
  {
    var r := FindToken(rows, token);
    assert rows[i] in rows;
    if r.Some? {
      var k :| 0 <= k < |rows| && rows[k] == r.value;
    }
  }

  lemma {:induction false} UndeletedAre(rows: seq<Row>)
    ensures Undeleted(rows) == |set i | 0 <= i < |rows| && !rows[i].deleted|
  {
    if rows != [] {
      var n := |rows| - 1;
      UndeletedAre(rows[..n]);
      var before := set i | 0 <= i < n && !rows[..n][i].deleted;
      var all := set i | 0 <= i < |rows| && !rows[i].deleted;
      assert all == if rows[n].deleted then before else before + {n};
    }
  }

  /** Sweeping keeps rows apart that were apart. */
  lemma {:induction false} KeepsOthers(rows: seq<Row>, now: Time)
    requires Distinct(rows)
    ensures Distinct(Unexpired(rows, now))
  {
    if rows != [] {
      var n := |rows| - 1;
      KeepsOthers(rows[..n], now);
      var left := Unexpired(rows[..n], now);
      forall i | 0 <= i < |left| ensures left[i].token != rows[n].token && left[i].id != rows[n].id {
        assert left[i] in left;
        var k :| 0 <= k < n && rows[..n][k] == left[i];
      }
    }
  }

  /** The BackupGrant table; each statement is a scan of its rows. */
  class GrantTable {
    var rows: seq<Row>

    constructor ()
      ensures rows == []
    {
      rows := [];
    }

    method SelectNewest(now: Time) returns (r: Option<Row>)
      ensures r == NewestOpen(rows, now)
    {
      r := None;
      for i := 0 to |rows|
        invariant r == NewestOpen(rows[..i], now)
      {
        assert rows[..i + 1][..i] == rows[..i];
        if Open(rows[i], now) && (r.None? || rows[i].expires > r.value.expires) {
          r := Some(rows[i]);
        }
      }
      assert rows[..|rows|] == rows;
    }

    method SelectToken(token: string) returns (r: Option<Row>)
      ensures r == FindToken(rows, token)
    {
      r := None;
      for i := 0 to |rows|
        invariant r == FindToken(rows[..i], token)
      {
        assert rows[..i + 1][..i] == rows[..i];
        if rows[i].token == token && !rows[i].deleted {
          r := Some(rows[i]);
        }
      }
      assert rows[..|rows|] == rows;
    }

    method NextId() returns (id: nat)
      ensures id == MaxId(rows) + 1
    {
      id := 1;
      for i := 0 to |rows|
        invariant id == MaxId(rows[..i]) + 1
      {
        assert rows[..i + 1][..i] == rows[..i];
        if rows[i].id >= id {
          id := rows[i].id + 1;
        }
      }
      assert rows[..|rows|] == rows;
    }

    /** Asking again while a link is out shows that link, without its secret; otherwise one row is added. */
    method IssueGrant(token: string, now: Time) returns (a: Answer)
      requires Distinct(rows) && forall r | r in rows :: r.token != token
      modifies this
      ensures Distinct(rows)
      ensures AnyOpen(old(rows), Stamp(now)) ==>
                rows == old(rows) && a.Got? && ShowsNewest(rows, Stamp(now), a.grant)
      ensures !AnyOpen(old(rows), Stamp(now)) ==> Added(old(rows), rows, token, now, a)
      ensures (rows, a) == Do(old(rows), Event(Issue(token), now))
    {
      FoundIsNewest(rows, Stamp(now));
      var existing := SelectNewest(Stamp(now));
      if existing.Some? {
        return Got(Shown(existing.value));
      }
      var id := NextId();
      ghost var was := rows;
      rows := rows + [Row(id, token, Stamp(now + WINDOW), Stamp(now), 0, false)];
      assert rows[..|was|] == was;
      forall i | 0 <= i < |was| ensures was[i].token != token && was[i].id < id {
        assert was[i] in was;
      }
      return Got(Grant(id, token, now + WINDOW, now, 0));
    }

    /** Whether a link is out, without its secret. */
    method LiveGrant(now: Time) returns (a: Answer)
      ensures AnyOpen(rows, Stamp(now)) ==> a.Got? && ShowsNewest(rows, Stamp(now), a.grant)
      ensures !AnyOpen(rows, Stamp(now)) ==> a == NoGrant
      ensures (rows, a) == Do(rows, Event(Live, now))
    {
      FoundIsNewest(rows, Stamp(now));
      var r := SelectNewest(Stamp(now));
      if r.None? {
        return NoGrant;
      }
      return Got(Shown(r.value));
    }

    method UpdateCount(id: nat)
      modifies this
      ensures rows == Counted(old(rows), id)
    {
      for i := 0 to |rows|
        invariant |rows| == |old(rows)|
        invariant forall k | 0 <= k < |rows| :: rows[k] == if k < i then Counted(old(rows), id)[k] else old(rows)[k]
      {
        if rows[i].id == id {
          rows := rows[i := rows[i].(downloads := rows[i].downloads + 1)];
        }
      }
    }

    /** A token succeeds exactly when its row is neither revoked nor expired, and counts one more
        download on that row alone. */
    method RedeemToken(token: string, now: Time) returns (a: Answer)
      requires Distinct(rows)
      modifies this
      ensures Distinct(rows)
      ensures a.Got? <==> token != "" && exists r | r in old(rows) :: Redeemable(r, token, now)
      ensures !a.Got? ==> a == NoGrant && rows == old(rows)
      ensures a.Got? ==>
                && |rows| == |old(rows)|
                && forall i | 0 <= i < |rows| ::
                     if old(rows)[i].token == token then
                       && rows[i] == old(rows)[i].(downloads := old(rows)[i].downloads + 1)
                       && a == Got(Grant(rows[i].id, "", rows[i].expires, 0, rows[i].downloads))
                     else rows[i] == old(rows)[i]
      ensures (rows, a) == Do(old(rows), Event(Redeem(token), now))
    {
      forall i | 0 <= i < |rows| && rows[i].token == token
        ensures FindToken(rows, token) == if rows[i].deleted then None else Some(rows[i])
      {
        FoundIsTheRow(rows, token, i);
      }
      if token == "" {
        return NoGrant;
      }
      var found := SelectToken(token);
      if found.None? || found.value.expires <= now {
        return NoGrant;
      }
      ghost var k :| 0 <= k < |rows| && rows[k] == found.value;
      UpdateCount(found.value.id);
      return Got(Grant(found.value.id, "", found.value.expires, 0, found.value.downloads + 1));
    }

    /** Every row is marked, and the answer is how many were not. */
    method RevokeAll(now: Time) returns (a: Answer)
      modifies this
      ensures Distinct(old(rows)) ==> Distinct(rows)
      ensures |rows| == |old(rows)| && forall i | 0 <= i < |rows| :: rows[i] == old(rows)[i].(deleted := true)
      ensures a == Count(|set i | 0 <= i < |old(rows)| && !old(rows)[i].deleted|)
      ensures (rows, a) == Do(old(rows), Event(Revoke, now))
    {
      UndeletedAre(rows);
      var n := 0;
      for i := 0 to |rows|
        invariant |rows| == |old(rows)| && n == Undeleted(old(rows)[..i])
        invariant forall k | 0 <= k < |rows| :: rows[k] == if k < i then old(rows)[k].(deleted := true) else old(rows)[k]
      {
        assert old(rows)[..i + 1][..i] == old(rows)[..i];
        if !rows[i].deleted {
          rows, n := rows[i := rows[i].(deleted := true)], n + 1;
        }
      }
      assert old(rows)[..|rows|] == old(rows) && rows == Revoked(old(rows));
      return Count(n);
    }

    method DeleteExpired(cutoff: Time)
      modifies this
      ensures rows == Unexpired(old(rows), cutoff)
    {
      var left := [];
      for i := 0 to |rows|
        invariant rows == old(rows) && left == Unexpired(rows[..i], cutoff)
      {
        assert rows[..i + 1][..i] == rows[..i];
        if rows[i].expires > cutoff {
          left := left + [rows[i]];
        }
      }
      assert rows[..|rows|] == rows;
      rows := left;
    }

    /** Exactly the rows past their expiry go, and the answer is how many. */
    method SweepExpired(now: Time) returns (a: Answer)
      requires Distinct(rows)
      modifies this
      ensures Distinct(rows)
      ensures forall r :: r in rows <==> r in old(rows) && r.expires > Stamp(now)
      ensures |rows| <= |old(rows)| && a == Count(|old(rows)| - |rows|)
      ensures (rows, a) == Do(old(rows), Event(Sweep, now))
    {
      KeepsOthers(rows, Stamp(now));
      var n := |rows|;
      DeleteExpired(Stamp(now));
      a := Count(n - |rows|);
    }
  }
}
