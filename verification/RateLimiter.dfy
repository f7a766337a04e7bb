/** The sliding-window limiter: its in-place bookkeeping, and the log it stands for. */
module RateLimiter {
  import opened Basics
  import opened Timestamps

  /** The zero time, which no clock reading precedes. */
  const ZERO_TIME: Time := 0

  /** The times strictly after the cutoff, in order. */
  function Recent(times: seq<Time>, cutoff: Time): (r: seq<Time>)
    ensures |r| <= |times|
  {
    if times == [] then []
    else
      var n := |times| - 1;
      Recent(times[..n], cutoff) + (if times[n] > cutoff then [times[n]] else [])
  }

  function Newest(times: seq<Time>): Time { if times == [] then ZERO_TIME else times[|times| - 1] }

  // ---------------------------------------------------------------- what a call does

  datatype Table = Table(hits: map<string, seq<Time>>, lastSweep: Time)

  function HitsOf(t: Table, key: string): seq<Time> { if key in t.hits then t.hits[key] else [] }

  function Swept(hits: map<string, seq<Time>>, cutoff: Time): map<string, seq<Time>> {
    hits - (set key | key in hits && Newest(hits[key]) <= cutoff)
  }

  function Sweep(t: Table, now: Time, window: int): Table {
    if now - t.lastSweep < window then t else Table(Swept(t.hits, now - window), now)
  }

  /** The key's aged entries dropped and the attempt added, even one that will be refused. */
  function Recorded(t: Table, key: string, cutoff: Time, now: Time): Table {
    t.(hits := t.hits[key := Recent(HitsOf(t, key), cutoff) + [now]])
  }

  /** The call's answer and the table it leaves. */
  function Allowing(t: Table, key: string, limit: int, window: int, now: Time): (Table, bool) {
    if limit <= 0 || window <= 0 then (t, true)
    else
      (Sweep(Recorded(t, key, now - window, now), now, window), |Recent(HitsOf(t, key), now - window)| < limit)
  }

  function Resetting(t: Table, key: string): Table { t.(hits := t.hits - {key}) }

  // -------------------------------------------------------------- how it is carried out

  /** A Go slice: a stretch of a backing array that has room to grow. */
  datatype Slice = Slice(buf: array<Time>, len: nat)

  class Limiter {
    ghost var table: Table
    ghost var owner: map<array<Time>, string>
    var hits: map<string, Slice>
    var lastSweep: Time

    /** The slices hold what the table says, in arrays of their own. */
    ghost predicate Valid()
      reads this, owner.Keys
    {
      && table.lastSweep == lastSweep
      && (forall key :: key in table.hits <==> key in hits)
      && (forall key | key in hits ::
            && hits[key].buf in owner && owner[hits[key].buf] == key
            && hits[key].len <= hits[key].buf.Length
            && hits[key].buf[..hits[key].len] == table.hits[key])
    }

    constructor ()
      ensures Valid() && table == Table(map[], ZERO_TIME) && owner == map[]
    {
      hits, lastSweep := map[], ZERO_TIME;
      table, owner := Table(map[], ZERO_TIME), map[];
    }

    /** Counts the attempt, and answers whether there was room for it. */
    method Allow(key: string, limit: int, window: int, now: Time) returns (allowed: bool)
      requires Valid()
      modifies this, owner.Keys
      ensures Valid() && fresh(owner.Keys - old(owner.Keys))
      ensures (table, allowed) == Allowing(old(table), key, limit, window, now)
    {
      if limit <= 0 || window <= 0 {
        return true;
      }
      var kept := RecordHit(key, now - window, now);
      SweepLocked(now, window);
      return kept < limit;
    }

    /** Drops the key's aged entries and adds one, returning how many were left. */
    method RecordHit(key: string, cutoff: Time, now: Time) returns (kept: nat)
      requires Valid()
      modifies this, owner.Keys
      ensures Valid() && fresh(owner.Keys - old(owner.Keys))
      ensures kept == |Recent(HitsOf(old(table), key), cutoff)|
      ensures table == Recorded(old(table), key, cutoff, now)
    {
      var longer;
      longer, kept := Refill(key, cutoff, now);
      ghost var times := longer.buf[..longer.len];
      hits, owner := hits[key := longer], owner[longer.buf := key];
      table := table.(hits := table.hits[key := times]);
    }

    /** The key's slice, compacted and extended; every other key's slice is left alone. */
    method Refill(key: string, cutoff: Time, now: Time) returns (longer: Slice, kept: nat)
      requires Valid()
      modifies owner.Keys
      ensures OthersHold(key, longer.buf)
      ensures (longer.buf in owner.Keys && owner[longer.buf] == key) || fresh(longer.buf)
      ensures longer.len <= longer.buf.Length
      ensures longer.buf[..longer.len] == Recent(HitsOf(table, key), cutoff) + [now]
      ensures kept == |Recent(HitsOf(table, key), cutoff)|
    {
      var empty := new Time[0];
      var slice := if key in hits then hits[key] else Slice(empty, 0);
      assert slice.buf[..slice.len] == HitsOf(table, key);
      longer, kept := CompactAppend(slice, cutoff, now);
    }

    /** Every other key's slice is as the table says, and shares nothing with the buffer. */
    ghost predicate OthersHold(key: string, buf: array<Time>)
      reads this, owner.Keys
    {
      && (forall k :: k in table.hits <==> k in hits)
      && forall k | k in hits && k != key ::
           && hits[k].buf in owner && owner[hits[k].buf] == k && hits[k].buf != buf
           && hits[k].len <= hits[k].buf.Length && hits[k].buf[..hits[k].len] == table.hits[k]
    }

    method Reset(key: string)
      requires Valid()
      modifies `hits, `table
      ensures Valid() && table == Resetting(old(table), key)
    {
      hits := hits - {key};
      table := Resetting(table, key);
    }

    /** Once a window at most, forgets the keys with nothing recent left. */
    method SweepLocked(now: Time, window: int)
      requires Valid()
      modifies `lastSweep, `hits, `table
      ensures Valid()
      ensures table == Sweep(old(table), now, window)
    {
      if now - lastSweep < window {
        return;
      }
      NoteSweep(now);
      DropAged(now - window);
    }

    method NoteSweep(now: Time)
      requires Valid()
      modifies `lastSweep, `table
      ensures Valid() && table == old(table).(lastSweep := now)
    {
      lastSweep, table := now, table.(lastSweep := now);
    }

    method DropAged(cutoff: Time)
      requires Valid()
      modifies `hits, `table
      ensures Valid() && table == old(table).(hits := Swept(old(table.hits), cutoff))
    {
      var todo := hits.Keys;
      while todo != {}
        invariant Valid() && table == old(table).(hits := table.hits)
        invariant AgedDropped(old(table.hits), table.hits, todo, cutoff) && todo <= old(table.hits).Keys
      {
        var key :| key in todo;
        AgedStep(old(table.hits), table.hits, todo, cutoff, key);
        var newest := NewestIn(hits[key]);
        if newest <= cutoff {
          Reset(key);
        }
        todo := todo - {key};
      }
      AgedDone(old(table.hits), table.hits, cutoff);
    }
  }

  /** Outside the keys still to be visited, exactly the aged keys are gone. */
  ghost predicate AgedDropped(was: map<string, seq<Time>>, now: map<string, seq<Time>>, todo: set<string>, cutoff: Time)
  {
    && (forall k | k in now :: k in was && now[k] == was[k])
    && forall k | k in was :: k in now <==> k in todo || Newest(was[k]) > cutoff
  }

  lemma {:induction false} AgedStep(was: map<string, seq<Time>>, now: map<string, seq<Time>>, todo: set<string>, cutoff: Time, key: string)
    requires AgedDropped(was, now, todo, cutoff) && key in todo && todo <= was.Keys
    ensures key in now && now[key] == was[key]
    ensures AgedDropped(was, if Newest(now[key]) > cutoff then now else now - {key}, todo - {key}, cutoff)
  {
  }

  lemma {:induction false} AgedDone(was: map<string, seq<Time>>, now: map<string, seq<Time>>, cutoff: Time)
    requires AgedDropped(was, now, {}, cutoff)
    ensures now == Swept(was, cutoff)
  {
  }

  /** The filter writes over the array it reads, which is safe because it writes behind itself. */
  method Compact(slice: Slice, cutoff: Time) returns (kept: nat)
    requires slice.len <= slice.buf.Length
    modifies slice.buf
    ensures kept <= slice.len
    ensures slice.buf[..kept] == Recent(old(slice.buf[..slice.len]), cutoff)
  {
    var buf := slice.buf;
    kept := 0;
    for i := 0 to slice.len
      invariant kept <= i
      invariant forall j | i <= j < slice.len :: buf[j] == old(buf[j])
      invariant buf[..kept] == Recent(old(buf[..slice.len])[..i], cutoff)
    {
      var was := old(buf[..slice.len]);
      assert was[..i + 1][..i] == was[..i] && buf[i] == was[i];
      if buf[i] > cutoff {
        buf[kept] := buf[i];
        kept := kept + 1;
      }
    }
    assert old(buf[..slice.len])[..slice.len] == old(buf[..slice.len]);
  }

  method CompactAppend(slice: Slice, cutoff: Time, now: Time) returns (r: Slice, kept: nat)
    requires slice.len <= slice.buf.Length
    modifies slice.buf
    ensures r.buf == slice.buf || fresh(r.buf)
    ensures r.len <= r.buf.Length && r.buf[..r.len] == Recent(old(slice.buf[..slice.len]), cutoff) + [now]
    ensures kept == |Recent(old(slice.buf[..slice.len]), cutoff)|
  {
    kept := Compact(slice, cutoff);
    r := Append(Slice(slice.buf, kept), now);
  }

  method NewestIn(slice: Slice) returns (t: Time)
    requires slice.len <= slice.buf.Length
    ensures t == Newest(slice.buf[..slice.len])
  {
    t := ZERO_TIME;
    if slice.len > 0 {
      t := slice.buf[slice.len - 1];
    }
  }

  /** append: in place while there is room, into a larger array otherwise. */
  method Append(slice: Slice, t: Time) returns (r: Slice)
    requires slice.len <= slice.buf.Length
    modifies slice.buf
    ensures r.buf == slice.buf || fresh(r.buf)
    ensures r.len == slice.len + 1 <= r.buf.Length
    ensures r.buf[..r.len] == old(slice.buf[..slice.len]) + [t]
  {
    var buf := slice.buf;
    if slice.len == buf.Length {
      buf := new Time[2 * slice.len + 1];
      forall i | 0 <= i < slice.len {
        buf[i] := slice.buf[i];
      }
    }
    buf[slice.len] := t;
    r := Slice(buf, slice.len + 1);
  }
}
