/** A file as the sequence of what its lines assign, and the two ways of reading it. */
module Assignments {
  import opened Basics

  /** A line's assignment, or None for a comment, a blank or anything else. */
  type Entry = Option<(string, string)>

  predicate Assigns(e: Entry, key: string) { e.Some? && e.value.0 == key }

  /** Where the key is first assigned, or the end of the file. */
  function FirstAt(entries: seq<Entry>, key: string): (i: nat)
    ensures i <= |entries|
    ensures i < |entries| ==> Assigns(entries[i], key)
    ensures forall j | 0 <= j < i :: !Assigns(entries[j], key)
  {
    if entries == [] || Assigns(entries[0], key) then 0 else 1 + FirstAt(entries[1..], key)
  }

  /** The value of the first assignment. */
  function FirstValue(entries: seq<Entry>, key: string): Option<string> {
    var i := FirstAt(entries, key);
    if i < |entries| then Some(entries[i].value.1) else None
  }

  /** The last assignment of each key. */
  function LastValues(entries: seq<Entry>): map<string, string> {
    if entries == [] then map[]
    else
      var before := LastValues(entries[..|entries| - 1]);
      match entries[|entries| - 1]
      case None => before
      case Some((key, value)) => before[key := value]
  }

  lemma {:induction false} LastValuesNext(entries: seq<Entry>, i: nat)
    requires i < |entries|
    ensures LastValues(entries[..i + 1]) ==
            match entries[i]
            case None => LastValues(entries[..i])
            case Some((key, value)) => LastValues(entries[..i])[key := value]
  {
    assert entries[..i + 1][..i] == entries[..i];
  }

  /** Assigning a key in place, or at the end. */
  function Put(entries: seq<Entry>, key: string, value: string): seq<Entry> {
    var i := FirstAt(entries, key);
    if i < |entries| then entries[i := Some((key, value))] else entries + [Some((key, value))]
  }

  /** At most one line assigns the key. */
  predicate Once(entries: seq<Entry>, key: string) {
    forall i, j | 0 <= i < j < |entries| :: !(Assigns(entries[i], key) && Assigns(entries[j], key))
  }

  lemma {:induction false} LastValuesAt(entries: seq<Entry>, key: string, i: nat)
    requires i < |entries| && Assigns(entries[i], key)
    requires forall j | i < j < |entries| :: !Assigns(entries[j], key)
    ensures key in LastValues(entries) && LastValues(entries)[key] == entries[i].value.1
  {
    var n := |entries| - 1;
    if i < n {
      assert !Assigns(entries[n], key);
      LastValuesAt(entries[..n], key, i);
    }
  }

  lemma {:induction false} LastValuesAbsent(entries: seq<Entry>, key: string)
    requires forall i | 0 <= i < |entries| :: !Assigns(entries[i], key)
    ensures key !in LastValues(entries)
  {
    if entries != [] {
      var n := |entries| - 1;
      assert !Assigns(entries[n], key);
      LastValuesAbsent(entries[..n], key);
    }
  }

  lemma {:induction false} FirstAtIs(entries: seq<Entry>, key: string, i: nat)
    requires i < |entries| && Assigns(entries[i], key)
    requires forall j | 0 <= j < i :: !Assigns(entries[j], key)
    ensures FirstAt(entries, key) == i
  {
  }

  /** With one assignment per key, first match and last match read the same. */
  lemma {:induction false} OneReading(entries: seq<Entry>, key: string)
    requires Once(entries, key)
    ensures FirstValue(entries, key)
            == if key in LastValues(entries) then Some(LastValues(entries)[key]) else None
  {
    var i := FirstAt(entries, key);
    if i < |entries| {
      LastValuesAt(entries, key, i);
    } else {
      LastValuesAbsent(entries, key);
    }
  }

  /** The key reads as the new value, every other key as before. */
  lemma {:induction false} PutThenGet(entries: seq<Entry>, key: string, value: string, other: string)
    ensures FirstValue(Put(entries, key, value), other)
            == if other == key then Some(value) else FirstValue(entries, other)
  {
    var out, at := Put(entries, key, value), FirstAt(entries, key);
    if other == key {
      assert FirstAt(out, key) == at;
    } else {
      var i := FirstAt(entries, other);
      assert !Assigns(out[at], other);
      if i < |entries| {
        assert Assigns(out[i], other);
        assert FirstAt(out, other) == i;
      } else {
        assert forall j | 0 <= j < |out| :: !Assigns(out[j], other);
      }
    }
  }

  /** Where the key is last assigned, or -1. */
  function LastAt(entries: seq<Entry>, key: string): (i: int)
    ensures -1 <= i < |entries|
    ensures i >= 0 ==> Assigns(entries[i], key)
    ensures forall j | i < j < |entries| :: !Assigns(entries[j], key)
  {
    if entries == [] || Assigns(entries[|entries| - 1], key) then |entries| - 1
    else LastAt(entries[..|entries| - 1], key)
  }

  lemma {:induction false} LastValuesLookup(entries: seq<Entry>, key: string)
    ensures key in LastValues(entries) <==> LastAt(entries, key) >= 0
    ensures key in LastValues(entries) ==>
              LastValues(entries)[key] == entries[LastAt(entries, key)].value.1
  {
    if LastAt(entries, key) >= 0 {
      LastValuesAt(entries, key, LastAt(entries, key));
    } else {
      LastValuesAbsent(entries, key);
    }
  }

  /** The last-match reader sees an edit exactly when it replaced the only assignment or added one:
      over a duplicated key the edit leaves its reading as it was. */
  lemma {:induction false} PutThenLast(entries: seq<Entry>, key: string, value: string)
    ensures key in LastValues(Put(entries, key, value))
    ensures Once(entries, key) ==> LastValues(Put(entries, key, value))[key] == value
    ensures !Once(entries, key) ==>
              key in LastValues(entries)
              && LastValues(Put(entries, key, value))[key] == LastValues(entries)[key]
  {
    var out, first, last := Put(entries, key, value), FirstAt(entries, key), LastAt(entries, key);
    LastValuesLookup(entries, key);
    LastValuesLookup(out, key);
    assert Assigns(out[first], key);
    if Once(entries, key) {
      forall j | first < j < |out| ensures !Assigns(out[j], key) {
        assert first < |entries| && out[j] == entries[j];
      }
    } else {
      var i, j :| 0 <= i < j < |entries| && Assigns(entries[i], key) && Assigns(entries[j], key);
      assert first < last && out[last] == entries[last];
      assert LastAt(out, key) == last;
    }
  }

  /** Other keys read the same either way. */
  lemma {:induction false} PutThenLastOther(entries: seq<Entry>, key: string, value: string, other: string)
    requires other != key
    ensures other in LastValues(Put(entries, key, value)) <==> other in LastValues(entries)
    ensures other in LastValues(entries) ==>
              LastValues(Put(entries, key, value))[other] == LastValues(entries)[other]
  {
    var out, first, last := Put(entries, key, value), FirstAt(entries, key), LastAt(entries, other);
    LastValuesLookup(entries, other);
    LastValuesLookup(out, other);
    assert !Assigns(out[first], other);
    if last >= 0 {
      assert Assigns(out[last], other) && out[last] == entries[last];
      assert LastAt(out, other) == last;
    } else {
      assert forall j | 0 <= j < |out| :: !Assigns(out[j], other);
    }
  }

  /** The value of the last assignment. */
  function LastValue(entries: seq<Entry>, key: string): Option<string> {
    var values := LastValues(entries);
    if key in values then Some(values[key]) else None
  }

  /** Assigning one key does not duplicate another, nor undo its duplication. */
  lemma {:induction false} PutOnceIff(entries: seq<Entry>, key: string, value: string, other: string)
    requires other != key
    ensures Once(Put(entries, key, value), other) <==> Once(entries, other)
  {
    var out := Put(entries, key, value);
    if Once(out, other) {
      forall i, j | 0 <= i < j < |entries|
        ensures !(Assigns(entries[i], other) && Assigns(entries[j], other))
      {
        assert Assigns(entries[i], other) ==> out[i] == entries[i];
        assert Assigns(entries[j], other) ==> out[j] == entries[j];
      }
    }
    if Once(entries, other) {
      PutKeepsOnce(entries, key, value, other);
    }
  }

  /** Nor does assigning a key change whether that key is assigned twice. */
  lemma {:induction false} PutOnceSame(entries: seq<Entry>, key: string, value: string)
    ensures Once(Put(entries, key, value), key) <==> Once(entries, key)
  {
    var out, first := Put(entries, key, value), FirstAt(entries, key);
    if Once(out, key) && first < |entries| {
      forall i, j | 0 <= i < j < |entries| ensures !(Assigns(entries[i], key) && Assigns(entries[j], key)) {
        assert Assigns(out[i], key) <==> Assigns(entries[i], key);
        assert Assigns(out[j], key) <==> Assigns(entries[j], key);
      }
    }
    if Once(entries, key) {
      PutKeepsOnce(entries, key, value, key);
    }
  }

  lemma {:induction false} PutKeepsOnce(entries: seq<Entry>, key: string, value: string, other: string)
    requires Once(entries, other)
    ensures Once(Put(entries, key, value), other)
  {
  }

  /** One more assignment at the end. */
  lemma {:induction false} Appended(entries: seq<Entry>, key: string, value: string)
    ensures var more := entries + [Some((key, value))];
            && LastValue(more, key) == Some(value)
            && FirstValue(more, key) == if FirstValue(entries, key).Some? then FirstValue(entries, key) else Some(value)
  {
    var more := entries + [Some((key, value))];
    assert more[..|entries|] == entries;
    FirstAtIs(more, key, FirstAt(entries, key));
  }
}
