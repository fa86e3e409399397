/** Indexes from a name to everything seen under it, in first-seen order and without duplicates. */
module NameIndex {

  type Index = map<string, seq<string>>

  /** Recording `value` under `key`, unless it is there already. */
  function Insert(m: Index, key: string, value: string): Index {
    if key !in m then m[key := [value]]
    else if value in m[key] then m
    else m[key := m[key] + [value]]
  }

  /** Recording a list of entries, first to last. */
  function InsertAll(m: Index, entries: seq<(string, string)>): Index {
    if entries == [] then m
    else
      var (key, value) := entries[|entries| - 1];
      Insert(InsertAll(m, entries[..|entries| - 1]), key, value)
  }

  /** The values seen with `key`, each where it was seen first. */
  function FirstSeen(entries: seq<(string, string)>, key: string): seq<string> {
    if entries == [] then []
    else
      var before := FirstSeen(entries[..|entries| - 1], key);
      var last := entries[|entries| - 1];
      if last.0 == key && last.1 !in before then before + [last.1] else before
  }

  lemma {:induction false} FirstSeenMembers(entries: seq<(string, string)>, key: string)
    ensures forall v :: v in FirstSeen(entries, key) <==> (key, v) in entries
    ensures forall i, j :: 0 <= i < j < |FirstSeen(entries, key)| ==>
        FirstSeen(entries, key)[i] != FirstSeen(entries, key)[j]
  {
    if entries != [] {
      FirstSeenMembers(entries[..|entries| - 1], key);
      assert entries == entries[..|entries| - 1] + [entries[|entries| - 1]];
    }
  }

  /** What the index holds: under each key exactly the values seen with it, none for other keys. */
  ghost predicate Holds(m: Index, entries: seq<(string, string)>) {
    forall key :: (key in m <==> FirstSeen(entries, key) != []) && (key in m ==> m[key] == FirstSeen(entries, key))
  }

  lemma {:induction false} IndexHolds(entries: seq<(string, string)>)
    ensures Holds(InsertAll(map[], entries), entries)
  {
    if entries != [] {
      IndexHolds(entries[..|entries| - 1]);
    }
  }

  lemma {:induction false} InsertAllAppend(m: Index, a: seq<(string, string)>, b: seq<(string, string)>)
    ensures InsertAll(m, a + b) == InsertAll(InsertAll(m, a), b)
  {
    if b == [] {
      assert a + b == a;
    } else {
      InsertAllAppend(m, a, b[..|b| - 1]);
      assert (a + b)[..|a + b| - 1] == a + b[..|b| - 1];
    }
  }

  /** Recording entries that were all recorded before changes nothing. */
  lemma {:induction false} InsertAgain(entries: seq<(string, string)>, again: seq<(string, string)>)
    requires forall e :: e in again ==> e in entries
    ensures InsertAll(map[], entries + again) == InsertAll(map[], entries)
  {
    InsertAllAppend(map[], entries, again);
    if again == [] {
    } else {
      var shorter, last := again[..|again| - 1], again[|again| - 1];
      assert again == shorter + [last];
      InsertAgain(entries, shorter);
      InsertAllAppend(map[], entries, shorter);
      IndexHolds(entries);
      FirstSeenMembers(entries, last.0);
      assert (last.0, last.1) in entries;
    }
  }
}
