/** Snapshots of the live keys: what an export holds and what an import rebuilds from it. */
module Snapshots {
  import opened Common
  import opened OffsetSequence
  import opened Mvcc
  import opened StoreModel

  datatype SnapshotEntry =
    SnapshotEntry(key: Bytes, value: Bytes, createRevision: int, modRevision: int, version: int)

  function EntryValue(e: SnapshotEntry): Value {
    Value(e.createRevision, e.modRevision, e.version, Some(e.value))
  }

  ghost predicate Live(s: State, key: Bytes) {
    ItemOf(s, key).latest.data.Some?
  }

  /** The entries are the live keys, once each and in any order. */
  ghost predicate Exports(entries: seq<SnapshotEntry>, s: State) {
    && (forall i | 0 <= i < |entries| :: IsEntryOf(entries[i], s))
    && (forall i, j | 0 <= i < j < |entries| :: entries[i].key != entries[j].key)
    && (forall key | Live(s, key) :: HasEntry(entries, key))
  }

  /** The entry carries the newest value of its key, field by field. */
  ghost predicate IsEntryOf(e: SnapshotEntry, s: State) {
    var v := ItemOf(s, e.key).latest;
    && v.data == Some(e.value) && e.createRevision == v.createRevision
    && e.modRevision == v.modRevision && e.version == v.version
  }

  ghost predicate HasEntry(entries: seq<SnapshotEntry>, key: Bytes) {
    exists i :: 0 <= i < |entries| && entries[i].key == key
  }

  // ---------------------------------------------------------------- import

  function MaxMod(entries: seq<SnapshotEntry>): nat {
    if entries == [] then 0
    else
      var rest := MaxMod(DropLast(entries));
      if Last(entries).modRevision > rest then Last(entries).modRevision else rest
  }

  function BlankLog(n: nat): OffsetSeq<Value> {
    OffsetSeq(0, seq(n, _ => NO_VALUE))
  }

  function ImportOne(s: State, e: SnapshotEntry): State {
    State(s.tree[e.key := TreeItem([e.modRevision], EntryValue(e))], s.log.Set(e.modRevision - 1, EntryValue(e)))
  }

  function ImportInto(s: State, entries: seq<SnapshotEntry>): State {
    if entries == [] then s else ImportOne(ImportInto(s, DropLast(entries)), Last(entries))
  }

  /** The store after an import, whatever it held before. */
  function Import(entries: seq<SnapshotEntry>): State {
    ImportInto(State(map[], BlankLog(MaxMod(entries))), entries)
  }

  lemma {:induction false} MaxModBounds(entries: seq<SnapshotEntry>)
    ensures forall i | 0 <= i < |entries| :: entries[i].modRevision <= MaxMod(entries)
    ensures MaxMod(entries) > 0 ==> exists i :: 0 <= i < |entries| && entries[i].modRevision == MaxMod(entries)
  {
    if entries != [] {
      MaxModBounds(DropLast(entries));
      if MaxMod(entries) > 0 && MaxMod(entries) != Last(entries).modRevision {
        var i :| 0 <= i < |DropLast(entries)| && DropLast(entries)[i].modRevision == MaxMod(entries);
        assert entries[i].modRevision == MaxMod(entries);
      }
    }
  }

  /** Each listed key gets its entry, and no other key appears. */
  lemma {:induction false} ImportedInto(s: State, entries: seq<SnapshotEntry>, key: Bytes)
    requires forall i, j | 0 <= i < j < |entries| :: entries[i].key != entries[j].key
    ensures ImportInto(s, entries).log.start == s.log.start && ImportInto(s, entries).log.End() == s.log.End()
    ensures !HasEntry(entries, key) ==> ItemOf(ImportInto(s, entries), key) == ItemOf(s, key)
    ensures forall i | 0 <= i < |entries| && entries[i].key == key ::
              ItemOf(ImportInto(s, entries), key) == TreeItem([entries[i].modRevision], EntryValue(entries[i]))
  {
    if entries != [] {
      var front := DropLast(entries);
      ImportedInto(s, front, key);
      assert forall i | 0 <= i < |front| :: front[i] == entries[i];
      if Last(entries).key == key { assert HasEntry(entries, key) by { assert entries[|entries| - 1].key == key; } }
    }
  }

  /** Which item an import of an export leaves. */
  lemma {:induction false} ImportedItem(entries: seq<SnapshotEntry>, s: State, key: Bytes)
    requires Exports(entries, s)
    ensures ItemOf(Import(entries), key) ==
            if Live(s, key) then TreeItem([ItemOf(s, key).latest.modRevision], ItemOf(s, key).latest) else NEW_ITEM
    ensures Import(entries).log.start == 0 && Import(entries).log.End() == MaxMod(entries)
  {
    ImportedInto(State(map[], BlankLog(MaxMod(entries))), entries, key);
    MaxModBounds(entries);
    assert Live(s, key) ==> HasEntry(entries, key);
    forall i | 0 <= i < |entries| && entries[i].key == key ensures EntryValue(entries[i]) == ItemOf(s, key).latest {
      assert IsEntryOf(entries[i], s);
    }
  }

  /** No later entry is for the same key. */
  ghost predicate LastOfKey(entries: seq<SnapshotEntry>, i: nat)
    requires i < |entries|
  {
    forall j | i < j < |entries| :: entries[j].key != entries[i].key
  }

  /** The key has the entry as its only version, field by field. */
  ghost predicate ImportedAs(s: State, e: SnapshotEntry) {
    var item := ItemOf(s, e.key);
    && e.key in s.tree && item.revisions == [e.modRevision]
    && item.latest.data == Some(e.value) && item.latest.createRevision == e.createRevision
    && item.latest.modRevision == e.modRevision && item.latest.version == e.version
  }

  lemma {:induction false} EntriesAreImported(s: State, entries: seq<SnapshotEntry>, i: nat)
    requires i < |entries| && LastOfKey(entries, i)
    ensures ImportedAs(ImportInto(s, entries), entries[i])
    decreases |entries|
  {
    if i < |entries| - 1 {
      var front := DropLast(entries);
      assert entries[|entries| - 1].key != entries[i].key;
      assert LastOfKey(front, i) by {
        forall j | i < j < |front| ensures front[j].key != front[i].key { assert entries[j].key != entries[i].key; }
      }
      EntriesAreImported(s, front, i);
    }
  }

  // ---------------------------------------------------------------- what every store keeps

  /** The newest value of a live key was written at a revision that the store has reached. */
  ghost predicate LiveOk(s: State, key: Bytes) {
    Live(s, key) ==>
      1 <= ItemOf(s, key).latest.createRevision <= ItemOf(s, key).latest.modRevision <= s.log.End()
  }

  ghost predicate Bounded(s: State) {
    forall key :: LiveOk(s, key)
  }

  lemma {:induction false} SetKeepsBounded(s: State, key: Bytes, data: Option<Bytes>, req: Option<Required>, trim: bool)
    requires Bounded(s)
    ensures Bounded(ApplySet(s, key, data, req, trim).0)
  {
    var s' := ApplySet(s, key, data, req, trim).0;
    forall k ensures LiveOk(s', k) { assert LiveOk(s, k); }
  }

  lemma {:induction false} CompactKeepsBounded(s: State, rev: int)
    requires Bounded(s)
    ensures Bounded(ApplyCompact(s, rev).0)
  {
    var s' := ApplyCompact(s, rev).0;
    forall k ensures LiveOk(s', k) { assert LiveOk(s, k); }
  }

  /** Every store that writes and compactions lead to can be exported. */
  lemma {:induction false} RunIsBounded(s: State, ops: seq<Op>, trim: bool)
    requires Bounded(s)
    ensures Bounded(Run(s, ops, trim).0)
  {
    if ops != [] {
      RunIsBounded(s, DropLast(ops), trim);
      var t := Run(s, DropLast(ops), trim).0;
      match Last(ops)
      case Set(key, data, req) => SetKeepsBounded(t, key, data, req, trim);
      case Compact(rev) => CompactKeepsBounded(t, rev);
    }
  }

  /** And so can a store that was itself imported. */
  lemma {:induction false} ImportIsBounded(entries: seq<SnapshotEntry>, s: State)
    requires Exports(entries, s) && Bounded(s)
    ensures Bounded(Import(entries))
  {
    MaxModBounds(entries);
    forall key ensures LiveOk(Import(entries), key) {
      assert LiveOk(s, key);
      ImportedItem(entries, s, key);
      if Live(s, key) {
        assert HasEntry(entries, key);
        var i :| 0 <= i < |entries| && entries[i].key == key;
        assert IsEntryOf(entries[i], s);
      }
    }
  }

  /** The import's revision is the newest modification of a live key. */
  lemma {:induction false} ImportedRevision(entries: seq<SnapshotEntry>, s: State)
    requires Exports(entries, s) && Bounded(s)
    ensures Import(entries).log.End() <= s.log.End()
    ensures Import(entries).log.End() == s.log.End() <==>
            s.log.End() == 0 || exists key :: Live(s, key) && ItemOf(s, key).latest.modRevision == s.log.End()
  {
    MaxModBounds(entries);
    ImportedItem(entries, s, []);
    var max := MaxMod(entries);
    if max > 0 {
      var i :| 0 <= i < |entries| && entries[i].modRevision == max;
      assert IsEntryOf(entries[i], s) && Live(s, entries[i].key) && LiveOk(s, entries[i].key);
    }
    if key :| Live(s, key) && ItemOf(s, key).latest.modRevision == s.log.End() {
      assert HasEntry(entries, key);
      var i :| 0 <= i < |entries| && entries[i].key == key;
      assert IsEntryOf(entries[i], s);
    }
  }
}
