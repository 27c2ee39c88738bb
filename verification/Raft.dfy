/** The replicated state machine: entries applied to the store, snapshots built and installed. */
module Raft {
  import opened Common
  import opened OffsetSequence
  import opened Mvcc
  import opened StoreModel
  import opened Stores
  import opened Snapshots

  datatype LogId = LogId(term: nat, node: nat, index: nat)

  /** A joint configuration: the voter sets, and the log position that introduced it. */
  datatype Membership = Membership(logId: Option<LogId>, configs: seq<set<nat>>)

  datatype Payload =
    | Blank
    | PutRequest(key: Bytes, value: Bytes)
    | DeleteRequest(key: Bytes)
    | Members(configs: seq<set<nat>>)

  datatype LogEntry = LogEntry(logId: LogId, payload: Payload)

  datatype Machine = Machine(store: State, lastApplied: Option<LogId>, membership: Membership)

  datatype SnapshotData = SnapshotData(lastApplied: Option<LogId>, membership: Membership, entries: seq<SnapshotEntry>)

  /** `index` tells apart snapshots of the same state. */
  datatype Snapshot = Snapshot(lastLogId: Option<LogId>, index: nat, data: SnapshotData)

  function RevisionOf(r: SetResult): int {
    match r
    case Written(rev) => rev
    case Refused(rev, _) => rev
  }

  /** One entry, and the revision that its response carries. */
  function ApplyEntry(m: Machine, e: LogEntry): (Machine, int) {
    var m' := m.(lastApplied := Some(e.logId));
    match e.payload
    case Blank => (m', m.store.log.End())
    case PutRequest(key, value) =>
      var (store, r) := ApplySet(m.store, key, Some(value), None, true);
      (m'.(store := store), RevisionOf(r))
    case DeleteRequest(key) =>
      var (store, r) := ApplySet(m.store, key, None, None, true);
      (m'.(store := store), RevisionOf(r))
    case Members(configs) => (m'.(membership := Membership(Some(e.logId), configs)), m.store.log.End())
  }

  function ApplyAll(m: Machine, entries: seq<LogEntry>): (r: (Machine, seq<int>))
    ensures |r.1| == |entries|
  {
    if entries == [] then (m, [])
    else
      var (m1, revs) := ApplyAll(m, DropLast(entries));
      var (m2, rev) := ApplyEntry(m1, Last(entries));
      (m2, revs + [rev])
  }

  ghost predicate SnapshotOf(data: SnapshotData, m: Machine) {
    data.lastApplied == m.lastApplied && data.membership == m.membership && Exports(data.entries, m.store)
  }

  function Install(data: SnapshotData): Machine {
    Machine(Import(data.entries), data.lastApplied, data.membership)
  }

  class StateMachineStore {
    const store: Store
    var lastApplied: Option<LogId>
    var membership: Membership
    var snapshotIdx: nat
    var currentSnapshot: Option<Snapshot>

    ghost function View(): Machine
      reads this, store, store.log
    {
      Machine(store.View(), lastApplied, membership)
    }

    ghost predicate Valid()
      reads this, store, store.log, store.log.Repr
    {
      store.Valid() && this !in store.log.Repr
    }

    constructor (s: Store)
      requires s.Valid()
      ensures Valid() && store == s && View() == Machine(s.View(), None, Membership(None, []))
              && currentSnapshot == None
    {
      store, lastApplied, membership := s, None, Membership(None, []);
      snapshotIdx, currentSnapshot := 0, None;
    }

    method Apply(entries: seq<LogEntry>) returns (results: seq<int>)
      requires Valid()
      modifies this, store, store.log.Repr
      ensures Valid() && fresh(store.log.Repr - old(store.log.Repr))
      ensures (View(), results) == ApplyAll(old(View()), entries)
      ensures snapshotIdx == old(snapshotIdx) && currentSnapshot == old(currentSnapshot)
    {
      results := [];
      for i := 0 to |entries|
        invariant Valid() && fresh(store.log.Repr - old(store.log.Repr))
        invariant (View(), results) == ApplyAll(old(View()), entries[..i])
        invariant snapshotIdx == old(snapshotIdx) && currentSnapshot == old(currentSnapshot)
      {
        var e := entries[i];
        assert DropLast(entries[..i + 1]) == entries[..i] && Last(entries[..i + 1]) == e;
        lastApplied := Some(e.logId);
        var revision;
        match e.payload {
          case Blank =>
            revision := store.log.LatestRevision();
          case PutRequest(key, value) =>
            var r := store.Set(key, Some(value), None);
            revision := RevisionOf(r);
          case DeleteRequest(key) =>
            var r := store.Set(key, None, None);
            revision := RevisionOf(r);
          case Members(configs) =>
            membership := Membership(Some(e.logId), configs);
            revision := store.log.LatestRevision();
        }
        results := results + [revision];
      }
      assert entries[..|entries|] == entries;
    }

    method BuildSnapshot() returns (snapshot: Snapshot)
      requires Valid()
      modifies this
      ensures Valid() && View() == old(View())
      ensures SnapshotOf(snapshot.data, View()) && snapshot.lastLogId == lastApplied
      ensures forall i | 0 <= i < |snapshot.data.entries| ::
                var e := snapshot.data.entries[i];
                var v := ItemOf(View().store, e.key).latest;
                && v.data == Some(e.value) && e.createRevision == v.createRevision
                && e.modRevision == v.modRevision && e.version == v.version
      ensures snapshotIdx == old(snapshotIdx) + 1 == snapshot.index && currentSnapshot == Some(snapshot)
    {
      var entries := store.ExportSnapshot();
      snapshotIdx := snapshotIdx + 1;
      snapshot := Snapshot(lastApplied, snapshotIdx, SnapshotData(lastApplied, membership, entries));
      currentSnapshot := Some(snapshot);
    }

    method InstallSnapshot(snapshot: Snapshot)
      requires Valid()
      requires forall i | 0 <= i < |snapshot.data.entries| :: snapshot.data.entries[i].modRevision >= 1
      modifies this, store, store.log.Repr
      ensures Valid() && fresh(store.log.Repr - old(store.log.Repr))
      ensures View() == Install(snapshot.data)
      ensures forall i | 0 <= i < |snapshot.data.entries| && LastOfKey(snapshot.data.entries, i) ::
                ImportedAs(View().store, snapshot.data.entries[i])
      ensures snapshotIdx == old(snapshotIdx) && currentSnapshot == Some(snapshot)
    {
      store.ImportSnapshot(snapshot.data.entries);
      lastApplied := snapshot.data.lastApplied;
      membership := snapshot.data.membership;
      currentSnapshot := Some(snapshot);
    }
  }

  // ---------------------------------------------------------------- a replicated map

  /** The map that the log describes, with nothing but puts and deletes. */
  function KvAfter(kv: map<Bytes, Bytes>, e: LogEntry): map<Bytes, Bytes> {
    match e.payload
    case PutRequest(key, value) => kv[key := value]
    case DeleteRequest(key) => kv - {key}
    case _ => kv
  }

  function KvAll(kv: map<Bytes, Bytes>, entries: seq<LogEntry>): map<Bytes, Bytes> {
    if entries == [] then kv else KvAfter(KvAll(kv, DropLast(entries)), Last(entries))
  }

  /** How many entries change the map: every put, and the deletes of keys that are there. */
  function Changes(kv: map<Bytes, Bytes>, entries: seq<LogEntry>): nat {
    if entries == [] then 0
    else
      var p := Last(entries).payload;
      var changes := p.PutRequest? || (p.DeleteRequest? && p.key in KvAll(kv, DropLast(entries)));
      Changes(kv, DropLast(entries)) + if changes then 1 else 0
  }

  function LastMembers(m: Membership, entries: seq<LogEntry>): Membership {
    if entries == [] then m
    else match Last(entries).payload
      case Members(configs) => Membership(Some(Last(entries).logId), configs)
      case _ => LastMembers(m, DropLast(entries))
  }

  ghost predicate HoldsKey(s: State, kv: map<Bytes, Bytes>, key: Bytes) {
    ItemOf(s, key).latest.data == if key in kv then Some(kv[key]) else None
  }

  ghost predicate HoldsMap(s: State, kv: map<Bytes, Bytes>) {
    forall key :: HoldsKey(s, kv, key)
  }

  lemma {:induction false} EntryUpdatesMap(m: Machine, kv: map<Bytes, Bytes>, e: LogEntry)
    requires HoldsMap(m.store, kv)
    ensures HoldsMap(ApplyEntry(m, e).0.store, KvAfter(kv, e))
    ensures var p := e.payload;
            ApplyEntry(m, e).0.store.log.End() ==
            m.store.log.End() + if p.PutRequest? || (p.DeleteRequest? && p.key in kv) then 1 else 0
    ensures ApplyEntry(m, e).1 == ApplyEntry(m, e).0.store.log.End()
  {
    var m' := ApplyEntry(m, e).0;
    forall key ensures HoldsKey(m'.store, KvAfter(kv, e), key) { assert HoldsKey(m.store, kv, key); }
    if e.payload.DeleteRequest? { assert HoldsKey(m.store, kv, e.payload.key); }
  }

  /** The state machine is a replicated map: after any log the live keys and their data are those
      of the map, the revision has grown by the number of changes, and the metadata are those of
      the last entry and the last membership entry. */
  lemma {:induction false} AppliesAsMap(m: Machine, kv: map<Bytes, Bytes>, entries: seq<LogEntry>)
    requires HoldsMap(m.store, kv)
    ensures var m' := ApplyAll(m, entries).0;
            && HoldsMap(m'.store, KvAll(kv, entries))
            && m'.store.log.End() == m.store.log.End() + Changes(kv, entries)
            && m'.membership == LastMembers(m.membership, entries)
            && m'.lastApplied == if entries == [] then m.lastApplied else Some(Last(entries).logId)
    ensures forall i | 0 <= i < |entries| ::
              ApplyAll(m, entries).1[i] == m.store.log.End() + Changes(kv, entries[..i + 1])
  {
    if entries != [] {
      var front := DropLast(entries);
      AppliesAsMap(m, kv, front);
      EntryUpdatesMap(ApplyAll(m, front).0, KvAll(kv, front), Last(entries));
      forall i | 0 <= i < |entries|
        ensures ApplyAll(m, entries).1[i] == m.store.log.End() + Changes(kv, entries[..i + 1])
      {
        assert entries[..i + 1] == if i < |front| then front[..i + 1] else entries;
      }
    }
  }

  // ---------------------------------------------------------------- snapshot and suffix

  /** Revisions up to the snapshot are kept, later ones come out `delta` lower. */
  function Shift(rev: int, at: int, delta: int): int {
    if rev <= at then rev else rev - delta
  }

  function ShiftValue(v: Value, at: int, delta: int): Value {
    Value(Shift(v.createRevision, at, delta), Shift(v.modRevision, at, delta), v.version, v.data)
  }

  ghost predicate SameKey(a: State, b: State, at: int, delta: int, key: Bytes) {
    && (Live(a, key) <==> Live(b, key))
    && (Live(a, key) ==> ItemOf(b, key).latest == ShiftValue(ItemOf(a, key).latest, at, delta))
  }

  /** Same live keys with the same data and version; revisions after `at` differ by delta. */
  ghost predicate Agree(a: State, b: State, at: int, delta: int) {
    && at <= a.log.End() == b.log.End() + delta
    && forall key :: SameKey(a, b, at, delta, key)
  }

  lemma {:induction false} InstalledAgrees(entries: seq<SnapshotEntry>, s: State)
    requires Exports(entries, s) && Bounded(s)
    ensures Agree(s, Import(entries), s.log.End(), s.log.End() - Import(entries).log.End())
  {
    var at, delta := s.log.End(), s.log.End() - Import(entries).log.End();
    forall key ensures SameKey(s, Import(entries), at, delta, key) {
      ImportedItem(entries, s, key);
      assert LiveOk(s, key);
    }
  }

  lemma {:induction false} SetAgrees(a: State, b: State, at: int, delta: int, key: Bytes, data: Option<Bytes>)
    requires Agree(a, b, at, delta)
    ensures Agree(ApplySet(a, key, data, None, true).0, ApplySet(b, key, data, None, true).0, at, delta)
    ensures RevisionOf(ApplySet(b, key, data, None, true).1) == RevisionOf(ApplySet(a, key, data, None, true).1) - delta
  {
    var a', b' := ApplySet(a, key, data, None, true).0, ApplySet(b, key, data, None, true).0;
    assert SameKey(a, b, at, delta, key);
    forall k ensures SameKey(a', b', at, delta, k) { assert SameKey(a, b, at, delta, k); }
  }

  ghost predicate MachinesAgree(a: Machine, b: Machine, at: int, delta: int) {
    a.lastApplied == b.lastApplied && a.membership == b.membership && Agree(a.store, b.store, at, delta)
  }

  lemma {:induction false} EntryAgrees(a: Machine, b: Machine, at: int, delta: int, e: LogEntry)
    requires MachinesAgree(a, b, at, delta)
    ensures MachinesAgree(ApplyEntry(a, e).0, ApplyEntry(b, e).0, at, delta)
    ensures ApplyEntry(b, e).1 == ApplyEntry(a, e).1 - delta
  {
    match e.payload
    case Blank =>
    case PutRequest(key, value) => SetAgrees(a.store, b.store, at, delta, key, Some(value));
    case DeleteRequest(key) => SetAgrees(a.store, b.store, at, delta, key, None);
    case Members(_) =>
  }

  lemma {:induction false} SuffixAgrees(a: Machine, b: Machine, at: int, delta: int, entries: seq<LogEntry>)
    requires MachinesAgree(a, b, at, delta)
    ensures MachinesAgree(ApplyAll(a, entries).0, ApplyAll(b, entries).0, at, delta)
    ensures forall i | 0 <= i < |entries| :: ApplyAll(b, entries).1[i] == ApplyAll(a, entries).1[i] - delta
  {
    if entries != [] {
      SuffixAgrees(a, b, at, delta, DropLast(entries));
      EntryAgrees(ApplyAll(a, DropLast(entries)).0, ApplyAll(b, DropLast(entries)).0, at, delta, Last(entries));
    }
  }

  lemma {:induction false} ApplyConcat(m: Machine, a: seq<LogEntry>, b: seq<LogEntry>)
    ensures ApplyAll(m, a + b).0 == ApplyAll(ApplyAll(m, a).0, b).0
    ensures ApplyAll(m, a + b).1 == ApplyAll(m, a).1 + ApplyAll(ApplyAll(m, a).0, b).1
  {
    if b == [] {
      assert a + b == a;
    } else {
      assert DropLast(a + b) == a + DropLast(b) && Last(a + b) == Last(b);
      ApplyConcat(m, a, DropLast(b));
    }
  }

  /** Nothing that a machine goes through leaves the exportable states. */
  lemma {:induction false} ApplyKeepsBounded(m: Machine, entries: seq<LogEntry>)
    requires Bounded(m.store)
    ensures Bounded(ApplyAll(m, entries).0.store)
  {
    if entries != [] {
      ApplyKeepsBounded(m, DropLast(entries));
      var store := ApplyAll(m, DropLast(entries)).0.store;
      match Last(entries).payload
      case Blank =>
      case PutRequest(key, value) => SetKeepsBounded(store, key, Some(value), None, true);
      case DeleteRequest(key) => SetKeepsBounded(store, key, None, None, true);
      case Members(_) =>
    }
  }

  /** A machine that was itself started from a snapshot can export in turn. */
  lemma {:induction false} InstalledKeepsBounded(m: Machine, data: SnapshotData, suffix: seq<LogEntry>)
    requires Bounded(m.store) && SnapshotOf(data, m)
    ensures Bounded(ApplyAll(Install(data), suffix).0.store)
  {
    ImportIsBounded(data.entries, m.store);
    ApplyKeepsBounded(Install(data), suffix);
  }

  /** A replica that installs a snapshot taken after the prefix and applies the suffix agrees with
      one that applied the whole log: same metadata, same live keys with the same data and
      version. Its revision, and those of everything written since, are lower by the distance
      from the newest live modification to the exporter's revision. */
  lemma {:induction false} SnapshotPlusSuffix(m: Machine, prefix: seq<LogEntry>, suffix: seq<LogEntry>,
                                              data: SnapshotData)
    requires Bounded(m.store) && SnapshotOf(data, ApplyAll(m, prefix).0)
    ensures var at := ApplyAll(m, prefix).0.store.log.End();
            var delta := at - Import(data.entries).log.End();
            && delta >= 0
            && MachinesAgree(ApplyAll(m, prefix + suffix).0, ApplyAll(Install(data), suffix).0, at, delta)
            && forall i | 0 <= i < |suffix| ::
                 ApplyAll(Install(data), suffix).1[i] == ApplyAll(m, prefix + suffix).1[|prefix| + i] - delta
  {
    var exporter := ApplyAll(m, prefix).0;
    ApplyKeepsBounded(m, prefix);
    InstalledAgrees(data.entries, exporter.store);
    ImportedRevision(data.entries, exporter.store);
    var at := exporter.store.log.End();
    var delta := at - Import(data.entries).log.End();
    SuffixAgrees(exporter, Install(data), at, delta, suffix);
    ApplyConcat(m, prefix, suffix);
  }

  ghost predicate SameRevisions(a: State, b: State) {
    && a.log.End() == b.log.End()
    && forall key :: SameLatest(a, b, key)
  }

  ghost predicate SameLatest(a: State, b: State, key: Bytes) {
    (Live(a, key) <==> Live(b, key)) && (Live(a, key) ==> ItemOf(a, key).latest == ItemOf(b, key).latest)
  }

  ghost predicate SameAfter(exporter: Machine, data: SnapshotData, suffix: seq<LogEntry>) {
    SameRevisions(ApplyAll(exporter, suffix).0.store, ApplyAll(Install(data), suffix).0.store)
  }

  /** Revisions agree as well, after every suffix, exactly when the exporter's revision is 0 or
      the modification revision of a live key. */
  lemma {:induction false} RevisionsAgreeIff(exporter: Machine, data: SnapshotData)
    requires Bounded(exporter.store) && SnapshotOf(data, exporter)
    ensures (forall suffix :: SameAfter(exporter, data, suffix))
            <==> (exporter.store.log.End() == 0 ||
                  exists key :: Live(exporter.store, key) &&
                                ItemOf(exporter.store, key).latest.modRevision == exporter.store.log.End())
  {
    var at := exporter.store.log.End();
    var delta := at - Import(data.entries).log.End();
    ImportedRevision(data.entries, exporter.store);
    InstalledAgrees(data.entries, exporter.store);
    if delta == 0 {
      forall suffix ensures SameAfter(exporter, data, suffix) {
        SuffixAgrees(exporter, Install(data), at, delta, suffix);
        var a, b := ApplyAll(exporter, suffix).0.store, ApplyAll(Install(data), suffix).0.store;
        forall key ensures SameLatest(a, b, key) { assert SameKey(a, b, at, delta, key); }
      }
    } else {
      assert !SameAfter(exporter, data, []);
    }
  }

  lemma {:induction false} EntriesAreLive(entries: seq<SnapshotEntry>, s: State)
    requires Exports(entries, s)
    ensures entries != [] ==> exists key :: Live(s, key)
  {
    if entries != [] { assert IsEntryOf(entries[0], s) && Live(s, entries[0].key); }
  }

  function PutAndDelete(key: Bytes, value: Bytes, a: LogId, b: LogId): seq<LogEntry> {
    [LogEntry(a, PutRequest(key, value)), LogEntry(b, DeleteRequest(key))]
  }

  lemma {:induction false} PutAndDeleteIsEmpty(key: Bytes, value: Bytes, a: LogId, b: LogId)
    ensures KvAll(map[], PutAndDelete(key, value, a, b)) == map[] && Changes(map[], PutAndDelete(key, value, a, b)) == 2
  {
    var none: map<Bytes, Bytes> := map[];
    var log := PutAndDelete(key, value, a, b);
    var put := DropLast(log);
    assert put == [log[0]] && DropLast(put) == [];
    assert KvAll(none, put) == none[key := value];
    assert none[key := value] - {key} == none;
    assert Changes(none, put) == 1;
  }

  /** The least log after which the revisions differ: a key is put and deleted. */
  lemma {:induction false} DeletedKeyShifts(key: Bytes, value: Bytes, a: LogId, b: LogId, m: Machine,
                                            data: SnapshotData)
    requires m == ApplyAll(Machine(EMPTY, None, Membership(None, [])), PutAndDelete(key, value, a, b)).0
    requires SnapshotOf(data, m)
    ensures m.store.log.End() == 2 && Install(data).store.log.End() == 0
  {
    var first: Machine := Machine(EMPTY, None, Membership(None, []));
    assert forall k :: HoldsKey(first.store, map[], k);
    AppliesAsMap(first, map[], PutAndDelete(key, value, a, b));
    PutAndDeleteIsEmpty(key, value, a, b);
    EntriesAreLive(data.entries, m.store);
    forall k ensures !Live(m.store, k) { assert HoldsKey(m.store, map[], k); }
    ImportedItem(data.entries, m.store, key);
  }

  /** What an installed replica answers about the past: a key shows at a revision only from the
      newest modification of the key on, since older versions do not travel. */
  lemma {:induction false} InstalledReads(entries: seq<SnapshotEntry>, s: State, key: Bytes, rev: int)
    requires Exports(entries, s) && Bounded(s) && rev > 0
    ensures Has(ItemOf(Import(entries), key), Import(entries).log, rev) <==>
            Live(s, key) && ItemOf(s, key).latest.modRevision <= rev
    ensures Live(s, key) && ItemOf(s, key).latest.modRevision <= rev ==>
              Find(ItemOf(Import(entries), key), Import(entries).log, rev) == Some(ItemOf(s, key).latest)
  {
    ImportedItem(entries, s, key);
    assert LiveOk(s, key);
  }
}
