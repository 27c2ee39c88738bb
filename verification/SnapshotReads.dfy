/** Reads of the past on a replica that started from a snapshot. For every key it behaves as if it
    had lived through a history of its own: blank revisions up to the newest modification in the
    snapshot, the key's last write among them, then the log suffix at lower revisions. The exporter
    may have started from a snapshot in turn. */
module SnapshotReads {
  import opened Common
  import opened OffsetSequence
  import opened Mvcc
  import opened StoreModel
  import opened Snapshots
  import opened Raft

  /** The history before the suffix, as far as `key` is concerned. */
  ghost function Base(key: Bytes, v: Value, max: nat): History {
    seq(max, i requires 0 <= i < max => BaseWrite(key, v, i))
  }

  ghost function BaseWrite(key: Bytes, v: Value, i: nat): Write {
    if v.data.Some? && v.modRevision == i + 1 then Write(key, v)
    else Write(key + [0], Value(i + 1, i + 1, 1, None))
  }

  ghost function ShiftWrite(w: Write, at: int, delta: int): Write {
    Write(w.key, ShiftValue(w.value, at, delta))
  }

  ghost function Shadow(h: History, key: Bytes, v: Value, at: nat, max: nat): History
    requires at <= |h|
  {
    Base(key, v, max) + seq(|h| - at, i requires 0 <= i < |h| - at => ShiftWrite(h[at + i], at, at - max))
  }

  lemma {:induction false} ShadowStep(h: History, w: Write, key: Bytes, v: Value, at: nat, max: nat)
    requires at <= |h|
    ensures Shadow(h + [w], key, v, at, max) == Shadow(h, key, v, at, max) + [ShiftWrite(w, at, at - max)]
  {
  }

  lemma {:induction false} ShadowMods(h: History, key: Bytes, v: Value, at: nat, max: nat)
    requires at <= |h| && ModsMatch(h)
    ensures ModsMatch(Shadow(h, key, v, at, max))
  {
    var shadow := Shadow(h, key, v, at, max);
    forall i | 0 <= i < |shadow| ensures shadow[i].value.modRevision == i + 1 {
      assert shadow[i] == if i < max then BaseWrite(key, v, i) else ShiftWrite(h[at + (i - max)], at, at - max);
    }
  }

  /** The snapshot's own write of the key, or nothing. */
  ghost function BaseRev(v: Value): int {
    if v.data.Some? then v.modRevision else 0
  }

  lemma {:induction false} BaseLast(key: Bytes, v: Value, max: nat, n: nat)
    requires n <= max && (v.data.Some? ==> 1 <= v.modRevision)
    ensures LastRev(Base(key, v, max), key, n) == if BaseRev(v) <= n then BaseRev(v) else 0
  {
    if n > 0 {
      BaseLast(key, v, max, n - 1);
      assert Base(key, v, max)[n - 1] == BaseWrite(key, v, n - 1);
      assert |key + [0]| != |key|;
    }
  }

  /** The last write of the key at or before a revision, in both histories. */
  lemma {:induction false} ShadowLast(h: History, key: Bytes, v: Value, at: nat, max: nat, rev: nat)
    requires max <= at <= rev <= |h| && (v.data.Some? ==> 1 <= v.modRevision <= max)
    ensures var last := LastRev(h, key, rev);
            LastRev(Shadow(h, key, v, at, max), key, rev - (at - max)) ==
              if last > at then last - (at - max) else BaseRev(v)
    decreases rev
  {
    var shadow, base := Shadow(h, key, v, at, max), Base(key, v, max);
    LastRevProps(h, key, rev);
    if rev == at {
      assert base <= shadow;
      LastRevFrozen(base, shadow, key, max);
      BaseLast(key, v, max, max);
    } else {
      ShadowLast(h, key, v, at, max, rev - 1);
      assert shadow[rev - (at - max) - 1] == ShiftWrite(h[rev - 1], at, at - max);
    }
  }

  // ---------------------------------------------------------------- following the log

  /** As far as `key` is concerned, the store has lived through h. */
  ghost predicate Tells(s: State, h: History, key: Bytes) {
    s.log.End() == |h| && Readable(ItemOf(s, key), s.log, h, key)
  }

  /** `a` has lived through h; `b` started from a snapshot of h[..at] whose newest live
      modification was `max`. */
  ghost predicate SameLog(a: State, b: State, h: History, key: Bytes, at: nat, max: nat) {
    max <= at <= |h| && Tells(a, h, key) && Agree(a, b, at, at - max) && b.log.start == 0
  }

  /** In that snapshot, v was the newest value of `key`. */
  ghost predicate Shadows(b: State, h: History, key: Bytes, v: Value, at: nat, max: nat) {
    && at <= |h|
    && v == ValueOf(h, key, at) && (v.data.Some? ==> 1 <= v.modRevision <= max && v.createRevision <= at)
    && Readable(ItemOf(b, key), b.log, Shadow(h, key, v, at, max), key)
  }

  ghost predicate Follows(a: State, b: State, h: History, key: Bytes, v: Value, at: nat, max: nat) {
    SameLog(a, b, h, key, at, max) && Shadows(b, h, key, v, at, max)
  }

  lemma {:induction false} LogGrows(log: OffsetSeq<Value>, g: History, key: Bytes, w: Write, x: Value)
    requires LogHolds(log, g, key) && log.End() == |g| && (w.key == key ==> x == w.value)
    ensures LogHolds(log.Push(PLACEHOLDER).Set(|g|, x), g + [w], key)
  {
    forall r | IsRev(g + [w], key, r) && log.start < r
      ensures log.Push(PLACEHOLDER).Set(|g|, x).Get(r - 1) == Some((g + [w])[r - 1].value)
    {
      assert r <= |g| ==> IsRev(g, key, r);
    }
  }

  /** One write keeps the key readable. */
  lemma {:induction false} WriteReadable(b: State, g: History, key: Bytes, w: Write, req: Option<Required>)
    requires Tells(b, g, key)
    requires w.value == NextValue(ItemOf(b, w.key).latest, |g| + 1, w.value.data)
    requires Allowed(ItemOf(b, w.key).latest, w.value.data, req)
    ensures var b' := ApplySet(b, w.key, w.value.data, req, true).0;
            b'.log.start == b.log.start && Tells(b', g + [w], key)
  {
    var item, start := ItemOf(b, key), b.log.start;
    ItemUnaffected(item, g, w, key, |g|, start);
    if w.key == key {
      TrimKeepsMatch(item, g + [w], key, |g|, start, start);
      PublishKeepsMatch(item.(revisions := Trim(item.revisions, start)), g + [w], key, |g| + 1, start);
    }
    LogGrows(b.log, g, key, w, w.value);
  }

  /** The history after a write that the store may refuse. */
  ghost function NextHistory(s: State, h: History, k: Bytes, data: Option<Bytes>, req: Option<Required>): History {
    var latest := ItemOf(s, k).latest;
    if Allowed(latest, data, req) then h + [Write(k, NextValue(latest, |h| + 1, data))] else h
  }

  lemma {:induction false} SetTells(s: State, h: History, key: Bytes, k: Bytes, data: Option<Bytes>,
                                    req: Option<Required>)
    requires Tells(s, h, key)
    ensures Tells(ApplySet(s, k, data, req, true).0, NextHistory(s, h, k, data, req), key)
  {
    var latest := ItemOf(s, k).latest;
    if Allowed(latest, data, req) {
      WriteReadable(s, h, key, Write(k, NextValue(latest, |h| + 1, data)), req);
    } else {
      assert ItemOf(ApplySet(s, k, data, req, true).0, key) == ItemOf(s, key);
    }
  }

  /** The replica computes the shifted value of the same write. */
  lemma {:induction false} ShiftedWrite(a: State, b: State, h: History, at: nat, max: nat, w: Write)
    requires max <= at <= |h| == a.log.End() && Agree(a, b, at, at - max)
    requires w.value == NextValue(ItemOf(a, w.key).latest, |h| + 1, w.value.data)
    ensures b.log.End() == |h| - (at - max)
    ensures ShiftWrite(w, at, at - max).value == NextValue(ItemOf(b, w.key).latest, b.log.End() + 1, w.value.data)
    ensures Allowed(ItemOf(a, w.key).latest, w.value.data, None) <==>
            Allowed(ItemOf(b, w.key).latest, w.value.data, None)
  {
    assert SameKey(a, b, at, at - max, w.key);
  }

  lemma {:induction false} WriteFollows(a: State, b: State, h: History, key: Bytes, v: Value, at: nat,
                                        max: nat, w: Write)
    requires Follows(a, b, h, key, v, at, max)
    requires w.value == NextValue(ItemOf(a, w.key).latest, |h| + 1, w.value.data)
    requires Allowed(ItemOf(a, w.key).latest, w.value.data, None)
    ensures var b' := ApplySet(b, w.key, w.value.data, None, true).0;
            b'.log.start == 0 && Readable(ItemOf(b', key), b'.log, Shadow(h + [w], key, v, at, max), key)
  {
    ShadowStep(h, w, key, v, at, max);
    ShiftedWrite(a, b, h, at, max, w);
    WriteReadable(b, Shadow(h, key, v, at, max), key, ShiftWrite(w, at, at - max), None);
  }

  lemma {:induction false} SetShadows(a: State, b: State, h: History, key: Bytes, v: Value, at: nat, max: nat,
                                      k: Bytes, data: Option<Bytes>)
    requires Follows(a, b, h, key, v, at, max)
    ensures Shadows(ApplySet(b, k, data, None, true).0, NextHistory(a, h, k, data, None), key, v, at, max)
  {
    var w := Write(k, NextValue(ItemOf(a, k).latest, |h| + 1, data));
    ShiftedWrite(a, b, h, at, max, w);
    LastRevFrozen(h, NextHistory(a, h, k, data, None), key, at);
    if Allowed(ItemOf(a, k).latest, data, None) {
      WriteFollows(a, b, h, key, v, at, max, w);
    } else {
      assert ItemOf(ApplySet(b, k, data, None, true).0, key) == ItemOf(b, key);
    }
  }

  lemma {:induction false} SetSameLog(a: State, b: State, h: History, key: Bytes, at: nat, max: nat,
                                      k: Bytes, data: Option<Bytes>)
    requires SameLog(a, b, h, key, at, max)
    ensures SameLog(ApplySet(a, k, data, None, true).0, ApplySet(b, k, data, None, true).0,
                    NextHistory(a, h, k, data, None), key, at, max)
  {
    SetAgrees(a, b, at, at - max, k, data);
    SetTells(a, h, key, k, data, None);
  }

  lemma {:induction false} SetFollows(a: State, b: State, h: History, key: Bytes, v: Value, at: nat, max: nat,
                                      k: Bytes, data: Option<Bytes>)
    requires Follows(a, b, h, key, v, at, max)
    ensures Follows(ApplySet(a, k, data, None, true).0, ApplySet(b, k, data, None, true).0,
                    NextHistory(a, h, k, data, None), key, v, at, max)
    ensures Stands(a, h) ==> Stands(ApplySet(a, k, data, None, true).0, NextHistory(a, h, k, data, None))
  {
    SetSameLog(a, b, h, key, at, max, k, data);
    SetShadows(a, b, h, key, v, at, max, k, data);
    if Stands(a, h) { SetStands(a, h, k, data); }
  }

  /** The store has lived through h for every key at once. */
  ghost predicate Stands(s: State, h: History) {
    Represents(s, Ref(h, s.log.start))
  }

  lemma {:induction false} SetStands(s: State, h: History, k: Bytes, data: Option<Bytes>)
    requires Stands(s, h)
    ensures Stands(ApplySet(s, k, data, None, true).0, NextHistory(s, h, k, data, None))
  {
    var r := Ref(h, s.log.start);
    RepresentsReadable(s, r, k);
    SetRefines(s, r, k, data, None, true);
    assert r.(history := RefSet(h, k, data, None).0) == Ref(NextHistory(s, h, k, data, None), s.log.start);
  }

  lemma {:induction false} EntriesFollow(a: Machine, b: Machine, h: History, key: Bytes, v: Value, at: nat, max: nat,
                                         entries: seq<LogEntry>) returns (h': History)
    requires Follows(a.store, b.store, h, key, v, at, max)
    ensures Follows(ApplyAll(a, entries).0.store, ApplyAll(b, entries).0.store, h', key, v, at, max)
    ensures Stands(a.store, h) ==> Stands(ApplyAll(a, entries).0.store, h')
  {
    if entries == [] {
      h' := h;
    } else {
      h' := EntriesFollow(a, b, h, key, v, at, max, DropLast(entries));
      var x, y := ApplyAll(a, DropLast(entries)).0.store, ApplyAll(b, DropLast(entries)).0.store;
      match Last(entries).payload
      case Blank =>
      case PutRequest(k, value) =>
        SetFollows(x, y, h', key, v, at, max, k, Some(value));
        h' := NextHistory(x, h', k, Some(value), None);
      case DeleteRequest(k) =>
        SetFollows(x, y, h', key, v, at, max, k, None);
        h' := NextHistory(x, h', k, None, None);
      case Members(_) =>
    }
  }

  // ---------------------------------------------------------------- the installed store

  /** Two live keys never share a revision, so no slot of the import is overwritten. */
  lemma {:induction false} ImportedSlot(s: State, entries: seq<SnapshotEntry>, i: nat)
    requires i < |entries| && 1 <= entries[i].modRevision <= s.log.End() && s.log.start == 0
    requires forall j, k | 0 <= j < k < |entries| :: entries[j].modRevision != entries[k].modRevision
    ensures ImportInto(s, entries).log.start == 0 && ImportInto(s, entries).log.End() == s.log.End()
    ensures ImportInto(s, entries).log.Get(entries[i].modRevision - 1) == Some(EntryValue(entries[i]))
    decreases |entries|
  {
    var front := DropLast(entries);
    ImportLength(s, front);
    if i < |entries| - 1 {
      ImportedSlot(s, front, i);
      assert entries[i].modRevision != entries[|entries| - 1].modRevision;
    }
  }

  lemma {:induction false} ImportLength(s: State, entries: seq<SnapshotEntry>)
    ensures ImportInto(s, entries).log.start == s.log.start && ImportInto(s, entries).log.End() == s.log.End()
  {
    if entries != [] { ImportLength(s, DropLast(entries)); }
  }

  /** No two live keys were last written at the same revision. */
  ghost predicate Apart(s: State) {
    forall j, k | j != k && Live(s, j) && Live(s, k) ::
      ItemOf(s, j).latest.modRevision != ItemOf(s, k).latest.modRevision
  }

  lemma {:induction false} DistinctMods(entries: seq<SnapshotEntry>, s: State)
    requires Exports(entries, s) && Apart(s)
    ensures forall j, k | 0 <= j < k < |entries| :: entries[j].modRevision != entries[k].modRevision
  {
    forall j, k | 0 <= j < k < |entries| ensures entries[j].modRevision != entries[k].modRevision {
      assert IsEntryOf(entries[j], s) && IsEntryOf(entries[k], s);
      assert Live(s, entries[j].key) && Live(s, entries[k].key);
    }
  }

  lemma {:induction false} BaseMatches(key: Bytes, v: Value, max: nat)
    requires v.data.Some? ==> 1 <= v.modRevision <= max
    ensures ItemMatches(if v.data.Some? then TreeItem([v.modRevision], v) else NEW_ITEM, Base(key, v, max), key, max, 0)
  {
    var base := Base(key, v, max);
    BaseLast(key, v, max, max);
    forall r | IsRev(base, key, r) ensures v.data.Some? && r == v.modRevision {
      assert base[r - 1] == BaseWrite(key, v, r - 1) && |key + [0]| != |key|;
    }
    if v.data.Some? { assert base[v.modRevision - 1] == Write(key, v); }
  }

  /** What an installed store has lived through, as far as the key is concerned. */
  lemma {:induction false} ImportTells(entries: seq<SnapshotEntry>, s: State, key: Bytes)
    requires Exports(entries, s) && Bounded(s) && Apart(s)
    ensures Tells(Import(entries), Base(key, ItemOf(s, key).latest, MaxMod(entries)), key)
  {
    var v, max := ItemOf(s, key).latest, MaxMod(entries);
    ImportedItem(entries, s, key);
    NewestIsCounted(entries, s, key);
    BaseMatches(key, v, max);
    InstalledLog(entries, s, key);
    assert forall i | 0 <= i < max :: Base(key, v, max)[i] == BaseWrite(key, v, i);
  }

  lemma {:induction false} InstalledFollows(entries: seq<SnapshotEntry>, s: State, h: History, key: Bytes)
    requires Exports(entries, s) && Tells(s, h, key) && Bounded(s) && Apart(s)
    ensures Follows(s, Import(entries), h, key, LatestOf(h, key), |h|, Import(entries).log.End())
  {
    var v, max := LatestOf(h, key), MaxMod(entries);
    ImportedItem(entries, s, key);
    ImportedRevision(entries, s);
    InstalledAgrees(entries, s);
    NewestIsCounted(entries, s, key);
    assert LiveOk(s, key);
    ImportTells(entries, s, key);
    assert Shadow(h, key, v, |h|, max) == Base(key, v, max);
  }

  lemma {:induction false} NewestIsCounted(entries: seq<SnapshotEntry>, s: State, key: Bytes)
    requires Exports(entries, s) && Bounded(s)
    ensures Live(s, key) ==> 1 <= ItemOf(s, key).latest.modRevision <= MaxMod(entries)
  {
    MaxModBounds(entries);
    assert LiveOk(s, key);
    if Live(s, key) {
      assert HasEntry(entries, key);
      var i :| 0 <= i < |entries| && entries[i].key == key;
      assert IsEntryOf(entries[i], s);
    }
  }

  lemma {:induction false} InstalledSlot(entries: seq<SnapshotEntry>, s: State, key: Bytes)
    requires Exports(entries, s) && Bounded(s) && Apart(s) && Live(s, key)
    ensures Import(entries).log.Get(ItemOf(s, key).latest.modRevision - 1) == Some(ItemOf(s, key).latest)
  {
    MaxModBounds(entries);
    DistinctMods(entries, s);
    assert LiveOk(s, key) && HasEntry(entries, key);
    var i :| 0 <= i < |entries| && entries[i].key == key;
    assert IsEntryOf(entries[i], s);
    ImportedSlot(State(map[], BlankLog(MaxMod(entries))), entries, i);
  }

  lemma {:induction false} InstalledLog(entries: seq<SnapshotEntry>, s: State, key: Bytes)
    requires Exports(entries, s) && Bounded(s) && Apart(s)
    ensures LogHolds(Import(entries).log, Base(key, ItemOf(s, key).latest, MaxMod(entries)), key)
  {
    var v, max := ItemOf(s, key).latest, MaxMod(entries);
    var base := Base(key, v, max);
    if Live(s, key) { InstalledSlot(entries, s, key); }
    forall r | IsRev(base, key, r) && 0 < r ensures Import(entries).log.Get(r - 1) == Some(base[r - 1].value) {
      assert base[r - 1] == BaseWrite(key, v, r - 1) && |key + [0]| != |key|;
    }
  }

  // ---------------------------------------------------------------- the reads

  /** A read of the replica shows the value of the history, shifted. A read of the exporter shows it
      too, unless it is compacted and superseded. */
  ghost predicate ReadsAgree(a: State, b: State, h: History, key: Bytes, rev: int, at: int, delta: int)
    requires 0 < rev <= |h| && rev - delta > 0
  {
    var v := ValueOf(h, key, rev);
    && (Has(ItemOf(b, key), b.log, rev - delta) <==> v.data.Some?)
    && (v.data.Some? ==> Find(ItemOf(b, key), b.log, rev - delta) == Some(ShiftValue(v, at, delta)))
    && (Has(ItemOf(a, key), a.log, rev) <==>
          v.data.Some? && (LastRev(h, key, rev) > a.log.start || LastRev(h, key, |h|) <= rev))
    && (Has(ItemOf(a, key), a.log, rev) ==> Find(ItemOf(a, key), a.log, rev) == Some(v))
  }

  lemma {:induction false} ReadIs(item: TreeItem, log: OffsetSeq<Value>, h: History, key: Bytes, rev: int)
    requires Readable(item, log, h, key) && 0 < rev <= |h|
    ensures Has(item, log, rev) <==>
            ValueOf(h, key, rev).data.Some? && (LastRev(h, key, rev) > log.start || LastRev(h, key, |h|) <= rev)
    ensures Has(item, log, rev) ==> Find(item, log, rev) == Some(ValueOf(h, key, rev))
    ensures log.start == 0 && ValueOf(h, key, rev).data.Some? ==> LastRev(h, key, rev) > log.start
  {
    FindIsVisible(item, log, h, key, rev);
    HasAgreesWithFind(item, log, rev);
    LastRevProps(h, key, rev);
    LastRevProps(h, key, |h|);
    LastRevMonotone(h, key, rev, |h|);
  }

  lemma {:induction false} ShadowValue(h: History, key: Bytes, v: Value, at: nat, max: nat, rev: int)
    requires max <= at <= rev <= |h| && ModsMatch(h)
    requires v == ValueOf(h, key, at) && (v.data.Some? ==> 1 <= v.modRevision <= max && v.createRevision <= at)
    ensures var x, y := ValueOf(h, key, rev), ValueOf(Shadow(h, key, v, at, max), key, rev - (at - max));
            && (x.data.Some? <==> y.data.Some?)
            && (x.data.Some? ==> y == ShiftValue(x, at, at - max))
  {
    var shadow, delta := Shadow(h, key, v, at, max), at - max;
    var last := LastRev(h, key, rev);
    LastRevProps(h, key, rev);
    LastRevProps(h, key, at);
    LastRevMonotone(h, key, at, rev);
    ShadowLast(h, key, v, at, max, rev);
    if last > at {
      assert shadow[last - delta - 1] == ShiftWrite(h[last - 1], at, delta);
    } else if v.data.Some? {
      assert shadow[v.modRevision - 1] == BaseWrite(key, v, v.modRevision - 1);
    }
  }

  lemma {:induction false} FollowerReads(a: State, b: State, h: History, key: Bytes, v: Value, at: nat,
                                         max: nat, rev: int)
    requires Follows(a, b, h, key, v, at, max) && at <= rev <= |h| && 0 < rev && rev - (at - max) > 0
    ensures ReadsAgree(a, b, h, key, rev, at, at - max)
  {
    ReadIs(ItemOf(a, key), a.log, h, key, rev);
    ReadIs(ItemOf(b, key), b.log, Shadow(h, key, v, at, max), key, rev - (at - max));
    ShadowValue(h, key, v, at, max, rev);
  }

  // ---------------------------------------------------------------- any exporter

  /** What led to the contents of a store: operations, and installations of a snapshot of what it was
      until then, on a store that may have held anything. */
  datatype Event = Did(op: Op) | Installed(entries: seq<SnapshotEntry>)

  function After(events: seq<Event>): State {
    if events == [] then EMPTY
    else
      match Last(events)
      case Did(op) => Step(After(DropLast(events)), op, true).0
      case Installed(entries) => Import(entries)
  }

  ghost predicate Lineage(events: seq<Event>) {
    events == [] ||
    (Lineage(DropLast(events)) && (Last(events).Installed? ==> Exports(Last(events).entries, After(DropLast(events)))))
  }

  ghost predicate HasHistory(s: State, key: Bytes) {
    exists h :: Tells(s, h, key)
  }

  /** What every such store is like. */
  ghost predicate Sound(s: State) {
    Bounded(s) && Apart(s) && forall key :: HasHistory(s, key)
  }

  lemma {:induction false} SetKeepsApart(s: State, k: Bytes, data: Option<Bytes>, req: Option<Required>)
    requires Bounded(s) && Apart(s)
    ensures Apart(ApplySet(s, k, data, req, true).0)
  {
    var s' := ApplySet(s, k, data, req, true).0;
    forall i, j | i != j && Live(s', i) && Live(s', j)
      ensures ItemOf(s', i).latest.modRevision != ItemOf(s', j).latest.modRevision
    {
      assert LiveOk(s, i) && LiveOk(s, j);
    }
  }

  lemma {:induction false} SetKeepsSound(s: State, k: Bytes, data: Option<Bytes>, req: Option<Required>)
    requires Sound(s)
    ensures Sound(ApplySet(s, k, data, req, true).0)
  {
    SetKeepsBounded(s, k, data, req, true);
    SetKeepsApart(s, k, data, req);
    forall key ensures HasHistory(ApplySet(s, k, data, req, true).0, key) {
      assert HasHistory(s, key);
      var h :| Tells(s, h, key);
      SetTells(s, h, key, k, data, req);
    }
  }

  lemma {:induction false} CompactTells(s: State, h: History, key: Bytes, rev: int)
    requires Tells(s, h, key)
    ensures Tells(ApplyCompact(s, rev).0, h, key)
  {
    var s' := ApplyCompact(s, rev).0;
    forall r | IsRev(h, key, r) && s'.log.start < r ensures s'.log.Get(r - 1) == Some(h[r - 1].value) {
      assert s.log.Get(r - 1) == Some(h[r - 1].value);
    }
  }

  lemma {:induction false} CompactKeepsSound(s: State, rev: int)
    requires Sound(s)
    ensures Sound(ApplyCompact(s, rev).0)
  {
    var s' := ApplyCompact(s, rev).0;
    CompactKeepsBounded(s, rev);
    assert forall key :: ItemOf(s', key) == ItemOf(s, key);
    forall i, j | i != j && Live(s', i) && Live(s', j)
      ensures ItemOf(s', i).latest.modRevision != ItemOf(s', j).latest.modRevision
    {
      assert Live(s, i) && Live(s, j);
    }
    forall key ensures HasHistory(s', key) {
      assert HasHistory(s, key);
      var h :| Tells(s, h, key);
      CompactTells(s, h, key, rev);
    }
  }

  lemma {:induction false} ImportKeepsSound(entries: seq<SnapshotEntry>, s: State)
    requires Exports(entries, s) && Sound(s)
    ensures Sound(Import(entries))
  {
    var s' := Import(entries);
    ImportIsBounded(entries, s);
    forall key ensures HasHistory(s', key) { ImportTells(entries, s, key); }
    forall i, j | i != j && Live(s', i) && Live(s', j)
      ensures ItemOf(s', i).latest.modRevision != ItemOf(s', j).latest.modRevision
    {
      ImportedItem(entries, s, i);
      ImportedItem(entries, s, j);
      assert Live(s, i) && Live(s, j);
    }
  }

  lemma {:induction false} EmptyIsSound()
    ensures Sound(EMPTY)
  {
    forall key ensures HasHistory(EMPTY, key) { assert Tells(EMPTY, [], key); }
  }

  /** However a store came about, it can be exported, and each of its keys has a history. */
  lemma {:induction false} LineageIsSound(events: seq<Event>)
    requires Lineage(events)
    ensures Sound(After(events))
  {
    if events == [] {
      EmptyIsSound();
    } else {
      var s := After(DropLast(events));
      LineageIsSound(DropLast(events));
      match Last(events)
      case Did(op) =>
        match op {
          case Set(key, data, req) => SetKeepsSound(s, key, data, req);
          case Compact(rev) => CompactKeepsSound(s, rev);
        }
      case Installed(entries) => ImportKeepsSound(entries, s);
    }
  }

  predicate NeverInstalled(events: seq<Event>) {
    forall i | 0 <= i < |events| :: events[i].Did?
  }

  /** A store that was never installed has one history for all of its keys. */
  lemma {:induction false} OneHistory(events: seq<Event>) returns (h: History)
    requires NeverInstalled(events)
    ensures Stands(After(events), h)
  {
    if events == [] {
      h := [];
      RunRefines([], true);
    } else {
      var s := After(DropLast(events));
      h := OneHistory(DropLast(events));
      assert events[|events| - 1].Did?;
      match Last(events).op
      case Set(key, data, req) =>
        SetRefines(s, Ref(h, s.log.start), key, data, req, true);
        h := RefSet(h, key, data, req).0;
      case Compact(rev) => CompactRefines(s, Ref(h, s.log.start), rev);
    }
  }

  lemma {:induction false} StandsTells(s: State, h: History, key: Bytes)
    requires Stands(s, h)
    ensures Tells(s, h, key)
  {
    RepresentsReadable(s, Ref(h, s.log.start), key);
  }

  /** A history of the key, and one of all keys where there is one. */
  lemma {:induction false} HistoryFor(events: seq<Event>, key: Bytes) returns (h: History)
    requires Lineage(events)
    ensures Tells(After(events), h, key) && (NeverInstalled(events) ==> Stands(After(events), h))
  {
    if NeverInstalled(events) {
      h := OneHistory(events);
      StandsTells(After(events), h, key);
    } else {
      LineageIsSound(events);
      assert HasHistory(After(events), key);
      h :| Tells(After(events), h, key);
    }
  }

  /** From the snapshot on, a replica that installed it answers a read of any key at any revision
      from the same history of the key as a replica that applied the whole log, at the corresponding
      revision. The snapshot was taken at revision `at`, and its newest live modification is `max`.
      The exporter may have compacted its log: then it may miss a value that the replica still has.
      It may have been installed from a snapshot itself, any number of times; if it never was, the
      history is that of all keys. */
  lemma {:induction false} ReadsAfterSnapshot(events: seq<Event>, exporter: Machine, data: SnapshotData,
                                              suffix: seq<LogEntry>, key: Bytes, rev: int, at: nat, max: nat)
    returns (h: History)
    requires Lineage(events) && exporter.store == After(events) && SnapshotOf(data, exporter)
    requires at == exporter.store.log.End() && max == Import(data.entries).log.End()
    requires at <= rev <= ApplyAll(exporter, suffix).0.store.log.End() && rev > 0 && rev > at - max
    ensures var a, b := ApplyAll(exporter, suffix).0.store, ApplyAll(Install(data), suffix).0.store;
            && Tells(a, h, key) && (NeverInstalled(events) ==> Stands(a, h))
            && ReadsAgree(a, b, h, key, rev, at, at - max)
  {
    LineageIsSound(events);
    var h0 := HistoryFor(events, key);
    ImportedRevision(data.entries, exporter.store);
    InstalledFollows(data.entries, exporter.store, h0, key);
    h := EntriesFollow(exporter, Install(data), h0, key, LatestOf(h0, key), at, max, suffix);
    var a, b := ApplyAll(exporter, suffix).0.store, ApplyAll(Install(data), suffix).0.store;
    FollowerReads(a, b, h, key, LatestOf(h0, key), at, max, rev);
  }
}
