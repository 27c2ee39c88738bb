/** The two-level index: for every prefix, the suffixes of its keys in byte order. */
module KeyIndex {
  import opened Common
  import opened ByteOrder
  import opened Prefixes

  type Index = map<Bytes, seq<Bytes>>

  ghost predicate Sorted(s: seq<Bytes>) {
    forall i, j | 0 <= i < j < |s| :: Less(s[i], s[j])
  }

  /** Insertion into the ordered map of one prefix. */
  function Insert(s: seq<Bytes>, x: Bytes): seq<Bytes> {
    if s == [] then [x]
    else if s[0] == x then s
    else if Less(x, s[0]) then [x] + s
    else [s[0]] + Insert(s[1..], x)
  }

  lemma {:induction false} InsertMembers(s: seq<Bytes>, x: Bytes)
    ensures forall y :: y in Insert(s, x) <==> y == x || y in s
  {
    if s != [] { InsertMembers(s[1..], x); }
  }

  lemma {:induction false} InsertSorts(s: seq<Bytes>, x: Bytes)
    requires Sorted(s)
    ensures Sorted(Insert(s, x))
  {
    if s != [] && s[0] != x {
      if Less(x, s[0]) {
        forall i | 0 < i < |s| ensures Less(x, s[i]) {
          LessTransitive(x, s[0], s[i]);
        }
      } else {
        LessTotal(x, s[0]);
        InsertSorts(s[1..], x);
        InsertMembers(s[1..], x);
        var rest := Insert(s[1..], x);
        forall i | 0 <= i < |rest| ensures Less(s[0], rest[i]) {
          assert rest[i] in rest;
        }
      }
    }
  }

  function Suffixes(index: Index, prefix: Bytes): seq<Bytes> {
    if prefix in index then index[prefix] else []
  }

  function Add(index: Index, key: Bytes): Index {
    index[Prefix(key) := Insert(Suffixes(index, Prefix(key)), Suffix(key))]
  }

  ghost predicate ShardOk(index: Index, prefix: Bytes) {
    && Sorted(Suffixes(index, prefix))
    && forall s | s in Suffixes(index, prefix) :: Prefix(prefix + s) == prefix
  }

  predicate Holds(index: Index, key: Bytes) {
    Suffix(key) in Suffixes(index, Prefix(key))
  }

  /** The index holds exactly these keys, every shard in order. */
  ghost predicate Indexes(index: Index, keys: set<Bytes>) {
    && (forall p :: ShardOk(index, p))
    && (forall key {:trigger Holds(index, key)} :: Holds(index, key) <==> key in keys)
  }

  lemma {:induction false} AddIndexes(index: Index, keys: set<Bytes>, key: Bytes)
    requires Indexes(index, keys)
    ensures Indexes(Add(index, key), keys + {key})
  {
    var index' := Add(index, key);
    InsertMembers(Suffixes(index, Prefix(key)), Suffix(key));
    InsertSorts(Suffixes(index, Prefix(key)), Suffix(key)) by { assert ShardOk(index, Prefix(key)); }
    SplitJoins(key);
    forall p ensures ShardOk(index', p) {
      assert ShardOk(index, p);
    }
    forall k ensures Holds(index', k) <==> k in keys + {key} {
      SplitJoins(k);
      assert Holds(index, k) <==> k in keys;
    }
  }

  /** The keys of one shard within the bounds, in order. */
  function ScanFrom(prefix: Bytes, suffixes: seq<Bytes>, lo: Bytes, hi: Bound): seq<Bytes> {
    if suffixes == [] then []
    else
      (if AtMost(lo, suffixes[0]) && BelowBound(suffixes[0], hi) then [prefix + suffixes[0]] else [])
      + ScanFrom(prefix, suffixes[1..], lo, hi)
  }

  function Scan(index: Index, q: Query): seq<Bytes>
    requires q.Accepted?
  {
    ScanFrom(q.prefix, Suffixes(index, q.prefix), q.lo, q.hi)
  }

  lemma {:induction false} ScanFromMembers(prefix: Bytes, suffixes: seq<Bytes>, lo: Bytes, hi: Bound)
    ensures forall key :: key in ScanFrom(prefix, suffixes, lo, hi) <==>
              prefix <= key && key[|prefix|..] in suffixes
              && AtMost(lo, key[|prefix|..]) && BelowBound(key[|prefix|..], hi)
  {
    if suffixes != [] {
      ScanFromMembers(prefix, suffixes[1..], lo, hi);
      assert (prefix + suffixes[0])[|prefix|..] == suffixes[0];
      assert forall key: Bytes | prefix <= key :: key == prefix + key[|prefix|..];
    }
  }

  lemma {:induction false} ScanFromSorted(prefix: Bytes, suffixes: seq<Bytes>, lo: Bytes, hi: Bound)
    requires Sorted(suffixes)
    ensures Sorted(ScanFrom(prefix, suffixes, lo, hi))
  {
    if suffixes != [] {
      ScanFromSorted(prefix, suffixes[1..], lo, hi);
      var rest := ScanFrom(prefix, suffixes[1..], lo, hi);
      ScanFromMembers(prefix, suffixes[1..], lo, hi);
      forall i | 0 <= i < |rest| ensures Less(prefix + suffixes[0], rest[i]) {
        assert rest[i] in rest;
        var s := rest[i][|prefix|..];
        assert rest[i] == prefix + s;
        LessConcat(prefix, suffixes[0], s);
      }
    }
  }

  /** The scan lists, in byte order and without repetition, the indexed keys that the query selects. */
  lemma {:induction false} ScanExact(index: Index, keys: set<Bytes>, q: Query)
    requires Indexes(index, keys) && q.Accepted?
    ensures Sorted(Scan(index, q))
    ensures forall key :: key in Scan(index, q) <==> key in keys && Selected(q, key)
  {
    assert ShardOk(index, q.prefix);
    ScanFromSorted(q.prefix, Suffixes(index, q.prefix), q.lo, q.hi);
    ScanFromMembers(q.prefix, Suffixes(index, q.prefix), q.lo, q.hi);
    forall key ensures key in Scan(index, q) <==> key in keys && Selected(q, key) {
      SplitJoins(key);
      assert Holds(index, key) <==> key in keys;
      if key in Scan(index, q) {
        assert key == q.prefix + key[|q.prefix|..];
        assert Prefix(key) == q.prefix;
      }
    }
  }
}

/** The store itself: the key index, the version lists and the revision log, updated in place. */
module Stores {
  import opened Common
  import opened OffsetSequence
  import opened Mvcc
  import opened StoreModel
  import opened ItemHistory
  import opened ByteOrder
  import opened Prefixes
  import opened KeyIndex
  import opened Snapshots
  import opened BlockDeques

  /** `RangePanics`: an assertion of the lookups or of the ordered map stops the request. */
  datatype RangeResult =
    | Listed(kvs: seq<KeyValue>, latestRev: int, count: int)
    | FutureRevision
    | Compacted
    | BadRange
    | RangePanics

  datatype WatchResult = Watching(past: seq<Event>) | CannotWatch(compactRevision: int) | WatchPanics

  /** How many values one block of the log holds. */
  const BLOCK_SIZE: nat := 1048576

  const USIZE_MAX: nat := 0xffff_ffff_ffff_ffff

  /** The keys that are live at `rev`, in the given order. */
  function LiveKeys(keys: seq<Bytes>, s: State, rev: int): seq<Bytes>
    requires rev > 0
  {
    if keys == [] then []
    else
      LiveKeys(DropLast(keys), s, rev)
      + (if Has(ItemOf(s, Last(keys)), s.log, rev) then [Last(keys)] else [])
  }

  lemma {:induction false} LiveKeysStep(keys: seq<Bytes>, i: nat, s: State, rev: int)
    requires i < |keys| && rev > 0
    ensures LiveKeys(keys[..i + 1], s, rev) ==
            LiveKeys(keys[..i], s, rev) + (if Has(ItemOf(s, keys[i]), s.log, rev) then [keys[i]] else [])
  {
    assert DropLast(keys[..i + 1]) == keys[..i] && Last(keys[..i + 1]) == keys[i];
  }

  function KeyValueAt(s: State, key: Bytes, rev: int): KeyValue
    requires rev > 0
  {
    match Find(ItemOf(s, key), s.log, rev)
    case Some(v) => AsKeyValue(v, key)
    case None => AsKeyValue(NO_VALUE, key)
  }

  function Listing(keys: seq<Bytes>, s: State, rev: int): seq<KeyValue>
    requires rev > 0
  {
    seq(|keys|, i requires 0 <= i < |keys| => KeyValueAt(s, keys[i], rev))
  }

  /** `BTreeMap::range` demands that the lower bound is not above the upper one. */
  predicate BoundsOrdered(q: Query) {
    q.Accepted? && !q.hi.Unbounded? ==> AtMost(q.lo, q.hi.key)
  }

  /** Revisions are indices into the log plus one. */
  predicate Positive(item: TreeItem) {
    forall r | r in item.revisions :: r >= 1
  }

  /** The concatenated histories of the given keys. */
  function Histories(keys: seq<Bytes>, s: State, startRev: int, wantPrev: bool): seq<Event> {
    if keys == [] then []
    else Histories(DropLast(keys), s, startRev, wantPrev)
         + ScanItem(ItemOf(s, Last(keys)), s.log, Last(keys), startRev, wantPrev)
  }

  /** A scan of a known prefix whose bounds are the wrong way round stops the request. */
  predicate ScanPanics(index: Index, q: Query) {
    q.Accepted? && q.prefix in index && !BoundsOrdered(q)
  }

  /** The end is a plain one in the shard of the start, and lies before it. */
  predicate Backwards(start: Bytes, end: Bytes) {
    end != [] && end != [0] && Prefix(end) == Prefix(start) && Less(end, start)
  }

  lemma {:induction false} NotBelow(a: Bytes, b: Bytes)
    ensures AtMost(a, b) <==> !Less(b, a)
  {
    LessTotal(a, b);
    LessIrreflexive(a);
    if Less(a, b) && Less(b, a) { LessTransitive(a, b, a); }
  }

  lemma {:induction false} LongerIsNotBelow(a: Bytes)
    ensures !Less(a + [0], a)
  {
    assert a + [] == a;
    LessConcat(a, [0], []);
  }

  /** When the bounds of a scan are the wrong way round, seen in start and end alone. */
  lemma {:induction false} ScanPanicsIff(index: Index, start: Bytes, end: Bytes)
    requires PrefixAndRange(start, end).Accepted?
    ensures ScanPanics(index, PrefixAndRange(start, end)) <==> Prefix(start) in index && Backwards(start, end)
  {
    if Prefix(end) == Prefix(start) && end != [] && end != [0] {
      SamePrefixOrder(start, end);
      NotBelow(start, end);
      SameShardBound(start, end);
      LongerIsNotBelow(Suffix(start));
      NotBelow(Suffix(start), Suffix(end));
    }
  }

  lemma {:induction false} SameShardBound(start: Bytes, end: Bytes)
    requires Prefix(end) == Prefix(start) && end != [] && end != [0]
    ensures var q := PrefixAndRange(start, end);
            && q.Accepted? && q.prefix == Prefix(start) && q.lo == Suffix(start)
            && q.hi == (if Suffix(end) == Suffix(start) + [0] then Unbounded else Excluded(Suffix(end)))
  {
    ZeroForm(Suffix(end), Suffix(start));
  }

  class Store {
    var tree: map<Bytes, TreeItem>
    var index: Index
    const log: BlockDeque<Value>

    ghost function View(): State
      reads this, log
    {
      State(tree, log.Model())
    }

    ghost predicate Valid()
      reads this, log, log.Repr
    {
      && Indexes(index, tree.Keys)
      && log.Valid() && this !in log.Repr
      && forall key | key in tree :: Positive(tree[key])
    }

    constructor ()
      ensures Valid() && View() == EMPTY && fresh(log.Repr) && log.size == 1048576
    {
      tree, index := map[], map[];
      log := new BlockDeque(BLOCK_SIZE);
    }

    /** An unknown key gets an empty item, in the tree and in the index of its prefix. */
    method GetOrCreate(key: Bytes) returns (item: TreeItem)
      requires Valid()
      modifies this
      ensures Valid() && item == ItemOf(old(View()), key) && tree == old(tree)[key := item]
    {
      if key !in tree {
        AddIndexes(index, tree.Keys, key);
        index := Add(index, key);
        tree := tree[key := NEW_ITEM];
        assert tree.Keys == old(tree.Keys) + {key};
      }
      item := tree[key];
    }

    /** Allocates a revision and publishes a write: the item and the log slot show the value. */
    method Publish(key: Bytes, item: TreeItem, value: Option<Bytes>, trim: bool) returns (newRev: int)
      requires Valid() && key in tree && tree[key] == item
      modifies this`tree, log.Repr
      ensures Valid() && newRev == old(log.Model()).End() + 1
      ensures fresh(log.Repr - old(log.Repr))
      ensures var item' := Updated(item, old(log.Model()).start, newRev, value, trim);
              && tree == old(tree)[key := item']
              && log.Model() == old(log.Model()).Push(PLACEHOLDER).Set(newRev - 1, item'.latest)
    {
      var earliest := log.EarliestRevision();
      var revisions := if trim then Trim(item.revisions, earliest) else item.revisions;
      var slot := log.Push(PLACEHOLDER);
      newRev := slot + 1;
      var newValue: Value;
      if item.latest.data.Some? {
        newValue := Value(item.latest.createRevision, newRev, item.latest.version + 1, value);
      } else {
        newValue := Value(newRev, newRev, 1, value);
      }
      var ok := log.Set(slot, newValue);
      tree := tree[key := TreeItem(revisions + [newRev], newValue)];
      assert tree.Keys == old(tree).Keys;
    }

    /** The comparisons of `set`, in the order of the source. */
    method Check(item: TreeItem, value: Option<Bytes>, required: Option<Required>) returns (ok: bool)
      ensures ok <==> Allowed(item.latest, value, required)
    {
      if item.latest.data.Some? {
        var cmp := CompareMode(required);
        if (RequiredRevision(required) >= 0 && !Compare(cmp, item.latest.modRevision, RequiredRevision(required)))
          || (RequiredVersion(required) >= 0 && !Compare(cmp, item.latest.version, RequiredVersion(required))) {
          return false;
        }
      } else {
        if RequiredRevision(required) > 0 || RequiredVersion(required) > 0 {
          return false;
        }
        if value.None? {
          return false;
        }
      }
      return true;
    }

    method Set(key: Bytes, value: Option<Bytes>, required: Option<Required>) returns (r: SetResult)
      requires Valid()
      modifies this, log.Repr
      ensures Valid()
      ensures fresh(log.Repr - old(log.Repr))
      ensures View() == ApplySet(old(View()), key, value, required, true).0
      ensures r == ApplySet(old(View()), key, value, required, true).1
    {
      var latestRev := log.LatestRevision();
      var item := GetOrCreate(key);
      var allowed := Check(item, value, required);
      if !allowed {
        return Refused(latestRev, if item.latest.data.Some? then Some(item.latest) else None);
      }
      var newRev := Publish(key, item, value, true);
      assert tree == old(tree)[key := tree[key]];
      r := Written(newRev);
    }

    /** The write of the log replay: no conditions, no watchers, no trimming. */
    method SetForReplay(key: Bytes, value: Option<Bytes>)
      requires Valid()
      modifies this, log.Repr
      ensures Valid()
      ensures fresh(log.Repr - old(log.Repr))
      ensures View() == ApplyReplay(old(View()), key, value)
    {
      if key in tree {
        var item := tree[key];
        if item.latest.data.None? && value.None? {
          return;
        }
        var newRev := Publish(key, item, value, false);
      } else {
        if value.None? {
          return;
        }
        var item := GetOrCreate(key);
        var newRev := Publish(key, item, value, false);
        assert tree == old(tree)[key := tree[key]];
      }
    }

    method Compact(rev: int) returns (ok: bool)
      requires Valid()
      modifies log.Repr
      ensures Valid() && (View(), ok) == ApplyCompact(old(View()), rev)
      ensures fresh(log.Repr - old(log.Repr))
    {
      var current := log.LatestRevision();
      if rev < 1 || rev > current {
        return false;
      }
      ok := log.RemoveBefore(rev - 1);
    }

    /** The live keys, in the order in which the concurrent map happens to yield them. */
    method ExportSnapshot() returns (entries: seq<SnapshotEntry>)
      ensures Exports(entries, View())
      ensures forall i | 0 <= i < |entries| ::
                var e, v := entries[i], ItemOf(View(), entries[i].key).latest;
                && v.data == Some(e.value) && e.createRevision == v.createRevision
                && e.modRevision == v.modRevision && e.version == v.version
    {
      entries := [];
      var rest := tree.Keys;
      while rest != {}
        invariant rest <= tree.Keys
        invariant forall i | 0 <= i < |entries| :: IsEntryOf(entries[i], View()) && entries[i].key in tree.Keys - rest
        invariant forall i, j | 0 <= i < j < |entries| :: entries[i].key != entries[j].key
        invariant forall key | key in tree.Keys - rest && Live(View(), key) :: HasEntry(entries, key)
        decreases |rest|
      {
        var key :| key in rest;
        var v := tree[key].latest;
        rest := rest - {key};
        if v.data.Some? {
          ghost var before := entries;
          entries := entries + [SnapshotEntry(key, v.data.value, v.createRevision, v.modRevision, v.version)];
          forall k | HasEntry(before, k) || k == key ensures HasEntry(entries, k) {
            if k == key {
              assert entries[|before|].key == key;
            } else {
              var i :| 0 <= i < |before| && before[i].key == k;
              assert entries[i].key == k;
            }
          }
        }
      }
    }

    /** Blank revisions, as many as the newest entry needs. */
    method PushBlanks(n: nat)
      requires Valid() && log.Model() == OffsetSeq(0, [])
      modifies log.Repr
      ensures log.Valid() && log.Model() == BlankLog(n)
      ensures fresh(log.Repr - old(log.Repr))
    {
      for i := 0 to n
        invariant log.Valid() && log.Model() == BlankLog(i)
        invariant fresh(log.Repr - old(log.Repr))
      {
        var at := log.Push(NO_VALUE);
        assert log.Model().items == BlankLog(i + 1).items;
      }
    }

    /** One entry, in log, index and tree. */
    method ImportEntry(e: SnapshotEntry)
      requires Valid() && e.modRevision >= 1
      modifies this, log.Repr
      ensures Valid() && View() == ImportOne(old(View()), e)
      ensures fresh(log.Repr - old(log.Repr))
    {
      var ok := log.Set(e.modRevision - 1, EntryValue(e));
      AddIndexes(index, tree.Keys, e.key);
      index := Add(index, e.key);
      ghost var keys := tree.Keys;
      tree := tree[e.key := TreeItem([e.modRevision], EntryValue(e))];
      assert tree.Keys == keys + {e.key};
    }

    /** Replaces everything by the entries, above as many blank revisions as the newest needs. */
    method ImportSnapshot(entries: seq<SnapshotEntry>)
      requires Valid() && forall i | 0 <= i < |entries| :: entries[i].modRevision >= 1
      modifies this, log.Repr
      ensures Valid() && View() == Import(entries)
      ensures forall i | 0 <= i < |entries| && LastOfKey(entries, i) :: ImportedAs(View(), entries[i])
      ensures fresh(log.Repr - old(log.Repr))
    {
      tree, index := map[], map[];
      log.Clear();
      var maxMod := 0;
      for i := 0 to |entries|
        invariant maxMod == MaxMod(entries[..i]) && maxMod >= 0
      {
        assert DropLast(entries[..i + 1]) == entries[..i] && Last(entries[..i + 1]) == entries[i];
        if entries[i].modRevision > maxMod {
          maxMod := entries[i].modRevision;
        }
      }
      assert entries[..|entries|] == entries;
      PushBlanks(maxMod);
      for i := 0 to |entries|
        invariant Valid()
        invariant fresh(log.Repr - old(log.Repr))
        invariant View() == ImportInto(State(map[], BlankLog(maxMod)), entries[..i])
      {
        assert DropLast(entries[..i + 1]) == entries[..i] && Last(entries[..i + 1]) == entries[i];
        ImportEntry(entries[i]);
      }
      forall i | 0 <= i < |entries| && LastOfKey(entries, i) ensures ImportedAs(View(), entries[i]) {
        EntriesAreImported(State(map[], BlankLog(maxMod)), entries, i);
      }
    }

    /** `find_value_for_revision`. */
    method FindValue(item: TreeItem, rev: int) returns (r: Option<Value>)
      requires log.Valid() && Positive(item) && rev > 0
      ensures r == Find(item, log.Model(), rev)
    {
      if rev >= item.latest.modRevision {
        return Some(item.latest);
      }
      match BinarySearch(item.revisions, rev)
      case Found(i) =>
        assert item.revisions[i] in item.revisions;
        r := log.Get(item.revisions[i] - 1);
      case Missing(i) =>
        if i == 0 {
          return None;
        }
        assert item.revisions[i - 1] in item.revisions;
        r := log.Get(item.revisions[i - 1] - 1);
    }

    /** `has_value_for_revision`, which looks at the slot in place. */
    method HasValue(item: TreeItem, rev: int) returns (r: bool)
      requires log.Valid() && Positive(item) && rev > 0
      ensures r <==> Find(item, log.Model(), rev).Some? && Find(item, log.Model(), rev).value.data.Some?
    {
      if rev >= item.latest.modRevision {
        return item.latest.data.Some?;
      }
      match BinarySearch(item.revisions, rev)
      case Found(i) =>
        assert item.revisions[i] in item.revisions;
        r := log.GetWith(item.revisions[i] - 1, (x: Option<Value>) => x.Some? && x.value.data.Some?);
      case Missing(i) =>
        if i == 0 {
          return false;
        }
        assert item.revisions[i - 1] in item.revisions;
        r := log.GetWith(item.revisions[i - 1] - 1, (x: Option<Value>) => x.Some? && x.value.data.Some?);
    }

    /** The loop of `range`: list the first `max` live keys, and go on counting. */
    method ListLive(keys: seq<Bytes>, at: int, max: nat) returns (kvs: seq<KeyValue>, count: nat)
      requires Valid() && at > 0 && forall k | k in keys :: k in tree
      ensures var live := LiveKeys(keys, View(), at);
              count == |live| && kvs == Listing(live[..Min(max, |live|)], View(), at)
    {
      count, kvs := 0, [];
      ghost var live := [];
      for i := 0 to |keys|
        invariant live == LiveKeys(keys[..i], View(), at)
        invariant count == |live| && kvs == Listing(live[..Min(max, |live|)], View(), at)
      {
        assert keys[i] in keys;
        var item := tree[keys[i]];
        HasAgreesWithFind(item, log.Model(), at);
        LiveKeysStep(keys, i, View(), at);
        ghost var more := LiveKeys(keys[..i + 1], View(), at);
        if count >= max {
          assert more[..max] == live[..max];
          var has := HasValue(item, at);
          if has {
            count := count + 1;
          }
        } else {
          assert live[..|live|] == live;
          var found := FindValue(item, at);
          if found.Some? && found.value.data.Some? {
            kvs := kvs + [AsKeyValue(found.value, keys[i])];
            count := count + 1;
            assert more[..|more|] == more;
            assert kvs == Listing(more, View(), at);
          }
        }
        live := more;
      }
      assert keys[..|keys|] == keys;
    }

    method Range(start: Bytes, end: Bytes, rev: int, limit: Option<nat>) returns (r: RangeResult)
      requires Valid()
      ensures r == FutureRevision <==> rev > log.Model().End()
      ensures r == Compacted <==> 0 < rev <= log.Model().start && rev <= log.Model().End()
      ensures r == BadRange ==> PrefixAndRange(start, end).Rejected?
      ensures var q, at := PrefixAndRange(start, end), if rev == 0 then log.Model().End() else rev;
              && (r == RangePanics ==>
                    && q.Accepted?
                    && ((Prefix(start) in index && Backwards(start, end)) || (at <= 0 && Scan(index, q) != [])))
              && (r.Listed? ==>
                    && q.Accepted? && r.latestRev == log.Model().End()
                    && !(Prefix(start) in index && Backwards(start, end))
                    && (at <= 0 ==> Scan(index, q) == [] && r.kvs == [] && r.count == 0)
                    && (at > 0 ==>
                          var live := LiveKeys(Scan(index, q), View(), at);
                          var shown := Min(if limit.Some? then limit.value else USIZE_MAX, |live|);
                          r.count == |live| && r.kvs == Listing(live[..shown], View(), at)))
    {
      var max := if limit.Some? then limit.value else USIZE_MAX;
      var latestRev := log.LatestRevision();
      var compacted := log.EarliestRevision();
      if rev > latestRev {
        return FutureRevision;
      }
      if rev > 0 && rev <= compacted {
        return Compacted;
      }
      var at := if rev == 0 then latestRev else rev;
      var q := PrefixAndRange(start, end);
      if q.Rejected? {
        return BadRange;
      }
      ScanPanicsIff(index, start, end);
      if ScanPanics(index, q) {
        return RangePanics;
      }
      var keys := Scan(index, q);
      ScanExact(index, tree.Keys, q);
      if at <= 0 {
        return if keys == [] then Listed([], latestRev, 0) else RangePanics;
      }
      var kvs, count := ListLive(keys, at, max);
      return Listed(kvs, latestRev, count);
    }

    /** The loop of `watch` over the items of the range. */
    method PastChanges(keys: seq<Bytes>, rev: int, wantPrev: bool) returns (past: seq<Event>)
      requires Valid() && forall k | k in keys :: k in tree
      ensures past == Histories(keys, View(), rev, wantPrev)
    {
      past := [];
      for i := 0 to |keys|
        invariant past == Histories(keys[..i], View(), rev, wantPrev)
      {
        assert DropLast(keys[..i + 1]) == keys[..i] && Last(keys[..i + 1]) == keys[i];
        assert keys[i] in keys;
        var events := ScanItemLoop(tree[keys[i]], log, keys[i], rev, wantPrev);
        past := past + events;
      }
      assert keys[..|keys|] == keys;
    }

    method Watch(start: Bytes, end: Bytes, rev: int, wantPrev: bool) returns (r: WatchResult)
      requires Valid()
      ensures var q := PrefixAndRange(start, end);
              && (r.CannotWatch? <==> 0 < rev && (rev <= log.Model().start || q.Rejected?))
              && (r.CannotWatch? ==> r.compactRevision == log.Model().start)
              && (r.WatchPanics? <==> log.Model().start < rev && Prefix(start) in index && Backwards(start, end))
              && (r.Watching? <==>
                    || rev <= 0
                    || (log.Model().start < rev && q.Accepted? && !(Prefix(start) in index && Backwards(start, end))))
              && (r.Watching? ==> r.past == if rev <= 0 then [] else Histories(Scan(index, q), View(), rev, wantPrev))
    {
      var compacted := log.EarliestRevision();
      if rev > 0 && rev <= compacted {
        return CannotWatch(compacted);
      }
      if rev <= 0 {
        return Watching([]);
      }
      var q := PrefixAndRange(start, end);
      if q.Rejected? {
        return CannotWatch(compacted);
      }
      ScanPanicsIff(index, start, end);
      if ScanPanics(index, q) {
        return WatchPanics;
      }
      var keys := Scan(index, q);
      ScanExact(index, tree.Keys, q);
      var past := PastChanges(keys, rev, wantPrev);
      return Watching(past);
    }
  }
}
