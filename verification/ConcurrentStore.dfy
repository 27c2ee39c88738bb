/** Concurrent writers and readers. There is no global lock: a writer holds only its key's lock
    while it allocates a revision from the shared log, and a reader fixes a revision first and
    then locks keys one at a time. Every interleaving of these steps is a run of this machine. */
module ConcurrentStore {
  import opened Common
  import opened OffsetSequence
  import opened Mvcc
  import StoreModel

  /** What the holder of a key's write lock has done so far. */
  datatype Phase =
    | Held(data: Option<Bytes>, required: Option<Required>)
    | Pushed(rev: int, value: Value)

  /** `keys` is what the scan of the prefix index found. `unindexed` records the keys whose creator
      stood between its two inserts at that moment. */
  datatype Reader = Reader(
    rev: int,
    keys: Option<set<Bytes>>,
    unindexed: set<Bytes>,
    results: map<Bytes, Option<Value>>)

  /** A conditional write that succeeded: `expected` was compared for equality. */
  datatype Win = Win(key: Bytes, expected: int, rev: int)

  /** `tree` finds items by key, `index` is the set of keys that the prefix map lists. A writer that
      creates an item inserts it into the one and then into the other; in between the key is in
      `creating`. */
  datatype State = State(
    tree: map<Bytes, TreeItem>,
    index: set<Bytes>,
    creating: set<Bytes>,
    log: OffsetSeq<Value>,
    locks: map<Bytes, Phase>,
    readers: map<nat, Reader>,
    history: History,
    wins: seq<Win>)

  datatype Step =
    | Create(key: Bytes)
    | IndexKey(key: Bytes)
    | Lock(key: Bytes, data: Option<Bytes>, required: Option<Required>)
    | Refuse(key: Bytes)
    | Push(key: Bytes, seen: nat)
    | Publish(key: Bytes)
    | PickRev(reader: nat, rev: int)
    | Scan(reader: nat)
    | ReadItem(reader: nat, key: Bytes)
    | Compact(rev: int)

  const INIT := State(map[], {}, {}, OffsetSeq(0, []), map[], map[], [], [])

  predicate InFlight(s: State, key: Bytes) {
    key in s.locks && s.locks[key].Pushed?
  }

  predicate Enabled(s: State, step: Step) {
    match step
    case Create(key) => key !in s.tree
    case IndexKey(key) => key in s.creating
    case Lock(key, _, _) => key in s.tree && key !in s.locks
    case Refuse(key) =>
      && key in s.locks && s.locks[key].Held? && key in s.tree
      && !Allowed(s.tree[key].latest, s.locks[key].data, s.locks[key].required)
    // The start of the log was read a little earlier, to trim the item's list.
    case Push(key, seen) =>
      && seen <= s.log.start && key in s.locks && s.locks[key].Held? && key in s.tree
      && Allowed(s.tree[key].latest, s.locks[key].data, s.locks[key].required)
    case Publish(key) => InFlight(s, key) && key in s.tree
    case PickRev(_, rev) => s.log.start < rev <= s.log.End()
    case Scan(id) => id in s.readers && s.readers[id].keys.None?
    case ReadItem(id, key) =>
      && id in s.readers && s.readers[id].rev > 0 && key in s.tree && key !in s.locks
      && s.readers[id].keys.Some? && key in s.readers[id].keys.value
    case Compact(rev) => s.log.start < rev <= s.log.End()
  }

  /** An equality condition on a revision that a write can have. */
  predicate IsCas(req: Option<Required>) {
    RequiredRevision(req) >= 1 && CompareMode(req) !in {1, 2, 3}
  }

  function Next(s: State, step: Step): State
    requires Enabled(s, step)
  {
    match step
    case Create(key) => s.(tree := s.tree[key := NEW_ITEM], creating := s.creating + {key})
    case IndexKey(key) => s.(index := s.index + {key}, creating := s.creating - {key})
    case Lock(key, data, req) => s.(locks := s.locks[key := Held(data, req)])
    case Refuse(key) => s.(locks := s.locks - {key})
    case Push(key, seen) =>
      var item, held := s.tree[key], s.locks[key];
      var rev := s.log.End() + 1;
      var value := NextValue(item.latest, rev, held.data);
      s.(tree := s.tree[key := item.(revisions := Trim(item.revisions, seen))],
         log := s.log.Push(PLACEHOLDER),
         locks := s.locks[key := Pushed(rev, value)],
         history := s.history + [Write(key, value)],
         wins := if IsCas(held.required) then s.wins + [Win(key, RequiredRevision(held.required), rev)] else s.wins)
    case Publish(key) =>
      var rev, value := s.locks[key].rev, s.locks[key].value;
      s.(tree := s.tree[key := TreeItem(s.tree[key].revisions + [rev], value)],
         log := s.log.Set(rev - 1, value),
         locks := s.locks - {key})
    case PickRev(id, rev) => s.(readers := s.readers[id := Reader(rev, None, {}, map[])])
    case Scan(id) =>
      s.(readers := s.readers[id := s.readers[id].(keys := Some(s.index), unindexed := s.creating)])
    case ReadItem(id, key) =>
      var reader := s.readers[id];
      var found := Find(s.tree[key], s.log, reader.rev);
      s.(readers := s.readers[id := reader.(results := reader.results[key := found])])
    case Compact(rev) => s.(log := s.log.RemoveBefore(rev - 1).value)
  }

  predicate ValidRun(s: State, steps: seq<Step>)
    decreases |steps|
  {
    steps == [] || (Enabled(s, steps[0]) && ValidRun(Next(s, steps[0]), steps[1..]))
  }

  function Exec(s: State, steps: seq<Step>): State
    requires ValidRun(s, steps)
    decreases |steps|
  {
    if steps == [] then s else Exec(Next(s, steps[0]), steps[1..])
  }

  /** The revisions that the writers of a run get, in the order in which they get them. */
  function Allocated(s: State, steps: seq<Step>): seq<int>
    requires ValidRun(s, steps)
    decreases |steps|
  {
    if steps == [] then []
    else (if steps[0].Push? then [s.log.End() + 1] else []) + Allocated(Next(s, steps[0]), steps[1..])
  }

  lemma {:induction false} StepAllocates(s: State, step: Step)
    requires Enabled(s, step)
    ensures Next(s, step).log.End() == s.log.End() + if step.Push? then 1 else 0
  {
  }

  /** From any state, writers get the revisions that follow, each once and without a gap. */
  lemma {:induction false} AllocatedFollow(s: State, steps: seq<Step>)
    requires ValidRun(s, steps)
    ensures Exec(s, steps).log.End() == s.log.End() + |Allocated(s, steps)|
    ensures forall i | 0 <= i < |Allocated(s, steps)| :: Allocated(s, steps)[i] == s.log.End() + 1 + i
    decreases |steps|
  {
    if steps != [] {
      StepAllocates(s, steps[0]);
      AllocatedFollow(Next(s, steps[0]), steps[1..]);
    }
  }

  // ---------------------------------------------------------------- the invariant

  function ItemAt(s: State, key: Bytes): TreeItem {
    if key in s.tree then s.tree[key] else NEW_ITEM
  }

  /** The item of `key` shows all of the key's writes, except the one still in flight. */
  ghost function ShownUpTo(s: State, key: Bytes): int {
    if InFlight(s, key) then s.locks[key].rev - 1 else |s.history|
  }

  ghost predicate ItemOk(s: State, key: Bytes) {
    ItemMatches(ItemAt(s, key), s.history, key, ShownUpTo(s, key), s.log.start)
  }

  /** An allocated but unpublished revision is the newest one of a key whose lock is held. */
  ghost predicate LockOk(s: State, key: Bytes) {
    && (key in s.locks ==> key in s.tree)
    && (InFlight(s, key) ==>
          var phase := s.locks[key];
          && IsRev(s.history, key, phase.rev)
          && s.history[phase.rev - 1].value == phase.value
          && LastRev(s.history, key, |s.history|) == phase.rev)
  }

  ghost predicate SlotOk(s: State, i: int) {
    s.log.start <= i < |s.history| ==>
      var w := s.history[i];
      s.log.Get(i) == Some(w.value) || (InFlight(s, w.key) && s.locks[w.key].rev == i + 1)
  }

  /** A read of `key` at `rev` returned its last write at or before `rev`, or missed it
      because that write is both compacted and superseded. */
  ghost predicate ResultOk(h: History, start: int, key: Bytes, rev: int, result: Option<Value>) {
    && rev <= |h|
    && (|| result == Some(ValueOf(h, key, rev))
        || (result == None && LastRev(h, key, rev) <= start && rev < LastRev(h, key, |h|)))
  }

  /** A scan found every key that was written by then, except those caught half created. */
  ghost predicate ScanOk(h: History, reader: Reader, key: Bytes) {
    reader.keys.Some? ==>
      && !(key in reader.keys.value && key in reader.unindexed)
      && (forall r | IsRev(h, key, r) && r <= reader.rev :: key in reader.keys.value || key in reader.unindexed)
  }

  /** A key in the tree is in the prefix index too, unless its creator is between the inserts. */
  ghost predicate IndexOk(s: State, key: Bytes) {
    && (key in s.tree <==> key in s.index || key in s.creating)
    && !(key in s.index && key in s.creating)
  }

  ghost predicate ReaderOk(s: State, id: nat) {
    id in s.readers ==>
      && 0 < s.readers[id].rev <= |s.history|
      && (forall key :: ScanOk(s.history, s.readers[id], key))
      && (forall key | key in s.readers[id].results ::
            ResultOk(s.history, s.log.start, key, s.readers[id].rev, s.readers[id].results[key]))
  }

  /** The write that won was the next write of its key after `expected`. */
  ghost predicate WinOk(h: History, w: Win) {
    && 1 <= w.expected
    && IsRev(h, w.key, w.rev)
    && LastRev(h, w.key, w.rev - 1) == w.expected
  }

  ghost predicate WinsOk(h: History, wins: seq<Win>) {
    && (forall i | 0 <= i < |wins| :: WinOk(h, wins[i]))
    && (forall i, j | 0 <= i < j < |wins| :: wins[i].rev < wins[j].rev)
  }

  ghost predicate Inv(s: State) {
    && s.log.End() == |s.history|
    && ModsMatch(s.history) && Derived(s.history)
    && (forall key :: IndexOk(s, key))
    && (forall key :: ItemOk(s, key))
    && (forall key :: LockOk(s, key))
    && (forall i :: SlotOk(s, i))
    && (forall id :: ReaderOk(s, id))
    && WinsOk(s.history, s.wins)
  }

  // ---------------------------------------------------------------- growth

  lemma {:induction false} ResultStaysOk(h: History, more: History, start: int, later: int, key: Bytes,
                                         rev: int, result: Option<Value>)
    requires ResultOk(h, start, key, rev, result) && 0 < rev
    requires h <= more && start <= later
    ensures ResultOk(more, later, key, rev, result)
  {
    LastRevFrozen(h, more, key, rev);
    LastRevFrozen(h, more, key, |h|);
    LastRevMonotone(more, key, |h|, |more|);
  }

  lemma {:induction false} ReaderStaysOk(s: State, s': State, id: nat)
    requires ReaderOk(s, id) && s'.readers == s.readers
    requires s.history <= s'.history && s.log.start <= s'.log.start
    ensures ReaderOk(s', id)
  {
    if id in s.readers {
      var reader := s.readers[id];
      forall key | key in reader.results
        ensures ResultOk(s'.history, s'.log.start, key, reader.rev, reader.results[key])
      {
        ResultStaysOk(s.history, s'.history, s.log.start, s'.log.start, key, reader.rev, reader.results[key]);
      }
      forall key ensures ScanOk(s'.history, reader, key) {
        assert ScanOk(s.history, reader, key);
        assert forall r | IsRev(s'.history, key, r) && r <= reader.rev :: IsRev(s.history, key, r);
      }
    }
  }

  lemma {:induction false} WinStaysOk(h: History, w: Write, win: Win)
    requires WinOk(h, win)
    ensures WinOk(h + [w], win)
  {
    LastRevFrozen(h, h + [w], win.key, win.rev - 1);
  }

  lemma {:induction false} WinsStayOk(h: History, w: Write, wins: seq<Win>)
    requires WinsOk(h, wins)
    ensures WinsOk(h + [w], wins)
  {
    forall i | 0 <= i < |wins| ensures WinOk(h + [w], wins[i]) {
      WinStaysOk(h, w, wins[i]);
    }
  }

  /** A win is recorded together with the write that won. */
  lemma {:induction false} WinsGrow(h: History, w: Write, wins: seq<Win>, expected: int)
    requires WinsOk(h, wins) && expected >= 1 && LastRev(h, w.key, |h|) == expected
    ensures WinsOk(h + [w], wins + [Win(w.key, expected, |h| + 1)])
  {
    var win := Win(w.key, expected, |h| + 1);
    WinsStayOk(h, w, wins);
    LastRevFrozen(h, h + [w], w.key, |h|);
    assert WinOk(h + [w], win);
    forall i | 0 <= i < |wins| ensures wins[i].rev < win.rev {
      assert WinOk(h, wins[i]);
    }
  }

  // ---------------------------------------------------------------- the steps keep the invariant

  /** Steps that leave the history, the log and the writes in flight alone. */
  lemma {:induction false} QuietStep(s: State, s': State)
    requires Inv(s)
    requires s'.history == s.history && s'.log == s.log && s'.wins == s.wins
    requires forall key :: ItemAt(s', key) == ItemAt(s, key)
    requires s'.locks.Keys <= s'.tree.Keys
    requires forall key :: InFlight(s', key) <==> InFlight(s, key)
    requires forall key | InFlight(s', key) && InFlight(s, key) :: s'.locks[key] == s.locks[key]
    requires forall id :: ReaderOk(s', id)
    requires forall key :: IndexOk(s', key)
    ensures Inv(s')
  {
    forall key ensures ItemOk(s', key) && LockOk(s', key) {
      assert ItemOk(s, key) && LockOk(s, key);
    }
    forall i ensures SlotOk(s', i) {
      assert SlotOk(s, i);
    }
  }

  lemma {:induction false} LockedAreIndexed(s: State)
    requires Inv(s)
    ensures s.locks.Keys <= s.tree.Keys
  {
    forall key | key in s.locks ensures key in s.tree {
      assert LockOk(s, key);
    }
  }

  /** Creating and indexing a key, taking its lock, and giving it up after a failed comparison. */
  lemma {:induction false} LockingStep(s: State, step: Step)
    requires Inv(s) && Enabled(s, step) && (step.Create? || step.IndexKey? || step.Lock? || step.Refuse?)
    ensures Inv(Next(s, step))
  {
    var s' := Next(s, step);
    LockedAreIndexed(s);
    forall id ensures ReaderOk(s', id) {
      assert ReaderOk(s, id);
    }
    forall key ensures IndexOk(s', key) {
      assert IndexOk(s, key);
    }
    if step.IndexKey? { assert IndexOk(s, step.key); }
    QuietStep(s, s');
  }

  lemma {:induction false} WrittenIsCreated(s: State, key: Bytes, r: int)
    requires Inv(s) && IsRev(s.history, key, r)
    ensures key in s.tree
  {
    assert ItemOk(s, key) && LockOk(s, key);
    LastRevIsLast(s.history, key, |s.history|, r);
    LastRevProps(s.history, key, |s.history|);
  }

  lemma {:induction false} ScanStep(s: State, id: nat)
    requires Inv(s) && Enabled(s, Scan(id))
    ensures Inv(Next(s, Scan(id)))
  {
    var s' := Next(s, Scan(id));
    LockedAreIndexed(s);
    assert ReaderOk(s, id);
    forall key ensures ScanOk(s.history, s'.readers[id], key) {
      assert IndexOk(s, key);
      forall r | IsRev(s.history, key, r) ensures key in s.tree { WrittenIsCreated(s, key, r); }
    }
    forall i ensures ReaderOk(s', i) {
      assert ReaderOk(s, i);
    }
    forall key ensures IndexOk(s', key) {
      assert IndexOk(s, key);
    }
    QuietStep(s, s');
  }

  /** An unlocked item can be read against the whole history. */
  lemma {:induction false} UnlockedReadable(s: State, key: Bytes)
    requires Inv(s) && key !in s.locks
    ensures Readable(ItemAt(s, key), s.log, s.history, key)
  {
    assert ItemOk(s, key);
    forall r | IsRev(s.history, key, r) && s.log.start < r ensures s.log.Get(r - 1) == Some(s.history[r - 1].value) {
      assert SlotOk(s, r - 1);
    }
  }

  lemma {:induction false} ReaderStep(s: State, step: Step)
    requires Inv(s) && Enabled(s, step) && (step.PickRev? || step.ReadItem?)
    ensures Inv(Next(s, step))
  {
    var s' := Next(s, step);
    LockedAreIndexed(s);
    if step.ReadItem? {
      var key, rev := step.key, s.readers[step.reader].rev;
      assert ReaderOk(s, step.reader);
      UnlockedReadable(s, key);
      FindIsVisible(s.tree[key], s.log, s.history, key, rev);
      LastRevProps(s.history, key, |s.history|);
      LastRevMonotone(s.history, key, rev, |s.history|);
      assert ResultOk(s.history, s.log.start, key, rev, Find(s.tree[key], s.log, rev));
      forall k ensures ScanOk(s.history, s'.readers[step.reader], k) {
        assert ScanOk(s.history, s.readers[step.reader], k);
      }
    }
    forall id ensures ReaderOk(s', id) {
      assert ReaderOk(s, id);
    }
    forall key ensures IndexOk(s', key) {
      assert IndexOk(s, key);
    }
    QuietStep(s, s');
  }

  /** The comparison and the allocation happen under the same lock, so the item still shows
      the key's last write. */
  lemma {:induction false} PushItems(s: State, key: Bytes, seen: nat, k: Bytes)
    requires Inv(s) && Enabled(s, Push(key, seen))
    ensures ItemOk(Next(s, Push(key, seen)), k)
  {
    var s' := Next(s, Push(key, seen));
    var w := Last(s'.history);
    assert s'.history == s.history + [w];
    assert ItemOk(s, k) && LockOk(s, k);
    ItemUnaffected(ItemAt(s, k), s.history, w, k, ShownUpTo(s, k), s.log.start);
    if k == key {
      TrimKeepsMatch(ItemAt(s, k), s'.history, k, |s.history|, s.log.start, seen);
    }
  }

  lemma {:induction false} PushLocks(s: State, key: Bytes, seen: nat, k: Bytes)
    requires Inv(s) && Enabled(s, Push(key, seen))
    ensures LockOk(Next(s, Push(key, seen)), k)
  {
    var s' := Next(s, Push(key, seen));
    assert s'.history == s.history + [Last(s'.history)];
    assert LockOk(s, k);
    if k != key {
      LastRevFrozen(s.history, s'.history, k, |s.history|);
      if InFlight(s, k) { assert IsRev(s'.history, k, s.locks[k].rev); }
    }
  }

  lemma {:induction false} PushWins(s: State, key: Bytes, seen: nat)
    requires Inv(s) && Enabled(s, Push(key, seen))
    ensures WinsOk(Next(s, Push(key, seen)).history, Next(s, Push(key, seen)).wins)
  {
    var w := Last(Next(s, Push(key, seen)).history);
    var req := s.locks[key].required;
    assert ItemOk(s, key);
    LastRevProps(s.history, key, |s.history|);
    if IsCas(req) {
      WinsGrow(s.history, w, s.wins, RequiredRevision(req));
    } else {
      WinsStayOk(s.history, w, s.wins);
    }
  }

  lemma {:induction false} PushDerived(s: State, key: Bytes, seen: nat)
    requires Inv(s) && Enabled(s, Push(key, seen))
    ensures ModsMatch(Next(s, Push(key, seen)).history) && Derived(Next(s, Push(key, seen)).history)
  {
    assert ItemOk(s, key);
    StoreModel.HistoryStep(s.history, Last(Next(s, Push(key, seen)).history));
  }

  lemma {:induction false} PushStep(s: State, key: Bytes, seen: nat)
    requires Inv(s) && Enabled(s, Push(key, seen))
    ensures Inv(Next(s, Push(key, seen)))
  {
    var s' := Next(s, Push(key, seen));
    PushWins(s, key, seen);
    PushDerived(s, key, seen);
    forall k ensures ItemOk(s', k) && LockOk(s', k) && IndexOk(s', k) {
      assert IndexOk(s, k);
      PushItems(s, key, seen, k);
      PushLocks(s, key, seen, k);
    }
    forall i ensures SlotOk(s', i) {
      assert SlotOk(s, i);
    }
    forall id ensures ReaderOk(s', id) {
      ReaderStaysOk(s, s', id);
    }
  }

  lemma {:induction false} PublishItems(s: State, key: Bytes, k: Bytes)
    requires Inv(s) && Enabled(s, Publish(key))
    ensures ItemOk(Next(s, Publish(key)), k) && LockOk(Next(s, Publish(key)), k)
  {
    var s' := Next(s, Publish(key));
    assert ItemOk(s, k) && LockOk(s, k);
    if k == key {
      var rev := s.locks[key].rev;
      PublishKeepsMatch(ItemAt(s, key), s.history, key, rev, s.log.start);
      PublishedIsNewest(ItemAt(s', key), s.history, key, rev, s.log.start);
    }
  }

  lemma {:induction false} PublishStep(s: State, key: Bytes)
    requires Inv(s) && Enabled(s, Publish(key))
    ensures Inv(Next(s, Publish(key)))
  {
    var s' := Next(s, Publish(key));
    forall k ensures ItemOk(s', k) && LockOk(s', k) && IndexOk(s', k) {
      PublishItems(s, key, k);
      assert IndexOk(s, k);
    }
    forall i ensures SlotOk(s', i) {
      assert SlotOk(s, i) && LockOk(s, key);
    }
    forall id ensures ReaderOk(s', id) {
      ReaderStaysOk(s, s', id);
    }
  }

  /** Once the newest revision is published, the item shows the whole history. */
  lemma {:induction false} PublishedIsNewest(item: TreeItem, h: History, key: Bytes, rev: int, start: int)
    requires ItemMatches(item, h, key, rev, start) && 0 <= rev && LastRev(h, key, |h|) == rev
    ensures ItemMatches(item, h, key, |h|, start)
  {
    LastRevMonotone(h, key, rev, |h|);
    forall r | IsRev(h, key, r) ensures r <= rev {
      LastRevIsLast(h, key, |h|, r);
    }
  }

  lemma {:induction false} CompactStep(s: State, rev: int)
    requires Inv(s) && Enabled(s, Compact(rev))
    ensures Inv(Next(s, Compact(rev)))
  {
    var s' := Next(s, Compact(rev));
    forall k ensures ItemOk(s', k) && LockOk(s', k) && IndexOk(s', k) {
      assert ItemOk(s, k) && LockOk(s, k) && IndexOk(s, k);
    }
    forall i ensures SlotOk(s', i) {
      assert SlotOk(s, i);
    }
    forall id ensures ReaderOk(s', id) {
      ReaderStaysOk(s, s', id);
    }
  }

  lemma {:induction false} StepKeepsInv(s: State, step: Step)
    requires Inv(s) && Enabled(s, step)
    ensures Inv(Next(s, step)) && s.history <= Next(s, step).history
  {
    match step {
      case Create(_) => LockingStep(s, step);
      case IndexKey(_) => LockingStep(s, step);
      case Lock(_, _, _) => LockingStep(s, step);
      case Refuse(_) => LockingStep(s, step);
      case Push(key, seen) => PushStep(s, key, seen);
      case Publish(key) => PublishStep(s, key);
      case PickRev(_, _) => ReaderStep(s, step);
      case Scan(id) => ScanStep(s, id);
      case ReadItem(_, _) => ReaderStep(s, step);
      case Compact(rev) => CompactStep(s, rev);
    }
  }

  lemma {:induction false} RunKeepsInv(s: State, steps: seq<Step>)
    requires Inv(s) && ValidRun(s, steps)
    ensures Inv(Exec(s, steps))
    ensures s.history <= Exec(s, steps).history
    decreases |steps|
  {
    if steps != [] {
      StepKeepsInv(s, steps[0]);
      RunKeepsInv(Next(s, steps[0]), steps[1..]);
    }
  }

  lemma {:induction false} InitInv()
    ensures Inv(INIT)
  {
    assert forall key :: ItemOk(INIT, key) && LockOk(INIT, key) && IndexOk(INIT, key);
    assert forall i :: SlotOk(INIT, i);
    assert forall id :: ReaderOk(INIT, id);
  }

  // ---------------------------------------------------------------- main results

  lemma {:induction false} ReachableInv(steps: seq<Step>)
    requires ValidRun(INIT, steps)
    ensures Inv(Exec(INIT, steps))
  {
    InitInv();
    RunKeepsInv(INIT, steps);
  }

  /** What a range reports for a key: deleted and absent keys are left out. */
  function Shown(result: Option<Value>): Option<Value> {
    if result.Some? && result.value.data.Some? then result else None
  }

  predicate KeepsReader(steps: seq<Step>, id: nat) {
    forall i | 0 <= i < |steps| :: !(steps[i].PickRev? && steps[i].reader == id)
  }

  lemma {:induction false} ReaderKeepsRev(s: State, steps: seq<Step>, id: nat)
    requires ValidRun(s, steps) && KeepsReader(steps, id) && id in s.readers
    ensures id in Exec(s, steps).readers && Exec(s, steps).readers[id].rev == s.readers[id].rev
    decreases |steps|
  {
    if steps != [] {
      assert !(steps[0].PickRev? && steps[0].reader == id);
      ReaderKeepsRev(Next(s, steps[0]), steps[1..], id);
    }
  }

  /** A range is a consistent cut. Take any run, let a reader pick a revision, and let anything
      happen afterwards, including further writes and compactions. Every key the reader then
      reads shows the write that was last at the picked revision when it was picked. The one
      exception is a write that has been compacted away and superseded by the time of the read. */
  lemma {:induction false} ConsistentCut(before: seq<Step>, id: nat, rev: int, after: seq<Step>, key: Bytes)
    requires ValidRun(INIT, before) && Enabled(Exec(INIT, before), PickRev(id, rev))
    requires ValidRun(Next(Exec(INIT, before), PickRev(id, rev)), after) && KeepsReader(after, id)
    ensures var past := Exec(INIT, before).history;
            var s := Exec(Next(Exec(INIT, before), PickRev(id, rev)), after);
            && id in s.readers && past <= s.history && rev <= |past|
            && (key in s.readers[id].results ==>
                  var result := s.readers[id].results[key];
                  && (s.log.start == 0 || LastRev(past, key, rev) > s.log.start ==>
                        Shown(result) == Shown(Some(ValueOf(past, key, rev))))
                  && (result != Some(ValueOf(past, key, rev)) ==>
                        result == None && LastRev(past, key, rev) <= s.log.start
                        && rev < LastRev(s.history, key, |s.history|)))
  {
    var picked := Next(Exec(INIT, before), PickRev(id, rev));
    ReachableInv(before);
    ReaderStep(Exec(INIT, before), PickRev(id, rev));
    RunKeepsInv(picked, after);
    ReaderKeepsRev(picked, after, id);
    var s := Exec(picked, after);
    assert ReaderOk(s, id);
    if key in s.readers[id].results {
      assert ResultOk(s.history, s.log.start, key, rev, s.readers[id].results[key]);
      LastRevFrozen(picked.history, s.history, key, rev);
      LastRevProps(picked.history, key, rev);
    }
  }

  /** A key that has been written is in the tree, and it is in the prefix index exactly when its
      creator is past the second of its two inserts. */
  lemma {:induction false} WrittenKeysAreIndexed(steps: seq<Step>, key: Bytes, r: int)
    requires ValidRun(INIT, steps) && IsRev(Exec(INIT, steps).history, key, r)
    ensures var s := Exec(INIT, steps); key in s.tree && (key in s.index <==> key !in s.creating)
  {
    var s := Exec(INIT, steps);
    ReachableInv(steps);
    WrittenIsCreated(s, key, r);
    assert IndexOk(s, key);
  }

  /** What a range can miss. A key that was written at or before the picked revision is among the
      keys that the scan finds exactly when its creator did not stand between its two inserts at
      the moment of the scan. */
  lemma {:induction false} ScanMissesIff(steps: seq<Step>, id: nat, key: Bytes, r: int)
    requires ValidRun(INIT, steps)
    requires var s := Exec(INIT, steps);
             && id in s.readers && s.readers[id].keys.Some?
             && IsRev(s.history, key, r) && r <= s.readers[id].rev
    ensures var reader := Exec(INIT, steps).readers[id];
            key in reader.keys.value <==> key !in reader.unindexed
  {
    var s := Exec(INIT, steps);
    ReachableInv(steps);
    assert ReaderOk(s, id);
    assert ScanOk(s.history, s.readers[id], key);
  }

  /** Without a write in flight, what concurrent writers leave behind is a store that stands for
      the history, as the sequential operations would have left it. */
  lemma {:induction false} QuietRepresents(steps: seq<Step>)
    requires ValidRun(INIT, steps) && Exec(INIT, steps).locks == map[]
    ensures var s := Exec(INIT, steps);
            StoreModel.Represents(StoreModel.State(s.tree, s.log), StoreModel.Ref(s.history, s.log.start))
  {
    var s := Exec(INIT, steps);
    ReachableInv(steps);
    var store := StoreModel.State(s.tree, s.log);
    forall key ensures ItemMatches(StoreModel.ItemOf(store, key), s.history, key, |s.history|, s.log.start) {
      assert ItemOk(s, key);
    }
    forall i | s.log.start <= i < |s.history| ensures StoreModel.SlotMatches(s.log, s.history, i) {
      assert SlotOk(s, i);
    }
  }

  /** A writer that holds the lock does what the sequential write with its data and conditions would do
      to the history: it is refused or appends the same write. */
  lemma {:induction false} WriteIsSequential(s: State, key: Bytes, data: Option<Bytes>, req: Option<Required>,
                                             seen: nat)
    requires Inv(s) && key in s.locks && s.locks[key] == Held(data, req) && seen <= s.log.start
    ensures var (more, answer) := StoreModel.RefSet(s.history, key, data, req);
            && (Enabled(s, Push(key, seen)) <==> answer.Written?)
            && (Enabled(s, Refuse(key)) <==> answer.Refused?)
            && (Enabled(s, Push(key, seen)) ==>
                  && Next(s, Push(key, seen)).history == more
                  && Next(s, Push(key, seen)).locks[key] == Pushed(answer.rev, Last(more).value))
            && (Enabled(s, Refuse(key)) ==> Next(s, Refuse(key)).history == s.history)
  {
    assert LockOk(s, key) && ItemOk(s, key);
  }

  /** With nothing in between, the two steps of a write leave tree and log as the sequential write does,
      down to the trimmed list of revisions. */
  lemma {:induction false} UndisturbedWriteIsSet(s: State, key: Bytes)
    requires Enabled(s, Push(key, s.log.start))
    ensures var held, t := s.locks[key], Next(s, Push(key, s.log.start));
            && Enabled(t, Publish(key))
            && var u := Next(t, Publish(key));
               && StoreModel.State(u.tree, u.log) ==
                  StoreModel.ApplySet(StoreModel.State(s.tree, s.log), key, held.data, held.required, true).0
               && u.locks == s.locks - {key}
  {
    var u := Next(Next(s, Push(key, s.log.start)), Publish(key));
    assert u.tree == s.tree[key := u.tree[key]];
  }

  /** A compaction in the middle of writes does to the log what the sequential one does. */
  lemma {:induction false} CompactIsSequential(s: State, rev: int)
    ensures Enabled(s, Compact(rev)) <==> StoreModel.ApplyCompact(StoreModel.State(s.tree, s.log), rev).1
    ensures Enabled(s, Compact(rev)) ==>
              var t := Next(s, Compact(rev));
              && StoreModel.State(t.tree, t.log) == StoreModel.ApplyCompact(StoreModel.State(s.tree, s.log), rev).0
              && t.history == s.history && t.locks == s.locks && t.readers == s.readers
  {
  }

  lemma {:induction false} LockHolds(s: State, key: Bytes, data: Option<Bytes>, req: Option<Required>)
    requires Enabled(s, Lock(key, data, req))
    ensures key in Next(s, Lock(key, data, req)).locks && Next(s, Lock(key, data, req)).locks[key] == Held(data, req)
  {
  }

  /** Every write that demanded equality with a revision r >= 1 is recorded when it succeeds. */
  lemma {:induction false} WinsAreRecorded(s: State, key: Bytes, seen: nat, r: int, version: Option<int>, mode: int)
    requires Enabled(s, Push(key, seen)) && s.locks[key].required == Some(Required(Some(r), version, mode))
    requires r >= 1 && (mode < 1 || mode > 3)
    ensures Next(s, Push(key, seen)).wins == s.wins + [Win(key, r, s.log.End() + 1)]
  {
  }

  /** Optimistic concurrency is exclusive: of all conditional writes that expect the same
      revision r >= 1 of the same key, at most one ever succeeds. */
  lemma {:induction false} CasIsExclusive(steps: seq<Step>, i: nat, j: nat)
    requires ValidRun(INIT, steps)
    requires i < |Exec(INIT, steps).wins| && j < |Exec(INIT, steps).wins|
    requires Exec(INIT, steps).wins[i].key == Exec(INIT, steps).wins[j].key
    requires Exec(INIT, steps).wins[i].expected == Exec(INIT, steps).wins[j].expected
    ensures i == j
  {
    var s := Exec(INIT, steps);
    ReachableInv(steps);
    if i != j {
      var a, b := if i < j then s.wins[i] else s.wins[j], if i < j then s.wins[j] else s.wins[i];
      assert WinOk(s.history, a) && WinOk(s.history, b);
      LastRevIsLast(s.history, a.key, b.rev - 1, a.rev);
      LastRevProps(s.history, a.key, a.rev - 1);
    }
  }

  // ---------------------------------------------------------------- when the cut is not consistent

  predicate NoCompaction(steps: seq<Step>) {
    forall i | 0 <= i < |steps| :: !steps[i].Compact?
  }

  lemma {:induction false} StartStays(s: State, steps: seq<Step>)
    requires ValidRun(s, steps) && NoCompaction(steps)
    ensures Exec(s, steps).log.start == s.log.start
    decreases |steps|
  {
    if steps != [] {
      assert !steps[0].Compact?;
      StartStays(Next(s, steps[0]), steps[1..]);
    }
  }

  /** Whatever happens next short of compaction, a read of `key` by this reader is right. */
  ghost predicate ReadsRight(s: State, id: nat, key: Bytes)
    requires id in s.readers && s.readers[id].rev <= |s.history|
  {
    forall steps | ValidRun(s, steps) && KeepsReader(steps, id) && NoCompaction(steps) ::
      var t := Exec(s, steps);
      id in t.readers && key in t.readers[id].results ==>
        Shown(t.readers[id].results[key]) == Shown(Some(ValueOf(s.history, key, s.readers[id].rev)))
  }

  predicate Scanned(reader: Reader, key: Bytes) {
    reader.keys.Some? && key in reader.keys.value
  }

  /** The run that loses a compacted value: overwrite the key between pick and read. */
  function Overwrite(id: nat, key: Bytes, seen: nat): seq<Step> {
    [Lock(key, Some([]), None), Push(key, seen), Publish(key), ReadItem(id, key)]
  }

  lemma {:induction false} RunCons(s: State, step: Step, rest: seq<Step>)
    requires Enabled(s, step) && ValidRun(Next(s, step), rest)
    ensures ValidRun(s, [step] + rest) && Exec(s, [step] + rest) == Exec(Next(s, step), rest)
  {
    assert ([step] + rest)[1..] == rest;
  }

  lemma {:induction false} RunConcat(s: State, a: seq<Step>, b: seq<Step>)
    requires ValidRun(s, a) && ValidRun(Exec(s, a), b)
    ensures ValidRun(s, a + b) && Exec(s, a + b) == Exec(Exec(s, a), b)
    decreases |a|
  {
    if a == [] {
      assert a + b == b;
    } else {
      assert (a + b)[0] == a[0] && (a + b)[1..] == a[1..] + b;
      RunConcat(Next(s, a[0]), a[1..], b);
    }
  }

  lemma {:induction false} Extend(s: State, steps: seq<Step>, step: Step)
    requires ValidRun(s, steps) && Enabled(Exec(s, steps), step)
    ensures ValidRun(s, steps + [step]) && Exec(s, steps + [step]) == Next(Exec(s, steps), step)
  {
    assert [step][1..] == [] && ValidRun(Exec(s, steps), [step]);
    RunConcat(s, steps, [step]);
  }

  /** The three steps of an unconditional write to an unlocked key. */
  lemma {:induction false} WriteOver(s: State, key: Bytes, bytes: Bytes) returns (s3: State)
    requires Inv(s) && key in s.tree && key !in s.locks
    ensures Enabled(s, Lock(key, Some(bytes), None))
    ensures var s1 := Next(s, Lock(key, Some(bytes), None));
            && Enabled(s1, Push(key, s.log.start)) && Enabled(Next(s1, Push(key, s.log.start)), Publish(key))
            && s3 == Next(Next(s1, Push(key, s.log.start)), Publish(key))
    ensures Inv(s3) && key in s3.tree && key !in s3.locks && s3.readers == s.readers && s3.log.start == s.log.start
    ensures s.history < s3.history && IsRev(s3.history, key, |s.history| + 1)
  {
    var s1 := Next(s, Lock(key, Some(bytes), None));
    StepKeepsInv(s, Lock(key, Some(bytes), None));
    s3 := FinishOver(s1, key);
  }

  /** The holder of an unconditional put allocates and publishes. */
  lemma {:induction false} FinishOver(s: State, key: Bytes) returns (t: State)
    requires Inv(s) && key in s.tree && key in s.locks && s.locks[key].Held?
    requires s.locks[key].data.Some? && s.locks[key].required == None
    ensures Enabled(s, Push(key, s.log.start)) && Enabled(Next(s, Push(key, s.log.start)), Publish(key))
    ensures t == Next(Next(s, Push(key, s.log.start)), Publish(key))
    ensures Inv(t) && key in t.tree && key !in t.locks && t.readers == s.readers && t.log.start == s.log.start
    ensures s.history < t.history && IsRev(t.history, key, |s.history| + 1)
  {
    var s2 := Next(s, Push(key, s.log.start));
    StepKeepsInv(s, Push(key, s.log.start));
    t := Next(s2, Publish(key));
    StepKeepsInv(s2, Publish(key));
  }

  lemma {:induction false} OverwriteRuns(s: State, id: nat, key: Bytes) returns (t: State)
    requires Inv(s) && id in s.readers && Scanned(s.readers[id], key) && key in s.tree && key !in s.locks
    requires 0 < s.readers[id].rev <= |s.history|
    ensures ValidRun(s, Overwrite(id, key, s.log.start)) && t == Exec(s, Overwrite(id, key, s.log.start))
    ensures s.history < t.history && IsRev(t.history, key, |s.history| + 1)
    ensures id in t.readers && key in t.readers[id].results
    ensures t.readers[id].results[key] == Visible(t.history, key, s.readers[id].rev, s.log.start)
  {
    var steps := Overwrite(id, key, s.log.start);
    var s3 := WriteOver(s, key, []);
    ReadsVisible(s3, id, key);
    assert steps[0] == Lock(key, Some([]), None) && steps[1] == Push(key, s.log.start) && steps[2] == Publish(key);
    FourSteps(s, steps);
    t := Next(s3, ReadItem(id, key));
  }

  /** One read of an unlocked key. */
  lemma {:induction false} ReadsVisible(s: State, id: nat, key: Bytes)
    requires Inv(s) && id in s.readers && Scanned(s.readers[id], key) && key in s.tree && key !in s.locks
    requires 0 < s.readers[id].rev <= |s.history|
    ensures Enabled(s, ReadItem(id, key))
    ensures var t := Next(s, ReadItem(id, key));
            && t.history == s.history && id in t.readers && key in t.readers[id].results
            && t.readers[id].results[key] == Visible(s.history, key, s.readers[id].rev, s.log.start)
  {
    UnlockedReadable(s, key);
    FindIsVisible(s.tree[key], s.log, s.history, key, s.readers[id].rev);
  }

  lemma {:induction false} FourSteps(s: State, steps: seq<Step>)
    requires |steps| == 4 && Enabled(s, steps[0]) && Enabled(Next(s, steps[0]), steps[1])
    requires Enabled(Next(Next(s, steps[0]), steps[1]), steps[2])
    requires Enabled(Next(Next(Next(s, steps[0]), steps[1]), steps[2]), steps[3])
    ensures ValidRun(s, steps)
    ensures Exec(s, steps) == Next(Next(Next(Next(s, steps[0]), steps[1]), steps[2]), steps[3])
  {
    var s1 := Next(s, steps[0]);
    var s2 := Next(s1, steps[1]);
    RunCons(Next(s2, steps[2]), steps[3], []);
    assert steps[3..] == [steps[3]] + [];
    RunCons(s2, steps[2], steps[3..]);
    assert steps[2..] == [steps[2]] + steps[3..];
    RunCons(s1, steps[1], steps[2..]);
    assert steps[1..] == [steps[1]] + steps[2..];
    RunCons(s, steps[0], steps[1..]);
    assert steps == [steps[0]] + steps[1..];
  }

  lemma {:induction false} UncompactedReadsRight(s: State, id: nat, key: Bytes, steps: seq<Step>)
    requires Inv(s) && id in s.readers && 0 < s.readers[id].rev <= |s.history|
    requires LastRev(s.history, key, s.readers[id].rev) > s.log.start
    requires ValidRun(s, steps) && KeepsReader(steps, id) && NoCompaction(steps)
    ensures var t := Exec(s, steps);
            id in t.readers && key in t.readers[id].results ==>
              t.readers[id].results[key] == Some(ValueOf(s.history, key, s.readers[id].rev))
  {
    var rev, t := s.readers[id].rev, Exec(s, steps);
    RunKeepsInv(s, steps);
    ReaderKeepsRev(s, steps, id);
    StartStays(s, steps);
    assert ReaderOk(t, id);
    if key in t.readers[id].results {
      assert ResultOk(t.history, t.log.start, key, rev, t.readers[id].results[key]);
      LastRevFrozen(s.history, t.history, key, rev);
    }
  }

  lemma {:induction false} OverwriteLoses(s: State, id: nat, key: Bytes)
    requires Inv(s) && id in s.readers && Scanned(s.readers[id], key) && key in s.tree && key !in s.locks
    requires 0 < s.readers[id].rev <= |s.history|
    requires LastRev(s.history, key, s.readers[id].rev) <= s.log.start
    ensures ValidRun(s, Overwrite(id, key, s.log.start))
    ensures var t := Exec(s, Overwrite(id, key, s.log.start));
            id in t.readers && key in t.readers[id].results && t.readers[id].results[key] == None
  {
    var rev := s.readers[id].rev;
    var t := OverwriteRuns(s, id, key);
    LastRevFrozen(s.history, t.history, key, rev);
    LastRevProps(s.history, key, rev);
    LastRevIsLast(t.history, key, |t.history|, |s.history| + 1);
  }

  predicate WritesOnly(steps: seq<Step>) {
    forall i | 0 <= i < |steps| :: steps[i].Refuse? || steps[i].Push? || steps[i].Publish?
  }

  /** The holder of the key's lock finishes. */
  lemma {:induction false} HolderFinishes(s: State, key: Bytes) returns (steps: seq<Step>)
    requires Inv(s) && key in s.tree
    ensures ValidRun(s, steps) && WritesOnly(steps)
    ensures var t := Exec(s, steps);
            key in t.tree && key !in t.locks && t.readers == s.readers && t.log.start == s.log.start
  {
    steps := [];
    if key in s.locks && s.locks[key].Held? {
      var step: Step := if Allowed(s.tree[key].latest, s.locks[key].data, s.locks[key].required)
      then Push(key, s.log.start) else Refuse(key);
      Extend(s, steps, step);
      steps := steps + [step];
    }
    if InFlight(Exec(s, steps), key) {
      Extend(s, steps, Publish(key));
      steps := steps + [Publish(key)];
    }
  }

  lemma {:induction false} ReaderIsKept(first: seq<Step>, id: nat, key: Bytes, seen: nat)
    requires WritesOnly(first)
    ensures KeepsReader(first + Overwrite(id, key, seen), id) && NoCompaction(first + Overwrite(id, key, seen))
  {
  }

  /** However far a writer of the key has got: let it finish, overwrite the key, and the reader
      finds nothing where it should find a compacted value. */
  lemma {:induction false} CompactedReadIsLost(s: State, id: nat, key: Bytes) returns (steps: seq<Step>)
    requires Inv(s) && id in s.readers && Scanned(s.readers[id], key) && key in s.tree
    requires 0 < s.readers[id].rev <= |s.history|
    requires LastRev(s.history, key, s.readers[id].rev) <= s.log.start
    ensures ValidRun(s, steps) && KeepsReader(steps, id) && NoCompaction(steps)
    ensures var t := Exec(s, steps);
            id in t.readers && key in t.readers[id].results && t.readers[id].results[key] == None
  {
    var first := HolderFinishes(s, key);
    var free := Exec(s, first);
    RunKeepsInv(s, first);
    LastRevFrozen(s.history, free.history, key, s.readers[id].rev);
    OverwriteLoses(free, id, key);
    steps := first + Overwrite(id, key, free.log.start);
    RunConcat(s, first, Overwrite(id, key, free.log.start));
    ReaderIsKept(first, id, key, free.log.start);
  }

  /** The cut is consistent for a live key exactly when its visible write lies after the compacted
      part. A compacted value survives only as the newest value of its key, so a write that arrives
      between picking the revision and reading the key makes it vanish. */
  lemma {:induction false} CutIsConsistentIff(s: State, id: nat, key: Bytes)
    requires Inv(s) && id in s.readers && Scanned(s.readers[id], key)
    requires 0 < s.readers[id].rev <= |s.history|
    requires ValueOf(s.history, key, s.readers[id].rev).data.Some?
    ensures ReadsRight(s, id, key) <==> LastRev(s.history, key, s.readers[id].rev) > s.log.start
  {
    var last := LastRev(s.history, key, s.readers[id].rev);
    LastRevProps(s.history, key, s.readers[id].rev);
    if last > s.log.start {
      forall steps | ValidRun(s, steps) && KeepsReader(steps, id) && NoCompaction(steps)
        ensures var t := Exec(s, steps);
                id in t.readers && key in t.readers[id].results ==>
                  Shown(t.readers[id].results[key]) == Shown(Some(ValueOf(s.history, key, s.readers[id].rev)))
      {
        UncompactedReadsRight(s, id, key, steps);
      }
    } else {
      WrittenIsCreated(s, key, last);
      var steps := CompactedReadIsLost(s, id, key);
    }
  }

  // ---------------------------------------------------------------- runs from the start

  /** The first write of a key that is in the tree, by a writer that finds it there. */
  lemma {:induction false} FirstWrite(s: State, key: Bytes, bytes: Bytes) returns (steps: seq<Step>)
    requires key in s.tree && s.tree[key] == NEW_ITEM && key !in s.locks
    ensures ValidRun(s, steps)
    ensures var rev := s.log.End() + 1;
            var v := Value(rev, rev, 1, Some(bytes));
            Exec(s, steps) == s.(tree := s.tree[key := TreeItem([rev], v)],
                                 log := s.log.Push(v), history := s.history + [Write(key, v)])
  {
    var rev := s.log.End() + 1;
    var v := Value(rev, rev, 1, Some(bytes));
    var lock: Step := Lock(key, Some(bytes), None);
    steps := [];
    Extend(s, steps, lock);
    steps := steps + [lock];
    Extend(s, steps, Push(key, s.log.start));
    steps := steps + [Push(key, s.log.start)];
    var pushed := Exec(s, steps);
    assert pushed.tree == s.tree && pushed.locks == s.locks[key := Pushed(rev, v)];
    assert pushed == s.(log := s.log.Push(PLACEHOLDER), locks := pushed.locks, history := s.history + [Write(key, v)]);
    Extend(s, steps, Publish(key));
    steps := steps + [Publish(key)];
    assert s.log.Push(PLACEHOLDER).Set(rev - 1, v) == s.log.Push(v);
    assert pushed.locks - {key} == s.locks && [] + [rev] == [rev];
  }

  /** The run in which a range misses a key: a second writer finds the new item in the tree and
      completes its write before the creator reaches the prefix index. */
  lemma {:induction false} ScanMissesWrite(id: nat, key: Bytes, bytes: Bytes) returns (steps: seq<Step>)
    ensures ValidRun(INIT, steps)
    ensures var s := Exec(INIT, steps);
            && id in s.readers && s.readers[id].rev == |s.history| == 1 && s.readers[id].keys.Some?
            && ValueOf(s.history, key, 1).data == Some(bytes)
            && key !in s.readers[id].keys.value
  {
    steps := [];
    Extend(INIT, steps, Create(key));
    steps := steps + [Create(key)];
    var write := FirstWrite(Exec(INIT, steps), key, bytes);
    RunConcat(INIT, steps, write);
    steps := steps + write;
    Extend(INIT, steps, PickRev(id, 1));
    steps := steps + [PickRev(id, 1)];
    Extend(INIT, steps, Scan(id));
    steps := steps + [Scan(id)];
  }

  /** Creates, indexes and writes a key. */
  lemma {:induction false} NewKey(s: State, key: Bytes, bytes: Bytes) returns (steps: seq<Step>)
    requires key !in s.tree && key !in s.creating && key !in s.locks
    ensures ValidRun(s, steps)
    ensures var rev := s.log.End() + 1;
            var v := Value(rev, rev, 1, Some(bytes));
            Exec(s, steps) == s.(tree := s.tree[key := TreeItem([rev], v)], index := s.index + {key},
                                 log := s.log.Push(v), history := s.history + [Write(key, v)])
  {
    steps := [];
    Extend(s, steps, Create(key));
    steps := steps + [Create(key)];
    Extend(s, steps, IndexKey(key));
    steps := steps + [IndexKey(key)];
    assert s.creating + {key} - {key} == s.creating;
    var write := FirstWrite(Exec(s, steps), key, bytes);
    RunConcat(s, steps, write);
    steps := steps + write;
  }

  /** Two keys are written, the log is compacted at revision 2 and a reader picks revision 2. */
  lemma {:induction false} CompactThenPick(id: nat, a: Bytes, b: Bytes, bytes: Bytes) returns (steps: seq<Step>)
    requires a != b
    ensures ValidRun(INIT, steps)
    ensures var s := Exec(INIT, steps);
            && id in s.readers && s.readers[id].rev == 2 && Scanned(s.readers[id], a)
            && a in s.tree && s.locks == map[] && s.log.start == 1
            && |s.history| == 2 && s.history[0].key == a && s.history[1].key == b
            && s.history[0].value.data == Some(bytes)
  {
    steps := NewKey(INIT, a, bytes);
    var second := NewKey(Exec(INIT, steps), b, bytes);
    RunConcat(INIT, steps, second);
    steps := steps + second;
    Extend(INIT, steps, Compact(2));
    steps := steps + [Compact(2)];
    Extend(INIT, steps, PickRev(id, 2));
    steps := steps + [PickRev(id, 2)];
    Extend(INIT, steps, Scan(id));
    steps := steps + [Scan(id)];
  }

  /** The run in which a range loses a live value. Revision 1 is compacted, the reader picks
      revision 2, and before it gets to the key of revision 1 that key is overwritten. */
  lemma {:induction false} CompactedReadRun(id: nat, a: Bytes, b: Bytes, bytes: Bytes) returns (before: seq<Step>)
    requires a != b
    ensures ValidRun(INIT, before)
    ensures var past := Exec(INIT, before);
            && id in past.readers && past.readers[id].rev == |past.history| == 2
            && ValueOf(past.history, a, 2).data == Some(bytes)
            && ValidRun(past, Overwrite(id, a, past.log.start))
            && var s := Exec(past, Overwrite(id, a, past.log.start));
               id in s.readers && a in s.readers[id].results && s.readers[id].results[a] == None
  {
    before := CompactThenPick(id, a, b, bytes);
    var s := Exec(INIT, before);
    ReachableInv(before);
    assert LastRev(s.history, a, 2) == 1;
    OverwriteLoses(s, id, a);
  }
}
