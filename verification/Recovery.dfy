/** Starting from the write-ahead log: decoding every file, merging by revision and replaying into
    an empty store rebuilds the store. */
module Recovery {
  import opened Common
  import opened OffsetSequence
  import opened MinHeaps
  import opened Mvcc
  import opened StoreModel
  import opened ItemHistory
  import opened Stores
  import opened WalCodec
  import opened WalLoad
  import Notify
  import WalWriter
  import ConcurrentStore

  /** What `do_send` appends for a write: version 0 marks a deletion. */
  function RecordOf(w: Write): Record
    requires INT64_MIN <= w.value.modRevision < INT64_END
  {
    var kv := AsKeyValue(w.value, w.key);
    Record(w.value.modRevision, w.key, if kv.version == 0 then None else Some(kv.value))
  }

  function ReplayAll(s: State, records: seq<Record>): State {
    if records == [] then s
    else ApplyReplay(ReplayAll(s, DropLast(records)), Last(records).key, Last(records).value)
  }

  /** A first run: every revision fits, and so does every record. */
  ghost predicate Loggable(h: History) {
    && |h| < INT64_END && ModsMatch(h) && Derived(h)
    && forall i | 0 <= i < |h| :: Fits(RecordOf(h[i]))
  }

  ghost function Records(h: History): seq<Record>
    requires |h| < INT64_END && ModsMatch(h)
  {
    seq(|h|, i requires 0 <= i < |h| => RecordOf(h[i]))
  }

  // ---------------------------------------------------------------- replay

  /** Versions of effective writes start at 1, so only deletions are logged as deletions. */
  lemma {:induction false} VersionsPositive(h: History, i: nat)
    requires Derived(h) && i < |h|
    ensures h[i].value.version >= 1
    decreases |h|
  {
    if i < |h| - 1 {
      VersionsPositive(DropLast(h), i);
    } else {
      var front := DropLast(h);
      LastRevProps(front, h[i].key, |front|);
      var r := LastRev(front, h[i].key, |front|);
      if r > 0 { VersionsPositive(front, r - 1); }
    }
  }

  /** An effective write of the history is not skipped, and gets the value it had. */
  lemma {:induction false} ReplayedValue(s: State, h: History)
    requires h != [] && Derived(h) && Represents(s, Ref(DropLast(h), 0))
    ensures var item, w := ItemOf(s, Last(h).key), Last(h);
            && w.value == NextValue(item.latest, |h|, w.value.data)
            && ApplyReplay(s, w.key, w.value.data) ==
               State(s.tree[w.key := Updated(item, 0, |h|, w.value.data, false)],
                     s.log.Push(PLACEHOLDER).Set(|h| - 1, w.value))
  {
    RepresentsReadable(s, Ref(DropLast(h), 0), Last(h).key);
  }

  lemma {:induction false} ReplayStep(s: State, h: History)
    requires h != [] && ModsMatch(h) && Derived(h) && Represents(s, Ref(DropLast(h), 0))
    ensures Represents(ApplyReplay(s, Last(h).key, Last(h).value.data), Ref(h, 0))
  {
    var front, w := DropLast(h), Last(h);
    ReplayedValue(s, h);
    assert h == front + [w];
    LogStep(s.log, front, w);
    ItemsStep(s, ApplyReplay(s, w.key, w.value.data), front, w, 0, false);
  }

  /** The records of a history say what each write was: its revision, its key, and its data or that it
      was a deletion. */
  lemma {:induction false} RecordsSay(h: History, i: nat)
    requires |h| < INT64_END && ModsMatch(h) && Derived(h) && i < |h|
    ensures Records(h)[i] == Record(i + 1, h[i].key, h[i].value.data)
  {
    VersionsPositive(h, i);
  }

  lemma {:induction false} ReplayRebuilds(h: History)
    requires |h| < INT64_END && ModsMatch(h) && Derived(h)
    ensures Represents(ReplayAll(EMPTY, Records(h)), Ref(h, 0))
  {
    if h != [] {
      var front := DropLast(h);
      ReplayRebuilds(front);
      assert DropLast(Records(h)) == Records(front);
      VersionsPositive(h, |h| - 1);
      ReplayStep(ReplayAll(EMPTY, Records(front)), h);
    } else {
      assert Represents(EMPTY, Ref([], 0)) by { RunRefines([], false); }
    }
  }

  // ---------------------------------------------------------------- the same state

  /** Before any compaction, the history determines the store. */
  lemma {:induction false} StateIsDetermined(a: State, b: State, h: History, key: Bytes)
    requires Represents(a, Ref(h, 0)) && Represents(b, Ref(h, 0))
    ensures a.log == b.log && ItemOf(a, key) == ItemOf(b, key)
  {
    SameLog(a.log, b.log, h);
    var x, y := ItemOf(a, key), ItemOf(b, key);
    assert ItemMatches(x, h, key, |h|, 0) && ItemMatches(y, h, key, |h|, 0);
    forall r | r in x.revisions ensures r in y.revisions {
      assert IsRev(h, key, r);
    }
    forall r | r in y.revisions ensures r in x.revisions {
      assert IsRev(h, key, r);
    }
    SameIncreasing(x.revisions, y.revisions);
  }

  // ---------------------------------------------------------------- files and merging

  /** The records that go to the file `name`; `nameOf` says which file a key belongs to. */
  ghost function InFile(records: seq<Record>, nameOf: Bytes -> Bytes, name: Bytes): seq<Record> {
    if records == [] then []
    else InFile(DropLast(records), nameOf, name) + (if nameOf(Last(records).key) == name then [Last(records)] else [])
  }

  ghost function Lists(records: seq<Record>, nameOf: Bytes -> Bytes, names: seq<Bytes>): seq<seq<Record>> {
    seq(|names|, f requires 0 <= f < |names| => InFile(records, nameOf, names[f]))
  }

  ghost predicate Distinct(names: seq<Bytes>) {
    forall i, j | 0 <= i < j < |names| :: names[i] != names[j]
  }

  lemma {:induction false} UnionPut(lists: seq<seq<Record>>, i: nat, r: Record)
    requires i < |lists|
    ensures Union(lists[i := lists[i] + [r]]) == Union(lists) + multiset{r}
  {
    var front, last := DropLast(lists), Last(lists);
    var longer := lists[i := lists[i] + [r]];
    if i == |lists| - 1 {
      assert DropLast(longer) == front && Last(longer) == last + [r];
      SumShuffle(Union(front), multiset(last), multiset{r});
    } else {
      UnionPut(front, i, r);
      assert DropLast(longer) == front[i := front[i] + [r]] && Last(longer) == last;
      SumShuffle(Union(front), multiset(last), multiset{r});
    }
  }

  /** Splitting over files loses and repeats nothing. */
  lemma {:induction false} SplitUnion(records: seq<Record>, nameOf: Bytes -> Bytes, names: seq<Bytes>)
    requires Distinct(names) && forall i | 0 <= i < |records| :: nameOf(records[i].key) in names
    ensures Union(Lists(records, nameOf, names)) == multiset(records)
  {
    if records == [] {
      UnionOfEmpty(Lists(records, nameOf, names));
    } else {
      var front, r := DropLast(records), Last(records);
      SplitUnion(front, nameOf, names);
      assert records == front + [r];
      var before := Lists(front, nameOf, names);
      var i :| 0 <= i < |names| && names[i] == nameOf(r.key);
      ListsStep(records, nameOf, names, i);
      UnionPut(before, i, r);
    }
  }

  lemma {:induction false} ListsStep(records: seq<Record>, nameOf: Bytes -> Bytes, names: seq<Bytes>, i: nat)
    requires records != [] && Distinct(names) && i < |names| && names[i] == nameOf(Last(records).key)
    ensures var before := Lists(DropLast(records), nameOf, names);
            Lists(records, nameOf, names) == before[i := before[i] + [Last(records)]]
  {
    var before := Lists(DropLast(records), nameOf, names);
    var after := before[i := before[i] + [Last(records)]];
    forall f | 0 <= f < |names| ensures InFile(records, nameOf, names[f]) == after[f] {
      assert f != i ==> names[f] != names[i];
    }
  }

  lemma {:induction false} InFileMembers(records: seq<Record>, nameOf: Bytes -> Bytes, name: Bytes, r: Record)
    requires r in InFile(records, nameOf, name)
    ensures r in records
  {
    if records != [] && r in InFile(DropLast(records), nameOf, name) {
      InFileMembers(DropLast(records), nameOf, name, r);
    }
  }

  lemma {:induction false} InFileSorted(records: seq<Record>, nameOf: Bytes -> Bytes, name: Bytes)
    requires SortedByRev(records)
    ensures SortedByRev(InFile(records, nameOf, name))
  {
    if records != [] {
      var front := InFile(DropLast(records), nameOf, name);
      InFileSorted(DropLast(records), nameOf, name);
      forall i | 0 <= i < |front| ensures front[i].rev <= Last(records).rev {
        InFileMembers(DropLast(records), nameOf, name, front[i]);
        var k :| 0 <= k < |DropLast(records)| && DropLast(records)[k] == front[i];
        assert records[k] == front[i];
      }
    }
  }

  lemma {:induction false} SplitOffLast(a: seq<Record>)
    requires a != []
    ensures multiset(a) == multiset(DropLast(a)) + multiset{Last(a)}
  {
    assert a == DropLast(a) + [Last(a)];
  }

  lemma {:induction false} Cancel(x: multiset<Record>, y: multiset<Record>, e: Record)
    requires x + multiset{e} == y + multiset{e}
    ensures x == y
  {
    assert x == (x + multiset{e}) - multiset{e};
    assert y == (y + multiset{e}) - multiset{e};
  }

  lemma {:induction false} SameLast(a: seq<Record>, b: seq<Record>)
    requires a != [] && b != [] && SortedByRev(a) && multiset(a) == multiset(b)
    requires forall i, j | 0 <= i < j < |b| :: b[i].rev < b[j].rev
    ensures Last(a) == Last(b)
  {
    assert Last(a) in multiset(a) && Last(b) in multiset(b);
    var i :| 0 <= i < |b| && b[i] == Last(a);
    var j :| 0 <= j < |a| && a[j] == Last(b);
    assert a[j].rev <= Last(a).rev;
  }

  lemma {:induction false} SortedUnique(a: seq<Record>, b: seq<Record>)
    requires SortedByRev(a) && multiset(a) == multiset(b)
    requires forall i, j | 0 <= i < j < |b| :: b[i].rev < b[j].rev
    ensures a == b
  {
    assert |a| == |multiset(a)| && |b| == |multiset(b)|;
    if a != [] {
      SameLast(a, b);
      SplitOffLast(a);
      SplitOffLast(b);
      Cancel(multiset(DropLast(a)), multiset(DropLast(b)), Last(a));
      SortedUnique(DropLast(a), DropLast(b));
      assert a == DropLast(a) + [Last(a)] && b == DropLast(b) + [Last(b)];
    }
  }

  lemma {:induction false} FileHolds(records: seq<Record>, nameOf: Bytes -> Bytes, name: Bytes)
    requires SortedByRev(records) && forall i | 0 <= i < |records| :: Fits(records[i])
    ensures DecodeAll(EncodeAll(InFile(records, nameOf, name))) == FileResult(InFile(records, nameOf, name), true)
    ensures SortedByRev(InFile(records, nameOf, name))
  {
    var mine := InFile(records, nameOf, name);
    forall k | 0 <= k < |mine| ensures Fits(mine[k]) {
      InFileMembers(records, nameOf, name, mine[k]);
    }
    FileRoundTrip(mine);
    InFileSorted(records, nameOf, name);
  }

  /** Files that hold the encoded records of a history, split by name, merge back to the records of
      the history in revision order, whatever the split. */
  lemma {:induction false} MergeRestoresOrder(h: History, nameOf: Bytes -> Bytes, names: seq<Bytes>,
                                              files: seq<Bytes>, emitted: seq<Record>)
    requires Loggable(h) && Distinct(names) && |files| == |names|
    requires forall w | w in h :: nameOf(w.key) in names
    requires forall f | 0 <= f < |files| :: files[f] == EncodeAll(InFile(Records(h), nameOf, names[f]))
    requires multiset(emitted) == Union(Contents(files))
    requires EachSorted(Contents(files)) ==> SortedByRev(emitted)
    ensures AllClean(files) && emitted == Records(h)
  {
    var records := Records(h);
    RecordsInOrder(h);
    forall f | 0 <= f < |files|
      ensures DecodeAll(files[f]) == FileResult(Lists(records, nameOf, names)[f], true)
      ensures SortedByRev(Lists(records, nameOf, names)[f])
    {
      FileHolds(records, nameOf, names[f]);
    }
    assert Contents(files) == Lists(records, nameOf, names);
    SplitUnion(records, nameOf, names);
    SortedUnique(emitted, records);
  }

  lemma {:induction false} RecordsInOrder(h: History)
    requires Loggable(h)
    ensures forall i, j | 0 <= i < j < |h| :: Records(h)[i].rev < Records(h)[j].rev
    ensures forall i | 0 <= i < |h| :: Fits(Records(h)[i]) && Records(h)[i].key == h[i].key
  {
  }

  // ---------------------------------------------------------------- the start-up code

  /** The records that the files hold, merged. The loader returns such a list if every file ends
      cleanly, and an error otherwise. */
  ghost predicate Merges(files: seq<Bytes>, emitted: seq<Record>) {
    && multiset(emitted) == Union(Contents(files))
    && (EachSorted(Contents(files)) ==> SortedByRev(emitted))
  }

  ghost predicate Rebuilt(s: State, files: seq<Bytes>) {
    exists emitted :: Merges(files, emitted) && s == ReplayAll(EMPTY, emitted)
  }

  /** Start-up with these files succeeds and gives this store. */
  ghost predicate StartsUp(files: seq<Bytes>, s: State) {
    AllClean(files) && Rebuilt(s, files)
  }

  /** `Store::new` with a log directory: load and replay. A failure stops the program. */
  method Recover(files: seq<Bytes>) returns (ok: bool, store: Store)
    ensures ok <==> AllClean(files)
    ensures ok ==> store.Valid() && StartsUp(files, store.View())
  {
    store := new Store();
    var emitted;
    ok, emitted := LoadWalDir(files);
    if ok {
      for i := 0 to |emitted|
        invariant store.Valid() && fresh(store) && fresh(store.log.Repr)
        invariant store.View() == ReplayAll(EMPTY, emitted[..i])
      {
        assert DropLast(emitted[..i + 1]) == emitted[..i] && Last(emitted[..i + 1]) == emitted[i];
        store.SetForReplay(emitted[i].key, emitted[i].value);
      }
      assert emitted[..|emitted|] == emitted;
    }
  }

  // ---------------------------------------------------------------- from writes to files and back

  /** The records that a run of the log writers appends, in order. */
  function Appends(steps: seq<WalWriter.Step>): seq<Record> {
    if steps == [] then [] else AppendOf(steps[0]) + Appends(steps[1..])
  }

  ghost predicate NamesRight(steps: seq<WalWriter.Step>, nameOf: Bytes -> Bytes) {
    forall i | 0 <= i < |steps| && steps[i].Append? :: steps[i].prefix == nameOf(steps[i].record.key)
  }

  lemma {:induction false} InFileConcat(a: seq<Record>, b: seq<Record>, nameOf: Bytes -> Bytes, name: Bytes)
    ensures InFile(a + b, nameOf, name) == InFile(a, nameOf, name) + InFile(b, nameOf, name)
  {
    if b == [] {
      assert a + b == a;
    } else {
      assert DropLast(a + b) == a + DropLast(b) && Last(a + b) == Last(b);
      InFileConcat(a, DropLast(b), nameOf, name);
    }
  }

  function AppendOf(step: WalWriter.Step): seq<Record> {
    if step.Append? then [step.record] else []
  }

  lemma {:induction false} AppendOne(s: WalWriter.State, step: WalWriter.Step, nameOf: Bytes -> Bytes, name: Bytes)
    requires WalWriter.Enabled(s, step) && (step.Append? ==> step.prefix == nameOf(step.record.key))
    ensures WalWriter.Lookup(WalWriter.Next(s, step).appended, name) ==
            WalWriter.Lookup(s.appended, name) + InFile(AppendOf(step), nameOf, name)
  {
    if step.Append? {
      assert DropLast([step.record]) == [] && Last([step.record]) == step.record;
    }
  }

  /** Each file gets its share of the appends, in append order. */
  lemma {:induction false} AppendedInOrder(s: WalWriter.State, steps: seq<WalWriter.Step>,
                                           nameOf: Bytes -> Bytes, name: Bytes)
    requires WalWriter.ValidRun(s, steps) && NamesRight(steps, nameOf)
    ensures WalWriter.Lookup(WalWriter.Exec(s, steps).appended, name) ==
            WalWriter.Lookup(s.appended, name) + InFile(Appends(steps), nameOf, name)
    decreases |steps|
  {
    if steps != [] {
      var s' := WalWriter.Next(s, steps[0]);
      AppendOne(s, steps[0], nameOf, name);
      AppendedInOrder(s', steps[1..], nameOf, name);
      InFileConcat(AppendOf(steps[0]), Appends(steps[1..]), nameOf, name);
      ConcatAssoc(WalWriter.Lookup(s.appended, name), InFile(AppendOf(steps[0]), nameOf, name),
                  InFile(Appends(steps[1..]), nameOf, name));
    }
  }

  /** A job that carries the write of its revision. */
  ghost predicate IsJobOf(job: Entry<Write>, h: History) {
    1 <= job.rev <= |h| && job.item == h[job.rev - 1]
  }

  /** The writers of the history have all queued their jobs, in whatever order. */
  ghost predicate Queued(jobs: seq<Entry<Write>>, h: History) {
    && Notify.DistinctRevs(jobs) && |jobs| == |h|
    && (forall r | 1 <= r <= |h| :: Notify.Arrived(jobs, r))
    && (forall i | 0 <= i < |jobs| :: IsJobOf(jobs[i], h))
  }

  /** One record for every job that was sent, in the order of sending. */
  ghost predicate Logged(records: seq<Record>, sent: seq<Entry<Write>>) {
    && |records| == |sent|
    && forall i | 0 <= i < |sent| ::
         INT64_MIN <= sent[i].item.value.modRevision < INT64_END && records[i] == RecordOf(sent[i].item)
  }

  /** The notify thread hands the writes on in revision order, whatever order they arrived in. */
  lemma {:induction false} NotifyRestoresOrder(h: History, jobs: seq<Entry<Write>>)
    requires Queued(jobs, h)
    ensures |Notify.Run(jobs).sent| == |h|
    ensures forall i | 0 <= i < |h| :: Notify.Run(jobs).sent[i] == Entry(i + 1, h[i])
  {
    Notify.AllArrived(jobs, |h|);
    Notify.Reordering(jobs);
    var sent := Notify.Run(jobs).sent;
    forall i | 0 <= i < |h| ensures sent[i] == Entry(i + 1, h[i]) {
      assert sent[i] in sent;
      var k :| 0 <= k < |jobs| && jobs[k] == sent[i];
    }
  }

  lemma {:induction false} LoggedInOrder(h: History, jobs: seq<Entry<Write>>, records: seq<Record>)
    requires |h| < INT64_END && ModsMatch(h) && Queued(jobs, h) && Logged(records, Notify.Run(jobs).sent)
    ensures records == Records(h)
  {
    NotifyRestoresOrder(h, jobs);
  }

  lemma {:induction false} FilesHoldRecords(steps: seq<WalWriter.Step>, nameOf: Bytes -> Bytes, name: Bytes)
    requires WalWriter.ValidRun(WalWriter.INIT, steps) && WalWriter.Quiet(WalWriter.Exec(WalWriter.INIT, steps))
    requires NamesRight(steps, nameOf)
    ensures WalWriter.Lookup(WalWriter.Exec(WalWriter.INIT, steps).files, name) ==
            EncodeAll(InFile(Appends(steps), nameOf, name))
  {
    WalWriter.QuietMeansComplete(steps, name);
    AppendedSoFar(steps, nameOf, name);
  }

  /** What the loader finds in the files of these names. */
  ghost predicate FilesAt(files: seq<Bytes>, names: seq<Bytes>, s: WalWriter.State) {
    |files| == |names| && forall f | 0 <= f < |files| :: files[f] == WalWriter.Lookup(s.files, names[f])
  }

  /** What recovery promises about a key: the same revision and newest value, every past read as if
      nothing had been compacted, and the very same store if nothing had been. */
  ghost predicate Recovered(before: State, h: History, after: State, key: Bytes) {
    && after.log.End() == before.log.End()
    && ItemOf(after, key).latest == ItemOf(before, key).latest
    && (forall rev | 0 < rev <= |h| :: Find(ItemOf(after, key), after.log, rev) == Visible(h, key, rev, 0))
    && (before.log.start == 0 ==> after.log == before.log && ItemOf(after, key) == ItemOf(before, key))
  }

  /** From a store that stands for a history to files and back. */
  lemma {:induction false} RecoveryFrom(
    before: State, r: Ref, jobs: seq<Entry<Write>>, steps: seq<WalWriter.Step>,
    nameOf: Bytes -> Bytes, names: seq<Bytes>, files: seq<Bytes>, emitted: seq<Record>, key: Bytes)
    requires Represents(before, r) && Loggable(r.history) && Queued(jobs, r.history)
    requires WalWriter.ValidRun(WalWriter.INIT, steps) && WalWriter.Quiet(WalWriter.Exec(WalWriter.INIT, steps))
    requires Logged(Appends(steps), Notify.Run(jobs).sent) && NamesRight(steps, nameOf)
    requires Distinct(names) && forall w | w in r.history :: nameOf(w.key) in names
    requires FilesAt(files, names, WalWriter.Exec(WalWriter.INIT, steps))
    requires Merges(files, emitted)
    ensures AllClean(files) && Recovered(before, r.history, ReplayAll(EMPTY, emitted), key)
  {
    var h := r.history;
    LoggedInOrder(h, jobs, Appends(steps));
    forall f | 0 <= f < |files| ensures files[f] == EncodeAll(InFile(Records(h), nameOf, names[f])) {
      FilesHoldRecords(steps, nameOf, names[f]);
    }
    MergeRestoresOrder(h, nameOf, names, files, emitted);
    ReplayRebuilds(h);
    SameReads(before, r, ReplayAll(EMPTY, emitted), key);
  }

  /** From writes to files and back. Any interleaving of the store's writers, readers and
      compactions that has no write in flight; its jobs reach the notify thread in any order; the
      log writers interleave in any way and come to rest; the loader breaks ties as it likes. */
  lemma {:induction false} RecoveryIsExact(
    writers: seq<ConcurrentStore.Step>, jobs: seq<Entry<Write>>, steps: seq<WalWriter.Step>,
    nameOf: Bytes -> Bytes, names: seq<Bytes>, files: seq<Bytes>, emitted: seq<Record>, key: Bytes)
    requires ConcurrentStore.ValidRun(ConcurrentStore.INIT, writers)
    requires var s := ConcurrentStore.Exec(ConcurrentStore.INIT, writers);
             && s.locks == map[] && Loggable(s.history) && Queued(jobs, s.history)
             && (forall w | w in s.history :: nameOf(w.key) in names)
    requires WalWriter.ValidRun(WalWriter.INIT, steps) && WalWriter.Quiet(WalWriter.Exec(WalWriter.INIT, steps))
    requires Logged(Appends(steps), Notify.Run(jobs).sent) && NamesRight(steps, nameOf) && Distinct(names)
    requires FilesAt(files, names, WalWriter.Exec(WalWriter.INIT, steps))
    requires Merges(files, emitted)
    ensures var s := ConcurrentStore.Exec(ConcurrentStore.INIT, writers);
            AllClean(files) && Recovered(State(s.tree, s.log), s.history, ReplayAll(EMPTY, emitted), key)
  {
    var s := ConcurrentStore.Exec(ConcurrentStore.INIT, writers);
    ConcurrentStore.QuietRepresents(writers);
    RecoveryFrom(State(s.tree, s.log), Ref(s.history, s.log.start), jobs, steps, nameOf, names, files, emitted, key);
  }

  lemma {:induction false} SameReads(before: State, r: Ref, after: State, key: Bytes)
    requires Represents(before, r) && Represents(after, Ref(r.history, 0))
    ensures Recovered(before, r.history, after, key)
  {
    RepresentsReadable(before, r, key);
    RepresentsReadable(after, Ref(r.history, 0), key);
    forall rev | 0 < rev <= |r.history| ensures Find(ItemOf(after, key), after.log, rev) ==
            Visible(r.history, key, rev, 0) {
      FindIsVisible(ItemOf(after, key), after.log, r.history, key, rev);
    }
    if r.start == 0 { StateIsDetermined(before, after, r.history, key); }
  }

  // ---------------------------------------------------------------- stopping at any moment

  lemma {:induction false} AppendedSoFar(steps: seq<WalWriter.Step>, nameOf: Bytes -> Bytes, name: Bytes)
    requires WalWriter.ValidRun(WalWriter.INIT, steps) && NamesRight(steps, nameOf)
    ensures WalWriter.Lookup(WalWriter.Exec(WalWriter.INIT, steps).appended, name) ==
            InFile(Appends(steps), nameOf, name)
  {
    AppendedInOrder(WalWriter.INIT, steps, nameOf, name);
    assert WalWriter.Lookup(WalWriter.INIT.appended, name) == [];
    assert [] + InFile(Appends(steps), nameOf, name) == InFile(Appends(steps), nameOf, name);
  }

  /** If the writers are stopped at any moment, each file holds the first so many of its records:
      loading it gives these, and fails exactly when the last write stopped inside a body. */
  lemma {:induction false} CrashLeavesPrefix(steps: seq<WalWriter.Step>, nameOf: Bytes -> Bytes, name: Bytes)
    requires WalWriter.ValidRun(WalWriter.INIT, steps) && NamesRight(steps, nameOf)
    requires forall r | r in Appends(steps) :: Fits(r)
    ensures var file := WalWriter.Lookup(WalWriter.Exec(WalWriter.INIT, steps).files, name);
            var all := InFile(Appends(steps), nameOf, name);
            var k := WholeRecords(all, |file|);
            && |EncodeAll(all[..k])| <= |file|
            && DecodeAll(file) == FileResult(all[..k], |file| - |EncodeAll(all[..k])| < HEADER)
  {
    var file := WalWriter.Lookup(WalWriter.Exec(WalWriter.INIT, steps).files, name);
    var all := InFile(Appends(steps), nameOf, name);
    AppendedSoFar(steps, nameOf, name);
    WalWriter.FileIsPrefix(steps, name);
    assert file == EncodeAll(all)[..|file|];
    forall k | 0 <= k < |all| ensures Fits(all[k]) { InFileMembers(Appends(steps), nameOf, name, all[k]); }
    TruncatedFile(all, |file|);
  }

  // ---------------------------------------------------------------- notifications after a start

  /** The notify thread starts at revision 1 whatever the store holds. In a process whose store
      starts out with a revision, because it replayed a log or imported a snapshot, no write that
      follows is ever handed on: neither to a watcher nor to the log. Whatever the state and however
      the writers interleave. */
  lemma {:induction false} StuckAfterStart(s: ConcurrentStore.State, writers: seq<ConcurrentStore.Step>,
                                           jobs: seq<Entry<Write>>)
    requires s.log.End() >= 1 && ConcurrentStore.ValidRun(s, writers) && Notify.DistinctRevs(jobs)
    requires forall i | 0 <= i < |jobs| :: jobs[i].rev in ConcurrentStore.Allocated(s, writers)
    ensures Notify.Run(jobs).sent == [] && Notify.Run(jobs).progress == 0
  {
    ConcurrentStore.AllocatedFollow(s, writers);
    forall i | 0 <= i < |jobs| ensures jobs[i].rev != 1 { }
    Notify.StuckWithoutFirst(jobs);
    Notify.Reordering(jobs);
  }

  /** The store that replay has built, before its first request. */
  function Started(s: State, h: History): ConcurrentStore.State {
    ConcurrentStore.State(s.tree, s.tree.Keys, {}, s.log, map[], map[], h, [])
  }

  /** So every start from a log with a record in it ends all notifications. */
  lemma {:induction false} StuckAfterReplay(h: History, writers: seq<ConcurrentStore.Step>, jobs: seq<Entry<Write>>)
    requires 1 <= |h| < INT64_END && ModsMatch(h) && Derived(h) && Notify.DistinctRevs(jobs)
    requires ConcurrentStore.ValidRun(Started(ReplayAll(EMPTY, Records(h)), h), writers)
    requires forall i | 0 <= i < |jobs| ::
               jobs[i].rev in ConcurrentStore.Allocated(Started(ReplayAll(EMPTY, Records(h)), h), writers)
    ensures Notify.Run(jobs).sent == [] && Notify.Run(jobs).progress == 0
  {
    ReplayRebuilds(h);
    StuckAfterStart(Started(ReplayAll(EMPTY, Records(h)), h), writers, jobs);
  }
}
