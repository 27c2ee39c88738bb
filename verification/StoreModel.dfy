/** The store's operations on values, and the append-only history that they refine. */
module StoreModel {
  import opened Common
  import opened OffsetSequence
  import opened Mvcc

  datatype State = State(tree: map<Bytes, TreeItem>, log: OffsetSeq<Value>)

  const EMPTY := State(map[], OffsetSeq(0, []))

  datatype SetResult = Written(rev: int) | Refused(rev: int, current: Option<Value>)

  datatype Op =
    | Set(key: Bytes, data: Option<Bytes>, required: Option<Required>)
    | Compact(rev: int)

  datatype Answer = SetAnswer(result: SetResult) | CompactAnswer(ok: bool)

  // ---------------------------------------------------------------- the store

  function ItemOf(s: State, key: Bytes): TreeItem {
    if key in s.tree then s.tree[key] else NEW_ITEM
  }

  /** The item after a write that got revision `rev`. */
  function Updated(item: TreeItem, earliest: int, rev: int, data: Option<Bytes>, trim: bool): TreeItem {
    var kept := if trim then Trim(item.revisions, earliest) else item.revisions;
    TreeItem(kept + [rev], NextValue(item.latest, rev, data))
  }

  function Current(latest: Value): Option<Value> {
    if latest.data.Some? then Some(latest) else None
  }

  /** `set`: an unknown key gets an empty item even when the write is then refused. */
  function ApplySet(s: State, key: Bytes, data: Option<Bytes>, req: Option<Required>, trim: bool)
    : (State, SetResult)
  {
    var item := ItemOf(s, key);
    if !Allowed(item.latest, data, req) then
      (s.(tree := s.tree[key := item]), Refused(s.log.End(), Current(item.latest)))
    else
      var rev := s.log.End() + 1;
      var item' := Updated(item, s.log.start, rev, data, trim);
      (State(s.tree[key := item'], s.log.Push(PLACEHOLDER).Set(rev - 1, item'.latest)), Written(rev))
  }

  /** `set_for_replay`: a deletion of a key that is not live is skipped and indexes nothing. */
  function ApplyReplay(s: State, key: Bytes, data: Option<Bytes>): State {
    var item := ItemOf(s, key);
    if item.latest.data.None? && data.None? then s
    else
      var rev := s.log.End() + 1;
      var item' := Updated(item, s.log.start, rev, data, false);
      State(s.tree[key := item'], s.log.Push(PLACEHOLDER).Set(rev - 1, item'.latest))
  }

  function ApplyCompact(s: State, rev: int): (State, bool) {
    if rev < 1 || rev > s.log.End() then (s, false)
    else
      var log := s.log.RemoveBefore(rev - 1);
      if log.Some? then (s.(log := log.value), true) else (s, false)
  }

  function Step(s: State, op: Op, trim: bool): (State, Answer) {
    match op
    case Set(key, data, req) =>
      var (s', r) := ApplySet(s, key, data, req, trim);
      (s', SetAnswer(r))
    case Compact(rev) =>
      var (s', ok) := ApplyCompact(s, rev);
      (s', CompactAnswer(ok))
  }

  function Run(s: State, ops: seq<Op>, trim: bool): (State, seq<Answer>) {
    if ops == [] then (s, [])
    else
      var (s1, answers) := Run(s, DropLast(ops), trim);
      var (s2, answer) := Step(s1, Last(ops), trim);
      (s2, answers + [answer])
  }

  // ---------------------------------------------------------------- the reference

  /** The whole history, and how much of it has been compacted. */
  datatype Ref = Ref(history: History, start: nat)

  ghost function RefSet(h: History, key: Bytes, data: Option<Bytes>, req: Option<Required>): (History, SetResult) {
    var latest := LatestOf(h, key);
    if !Allowed(latest, data, req) then
      (h, Refused(|h|, if latest.data.Some? then Some(latest) else None))
    else
      (h + [Write(key, NextValue(latest, |h| + 1, data))], Written(|h| + 1))
  }

  ghost function RefStep(r: Ref, op: Op): (Ref, Answer) {
    var h := r.history;
    match op
    case Set(key, data, req) =>
      var (h', result) := RefSet(h, key, data, req);
      (r.(history := h'), SetAnswer(result))
    case Compact(rev) =>
      if r.start < rev <= |h| then (r.(start := rev - 1), CompactAnswer(true))
      else (r, CompactAnswer(false))
  }

  ghost function RefRun(ops: seq<Op>): (Ref, seq<Answer>) {
    if ops == [] then (Ref([], 0), [])
    else
      var (r1, answers) := RefRun(DropLast(ops));
      var (r2, answer) := RefStep(r1, Last(ops));
      (r2, answers + [answer])
  }

  // ---------------------------------------------------------------- refinement

  ghost predicate LogMatches(log: OffsetSeq<Value>, h: History) {
    && log.End() == |h|
    && forall i | log.start <= i < |h| :: SlotMatches(log, h, i)
  }

  ghost predicate SlotMatches(log: OffsetSeq<Value>, h: History, i: int) {
    0 <= i < |h| && log.Get(i) == Some(h[i].value)
  }

  /** Holds for every key: one that is not indexed has no writes. */
  ghost predicate ItemsMatch(s: State, h: History, start: int) {
    forall key :: ItemMatches(ItemOf(s, key), h, key, |h|, start)
  }

  ghost predicate Represents(s: State, r: Ref) {
    && s.log.start == r.start
    && ModsMatch(r.history) && Derived(r.history)
    && LogMatches(s.log, r.history)
    && ItemsMatch(s, r.history, r.start)
  }

  ghost predicate Names(ops: seq<Op>, key: Bytes) {
    exists i | 0 <= i < |ops| :: ops[i].Set? && ops[i].key == key
  }

  /** The tree has an item for exactly the keys that some write named, whether it succeeded or not. */
  lemma {:induction false} ItemsAreNamedKeys(ops: seq<Op>, trim: bool, key: Bytes)
    ensures key in Run(EMPTY, ops, trim).0.tree <==> Names(ops, key)
  {
    if ops != [] {
      var front, i := DropLast(ops), |ops| - 1;
      ItemsAreNamedKeys(front, trim, key);
      if Names(front, key) {
        var j :| 0 <= j < |front| && front[j].Set? && front[j].key == key;
        assert ops[j].Set? && ops[j].key == key;
      }
      if ops[i].Set? && ops[i].key == key { assert Names(ops, key); }
      if Names(ops, key) && !(ops[i].Set? && ops[i].key == key) {
        var j :| 0 <= j < |ops| && ops[j].Set? && ops[j].key == key;
        assert front[j].Set? && front[j].key == key;
      }
    }
  }

  /** The item of any key, indexed or not, can be read against the history. */
  lemma {:induction false} RepresentsReadable(s: State, r: Ref, key: Bytes)
    requires Represents(s, r)
    ensures Readable(ItemOf(s, key), s.log, r.history, key)
    ensures ItemOf(s, key).latest == LatestOf(r.history, key)
  {
    assert ItemMatches(ItemOf(s, key), r.history, key, |r.history|, r.start);
    forall i | IsRev(r.history, key, i) && s.log.start < i ensures s.log.Get(i - 1) == Some(r.history[i - 1].value) {
      assert SlotMatches(s.log, r.history, i - 1);
    }
  }

  /** One more write keeps the item of every key in step with the history. */
  lemma {:induction false} ItemsStep(s: State, s': State, h: History, w: Write, start: int, trim: bool)
    requires ItemsMatch(s, h, start)
    requires w.value == NextValue(ItemOf(s, w.key).latest, |h| + 1, w.value.data)
    requires s'.tree == s.tree[w.key := Updated(ItemOf(s, w.key), start, |h| + 1, w.value.data, trim)]
    ensures ItemsMatch(s', h + [w], start)
  {
    forall k ensures ItemMatches(ItemOf(s', k), h + [w], k, |h| + 1, start) {
      var item := ItemOf(s, k);
      assert ItemMatches(item, h, k, |h|, start);
      ItemUnaffected(item, h, w, k, |h|, start);
      if k == w.key {
        TrimKeepsMatch(item, h + [w], k, |h|, start, start);
        var kept := if trim then item.(revisions := Trim(item.revisions, start)) else item;
        PublishKeepsMatch(kept, h + [w], k, |h| + 1, start);
      }
    }
  }

  lemma {:induction false} LogStep(log: OffsetSeq<Value>, h: History, w: Write)
    requires LogMatches(log, h)
    ensures LogMatches(log.Push(PLACEHOLDER).Set(|h|, w.value), h + [w])
  {
    var log' := log.Push(PLACEHOLDER).Set(|h|, w.value);
    forall i | log.start <= i < |h| + 1 ensures SlotMatches(log', h + [w], i) {
      if i < |h| { assert SlotMatches(log, h, i); }
    }
  }

  lemma {:induction false} HistoryStep(h: History, w: Write)
    requires ModsMatch(h) && Derived(h)
    requires w.value == NextValue(LatestOf(h, w.key), |h| + 1, w.value.data)
    requires LatestOf(h, w.key).data.Some? || w.value.data.Some?
    ensures ModsMatch(h + [w]) && Derived(h + [w])
  {
    assert DropLast(h + [w]) == h;
  }

  lemma {:induction false} SetRefines(s: State, r: Ref, key: Bytes, data: Option<Bytes>, req: Option<Required>,
                                      trim: bool)
    requires Represents(s, r)
    ensures Represents(ApplySet(s, key, data, req, trim).0, r.(history := RefSet(r.history, key, data, req).0))
    ensures ApplySet(s, key, data, req, trim).1 == RefSet(r.history, key, data, req).1
  {
    var h := r.history;
    RepresentsReadable(s, r, key);
    var item := ItemOf(s, key);
    var s' := ApplySet(s, key, data, req, trim).0;
    if Allowed(item.latest, data, req) {
      var w := Write(key, NextValue(item.latest, |h| + 1, data));
      HistoryStep(h, w);
      LogStep(s.log, h, w);
      ItemsStep(s, s', h, w, r.start, trim);
    } else {
      assert forall k :: ItemOf(s', k) == ItemOf(s, k);
    }
  }

  lemma {:induction false} CompactRefines(s: State, r: Ref, rev: int)
    requires Represents(s, r)
    ensures Represents(ApplyCompact(s, rev).0, RefStep(r, Compact(rev)).0)
    ensures CompactAnswer(ApplyCompact(s, rev).1) == RefStep(r, Compact(rev)).1
  {
    if r.start < rev <= |r.history| {
      var s' := ApplyCompact(s, rev).0;
      forall key ensures ItemMatches(ItemOf(s', key), r.history, key, |r.history|, rev - 1) {
        assert ItemMatches(ItemOf(s, key), r.history, key, |r.history|, r.start);
      }
      forall i | rev - 1 <= i < |r.history| ensures SlotMatches(s'.log, r.history, i) {
        assert SlotMatches(s.log, r.history, i);
      }
    }
  }

  /** Every run of writes and compactions, with or without trimming, answers as the history
      does and ends in a state that stands for it. */
  lemma {:induction false} RunRefines(ops: seq<Op>, trim: bool)
    ensures Represents(Run(EMPTY, ops, trim).0, RefRun(ops).0)
    ensures Run(EMPTY, ops, trim).1 == RefRun(ops).1
  {
    if ops != [] {
      RunRefines(DropLast(ops), trim);
      var s, r := Run(EMPTY, DropLast(ops), trim).0, RefRun(DropLast(ops)).0;
      match Last(ops)
      case Set(key, data, req) => SetRefines(s, r, key, data, req, trim);
      case Compact(rev) => CompactRefines(s, r, rev);
    }
  }

  /** Reads at any revision of any reachable state, against the history alone. */
  lemma {:induction false} ReadsRefine(ops: seq<Op>, trim: bool, key: Bytes, rev: int)
    requires 0 < rev <= |RefRun(ops).0.history|
    ensures var s, r := Run(EMPTY, ops, trim).0, RefRun(ops).0;
            && Find(ItemOf(s, key), s.log, rev) == Visible(r.history, key, rev, r.start)
            && (Has(ItemOf(s, key), s.log, rev) <==> LiveAt(r, key, rev))
  {
    var s, r := Run(EMPTY, ops, trim).0, RefRun(ops).0;
    RunRefines(ops, trim);
    RepresentsReadable(s, r, key);
    FindIsVisible(ItemOf(s, key), s.log, r.history, key, rev);
    HasAgreesWithFind(ItemOf(s, key), s.log, rev);
  }

  ghost predicate LiveAt(r: Ref, key: Bytes, rev: int)
    requires rev <= |r.history|
  {
    var v := Visible(r.history, key, rev, r.start);
    v.Some? && v.value.data.Some?
  }

  // ---------------------------------------------------------------- compaction is lossy

  /** etcd keeps the value visible at the compaction revision. This store does not: in every run, a
      read above the compacted part finds the value visible there exactly when it was written after
      that part or no later write has superseded it. */
  lemma {:induction false} CompactionKeepsExactly(ops: seq<Op>, trim: bool, key: Bytes, rev: int)
    requires RefRun(ops).0.start < rev <= |RefRun(ops).0.history|
    ensures var s, r := Run(EMPTY, ops, trim).0, RefRun(ops).0;
            Find(ItemOf(s, key), s.log, rev) == Some(ValueOf(r.history, key, rev)) <==>
            LastRev(r.history, key, rev) > r.start || LastRev(r.history, key, |r.history|) <= rev
  {
    var h := RefRun(ops).0.history;
    ReadsRefine(ops, trim, key, rev);
    LastRevMonotone(h, key, rev, |h|);
    LastRevProps(h, key, |h|);
    LastRevProps(h, key, rev);
  }

  /** One key is written twice, another one in between, and the log is compacted at the middle
      revision. The first value was visible there and is gone. */
  function LosingOps(a: Bytes, b: Bytes, bytes: Bytes): seq<Op> {
    [Set(a, Some(bytes), None), Set(b, Some(bytes), None), Set(a, Some(bytes), None), Compact(2)]
  }

  lemma {:induction false} RefRunStep(ops: seq<Op>, op: Op)
    ensures RefRun(ops + [op]).0 == RefStep(RefRun(ops).0, op).0
  {
    assert DropLast(ops + [op]) == ops && Last(ops + [op]) == op;
  }

  lemma {:induction false} PutStep(r: Ref, key: Bytes, bytes: Bytes)
    ensures RefStep(r, Set(key, Some(bytes), None)).0 ==
            r.(history := r.history + [Write(key, NextValue(LatestOf(r.history, key), |r.history| + 1, Some(bytes)))])
  {
  }

  lemma {:induction false} CompactionLoses(a: Bytes, b: Bytes, bytes: Bytes, trim: bool)
    requires a != b
    ensures var s, r := Run(EMPTY, LosingOps(a, b, bytes), trim).0, RefRun(LosingOps(a, b, bytes)).0;
            && r.start == 1 && |r.history| == 3
            && ValueOf(r.history, a, 2).data == Some(bytes)
            && Find(ItemOf(s, a), s.log, 2) == None
  {
    var put: Op := Set(a, Some(bytes), None);
    var other: Op := Set(b, Some(bytes), None);
    var ops := LosingOps(a, b, bytes);
    assert ops == (([] + [put]) + [other] + [put]) + [Compact(2)];
    RefRunStep([], put);
    RefRunStep([] + [put], other);
    RefRunStep([] + [put] + [other], put);
    RefRunStep([] + [put] + [other] + [put], Compact(2));
    var r := RefRun(ops).0;
    PutStep(RefRun([]).0, a, bytes);
    PutStep(RefRun([] + [put]).0, b, bytes);
    PutStep(RefRun([] + [put] + [other]).0, a, bytes);
    assert |r.history| == 3 && r.history[0].key == a && r.history[1].key == b && r.history[2].key == a;
    assert LastRev(r.history, a, 2) == 1 && LastRev(r.history, a, 3) == 3;
    ReadsRefine(ops, trim, a, 2);
  }
}
