/** The past changes of one key that a new watch reports (`watch`), and why the lazy trimming
    of version lists never shows. */
module ItemHistory {
  import opened Common
  import opened OffsetSequence
  import opened Mvcc
  import opened StoreModel
  import opened BlockDeques

  datatype KeyValue = KeyValue(key: Bytes, value: Bytes, createRevision: int, modRevision: int, version: int)

  /** A deletion shows as an empty value with create revision and version 0. */
  function AsKeyValue(v: Value, key: Bytes): KeyValue {
    match v.data
    case None => KeyValue(key, [], 0, v.modRevision, 0)
    case Some(bytes) => KeyValue(key, bytes, v.createRevision, v.modRevision, v.version)
  }

  datatype Event = Event(kv: KeyValue, prev: Option<KeyValue>)

  /** What a client is to see of a value: its own key and revision, and for a live value the data,
      create revision and version as they were written. */
  ghost predicate Shows(kv: KeyValue, key: Bytes, v: Value) {
    && kv.key == key
    && kv.modRevision == v.modRevision
    && kv.value == (if v.data.Some? then v.data.value else [])
    && kv.createRevision == (if v.data.Some? then v.createRevision else 0)
    && kv.version == (if v.data.Some? then v.version else 0)
  }

  /** Position of the first revision that the scan looks at. */
  function ScanStart(revs: seq<int>, startRev: int, wantPrev: bool): (pos: nat)
    ensures pos <= |revs|
  {
    var pos := BinarySearch(revs, startRev).pos;
    if pos > 0 && wantPrev then pos - 1 else pos
  }

  /** What the walk reports for one revision, given the value it saw before. */
  function Report(slot: Option<Value>, key: Bytes, rev: int, startRev: int, prev: Option<KeyValue>): seq<Event> {
    if slot.Some? && rev >= startRev then [Event(AsKeyValue(slot.value, key), prev)] else []
  }

  function Carried(slot: Option<Value>, key: Bytes, wantPrev: bool): Option<KeyValue> {
    if slot.Some? && wantPrev then Some(AsKeyValue(slot.value, key)) else None
  }

  function ScanFrom(revs: seq<int>, log: OffsetSeq<Value>, key: Bytes, startRev: int, wantPrev: bool,
                    i: nat, prev: Option<KeyValue>): seq<Event>
    requires i <= |revs|
    decreases |revs| - i
  {
    if i == |revs| then []
    else
      var slot := log.Get(revs[i] - 1);
      Report(slot, key, revs[i], startRev, prev)
      + ScanFrom(revs, log, key, startRev, wantPrev, i + 1, Carried(slot, key, wantPrev))
  }

  function ScanItem(item: TreeItem, log: OffsetSeq<Value>, key: Bytes, startRev: int, wantPrev: bool): seq<Event> {
    ScanFrom(item.revisions, log, key, startRev, wantPrev, ScanStart(item.revisions, startRev, wantPrev), None)
  }

  /** The loop stands at position i: what it has, followed by the rest of the walk, is everything. */
  ghost predicate LoopAt(all: seq<Event>, done: seq<Event>, revs: seq<int>, log: OffsetSeq<Value>, key: Bytes,
                         startRev: int, wantPrev: bool, i: nat, prev: Option<KeyValue>)
  {
    i <= |revs| && all == done + ScanFrom(revs, log, key, startRev, wantPrev, i, prev)
  }

  /** One turn of the loop. */
  lemma {:induction false} ScanTurn(all: seq<Event>, done: seq<Event>, revs: seq<int>, log: OffsetSeq<Value>,
                                    key: Bytes, startRev: int, wantPrev: bool, i: nat, prev: Option<KeyValue>)
    requires i < |revs| && LoopAt(all, done, revs, log, key, startRev, wantPrev, i, prev)
    ensures var slot := log.Get(revs[i] - 1);
            LoopAt(all, done + Report(slot, key, revs[i], startRev, prev), revs, log, key, startRev, wantPrev, i + 1,
                   Carried(slot, key, wantPrev))
  {
    var slot := log.Get(revs[i] - 1);
    ConcatAssoc(done, Report(slot, key, revs[i], startRev, prev),
                ScanFrom(revs, log, key, startRev, wantPrev, i + 1, Carried(slot, key, wantPrev)));
  }

  lemma {:induction false} ScanBegins(item: TreeItem, log: OffsetSeq<Value>, key: Bytes, startRev: int, wantPrev: bool)
    ensures LoopAt(ScanItem(item, log, key, startRev, wantPrev), [], item.revisions, log, key, startRev, wantPrev,
                   ScanStart(item.revisions, startRev, wantPrev), None)
  {
  }

  lemma {:induction false} ScanEnds(all: seq<Event>, done: seq<Event>, revs: seq<int>, log: OffsetSeq<Value>,
                                    key: Bytes, startRev: int, wantPrev: bool, prev: Option<KeyValue>)
    requires LoopAt(all, done, revs, log, key, startRev, wantPrev, |revs|, prev)
    ensures done == all
  {
  }

  /** The body of the loop: what one revision adds, and what it leaves for the next. */
  method ScanRevision(rev: int, log: BlockDeque<Value>, key: Bytes, startRev: int, wantPrev: bool,
                      prev: Option<KeyValue>) returns (report: seq<Event>, next: Option<KeyValue>)
    requires log.Valid() && rev >= 1
    ensures report == Report(log.Model().Get(rev - 1), key, rev, startRev, prev)
    ensures next == Carried(log.Model().Get(rev - 1), key, wantPrev)
  {
    var slot := log.Get(rev - 1);
    report, next := [], None;
    if slot.Some? {
      if rev >= startRev {
        report := [Event(AsKeyValue(slot.value, key), prev)];
      }
      if wantPrev {
        next := Some(AsKeyValue(slot.value, key));
      }
    }
  }

  /** The loop of the source, reading the log block by block. */
  method ScanItemLoop(item: TreeItem, log: BlockDeque<Value>, key: Bytes, startRev: int, wantPrev: bool)
    returns (events: seq<Event>)
    requires log.Valid() && forall r | r in item.revisions :: r >= 1
    ensures events == ScanItem(item, log.Model(), key, startRev, wantPrev)
  {
    var revs := item.revisions;
    ghost var values := log.Model();
    ghost var all := ScanItem(item, values, key, startRev, wantPrev);
    var prev: Option<KeyValue> := None;
    var i := ScanStart(revs, startRev, wantPrev);
    events := [];
    ScanBegins(item, values, key, startRev, wantPrev);
    while i < |revs|
      invariant i <= |revs| && LoopAt(all, events, revs, values, key, startRev, wantPrev, i, prev)
    {
      assert revs[i] in revs;
      ScanTurn(all, events, revs, values, key, startRev, wantPrev, i, prev);
      var report, next := ScanRevision(revs[i], log, key, startRev, wantPrev, prev);
      events, prev, i := events + report, next, i + 1;
    }
    ScanEnds(all, events, revs, values, key, startRev, wantPrev, prev);
  }

  // ---------------------------------------------------------------- the reference

  /** The write of `key` before revision `rev`, unless it is compacted. */
  ghost function PrevShown(h: History, key: Bytes, rev: int, start: int, wantPrev: bool): Option<KeyValue>
    requires 1 <= rev <= |h| + 1
  {
    if wantPrev && LastRev(h, key, rev - 1) > start then Some(AsKeyValue(ValueOf(h, key, rev - 1), key)) else None
  }

  /** The revisions of `key` from..hi, in order. */
  ghost function RevsWithin(h: History, key: Bytes, from: int, hi: int): seq<int>
    requires hi <= |h|
    decreases hi
  {
    if hi < from || hi <= 0 then []
    else RevsWithin(h, key, from, hi - 1) + (if h[hi - 1].key == key then [hi] else [])
  }

  lemma {:induction false} RevsWithinMember(h: History, key: Bytes, from: int, hi: int, r: int)
    requires 1 <= from && hi <= |h|
    ensures r in RevsWithin(h, key, from, hi) <==> IsRev(h, key, r) && from <= r <= hi
    decreases hi
  {
    if from <= hi { RevsWithinMember(h, key, from, hi - 1, r); }
  }

  lemma {:induction false} RevsWithinIncreasing(h: History, key: Bytes, from: int, hi: int)
    requires 1 <= from && hi <= |h|
    ensures StrictlyIncreasing(RevsWithin(h, key, from, hi))
    decreases hi
  {
    if from <= hi {
      var front := RevsWithin(h, key, from, hi - 1);
      RevsWithinIncreasing(h, key, from, hi - 1);
      forall r | r in front ensures r < hi { RevsWithinMember(h, key, from, hi - 1, r); }
      AppendLarger(front, hi);
    }
  }

  lemma {:induction false} RevsWithinFirst(h: History, key: Bytes, from: int, hi: int)
    requires 1 <= from <= hi <= |h|
    ensures var rest := RevsWithin(h, key, from + 1, hi);
            RevsWithin(h, key, from, hi) == if IsRev(h, key, from) then [from] + rest else rest
    decreases hi
  {
    if from < hi {
      RevsWithinFirst(h, key, from, hi - 1);
      ConcatAssoc([from], RevsWithin(h, key, from + 1, hi - 1), if h[hi - 1].key == key then [hi] else []);
    } else {
      assert RevsWithin(h, key, from, hi - 1) == [] && [] + [from] == [from] + [];
    }
  }

  /** The revisions of `key` from `rev` on, in order. */
  ghost function KeyRevs(h: History, key: Bytes, rev: int): seq<int> {
    RevsWithin(h, key, rev, |h|)
  }

  lemma {:induction false} KeyRevsMember(h: History, key: Bytes, rev: int, r: int)
    requires 1 <= rev
    ensures r in KeyRevs(h, key, rev) <==> IsRev(h, key, r) && rev <= r
  {
    RevsWithinMember(h, key, rev, |h|, r);
  }

  lemma {:induction false} KeyRevsIncreasing(h: History, key: Bytes, rev: int)
    requires 1 <= rev
    ensures StrictlyIncreasing(KeyRevs(h, key, rev))
  {
    RevsWithinIncreasing(h, key, rev, |h|);
  }

  /** What the write at a revision shows as. */
  ghost function WriteEvent(h: History, key: Bytes, rev: int, start: int, wantPrev: bool): Event {
    if 1 <= rev <= |h| then Event(AsKeyValue(h[rev - 1].value, key), PrevShown(h, key, rev, start, wantPrev))
    else Event(AsKeyValue(NO_VALUE, key), None)
  }

  /** Everything that happened to `key` from revision `rev` on, read off the history. */
  ghost function KeyEvents(h: History, key: Bytes, rev: int, start: int, wantPrev: bool): seq<Event>
    requires 1 <= rev
  {
    var revs := KeyRevs(h, key, rev);
    seq(|revs|, i requires 0 <= i < |revs| => WriteEvent(h, key, revs[i], start, wantPrev))
  }

  lemma {:induction false} KeyEventsFirst(h: History, key: Bytes, rev: int, start: int, wantPrev: bool)
    requires 1 <= rev <= |h|
    ensures var rest := KeyEvents(h, key, rev + 1, start, wantPrev);
            KeyEvents(h, key, rev, start, wantPrev) ==
              if IsRev(h, key, rev) then [WriteEvent(h, key, rev, start, wantPrev)] + rest else rest
  {
    RevsWithinFirst(h, key, rev, |h|);
  }

  /** The event is one of the key's writes, and carries the write before it exactly when that is asked
      for and not compacted. */
  ghost predicate EventShows(e: Event, h: History, key: Bytes, start: int, wantPrev: bool) {
    var r := e.kv.modRevision;
    && IsRev(h, key, r) && Shows(e.kv, key, h[r - 1].value)
    && (e.prev.Some? <==> wantPrev && LastRev(h, key, r - 1) > start)
    && (e.prev.Some? ==> Shows(e.prev.value, key, ValueOf(h, key, r - 1)))
  }

  ghost predicate HasEventOf(events: seq<Event>, r: int) {
    exists i :: 0 <= i < |events| && events[i].kv.modRevision == r
  }

  ghost predicate EachShows(events: seq<Event>, h: History, key: Bytes, start: int, wantPrev: bool) {
    forall i | 0 <= i < |events| :: EventShows(events[i], h, key, start, wantPrev)
  }

  ghost predicate InOrderFrom(events: seq<Event>, rev: int) {
    && (forall i | 0 <= i < |events| :: events[i].kv.modRevision >= rev)
    && (forall i, j | 0 <= i < j < |events| :: events[i].kv.modRevision < events[j].kv.modRevision)
  }

  ghost predicate NoneMissing(events: seq<Event>, h: History, key: Bytes, rev: int) {
    forall r | IsRev(h, key, r) && r >= rev :: HasEventOf(events, r)
  }

  /** Exactly the writes of the key from revision `rev` on, each once and in order. */
  ghost predicate TellsWrites(events: seq<Event>, h: History, key: Bytes, rev: int, start: int, wantPrev: bool) {
    EachShows(events, h, key, start, wantPrev) && InOrderFrom(events, rev) && NoneMissing(events, h, key, rev)
  }

  /** The event of one write. */
  lemma {:induction false} WriteShows(h: History, key: Bytes, rev: int, start: int, wantPrev: bool)
    requires ModsMatch(h) && IsRev(h, key, rev)
    ensures EventShows(WriteEvent(h, key, rev, start, wantPrev), h, key, start, wantPrev)
    ensures WriteEvent(h, key, rev, start, wantPrev).kv.modRevision == rev
  {
  }

  /** The i-th event is that of the i-th revision. */
  lemma {:induction false} EventAt(h: History, key: Bytes, rev: int, start: int, wantPrev: bool, i: nat)
    requires 1 <= rev && ModsMatch(h) && i < |KeyRevs(h, key, rev)|
    ensures var e := KeyEvents(h, key, rev, start, wantPrev)[i];
            && e.kv.modRevision == KeyRevs(h, key, rev)[i] >= rev
            && EventShows(e, h, key, start, wantPrev)
  {
    var r := KeyRevs(h, key, rev)[i];
    assert r in KeyRevs(h, key, rev);
    KeyRevsMember(h, key, rev, r);
    WriteShows(h, key, r, start, wantPrev);
  }

  lemma {:induction false} EventOf(h: History, key: Bytes, rev: int, start: int, wantPrev: bool, r: int)
    requires 1 <= rev <= r && ModsMatch(h) && IsRev(h, key, r)
    ensures HasEventOf(KeyEvents(h, key, rev, start, wantPrev), r)
  {
    KeyRevsMember(h, key, rev, r);
    var i :| 0 <= i < |KeyRevs(h, key, rev)| && KeyRevs(h, key, rev)[i] == r;
    EventAt(h, key, rev, start, wantPrev, i);
  }

  lemma {:induction false} KeyEventsTell(h: History, key: Bytes, rev: int, start: int, wantPrev: bool)
    requires 1 <= rev && ModsMatch(h)
    ensures TellsWrites(KeyEvents(h, key, rev, start, wantPrev), h, key, rev, start, wantPrev)
  {
    var events, revs := KeyEvents(h, key, rev, start, wantPrev), KeyRevs(h, key, rev);
    KeyRevsIncreasing(h, key, rev);
    forall i | 0 <= i < |events|
      ensures EventShows(events[i], h, key, start, wantPrev) && events[i].kv.modRevision == revs[i] >= rev
    {
      EventAt(h, key, rev, start, wantPrev, i);
    }
    forall r | IsRev(h, key, r) && r >= rev ensures HasEventOf(events, r) {
      EventOf(h, key, rev, start, wantPrev, r);
    }
  }

  /** Positions from i on hold exactly the revisions of `key` from `rev` on. */
  ghost predicate Aligned(revs: seq<int>, h: History, key: Bytes, i: nat, rev: int) {
    && i <= |revs|
    && (forall j | 0 <= j < |revs| :: IsRev(h, key, revs[j]))
    && (forall j | 0 <= j < i :: revs[j] < rev)
    && (forall j | i <= j < |revs| :: rev <= revs[j])
    && (forall r | IsRev(h, key, r) && rev <= r :: r in revs)
  }

  /** When the walk is at the position of `rev`, either that revision is next or it is not one
      of the key's. */
  lemma {:induction false} AlignedStep(revs: seq<int>, h: History, key: Bytes, i: nat, rev: int)
    requires Aligned(revs, h, key, i, rev) && StrictlyIncreasing(revs) && 1 <= rev <= |h|
    ensures IsRev(h, key, rev) ==> i < |revs| && revs[i] == rev && Aligned(revs, h, key, i + 1, rev + 1)
    ensures !IsRev(h, key, rev) ==> Aligned(revs, h, key, i, rev + 1)
  {
    if IsRev(h, key, rev) {
      var p :| 0 <= p < |revs| && revs[p] == rev;
    }
  }

  lemma {:induction false} PrevShownStep(h: History, key: Bytes, rev: int, start: int, wantPrev: bool)
    requires start < rev && 1 <= rev <= |h|
    ensures PrevShown(h, key, rev + 1, start, wantPrev) ==
            if !IsRev(h, key, rev) then PrevShown(h, key, rev, start, wantPrev)
            else if wantPrev then Some(AsKeyValue(h[rev - 1].value, key)) else None
  {
    LastRevProps(h, key, rev - 1);
  }

  /** One step of the walk at a revision of the key. */
  lemma {:induction false} WalkStep(revs: seq<int>, log: OffsetSeq<Value>, h: History, key: Bytes,
                                    startRev: int, wantPrev: bool, i: nat, rev: int)
    requires LogHolds(log, h, key) && log.start < startRev <= rev && IsRev(h, key, rev)
    requires i < |revs| && revs[i] == rev
    ensures ScanFrom(revs, log, key, startRev, wantPrev, i, PrevShown(h, key, rev, log.start, wantPrev)) ==
            [WriteEvent(h, key, rev, log.start, wantPrev)]
            + ScanFrom(revs, log, key, startRev, wantPrev, i + 1, PrevShown(h, key, rev + 1, log.start, wantPrev))
  {
    PrevShownStep(h, key, rev, log.start, wantPrev);
    assert log.Get(rev - 1) == Some(h[rev - 1].value);
  }

  /** What the walk from position i reports, when it has seen the write before `rev`. */
  ghost predicate Walks(revs: seq<int>, log: OffsetSeq<Value>, h: History, key: Bytes,
                        startRev: int, wantPrev: bool, i: nat, rev: int)
    requires i <= |revs| && 1 <= rev <= |h| + 1
  {
    ScanFrom(revs, log, key, startRev, wantPrev, i, PrevShown(h, key, rev, log.start, wantPrev))
    == KeyEvents(h, key, rev, log.start, wantPrev)
  }

  lemma {:induction false} WalkHit(revs: seq<int>, log: OffsetSeq<Value>, h: History, key: Bytes,
                                   startRev: int, wantPrev: bool, i: nat, rev: int)
    requires LogHolds(log, h, key) && log.start < startRev <= rev && IsRev(h, key, rev)
    requires i < |revs| && revs[i] == rev && Walks(revs, log, h, key, startRev, wantPrev, i + 1, rev + 1)
    ensures Walks(revs, log, h, key, startRev, wantPrev, i, rev)
  {
    WalkStep(revs, log, h, key, startRev, wantPrev, i, rev);
    KeyEventsFirst(h, key, rev, log.start, wantPrev);
  }

  lemma {:induction false} WalkMiss(revs: seq<int>, log: OffsetSeq<Value>, h: History, key: Bytes,
                                    startRev: int, wantPrev: bool, i: nat, rev: int)
    requires log.start < rev && i <= |revs| && 1 <= rev <= |h| && !IsRev(h, key, rev)
    requires Walks(revs, log, h, key, startRev, wantPrev, i, rev + 1)
    ensures Walks(revs, log, h, key, startRev, wantPrev, i, rev)
  {
    PrevShownStep(h, key, rev, log.start, wantPrev);
    KeyEventsFirst(h, key, rev, log.start, wantPrev);
  }

  lemma {:induction false} WalkEnd(revs: seq<int>, log: OffsetSeq<Value>, h: History, key: Bytes,
                                   startRev: int, wantPrev: bool, i: nat)
    requires Aligned(revs, h, key, i, |h| + 1)
    ensures Walks(revs, log, h, key, startRev, wantPrev, i, |h| + 1)
  {
    if i < |revs| { AlignedBound(revs, h, key, i, |h| + 1, i); }
  }

  lemma {:induction false} AlignedBound(revs: seq<int>, h: History, key: Bytes, i: nat, rev: int, j: nat)
    requires Aligned(revs, h, key, i, rev) && i <= j < |revs|
    ensures rev <= revs[j] <= |h|
  {
    assert IsRev(h, key, revs[j]);
  }

  /** The walk from a position at or after startRev. */
  lemma {:induction false} ScanFromExact(revs: seq<int>, log: OffsetSeq<Value>, h: History, key: Bytes,
                                         startRev: int, wantPrev: bool, i: nat, rev: int)
    requires LogHolds(log, h, key) && StrictlyIncreasing(revs)
    requires log.start < startRev <= rev <= |h| + 1 && Aligned(revs, h, key, i, rev)
    ensures Walks(revs, log, h, key, startRev, wantPrev, i, rev)
    decreases |h| - rev
  {
    if rev > |h| {
      WalkEnd(revs, log, h, key, startRev, wantPrev, i);
    } else {
      AlignedStep(revs, h, key, i, rev);
      if IsRev(h, key, rev) {
        ScanFromExact(revs, log, h, key, startRev, wantPrev, i + 1, rev + 1);
        WalkHit(revs, log, h, key, startRev, wantPrev, i, rev);
      } else {
        ScanFromExact(revs, log, h, key, startRev, wantPrev, i, rev + 1);
        WalkMiss(revs, log, h, key, startRev, wantPrev, i, rev);
      }
    }
  }

  /** The first element, when the scan starts one back to build the previous value. */
  lemma {:induction false} ScanWarmUp(item: TreeItem, log: OffsetSeq<Value>, h: History, key: Bytes,
                                      startRev: int, i: nat)
    requires Readable(item, log, h, key) && log.start < startRev <= |h| + 1
    requires 0 < i <= |item.revisions| && item.revisions[i - 1] < startRev
    requires Aligned(item.revisions, h, key, i, startRev)
    ensures ScanFrom(item.revisions, log, key, startRev, true, i - 1, None)
         == ScanFrom(item.revisions, log, key, startRev, true, i, PrevShown(h, key, startRev, log.start, true))
  {
    var p := item.revisions[i - 1];
    assert p in item.revisions;
    assert IsRev(h, key, p);
    LastRevProps(h, key, startRev - 1);
    LastRevIsLast(h, key, startRev - 1, p);
    var last := LastRev(h, key, startRev - 1);
    if last > log.start {
      assert last in item.revisions;
    }
  }

  lemma {:induction false} SearchAligns(item: TreeItem, h: History, key: Bytes, startRev: int,
                                        start: nat) returns (i: nat)
    requires ItemMatches(item, h, key, |h|, start) && start < startRev <= |h| + 1
    ensures i == BinarySearch(item.revisions, startRev).pos
    ensures Aligned(item.revisions, h, key, i, startRev)
    ensures i == 0 ==> LastRev(h, key, startRev - 1) <= start
  {
    var revs := item.revisions;
    i := BinarySearch(revs, startRev).pos;
    forall j | 0 <= j < |revs| ensures IsRev(h, key, revs[j]) {
      assert revs[j] in revs;
    }
    LastRevProps(h, key, startRev - 1);
  }

  lemma {:induction false} ScanNothing(revs: seq<int>, log: OffsetSeq<Value>, key: Bytes, startRev: int, wantPrev: bool,
                                       i: nat, prev: Option<KeyValue>)
    requires i <= |revs| && forall j | 0 <= j < |revs| :: revs[j] < startRev
    ensures ScanFrom(revs, log, key, startRev, wantPrev, i, prev) == []
    decreases |revs| - i
  {
    if i < |revs| {
      ScanNothing(revs, log, key, startRev, wantPrev, i + 1, Carried(log.Get(revs[i] - 1), key, wantPrev));
    }
  }

  lemma {:induction false} ScanIsKeyEvents(item: TreeItem, log: OffsetSeq<Value>, h: History, key: Bytes,
                                           startRev: int, wantPrev: bool)
    requires Readable(item, log, h, key) && log.start < startRev
    ensures ScanItem(item, log, key, startRev, wantPrev) == KeyEvents(h, key, startRev, log.start, wantPrev)
  {
    if startRev <= |h| + 1 {
      var i := SearchAligns(item, h, key, startRev, log.start);
      ScanFromExact(item.revisions, log, h, key, startRev, wantPrev, i, startRev);
      if i > 0 && wantPrev { ScanWarmUp(item, log, h, key, startRev, i); }
    } else {
      forall j | 0 <= j < |item.revisions| ensures item.revisions[j] < startRev {
        assert item.revisions[j] in item.revisions;
      }
      ScanNothing(item.revisions, log, key, startRev, wantPrev, ScanStart(item.revisions, startRev, wantPrev), None);
    }
  }

  /** The scan of one key reports exactly its writes from startRev on, in order, each with
      the write before it unless that one is compacted. */
  lemma {:induction false} ScanItemExact(item: TreeItem, log: OffsetSeq<Value>, h: History, key: Bytes,
                                         startRev: int, wantPrev: bool)
    requires Readable(item, log, h, key) && log.start < startRev
    ensures ScanItem(item, log, key, startRev, wantPrev) == KeyEvents(h, key, startRev, log.start, wantPrev)
    ensures TellsWrites(ScanItem(item, log, key, startRev, wantPrev), h, key, startRev, log.start, wantPrev)
  {
    ScanIsKeyEvents(item, log, h, key, startRev, wantPrev);
    KeyEventsTell(h, key, startRev, log.start, wantPrev);
  }

  // ---------------------------------------------------------------- trimming is invisible

  /** A store that drops compacted revisions inside every write and one that never does give
      the same answer to every operation of every run, and afterwards to every lookup and
      every watch at an admissible revision. */
  lemma {:induction false} TrimmingIsInvisible(ops: seq<Op>, key: Bytes, rev: int, wantPrev: bool)
    requires RefRun(ops).0.start < rev <= |RefRun(ops).0.history|
    ensures Run(EMPTY, ops, true).1 == Run(EMPTY, ops, false).1
    ensures var a, b := Run(EMPTY, ops, true).0, Run(EMPTY, ops, false).0;
            && a.log == b.log
            && Find(ItemOf(a, key), a.log, rev) == Find(ItemOf(b, key), b.log, rev)
            && Has(ItemOf(a, key), a.log, rev) == Has(ItemOf(b, key), b.log, rev)
            && ScanItem(ItemOf(a, key), a.log, key, rev, wantPrev) ==
                    ScanItem(ItemOf(b, key), b.log, key, rev, wantPrev)
  {
    var r := RefRun(ops).0;
    forall trim: bool
      ensures Run(EMPTY, ops, trim).1 == RefRun(ops).1
      ensures LogMatches(Run(EMPTY, ops, trim).0.log, r.history) && Run(EMPTY, ops, trim).0.log.start == r.start
      ensures var s := Run(EMPTY, ops, trim).0;
              && ScanItem(ItemOf(s, key), s.log, key, rev, wantPrev) ==
                      KeyEvents(r.history, key, rev, r.start, wantPrev)
              && Find(ItemOf(s, key), s.log, rev) == Visible(r.history, key, rev, r.start)
              && (Has(ItemOf(s, key), s.log, rev) <==> LiveAt(r, key, rev))
    {
      var s := Run(EMPTY, ops, trim).0;
      RunRefines(ops, trim);
      RepresentsReadable(s, r, key);
      ScanIsKeyEvents(ItemOf(s, key), s.log, r.history, key, rev, wantPrev);
      ReadsRefine(ops, trim, key, rev);
    }
    SameLog(Run(EMPTY, ops, true).0.log, Run(EMPTY, ops, false).0.log, r.history);
  }

  lemma {:induction false} SameLog(a: OffsetSeq<Value>, b: OffsetSeq<Value>, h: History)
    requires LogMatches(a, h) && LogMatches(b, h) && a.start == b.start
    ensures a == b
  {
    forall i | 0 <= i < |a.items| ensures a.items[i] == b.items[i] {
      assert SlotMatches(a, h, a.start + i) && SlotMatches(b, h, a.start + i);
    }
  }
}
