/** One watch stream against concurrent writers: registration, the scan of past changes key by
    key, the notify thread and the stream's own loop, as steps that interleave freely. A key is
    created and indexed in two steps. An event is named by its revision. Nothing is compacted and
    the watcher's channel does not fill up. */
module WatchPipeline {
  import opened Common

  /** How far the write that owns a revision has got. From collecting the watchers on, `sees`
      says whether this watcher was among them. */
  datatype Phase =
    | Held                    // pushed onto the log, key still locked
    | Published               // key unlocked
    | Collected(sees: bool)   // job queued for the notify thread
    | Spooled(sees: bool)     // on the thread's heap
    | Sent(sees: bool)

  datatype Slot = Slot(key: Bytes, phase: Phase)

  /** `keys` are the keys that the scan selects, in its order; `live` are those whose writers find the
      watcher. The two selections are made in different ways. The scan goes through those of its
      keys that the prefix index lists when it begins; the others are `missing`. Of these, `caught`
      are the ones that exist already but are not indexed yet. Slot r - 1 belongs to revision r. The
      channel is what has been pushed but not yet taken. A request without a start revision is
      served `fromNow`, without a scan. */
  datatype State = State(
    keys: seq<Bytes>, live: set<Bytes>, start: int,
    created: set<Bytes>, indexed: set<Bytes>, listed: bool, missing: set<Bytes>, caught: set<Bytes>,
    writes: seq<Slot>,
    registered: bool, fromNow: bool, registeredAt: nat, scanned: nat, past: seq<int>,
    nextRev: int, busy: bool, progress: int,
    pushed: seq<int>, taken: nat,
    streaming: bool, delivered: seq<int>, maxRev: int)

  datatype Step =
    | Create(key: Bytes)
    | IndexKey(key: Bytes)
    | Allocate(key: Bytes)
    | Publish(rev: int)
    | Collect(rev: int)
    | Receive(rev: int)
    | Drain
    | Finish
    | Register
    | RegisterNow(current: nat)
    | List
    | Scan
    | StartStream
    | RecvMany(n: nat)

  function Init(keys: seq<Bytes>, live: set<Bytes>, start: int): State {
    State(keys, live, start, {}, {}, false, {}, {}, [], false, false, 0, 0, [], 1, false, 0, [], 0, false, [], 0)
  }

  predicate IsRev(s: State, r: int) {
    1 <= r <= |s.writes|
  }

  function KeyOf(s: State, r: int): Bytes
    requires IsRev(s, r)
  {
    s.writes[r - 1].key
  }

  function PhaseOf(s: State, r: int): Phase
    requires IsRev(s, r)
  {
    s.writes[r - 1].phase
  }

  /** The scan asks for this revision. */
  predicate InScan(s: State, r: int) {
    IsRev(s, r) && KeyOf(s, r) in s.keys && r >= s.start
  }

  /** The writer of this revision finds the watcher once that is registered. */
  predicate IsLive(s: State, r: int) {
    IsRev(s, r) && KeyOf(s, r) in s.live && r >= s.start
  }

  /** The watch asks for this revision, in one way or the other. */
  predicate Watched(s: State, r: int) {
    InScan(s, r) || IsLive(s, r)
  }

  predicate Unlocked(s: State, key: Bytes) {
    forall i | 0 <= i < |s.writes| :: s.writes[i] != Slot(key, Held)
  }

  function Move(s: State, r: int, phase: Phase): State
    requires IsRev(s, r)
  {
    s.(writes := s.writes[r - 1 := s.writes[r - 1].(phase := phase)])
  }

  /** The revisions of `key` from `start` on, in order: what the scan of one item reports. */
  function RevsOf(writes: seq<Slot>, key: Bytes, start: int): seq<int> {
    if writes == [] then []
    else RevsOf(DropLast(writes), key, start)
         + (if Last(writes).key == key && |writes| >= start then [|writes|] else [])
  }

  /** What the scan reports of a key. */
  function ScanOf(s: State, key: Bytes): seq<int> {
    if key in s.missing then [] else RevsOf(s.writes, key, s.start)
  }

  function Retain(batch: seq<int>, max: int): seq<int> {
    if batch == [] then []
    else Retain(DropLast(batch), max) + (if Last(batch) > max then [Last(batch)] else [])
  }

  function LastOr(s: seq<int>, default: int): int {
    if s == [] then default else Last(s)
  }

  function Max(a: int, b: int): int {
    if a >= b then a else b
  }

  function Send(s: State, r: int): State
    requires IsRev(s, r) && PhaseOf(s, r) in {Collected(true), Collected(false), Spooled(true), Spooled(false)}
  {
    var sees := PhaseOf(s, r).sees;
    Move(s, r, Sent(sees)).(pushed := s.pushed + (if sees then [r] else []), nextRev := s.nextRev + 1, busy := true)
  }

  predicate Enabled(s: State, step: Step) {
    match step
    case Create(key) => key !in s.created
    case IndexKey(key) => key in s.created && key !in s.indexed
    case Allocate(key) => key in s.created && Unlocked(s, key)
    case Publish(r) => IsRev(s, r) && PhaseOf(s, r).Held?
    case Collect(r) => IsRev(s, r) && PhaseOf(s, r).Published?
    case Receive(r) => IsRev(s, r) && PhaseOf(s, r).Collected? && !s.busy
    case Drain => s.busy && IsRev(s, s.nextRev) && PhaseOf(s, s.nextRev).Spooled?
    case Finish => s.busy && !(IsRev(s, s.nextRev) && PhaseOf(s, s.nextRev).Spooled?)
    case Register => !s.registered && s.start >= 1
    // The current revision was read a little earlier.
    case RegisterNow(current) => !s.registered && s.start <= 0 && current <= |s.writes|
    case List => s.registered && !s.fromNow && !s.listed
    case Scan =>
      s.listed && s.scanned < |s.keys| && (s.keys[s.scanned] in s.missing || Unlocked(s, s.keys[s.scanned]))
    case StartStream => (s.listed || s.fromNow) && s.scanned == |s.keys| && !s.streaming
    case RecvMany(n) => s.streaming && 1 <= n <= 1000 && s.taken + n <= |s.pushed|
  }

  function Next(s: State, step: Step): State
    requires Enabled(s, step)
  {
    match step
    case Create(key) => s.(created := s.created + {key})
    case IndexKey(key) => s.(indexed := s.indexed + {key})
    case Allocate(key) => s.(writes := s.writes + [Slot(key, Held)])
    case Publish(r) => Move(s, r, Published)
    case Collect(r) => Move(s, r, Collected(s.registered && IsLive(s, r)))
    case Receive(r) => if r > s.nextRev then Move(s, r, Spooled(PhaseOf(s, r).sees)) else Send(s, r)
    case Drain => Send(s, s.nextRev)
    case Finish => s.(progress := s.nextRev - 1, busy := false)
    case Register => s.(registered := true, registeredAt := |s.writes|)
    case RegisterNow(current) =>
      s.(registered := true, registeredAt := |s.writes|, start := current, fromNow := true, scanned := |s.keys|)
    case List =>
      var missing := set key | key in s.keys && key !in s.indexed;
      s.(listed := true, missing := missing, caught := missing * s.created)
    case Scan => s.(past := s.past + ScanOf(s, s.keys[s.scanned]), scanned := s.scanned + 1)
    case StartStream => s.(streaming := true, delivered := s.past, maxRev := LastOr(s.past, 0))
    case RecvMany(n) =>
      var events := Retain(s.pushed[s.taken..s.taken + n], s.maxRev);
      s.(taken := s.taken + n, delivered := s.delivered + events, maxRev := Max(LastOr(events, s.maxRev), s.maxRev))
  }

  predicate ValidRun(s: State, steps: seq<Step>)
    decreases |steps|
  {
    steps == [] || (Enabled(s, steps[0]) && ValidRun(Next(s, steps[0]), steps[1..]))
  }

  function Exec(s: State, steps: seq<Step>): State
    requires ValidRun(s, steps)
    decreases |steps|
  {
    if steps == [] then s else Exec(Next(s, steps[0]), steps[1..])
  }

  // ---------------------------------------------------------------- lists of revisions

  ghost predicate Reports(writes: seq<Slot>, key: Bytes, start: int, r: int) {
    1 <= r <= |writes| && writes[r - 1].key == key && r >= start
  }

  lemma {:induction false} RevsOfMember(writes: seq<Slot>, key: Bytes, start: int, r: int)
    ensures r in RevsOf(writes, key, start) <==> Reports(writes, key, start, r)
  {
    if writes != [] { RevsOfMember(DropLast(writes), key, start, r); }
  }

  lemma {:induction false} RevsOfIncreasing(writes: seq<Slot>, key: Bytes, start: int)
    ensures StrictlyIncreasing(RevsOf(writes, key, start))
  {
    if writes != [] {
      var front := RevsOf(DropLast(writes), key, start);
      RevsOfIncreasing(DropLast(writes), key, start);
      forall r | r in front ensures r < |writes| { RevsOfMember(DropLast(writes), key, start, r); }
      AppendLarger(front, |writes|);
    }
  }

  lemma {:induction false} RevsOfMembers(writes: seq<Slot>, key: Bytes, start: int)
    ensures StrictlyIncreasing(RevsOf(writes, key, start))
    ensures forall r :: r in RevsOf(writes, key, start) <==> Reports(writes, key, start, r)
  {
    RevsOfIncreasing(writes, key, start);
    forall r ensures r in RevsOf(writes, key, start) <==> Reports(writes, key, start, r) {
      RevsOfMember(writes, key, start, r);
    }
  }

  lemma {:induction false} RetainMembers(batch: seq<int>, max: int)
    ensures forall x :: x in Retain(batch, max) <==> x in batch && x > max
    ensures StrictlyIncreasing(batch) ==> StrictlyIncreasing(Retain(batch, max))
  {
    if batch != [] {
      RetainMembers(DropLast(batch), max);
      assert batch == DropLast(batch) + [Last(batch)];
      if StrictlyIncreasing(batch) && Last(batch) > max {
        forall x | x in Retain(DropLast(batch), max) ensures x < Last(batch) { assert x in DropLast(batch); }
        AppendLarger(Retain(DropLast(batch), max), Last(batch));
      }
    }
  }

  lemma {:induction false} RetainConcat(a: seq<int>, b: seq<int>, max: int)
    ensures Retain(a + b, max) == Retain(a, max) + Retain(b, max)
  {
    if b == [] {
      assert a + b == a;
    } else {
      assert DropLast(a + b) == a + DropLast(b) && Last(a + b) == Last(b);
      RetainConcat(a, DropLast(b), max);
    }
  }

  /** Two thresholds that no element of the batch lies between retain the same. */
  lemma {:induction false} RetainSame(batch: seq<int>, low: int, high: int)
    requires forall i | 0 <= i < |batch| :: batch[i] > low <==> batch[i] > high
    ensures Retain(batch, low) == Retain(batch, high)
  {
    if batch != [] {
      RetainSame(DropLast(batch), low, high);
    }
  }

  /** Batch by batch against the newest revision delivered is the same as all at once against
      the threshold that the stream began with. */
  lemma {:induction false} NextBatch(before: seq<int>, batch: seq<int>, low: int)
    requires StrictlyIncreasing(before + batch)
    ensures var max := LastOr(Retain(before, low), low);
            && Retain(before + batch, low) == Retain(before, low) + Retain(batch, max)
            && LastOr(Retain(before + batch, low), low) == Max(LastOr(Retain(batch, max), max), max)
  {
    var max := LastOr(Retain(before, low), low);
    RetainConcat(before, batch, low);
    RetainMembers(before, low);
    assert max != low ==> max in Retain(before, low);
    forall i | 0 <= i < |batch| ensures batch[i] > low <==> batch[i] > max {
      if max != low {
        var k :| 0 <= k < |before| && before[k] == max;
        assert (before + batch)[k] < (before + batch)[|before| + i];
      }
    }
    RetainSame(batch, low, max);
    RetainMembers(batch, max);
    assert Retain(batch, max) != [] ==> Last(Retain(batch, max)) in Retain(batch, max);
  }

  // ---------------------------------------------------------------- the invariant

  ghost predicate Counted(s: State, r: int) {
    IsRev(s, r) ==> (PhaseOf(s, r).Sent? <==> r < s.nextRev)
  }

  ghost predicate ScannedKey(s: State, key: Bytes) {
    exists j :: 0 <= j < s.scanned && j < |s.keys| && s.keys[j] == key
  }

  /** A write of a key that both select, and that did not find the watcher, has been or will be seen
      by the scan. */
  ghost predicate Seen(s: State, r: int) {
    IsRev(s, r) && !PhaseOf(s, r).Held? && !PhaseOf(s, r).Published? ==>
      && (PhaseOf(s, r).sees ==> s.registered && IsLive(s, r))
      && (IsLive(s, r) && s.registered && r > s.registeredAt ==> PhaseOf(s, r).sees)
      && (IsLive(s, r) && !s.fromNow && !PhaseOf(s, r).sees && ScannedKey(s, KeyOf(s, r)) ==>
            r in s.past || KeyOf(s, r) in s.caught)
  }

  /** Only keys that exist are written, and a key that did not exist when the scan began has only
      writes from after the registration. */
  ghost predicate KeyOk(s: State, r: int) {
    IsRev(s, r) ==>
      && KeyOf(s, r) in s.created
      && (KeyOf(s, r) in s.missing && KeyOf(s, r) !in s.caught ==> r > s.registeredAt)
  }

  ghost predicate ListOk(s: State) {
    && s.caught <= s.missing
    && (!s.listed ==> s.missing == {} && (s.scanned == 0 || s.fromNow))
    && (s.listed ==> s.registered)
    && (forall r :: KeyOk(s, r))
  }

  /** A past event was asked for and is complete, and so is every earlier one of its key. */
  ghost predicate PastOk(s: State, e: int) {
    && InScan(s, e) && !PhaseOf(s, e).Held? && ScannedKey(s, KeyOf(s, e)) && KeyOf(s, e) !in s.missing
    && forall r | InScan(s, r) && r < e && KeyOf(s, r) == KeyOf(s, e) :: r in s.past
  }

  ghost predicate ThreadOk(s: State) {
    && 1 <= s.nextRev <= |s.writes| + 1
    && s.progress <= s.nextRev - 1
    && (forall r :: Counted(s, r))
  }

  ghost predicate ScanOk(s: State) {
    && s.scanned <= |s.keys|
    && (!s.registered ==> s.scanned == 0 && !s.fromNow)
    && (s.scanned == 0 || s.fromNow ==> s.past == [])
    && (s.fromNow ==> s.scanned == |s.keys|)
    && s.registeredAt <= |s.writes|
    && (forall r :: Seen(s, r))
    && (forall e | e in s.past :: PastOk(s, e))
    && (forall i, j | 0 <= i < j < |s.past| :: s.past[i] != s.past[j])
    && (|s.keys| <= 1 ==> StrictlyIncreasing(s.past))
  }

  /** The channel has carried exactly the seen revisions that were sent, in order. */
  ghost predicate ChannelOk(s: State) {
    && s.taken <= |s.pushed|
    && StrictlyIncreasing(s.pushed)
    && (forall r :: r in s.pushed <==> IsRev(s, r) && PhaseOf(s, r) == Sent(true))
  }

  ghost predicate StreamOk(s: State)
    requires s.taken <= |s.pushed|
  {
    if !s.streaming then s.delivered == [] && s.taken == 0
    else s.registered && s.scanned == |s.keys| && Streamed(s.past, s.pushed[..s.taken], s.delivered, s.maxRev)
  }

  /** The scan first, then what lies above its last event. */
  ghost predicate Streamed(past: seq<int>, taken: seq<int>, delivered: seq<int>, maxRev: int) {
    var low := LastOr(past, 0);
    delivered == past + Retain(taken, low) && maxRev == LastOr(Retain(taken, low), low)
  }

  ghost predicate Distinct(keys: seq<Bytes>) {
    forall i, j | 0 <= i < j < |keys| :: keys[i] != keys[j]
  }

  ghost predicate Inv(s: State) {
    Distinct(s.keys) && ThreadOk(s) && ListOk(s) && ScanOk(s) && ChannelOk(s) && StreamOk(s)
  }

  /** Steps that only move one write along, none of them to or from Sent. */
  lemma {:induction false} MoveKeepsThread(s: State, r: int, phase: Phase)
    requires ThreadOk(s) && ChannelOk(s) && StreamOk(s) && IsRev(s, r) && !PhaseOf(s, r).Sent? && !phase.Sent?
    ensures ThreadOk(Move(s, r, phase)) && ChannelOk(Move(s, r, phase)) && StreamOk(Move(s, r, phase))
  {
    var s' := Move(s, r, phase);
    forall x ensures Counted(s', x) { assert Counted(s, x); }
  }

  lemma {:induction false} MoveKeepsScan(s: State, r: int, phase: Phase)
    requires ScanOk(s) && IsRev(s, r) && !phase.Held?
    requires Seen(Move(s, r, phase), r)
    ensures ScanOk(Move(s, r, phase))
  {
    var s' := Move(s, r, phase);
    forall x ensures Seen(s', x) { assert Seen(s, x); }
    forall e | e in s'.past ensures PastOk(s', e) { assert PastOk(s, e); }
  }

  lemma {:induction false} MoveKeepsInv(s: State, r: int, phase: Phase)
    requires Inv(s) && IsRev(s, r) && !PhaseOf(s, r).Sent? && !phase.Sent? && !phase.Held?
    requires Seen(Move(s, r, phase), r)
    ensures Inv(Move(s, r, phase))
  {
    MoveKeepsThread(s, r, phase);
    MoveKeepsScan(s, r, phase);
    SameKeys(s, Move(s, r, phase));
  }

  /** Steps that create no key, write none and leave registration and scan where they are. */
  lemma {:induction false} SameKeys(s: State, s': State)
    requires ListOk(s) && s'.created == s.created && s'.listed == s.listed && s'.missing == s.missing
    requires s'.caught == s.caught && s'.registered == s.registered && s'.registeredAt == s.registeredAt
    requires s'.fromNow == s.fromNow && (s.listed || s'.scanned == s.scanned)
    requires |s'.writes| == |s.writes| && forall r | IsRev(s, r) :: KeyOf(s', r) == KeyOf(s, r)
    ensures ListOk(s')
  {
    forall r ensures KeyOk(s', r) { assert KeyOk(s, r); }
  }

  lemma {:induction false} AllocateStep(s: State, key: Bytes)
    requires Inv(s) && Enabled(s, Allocate(key))
    ensures Inv(Next(s, Allocate(key)))
  {
    var s' := Next(s, Allocate(key));
    forall x ensures Counted(s', x) && Seen(s', x) && KeyOk(s', x) {
      assert Counted(s, x) && Seen(s, x) && KeyOk(s, x);
    }
    forall e | e in s'.past ensures PastOk(s', e) { assert PastOk(s, e); }
  }

  /** Creating and indexing a key, and fixing what the scan goes through. */
  lemma {:induction false} KeyStep(s: State, step: Step)
    requires Inv(s) && Enabled(s, step) && (step.Create? || step.IndexKey? || step.List?)
    ensures Inv(Next(s, step))
  {
    var s' := Next(s, step);
    forall x ensures KeyOk(s', x) && Counted(s', x) && Seen(s', x) {
      assert KeyOk(s, x) && Counted(s, x) && Seen(s, x);
    }
    forall e | e in s'.past ensures PastOk(s', e) { assert PastOk(s, e); }
  }

  /** Steps of the notify thread and of the stream that leave the scan alone. */
  lemma {:induction false} ScanUnaffected(s: State, s': State)
    requires ScanOk(s) && s'.keys == s.keys && s'.live == s.live && s'.start == s.start && s'.writes == s.writes
    requires s'.registered == s.registered && s'.fromNow == s.fromNow && s'.registeredAt == s.registeredAt
    requires s'.past == s.past
    requires s'.scanned == s.scanned && s'.missing == s.missing && s'.caught == s.caught
    ensures ScanOk(s')
  {
    forall x ensures Seen(s', x) { assert Seen(s, x); }
    forall e | e in s'.past ensures PastOk(s', e) { assert PastOk(s, e); }
  }

  lemma {:induction false} SendKeepsScan(s: State, r: int)
    requires Inv(s) && r == s.nextRev && IsRev(s, r)
    requires PhaseOf(s, r) in {Collected(true), Collected(false), Spooled(true), Spooled(false)}
    ensures ScanOk(Send(s, r))
  {
    var moved := Move(s, r, Sent(PhaseOf(s, r).sees));
    assert Seen(s, r);
    MoveKeepsScan(s, r, Sent(PhaseOf(s, r).sees));
    ScanUnaffected(moved, Send(s, r));
  }

  lemma {:induction false} SendKeepsChannel(s: State, r: int)
    requires ThreadOk(s) && ChannelOk(s) && StreamOk(s) && r == s.nextRev && IsRev(s, r)
    requires PhaseOf(s, r) in {Collected(true), Collected(false), Spooled(true), Spooled(false)}
    ensures ThreadOk(Send(s, r)) && ChannelOk(Send(s, r)) && StreamOk(Send(s, r))
  {
    var s' := Send(s, r);
    forall x ensures Counted(s', x) { assert Counted(s, x); }
    forall x | x in s.pushed ensures x < r { assert Counted(s, x); }
    AppendLarger(s.pushed, r);
    assert s'.pushed[..s'.taken] == s.pushed[..s.taken];
  }

  lemma {:induction false} SendStep(s: State, r: int)
    requires Inv(s) && r == s.nextRev && IsRev(s, r)
    requires PhaseOf(s, r) in {Collected(true), Collected(false), Spooled(true), Spooled(false)}
    ensures Inv(Send(s, r))
  {
    SendKeepsScan(s, r);
    SendKeepsChannel(s, r);
    SameKeys(s, Send(s, r));
  }

  lemma {:induction false} CollectStep(s: State, r: int)
    requires Inv(s) && Enabled(s, Collect(r))
    ensures Inv(Next(s, Collect(r)))
  {
    MoveKeepsInv(s, r, Collected(s.registered && IsLive(s, r)));
  }

  /** A writer finds the watcher exactly when it looks after the registration, its key is one of the live
      filter's and its revision is not below the watch's start, which without a demand is the
      revision that was current. */
  lemma {:induction false} CollectFindsIff(s: State, r: int)
    requires Enabled(s, Collect(r))
    ensures PhaseOf(Next(s, Collect(r)), r) ==
            Collected(s.registered && s.writes[r - 1].key in s.live && s.start <= r)
    ensures forall current | Enabled(s, RegisterNow(current)) ::
              var t := Next(s, RegisterNow(current)); t.registered && t.start == current && t.live == s.live
    ensures Enabled(s, Register) ==> var t := Next(s, Register); t.registered && t.start == s.start && t.live == s.live
  {
  }

  lemma {:induction false} ReceiveStep(s: State, r: int)
    requires Inv(s) && Enabled(s, Receive(r))
    ensures Inv(Next(s, Receive(r)))
  {
    assert Counted(s, r) && Seen(s, r);
    if r > s.nextRev {
      MoveKeepsInv(s, r, Spooled(PhaseOf(s, r).sees));
    } else {
      SendStep(s, r);
    }
  }

  lemma {:induction false} ScanOfMembers(s: State, key: Bytes)
    ensures StrictlyIncreasing(ScanOf(s, key))
    ensures forall r :: r in ScanOf(s, key) <==> key !in s.missing && Reports(s.writes, key, s.start, r)
  {
    RevsOfMembers(s.writes, key, s.start);
  }

  /** A key that the scan has just passed: its writes are in the past, or found the watcher, or the
      key was caught. */
  lemma {:induction false} ScanSees(s: State, r: int)
    requires Inv(s) && Enabled(s, Scan)
    ensures Seen(Next(s, Scan), r)
  {
    var s', key := Next(s, Scan), s.keys[s.scanned];
    ScanOfMembers(s, key);
    assert forall k :: ScannedKey(s', k) <==> ScannedKey(s, k) || k == key by {
      assert s.keys[s.scanned] == key;
    }
    assert Seen(s, r) && KeyOk(s, r);
  }

  lemma {:induction false} ScanPast(s: State, e: int)
    requires Inv(s) && Enabled(s, Scan) && e in Next(s, Scan).past
    ensures PastOk(Next(s, Scan), e)
  {
    var s', key := Next(s, Scan), s.keys[s.scanned];
    ScanOfMembers(s, key);
    assert s'.keys[s.scanned] == key;
    if e in s.past { assert PastOk(s, e); } else { assert s.writes[e - 1] != Slot(key, Held); }
  }

  lemma {:induction false} ScanStep(s: State)
    requires Inv(s) && Enabled(s, Scan)
    ensures Inv(Next(s, Scan))
  {
    var s', key := Next(s, Scan), s.keys[s.scanned];
    ScanOfMembers(s, key);
    forall i, j | 0 <= i < |s.past| && 0 <= j < |ScanOf(s, key)| ensures s.past[i] != ScanOf(s, key)[j] {
      assert PastOk(s, s.past[i]) && ScanOf(s, key)[j] in ScanOf(s, key);
    }
    forall x ensures Seen(s', x) { ScanSees(s, x); }
    forall x ensures Counted(s', x) { assert Counted(s, x); }
    forall e | e in s'.past ensures PastOk(s', e) { ScanPast(s, e); }
    SameKeys(s, s');
  }

  lemma {:induction false} StreamedNext(past: seq<int>, before: seq<int>, batch: seq<int>, delivered: seq<int>,
                                        max: int)
    requires Streamed(past, before, delivered, max) && StrictlyIncreasing(before + batch)
    ensures Streamed(past, before + batch, delivered + Retain(batch, max), Max(LastOr(Retain(batch, max), max), max))
  {
    var low := LastOr(past, 0);
    NextBatch(before, batch, low);
    ConcatAssoc(past, Retain(before, low), Retain(batch, max));
  }

  lemma {:induction false} RecvStream(s: State, n: nat)
    requires ChannelOk(s) && StreamOk(s) && Enabled(s, RecvMany(n))
    ensures StreamOk(Next(s, RecvMany(n)))
  {
    var before, batch := s.pushed[..s.taken], s.pushed[s.taken..s.taken + n];
    assert s.pushed[..s.taken + n] == before + batch;
    StreamedNext(s.past, before, batch, s.delivered, s.maxRev);
  }

  lemma {:induction false} RecvStep(s: State, n: nat)
    requires Inv(s) && Enabled(s, RecvMany(n))
    ensures Inv(Next(s, RecvMany(n)))
  {
    RecvStream(s, n);
    SameView(s, Next(s, RecvMany(n)));
  }

  lemma {:induction false} StepKeepsInv(s: State, step: Step)
    requires Inv(s) && Enabled(s, step)
    ensures Inv(Next(s, step))
  {
    match step
    case Create(_) => KeyStep(s, step);
    case IndexKey(_) => KeyStep(s, step);
    case List => KeyStep(s, step);
    case Allocate(key) => AllocateStep(s, key);
    case Publish(r) => MoveKeepsInv(s, r, Published);
    case Collect(r) => CollectStep(s, r);
    case Receive(r) => ReceiveStep(s, r);
    case Drain => SendStep(s, s.nextRev);
    case Scan => ScanStep(s);
    case RecvMany(n) => RecvStep(s, n);
    case Finish => SameView(s, Next(s, step));
    case Register => RegisterStep(s, step);
    case RegisterNow(_) => RegisterStep(s, step);
    case StartStream => SameView(s, Next(s, step));
  }

  lemma {:induction false} RegisterStep(s: State, step: Step)
    requires Inv(s) && Enabled(s, step) && (step.Register? || step.RegisterNow?)
    ensures Inv(Next(s, step))
  {
    var s' := Next(s, step);
    forall x ensures Counted(s', x) && Seen(s', x) && KeyOk(s', x) {
      assert Counted(s, x) && Seen(s, x) && KeyOk(s, x);
    }
  }

  lemma {:induction false} SameView(s: State, s': State)
    requires Inv(s) && s'.writes == s.writes && s'.keys == s.keys && s'.live == s.live && s'.start == s.start
    requires s'.past == s.past && s'.scanned == s.scanned && s'.nextRev == s.nextRev
    requires s'.registered == s.registered && s'.registeredAt == s.registeredAt && s'.fromNow == s.fromNow
    requires s'.created == s.created && s'.listed == s.listed && s'.missing == s.missing && s'.caught == s.caught
    ensures ListOk(s')
    ensures (forall x :: Counted(s', x) && Seen(s', x)) && (forall e | e in s'.past :: PastOk(s', e))
  {
    forall x ensures Counted(s', x) && Seen(s', x) { assert Counted(s, x) && Seen(s, x); }
    forall e | e in s'.past ensures PastOk(s', e) { assert PastOk(s, e); }
    SameKeys(s, s');
  }

  lemma {:induction false} RunKeepsInv(s: State, steps: seq<Step>)
    requires Inv(s) && ValidRun(s, steps)
    ensures Inv(Exec(s, steps))
    decreases |steps|
  {
    if steps != [] {
      StepKeepsInv(s, steps[0]);
      RunKeepsInv(Next(s, steps[0]), steps[1..]);
    }
  }

  // ---------------------------------------------------------------- emptying the channel

  /** Full batches as long as there is enough, and then the rest. */
  function Batches(waiting: nat): seq<Step> {
    if waiting == 0 then []
    else if waiting <= 1000 then [RecvMany(waiting)]
    else [RecvMany(1000)] + Batches(waiting - 1000)
  }

  predicate OnlyReads(steps: seq<Step>) {
    forall i | 0 <= i < |steps| :: steps[i].RecvMany?
  }

  /** What waits in the channel can be sent in one batch per thousand events, the last one perhaps smaller. */
  lemma {:induction false} EmptiesChannel(s: State)
    requires s.streaming && s.taken <= |s.pushed|
    ensures var steps := Batches(|s.pushed| - s.taken);
            && OnlyReads(steps) && 1000 * |steps| < |s.pushed| - s.taken + 1000
            && ValidRun(s, steps) && Exec(s, steps).taken == |s.pushed|
    decreases |s.pushed| - s.taken
  {
    var waiting := |s.pushed| - s.taken;
    if waiting > 1000 {
      var step, steps := RecvMany(1000), Batches(waiting - 1000);
      EmptiesChannel(Next(s, step));
      assert Batches(waiting)[1..] == steps;
    } else if waiting > 0 {
      assert [RecvMany(waiting)][1..] == [];
      assert ValidRun(Next(s, RecvMany(waiting)), []);
    }
  }

  /** And it takes that many: no batch has more. */
  lemma {:induction false} BatchesAreBounded(s: State, steps: seq<Step>)
    requires ValidRun(s, steps) && OnlyReads(steps)
    ensures Exec(s, steps).taken <= s.taken + 1000 * |steps|
    ensures Exec(s, steps).pushed == s.pushed
    decreases |steps|
  {
    if steps != [] {
      assert steps[0].RecvMany?;
      BatchesAreBounded(Next(s, steps[0]), steps[1..]);
    }
  }
}
