/** What a watch stream delivers, over every interleaving. */
module WatchDelivery {
  import opened Common
  import opened WatchPipeline

  /** The writers are done, the notify thread has sent everything and the stream has read it. */
  ghost predicate Quiet(s: State) {
    s.streaming && s.taken == |s.pushed| && s.nextRev == |s.writes| + 1
  }

  ghost predicate ExactlyOnce(s: State) {
    forall r :: multiset(s.delivered)[r] == if Watched(s, r) then 1 else 0
  }

  lemma {:induction false} Reachable(keys: seq<Bytes>, live: set<Bytes>, start: int, steps: seq<Step>)
    requires Distinct(keys) && ValidRun(Init(keys, live, start), steps)
    ensures Inv(Exec(Init(keys, live, start), steps))
    ensures Exec(Init(keys, live, start), steps).keys == keys && Exec(Init(keys, live, start), steps).live == live
    ensures var s := Exec(Init(keys, live, start), steps); start >= 1 ==> s.start == start && !s.fromNow
  {
    RunKeepsInv(Init(keys, live, start), steps);
    SameWatch(Init(keys, live, start), steps);
  }

  lemma {:induction false} SameWatch(s: State, steps: seq<Step>)
    requires ValidRun(s, steps)
    ensures Exec(s, steps).keys == s.keys && Exec(s, steps).live == s.live
    ensures s.start >= 1 && !s.fromNow ==> Exec(s, steps).start == s.start && !Exec(s, steps).fromNow
    decreases |steps|
  {
    if steps != [] {
      SameWatchStep(s, steps[0]);
      SameWatch(Next(s, steps[0]), steps[1..]);
    }
  }

  lemma {:induction false} SameWatchStep(s: State, step: Step)
    requires Enabled(s, step)
    ensures Next(s, step).keys == s.keys && Next(s, step).live == s.live
    ensures step.RegisterNow? || (Next(s, step).start == s.start && Next(s, step).fromNow == s.fromNow)
    ensures step.RegisterNow? || step.Register? || Next(s, step).registered == s.registered
  {
    match step
    case Create(_) =>
    case IndexKey(_) =>
    case Allocate(_) =>
    case Publish(_) =>
    case Collect(_) =>
    case Receive(_) =>
    case Drain =>
    case Finish =>
    case Register =>
    case RegisterNow(_) =>
    case List =>
    case Scan =>
    case StartStream =>
    case RecvMany(_) =>
  }

  // ---------------------------------------------------------------- any number of keys

  lemma {:induction false} DistinctCount(a: seq<int>, x: int)
    requires forall i, j | 0 <= i < j < |a| :: a[i] != a[j]
    ensures multiset(a)[x] == if x in a then 1 else 0
  {
    if a != [] {
      DistinctCount(DropLast(a), x);
      assert a == DropLast(a) + [Last(a)];
      forall i | 0 <= i < |a| - 1 ensures DropLast(a)[i] != Last(a) { assert a[i] != a[|a| - 1]; }
    }
  }

  /** Scan and live filter both select the key, and the scan did not catch it half created. */
  predicate Covered(s: State, key: Bytes) {
    key in s.keys && key in s.live && key !in s.caught
  }

  /** Every watched write is in the past scan or finds the watcher, or both, unless its key is not
      covered. The stream delivers the scan, and then of the live events those above the last event
      of the scan. */
  lemma {:induction false} DeliveryCount(s: State, r: int)
    requires Inv(s) && Quiet(s)
    ensures Watched(s, r) && !s.fromNow ==>
              r in s.past || PhaseOf(s, r) == Sent(true) || (PhaseOf(s, r) == Sent(false) && !Covered(s, KeyOf(s, r)))
    ensures multiset(s.delivered)[r] ==
            (if r in s.past then 1 else 0)
            + (if IsLive(s, r) && PhaseOf(s, r) == Sent(true) && r > LastOr(s.past, 0) then 1 else 0)
  {
    var low := LastOr(s.past, 0);
    assert s.pushed[..s.taken] == s.pushed;
    var live := Retain(s.pushed, low);
    RetainMembers(s.pushed, low);
    DistinctCount(s.past, r);
    DistinctCount(live, r);
    assert Counted(s, r) && Seen(s, r);
    if InScan(s, r) {
      var j :| 0 <= j < |s.keys| && s.keys[j] == KeyOf(s, r);
      assert ScannedKey(s, KeyOf(s, r));
    }
  }

  /** Which writes a watch loses, and which it repeats. */
  lemma {:induction false} LostAndRepeated(s: State, r: int)
    requires Inv(s) && Quiet(s) && Watched(s, r) && !s.fromNow
    ensures r !in s.delivered <==>
              r !in s.past && (r <= LastOr(s.past, 0) || (!Covered(s, KeyOf(s, r)) && PhaseOf(s, r) == Sent(false)))
    ensures multiset(s.delivered)[r] == 2 <==> r in s.past && PhaseOf(s, r) == Sent(true) && r > LastOr(s.past, 0)
  {
    DeliveryCount(s, r);
    assert Seen(s, r);
    assert r in s.delivered <==> multiset(s.delivered)[r] > 0;
  }

  // ---------------------------------------------------------------- one key

  /** A request for one key: scan and live filter both select just that. */
  predicate OneKey(s: State, key: Bytes) {
    s.keys == [key] && s.live == {key}
  }

  lemma {:induction false} HasMember(a: seq<int>) returns (x: int)
    requires a != []
    ensures x in a
  {
    x := a[0];
  }

  lemma {:induction false} ClosedIsPrefix(a: seq<int>, b: seq<int>)
    requires StrictlyIncreasing(a) && StrictlyIncreasing(b)
    requires forall x | x in a :: x in b
    requires forall x, y | x in b && y in a && x < y :: x in a
    ensures a <= b
  {
    if b == [] {
      if a != [] { var x := HasMember(a); }
    } else if Last(b) in a {
      forall x ensures x in a <==> x in b { LastIsLargest(b, x); }
      SameIncreasing(a, b);
    } else {
      var c := DropLast(b);
      forall x | x in a ensures x in c { LastIsLargest(b, x); }
      forall x, y | x in c && y in a && x < y ensures x in a { LastIsLargest(b, x); }
      ClosedIsPrefix(a, c);
    }
  }

  /** With one key, the scan and the channel overlap but leave no gap: an event not in the scan
      is newer than everything in it. */
  lemma {:induction false} NoGap(s: State, key: Bytes, r: int)
    requires Inv(s) && OneKey(s, key) && !s.fromNow && s.streaming && Watched(s, r) && key !in s.caught
    ensures r in s.past <==> r <= LastOr(s.past, 0)
    ensures r !in s.past && r < s.nextRev ==> r in s.pushed
  {
    assert Counted(s, r) && Seen(s, r) && s.keys[0] == key && ScannedKey(s, key);
    if s.past != [] {
      var last := Last(s.past);
      assert last in s.past;
      assert PastOk(s, last);
      LastIsLargest(s.past, r);
    }
  }

  lemma {:induction false} DeliveredInOrder(s: State, key: Bytes)
    requires Inv(s) && OneKey(s, key)
    ensures StrictlyIncreasing(s.delivered) && forall x | x in s.delivered :: Watched(s, x)
  {
    if s.streaming {
      var low, taken := LastOr(s.past, 0), s.pushed[..s.taken];
      RetainMembers(taken, low);
      forall x | x in taken ensures Watched(s, x) { assert x in s.pushed && Seen(s, x); }
      forall x | x in s.past ensures Watched(s, x) && x <= low { assert PastOk(s, x); LastIsLargest(s.past, x); }
      Joined(s.past, Retain(taken, low), low);
    }
  }

  lemma {:induction false} Joined(a: seq<int>, b: seq<int>, low: int)
    requires StrictlyIncreasing(a) && StrictlyIncreasing(b)
    requires (forall x | x in a :: x <= low) && (forall x | x in b :: x > low)
    ensures StrictlyIncreasing(a + b)
  {
    forall i | 0 <= i < |a| ensures a[i] <= low { assert a[i] in a; }
    forall i | 0 <= i < |b| ensures b[i] > low { assert b[i] in b; }
  }

  /** What precedes a delivered event has been delivered. */
  lemma {:induction false} DeliveredClosed(s: State, key: Bytes, r: int, e: int)
    requires Inv(s) && OneKey(s, key) && !s.fromNow && key !in s.caught
    requires Watched(s, r) && e in s.delivered && r < e
    ensures r in s.delivered
  {
    var low, taken := LastOr(s.past, 0), s.pushed[..s.taken];
    RetainMembers(taken, low);
    NoGap(s, key, r);
    if r !in s.past {
      if e in s.past { assert PastOk(s, e); LastIsLargest(s.past, e); }
      assert e in taken && e in s.pushed && Counted(s, e);
      var i :| 0 <= i < |taken| && taken[i] == e;
      var k :| 0 <= k < |s.pushed| && s.pushed[k] == r;
      assert s.pushed[i] == e && k < i && taken[k] == r;
    }
  }

  lemma {:induction false} NoGapAtRest(s: State, key: Bytes, r: int)
    requires Inv(s) && OneKey(s, key) && !s.fromNow && Quiet(s)
    ensures Watched(s, r) && key !in s.caught ==> r in s.delivered
  {
    if Watched(s, r) && key !in s.caught {
      NoGap(s, key, r);
      assert s.pushed[..s.taken] == s.pushed;
      RetainMembers(s.pushed, LastOr(s.past, 0));
    }
  }

  /** A watch on one key, from any start revision and under every interleaving in which the key is
      not caught between creation and indexing when the scan begins: at every moment the stream has
      delivered the first so many writes of the key from the start revision on, in order and once
      each; when all is quiet, it has delivered all of them. */
  lemma {:induction false} SingleKeyExactlyOnce(key: Bytes, start: int, steps: seq<Step>)
    requires start >= 1 && ValidRun(Init([key], {key}, start), steps)
    requires key !in Exec(Init([key], {key}, start), steps).caught
    ensures var s := Exec(Init([key], {key}, start), steps);
            && s.delivered <= RevsOf(s.writes, key, start)
            && (Quiet(s) ==> s.delivered == RevsOf(s.writes, key, start))
  {
    var s := Exec(Init([key], {key}, start), steps);
    Reachable([key], {key}, start, steps);
    var all := RevsOf(s.writes, key, start);
    RevsOfMembers(s.writes, key, start);
    forall x ensures x in all <==> Watched(s, x) { }
    DeliveredInOrder(s, key);
    forall x, y | x in all && y in s.delivered && x < y ensures x in s.delivered { DeliveredClosed(s, key, x, y); }
    ClosedIsPrefix(s.delivered, all);
    if Quiet(s) {
      forall x ensures x in all <==> x in s.delivered {
        DeliveryCount(s, x);
        NoGapAtRest(s, key, x);
      }
      SameIncreasing(s.delivered, all);
    }
  }

  lemma {:induction false} CaughtHasNoPast(s: State, key: Bytes)
    requires Inv(s) && OneKey(s, key) && key in s.caught
    ensures s.past == []
  {
    forall e | e in s.past ensures PastOk(s, e) && KeyOf(s, e) != key { }
    if s.past != [] { var e := HasMember(s.past); }
  }

  /** A caught key is not scanned: what its watch delivers is what found the watcher. */
  lemma {:induction false} CaughtDelivers(s: State, key: Bytes, r: int)
    requires Inv(s) && OneKey(s, key) && key in s.caught && !s.fromNow && Quiet(s)
    ensures r in s.delivered <==> Watched(s, r) && PhaseOf(s, r) == Sent(true)
  {
    CaughtHasNoPast(s, key);
    assert s.pushed[..s.taken] == s.pushed;
    RetainMembers(s.pushed, 0);
    assert Counted(s, r) && Seen(s, r);
    assert [] + Retain(s.pushed, 0) == Retain(s.pushed, 0);
  }

  /** Exactly when a watch on one key is right at rest: unless the scan began while the key was
      created but not indexed, and a write of it had looked for watchers before this one came. */
  lemma {:induction false} SingleKeyExactIff(key: Bytes, start: int, steps: seq<Step>)
    requires start >= 1 && ValidRun(Init([key], {key}, start), steps) && Quiet(Exec(Init([key], {key}, start), steps))
    ensures var s := Exec(Init([key], {key}, start), steps);
            s.delivered == RevsOf(s.writes, key, start) <==>
            key !in s.caught || forall r | Watched(s, r) :: PhaseOf(s, r) == Sent(true)
  {
    var s := Exec(Init([key], {key}, start), steps);
    Reachable([key], {key}, start, steps);
    if key !in s.caught {
      SingleKeyExactlyOnce(key, start, steps);
    } else {
      var all := RevsOf(s.writes, key, start);
      RevsOfMembers(s.writes, key, start);
      DeliveredInOrder(s, key);
      forall x ensures x in all <==> Watched(s, x)
               ensures x in s.delivered <==> Watched(s, x) && PhaseOf(s, x) == Sent(true)
      {
        CaughtDelivers(s, key, x);
      }
      if forall r | Watched(s, r) :: PhaseOf(s, r) == Sent(true) { SameIncreasing(s.delivered, all); }
    }
  }

  // ---------------------------------------------------------------- without a start revision

  lemma {:induction false} RetainAll(batch: seq<int>, low: int)
    requires forall i | 0 <= i < |batch| :: batch[i] > low
    ensures Retain(batch, low) == batch
  {
    if batch != [] {
      RetainAll(DropLast(batch), low);
      assert batch == DropLast(batch) + [Last(batch)];
    }
  }

  lemma {:induction false} NowIsFromNow(s: State, steps: seq<Step>)
    requires ValidRun(s, steps) && (s.fromNow || (!s.registered && s.start <= 0))
    ensures Exec(s, steps).registered ==> Exec(s, steps).fromNow
    decreases |steps|
  {
    if steps != [] {
      NowStep(s, steps[0]);
      NowIsFromNow(Next(s, steps[0]), steps[1..]);
    }
  }

  lemma {:induction false} NowStep(s: State, step: Step)
    requires Enabled(s, step) && (s.fromNow || (!s.registered && s.start <= 0))
    ensures Next(s, step).fromNow || (!Next(s, step).registered && Next(s, step).start <= 0)
  {
    SameWatchStep(s, step);
  }

  lemma {:induction false} PushedIsLive(s: State, i: nat)
    requires Inv(s) && i < |s.pushed|
    ensures IsLive(s, s.pushed[i])
  {
    assert s.pushed[i] in s.pushed;
    assert Seen(s, s.pushed[i]);
  }

  lemma {:induction false} FromNowDelivers(s: State)
    requires Inv(s) && (s.registered ==> s.fromNow)
    ensures s.delivered == s.pushed[..s.taken]
  {
    forall i | 0 <= i < s.taken ensures s.pushed[i] > 0 { PushedIsLive(s, i); }
    RetainAll(s.pushed[..s.taken], 0);
  }

  lemma {:induction false} FromNowComplete(s: State, r: int)
    requires Inv(s) && Quiet(s) && s.delivered == s.pushed[..s.taken]
    ensures r in s.delivered <==> IsLive(s, r) && PhaseOf(s, r) == Sent(true)
    ensures IsLive(s, r) && r > s.registeredAt ==> r in s.delivered
  {
    assert s.pushed[..s.taken] == s.pushed;
    assert Counted(s, r) && Seen(s, r);
  }

  /** A watch that names no start revision, on any number of keys and under every interleaving. At
      every moment it has delivered what it has read from its channel, in increasing order and
      without repetition; these are writes that the live filter selects. At rest it has delivered
      exactly those that found it registered, and among them every one allocated afterwards. */
  lemma {:induction false} FromNowExactlyOnce(keys: seq<Bytes>, live: set<Bytes>, start: int, steps: seq<Step>)
    requires Distinct(keys) && start <= 0 && ValidRun(Init(keys, live, start), steps)
    ensures var s := Exec(Init(keys, live, start), steps);
            && StrictlyIncreasing(s.delivered) && s.delivered <= s.pushed
            && (forall i | 0 <= i < |s.delivered| :: IsLive(s, s.delivered[i]))
            && (Quiet(s) ==> forall r :: r in s.delivered <==> IsLive(s, r) && PhaseOf(s, r) == Sent(true))
            && (Quiet(s) ==> forall r | IsLive(s, r) && r > s.registeredAt :: r in s.delivered)
  {
    var s := Exec(Init(keys, live, start), steps);
    Reachable(keys, live, start, steps);
    NowIsFromNow(Init(keys, live, start), steps);
    FromNowDelivers(s);
    forall i | 0 <= i < |s.delivered| ensures IsLive(s, s.delivered[i]) { PushedIsLive(s, i); }
    if Quiet(s) {
      forall r ensures r in s.delivered <==> IsLive(s, r) && PhaseOf(s, r) == Sent(true)
               ensures IsLive(s, r) && r > s.registeredAt ==> r in s.delivered
      {
        FromNowComplete(s, r);
      }
    }
  }

  // ---------------------------------------------------------------- more than one key

  lemma {:induction false} RunConcat(s: State, a: seq<Step>, b: seq<Step>)
    requires ValidRun(s, a) && ValidRun(Exec(s, a), b)
    ensures ValidRun(s, a + b) && Exec(s, a + b) == Exec(Exec(s, a), b)
    decreases |a|
  {
    if a == [] {
      assert a + b == b;
    } else {
      assert (a + b)[0] == a[0] && (a + b)[1..] == a[1..] + b;
      RunConcat(Next(s, a[0]), a[1..], b);
    }
  }

  lemma {:induction false} Extend(s: State, steps: seq<Step>, step: Step)
    requires ValidRun(s, steps) && Enabled(Exec(s, steps), step)
    ensures ValidRun(s, steps + [step]) && Exec(s, steps + [step]) == Next(Exec(s, steps), step)
  {
    var t := Exec(s, steps);
    assert [step][1..] == [] && ValidRun(t, [step]);
    RunConcat(s, steps, [step]);
  }

  ghost predicate Unwritten(s: State, key: Bytes) {
    forall i | 0 <= i < |s.writes| :: s.writes[i].key != key
  }

  lemma {:induction false} NoRevs(writes: seq<Slot>, key: Bytes, start: int)
    requires forall i | 0 <= i < |writes| :: writes[i].key != key
    ensures RevsOf(writes, key, start) == []
  {
    if writes != [] { NoRevs(DropLast(writes), key, start); }
  }

  lemma {:induction false} ScanUnwritten(s: State)
    requires s.listed && s.scanned < |s.keys| && Unwritten(s, s.keys[s.scanned])
    ensures Enabled(s, Scan) && Next(s, Scan) == s.(scanned := s.scanned + 1)
  {
    NoRevs(s.writes, s.keys[s.scanned], s.start);
    assert s.past + [] == s.past;
  }

  /** The rest of the scan when none of the remaining keys has been written. */
  lemma {:induction false} ScanRest(s: State) returns (steps: seq<Step>)
    requires s.listed && s.scanned <= |s.keys|
    requires forall j | s.scanned <= j < |s.keys| :: Unwritten(s, s.keys[j])
    ensures ValidRun(s, steps) && Exec(s, steps) == s.(scanned := |s.keys|)
    decreases |s.keys| - s.scanned
  {
    if s.scanned == |s.keys| {
      steps := [];
    } else {
      ScanUnwritten(s);
      var t := Next(s, Scan);
      forall j | t.scanned <= j < |t.keys| ensures Unwritten(t, t.keys[j]) { assert Unwritten(s, s.keys[j]); }
      var rest := ScanRest(t);
      steps := [Scan] + rest;
      assert steps[1..] == rest;
    }
  }

  /** What the scan finds for either of two keys that were written once each. */
  lemma {:induction false} TwoWrites(a: Slot, b: Slot)
    requires a.key != b.key
    ensures RevsOf([a, b], a.key, 1) == [1] && RevsOf([a, b], b.key, 1) == [2]
  {
    assert DropLast([a, b]) == [a] && DropLast([a]) == [];
    assert RevsOf([a], a.key, 1) == [1] && RevsOf([a], b.key, 1) == [];
  }

  /** The first two keys exist and are indexed. */
  function Ready(keys: seq<Bytes>, live: set<Bytes>): State
    requires |keys| >= 2
  {
    Init(keys, live, 1).(created := {keys[0], keys[1]}, indexed := {keys[0], keys[1]})
  }

  function Others(keys: seq<Bytes>): set<Bytes>
    requires |keys| >= 2
  {
    set key | key in keys && key !in {keys[0], keys[1]}
  }

  lemma {:induction false} IndexTwo(keys: seq<Bytes>, live: set<Bytes>) returns (steps: seq<Step>)
    requires Distinct(keys) && |keys| >= 2
    ensures ValidRun(Init(keys, live, 1), steps) && Exec(Init(keys, live, 1), steps) == Ready(keys, live)
  {
    var s0 := Init(keys, live, 1);
    assert keys[0] != keys[1];
    steps := [];
    Extend(s0, steps, Create(keys[0]));
    steps := steps + [Create(keys[0])];
    Extend(s0, steps, IndexKey(keys[0]));
    steps := steps + [IndexKey(keys[0])];
    Extend(s0, steps, Create(keys[1]));
    steps := steps + [Create(keys[1])];
    Extend(s0, steps, IndexKey(keys[1]));
    steps := steps + [IndexKey(keys[1])];
    assert {} + {keys[0]} + {keys[1]} == {keys[0], keys[1]};
  }

  /** The scan begins: it will go through the two keys and nothing is caught. */
  lemma {:induction false} ListTwo(s: State)
    requires |s.keys| >= 2 && s.created == s.indexed == {s.keys[0], s.keys[1]}
    requires s.registered && !s.fromNow && !s.listed
    ensures Enabled(s, List) && Next(s, List) == s.(listed := true, missing := Others(s.keys), caught := {})
  {
    assert Others(s.keys) * s.created == {};
  }

  /** Both keys are written; the notify thread has not yet been told. */
  lemma {:induction false} WriteTwo(s: State, a: Bytes, b: Bytes) returns (steps: seq<Step>)
    requires s.writes == [] && a != b && a in s.created && b in s.created
    ensures ValidRun(s, steps)
    ensures Exec(s, steps) == s.(writes := [Slot(a, Published), Slot(b, Published)])
  {
    steps := PublishOne(s, a);
    var second := PublishOne(Exec(s, steps), b);
    RunConcat(s, steps, second);
    steps := steps + second;
  }

  lemma {:induction false} PublishOne(s: State, key: Bytes) returns (steps: seq<Step>)
    requires key in s.created && Unlocked(s, key)
    ensures ValidRun(s, steps) && forall i | 0 <= i < |steps| :: !steps[i].RecvMany?
    ensures Exec(s, steps) == s.(writes := s.writes + [Slot(key, Published)])
  {
    var rev := |s.writes| + 1;
    steps := [];
    Extend(s, steps, Allocate(key));
    steps := steps + [Allocate(key)];
    Extend(s, steps, Publish(rev));
    steps := steps + [Publish(rev)];
    assert Exec(s, steps) == s.(writes := s.writes + [Slot(key, Published)]);
  }

  lemma {:induction false} RegisterAndList(keys: seq<Bytes>, live: set<Bytes>) returns (steps: seq<Step>)
    requires Distinct(keys) && |keys| >= 2
    ensures ValidRun(Init(keys, live, 1), steps)
    ensures Exec(Init(keys, live, 1), steps) ==
            Ready(keys, live).(registered := true, listed := true, missing := Others(keys))
  {
    var s0 := Init(keys, live, 1);
    steps := IndexTwo(keys, live);
    Extend(s0, steps, Register);
    steps := steps + [Register];
    ListTwo(Exec(s0, steps));
    Extend(s0, steps, List);
    steps := steps + [List];
  }

  /** The first key is written just after its scan and the second just before its own: the scan
      holds revision 2 only, and revision 1 arrives live below it and is dropped. */
  lemma {:induction false} LosesBefore(keys: seq<Bytes>, live: set<Bytes>) returns (steps: seq<Step>)
    requires Distinct(keys) && |keys| >= 2
    ensures ValidRun(Init(keys, live, 1), steps)
    ensures Exec(Init(keys, live, 1), steps) ==
            Ready(keys, live).(registered := true, listed := true, missing := Others(keys), scanned := 2, past := [2],
                         writes := [Slot(keys[0], Published), Slot(keys[1], Published)])
  {
    var s0 := Init(keys, live, 1);
    assert keys[0] != keys[1];
    steps := RegisterAndList(keys, live);
    ScanUnwritten(Exec(s0, steps));
    Extend(s0, steps, Scan);
    steps := steps + [Scan];
    var writes := WriteTwo(Exec(s0, steps), keys[0], keys[1]);
    RunConcat(s0, steps, writes);
    steps := steps + writes;
    TwoWrites(Slot(keys[0], Published), Slot(keys[1], Published));
    Extend(s0, steps, Scan);
    steps := steps + [Scan];
  }

  /** Two collected writes pass through the notify thread. */
  lemma {:induction false} SendBoth(s: State) returns (steps: seq<Step>)
    requires |s.writes| == 2 && s.writes[0].phase.Collected? && s.writes[1].phase.Collected?
    requires s.nextRev == 1 && !s.busy && s.pushed == []
    ensures ValidRun(s, steps)
    ensures var x, y := s.writes[0].phase.sees, s.writes[1].phase.sees;
            Exec(s, steps) == s.(writes := [s.writes[0].(phase := Sent(x)), s.writes[1].(phase := Sent(y))],
                                 pushed := (if x then [1] else []) + (if y then [2] else []),
                                 nextRev := 3, busy := true, progress := 1)
  {
    steps := [];
    Extend(s, steps, Receive(1));
    steps := steps + [Receive(1)];
    Extend(s, steps, Finish);
    steps := steps + [Finish];
    Extend(s, steps, Receive(2));
    steps := steps + [Receive(2)];
  }

  lemma {:induction false} OthersUnwritten(s: State)
    requires Distinct(s.keys) && |s.keys| >= 2 && s.scanned == 2
    requires forall i | 0 <= i < |s.writes| :: s.writes[i].key in [s.keys[0], s.keys[1]]
    ensures forall j | 2 <= j < |s.keys| :: Unwritten(s, s.keys[j])
  {
  }

  /** The stream starts, and then both writers look for watchers. */
  lemma {:induction false} StartThenCollect(s: State) returns (steps: seq<Step>)
    requires |s.keys| >= 2 && s.start == 1 && s.registered && s.listed && s.scanned == |s.keys| && !s.streaming
    requires s.keys[0] in s.live && s.keys[1] in s.live
    requires s.writes == [Slot(s.keys[0], Published), Slot(s.keys[1], Published)]
    ensures ValidRun(s, steps)
    ensures Exec(s, steps) == s.(writes := [Slot(s.keys[0], Collected(true)), Slot(s.keys[1], Collected(true))],
                                 streaming := true, delivered := s.past, maxRev := LastOr(s.past, 0))
  {
    steps := [];
    Extend(s, steps, StartStream);
    steps := steps + [StartStream];
    Extend(s, steps, Collect(1));
    steps := steps + [Collect(1)];
    Extend(s, steps, Collect(2));
    steps := steps + [Collect(2)];
  }

  lemma {:induction false} DropBoth(s: State)
    requires s.streaming && s.taken == 0 && s.pushed == [1, 2] && s.maxRev == 2 && s.delivered == [2]
    ensures Enabled(s, RecvMany(2)) && Next(s, RecvMany(2)) == s.(taken := 2)
  {
    assert s.pushed[0..2] == [1, 2];
    assert DropLast([1, 2]) == [1] && DropLast([1]) == [];
    assert Retain([1], 2) == [] && Retain([1, 2], 2) == [];
    assert s.delivered + [] == s.delivered;
  }

  /** From both scans on, to the end. */
  lemma {:induction false} LosesAfter(s: State) returns (steps: seq<Step>)
    requires |s.keys| >= 2 && s.start == 1 && s.keys[0] in s.live && s.keys[1] in s.live
    requires s == Ready(s.keys, s.live).(registered := true, listed := true, missing := Others(s.keys),
                                 scanned := |s.keys|, past := [2],
                                 writes := [Slot(s.keys[0], Published), Slot(s.keys[1], Published)])
    ensures ValidRun(s, steps) && Quiet(Exec(s, steps))
    ensures Watched(Exec(s, steps), 1) && Exec(s, steps).delivered == [2] && Exec(s, steps).caught == {}
  {
    steps := StartThenCollect(s);
    var more := SendBoth(Exec(s, steps));
    RunConcat(s, steps, more);
    steps := steps + more;
    DropBoth(Exec(s, steps));
    Extend(s, steps, RecvMany(2));
    steps := steps + [RecvMany(2)];
  }

  lemma {:induction false} RangeWatchLoses(keys: seq<Bytes>, live: set<Bytes>) returns (steps: seq<Step>)
    requires Distinct(keys) && |keys| >= 2 && keys[0] in live && keys[1] in live
    ensures ValidRun(Init(keys, live, 1), steps) && Quiet(Exec(Init(keys, live, 1), steps))
    ensures var s := Exec(Init(keys, live, 1), steps); s.caught == {} && Watched(s, 1) && 1 !in s.delivered
  {
    var s0 := Init(keys, live, 1);
    steps := LosesBefore(keys, live);
    OthersUnwritten(Exec(s0, steps));
    var scans := ScanRest(Exec(s0, steps));
    RunConcat(s0, steps, scans);
    steps := steps + scans;
    var rest := LosesAfter(Exec(s0, steps));
    RunConcat(s0, steps, rest);
    steps := steps + rest;
  }

  /** One write, up to queueing its job. */
  lemma {:induction false} WriteOne(s: State, key: Bytes) returns (steps: seq<Step>)
    requires key in s.created && Unlocked(s, key) && s.start <= |s.writes| + 1
    ensures ValidRun(s, steps) && forall i | 0 <= i < |steps| :: !steps[i].RecvMany?
    ensures Exec(s, steps) == s.(writes := s.writes + [Slot(key, Collected(s.registered && key in s.live))])
  {
    var rev := |s.writes| + 1;
    steps := PublishOne(s, key);
    Extend(s, steps, Collect(rev));
    steps := steps + [Collect(rev)];
  }

  /** The second key is written before the watch registers, the first one after: the scan, in key
      order, ends with revision 1, and revision 2 is delivered from the scan and again live. */
  lemma {:induction false} RepeatsBefore(keys: seq<Bytes>, live: set<Bytes>) returns (steps: seq<Step>)
    requires Distinct(keys) && |keys| >= 2 && keys[0] in live && keys[1] in live
    ensures ValidRun(Init(keys, live, 1), steps)
    ensures Exec(Init(keys, live, 1), steps) ==
            Ready(keys, live).(registered := true, registeredAt := 1, listed := true, missing := Others(keys),
                         scanned := 2, past := [2, 1],
                         writes := [Slot(keys[1], Collected(false)), Slot(keys[0], Collected(true))])
  {
    var s0 := Init(keys, live, 1);
    assert keys[0] != keys[1];
    steps := WriteAround(keys, live);
    ListTwo(Exec(s0, steps));
    Extend(s0, steps, List);
    steps := steps + [List];
    var scans := ScanBoth(Exec(s0, steps));
    RunConcat(s0, steps, scans);
    steps := steps + scans;
  }

  lemma {:induction false} WriteAround(keys: seq<Bytes>, live: set<Bytes>) returns (steps: seq<Step>)
    requires Distinct(keys) && |keys| >= 2 && keys[0] in live && keys[1] in live
    ensures ValidRun(Init(keys, live, 1), steps)
    ensures Exec(Init(keys, live, 1), steps) ==
            Ready(keys, live).(registered := true, registeredAt := 1,
                         writes := [Slot(keys[1], Collected(false)), Slot(keys[0], Collected(true))])
  {
    var s0 := Init(keys, live, 1);
    assert keys[0] != keys[1];
    steps := IndexTwo(keys, live);
    var first := WriteOne(Ready(keys, live), keys[1]);
    RunConcat(s0, steps, first);
    steps := steps + first;
    Extend(s0, steps, Register);
    steps := steps + [Register];
    var second := WriteOne(Exec(s0, steps), keys[0]);
    RunConcat(s0, steps, second);
    steps := steps + second;
  }

  lemma {:induction false} ScanBoth(s: State) returns (steps: seq<Step>)
    requires |s.keys| >= 2 && s.keys[0] != s.keys[1] && s.listed && s.scanned == 0 && s.past == [] && s.start == 1
    requires s.keys[0] !in s.missing && s.keys[1] !in s.missing
    requires s.writes == [Slot(s.keys[1], Collected(false)), Slot(s.keys[0], Collected(true))]
    ensures ValidRun(s, steps) && Exec(s, steps) == s.(scanned := 2, past := [2, 1])
  {
    TwoWrites(s.writes[0], s.writes[1]);
    steps := [];
    ScanOne(s, [2]);
    Extend(s, steps, Scan);
    steps := steps + [Scan];
    ScanOne(Exec(s, steps), [1]);
    Extend(s, steps, Scan);
    steps := steps + [Scan];
    assert [] + [2] + [1] == [2, 1];
  }

  lemma {:induction false} ScanOne(s: State, revs: seq<int>)
    requires s.listed && s.scanned < |s.keys| && s.keys[s.scanned] !in s.missing
    requires forall i | 0 <= i < |s.writes| :: !s.writes[i].phase.Held?
    requires RevsOf(s.writes, s.keys[s.scanned], s.start) == revs
    ensures Enabled(s, Scan) && Next(s, Scan) == s.(scanned := s.scanned + 1, past := s.past + revs)
  {
  }

  lemma {:induction false} RepeatsAfter(s: State) returns (steps: seq<Step>)
    requires |s.keys| >= 2
    requires s == Ready(s.keys, s.live).(writes := s.writes, registered := true, registeredAt := 1, listed := true,
                                 missing := Others(s.keys), scanned := |s.keys|, past := [2, 1])
    requires |s.writes| == 2 && s.writes[0].phase == Collected(false) && s.writes[1].phase == Collected(true)
    ensures ValidRun(s, steps) && Quiet(Exec(s, steps)) && Exec(s, steps).delivered == [2, 1, 2]
    ensures Exec(s, steps).caught == {}
  {
    steps := [];
    Extend(s, steps, StartStream);
    steps := steps + [StartStream];
    var more := SendBoth(Exec(s, steps));
    RunConcat(s, steps, more);
    steps := steps + more;
    var sent := Exec(s, steps);
    assert sent.pushed == [2] && sent.maxRev == 1 && sent.pushed[0..1] == [2];
    assert DropLast([2]) == [] && Retain([2], 1) == [2];
    Extend(s, steps, RecvMany(1));
    steps := steps + [RecvMany(1)];
  }

  lemma {:induction false} RangeWatchRepeats(keys: seq<Bytes>, live: set<Bytes>) returns (steps: seq<Step>)
    requires Distinct(keys) && |keys| >= 2 && keys[0] in live && keys[1] in live
    ensures ValidRun(Init(keys, live, 1), steps) && Quiet(Exec(Init(keys, live, 1), steps))
    ensures var s := Exec(Init(keys, live, 1), steps); s.caught == {} && multiset(s.delivered)[2] == 2
  {
    var s0 := Init(keys, live, 1);
    steps := RepeatsBefore(keys, live);
    OthersUnwritten(Exec(s0, steps));
    var scans := ScanRest(Exec(s0, steps));
    RunConcat(s0, steps, scans);
    steps := steps + scans;
    var rest := RepeatsAfter(Exec(s0, steps));
    RunConcat(s0, steps, rest);
    steps := steps + rest;
  }

  /** Every run of the watch that catches no key and comes to rest has delivered every watched write
      exactly once. */
  ghost predicate AlwaysExact(keys: seq<Bytes>, live: set<Bytes>) {
    forall start: int, steps: seq<Step> {:trigger ValidRun(Init(keys, live, start), steps)} ::
      start >= 1 && ValidRun(Init(keys, live, start), steps) && UncaughtRest(Exec(Init(keys, live, start), steps)) ==>
        ExactlyOnce(Exec(Init(keys, live, start), steps))
  }

  ghost predicate UncaughtRest(s: State) {
    Quiet(s) && s.caught == {}
  }

  lemma {:induction false} NothingWatched(s: State)
    requires Inv(s) && s.keys == [] && s.live == {} && Quiet(s)
    ensures ExactlyOnce(s)
  {
    forall r ensures multiset(s.delivered)[r] == 0 && !Watched(s, r) {
      DeliveryCount(s, r);
    }
  }

  lemma {:induction false} OneKeyIsExact(s: State, key: Bytes)
    requires Inv(s) && OneKey(s, key) && !s.fromNow && UncaughtRest(s)
    ensures ExactlyOnce(s)
  {
    DeliveredInOrder(s, key);
    forall r ensures multiset(s.delivered)[r] == if Watched(s, r) then 1 else 0 {
      DistinctCount(s.delivered, r);
      NoGapAtRest(s, key, r);
    }
  }

  /** Scan and live filter select the same keys. */
  predicate SameSelection(keys: seq<Bytes>, live: set<Bytes>) {
    (forall key | key in keys :: key in live) && (forall key | key in live :: key in keys)
  }

  lemma {:induction false} AtMostOneKey(keys: seq<Bytes>, live: set<Bytes>, start: int, steps: seq<Step>)
    requires |keys| <= 1 && SameSelection(keys, live) && start >= 1 && ValidRun(Init(keys, live, start), steps)
    requires UncaughtRest(Exec(Init(keys, live, start), steps))
    ensures ExactlyOnce(Exec(Init(keys, live, start), steps))
  {
    var s := Exec(Init(keys, live, start), steps);
    Reachable(keys, live, start, steps);
    if keys == [] {
      assert live == {};
      NothingWatched(s);
    } else {
      assert keys == [keys[0]] && live == {keys[0]};
      OneKeyIsExact(s, keys[0]);
    }
  }

  /** One key is created and indexed. */
  lemma {:induction false} IndexOne(s: State, key: Bytes) returns (steps: seq<Step>)
    requires s.created == s.indexed == {}
    ensures ValidRun(s, steps) && Exec(s, steps) == s.(created := {key}, indexed := {key})
  {
    steps := [];
    Extend(s, steps, Create(key));
    steps := steps + [Create(key)];
    Extend(s, steps, IndexKey(key));
    steps := steps + [IndexKey(key)];
  }

  /** The watch registers and goes through its keys, none of which has been written; then it starts
      to read the channel. */
  lemma {:induction false} OpenUnwritten(s: State) returns (steps: seq<Step>)
    requires s.start >= 1 && !s.registered && !s.fromNow && !s.listed && s.scanned == 0 && s.past == [] && !s.streaming
    requires s.created == s.indexed && s.delivered == [] && s.maxRev == 0
    requires forall key | key in s.keys :: Unwritten(s, key)
    ensures ValidRun(s, steps)
    ensures exists missing: set<Bytes> {:trigger Opened(s, missing)} :: Exec(s, steps) == Opened(s, missing)
  {
    steps := [];
    Extend(s, steps, Register);
    steps := steps + [Register];
    var missing := set key | key in s.keys && key !in s.indexed;
    assert missing * s.created == {};
    Extend(s, steps, List);
    steps := steps + [List];
    var listed := Exec(s, steps);
    assert listed ==
           s.(registered := true, registeredAt := |s.writes|, listed := true, missing := missing, caught := {});
    forall j | 0 <= j < |listed.keys| ensures Unwritten(listed, listed.keys[j]) { assert Unwritten(s, s.keys[j]); }
    var scans := ScanRest(listed);
    RunConcat(s, steps, scans);
    steps := steps + scans;
    Extend(s, steps, StartStream);
    steps := steps + [StartStream];
    assert Exec(s, steps) == Opened(s, missing);
  }

  function Opened(s: State, missing: set<Bytes>): State {
    s.(registered := true, registeredAt := |s.writes|, listed := true, missing := missing, caught := {},
       scanned := |s.keys|, streaming := true)
  }

  /** The only write has found no watcher: it is sent to nobody. */
  lemma {:induction false} SentToNobody(s: State)
    requires s.streaming && s.pushed == [] && s.taken == 0 && s.nextRev == 1 && !s.busy && s.delivered == []
    requires |s.writes| == 1 && s.writes[0].phase == Collected(false)
    ensures Enabled(s, Receive(1))
    ensures var t := Next(s, Receive(1));
            && Quiet(t) && t.delivered == [] && t.caught == s.caught && |t.writes| == 1
            && t.writes[0].key == s.writes[0].key && t.keys == s.keys && t.live == s.live && t.start == s.start
  {
  }

  /** A key that the live filter selects and the scan does not: what was written before the watch is
      never delivered. */
  lemma {:induction false} UnscannedLoses(keys: seq<Bytes>, live: set<Bytes>, key: Bytes) returns (steps: seq<Step>)
    requires key in live && key !in keys
    ensures ValidRun(Init(keys, live, 1), steps) && UncaughtRest(Exec(Init(keys, live, 1), steps))
    ensures var s := Exec(Init(keys, live, 1), steps); Watched(s, 1) && s.delivered == []
  {
    var s0 := Init(keys, live, 1);
    steps := IndexOne(s0, key);
    var write := WriteOne(Exec(s0, steps), key);
    RunConcat(s0, steps, write);
    steps := steps + write;
    var open := OpenUnwritten(Exec(s0, steps));
    RunConcat(s0, steps, open);
    steps := steps + open;
    SentToNobody(Exec(s0, steps));
    Extend(s0, steps, Receive(1));
    steps := steps + [Receive(1)];
  }

  /** A key that the scan selects and the live filter does not: what is written after the scan is
      never delivered. */
  lemma {:induction false} UnnoticedLoses(keys: seq<Bytes>, live: set<Bytes>, key: Bytes) returns (steps: seq<Step>)
    requires key in keys && key !in live
    ensures ValidRun(Init(keys, live, 1), steps) && UncaughtRest(Exec(Init(keys, live, 1), steps))
    ensures var s := Exec(Init(keys, live, 1), steps); Watched(s, 1) && s.delivered == []
  {
    var s0 := Init(keys, live, 1);
    steps := IndexOne(s0, key);
    var open := OpenUnwritten(Exec(s0, steps));
    RunConcat(s0, steps, open);
    steps := steps + open;
    var write := WriteOne(Exec(s0, steps), key);
    RunConcat(s0, steps, write);
    steps := steps + write;
    SentToNobody(Exec(s0, steps));
    Extend(s0, steps, Receive(1));
    steps := steps + [Receive(1)];
  }

  lemma {:induction false} NotAlways(keys: seq<Bytes>, live: set<Bytes>, steps: seq<Step>)
    requires ValidRun(Init(keys, live, 1), steps) && UncaughtRest(Exec(Init(keys, live, 1), steps))
    requires var s := Exec(Init(keys, live, 1), steps); Watched(s, 1) && 1 !in s.delivered
    ensures !AlwaysExact(keys, live)
  {
    var s := Exec(Init(keys, live, 1), steps);
    assert multiset(s.delivered)[1] == 0;
    assert !ExactlyOnce(s);
  }

  /** Delivery is exact in every run that catches no key if and only if the scan and the live filter
      select the same keys and there is at most one of them. */
  lemma {:induction false} ExactIffOneKey(keys: seq<Bytes>, live: set<Bytes>)
    requires Distinct(keys)
    ensures AlwaysExact(keys, live) <==> SameSelection(keys, live) && |keys| <= 1
  {
    if key :| key in live && key !in keys {
      var steps := UnscannedLoses(keys, live, key);
      NotAlways(keys, live, steps);
    } else if key :| key in keys && key !in live {
      var steps := UnnoticedLoses(keys, live, key);
      NotAlways(keys, live, steps);
    } else if |keys| >= 2 {
      var steps := RangeWatchLoses(keys, live);
      NotAlways(keys, live, steps);
    } else {
      forall start: int, steps: seq<Step>
        | start >= 1 && ValidRun(Init(keys, live, start), steps) && UncaughtRest(Exec(Init(keys, live, start), steps))
        ensures ExactlyOnce(Exec(Init(keys, live, start), steps))
      {
        AtMostOneKey(keys, live, start, steps);
      }
    }
  }

  // ---------------------------------------------------------------- a caught key

  lemma {:induction false} WrittenBeforeIndexed(key: Bytes) returns (steps: seq<Step>)
    ensures ValidRun(Init([key], {key}, 1), steps)
    ensures Exec(Init([key], {key}, 1), steps) ==
            Init([key], {key}, 1).(created := {key}, registered := true, registeredAt := 1, listed := true,
                            missing := {key}, caught := {key}, writes := [Slot(key, Collected(false))])
  {
    var s0 := Init([key], {key}, 1);
    steps := [];
    Extend(s0, steps, Create(key));
    steps := steps + [Create(key)];
    var write := WriteOne(Exec(s0, steps), key);
    RunConcat(s0, steps, write);
    steps := steps + write;
    Extend(s0, steps, Register);
    steps := steps + [Register];
    assert {key} * {key} == {key} && (set k | k in [key] && k !in {}) == {key};
    Extend(s0, steps, List);
    steps := steps + [List];
  }

  /** The run in which a watch on a single key misses a write. A second writer finds the new item in
      the tree, completes its write and finds no watcher; then the watch registers and its scan does
      not list the key, because the creator has not reached the prefix index. */
  lemma {:induction false} CaughtKeyLoses(key: Bytes) returns (steps: seq<Step>)
    ensures ValidRun(Init([key], {key}, 1), steps)
    ensures var s := Exec(Init([key], {key}, 1), steps); Quiet(s) && Watched(s, 1) && s.delivered == []
  {
    var s0 := Init([key], {key}, 1);
    steps := WrittenBeforeIndexed(key);
    Extend(s0, steps, Scan);
    steps := steps + [Scan];
    Extend(s0, steps, StartStream);
    steps := steps + [StartStream];
    Extend(s0, steps, Receive(1));
    steps := steps + [Receive(1)];
  }
}
