/** The block deque under concurrent use. A push first reserves an index under the read lock and
    stores the element if its block exists. Otherwise it gives up the read lock and comes back
    with the write lock. Between the two phases other pushes and removals may run. */
module ConcurrentDeque {
  import opened Common
  import opened BlockArithmetic

  datatype Pusher<T> =
    | ReadLocked(value: T, startSeen: nat)
    | Reserved(value: T, startSeen: nat, index: nat)
    | Missed(value: T, index: nat)
  {
    predicate HoldsReadLock() {
      !Missed?
    }

    predicate HasIndex() {
      !ReadLocked?
    }
  }

  /** `completed` maps every index whose push has returned to the value last stored there. */
  datatype State<T> = State(
    size: nat,
    start: nat,
    length: nat,
    blocks: seq<seq<Option<T>>>,
    pushers: map<nat, Pusher<T>>,
    completed: map<nat, T>,
    returned: seq<nat>,
    crashed: bool)

  datatype Step<T> =
    | Begin(t: nat, value: T)
    | Reserve(t: nat)
    | StoreFast(t: nat)
    | Miss(t: nat)
    | StoreSlow(t: nat)
    | Overwrite(index: nat, value: T)
    | RemoveBefore(idx: nat)

  function Init<T>(size: nat): State<T> {
    State(size, 0, 0, [], map[], map[], [], false)
  }

  predicate NoReaders<T>(s: State<T>) {
    forall t | t in s.pushers :: !s.pushers[t].HoldsReadLock()
  }

  /** `remove_before` is only valid at an index that no push in flight has yet to fill. */
  predicate Enabled<T>(s: State<T>, step: Step<T>) {
    match step
    case Begin(t, _) => t !in s.pushers
    case Reserve(t) => t in s.pushers && s.pushers[t].ReadLocked?
    case StoreFast(t) =>
      && t in s.pushers && s.pushers[t].Reserved? && s.size > 0
      && BlockOf(s.pushers[t].index, s.pushers[t].startSeen, s.size) < |s.blocks|
    case Miss(t) =>
      && t in s.pushers && s.pushers[t].Reserved? && s.size > 0
      && BlockOf(s.pushers[t].index, s.pushers[t].startSeen, s.size) >= |s.blocks|
    case StoreSlow(t) => t in s.pushers && s.pushers[t].Missed? && s.size > 0 && NoReaders(s)
    case Overwrite(i, _) => i in s.completed && s.size > 0
    case RemoveBefore(idx) =>
      && s.size > 0 && NoReaders(s) && s.start <= idx <= s.start + s.length
      && (forall t | t in s.pushers && s.pushers[t].HasIndex() :: idx <= s.pushers[t].index)
  }

  function BlockOf(index: int, start: int, size: int): int
    requires size > 0
  {
    index / size - start / size
  }

  function EmptyBlock<T>(size: nat): seq<Option<T>> {
    seq(size, _ => None)
  }

  /** Appends empty blocks until there are n. */
  function Grow<T>(blocks: seq<seq<Option<T>>>, n: int, size: nat): seq<seq<Option<T>>>
    decreases n - |blocks|
  {
    if |blocks| >= n then blocks else Grow(blocks + [EmptyBlock(size)], n, size)
  }

  /** An out-of-range block or offset, or a block number below zero, stops the program. */
  function Write<T>(s: State<T>, block: int, offset: int, value: T): State<T> {
    if 0 <= block < |s.blocks| && 0 <= offset < |s.blocks[block]| then
      s.(blocks := s.blocks[block := s.blocks[block][offset := Some(value)]])
    else
      s.(crashed := true)
  }

  function Finish<T>(s: State<T>, t: nat, index: nat, value: T): State<T> {
    s.(pushers := s.pushers - {t}, completed := s.completed[index := value], returned := s.returned + [index])
  }

  function ClearRange<T>(block: seq<Option<T>>, from: int, to: int): seq<Option<T>> {
    seq(|block|, o requires 0 <= o < |block| => if from <= o < to then None else block[o])
  }

  /** The body of `remove_before` once its index is known to be in range. */
  function Shrink<T>(s: State<T>, idx: nat): State<T>
    requires s.size > 0 && s.start <= idx <= s.start + s.length
  {
    var whole := BlockOf(idx, s.start, s.size);
    var to := idx % s.size;
    if whole < 0 || whole > |s.blocks| || (to > 0 && whole == |s.blocks|) then s.(crashed := true)
    else
      var rest := s.blocks[whole..];
      var from := if whole > 0 then 0 else s.start % s.size;
      var cleared := if to > 0 then rest[0 := ClearRange(rest[0], from, to)] else rest;
      s.(blocks := cleared, start := idx, length := s.length - (idx - s.start))
  }

  function Next<T>(s: State<T>, step: Step<T>): State<T>
    requires Enabled(s, step)
  {
    match step
    case Begin(t, value) => s.(pushers := s.pushers[t := ReadLocked(value, s.start)])
    case Reserve(t) =>
      var p := s.pushers[t];
      s.(pushers := s.pushers[t := Reserved(p.value, p.startSeen, s.length + p.startSeen)], length := s.length + 1)
    case StoreFast(t) =>
      var p := s.pushers[t];
      Finish(Write(s, BlockOf(p.index, p.startSeen, s.size), p.index % s.size, p.value), t, p.index, p.value)
    case Miss(t) =>
      var p := s.pushers[t];
      s.(pushers := s.pushers[t := Missed(p.value, p.index)])
    case StoreSlow(t) => SlowStore(s, t)
    case Overwrite(i, value) =>
      if s.start <= i < s.start + s.length then
        Write(s, BlockOf(i, s.start, s.size), i % s.size, value).(completed := s.completed[i := value])
      else s
    case RemoveBefore(idx) => Shrink(s, idx)
  }

  /** The second phase recomputes the block, because blocks may have gone in the meantime. */
  function SlowStore<T>(s: State<T>, t: nat): State<T>
    requires s.size > 0 && t in s.pushers && s.pushers[t].Missed?
  {
    var p := s.pushers[t];
    var block := BlockOf(p.index, s.start, s.size);
    var grown := s.(blocks := Grow(s.blocks, block + 1, s.size));
    Finish(Write(grown, block, p.index % s.size, p.value), t, p.index, p.value)
  }

  predicate ValidRun<T>(s: State<T>, steps: seq<Step<T>>)
    decreases |steps|
  {
    steps == [] || (Enabled(s, steps[0]) && ValidRun(Next(s, steps[0]), steps[1..]))
  }

  function Exec<T>(s: State<T>, steps: seq<Step<T>>): State<T>
    requires ValidRun(s, steps)
    decreases |steps|
  {
    if steps == [] then s else Exec(Next(s, steps[0]), steps[1..])
  }

  /** `get` on an index: the outer None is an access out of bounds. */
  function Get<T>(s: State<T>, index: nat): Option<Option<T>>
    requires s.size > 0
  {
    if index < s.start || index >= s.start + s.length then Some(None)
    else
      var block := BlockOf(index, s.start, s.size);
      if 0 <= block < |s.blocks| && index % s.size < |s.blocks[block]| then Some(s.blocks[block][index % s.size])
      else None
  }

  // ---------------------------------------------------------------- the invariant

  ghost predicate PusherOk<T>(s: State<T>, t: nat) {
    t in s.pushers ==>
      var p := s.pushers[t];
      && (p.HoldsReadLock() ==> p.startSeen == s.start)
      && (p.HasIndex() ==> s.start <= p.index < s.start + s.length && p.index !in s.completed)
  }

  ghost predicate Distinct<T>(s: State<T>, t: nat, u: nat) {
    t in s.pushers && u in s.pushers && t != u && s.pushers[t].HasIndex() && s.pushers[u].HasIndex() ==>
      s.pushers[t].index != s.pushers[u].index
  }

  ghost predicate Pushing<T>(s: State<T>, i: int) {
    exists t :: t in s.pushers && s.pushers[t].HasIndex() && s.pushers[t].index == i
  }

  /** Every index ever handed out is completed or held by a push in flight. */
  ghost predicate Accounted<T>(s: State<T>, i: int) {
    && (0 <= i < s.start + s.length ==> i in s.completed || Pushing(s, i))
    && (i in s.completed ==> 0 <= i < s.start + s.length)
  }

  ghost function Expected<T>(s: State<T>, i: int): Option<T> {
    if s.start <= i && i in s.completed then Some(s.completed[i]) else None
  }

  ghost predicate SlotOk<T>(s: State<T>, block: int, offset: int)
    requires s.size > 0
  {
    0 <= block < |s.blocks| && 0 <= offset < s.size ==>
      && |s.blocks[block]| == s.size
      && s.blocks[block][offset] == Expected(s, (s.start / s.size + block) * s.size + offset)
  }

  ghost predicate Stored<T>(s: State<T>, i: int)
    requires s.size > 0
  {
    i in s.completed && s.start <= i ==> BlockOf(i, s.start, s.size) < |s.blocks|
  }

  ghost predicate ReturnedOk<T>(s: State<T>) {
    && (forall i :: i in s.returned <==> i in s.completed)
    && (forall a, b | 0 <= a < b < |s.returned| :: s.returned[a] != s.returned[b])
  }

  ghost predicate Inv<T>(s: State<T>) {
    && s.size > 0 && !s.crashed
    && (forall t :: PusherOk(s, t))
    && (forall t, u :: Distinct(s, t, u))
    && (forall i :: Accounted(s, i))
    && (forall b, o :: SlotOk(s, b, o))
    && (forall i :: Stored(s, i))
    && (s.start % s.size > 0 ==> |s.blocks| > 0)
    && ReturnedOk(s)
  }

  // ---------------------------------------------------------------- slots

  /** The slot of an index is where it should be and nowhere else. */
  lemma {:induction false} SlotOfIndex(index: int, block: int, offset: int, start: int, size: int)
    requires 0 <= offset < size
    ensures (start / size + block) * size + offset == index <==>
            block == BlockOf(index, start, size) && offset == index % size
  {
    LocateUnique(start / size + block, offset, size);
    Locate(index, size);
  }

  ghost predicate SlotsOk<T>(s: State<T>)
    requires s.size > 0
  {
    && (forall b, o :: SlotOk(s, b, o))
    && (forall i :: Stored(s, i))
  }

  lemma {:induction false} AppendEmptyBlock<T>(s: State<T>, s': State<T>)
    requires s.size > 0 && SlotsOk(s)
    requires s' == s.(blocks := s.blocks + [EmptyBlock(s.size)])
    ensures SlotsOk(s')
  {
    forall b, o ensures SlotOk(s', b, o) {
      assert SlotOk(s, b, o);
      if b == |s.blocks| && 0 <= o < s.size {
        var i := (s.start / s.size + b) * s.size + o;
        SlotOfIndex(i, b, o, s.start, s.size);
        assert Stored(s, i);
      }
    }
    forall i ensures Stored(s', i) {
      assert Stored(s, i);
    }
  }

  lemma {:induction false} GrowKeepsSlots<T>(s: State<T>, n: int) returns (s': State<T>)
    requires s.size > 0 && SlotsOk(s)
    ensures s' == s.(blocks := Grow(s.blocks, n, s.size))
    ensures SlotsOk(s') && |s'.blocks| >= n && |s'.blocks| >= |s.blocks|
    decreases n - |s.blocks|
  {
    if |s.blocks| >= n {
      s' := s;
    } else {
      var one := s.(blocks := s.blocks + [EmptyBlock(s.size)]);
      AppendEmptyBlock(s, one);
      s' := GrowKeepsSlots(one, n);
    }
  }

  /** Storing a live element in its slot. */
  lemma {:induction false} StoreKeepsSlots<T>(s: State<T>, i: nat, value: T) returns (s': State<T>)
    requires s.size > 0 && SlotsOk(s) && s.start <= i && BlockOf(i, s.start, s.size) < |s.blocks|
    ensures s' == Write(s, BlockOf(i, s.start, s.size), i % s.size, value).(completed := s.completed[i := value])
    ensures s'.crashed == s.crashed && |s'.blocks| == |s.blocks|
    ensures s' == s.(blocks := s'.blocks, completed := s.completed[i := value])
    ensures SlotsOk(s')
  {
    var block, offset := BlockOf(i, s.start, s.size), i % s.size;
    s' := Write(s, block, offset, value).(completed := s.completed[i := value]);
    DivMonotone(s.start, i, s.size);
    Locate(i, s.size);
    assert SlotOk(s, block, offset);
    forall b, o ensures SlotOk(s', b, o) {
      assert SlotOk(s, b, o);
      if 0 <= o < s.size { SlotOfIndex(i, b, o, s.start, s.size); }
    }
    forall j ensures Stored(s', j) {
      assert Stored(s, j);
    }
  }

  // ---------------------------------------------------------------- the steps keep the invariant

  lemma {:induction false} ReserveStep<T>(s: State<T>, step: Step<T>)
    requires Inv(s) && Enabled(s, step) && (step.Begin? || step.Reserve? || step.Miss?)
    ensures Inv(Next(s, step))
  {
    var s' := Next(s, step);
    var t := step.t;
    assert PusherOk(s, t);
    assert Accounted(s, s.start + s.length);
    forall u ensures PusherOk(s', u) {
      assert PusherOk(s, u);
    }
    forall u, v ensures Distinct(s', u, v) {
      assert Distinct(s, u, v) && PusherOk(s, u) && PusherOk(s, v);
    }
    forall i ensures Accounted(s', i) {
      assert Accounted(s, i);
      if Pushing(s, i) {
        var u :| u in s.pushers && s.pushers[u].HasIndex() && s.pushers[u].index == i;
        assert u in s'.pushers && s'.pushers[u].HasIndex() && s'.pushers[u].index == i;
      }
      if step.Reserve? && i == s.start + s.length {
        assert t in s'.pushers && s'.pushers[t].HasIndex() && s'.pushers[t].index == i;
      }
    }
    forall b, o ensures SlotOk(s', b, o) {
      assert SlotOk(s, b, o);
    }
    forall i ensures Stored(s', i) {
      assert Stored(s, i);
    }
  }

  /** A push that has stored its element returns its index. */
  lemma {:induction false} CompletePush<T>(s: State<T>, t: nat, s': State<T>)
    requires Inv(s) && t in s.pushers && s.pushers[t].HasIndex()
    requires var p := s.pushers[t];
             s' == Finish(s.(blocks := s'.blocks), t, p.index, p.value)
    requires SlotsOk(s') && |s'.blocks| >= |s.blocks|
    ensures Inv(s')
  {
    var p := s.pushers[t];
    assert PusherOk(s, t);
    assert Accounted(s, p.index);
    forall u ensures PusherOk(s', u) {
      assert PusherOk(s, u) && Distinct(s, t, u);
    }
    forall u, v ensures Distinct(s', u, v) {
      assert Distinct(s, u, v);
    }
    forall i ensures Accounted(s', i) {
      assert Accounted(s, i);
      if Pushing(s, i) && i != p.index {
        var u :| u in s.pushers && s.pushers[u].HasIndex() && s.pushers[u].index == i;
        assert u in s'.pushers && s'.pushers[u].HasIndex() && s'.pushers[u].index == i;
      }
    }
    assert p.index !in s.returned;
  }

  lemma {:induction false} SlotsIgnoreFinish<T>(a: State<T>, b: State<T>)
    requires a.size > 0 && SlotsOk(a)
    requires b.size == a.size && b.start == a.start && b.blocks == a.blocks && b.completed == a.completed
    ensures SlotsOk(b)
  {
    forall x, o ensures SlotOk(b, x, o) {
      assert SlotOk(a, x, o);
    }
    forall i ensures Stored(b, i) {
      assert Stored(a, i);
    }
  }

  lemma {:induction false} StoreStep<T>(s: State<T>, step: Step<T>)
    requires Inv(s) && Enabled(s, step) && (step.StoreFast? || step.StoreSlow?)
    ensures Inv(Next(s, step))
  {
    var s' := Next(s, step);
    var p := s.pushers[step.t];
    assert PusherOk(s, step.t);
    var n := if step.StoreFast? then 0 else BlockOf(p.index, s.start, s.size) + 1;
    var grown := GrowKeepsSlots(s, n);
    var stored := StoreKeepsSlots(grown, p.index, p.value);
    assert s' == Finish(s.(blocks := stored.blocks), step.t, p.index, p.value);
    SlotsIgnoreFinish(stored, s');
    CompletePush(s, step.t, s');
  }

  lemma {:induction false} OverwriteStep<T>(s: State<T>, step: Step<T>)
    requires Inv(s) && Enabled(s, step) && step.Overwrite?
    ensures Inv(Next(s, step))
  {
    var s' := Next(s, step);
    if s.start <= step.index < s.start + s.length {
      assert Stored(s, step.index);
      var stored := StoreKeepsSlots(s, step.index, step.value);
      forall t ensures PusherOk(s', t) {
        assert PusherOk(s, t);
      }
      forall t, u ensures Distinct(s', t, u) {
        assert Distinct(s, t, u);
      }
      forall i ensures Accounted(s', i) {
        assert Accounted(s, i);
        if Pushing(s, i) {
          var u :| u in s.pushers && s.pushers[u].HasIndex() && s.pushers[u].index == i;
          assert u in s'.pushers && s'.pushers[u].HasIndex() && s'.pushers[u].index == i;
        }
      }
    }
  }

  /** Everything below the removal point is completed, so the blocks to remove are all there. */
  lemma {:induction false} RemovalInBounds<T>(s: State<T>, idx: nat)
    requires Inv(s) && Enabled(s, RemoveBefore(idx))
    ensures var whole := BlockOf(idx, s.start, s.size);
            0 <= whole <= |s.blocks| && (idx % s.size > 0 ==> whole < |s.blocks|)
  {
    DivMonotone(s.start, idx, s.size);
    if idx > s.start {
      assert Accounted(s, idx - 1);
      assert !Pushing(s, idx - 1);
      assert Stored(s, idx - 1);
      BlocksStep(idx - 1, s.size);
    }
  }

  lemma {:induction false} ShrinkSlots<T>(s: State<T>, idx: nat, s': State<T>)
    requires Inv(s) && Enabled(s, RemoveBefore(idx)) && s' == Shrink(s, idx)
    ensures !s'.crashed && SlotsOk(s')
    ensures idx % s.size > 0 ==> |s'.blocks| > 0
  {
    RemovalInBounds(s, idx);
    var whole := BlockOf(idx, s.start, s.size);
    forall b, o ensures SlotOk(s', b, o) {
      if 0 <= b < |s'.blocks| && 0 <= o < s.size {
        assert SlotOk(s, b + whole, o);
        BelowIndex(idx, b, o, s.size);
        BelowIndex(s.start, b + whole, o, s.size);
      }
    }
    forall i ensures Stored(s', i) {
      assert Stored(s, i);
    }
  }

  lemma {:induction false} RemoveStep<T>(s: State<T>, idx: nat)
    requires Inv(s) && Enabled(s, RemoveBefore(idx))
    ensures Inv(Next(s, RemoveBefore(idx)))
  {
    var s' := Next(s, RemoveBefore(idx));
    ShrinkSlots(s, idx, s');
    forall t ensures PusherOk(s', t) {
      assert PusherOk(s, t);
    }
    forall t, u ensures Distinct(s', t, u) {
      assert Distinct(s, t, u);
    }
    forall i ensures Accounted(s', i) {
      assert Accounted(s, i);
      if Pushing(s, i) {
        var u :| u in s.pushers && s.pushers[u].HasIndex() && s.pushers[u].index == i;
        assert u in s'.pushers && s'.pushers[u].HasIndex() && s'.pushers[u].index == i;
      }
    }
  }

  lemma {:induction false} StepKeepsInv<T>(s: State<T>, step: Step<T>)
    requires Inv(s) && Enabled(s, step)
    ensures Inv(Next(s, step)) && Next(s, step).size == s.size
  {
    match step
    case Begin(_, _) => ReserveStep(s, step);
    case Reserve(_) => ReserveStep(s, step);
    case Miss(_) => ReserveStep(s, step);
    case StoreFast(_) => StoreStep(s, step);
    case StoreSlow(_) => StoreStep(s, step);
    case Overwrite(_, _) => OverwriteStep(s, step);
    case RemoveBefore(idx) => RemoveStep(s, idx);
  }

  lemma {:induction false} RunKeepsInv<T>(s: State<T>, steps: seq<Step<T>>)
    requires Inv(s) && ValidRun(s, steps)
    ensures Inv(Exec(s, steps)) && Exec(s, steps).size == s.size
    decreases |steps|
  {
    if steps != [] {
      StepKeepsInv(s, steps[0]);
      RunKeepsInv(Next(s, steps[0]), steps[1..]);
    }
  }

  // ---------------------------------------------------------------- main results

  lemma {:induction false} Reachable<T>(size: nat, steps: seq<Step<T>>)
    requires size > 0 && ValidRun(Init(size), steps)
    ensures Inv(Exec(Init(size), steps)) && Exec(Init(size), steps).size == size
  {
    var s0: State<T> := Init(size);
    assert Inv(s0) by {
      assert forall b, o :: SlotOk(s0, b, o);
      LocateUnique(0, 0, size);
    }
    RunKeepsInv(s0, steps);
  }

  /** Under every interleaving of both push phases, overwrites and removals: no access is out of
      bounds, the indices returned are distinct, and those returned or still in flight are
      exactly 0, 1, ..., start + length - 1. */
  lemma {:induction false} PushesAreSafe<T>(size: nat, steps: seq<Step<T>>)
    requires size > 0 && ValidRun(Init(size), steps)
    ensures var s := Exec(Init(size), steps);
            && !s.crashed
            && (forall a, b | 0 <= a < b < |s.returned| :: s.returned[a] != s.returned[b])
            && (forall i :: 0 <= i < s.start + s.length <==> i in s.returned || Pushing(s, i))
            && (forall i | i in s.returned :: !Pushing(s, i))
  {
    Reachable(size, steps);
    var s := Exec(Init(size), steps);
    forall i ensures 0 <= i < s.start + s.length <==> i in s.returned || Pushing(s, i) {
      assert Accounted(s, i);
      if Pushing(s, i) {
        var t :| t in s.pushers && s.pushers[t].HasIndex() && s.pushers[t].index == i;
        assert PusherOk(s, t);
      }
    }
    forall t | t in s.pushers && s.pushers[t].HasIndex() ensures s.pushers[t].index !in s.returned {
      assert PusherOk(s, t);
    }
  }

  lemma {:induction false} StoredIsReadable<T>(s: State<T>, i: nat)
    requires Inv(s) && i in s.completed
    ensures Get(s, i) == Some(if i < s.start then None else Some(s.completed[i]))
  {
    if i >= s.start {
      assert Accounted(s, i) && Stored(s, i);
      var block := BlockOf(i, s.start, s.size);
      DivMonotone(s.start, i, s.size);
      Locate(i, s.size);
      assert SlotOk(s, block, i % s.size);
      SlotOfIndex(i, block, i % s.size, s.start, s.size);
    }
  }

  /** In every reachable state, every index that a push has returned reads the value last stored
      there, or nothing once it is removed. */
  lemma {:induction false} CompletedIsReadable<T>(size: nat, steps: seq<Step<T>>, i: nat)
    requires size > 0 && ValidRun(Init(size), steps) && i in Exec(Init(size), steps).returned
    ensures var s := Exec(Init(size), steps);
            && s.size > 0 && i in s.completed
            && Get(s, i) == Some(if i < s.start then None else Some(s.completed[i]))
  {
    Reachable(size, steps);
    StoredIsReadable(Exec(Init(size), steps), i);
  }

  /** What a push was begun with is what it carries through its phases. */
  lemma {:induction false} PushCarriesValue<T>(s: State<T>, step: Step<T>)
    requires Enabled(s, step)
    ensures step.Begin? ==> step.t in Next(s, step).pushers && Next(s, step).pushers[step.t].value == step.value
    ensures step.Reserve? || step.Miss? ==>
              step.t in Next(s, step).pushers && Next(s, step).pushers[step.t].value == s.pushers[step.t].value
  {
  }

  /** When a push returns, its index reads its value; an overwrite of a live index is read back; a
      removal moves the start and leaves the end. */
  lemma {:induction false} StepIsRead<T>(s: State<T>, step: Step<T>)
    requires Inv(s) && Enabled(s, step)
    ensures Next(s, step).size > 0
    ensures step.StoreFast? || step.StoreSlow? ==>
              var p := s.pushers[step.t];
              && step.t !in Next(s, step).pushers && Next(s, step).returned == s.returned + [p.index]
              && Get(Next(s, step), p.index) == Some(Some(p.value))
    ensures step.Overwrite? && s.start <= step.index ==> Get(Next(s, step), step.index) == Some(Some(step.value))
    ensures step.RemoveBefore? ==>
              Next(s, step).start == step.idx && Next(s, step).start + Next(s, step).length == s.start + s.length
  {
    var s' := Next(s, step);
    StepKeepsInv(s, step);
    if step.StoreFast? || step.StoreSlow? {
      assert PusherOk(s, step.t);
      StoredIsReadable(s', s.pushers[step.t].index);
    } else if step.Overwrite? {
      assert Accounted(s, step.index);
      StoredIsReadable(s', step.index);
    }
  }

  /** Every other index that has been returned reads as before, unless it is removed. */
  lemma {:induction false} OthersReadAsBefore<T>(s: State<T>, step: Step<T>, i: nat)
    requires Inv(s) && Enabled(s, step) && i in s.completed && !(step.Overwrite? && step.index == i)
    requires Next(s, step).start <= i
    ensures Next(s, step).size > 0 && Get(Next(s, step), i) == Get(s, i)
  {
    StepKeepsInv(s, step);
    if step.StoreFast? || step.StoreSlow? { assert PusherOk(s, step.t); }
    assert i in Next(s, step).completed && Next(s, step).completed[i] == s.completed[i];
    StoredIsReadable(s, i);
    StoredIsReadable(Next(s, step), i);
  }

  // ---------------------------------------------------------------- removals that pass a push

  /** `remove_before` itself fails exactly when the block of the last element it removes has not
      been added yet: it then runs out of blocks. */
  lemma {:induction false} RemovalCrashesIff<T>(s: State<T>, idx: nat)
    requires Inv(s) && s.start <= idx <= s.start + s.length
    ensures Shrink(s, idx).crashed <==> s.start < idx && BlockOf(idx - 1, s.start, s.size) >= |s.blocks|
  {
    DivMonotone(s.start, idx, s.size);
    if s.start < idx {
      DivMonotone(s.start, idx - 1, s.size);
      BlocksStep(idx - 1, s.size);
    }
  }

  /** A removal, and then the second phase of push t. A removal that fails does so with the write
      lock in hand, and nobody gets the lock again. */
  function PushAfterRemoval<T>(s: State<T>, t: nat, idx: nat): State<T>
    requires s.size > 0 && t in s.pushers && s.pushers[t].Missed? && s.start <= idx <= s.start + s.length
  {
    var removed := Shrink(s, idx);
    if removed.crashed then removed else SlowStore(removed, t)
  }

  lemma {:induction false} GrowSizes<T>(blocks: seq<seq<Option<T>>>, n: int, size: nat)
    requires forall b | 0 <= b < |blocks| :: |blocks[b]| == size
    ensures |Grow(blocks, n, size)| >= n
    ensures forall b | 0 <= b < |Grow(blocks, n, size)| :: |Grow(blocks, n, size)[b]| == size
    decreases n - |blocks|
  {
    if |blocks| < n { GrowSizes(blocks + [EmptyBlock(size)], n, size); }
  }

  /** The second phase after a removal that went through. */
  lemma {:induction false} SecondPhaseIff<T>(s: State<T>, t: nat, idx: nat)
    requires Inv(s) && t in s.pushers && s.pushers[t].Missed?
    requires s.start <= idx <= s.start + s.length && !Shrink(s, idx).crashed
    ensures SlowStore(Shrink(s, idx), t).crashed <==> s.pushers[t].index / s.size < idx / s.size
    ensures !SlowStore(Shrink(s, idx), t).crashed ==>
              var p := s.pushers[t];
              Get(SlowStore(Shrink(s, idx), t), p.index) == Some(if p.index < idx then None else Some(p.value))
  {
    var s', p := Shrink(s, idx), s.pushers[t];
    var block := BlockOf(p.index, idx, s.size);
    assert PusherOk(s, t);
    Locate(p.index, s.size);
    DivMonotone(s.start, idx, s.size);
    var whole := BlockOf(idx, s.start, s.size);
    forall b | 0 <= b < |s'.blocks| ensures |s'.blocks[b]| == s.size {
      assert SlotOk(s, b + whole, 0);
    }
    GrowSizes(s'.blocks, block + 1, s.size);
  }

  /** Why a removal must not pass a push in flight. Removal and push together fail exactly when
      the block of the last element removed is still missing, or the removal reached a block after
      that of the push. If neither is the case the push returns its index, but when the removal
      passed it the element is not there. */
  lemma {:induction false} RemovalPastPushCrashesIff<T>(s: State<T>, t: nat, idx: nat)
    requires Inv(s) && t in s.pushers && s.pushers[t].Missed? && s.start <= idx <= s.start + s.length
    ensures PushAfterRemoval(s, t, idx).crashed <==>
            || (s.start < idx && BlockOf(idx - 1, s.start, s.size) >= |s.blocks|)
            || s.pushers[t].index / s.size < idx / s.size
    ensures !PushAfterRemoval(s, t, idx).crashed ==>
              var p, after := s.pushers[t], PushAfterRemoval(s, t, idx);
              && after.returned == s.returned + [p.index]
              && Get(after, p.index) == Some(if p.index < idx then None else Some(p.value))
  {
    RemovalCrashesIff(s, idx);
    if !Shrink(s, idx).crashed { SecondPhaseIff(s, t, idx); }
  }

  /** As long as nobody has added the block of the push, every removal past the push fails. */
  lemma {:induction false} MissingBlockCrashes<T>(s: State<T>, t: nat, idx: nat)
    requires Inv(s) && t in s.pushers && s.pushers[t].Missed? && s.pushers[t].index < idx <= s.start + s.length
    requires BlockOf(s.pushers[t].index, s.start, s.size) >= |s.blocks|
    ensures s.start <= idx && Shrink(s, idx).crashed
  {
    assert PusherOk(s, t);
    DivMonotone(s.pushers[t].index, idx - 1, s.size);
    RemovalCrashesIff(s, idx);
  }

  lemma {:induction false} Extend<T>(s: State<T>, steps: seq<Step<T>>, step: Step<T>)
    requires ValidRun(s, steps) && Enabled(Exec(s, steps), step)
    ensures ValidRun(s, steps + [step]) && Exec(s, steps + [step]) == Next(Exec(s, steps), step)
    decreases |steps|
  {
    if steps == [] {
      assert steps + [step] == [step] && [step][1..] == [];
      assert ValidRun(Next(s, step), []);
    } else {
      assert (steps + [step])[0] == steps[0] && (steps + [step])[1..] == steps[1..] + [step];
      Extend(Next(s, steps[0]), steps[1..], step);
    }
  }

  /** A push of thread t up to the moment between its two phases. */
  lemma {:induction false} MissOne<T>(s: State<T>, steps: seq<Step<T>>, t: nat, value: T) returns (more: seq<Step<T>>)
    requires ValidRun(s, steps) && Exec(s, steps).size > 0 && t !in Exec(s, steps).pushers
    requires var u := Exec(s, steps); BlockOf(u.start + u.length, u.start, u.size) >= |u.blocks|
    ensures ValidRun(s, more)
    ensures var u := Exec(s, steps);
            Exec(s, more) == u.(pushers := u.pushers[t := Missed(value, u.start + u.length)], length := u.length + 1)
  {
    more := steps;
    Extend(s, more, Begin(t, value));
    more := more + [Begin(t, value)];
    Extend(s, more, Reserve(t));
    more := more + [Reserve(t)];
    Extend(s, more, Miss(t));
    more := more + [Miss(t)];
  }

  /** Two pushes into an empty deque, both between their phases. */
  lemma {:induction false} TwoInFlight<T>(size: nat, a: T, b: T) returns (steps: seq<Step<T>>)
    requires size > 0
    ensures ValidRun(Init(size), steps)
    ensures Exec(Init(size), steps) == Init(size).(length := 2, pushers := map[0 := Missed(a, 0), 1 := Missed(b, 1)])
  {
    var s0: State<T> := Init(size);
    LocateUnique(0, 0, size);
    steps := MissOne(s0, [], 0, a);
    DivMonotone(0, 1, size);
    steps := MissOne(s0, steps, 1, b);
  }

  /** The run that stops the program: with both pushes in flight the revisions are 1 and 2, and
      compacting at 2 removes index 0. No block is there, although the removal stays within the
      block of the push. */
  lemma {:induction false} RemovalCrashRun<T>(size: nat, a: T, b: T) returns (steps: seq<Step<T>>)
    requires size >= 2
    ensures ValidRun(Init(size), steps)
    ensures var s := Exec(Init(size), steps);
            && s.size == size && s.start == 0 && s.length == 2 && NoReaders(s)
            && 0 in s.pushers && s.pushers[0] == Missed(a, 0) && s.pushers[0].index / size == 1 / size
            && Shrink(s, 1).crashed && PushAfterRemoval(s, 0, 1).crashed
  {
    steps := TwoInFlight(size, a, b);
    var s := Exec(Init(size), steps);
    LocateUnique(0, 1, size);
    LocateUnique(0, 0, size);
    Reachable(size, steps);
    RemovalCrashesIff(s, 1);
  }

  /** The second of the two pushes goes on first, and adds the blocks up to its own. */
  lemma {:induction false} SecondGoesFirst<T>(size: nat, a: T, b: T) returns (steps: seq<Step<T>>)
    requires size > 0
    ensures ValidRun(Init(size), steps)
    ensures var s := Exec(Init(size), steps);
            && Inv(s) && s.size == size && s.start == 0 && s.length == 2 && s.pushers == map[0 := Missed(a, 0)]
            && BlockOf(1, 0, size) < |s.blocks|
  {
    steps := TwoInFlight(size, a, b);
    var s0: State<T> := Init(size);
    var s1 := Exec(s0, steps);
    Reachable(size, steps);
    StoreStep(s1, StoreSlow(1));
    Extend(s0, steps, StoreSlow(1));
    steps := steps + [StoreSlow(1)];
    var s := Exec(s0, steps);
    assert Inv(s) && s == SlowStore(s1, 1) && 1 in s.completed;
    assert Stored(s, 1);
    assert s.pushers == s1.pushers - {1} == map[0 := Missed(a, 0)];
  }

  /** The run that loses an element: the second push adds the block first. Removing index 0 then
      succeeds, the first push returns index 0, and nothing is there. */
  lemma {:induction false} RemovalLossRun<T>(size: nat, a: T, b: T) returns (steps: seq<Step<T>>)
    requires size >= 2
    ensures ValidRun(Init(size), steps)
    ensures var s := Exec(Init(size), steps);
            && s.size == size && s.start == 0 && s.length == 2 && s.pushers == map[0 := Missed(a, 0)]
            && !PushAfterRemoval(s, 0, 1).crashed
            && 0 in PushAfterRemoval(s, 0, 1).returned && Get(PushAfterRemoval(s, 0, 1), 0) == Some(None)
  {
    steps := SecondGoesFirst(size, a, b);
    LocateUnique(0, 1, size);
    LocateUnique(0, 0, size);
    RemovalPastPushCrashesIff(Exec(Init(size), steps), 0, 1);
  }
}
