/** The writers of the watch pipeline are the store's writers: every run of the concurrent store, in
    any interleaving with the steps of the watch, is a run of the pipeline. */
module WatchWriters {
  import opened Common
  import opened Mvcc
  import C = ConcurrentStore
  import P = WatchPipeline

  /** The write of revision i + 1 is allocated but not published. */
  ghost predicate Unpublished(c: C.State, i: nat)
    requires i < |c.history|
  {
    C.InFlight(c, c.history[i].key) && c.locks[c.history[i].key].rev == i + 1
  }

  ghost predicate SlotMirrors(c: C.State, p: P.State, i: nat)
    requires i < |c.history| == |p.writes|
  {
    p.writes[i].key == c.history[i].key && (p.writes[i].phase.Held? <==> Unpublished(c, i))
  }

  /** The same keys in tree and index, the same writes, and the same of them still locked. */
  ghost predicate Mirrors(c: C.State, p: P.State) {
    && p.created == c.tree.Keys && p.indexed == c.index
    && |p.writes| == |c.history|
    && forall i | 0 <= i < |c.history| :: SlotMirrors(c, p, i)
  }

  /** What a step of the store is in the pipeline. */
  function Mapped(c: C.State, step: C.Step): seq<P.Step>
    requires C.Enabled(c, step)
  {
    match step
    case Create(key) => [P.Create(key)]
    case IndexKey(key) => [P.IndexKey(key)]
    case Push(key, _) => [P.Allocate(key)]
    case Publish(key) => [P.Publish(c.locks[key].rev)]
    case _ => []
  }

  /** Steps of the pipeline that are not a writer's. */
  predicate Own(step: P.Step) {
    !step.Create? && !step.IndexKey? && !step.Allocate? && !step.Publish?
  }

  lemma {:induction false} InFlightIsNewest(c: C.State, key: Bytes)
    requires C.Inv(c) && C.InFlight(c, key)
    ensures var rev := c.locks[key].rev; 1 <= rev <= |c.history| && c.history[rev - 1].key == key
  {
    assert C.LockOk(c, key);
  }

  /** A key whose lock is held without a revision has no unpublished write. */
  lemma {:induction false} HeldIsUnlocked(c: C.State, p: P.State, key: Bytes)
    requires Mirrors(c, p) && !C.InFlight(c, key)
    ensures P.Unlocked(p, key)
  {
    forall i | 0 <= i < |p.writes| ensures p.writes[i] != P.Slot(key, P.Held) { assert SlotMirrors(c, p, i); }
  }

  /** Steps of the store and of the pipeline that touch no write. */
  lemma {:induction false} SameWrites(c: C.State, c': C.State, p: P.State, p': P.State)
    requires Mirrors(c, p) && c'.history == c.history && c'.locks == c.locks && p'.writes == p.writes
    requires p'.created == c'.tree.Keys && p'.indexed == c'.index
    ensures Mirrors(c', p')
  {
    forall i | 0 <= i < |c.history| ensures SlotMirrors(c', p', i) { assert SlotMirrors(c, p, i); }
  }

  lemma {:induction false} CreateMirrors(c: C.State, p: P.State, key: Bytes)
    requires Mirrors(c, p) && C.Enabled(c, C.Create(key))
    ensures P.Enabled(p, P.Create(key)) && Mirrors(C.Next(c, C.Create(key)), P.Next(p, P.Create(key)))
  {
    SameWrites(c, C.Next(c, C.Create(key)), p, P.Next(p, P.Create(key)));
  }

  lemma {:induction false} IndexMirrors(c: C.State, p: P.State, key: Bytes)
    requires C.Inv(c) && Mirrors(c, p) && C.Enabled(c, C.IndexKey(key))
    ensures P.Enabled(p, P.IndexKey(key)) && Mirrors(C.Next(c, C.IndexKey(key)), P.Next(p, P.IndexKey(key)))
  {
    assert C.IndexOk(c, key);
    SameWrites(c, C.Next(c, C.IndexKey(key)), p, P.Next(p, P.IndexKey(key)));
  }

  lemma {:induction false} PushMirrors(c: C.State, p: P.State, key: Bytes, seen: nat)
    requires C.Inv(c) && Mirrors(c, p) && C.Enabled(c, C.Push(key, seen))
    ensures P.Enabled(p, P.Allocate(key)) && Mirrors(C.Next(c, C.Push(key, seen)), P.Next(p, P.Allocate(key)))
  {
    HeldIsUnlocked(c, p, key);
    var c', p' := C.Next(c, C.Push(key, seen)), P.Next(p, P.Allocate(key));
    assert c'.tree.Keys == c.tree.Keys;
    forall i | 0 <= i < |c'.history| ensures SlotMirrors(c', p', i) {
      if i < |c.history| { assert SlotMirrors(c, p, i); }
    }
  }

  lemma {:induction false} PublishMirrors(c: C.State, p: P.State, key: Bytes)
    requires C.Inv(c) && Mirrors(c, p) && C.Enabled(c, C.Publish(key))
    ensures var step := P.Publish(c.locks[key].rev);
            P.Enabled(p, step) && Mirrors(C.Next(c, C.Publish(key)), P.Next(p, step))
  {
    var rev := c.locks[key].rev;
    InFlightIsNewest(c, key);
    assert SlotMirrors(c, p, rev - 1);
    var c', p' := C.Next(c, C.Publish(key)), P.Next(p, P.Publish(rev));
    assert c'.tree.Keys == c.tree.Keys;
    forall i | 0 <= i < |c'.history| ensures SlotMirrors(c', p', i) { assert SlotMirrors(c, p, i); }
  }

  /** Taking and giving up a lock, readers and compaction: nothing that the pipeline sees. */
  lemma {:induction false} OtherMirrors(c: C.State, p: P.State, step: C.Step)
    requires C.Inv(c) && Mirrors(c, p) && C.Enabled(c, step) && Mapped(c, step) == []
    ensures Mirrors(C.Next(c, step), p)
  {
    forall i | 0 <= i < |c.history| ensures SlotMirrors(C.Next(c, step), p, i) { assert SlotMirrors(c, p, i); }
  }

  lemma {:induction false} OneStep(p: P.State, step: P.Step)
    requires P.Enabled(p, step)
    ensures P.ValidRun(p, [step]) && P.Exec(p, [step]) == P.Next(p, step)
  {
    assert [step][1..] == [];
  }

  /** Every step of the store can be made in the pipeline. */
  lemma {:induction false} StoreStepMirrors(c: C.State, p: P.State, step: C.Step)
    requires C.Inv(c) && Mirrors(c, p) && C.Enabled(c, step)
    ensures P.ValidRun(p, Mapped(c, step)) && Mirrors(C.Next(c, step), P.Exec(p, Mapped(c, step)))
  {
    match step {
      case Create(key) =>
        CreateMirrors(c, p, key);
        OneStep(p, P.Create(key));
      case IndexKey(key) =>
        IndexMirrors(c, p, key);
        OneStep(p, P.IndexKey(key));
      case Push(key, seen) =>
        PushMirrors(c, p, key, seen);
        OneStep(p, P.Allocate(key));
      case Publish(key) =>
        PublishMirrors(c, p, key);
        OneStep(p, P.Publish(c.locks[key].rev));
      case _ => OtherMirrors(c, p, step);
    }
  }

  /** The watch's own steps leave the store's part alone. */
  lemma {:induction false} WatchStepMirrors(c: C.State, p: P.State, step: P.Step)
    requires Mirrors(c, p) && P.Enabled(p, step) && Own(step)
    ensures Mirrors(c, P.Next(p, step))
  {
    forall i | 0 <= i < |c.history| ensures SlotMirrors(c, P.Next(p, step), i) { assert SlotMirrors(c, p, i); }
  }

  // ---------------------------------------------------------------- joint runs

  datatype Joint = OfStore(store: C.Step) | OfWatch(watch: P.Step)

  /** Store and watch take turns in any way; the watch looks at the store through the pipeline. */
  ghost predicate ValidJoint(c: C.State, p: P.State, steps: seq<Joint>)
    decreases |steps|
  {
    steps == [] ||
    match steps[0]
    case OfStore(x) =>
      C.Enabled(c, x) && (P.ValidRun(p, Mapped(c, x)) ==> ValidJoint(C.Next(c, x), P.Exec(p, Mapped(c, x)), steps[1..]))
    case OfWatch(x) => Own(x) && P.Enabled(p, x) && ValidJoint(c, P.Next(p, x), steps[1..])
  }

  lemma {:induction false} PipelineConcat(p: P.State, a: seq<P.Step>, b: seq<P.Step>)
    requires P.ValidRun(p, a) && P.ValidRun(P.Exec(p, a), b)
    ensures P.ValidRun(p, a + b) && P.Exec(p, a + b) == P.Exec(P.Exec(p, a), b)
    decreases |a|
  {
    if a == [] {
      assert a + b == b;
    } else {
      assert (a + b)[0] == a[0] && (a + b)[1..] == a[1..] + b;
      PipelineConcat(P.Next(p, a[0]), a[1..], b);
    }
  }

  /** The steps of the store that a joint run takes. */
  function StoreSteps(steps: seq<Joint>): seq<C.Step> {
    if steps == [] then []
    else (if steps[0].OfStore? then [steps[0].store] else []) + StoreSteps(steps[1..])
  }

  function WatchSteps(steps: seq<Joint>): seq<P.Step> {
    if steps == [] then []
    else (if steps[0].OfWatch? then [steps[0].watch] else []) + WatchSteps(steps[1..])
  }

  function OwnSteps(run: seq<P.Step>): seq<P.Step> {
    if run == [] then [] else (if Own(run[0]) then [run[0]] else []) + OwnSteps(run[1..])
  }

  lemma {:induction false} OwnFirst(step: P.Step, rest: seq<P.Step>)
    ensures OwnSteps([step] + rest) == (if Own(step) then [step] else []) + OwnSteps(rest)
  {
    assert ([step] + rest)[1..] == rest;
  }

  lemma {:induction false} OwnThen(c: C.State, step: C.Step, rest: seq<P.Step>)
    requires C.Enabled(c, step)
    ensures OwnSteps(Mapped(c, step) + rest) == OwnSteps(rest)
  {
    var mapped := Mapped(c, step);
    if mapped == [] {
      assert mapped + rest == rest;
    } else {
      assert mapped == [mapped[0]];
      OwnFirst(mapped[0], rest);
      assert [] + OwnSteps(rest) == OwnSteps(rest);
    }
  }

  /** Every joint run is a run of the store and a run of the pipeline, with the watch's own steps in
      their order, and at the end the two have the same keys and the same writes. */
  lemma {:induction false} JointIsPipeline(c: C.State, p: P.State, steps: seq<Joint>) returns (run: seq<P.Step>)
    requires C.Inv(c) && Mirrors(c, p) && ValidJoint(c, p, steps)
    ensures C.ValidRun(c, StoreSteps(steps)) && P.ValidRun(p, run) && OwnSteps(run) == WatchSteps(steps)
    ensures Mirrors(C.Exec(c, StoreSteps(steps)), P.Exec(p, run))
    decreases |steps|
  {
    if steps == [] {
      run := [];
    } else {
      match steps[0]
      case OfStore(x) =>
        StoreStepMirrors(c, p, x);
        C.StepKeepsInv(c, x);
        var rest := JointIsPipeline(C.Next(c, x), P.Exec(p, Mapped(c, x)), steps[1..]);
        C.RunCons(c, x, StoreSteps(steps[1..]));
        PipelineConcat(p, Mapped(c, x), rest);
        run := Mapped(c, x) + rest;
        OwnThen(c, x, rest);
        assert [] + WatchSteps(steps[1..]) == WatchSteps(steps[1..]);
      case OfWatch(x) =>
        WatchStepMirrors(c, p, x);
        var rest := JointIsPipeline(c, P.Next(p, x), steps[1..]);
        OneStep(p, x);
        PipelineConcat(p, [x], rest);
        run := [x] + rest;
        OwnFirst(x, rest);
        assert [] + StoreSteps(steps[1..]) == StoreSteps(steps[1..]);
    }
  }

  /** From the empty store and a new watch. */
  lemma {:induction false} WatchedStoreIsPipeline(keys: seq<Bytes>, live: set<Bytes>, start: int, steps: seq<Joint>)
    returns (run: seq<P.Step>)
    requires ValidJoint(C.INIT, P.Init(keys, live, start), steps)
    ensures C.ValidRun(C.INIT, StoreSteps(steps)) && P.ValidRun(P.Init(keys, live, start), run)
    ensures OwnSteps(run) == WatchSteps(steps)
    ensures Mirrors(C.Exec(C.INIT, StoreSteps(steps)), P.Exec(P.Init(keys, live, start), run))
  {
    C.InitInv();
    run := JointIsPipeline(C.INIT, P.Init(keys, live, start), steps);
  }
}
