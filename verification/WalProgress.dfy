/** The writers of the log come to rest. When nothing more is appended and no batch gives up on a
    non-empty queue before it has taken a record, every run is bounded and can only end with
    everything in the files. */
module WalProgress {
  import opened Common
  import opened WalCodec
  import opened WalWriter

  // ---------------------------------------------------------------- sums

  ghost function Sum<T>(xs: seq<T>, f: T -> nat): nat {
    if xs == [] then 0 else Sum(DropLast(xs), f) + f(Last(xs))
  }

  ghost predicate Different<T>(xs: seq<T>) {
    forall i, j | 0 <= i < j < |xs| :: xs[i] != xs[j]
  }

  lemma {:induction false} SumAtMost<T>(xs: seq<T>, f: T -> nat, g: T -> nat)
    requires forall x | x in xs :: g(x) <= f(x)
    ensures Sum(xs, g) <= Sum(xs, f)
  {
    if xs != [] {
      assert Last(xs) in xs && forall x | x in DropLast(xs) :: x in xs;
      SumAtMost(DropLast(xs), f, g);
    }
  }

  /** Only the part of `y` may grow. */
  lemma {:induction false} SumMoves<T>(xs: seq<T>, f: T -> nat, g: T -> nat, y: T)
    requires Different(xs) && y in xs && forall x | x in xs && x != y :: g(x) <= f(x)
    ensures Sum(xs, g) + f(y) <= Sum(xs, f) + g(y)
  {
    var front := DropLast(xs);
    assert Last(xs) in xs && forall x | x in front :: x in xs;
    if Last(xs) == y {
      forall x | x in front ensures x != y {
        var i :| 0 <= i < |front| && front[i] == x;
        assert xs[i] == x;
      }
      SumAtMost(front, f, g);
    } else {
      assert xs == front + [Last(xs)];
      SumMoves(front, f, g, y);
    }
  }

  // ---------------------------------------------------------------- the measure

  /** The threads of the pool, the appenders and the prefixes that a run can involve. */
  datatype Cover = Cover(pool: seq<nat>, senders: seq<nat>, names: seq<Bytes>)

  ghost predicate Covers(c: Cover, s: State) {
    && Different(c.pool) && Different(c.senders) && Different(c.names)
    && (forall w | w in s.workers :: w in c.pool)
    && (forall a | a in s.appenders :: a in c.senders)
    && (forall p | Lookup(s.queues, p) != [] :: p in c.names)
  }

  function Load(queue: seq<Record>): nat {
    if queue == [] then 0 else 9 + |Encode(queue[0])| + Load(queue[1..])
  }

  /** How many steps a worker may still make, the sending of its token included. `more` says whether
      the queue of its prefix holds anything. */
  function Weight(worker: Worker, more: bool): nat {
    match worker
    case HasToken(_) => 7
    case SawWork(_) => 6
    case Batching(_, buffer) => if buffer == [] then 5 else |buffer| + (if more then 13 else 4)
    case Flushing(_, buffer) => |buffer| + (if more then 12 else 3)
    case Releasing(_) => if more then 11 else 2
    case Rechecking(_) => if more then 10 else 1
    case Resending(_) => 9
  }

  function WorkerWeight(s: State, w: nat): nat {
    if w in s.workers then Weight(s.workers[w], Lookup(s.queues, s.workers[w].prefix) != []) else 0
  }

  function SenderWeight(s: State, a: nat): nat {
    if a in s.appenders then 9 else 0
  }

  ghost function Workers(s: State, c: Cover): nat {
    Sum(c.pool, w => WorkerWeight(s, w))
  }

  ghost function Senders(s: State, c: Cover): nat {
    Sum(c.senders, a => SenderWeight(s, a))
  }

  ghost function Queued(s: State, c: Cover): nat {
    Sum(c.names, p => Load(Lookup(s.queues, p)))
  }

  ghost function Measure(s: State, c: Cover): nat {
    Workers(s, c) + Senders(s, c) + Queued(s, c) + 8 * |s.tokens|
  }

  // ---------------------------------------------------------------- every step lowers it

  /** Neither an append nor a thread from outside the pool. */
  predicate PoolStep(s: State, step: Step, pool: set<nat>) {
    Enabled(s, step) && !step.Append? && (step.TakeToken? ==> step.w in pool)
  }

  /** A batch that leaves a non-empty queue alone. */
  predicate Idle(s: State, step: Step)
    requires Enabled(s, step)
  {
    step.EndBatch? && s.workers[step.w].buffer == [] && Lookup(s.queues, s.workers[step.w].prefix) != []
  }

  predicate Eager(s: State, step: Step, pool: set<nat>) {
    PoolStep(s, step, pool) && !Idle(s, step)
  }

  predicate EagerRun(s: State, steps: seq<Step>, pool: set<nat>)
    decreases |steps|
  {
    steps == [] || (Eager(s, steps[0], pool) && EagerRun(Next(s, steps[0]), steps[1..], pool))
  }

  ghost predicate InPool(c: Cover, pool: set<nat>) {
    forall w | w in pool :: w in c.pool
  }

  lemma {:induction false} WorkersMove(s: State, s': State, c: Cover, w: nat)
    requires Different(c.pool) && w in c.pool && OnlyWorkerMoves(s, s', w)
    requires forall p | Lookup(s.queues, p) == [] :: Lookup(s'.queues, p) == []
    ensures Workers(s', c) + WorkerWeight(s, w) <= Workers(s, c) + WorkerWeight(s', w)
  {
    forall v | v != w ensures WorkerWeight(s', v) <= WorkerWeight(s, v) { }
    SumMoves(c.pool, v => WorkerWeight(s, v), v => WorkerWeight(s', v), w);
  }

  lemma {:induction false} SendersStay(s: State, s': State, c: Cover)
    requires s'.appenders == s.appenders
    ensures Senders(s', c) <= Senders(s, c)
  {
    SumAtMost(c.senders, a => SenderWeight(s, a), a => SenderWeight(s', a));
  }

  lemma {:induction false} QueuesStay(s: State, s': State, c: Cover)
    requires s'.queues == s.queues
    ensures Queued(s', c) <= Queued(s, c)
  {
    SumAtMost(c.names, p => Load(Lookup(s.queues, p)), p => Load(Lookup(s'.queues, p)));
  }

  /** What one worker's step does to its own weight and to the tokens. */
  lemma {:induction false} WorkerLowers(s: State, step: Step, pool: set<nat>)
    requires Eager(s, step, pool) && !step.SendToken? && !step.TakeRecord?
    ensures var s' := Next(s, step);
            WorkerWeight(s', step.w) + 8 * |s'.tokens| < WorkerWeight(s, step.w) + 8 * |s.tokens|
  {
  }

  lemma {:induction false} StillCovers(s: State, step: Step, c: Cover, pool: set<nat>)
    requires Covers(c, s) && InPool(c, pool) && Eager(s, step, pool)
    ensures Covers(c, Next(s, step))
  {
  }

  /** A step of one worker that leaves queues and appenders alone. */
  lemma {:induction false} WorkerStep(s: State, step: Step, c: Cover, pool: set<nat>)
    requires Covers(c, s) && InPool(c, pool) && Eager(s, step, pool) && !step.SendToken? && !step.TakeRecord?
    ensures Measure(Next(s, step), c) < Measure(s, c)
  {
    var s' := Next(s, step);
    WorkerLowers(s, step, pool);
    WorkerAlone(s, step, pool);
    WorkersMove(s, s', c, step.w);
    SendersStay(s, s', c);
    QueuesStay(s, s', c);
  }

  lemma {:induction false} WorkerAlone(s: State, step: Step, pool: set<nat>)
    requires Eager(s, step, pool) && !step.SendToken? && !step.TakeRecord?
    ensures var s' := Next(s, step);
            OnlyWorkerMoves(s, s', step.w) && s'.queues == s.queues && s'.appenders == s.appenders
    ensures step.w in s.workers || step.w in pool
  {
  }

  /** Taking a record off a queue pays for the steps that it makes possible. */
  lemma {:induction false} RecordPays(s: State, step: Step)
    requires Enabled(s, step) && step.TakeRecord?
    ensures var s', p := Next(s, step), s.workers[step.w].prefix;
            WorkerWeight(s', step.w) + Load(Lookup(s'.queues, p)) < WorkerWeight(s, step.w) + Load(Lookup(s.queues, p))
  {
  }

  lemma {:induction false} QueueMoves(s: State, step: Step, c: Cover)
    requires Covers(c, s) && Enabled(s, step) && step.TakeRecord?
    ensures var s', p := Next(s, step), s.workers[step.w].prefix;
            Queued(s', c) + Load(Lookup(s.queues, p)) <= Queued(s, c) + Load(Lookup(s'.queues, p))
  {
    var s', p := Next(s, step), s.workers[step.w].prefix;
    SumMoves(c.names, q => Load(Lookup(s.queues, q)), q => Load(Lookup(s'.queues, q)), p);
  }

  lemma {:induction false} TakeRecordLowers(s: State, step: Step, c: Cover)
    requires Covers(c, s) && Enabled(s, step) && step.TakeRecord?
    ensures Measure(Next(s, step), c) < Measure(s, c)
  {
    var s' := Next(s, step);
    RecordPays(s, step);
    WorkersMove(s, s', c, step.w);
    QueueMoves(s, step, c);
    SendersStay(s, s', c);
  }

  lemma {:induction false} SendTokenLowers(s: State, step: Step, c: Cover)
    requires Covers(c, s) && Enabled(s, step) && step.SendToken?
    ensures Measure(Next(s, step), c) < Measure(s, c)
  {
    var s' := Next(s, step);
    SumMoves(c.senders, a => SenderWeight(s, a), a => SenderWeight(s', a), step.a);
    SumAtMost(c.pool, w => WorkerWeight(s, w), w => WorkerWeight(s', w));
    QueuesStay(s, s', c);
  }

  lemma {:induction false} StepLowers(s: State, step: Step, c: Cover, pool: set<nat>)
    requires Covers(c, s) && InPool(c, pool) && Eager(s, step, pool)
    ensures Covers(c, Next(s, step)) && Measure(Next(s, step), c) < Measure(s, c)
  {
    StillCovers(s, step, c, pool);
    if step.SendToken? {
      SendTokenLowers(s, step, c);
    } else if step.TakeRecord? {
      TakeRecordLowers(s, step, c);
    } else {
      WorkerStep(s, step, c, pool);
    }
  }

  lemma {:induction false} RunLowers(s: State, steps: seq<Step>, c: Cover, pool: set<nat>)
    requires Covers(c, s) && InPool(c, pool) && EagerRun(s, steps, pool)
    ensures ValidRun(s, steps) && Covers(c, Exec(s, steps))
    ensures |steps| + Measure(Exec(s, steps), c) <= Measure(s, c)
    decreases |steps|
  {
    if steps != [] {
      StepLowers(s, steps[0], c, pool);
      RunLowers(Next(s, steps[0]), steps[1..], c, pool);
    }
  }

  lemma {:induction false} SetAsSeq<T(!new)>(xs: set<T>) returns (list: seq<T>)
    ensures Different(list) && forall x :: x in list <==> x in xs
  {
    list := [];
    if xs != {} {
      var x :| x in xs;
      var rest := SetAsSeq(xs - {x});
      list := rest + [x];
    }
  }

  lemma {:induction false} CoverOf(s: State, pool: set<nat>) returns (c: Cover)
    requires s.workers.Keys <= pool
    ensures Covers(c, s) && InPool(c, pool)
  {
    var threads := SetAsSeq(pool);
    var senders := SetAsSeq(s.appenders.Keys);
    var names := SetAsSeq(s.queues.Keys);
    c := Cover(threads, senders, names);
  }

  // ---------------------------------------------------------------- idle batches

  predicate PoolRun(s: State, steps: seq<Step>, pool: set<nat>)
    decreases |steps|
  {
    steps == [] || (PoolStep(s, steps[0], pool) && PoolRun(Next(s, steps[0]), steps[1..], pool))
  }

  /** How many batches of the run leave a non-empty queue alone. */
  function Idles(s: State, steps: seq<Step>, pool: set<nat>): nat
    requires PoolRun(s, steps, pool)
    decreases |steps|
  {
    if steps == [] then 0
    else (if Idle(s, steps[0]) then 1 else 0) + Idles(Next(s, steps[0]), steps[1..], pool)
  }

  lemma {:induction false} IdleRaises(s: State, step: Step, c: Cover, pool: set<nat>)
    requires Covers(c, s) && PoolStep(s, step, pool) && Idle(s, step)
    ensures Covers(c, Next(s, step)) && Measure(Next(s, step), c) <= Measure(s, c) + 7
  {
    var s' := Next(s, step);
    WorkersMove(s, s', c, step.w);
    SendersStay(s, s', c);
    QueuesStay(s, s', c);
  }

  lemma {:induction false} IdlesPay(s: State, steps: seq<Step>, c: Cover, pool: set<nat>)
    requires Covers(c, s) && InPool(c, pool) && PoolRun(s, steps, pool)
    ensures ValidRun(s, steps) && |steps| + Measure(Exec(s, steps), c) <= Measure(s, c) + 8 * Idles(s, steps, pool)
    decreases |steps|
  {
    if steps != [] {
      if Idle(s, steps[0]) { IdleRaises(s, steps[0], c, pool); } else { StepLowers(s, steps[0], c, pool); }
      IdlesPay(Next(s, steps[0]), steps[1..], c, pool);
    }
  }

  /** Only idle batches make a run long: without appends, a run is at most a bound longer than eight
      times the number of its idle batches. */
  lemma {:induction false} OnlyIdlesAreUnbounded(s: State, pool: set<nat>) returns (bound: nat)
    requires s.workers.Keys <= pool
    ensures forall steps | PoolRun(s, steps, pool) ::
              ValidRun(s, steps) && |steps| <= bound + 8 * Idles(s, steps, pool)
  {
    var c := CoverOf(s, pool);
    bound := Measure(s, c);
    forall steps | PoolRun(s, steps, pool)
      ensures ValidRun(s, steps) && |steps| <= bound + 8 * Idles(s, steps, pool)
    {
      IdlesPay(s, steps, c, pool);
    }
  }

  // ---------------------------------------------------------------- main results

  /** Before everything is at rest, an eager step can be made. */
  lemma {:induction false} EagerStep(s: State, pool: set<nat>) returns (step: Step)
    requires !Quiet(s) && pool != {} && s.workers.Keys <= pool
    ensures Eager(s, step, pool)
  {
    if w :| w in s.workers && s.workers[w].Batching? {
      var waits := s.workers[w].buffer == [] && Lookup(s.queues, s.workers[w].prefix) != [];
      step := if waits then TakeRecord(w) else EndBatch(w);
    } else {
      step := NotStuck(s, pool);
    }
  }

  ghost predicate AtRest(s: State, pool: set<nat>) {
    forall step :: !Eager(s, step, pool)
  }

  lemma {:induction false} WorkersStayInPool(s: State, steps: seq<Step>, pool: set<nat>)
    requires s.workers.Keys <= pool && EagerRun(s, steps, pool)
    ensures ValidRun(s, steps) && Exec(s, steps).workers.Keys <= pool
    decreases |steps|
  {
    if steps != [] { WorkersStayInPool(Next(s, steps[0]), steps[1..], pool); }
  }

  lemma {:induction false} RestIsQuiet(s: State, pool: set<nat>)
    requires pool != {} && s.workers.Keys <= pool
    ensures AtRest(s, pool) <==> Quiet(s)
  {
    if !Quiet(s) { var step := EagerStep(s, pool); }
  }

  /** From every state, with any non-empty pool of threads, there is a bound on the number of eager
      steps, and whoever stops earlier than at rest could have gone on. */
  lemma {:induction false} ComesToRest(s: State, pool: set<nat>) returns (bound: nat)
    requires pool != {} && s.workers.Keys <= pool
    ensures forall steps | EagerRun(s, steps, pool) ::
              && ValidRun(s, steps) && |steps| <= bound
              && (AtRest(Exec(s, steps), pool) <==> Quiet(Exec(s, steps)))
  {
    var c := CoverOf(s, pool);
    bound := Measure(s, c);
    forall steps | EagerRun(s, steps, pool)
      ensures ValidRun(s, steps) && |steps| <= bound
      ensures AtRest(Exec(s, steps), pool) <==> Quiet(Exec(s, steps))
    {
      RunLowers(s, steps, c, pool);
      WorkersStayInPool(s, steps, pool);
      RestIsQuiet(Exec(s, steps), pool);
    }
  }

  lemma {:induction false} AppendedStays(s: State, steps: seq<Step>, pool: set<nat>)
    requires EagerRun(s, steps, pool) && ValidRun(s, steps)
    ensures Exec(s, steps).appended == s.appended
    decreases |steps|
  {
    if steps != [] { AppendedStays(Next(s, steps[0]), steps[1..], pool); }
  }

  /** So once nothing more is appended, an eager run that has gone as far as it can has put into
      every file everything that was ever appended to it. */
  lemma {:induction false} EverythingIsWritten(before: seq<Step>, after: seq<Step>, pool: set<nat>, p: Bytes)
    requires ValidRun(INIT, before) && pool != {} && Exec(INIT, before).workers.Keys <= pool
    requires EagerRun(Exec(INIT, before), after, pool)
    ensures ValidRun(Exec(INIT, before), after)
    ensures var s, t := Exec(INIT, before), Exec(Exec(INIT, before), after);
            AtRest(t, pool) ==> Lookup(t.files, p) == EncodeAll(Lookup(s.appended, p))
  {
    var s := Exec(INIT, before);
    var bound := ComesToRest(s, pool);
    AppendedStays(s, after, pool);
    RunConcat(INIT, before, after);
    if Quiet(Exec(s, after)) { QuietMeansComplete(before + after, p); }
  }

  // ---------------------------------------------------------------- a batch without a record

  lemma {:induction false} EmptyBatch(s: State, w: nat, p: Bytes) returns (steps: seq<Step>)
    requires s.tokens == [p] && w !in s.workers && p !in s.flags && Lookup(s.queues, p) != []
    ensures steps != [] && ValidRun(s, steps)
    ensures Exec(s, steps) == s.(tokens := [], flags := s.flags + {p}, workers := s.workers[w := Flushing(p, [])])
  {
    steps := [];
    Extend(s, steps, TakeToken(w));
    steps := steps + [TakeToken(w)];
    Extend(s, steps, CheckWork(w));
    steps := steps + [CheckWork(w)];
    Extend(s, steps, TryLock(w));
    steps := steps + [TryLock(w)];
    Extend(s, steps, EndBatch(w));
    steps := steps + [EndBatch(w)];
  }

  lemma {:induction false} BackToToken(s: State, w: nat, p: Bytes) returns (steps: seq<Step>)
    requires s.tokens == [] && w in s.workers && s.workers[w] == Flushing(p, []) && Lookup(s.queues, p) != []
    ensures ValidRun(s, steps)
    ensures Exec(s, steps) == s.(tokens := [p], flags := s.flags - {p}, workers := s.workers - {w})
  {
    steps := [];
    Extend(s, steps, EndFlush(w));
    steps := steps + [EndFlush(w)];
    Extend(s, steps, Release(w));
    steps := steps + [Release(w)];
    Extend(s, steps, Recheck(w));
    steps := steps + [Recheck(w)];
    Extend(s, steps, Resend(w));
    steps := steps + [Resend(w)];
  }

  /** Without that condition there is no bound: when the deadline passes before the first record is
      taken, a round of the protocol leads back to where it began. */
  lemma {:induction false} IdleRound(s: State, w: nat, p: Bytes) returns (steps: seq<Step>)
    requires s.tokens == [p] && w !in s.workers && p !in s.flags && Lookup(s.queues, p) != []
    ensures steps != [] && ValidRun(s, steps) && Exec(s, steps) == s
  {
    var first := EmptyBatch(s, w, p);
    var second := BackToToken(Exec(s, first), w, p);
    RunConcat(s, first, second);
    steps := first + second;
    assert s.flags + {p} - {p} == s.flags && s.workers[w := Flushing(p, [])] - {w} == s.workers;
  }

  lemma {:induction false} IdleRounds(s: State, w: nat, p: Bytes, n: nat) returns (steps: seq<Step>)
    requires s.tokens == [p] && w !in s.workers && p !in s.flags && Lookup(s.queues, p) != []
    ensures |steps| >= n && ValidRun(s, steps) && Exec(s, steps) == s
  {
    steps := [];
    if n > 0 {
      var first := IdleRound(s, w, p);
      var rest := IdleRounds(s, w, p, n - 1);
      RunConcat(s, first, rest);
      steps := first + rest;
    }
  }

  /** One append and its token are enough to begin with: from there, runs of any length lead back to
      the same state, with the record still on its queue. */
  lemma {:induction false} IdleForever(p: Bytes, r: Record, n: nat) returns (before: seq<Step>, idle: seq<Step>)
    ensures before == [Append(0, p, r), SendToken(0)] && ValidRun(INIT, before)
    ensures |idle| >= n && ValidRun(Exec(INIT, before), idle) && Exec(Exec(INIT, before), idle) == Exec(INIT, before)
    ensures Lookup(Exec(INIT, before).queues, p) == [r]
  {
    var append: Step := Append(0, p, r);
    Extend(INIT, [], append);
    Extend(INIT, [] + [append], SendToken(0));
    before := [append, SendToken(0)];
    assert [] + [append] + [SendToken(0)] == before;
    idle := IdleRounds(Exec(INIT, before), 0, p, n);
  }
}
