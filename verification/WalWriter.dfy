/** The writers of the write-ahead log. Every prefix has a queue and a file. An append puts a
    record on the queue and then a token for the prefix on a shared channel. Worker threads take
    tokens, and a flag per prefix keeps two of them from writing the same file. */
module WalWriter {
  import opened Common
  import opened WalCodec

  const BATCH_BYTES: nat := 16384

  datatype Worker =
    | HasToken(prefix: Bytes)
    | SawWork(prefix: Bytes)
    | Batching(prefix: Bytes, buffer: Bytes)
    | Flushing(prefix: Bytes, buffer: Bytes)
    | Releasing(prefix: Bytes)
    | Rechecking(prefix: Bytes)
    | Resending(prefix: Bytes)
  {
    /** Holds the prefix's is_writing flag. */
    predicate Writing() {
      Batching? || Flushing? || Releasing?
    }

    /** Bytes taken off the queue that are not in the file yet. */
    function Unwritten(): Bytes {
      if Batching? || Flushing? then buffer else []
    }
  }

  /** A worker that is not in `workers` waits for a token. `appenders` are about to send one.
      `appended` records everything ever appended. */
  datatype State = State(
    queues: map<Bytes, seq<Record>>,
    files: map<Bytes, Bytes>,
    flags: set<Bytes>,
    tokens: seq<Bytes>,
    workers: map<nat, Worker>,
    appenders: map<nat, Bytes>,
    appended: map<Bytes, seq<Record>>)

  datatype Step =
    | Append(a: nat, prefix: Bytes, record: Record)
    | SendToken(a: nat)
    | TakeToken(w: nat)
    | CheckWork(w: nat)
    | TryLock(w: nat)
    | TakeRecord(w: nat)
    | EndBatch(w: nat)
    | WriteSome(w: nat, n: nat)
    | EndFlush(w: nat)
    | Release(w: nat)
    | Recheck(w: nat)
    | Resend(w: nat)

  const INIT := State(map[], map[], {}, [], map[], map[], map[])

  function Lookup<T>(m: map<Bytes, seq<T>>, prefix: Bytes): seq<T> {
    if prefix in m then m[prefix] else []
  }

  predicate Enabled(s: State, step: Step) {
    match step
    case Append(a, _, _) => a !in s.appenders
    case SendToken(a) => a in s.appenders
    case TakeToken(w) => w !in s.workers && s.tokens != []
    case CheckWork(w) => w in s.workers && s.workers[w].HasToken?
    case TryLock(w) => w in s.workers && s.workers[w].SawWork?
    case TakeRecord(w) =>
      && w in s.workers && s.workers[w].Batching? && |s.workers[w].buffer| < BATCH_BYTES
      && Lookup(s.queues, s.workers[w].prefix) != []
    // The deadline may pass at any time.
    case EndBatch(w) => w in s.workers && s.workers[w].Batching?
    case WriteSome(w, n) => w in s.workers && s.workers[w].Flushing? && 1 <= n <= |s.workers[w].buffer|
    case EndFlush(w) => w in s.workers && s.workers[w].Flushing? && s.workers[w].buffer == []
    case Release(w) => w in s.workers && s.workers[w].Releasing?
    case Recheck(w) => w in s.workers && s.workers[w].Rechecking?
    case Resend(w) => w in s.workers && s.workers[w].Resending?
  }

  function Next(s: State, step: Step): State
    requires Enabled(s, step)
  {
    match step
    case Append(a, p, r) =>
      s.(queues := s.queues[p := Lookup(s.queues, p) + [r]],
         appended := s.appended[p := Lookup(s.appended, p) + [r]],
         appenders := s.appenders[a := p])
    case SendToken(a) => s.(tokens := s.tokens + [s.appenders[a]], appenders := s.appenders - {a})
    case TakeToken(w) => s.(tokens := s.tokens[1..], workers := s.workers[w := HasToken(s.tokens[0])])
    case CheckWork(w) =>
      var p := s.workers[w].prefix;
      if Lookup(s.queues, p) == [] then s.(workers := s.workers - {w})
      else s.(workers := s.workers[w := SawWork(p)])
    case TryLock(w) =>
      var p := s.workers[w].prefix;
      if p in s.flags then s.(workers := s.workers - {w})
      else s.(flags := s.flags + {p}, workers := s.workers[w := Batching(p, [])])
    case TakeRecord(w) =>
      var p := s.workers[w].prefix;
      var queue := Lookup(s.queues, p);
      s.(queues := s.queues[p := queue[1..]],
         workers := s.workers[w := Batching(p, s.workers[w].buffer + Encode(queue[0]))])
    case EndBatch(w) => s.(workers := s.workers[w := Flushing(s.workers[w].prefix, s.workers[w].buffer)])
    case WriteSome(w, n) =>
      var p, buffer := s.workers[w].prefix, s.workers[w].buffer;
      s.(files := s.files[p := Lookup(s.files, p) + buffer[..n]], workers := s.workers[w := Flushing(p, buffer[n..])])
    case EndFlush(w) => s.(workers := s.workers[w := Releasing(s.workers[w].prefix)])
    case Release(w) =>
      s.(flags := s.flags - {s.workers[w].prefix}, workers := s.workers[w := Rechecking(s.workers[w].prefix)])
    case Recheck(w) =>
      var p := s.workers[w].prefix;
      if Lookup(s.queues, p) == [] then s.(workers := s.workers - {w})
      else s.(workers := s.workers[w := Resending(p)])
    case Resend(w) => s.(tokens := s.tokens + [s.workers[w].prefix], workers := s.workers - {w})
  }

  predicate ValidRun(s: State, steps: seq<Step>)
    decreases |steps|
  {
    steps == [] || (Enabled(s, steps[0]) && ValidRun(Next(s, steps[0]), steps[1..]))
  }

  function Exec(s: State, steps: seq<Step>): State
    requires ValidRun(s, steps)
    decreases |steps|
  {
    if steps == [] then s else Exec(Next(s, steps[0]), steps[1..])
  }

  lemma {:induction false} RunConcat(s: State, a: seq<Step>, b: seq<Step>)
    requires ValidRun(s, a) && ValidRun(Exec(s, a), b)
    ensures ValidRun(s, a + b) && Exec(s, a + b) == Exec(Exec(s, a), b)
    decreases |a|
  {
    if a == [] {
      assert a + b == b;
    } else {
      assert (a + b)[0] == a[0] && (a + b)[1..] == a[1..] + b;
      RunConcat(Next(s, a[0]), a[1..], b);
    }
  }

  lemma {:induction false} Extend(s: State, steps: seq<Step>, step: Step)
    requires ValidRun(s, steps) && Enabled(Exec(s, steps), step)
    ensures ValidRun(s, steps + [step]) && Exec(s, steps + [step]) == Next(Exec(s, steps), step)
  {
    assert [step][1..] == [] && ValidRun(Exec(s, steps), [step]);
    RunConcat(s, steps, [step]);
  }

  // ---------------------------------------------------------------- the invariant

  ghost predicate WorkerWrites(s: State, w: nat, p: Bytes) {
    w in s.workers && s.workers[w].Writing() && s.workers[w].prefix == p
  }

  /** The flag is held by exactly one worker, or by none. */
  ghost predicate FlagOk(s: State, p: Bytes) {
    && (p in s.flags <==> exists w :: WorkerWrites(s, w, p))
    && (forall v, w | WorkerWrites(s, v, p) && WorkerWrites(s, w, p) :: v == w)
  }

  ghost function Total(s: State, p: Bytes, hand: Bytes): Bytes {
    Lookup(s.files, p) + hand + EncodeAll(Lookup(s.queues, p))
  }

  /** File, bytes in hand and queue are together what has been appended. */
  ghost predicate BytesOk(s: State, p: Bytes) {
    var all := EncodeAll(Lookup(s.appended, p));
    && (p !in s.flags ==> Total(s, p, []) == all)
    && (forall w | WorkerWrites(s, w, p) :: Total(s, p, s.workers[w].Unwritten()) == all)
  }

  ghost predicate Attended(s: State, p: Bytes) {
    || p in s.tokens
    || (exists w :: w in s.workers && s.workers[w].prefix == p)
    || (exists a :: a in s.appenders && s.appenders[a] == p)
  }

  /** Work is never stranded. */
  ghost predicate WorkOk(s: State, p: Bytes) {
    Lookup(s.queues, p) != [] ==> Attended(s, p)
  }

  ghost predicate Inv(s: State) {
    forall p :: FlagOk(s, p) && BytesOk(s, p) && WorkOk(s, p)
  }

  // ---------------------------------------------------------------- the steps keep the invariant

  ghost predicate OnlyWorkerMoves(s: State, s': State, w: nat) {
    forall v | v != w :: (v in s'.workers <==> v in s.workers) && (v in s.workers ==> s'.workers[v] == s.workers[v])
  }

  /** One worker moves; it takes the flag, gives it up, or leaves it alone. */
  lemma {:induction false} FlagMove(s: State, s': State, w: nat, p: Bytes)
    requires FlagOk(s, p) && OnlyWorkerMoves(s, s', w)
    requires (p in s'.flags) == (WorkerWrites(s', w, p) || (p in s.flags && !WorkerWrites(s, w, p)))
    requires WorkerWrites(s', w, p) && !WorkerWrites(s, w, p) ==> p !in s.flags
    ensures FlagOk(s', p)
  {
    assert forall v | v != w :: WorkerWrites(s', v, p) <==> WorkerWrites(s, v, p);
    if p in s'.flags && !WorkerWrites(s', w, p) {
      var v :| WorkerWrites(s, v, p);
      assert WorkerWrites(s', v, p);
    }
  }

  lemma {:induction false} Unaffected(s: State, s': State, p: Bytes)
    requires FlagOk(s, p) && BytesOk(s, p) && s'.workers == s.workers && s'.flags == s.flags
    requires Lookup(s'.queues, p) == Lookup(s.queues, p) && Lookup(s'.files, p) == Lookup(s.files, p)
    requires Lookup(s'.appended, p) == Lookup(s.appended, p)
    ensures FlagOk(s', p) && BytesOk(s', p)
  {
    assert forall w :: WorkerWrites(s', w, p) <==> WorkerWrites(s, w, p);
  }

  /** Attendance that the step leaves in place. */
  lemma {:induction false} StaysAttended(s: State, s': State, p: Bytes)
    requires Attended(s, p)
    requires p in s.tokens ==> p in s'.tokens
    requires forall w | w in s.workers && s.workers[w].prefix == p :: w in s'.workers && s'.workers[w].prefix == p
    requires forall a | a in s.appenders && s.appenders[a] == p :: a in s'.appenders && s'.appenders[a] == p
    ensures Attended(s', p)
  {
    if w :| w in s.workers && s.workers[w].prefix == p {
      assert w in s'.workers && s'.workers[w].prefix == p;
    } else if a :| a in s.appenders && s.appenders[a] == p {
      assert a in s'.appenders && s'.appenders[a] == p;
    }
  }

  /** A worker moves without touching the flag, a queue or a file. */
  lemma {:induction false} QuietMove(s: State, s': State, w: nat)
    requires Inv(s) && OnlyWorkerMoves(s, s', w)
    requires s'.queues == s.queues && s'.files == s.files && s'.flags == s.flags && s'.appended == s.appended
    requires forall p :: WorkerWrites(s', w, p) <==> WorkerWrites(s, w, p)
    requires w in s.workers && w in s'.workers && s.workers[w].Writing() ==>
               s'.workers[w].Unwritten() == s.workers[w].Unwritten()
    requires forall p :: WorkOk(s', p)
    ensures Inv(s')
  {
    forall p ensures FlagOk(s', p) && BytesOk(s', p) && WorkOk(s', p) {
      assert FlagOk(s, p) && BytesOk(s, p);
      FlagMove(s, s', w, p);
      forall v | WorkerWrites(s', v, p)
        ensures WorkerWrites(s, v, p) && s'.workers[v].Unwritten() == s.workers[v].Unwritten()
      {
        assert v != w ==> WorkerWrites(s, v, p);
      }
    }
  }

  lemma {:induction false} AppendHere(s: State, step: Step)
    requires Inv(s) && Enabled(s, step) && step.Append?
    ensures BytesOk(Next(s, step), step.prefix) && WorkOk(Next(s, step), step.prefix)
  {
    var s' := Next(s, step);
    var p := step.prefix;
    assert BytesOk(s, p);
    assert step.a in s'.appenders && s'.appenders[step.a] == p;
    EncodeAllConcat(Lookup(s.queues, p), [step.record]);
    EncodeAllConcat(Lookup(s.appended, p), [step.record]);
    AppendBytes(s, s', p, EncodeAll([step.record]));
  }

  lemma {:induction false} AppendStep(s: State, step: Step)
    requires Inv(s) && Enabled(s, step) && step.Append?
    ensures Inv(Next(s, step))
  {
    var s' := Next(s, step);
    AppendHere(s, step);
    forall p ensures FlagOk(s', p) && BytesOk(s', p) && WorkOk(s', p) {
      assert FlagOk(s, p) && BytesOk(s, p) && WorkOk(s, p);
      if p == step.prefix {
        assert forall w :: WorkerWrites(s', w, p) <==> WorkerWrites(s, w, p);
      } else {
        Unaffected(s, s', p);
        if Lookup(s.queues, p) != [] { StaysAttended(s, s', p); }
      }
    }
  }

  /** The same bytes at the end of the queue and at the end of the record of appends. */
  lemma {:induction false} AppendBytes(s: State, s': State, p: Bytes, more: Bytes)
    requires BytesOk(s, p) && s'.workers == s.workers && s'.files == s.files && s'.flags == s.flags
    requires EncodeAll(Lookup(s'.queues, p)) == EncodeAll(Lookup(s.queues, p)) + more
    requires EncodeAll(Lookup(s'.appended, p)) == EncodeAll(Lookup(s.appended, p)) + more
    ensures BytesOk(s', p)
  {
    var file, rest := Lookup(s.files, p), EncodeAll(Lookup(s.queues, p));
    forall hand: Bytes ensures Total(s', p, hand) == Total(s, p, hand) + more {
      ConcatAssoc(file + hand, rest, more);
    }
    assert forall w :: WorkerWrites(s', w, p) <==> WorkerWrites(s, w, p);
  }

  lemma {:induction false} SendTokenStep(s: State, step: Step)
    requires Inv(s) && Enabled(s, step) && step.SendToken?
    ensures Inv(Next(s, step))
  {
    var s' := Next(s, step);
    forall p ensures WorkOk(s', p) {
      assert WorkOk(s, p);
      if Lookup(s.queues, p) != [] && p != s.appenders[step.a] { StaysAttended(s, s', p); }
    }
    QuietMove(s, s', 0);
  }

  /** A worker moves on with its prefix. */
  lemma {:induction false} CarryOn(s: State, s': State, w: nat)
    requires Inv(s) && w in s.workers && w in s'.workers && s'.workers[w].prefix == s.workers[w].prefix
    requires OnlyWorkerMoves(s, s', w)
    requires forall p | p in s.tokens && p != s.workers[w].prefix :: p in s'.tokens
    requires s'.appenders == s.appenders
    requires forall p | p != s.workers[w].prefix :: Lookup(s'.queues, p) == Lookup(s.queues, p)
    ensures forall p :: WorkOk(s', p)
  {
    forall p ensures WorkOk(s', p) {
      assert WorkOk(s, p);
      if p == s.workers[w].prefix {
        assert w in s'.workers && s'.workers[w].prefix == p;
      } else if Lookup(s'.queues, p) != [] {
        StaysAttended(s, s', p);
      }
    }
  }

  lemma {:induction false} TakeTokenStep(s: State, step: Step)
    requires Inv(s) && Enabled(s, step) && step.TakeToken?
    ensures Inv(Next(s, step))
  {
    var s' := Next(s, step);
    assert s.tokens == [s.tokens[0]] + s.tokens[1..];
    forall p ensures WorkOk(s', p) {
      assert WorkOk(s, p);
      if p == s.tokens[0] {
        assert step.w in s'.workers && s'.workers[step.w].prefix == p;
      } else if Lookup(s.queues, p) != [] {
        StaysAttended(s, s', p);
      }
    }
    QuietMove(s, s', step.w);
  }

  /** A worker goes back to waiting; something else attends to its prefix, or nothing is queued. */
  lemma {:induction false} GoIdle(s: State, s': State, w: nat)
    requires Inv(s) && w in s.workers && !s.workers[w].Writing()
    requires s' == s.(workers := s.workers - {w}, tokens := s'.tokens) && s.tokens <= s'.tokens
    requires Lookup(s.queues, s.workers[w].prefix) != [] ==> Attended(s', s.workers[w].prefix)
    ensures Inv(s')
  {
    forall p ensures WorkOk(s', p) {
      assert WorkOk(s, p);
      if p != s.workers[w].prefix && Lookup(s.queues, p) != [] { StaysAttended(s, s', p); }
    }
    QuietMove(s, s', w);
  }

  /** The steps that only look, and those that give up a prefix. */
  lemma {:induction false} LookStep(s: State, step: Step)
    requires Inv(s) && Enabled(s, step)
    requires step.CheckWork? || step.EndBatch? || step.EndFlush? || step.Recheck? || step.Resend?
    ensures Inv(Next(s, step))
  {
    var s' := Next(s, step);
    var p := s.workers[step.w].prefix;
    if step.w !in s'.workers {
      GoIdle(s, s', step.w);
    } else {
      CarryOn(s, s', step.w);
      QuietMove(s, s', step.w);
    }
  }

  /** Losing the race for the flag is harmless: the winner still has to look at the queue again. */
  lemma {:induction false} LoseFlagStep(s: State, step: Step)
    requires Inv(s) && Enabled(s, step) && step.TryLock? && s.workers[step.w].prefix in s.flags
    ensures Inv(Next(s, step))
  {
    var s' := Next(s, step);
    var p := s.workers[step.w].prefix;
    assert FlagOk(s, p);
    var winner :| WorkerWrites(s, winner, p);
    assert winner in s'.workers && s'.workers[winner].prefix == p;
    GoIdle(s, s', step.w);
  }

  /** The writer of p changes what it has in hand, and the queue and the file change with it. */
  lemma {:induction false} WriterMove(s: State, s': State, w: nat, p: Bytes)
    requires Inv(s) && WorkerWrites(s, w, p) && WorkerWrites(s', w, p) && OnlyWorkerMoves(s, s', w)
    requires s'.flags == s.flags && s'.appended == s.appended && s'.tokens == s.tokens && s'.appenders == s.appenders
    requires forall q | q != p ::
               Lookup(s'.queues, q) == Lookup(s.queues, q) && Lookup(s'.files, q) == Lookup(s.files, q)
    requires Total(s', p, s'.workers[w].Unwritten()) == Total(s, p, s.workers[w].Unwritten())
    ensures Inv(s')
  {
    CarryOn(s, s', w);
    forall q ensures FlagOk(s', q) && BytesOk(s', q) && WorkOk(s', q) {
      assert FlagOk(s, q) && BytesOk(s, q);
      FlagMove(s, s', w, q);
      forall v | WorkerWrites(s', v, q) ensures WorkerWrites(s, v, q) && (v == w <==> q == p) {
        assert FlagOk(s, p);
        if q == p { assert v == w; }
      }
    }
  }

  lemma {:induction false} TakeRecordStep(s: State, step: Step)
    requires Inv(s) && Enabled(s, step) && step.TakeRecord?
    ensures Inv(Next(s, step))
  {
    var w := step.w;
    var p, buffer := s.workers[w].prefix, s.workers[w].buffer;
    var queue := Lookup(s.queues, p);
    ConcatAssoc(buffer, Encode(queue[0]), EncodeAll(queue[1..]));
    ConcatAssoc(Lookup(s.files, p), buffer, EncodeAll(queue));
    ConcatAssoc(Lookup(s.files, p), buffer + Encode(queue[0]), EncodeAll(queue[1..]));
    WriterMove(s, Next(s, step), w, p);
  }

  lemma {:induction false} WriteSomeStep(s: State, step: Step)
    requires Inv(s) && Enabled(s, step) && step.WriteSome?
    ensures Inv(Next(s, step))
  {
    var w, n := step.w, step.n;
    var p, buffer := s.workers[w].prefix, s.workers[w].buffer;
    assert buffer == buffer[..n] + buffer[n..];
    ConcatAssoc(Lookup(s.files, p), buffer[..n], buffer[n..]);
    WriterMove(s, Next(s, step), w, p);
  }

  /** With nothing in hand, the bytes add up whether or not the flag is held. */
  lemma {:induction false} EmptyHanded(s: State, s': State, w: nat, p: Bytes)
    requires FlagOk(s, p) && BytesOk(s, p) && FlagOk(s', p) && OnlyWorkerMoves(s, s', w)
    requires s'.queues == s.queues && s'.files == s.files && s'.appended == s.appended
    requires w in s.workers ==> s.workers[w].Unwritten() == []
    requires w in s'.workers ==> s'.workers[w].Unwritten() == []
    requires p in s.flags && p !in s'.flags ==> WorkerWrites(s, w, p)
    requires p !in s.flags && p in s'.flags ==> WorkerWrites(s', w, p)
    ensures BytesOk(s', p)
  {
    assert forall hand :: Total(s', p, hand) == Total(s, p, hand);
    forall v | WorkerWrites(s', v, p)
      ensures Total(s, p, s'.workers[v].Unwritten()) == EncodeAll(Lookup(s.appended, p))
    {
      if v != w {
        assert WorkerWrites(s, v, p);
      } else if p in s.flags {
        var u :| WorkerWrites(s, u, p);
        assert u != w ==> WorkerWrites(s', u, p);
      }
    }
  }

  lemma {:induction false} TakeFlagStep(s: State, step: Step)
    requires Inv(s) && Enabled(s, step) && step.TryLock? && s.workers[step.w].prefix !in s.flags
    ensures Inv(Next(s, step))
  {
    var s' := Next(s, step);
    CarryOn(s, s', step.w);
    forall q ensures FlagOk(s', q) && BytesOk(s', q) && WorkOk(s', q) {
      assert FlagOk(s, q) && BytesOk(s, q);
      FlagMove(s, s', step.w, q);
      EmptyHanded(s, s', step.w, q);
    }
  }

  lemma {:induction false} ReleaseStep(s: State, step: Step)
    requires Inv(s) && Enabled(s, step) && step.Release?
    ensures Inv(Next(s, step))
  {
    var s' := Next(s, step);
    CarryOn(s, s', step.w);
    forall q ensures FlagOk(s', q) && BytesOk(s', q) && WorkOk(s', q) {
      assert FlagOk(s, q) && BytesOk(s, q);
      FlagMove(s, s', step.w, q);
      EmptyHanded(s, s', step.w, q);
    }
  }

  lemma {:induction false} StepKeepsInv(s: State, step: Step)
    requires Inv(s) && Enabled(s, step)
    ensures Inv(Next(s, step))
  {
    match step
    case Append(_, _, _) => AppendStep(s, step);
    case SendToken(_) => SendTokenStep(s, step);
    case TakeToken(_) => TakeTokenStep(s, step);
    case CheckWork(_) => LookStep(s, step);
    case TryLock(w) => if s.workers[w].prefix in s.flags { LoseFlagStep(s, step); } else { TakeFlagStep(s, step); }
    case TakeRecord(_) => TakeRecordStep(s, step);
    case EndBatch(_) => LookStep(s, step);
    case WriteSome(_, _) => WriteSomeStep(s, step);
    case EndFlush(_) => LookStep(s, step);
    case Release(_) => ReleaseStep(s, step);
    case Recheck(_) => LookStep(s, step);
    case Resend(_) => LookStep(s, step);
  }

  lemma {:induction false} RunKeepsInv(s: State, steps: seq<Step>)
    requires Inv(s) && ValidRun(s, steps)
    ensures Inv(Exec(s, steps))
    decreases |steps|
  {
    if steps != [] {
      StepKeepsInv(s, steps[0]);
      RunKeepsInv(Next(s, steps[0]), steps[1..]);
    }
  }

  // ---------------------------------------------------------------- main results

  lemma {:induction false} ReachableInv(steps: seq<Step>)
    requires ValidRun(INIT, steps)
    ensures Inv(Exec(INIT, steps))
  {
    assert forall p :: FlagOk(INIT, p) && BytesOk(INIT, p) && WorkOk(INIT, p);
    RunKeepsInv(INIT, steps);
  }

  /** In every reachable state, a queue with work in it has a token on the channel, a worker that
      has not finished with the prefix, or an appender about to send a token. */
  lemma {:induction false} WorkIsNeverStranded(steps: seq<Step>, p: Bytes)
    requires ValidRun(INIT, steps) && Lookup(Exec(INIT, steps).queues, p) != []
    ensures Attended(Exec(INIT, steps), p)
  {
    ReachableInv(steps);
    assert WorkOk(Exec(INIT, steps), p);
  }

  /** Every file is at all times a prefix of the records in append order, encoded. */
  lemma {:induction false} FileIsPrefix(steps: seq<Step>, p: Bytes)
    requires ValidRun(INIT, steps)
    ensures Lookup(Exec(INIT, steps).files, p) <= EncodeAll(Lookup(Exec(INIT, steps).appended, p))
  {
    var s := Exec(INIT, steps);
    ReachableInv(steps);
    assert FlagOk(s, p) && BytesOk(s, p);
    if p in s.flags {
      var w :| WorkerWrites(s, w, p);
      ConcatAssoc(Lookup(s.files, p), s.workers[w].Unwritten(), EncodeAll(Lookup(s.queues, p)));
    }
  }

  predicate Quiet(s: State) {
    s.tokens == [] && s.workers == map[] && s.appenders == map[]
  }

  /** When everything has come to rest, every file holds everything that was appended. */
  lemma {:induction false} QuietMeansComplete(steps: seq<Step>, p: Bytes)
    requires ValidRun(INIT, steps) && Quiet(Exec(INIT, steps))
    ensures Lookup(Exec(INIT, steps).files, p) == EncodeAll(Lookup(Exec(INIT, steps).appended, p))
  {
    var s := Exec(INIT, steps);
    ReachableInv(steps);
    assert FlagOk(s, p) && BytesOk(s, p) && WorkOk(s, p);
    assert Lookup(s.queues, p) == [];
    assert Total(s, p, []) == Lookup(s.files, p);
  }

  /** A token whose queue is empty is used up and changes nothing else; in particular the flag is not taken. */
  lemma {:induction false} SpareTokenIsDropped(s: State, w: nat)
    requires Enabled(s, TakeToken(w)) && Lookup(s.queues, s.tokens[0]) == []
    ensures ValidRun(s, [TakeToken(w), CheckWork(w)])
    ensures Exec(s, [TakeToken(w), CheckWork(w)]) == s.(tokens := s.tokens[1..])
  {
    var t := Next(s, TakeToken(w));
    Extend(s, [], TakeToken(w));
    Extend(s, [TakeToken(w)], CheckWork(w));
    assert [] + [TakeToken(w)] == [TakeToken(w)] && [TakeToken(w)] + [CheckWork(w)] == [TakeToken(w), CheckWork(w)];
    assert t.workers - {w} == s.workers;
  }

  /** What the named worker can do next. */
  function NextStep(s: State, w: nat): Step
    requires w in s.workers
  {
    match s.workers[w]
    case HasToken(_) => CheckWork(w)
    case SawWork(_) => TryLock(w)
    case Batching(_, _) => EndBatch(w)
    case Flushing(_, buffer) => if buffer == [] then EndFlush(w) else WriteSome(w, |buffer|)
    case Releasing(_) => Release(w)
    case Rechecking(_) => Recheck(w)
    case Resending(_) => Resend(w)
  }

  /** The protocol cannot lock up, however small the pool of worker threads: before it is at rest,
      an appender or a thread of the pool can always take a step. */
  lemma {:induction false} NotStuck(s: State, pool: set<nat>) returns (step: Step)
    requires !Quiet(s) && pool != {} && s.workers.Keys <= pool
    ensures Enabled(s, step) && !step.Append? && (step.TakeToken? ==> step.w in pool)
  {
    if s.appenders != map[] {
      var a :| a in s.appenders;
      step := SendToken(a);
    } else if s.workers != map[] {
      var w :| w in s.workers;
      step := NextStep(s, w);
    } else {
      var w :| w in pool;
      step := TakeToken(w);
    }
  }
}

/** One batch of one writer: `write_locked`, run while the prefix's flag is held. */
module WalBatch {
  import opened Common
  import opened WalCodec
  import opened WalWriter

  class PerPrefixWriter {
    var queue: seq<Record>
    var file: Bytes

    /** Batches records until the size limit, the deadline (after `budget` records) or the end of
        the queue. */
    method Batch(budget: nat) returns (buffer: Bytes, taken: nat)
      modifies this`queue
      ensures taken <= |old(queue)| && queue == old(queue)[taken..]
      ensures buffer == EncodeAll(old(queue)[..taken])
      ensures taken < budget && taken < |old(queue)| ==> |buffer| >= 16384
    {
      buffer, taken := [], 0;
      ghost var all := queue;
      while |buffer| < BATCH_BYTES && taken < budget && queue != []
        invariant taken <= |all| && queue == all[taken..]
        invariant buffer == EncodeAll(all[..taken])
        decreases |queue|
      {
        EncodeNext(all, taken);
        buffer := buffer + Encode(queue[0]);
        queue := queue[1..];
        taken := taken + 1;
      }
    }

    /** Writes the buffer, which the system may accept in pieces. */
    method Flush(buffer: Bytes)
      modifies this`file
      ensures file == old(file) + buffer
    {
      var written := 0;
      while written < |buffer|
        invariant written <= |buffer| && file == old(file) + buffer[..written]
        decreases |buffer| - written
      {
        var n :| 1 <= n <= |buffer| - written;
        assert buffer[..written + n] == buffer[..written] + buffer[written..written + n];
        file := file + buffer[written..written + n];
        written := written + n;
      }
      assert buffer[..|buffer|] == buffer;
    }

    method WriteLocked(budget: nat) returns (taken: nat)
      modifies this
      ensures taken <= |old(queue)| && queue == old(queue)[taken..]
      ensures file == old(file) + EncodeAll(old(queue)[..taken])
      ensures taken < budget && taken < |old(queue)| ==> |EncodeAll(old(queue)[..taken])| >= 16384
    {
      var buffer;
      buffer, taken := Batch(budget);
      Flush(buffer);
    }
  }

  lemma {:induction false} EncodeNext(all: seq<Record>, i: nat)
    requires i < |all|
    ensures EncodeAll(all[..i + 1]) == EncodeAll(all[..i]) + Encode(all[i])
  {
    assert all[..i + 1] == all[..i] + [all[i]];
    EncodeAllConcat(all[..i], [all[i]]);
    assert EncodeAll([all[i]]) == Encode(all[i]);
  }
}
