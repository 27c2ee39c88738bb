/** Progress replies: the promise that no later event of the stream lies at or below the revision
    that was reported. */
module WatchProgress {
  import opened Common
  import opened WatchPipeline
  import opened WatchDelivery

  /** What the stream answers to a progress request. */
  function Reported(s: State): int {
    Max(s.progress, s.maxRev)
  }

  /** An event that waits in the channel, will be delivered, and is not above the report. */
  ghost predicate Overtaken(s: State, e: int)
    requires s.taken <= |s.pushed|
  {
    e in s.pushed[s.taken..] && s.maxRev < e <= s.progress
  }

  /** How a run extends a stream: the notify thread only adds revisions it had not reached. */
  ghost predicate Extends(s: State, t: State) {
    && t.streaming && t.past == s.past
    && s.nextRev <= t.nextRev && s.taken <= t.taken
    && s.pushed <= t.pushed
    && forall i | |s.pushed| <= i < |t.pushed| :: t.pushed[i] >= s.nextRev
  }

  lemma {:induction false} StepExtends(s: State, step: Step)
    requires Inv(s) && s.streaming && Enabled(s, step)
    ensures Extends(s, Next(s, step))
  {
    if step.Receive? { assert Counted(s, step.rev); }
  }

  lemma {:induction false} RunExtends(s: State, steps: seq<Step>)
    requires Inv(s) && s.streaming && ValidRun(s, steps)
    ensures Extends(s, Exec(s, steps)) && Inv(Exec(s, steps))
    decreases |steps|
  {
    if steps != [] {
      StepExtends(s, steps[0]);
      StepKeepsInv(s, steps[0]);
      RunExtends(Next(s, steps[0]), steps[1..]);
    }
  }

  /** What the stream delivers after a state is what it retains of the events read since. */
  lemma {:induction false} DeliveredSince(s: State, t: State)
    requires Inv(s) && Inv(t) && s.streaming && Extends(s, t)
    ensures s.delivered <= t.delivered
    ensures t.delivered[|s.delivered|..] == Retain(t.pushed[s.taken..t.taken], s.maxRev)
  {
    var before, batch := s.pushed[..s.taken], t.pushed[s.taken..t.taken];
    assert t.pushed[..t.taken] == before + batch;
    StreamedNext(s.past, before, batch, s.delivered, s.maxRev);
    assert t.delivered == s.delivered + Retain(batch, s.maxRev);
  }

  /** Between s and t, no event at or below the revision is delivered. */
  ghost predicate NothingBelow(s: State, t: State, revision: int) {
    s.delivered <= t.delivered && forall x | x in t.delivered[|s.delivered|..] :: x > revision
  }

  /** A reply with this revision, given in s, holds whatever happens next. */
  ghost predicate Promised(s: State, revision: int) {
    forall steps | ValidRun(s, steps) :: NothingBelow(s, Exec(s, steps), revision)
  }

  /** An event read after s, and not dropped, was waiting in the channel or not yet sent. */
  lemma {:induction false} ReadLater(s: State, t: State, x: int)
    requires Inv(s) && Extends(s, t) && t.taken <= |t.pushed| && x in t.pushed[s.taken..t.taken]
    ensures x in s.pushed[s.taken..] || x >= s.nextRev
  {
    var i :| 0 <= i < |t.pushed[s.taken..t.taken]| && t.pushed[s.taken..t.taken][i] == x;
    var k := s.taken + i;
    assert t.pushed[k] == x;
    if k < |s.pushed| { assert s.pushed[s.taken..][i] == x; }
  }

  lemma {:induction false} ProgressSafe(s: State, steps: seq<Step>)
    requires Inv(s) && s.streaming && ValidRun(s, steps)
    requires forall e :: !Overtaken(s, e)
    ensures NothingBelow(s, Exec(s, steps), Reported(s))
  {
    var t := Exec(s, steps);
    RunExtends(s, steps);
    DeliveredSince(s, t);
    RetainMembers(t.pushed[s.taken..t.taken], s.maxRev);
    forall x | x in t.delivered[|s.delivered|..] ensures x > Reported(s) {
      ReadLater(s, t, x);
      assert !Overtaken(s, x);
    }
  }

  /** Reading the channel one event at a time. */
  lemma {:induction false} ReadOn(s: State, n: nat) returns (steps: seq<Step>)
    requires s.streaming && s.taken + n <= |s.pushed|
    ensures ValidRun(s, steps) && Exec(s, steps).taken == s.taken + n && Exec(s, steps).pushed == s.pushed
    decreases n
  {
    if n == 0 {
      steps := [];
    } else {
      var t := Next(s, RecvMany(1));
      var rest := ReadOn(t, n - 1);
      steps := [RecvMany(1)] + rest;
      assert steps[1..] == rest;
    }
  }

  lemma {:induction false} OvertakenBreaks(s: State, e: int) returns (steps: seq<Step>)
    requires Inv(s) && s.streaming && Overtaken(s, e)
    ensures ValidRun(s, steps)
    ensures !NothingBelow(s, Exec(s, steps), Reported(s))
  {
    steps := ReadOn(s, |s.pushed| - s.taken);
    var t := Exec(s, steps);
    RunExtends(s, steps);
    DeliveredSince(s, t);
    assert t.pushed[s.taken..t.taken] == s.pushed[s.taken..];
    RetainMembers(s.pushed[s.taken..], s.maxRev);
    assert e in t.delivered[|s.delivered|..];
  }

  /** A progress reply given in state s holds in every continuation if and only if the channel
      holds no event between the newest delivered one and the progress revision that was read. */
  lemma {:induction false} ProgressIff(s: State)
    requires Inv(s) && s.streaming
    ensures Promised(s, Reported(s)) <==> forall e :: !Overtaken(s, e)
  {
    if forall e :: !Overtaken(s, e) {
      forall steps | ValidRun(s, steps)
        ensures NothingBelow(s, Exec(s, steps), Reported(s))
      {
        ProgressSafe(s, steps);
      }
    } else {
      var e :| Overtaken(s, e);
      var steps := OvertakenBreaks(s, e);
    }
  }

  /** In particular it holds when the channel is empty at the moment the revision is read. */
  lemma {:induction false} EmptyChannelIsSafe(keys: seq<Bytes>, live: set<Bytes>, start: int,
                                              before: seq<Step>, after: seq<Step>)
    requires Distinct(keys) && ValidRun(Init(keys, live, start), before)
    requires var s := Exec(Init(keys, live, start), before);
             s.streaming && s.taken == |s.pushed| && ValidRun(s, after)
    ensures var s := Exec(Init(keys, live, start), before);
            NothingBelow(s, Exec(s, after), Reported(s))
  {
    Reachable(keys, live, start, before);
    var s := Exec(Init(keys, live, start), before);
    assert s.pushed[s.taken..] == [];
    ProgressSafe(s, after);
  }

  /** But the loop looks at the channel first and reads the revision afterwards. From any state
      where it has found the channel empty, a write can pass through in between. */
  lemma {:induction false} EmptyWhenPolledIsNotEnough(key: Bytes) returns (before: seq<Step>, between: seq<Step>)
    ensures ValidRun(Init([key], {key}, 1), before)
    ensures var polled := Exec(Init([key], {key}, 1), before);
            && polled.streaming && polled.taken == |polled.pushed| && ValidRun(polled, between)
            && Inv(Exec(polled, between)) && Overtaken(Exec(polled, between), 1)
    ensures forall i | 0 <= i < |between| :: !between[i].RecvMany?
  {
    before := QuietStart(key);
    var polled := Exec(Init([key], {key}, 1), before);
    between := WriteOne(polled, key);
    Extend(polled, between, Receive(1));
    between := between + [Receive(1)];
    Extend(polled, between, Finish);
    between := between + [Finish];
    var s := Exec(polled, between);
    assert s.pushed[s.taken..] == [1];
    Reachable([key], {key}, 1, before);
    RunKeepsInv(polled, between);
  }

  /** A stream that has started and has nothing to deliver yet. */
  lemma {:induction false} QuietStart(key: Bytes) returns (steps: seq<Step>)
    ensures ValidRun(Init([key], {key}, 1), steps)
    ensures Exec(Init([key], {key}, 1), steps) ==
            Init([key], {key}, 1).(created := {key}, indexed := {key}, registered := true, listed := true, scanned := 1,
                            streaming := true)
  {
    var s0 := Init([key], {key}, 1);
    steps := [];
    Extend(s0, steps, Create(key));
    steps := steps + [Create(key)];
    Extend(s0, steps, IndexKey(key));
    steps := steps + [IndexKey(key)];
    Extend(s0, steps, Register);
    steps := steps + [Register];
    assert (set k | k in [key] && k !in {key}) == {};
    Extend(s0, steps, List);
    steps := steps + [List];
    NoRevs([], key, 1);
    Extend(s0, steps, Scan);
    steps := steps + [Scan];
    Extend(s0, steps, StartStream);
    steps := steps + [StartStream];
  }
}
