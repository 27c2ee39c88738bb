/** The notify thread of the pipeline is the notify thread: its steps Receive, Drain and Finish,
    taken together, do what one arrival does there. */
module WatchNotify {
  import opened Common
  import opened MinHeaps
  import opened WatchPipeline
  import Notify

  /** The job of a revision carries whether the watcher is among its receivers. */
  type Thread = Notify.Thread<bool>

  ghost predicate SpoolAgrees(t: Thread, s: State) {
    && Notify.SpoolOk(t)
    && forall e: Entry<bool> :: e in t.spool <==> IsRev(s, e.rev) && PhaseOf(s, e.rev) == Spooled(e.item)
  }

  ghost predicate SentAgrees(t: Thread, s: State) {
    && |t.sent| == t.nextRev - 1 <= |s.writes|
    && forall i | 0 <= i < |t.sent| :: t.sent[i].rev == i + 1 && PhaseOf(s, i + 1) == Sent(t.sent[i].item)
  }

  ghost predicate Simulates(t: Thread, s: State) {
    && t.nextRev == s.nextRev && t.progress == s.progress
    && SpoolAgrees(t, s) && SentAgrees(t, s)
  }

  lemma {:induction false} StartSimulates(keys: seq<Bytes>, live: set<Bytes>, start: int)
    ensures Simulates(Notify.Start(), Init(keys, live, start))
  {
  }

  /** Sending the job of the next revision. */
  lemma {:induction false} SendSent(t: Thread, s: State, sees: bool)
    requires SentAgrees(t, s) && t.nextRev == s.nextRev && IsRev(s, s.nextRev)
    requires PhaseOf(s, s.nextRev) in {Collected(sees), Spooled(sees)}
    ensures SentAgrees(Notify.Send(t, Entry(s.nextRev, sees)), Send(s, s.nextRev))
  {
  }

  /** Taking the top off a spool of distinct revisions takes just that job. */
  lemma {:induction false} RestOfSpool(spool: seq<Entry<bool>>, e: Entry<bool>)
    requires spool != [] && forall i, j | 0 <= i < j < |spool| :: spool[i].rev != spool[j].rev
    ensures e in spool[1..] <==> e in spool && e.rev != spool[0].rev
  {
    var rest := spool[1..];
    assert spool == [spool[0]] + rest;
    if e in rest {
      var k :| 0 <= k < |rest| && rest[k] == e;
      assert spool[k + 1] == e;
    }
  }

  lemma {:induction false} PopSpool(t: Thread, s: State)
    requires SpoolAgrees(t, s) && t.spool != [] && t.spool[0].rev == s.nextRev == t.nextRev
    ensures IsRev(s, s.nextRev) && PhaseOf(s, s.nextRev) == Spooled(t.spool[0].item)
    ensures SpoolAgrees(Notify.Send(t, t.spool[0]).(spool := t.spool[1..]), Send(s, s.nextRev))
  {
    assert t.spool[0] in t.spool;
    var s' := Send(s, s.nextRev);
    forall e: Entry<bool>
      ensures e in t.spool[1..] <==> IsRev(s', e.rev) && PhaseOf(s', e.rev) == Spooled(e.item)
    {
      RestOfSpool(t.spool, e);
      assert e in t.spool <==> IsRev(s, e.rev) && PhaseOf(s, e.rev) == Spooled(e.item);
    }
  }

  /** Only the job of the next revision can be on top and due. */
  lemma {:induction false} NothingDue(t: Thread, s: State)
    requires SpoolAgrees(t, s) && t.nextRev == s.nextRev && !(t.spool != [] && t.spool[0].rev == t.nextRev)
    ensures !(IsRev(s, s.nextRev) && PhaseOf(s, s.nextRev).Spooled?)
  {
    forall k | 0 <= k < |t.spool| ensures t.spool[k].rev != t.nextRev { }
    assert Entry(s.nextRev, true) !in t.spool && Entry(s.nextRev, false) !in t.spool;
  }

  /** The draining loop and the store of the progress. */
  lemma {:induction false} DrainSimulates(t: Thread, s: State) returns (steps: seq<Step>)
    requires Simulates(t, s) && s.busy
    ensures ValidRun(s, steps) && !Exec(s, steps).busy
    ensures Simulates(Notify.Drain(t).(progress := Notify.Drain(t).nextRev - 1), Exec(s, steps))
    decreases |t.spool|
  {
    if t.spool != [] && t.spool[0].rev == t.nextRev {
      PopSpool(t, s);
      SendSent(t, s, t.spool[0].item);
      var s' := Next(s, Drain);
      var rest := DrainSimulates(Notify.Send(t, t.spool[0]).(spool := t.spool[1..]), s');
      steps := [Drain] + rest;
      assert steps[1..] == rest;
    } else {
      NothingDue(t, s);
      var s' := Next(s, Finish);
      steps := [Finish];
      assert ValidRun(s', steps[1..]) && Exec(s, steps) == s';
      SameAgreement(t, t.(progress := t.nextRev - 1), s, s');
    }
  }

  lemma {:induction false} SameAgreement(t: Thread, t': Thread, s: State, s': State)
    requires SpoolAgrees(t, s) && SentAgrees(t, s)
    requires t'.spool == t.spool && t'.sent == t.sent && t'.nextRev == t.nextRev && s'.writes == s.writes
    ensures SpoolAgrees(t', s') && SentAgrees(t', s')
  {
    forall e: Entry<bool> ensures e in t'.spool <==> IsRev(s', e.rev) && PhaseOf(s', e.rev) == Spooled(e.item) {
      assert e in t.spool <==> IsRev(s, e.rev) && PhaseOf(s, e.rev) == Spooled(e.item);
    }
  }

  lemma {:induction false} SpoolSimulates(t: Thread, s: State, r: int)
    requires Simulates(t, s) && Notify.Settled(t) && Enabled(s, Receive(r)) && r > s.nextRev
    ensures Simulates(Notify.OnJob(t, Entry(r, PhaseOf(s, r).sees)), Next(s, Receive(r)))
  {
    var job := Entry(r, PhaseOf(s, r).sees);
    var t', s' := Notify.OnJob(t, job), Next(s, Receive(r));
    forall i | 0 <= i < |t.spool| ensures t.spool[i].rev != r { assert t.spool[i] in t.spool; }
    Notify.SpoolStep(t, job);
    HeapPushMembers(t.spool, job);
    forall e: Entry<bool> ensures e in t'.spool <==> IsRev(s', e.rev) && PhaseOf(s', e.rev) == Spooled(e.item) {
      assert e in t.spool <==> IsRev(s, e.rev) && PhaseOf(s, e.rev) == Spooled(e.item);
    }
  }

  lemma {:induction false} SendKeepsSpool(t: Thread, s: State, sees: bool)
    requires SpoolAgrees(t, s) && Notify.Settled(t) && t.nextRev == s.nextRev && IsRev(s, s.nextRev)
    requires PhaseOf(s, s.nextRev) == Collected(sees)
    ensures SpoolAgrees(Notify.Send(t, Entry(s.nextRev, sees)), Send(s, s.nextRev))
  {
    var s' := Send(s, s.nextRev);
    forall e: Entry<bool> ensures e in t.spool <==> IsRev(s', e.rev) && PhaseOf(s', e.rev) == Spooled(e.item) {
      assert e in t.spool <==> IsRev(s, e.rev) && PhaseOf(s, e.rev) == Spooled(e.item);
    }
  }

  /** From a state at rest of the thread, receiving a job and finishing with it takes the pipeline
      to where one arrival takes the thread. */
  lemma {:induction false} ReceiveIsOnJob(t: Thread, s: State, r: int) returns (steps: seq<Step>)
    requires Inv(s) && Simulates(t, s) && Notify.Settled(t) && Enabled(s, Receive(r))
    ensures steps != [] && steps[0] == Receive(r) && ValidRun(s, steps) && !Exec(s, steps).busy
    ensures Simulates(Notify.OnJob(t, Entry(r, PhaseOf(s, r).sees)), Exec(s, steps))
  {
    var s' := Next(s, Receive(r));
    assert Counted(s, r);
    var rest := [];
    if r > s.nextRev {
      SpoolSimulates(t, s, r);
      assert ValidRun(s', rest);
    } else {
      var sees := PhaseOf(s, r).sees;
      SendKeepsSpool(t, s, sees);
      SendSent(t, s, sees);
      rest := DrainSimulates(Notify.Send(t, Entry(r, sees)), s');
    }
    steps := [Receive(r)] + rest;
    assert steps[1..] == rest;
  }

  // ---------------------------------------------------------------- over whole runs

  function JobOf(s: State, step: Step): seq<Entry<bool>>
    requires Enabled(s, step)
  {
    if step.Receive? then [Entry(step.rev, PhaseOf(s, step.rev).sees)] else []
  }

  /** The jobs of a run, in the order in which the thread receives them. */
  function Received(s: State, steps: seq<Step>): seq<Entry<bool>>
    requires ValidRun(s, steps)
    decreases |steps|
  {
    if steps == [] then [] else JobOf(s, steps[0]) + Received(Next(s, steps[0]), steps[1..])
  }

  function Finished(t: Thread): Thread {
    Notify.Drain(t).(progress := Notify.Drain(t).nextRev - 1)
  }

  /** While the thread is busy, what it has still to drain takes it to `t`. */
  ghost predicate Follows(t: Thread, s: State) {
    if s.busy then exists mid :: Simulates(mid, s) && Finished(mid) == t
    else Simulates(t, s) && Notify.Settled(t)
  }

  /** A step that sends and spools nothing. */
  ghost predicate SamePhases(s: State, s': State) {
    && s'.nextRev == s.nextRev && s'.progress == s.progress && |s.writes| <= |s'.writes|
    && (forall r, sees :: IsRev(s', r) && PhaseOf(s', r) == Spooled(sees) <==>
                          IsRev(s, r) && PhaseOf(s, r) == Spooled(sees))
    && (forall r | IsRev(s, r) && PhaseOf(s, r).Sent? :: PhaseOf(s', r) == PhaseOf(s, r))
  }

  lemma {:induction false} StillSimulates(t: Thread, s: State, s': State)
    requires Simulates(t, s) && SamePhases(s, s')
    ensures Simulates(t, s')
  {
    forall e: Entry<bool> ensures e in t.spool <==> IsRev(s', e.rev) && PhaseOf(s', e.rev) == Spooled(e.item) {
      assert e in t.spool <==> IsRev(s, e.rev) && PhaseOf(s, e.rev) == Spooled(e.item);
    }
  }

  lemma {:induction false} StillFollows(t: Thread, s: State, s': State)
    requires Follows(t, s) && SamePhases(s, s') && s'.busy == s.busy
    ensures Follows(t, s')
  {
    if s.busy {
      var mid :| Simulates(mid, s) && Finished(mid) == t;
      StillSimulates(mid, s, s');
    } else {
      StillSimulates(t, s, s');
    }
  }

  lemma {:induction false} OtherSteps(t: Thread, s: State, step: Step)
    requires Follows(t, s) && Enabled(s, step) && !step.Receive? && !step.Drain? && !step.Finish?
    ensures Follows(t, Next(s, step))
  {
    StillFollows(t, s, Next(s, step));
  }

  lemma {:induction false} DueIsOnTop(t: Thread, s: State)
    requires SpoolAgrees(t, s) && t.nextRev == s.nextRev && IsRev(s, s.nextRev) && PhaseOf(s, s.nextRev).Spooled?
    ensures t.spool != [] && t.spool[0].rev == t.nextRev
  {
    var e := Entry(s.nextRev, PhaseOf(s, s.nextRev).sees);
    assert e in t.spool;
    var k :| 0 <= k < |t.spool| && t.spool[k] == e;
  }

  lemma {:induction false} DrainFollows(t: Thread, s: State)
    requires Follows(t, s) && Enabled(s, Drain)
    ensures Follows(t, Next(s, Drain))
  {
    var mid :| Simulates(mid, s) && Finished(mid) == t;
    DueIsOnTop(mid, s);
    PopSpool(mid, s);
    SendSent(mid, s, mid.spool[0].item);
    var next := Notify.Send(mid, mid.spool[0]).(spool := mid.spool[1..]);
    assert Simulates(next, Next(s, Drain)) && Finished(next) == t;
  }

  lemma {:induction false} FinishFollows(t: Thread, s: State)
    requires Follows(t, s) && Enabled(s, Finish)
    ensures Follows(t, Next(s, Finish))
  {
    var mid :| Simulates(mid, s) && Finished(mid) == t;
    NothingToDrain(mid, s);
    SameAgreement(mid, t, s, Next(s, Finish));
  }

  lemma {:induction false} NothingToDrain(t: Thread, s: State)
    requires Simulates(t, s) && !(IsRev(s, s.nextRev) && PhaseOf(s, s.nextRev).Spooled?)
    ensures Notify.Drain(t) == t && Notify.Settled(t)
  {
    if t.spool != [] && t.spool[0].rev == t.nextRev { PopSpool(t, s); }
    Notify.DrainKeeps(t);
  }

  lemma {:induction false} SpoolFollows(t: Thread, s: State, r: int)
    requires Follows(t, s) && Enabled(s, Receive(r)) && r > s.nextRev
    ensures Follows(Notify.OnJob(t, Entry(r, PhaseOf(s, r).sees)), Next(s, Receive(r)))
  {
    SpoolSimulates(t, s, r);
    forall i | 0 <= i < |t.spool| ensures t.spool[i].rev != r { assert t.spool[i] in t.spool; }
    Notify.SpoolStep(t, Entry(r, PhaseOf(s, r).sees));
  }

  lemma {:induction false} SendFollows(t: Thread, s: State, r: int)
    requires Follows(t, s) && Enabled(s, Receive(r)) && r == s.nextRev
    ensures Follows(Notify.OnJob(t, Entry(r, PhaseOf(s, r).sees)), Next(s, Receive(r)))
  {
    var sees := PhaseOf(s, r).sees;
    SendKeepsSpool(t, s, sees);
    SendSent(t, s, sees);
    var mid := Notify.Send(t, Entry(r, sees));
    assert Simulates(mid, Next(s, Receive(r))) && Finished(mid) == Notify.OnJob(t, Entry(r, sees));
  }

  lemma {:induction false} ReceiveFollows(t: Thread, s: State, r: int)
    requires Inv(s) && Follows(t, s) && Enabled(s, Receive(r))
    ensures Follows(Notify.OnJob(t, Entry(r, PhaseOf(s, r).sees)), Next(s, Receive(r)))
  {
    assert Counted(s, r);
    if r > s.nextRev { SpoolFollows(t, s, r); } else { SendFollows(t, s, r); }
  }

  /** Every job received so far is one of a revision that is spooled or sent. */
  ghost predicate Arrivals(jobs: seq<Entry<bool>>, s: State) {
    && Notify.DistinctRevs(jobs)
    && forall i | 0 <= i < |jobs| ::
         IsRev(s, jobs[i].rev) && (PhaseOf(s, jobs[i].rev).Spooled? || PhaseOf(s, jobs[i].rev).Sent?)
  }

  lemma {:induction false} ArrivalsStep(jobs: seq<Entry<bool>>, s: State, step: Step)
    requires Inv(s) && Arrivals(jobs, s) && Enabled(s, step)
    ensures Arrivals(jobs + JobOf(s, step), Next(s, step))
  {
    var s', all := Next(s, step), jobs + JobOf(s, step);
    forall i | 0 <= i < |all|
      ensures IsRev(s', all[i].rev) && (PhaseOf(s', all[i].rev).Spooled? || PhaseOf(s', all[i].rev).Sent?)
    {
      if i < |jobs| { assert all[i] == jobs[i]; }
    }
  }

  lemma {:induction false} StepFollows(jobs: seq<Entry<bool>>, s: State, step: Step)
    requires Inv(s) && Follows(Notify.Run(jobs), s) && Enabled(s, step)
    ensures Follows(Notify.Run(jobs + JobOf(s, step)), Next(s, step))
  {
    var t: Thread := Notify.Run(jobs);
    assert jobs + [] == jobs;
    match step {
      case Receive(r) =>
        var job := Entry(r, PhaseOf(s, r).sees);
        ReceiveFollows(t, s, r);
        assert DropLast(jobs + [job]) == jobs && Last(jobs + [job]) == job;
      case Drain => DrainFollows(t, s);
      case Finish => FinishFollows(t, s);
      case _ => OtherSteps(t, s, step);
    }
  }

  lemma {:induction false} RunFollows(jobs: seq<Entry<bool>>, s: State, steps: seq<Step>)
    requires Inv(s) && Follows(Notify.Run(jobs), s) && Arrivals(jobs, s) && ValidRun(s, steps)
    ensures Follows(Notify.Run(jobs + Received(s, steps)), Exec(s, steps))
    ensures Arrivals(jobs + Received(s, steps), Exec(s, steps))
    decreases |steps|
  {
    if steps == [] {
      assert jobs + [] == jobs;
    } else {
      var next := Next(s, steps[0]);
      StepFollows(jobs, s, steps[0]);
      ArrivalsStep(jobs, s, steps[0]);
      StepKeepsInv(s, steps[0]);
      RunFollows(jobs + JobOf(s, steps[0]), next, steps[1..]);
      ConcatAssoc(jobs, JobOf(s, steps[0]), Received(next, steps[1..]));
    }
  }

  /** In every run, whenever the thread of the pipeline waits for a job, its counter, heap, sent jobs
      and progress are those of the notify thread after the same jobs in the same order. So the
      progress revision is the last one before the first that has not been received. */
  lemma {:induction false} ThreadIsNotify(keys: seq<Bytes>, live: set<Bytes>, start: int, steps: seq<Step>)
    requires Distinct(keys) && ValidRun(Init(keys, live, start), steps) && !Exec(Init(keys, live, start), steps).busy
    ensures var s, jobs := Exec(Init(keys, live, start), steps), Received(Init(keys, live, start), steps);
            && Notify.DistinctRevs(jobs) && Simulates(Notify.Run(jobs), s)
            && !Notify.Arrived(jobs, s.progress + 1)
            && (forall r | 1 <= r <= s.progress :: Notify.Arrived(jobs, r))
  {
    var s0, jobs := Init(keys, live, start), Received(Init(keys, live, start), steps);
    StartSimulates(keys, live, start);
    RunFollows([], s0, steps);
    assert [] + jobs == jobs;
    Notify.Reordering(jobs);
  }
}
