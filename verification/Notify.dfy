/** The notify thread: jobs arrive in any order, a heap restores revision order. */
module Notify {
  import opened Common
  import opened MinHeaps

  /** `sent` records every job handed on so far; `progress` is the published progress revision. */
  datatype Thread<M> = Thread(nextRev: int, spool: seq<Entry<M>>, sent: seq<Entry<M>>, progress: int)

  function Start<M>(): Thread<M> {
    Thread(1, [], [], 0)
  }

  function Send<M>(t: Thread<M>, job: Entry<M>): Thread<M> {
    t.(sent := t.sent + [job], nextRev := t.nextRev + 1)
  }

  /** Sends spooled jobs as long as the next revision is on top. */
  function Drain<M>(t: Thread<M>): Thread<M>
    decreases |t.spool|
  {
    if t.spool != [] && t.spool[0].rev == t.nextRev then Drain(Send(t, t.spool[0]).(spool := t.spool[1..])) else t
  }

  function OnJob<M>(t: Thread<M>, job: Entry<M>): Thread<M> {
    if job.rev > t.nextRev then t.(spool := HeapPush(t.spool, job))
    else
      var drained := Drain(Send(t, job));
      drained.(progress := drained.nextRev - 1)
  }

  function Run<M>(jobs: seq<Entry<M>>): Thread<M> {
    if jobs == [] then Start() else OnJob(Run(DropLast(jobs)), Last(jobs))
  }

  /** The thread's loop body, with its fields updated in place. */
  class NotifyThread<M> {
    var nextRev: int
    var spool: seq<Entry<M>>
    var sent: seq<Entry<M>>
    var progress: int

    function View(): Thread<M>
      reads this
    {
      Thread(nextRev, spool, sent, progress)
    }

    constructor ()
      ensures View() == Start()
    {
      nextRev, spool, sent, progress := 1, [], [], 0;
    }

    method Receive(job: Entry<M>)
      modifies this
      ensures View() == OnJob(old(View()), job)
    {
      if job.rev > nextRev {
        spool := HeapPush(spool, job);
        return;
      }
      sent, nextRev := sent + [job], nextRev + 1;
      ghost var goal := Drain(View());
      while spool != [] && spool[0].rev == nextRev
        invariant Drain(View()) == goal && progress == old(progress)
        decreases |spool|
      {
        sent, spool, nextRev := sent + [spool[0]], spool[1..], nextRev + 1;
      }
      progress := nextRev - 1;
    }
  }

  // ---------------------------------------------------------------- order and completeness

  ghost predicate DistinctRevs<M>(jobs: seq<Entry<M>>) {
    && (forall i | 0 <= i < |jobs| :: jobs[i].rev >= 1)
    && (forall i, j | 0 <= i < j < |jobs| :: jobs[i].rev != jobs[j].rev)
  }

  ghost predicate Arrived<M>(jobs: seq<Entry<M>>, r: int) {
    exists i :: 0 <= i < |jobs| && jobs[i].rev == r
  }

  /** Sent so far are the revisions 1, 2, ..., nextRev - 1. */
  ghost predicate InOrder<M>(t: Thread<M>) {
    && t.nextRev == |t.sent| + 1
    && forall i | 0 <= i < |t.sent| :: t.sent[i].rev == i + 1
  }

  /** All spooled jobs lie above the next revision, except perhaps one that is next. */
  ghost predicate SpoolOk<M>(t: Thread<M>) {
    && HeapOk(t.spool)
    && (forall i | 0 <= i < |t.spool| :: t.spool[i].rev >= t.nextRev)
    && (forall i, j | 0 <= i < j < |t.spool| :: t.spool[i].rev != t.spool[j].rev)
  }

  ghost predicate Settled<M>(t: Thread<M>) {
    forall i | 0 <= i < |t.spool| :: t.spool[i].rev > t.nextRev
  }

  ghost predicate Holds<M>(t: Thread<M>, job: Entry<M>) {
    job in t.sent || job in t.spool
  }

  lemma {:induction false} DrainMembers<M>(t: Thread<M>, job: Entry<M>)
    ensures Holds(Drain(t), job) <==> Holds(t, job)
    ensures |Drain(t).sent| + |Drain(t).spool| == |t.sent| + |t.spool|
    decreases |t.spool|
  {
    if t.spool != [] && t.spool[0].rev == t.nextRev {
      assert t.spool == [t.spool[0]] + t.spool[1..];
      DrainMembers(Send(t, t.spool[0]).(spool := t.spool[1..]), job);
    }
  }

  lemma {:induction false} DrainKeeps<M>(t: Thread<M>)
    requires InOrder(t) && SpoolOk(t)
    ensures InOrder(Drain(t)) && SpoolOk(Drain(t)) && Settled(Drain(t)) && t.sent <= Drain(t).sent
    decreases |t.spool|
  {
    if t.spool != [] && t.spool[0].rev == t.nextRev {
      DrainKeeps(Send(t, t.spool[0]).(spool := t.spool[1..]));
    }
  }

  /** What holds after every arrival. */
  ghost predicate Inv<M(!new)>(t: Thread<M>, jobs: seq<Entry<M>>) {
    && InOrder(t) && SpoolOk(t) && Settled(t) && t.progress == t.nextRev - 1
    && |t.sent| + |t.spool| == |jobs|
    && (forall job :: Holds(t, job) <==> job in jobs)
  }

  lemma {:induction false} SpoolStep<M>(t: Thread<M>, job: Entry<M>)
    requires SpoolOk(t) && Settled(t) && job.rev > t.nextRev
    requires forall i | 0 <= i < |t.spool| :: t.spool[i].rev != job.rev
    ensures SpoolOk(OnJob(t, job)) && Settled(OnJob(t, job))
    ensures |OnJob(t, job).spool| == |t.spool| + 1
    ensures forall x :: Holds(OnJob(t, job), x) <==> Holds(t, x) || x == job
  {
    HeapPushOk(t.spool, job);
    HeapPushMembers(t.spool, job);
    HeapPushDistinct(t.spool, job);
    var spool := HeapPush(t.spool, job);
    assert |spool| == |multiset(spool)|;
    forall i | 0 <= i < |spool| ensures spool[i].rev > t.nextRev {
      assert spool[i] in spool;
      if spool[i] != job {
        var k :| 0 <= k < |t.spool| && t.spool[k] == spool[i];
      }
    }
  }

  lemma {:induction false} HeapPushDistinct<M>(heap: seq<Entry<M>>, e: Entry<M>)
    requires forall i, j | 0 <= i < j < |heap| :: heap[i].rev != heap[j].rev
    requires forall i | 0 <= i < |heap| :: heap[i].rev != e.rev
    ensures var h := HeapPush(heap, e); forall i, j | 0 <= i < j < |h| :: h[i].rev != h[j].rev
  {
    if heap != [] && heap[0].rev <= e.rev {
      var rest := HeapPush(heap[1..], e);
      HeapPushDistinct(heap[1..], e);
      HeapPushMembers(heap[1..], e);
      forall k | 0 <= k < |rest| ensures rest[k].rev != heap[0].rev {
        assert rest[k] in rest;
        if rest[k] != e {
          var m :| 0 <= m < |heap[1..]| && heap[1..][m] == rest[k];
          assert heap[m + 1] == rest[k];
        }
      }
    }
  }

  lemma {:induction false} SendStep<M>(t: Thread<M>, job: Entry<M>)
    requires InOrder(t) && SpoolOk(t) && Settled(t) && job.rev == t.nextRev
    ensures var u := OnJob(t, job);
            && InOrder(u) && SpoolOk(u) && Settled(u) && u.progress == u.nextRev - 1
            && |u.sent| + |u.spool| == |t.sent| + |t.spool| + 1
            && forall x :: Holds(u, x) <==> Holds(t, x) || x == job
  {
    var mid := Send(t, job);
    DrainKeeps(mid);
    DrainMembers(mid, job);
    forall x ensures Holds(OnJob(t, job), x) <==> Holds(t, x) || x == job {
      DrainMembers(mid, x);
    }
  }

  /** One arrival: a new revision that is not behind. */
  lemma {:induction false} ArrivalKeepsInv<M(!new)>(t: Thread<M>, jobs: seq<Entry<M>>, job: Entry<M>)
    requires Inv(t, jobs) && job.rev >= t.nextRev
    requires forall i | 0 <= i < |t.spool| :: t.spool[i].rev != job.rev
    ensures Inv(OnJob(t, job), jobs + [job])
  {
    if job.rev > t.nextRev {
      SpoolStep(t, job);
    } else {
      SendStep(t, job);
    }
  }

  lemma {:induction false} RunKeepsInv<M(!new)>(jobs: seq<Entry<M>>)
    requires DistinctRevs(jobs)
    ensures Inv(Run(jobs), jobs)
  {
    if jobs != [] {
      var front, job := DropLast(jobs), Last(jobs);
      RunKeepsInv(front);
      NewRevision(jobs);
      ArrivalKeepsInv(Run(front), front, job);
      assert jobs == front + [job];
    }
  }

  lemma {:induction false} SentHas<M>(t: Thread<M>, r: int)
    requires InOrder(t)
    ensures 1 <= r < t.nextRev ==> exists x :: x in t.sent && x.rev == r
  {
    if 1 <= r < t.nextRev { assert t.sent[r - 1] in t.sent; }
  }

  lemma {:induction false} HeldHasArrived<M(!new)>(t: Thread<M>, jobs: seq<Entry<M>>, x: Entry<M>)
    requires Inv(t, jobs) && Holds(t, x)
    ensures Arrived(jobs, x.rev)
  {
    var i :| 0 <= i < |jobs| && jobs[i] == x;
  }

  lemma {:induction false} LastIsNew<M>(jobs: seq<Entry<M>>)
    requires jobs != [] && DistinctRevs(jobs)
    ensures !Arrived(DropLast(jobs), Last(jobs).rev)
  {
    forall i | 0 <= i < |DropLast(jobs)| ensures DropLast(jobs)[i].rev != Last(jobs).rev {
      assert DropLast(jobs)[i] == jobs[i];
    }
  }

  /** A job that arrives is not among those already held, so it is never behind. */
  lemma {:induction false} NewRevision<M(!new)>(jobs: seq<Entry<M>>)
    requires jobs != [] && DistinctRevs(jobs) && Inv(Run(DropLast(jobs)), DropLast(jobs))
    ensures Last(jobs).rev >= Run(DropLast(jobs)).nextRev
    ensures forall i | 0 <= i < |Run(DropLast(jobs)).spool| :: Run(DropLast(jobs)).spool[i].rev != Last(jobs).rev
  {
    var t: Thread<M> := Run(DropLast(jobs));
    LastIsNew(jobs);
    forall x | Holds(t, x) ensures x.rev != Last(jobs).rev {
      HeldHasArrived(t, DropLast(jobs), x);
    }
    SentHas(t, Last(jobs).rev);
    forall i | 0 <= i < |t.spool| ensures t.spool[i].rev != Last(jobs).rev {
      assert Holds(t, t.spool[i]);
    }
  }

  /** For any arrival order of distinct revisions: what has been sent is 1, 2, ... without a gap,
      progress is the last of them, everything else that has arrived is spooled, and sending has
      got exactly as far as the arrivals allow. */
  lemma {:induction false} Reordering<M(!new)>(jobs: seq<Entry<M>>)
    requires DistinctRevs(jobs)
    ensures var t := Run(jobs);
            && InOrder(t) && t.progress == t.nextRev - 1 == |t.sent|
            && (forall x :: x in t.sent <==> x in jobs && x.rev < t.nextRev)
            && (forall x :: x in t.spool <==> x in jobs && x.rev > t.nextRev)
            && !Arrived(jobs, t.nextRev)
            && (forall r | 1 <= r < t.nextRev :: Arrived(jobs, r))
  {
    RunKeepsInv(jobs);
    var t: Thread<M> := Run(jobs);
    forall x ensures x in t.sent ==> x.rev < t.nextRev && x in jobs
             ensures x in t.spool ==> x.rev > t.nextRev && x in jobs
             ensures x in jobs ==> x in t.sent || x in t.spool
    {
      assert Holds(t, x) <==> x in jobs;
    }
    forall i | 0 <= i < |jobs| ensures jobs[i].rev != t.nextRev {
      assert jobs[i] in jobs && Holds(t, jobs[i]);
    }
    forall r | 1 <= r < t.nextRev ensures Arrived(jobs, r) {
      var x: Entry<M> := t.sent[r - 1];
      assert Holds(t, x);
      var i :| 0 <= i < |jobs| && jobs[i] == x;
    }
  }

  /** Once 1, ..., n have all arrived, all are sent in order and nothing is left over. */
  lemma {:induction false} AllArrived<M(!new)>(jobs: seq<Entry<M>>, n: nat)
    requires DistinctRevs(jobs) && |jobs| == n
    requires forall r | 1 <= r <= n :: Arrived(jobs, r)
    ensures var t := Run(jobs); t.spool == [] && |t.sent| == n && InOrder(t) && t.progress == n
  {
    RunKeepsInv(jobs);
    Reordering(jobs);
  }

  /** The counter starts at 1 and nothing but a send moves it. If the first revision never
      arrives, which is the case after a start that replayed a log, nothing is ever sent:
      neither to a watcher nor to the log. */
  lemma {:induction false} StuckWithoutFirst<M(!new)>(jobs: seq<Entry<M>>)
    requires DistinctRevs(jobs)
    ensures Run(jobs).sent == [] <==> !Arrived(jobs, 1)
  {
    Reordering(jobs);
    var t: Thread<M> := Run(jobs);
  }
}
