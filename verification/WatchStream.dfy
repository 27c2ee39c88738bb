/** The stream loop of the watch service, on whole events. */
module WatchStream {
  import opened Common
  import opened OffsetSequence
  import M = Mvcc
  import StoreModel
  import Stores
  import opened ItemHistory
  import opened WatchPipeline
  import WatchProgress

  function Revs(events: seq<Event>): seq<int> {
    if events == [] then [] else Revs(DropLast(events)) + [Last(events).kv.modRevision]
  }

  /** The events are the next ones in the channel. */
  ghost predicate NextInChannel(s: State, events: seq<Event>) {
    Enabled(s, RecvMany(|events|)) && Revs(events) == s.pushed[s.taken..s.taken + |events|]
  }

  /** One stream. A ghost state of the pipeline says what its contents mean there. */
  class EventStream {
    var maxEventStreamRev: int
    /** All events of all responses so far. */
    var sent: seq<Event>

    ghost predicate StandsFor(s: State)
      reads this
    {
      Revs(sent) == s.delivered && maxEventStreamRev == s.maxRev
    }

    constructor (past: seq<Event>, ghost s: State)
      ensures sent == past
      ensures Enabled(s, StartStream) && s.past == Revs(past) ==> StandsFor(Next(s, StartStream))
    {
      sent := past;
      maxEventStreamRev := if past == [] then 0 else past[|past| - 1].kv.modRevision;
    }

    /** One batch from the channel. Nothing is sent when nothing is left of it. */
    method OnBatch(readMany: seq<Event>, ghost s: State) returns (header: Option<int>, events: seq<Event>)
      modifies this
      ensures Revs(events) == Retain(Revs(readMany), old(maxEventStreamRev))
      ensures forall e | e in events :: e in readMany
      ensures sent == old(sent) + events
      ensures header == if events == [] then None else Some(Last(events).kv.modRevision)
      ensures old(StandsFor(s)) && NextInChannel(s, readMany) ==> StandsFor(Next(s, RecvMany(|readMany|)))
    {
      events := [];
      for i := 0 to |readMany|
        invariant Revs(events) == Retain(Revs(readMany[..i]), maxEventStreamRev)
        invariant forall e | e in events :: e in readMany
        invariant sent == old(sent) && maxEventStreamRev == old(maxEventStreamRev)
      {
        assert readMany[..i + 1] == readMany[..i] + [readMany[i]];
        RevsSnoc(readMany[..i], readMany[i]);
        RevsSnoc(events, readMany[i]);
        if readMany[i].kv.modRevision > maxEventStreamRev {
          events := events + [readMany[i]];
        }
      }
      assert readMany[..|readMany|] == readMany;
      RevsConcat(sent, events);
      BatchStep(s, readMany);
      if events == [] {
        return None, [];
      }
      var lastRev := events[|events| - 1].kv.modRevision;
      assert Last(Revs(events)) == lastRev;
      maxEventStreamRev := if lastRev >= maxEventStreamRev then lastRev else maxEventStreamRev;
      sent := sent + events;
      header := Some(lastRev);
    }

    /** The reply to a progress request. It is a promise that every continuation keeps if and only if
        no event at or below it waits in the channel when the store's progress is read. */
    method Progress(storeProgress: int, ghost s: State) returns (revision: int)
      ensures revision >= storeProgress && revision >= maxEventStreamRev
      ensures StandsFor(s) && Inv(s) && s.streaming && s.progress == storeProgress ==>
                (WatchProgress.Promised(s, revision) <==> forall e :: !WatchProgress.Overtaken(s, e))
    {
      revision := if storeProgress >= maxEventStreamRev then storeProgress else maxEventStreamRev;
      if StandsFor(s) && Inv(s) && s.streaming && s.progress == storeProgress {
        WatchProgress.ProgressIff(s);
      }
    }
  }

  /** What the pipeline's step does with the next events of the channel. */
  lemma {:induction false} BatchStep(s: State, events: seq<Event>)
    ensures NextInChannel(s, events) ==>
              var kept := Retain(Revs(events), s.maxRev);
              var t := Next(s, RecvMany(|events|));
              t.delivered == s.delivered + kept && t.maxRev == Max(LastOr(kept, s.maxRev), s.maxRev)
  {
  }

  lemma {:induction false} RevsConcat(a: seq<Event>, b: seq<Event>)
    ensures Revs(a + b) == Revs(a) + Revs(b)
  {
    if b == [] {
      assert a + b == a;
    } else {
      assert DropLast(a + b) == a + DropLast(b) && Last(a + b) == Last(b);
      RevsConcat(a, DropLast(b));
    }
  }

  lemma {:induction false} RevsSnoc(events: seq<Event>, e: Event)
    ensures Revs(events + [e]) == Revs(events) + [e.kv.modRevision]
    ensures forall max :: Retain(Revs(events) + [e.kv.modRevision], max) ==
              Retain(Revs(events), max) + (if e.kv.modRevision > max then [e.kv.modRevision] else [])
  {
    assert DropLast(events + [e]) == events && Last(events + [e]) == e;
    var r := e.kv.modRevision;
    assert DropLast(Revs(events) + [r]) == Revs(events) && Last(Revs(events) + [r]) == r;
  }

  // ---------------------------------------------------------------- the scan of one item

  lemma {:induction false} RevsCons(e: Event, events: seq<Event>)
    ensures Revs([e] + events) == [e.kv.modRevision] + Revs(events)
  {
    if events == [] {
      assert [e] + events == [] + [e];
      RevsSnoc([], e);
    } else {
      RevsCons(e, DropLast(events));
      assert [e] + events == ([e] + DropLast(events)) + [Last(events)];
      RevsSnoc([e] + DropLast(events), Last(events));
    }
  }

  lemma {:induction false} RevsAre(events: seq<Event>, i: nat)
    requires i < |events|
    ensures |Revs(events)| == |events| && Revs(events)[i] == events[i].kv.modRevision
    decreases |events|
  {
    if |events| > 1 { RevsAre(DropLast(events), if i < |events| - 1 then i else 0); }
  }

  lemma {:induction false} KeyEventsRevs(h: M.History, key: Bytes, rev: int, start: int, wantPrev: bool)
    requires M.ModsMatch(h) && 1 <= rev
    ensures Revs(KeyEvents(h, key, rev, start, wantPrev)) == KeyRevs(h, key, rev)
  {
    var events, revs := KeyEvents(h, key, rev, start, wantPrev), KeyRevs(h, key, rev);
    forall i | 0 <= i < |events| ensures |Revs(events)| == |revs| && Revs(events)[i] == revs[i] {
      RevsAre(events, i);
      EventAt(h, key, rev, start, wantPrev, i);
    }
  }

  /** Scanning a readable item reports the revisions that the pipeline model says it does. */
  lemma {:induction false} ScanReportsRevs(
    item: M.TreeItem, log: OffsetSeq<M.Value>, h: M.History, key: Bytes, start: int, wantPrev: bool, writes: seq<Slot>)
    requires M.Readable(item, log, h, key) && log.start < start
    requires |writes| == |h| && forall i | 0 <= i < |h| :: writes[i].key == h[i].key
    ensures Revs(ScanItem(item, log, key, start, wantPrev)) == RevsOf(writes, key, start)
  {
    ScanIsKeyEvents(item, log, h, key, start, wantPrev);
    KeyEventsRevs(h, key, start, log.start, wantPrev);
    RevsOfMembers(writes, key, start);
    var a, b := Revs(ScanItem(item, log, key, start, wantPrev)), RevsOf(writes, key, start);
    KeyRevsIncreasing(h, key, start);
    forall x ensures x in a <==> x in b { KeyRevsMember(h, key, start, x); }
    SameIncreasing(a, b);
  }

  /** The writes of each key in turn, read off the history. */
  ghost function PastOf(keys: seq<Bytes>, r: StoreModel.Ref, startRev: int, wantPrev: bool): seq<Event>
    requires 1 <= startRev
  {
    if keys == [] then []
    else PastOf(DropLast(keys), r, startRev, wantPrev)
         + KeyEvents(r.history, Last(keys), startRev, r.start, wantPrev)
  }

  /** Every event is a write of one of the keys, shown field by field, and no such write is missing. */
  ghost predicate PastShows(past: seq<Event>, keys: seq<Bytes>, r: StoreModel.Ref, startRev: int, wantPrev: bool) {
    && (forall i | 0 <= i < |past| ::
          && past[i].kv.key in keys && past[i].kv.modRevision >= startRev
          && EventShows(past[i], r.history, past[i].kv.key, r.start, wantPrev))
    && (forall key, q | key in keys && M.IsRev(r.history, key, q) && q >= startRev :: HasEventOf(past, q))
  }

  lemma {:induction false} HasEventConcat(a: seq<Event>, b: seq<Event>, q: int)
    ensures HasEventOf(a, q) || HasEventOf(b, q) ==> HasEventOf(a + b, q)
  {
    if HasEventOf(a, q) {
      var i :| 0 <= i < |a| && a[i].kv.modRevision == q;
      assert (a + b)[i].kv.modRevision == q;
    } else if HasEventOf(b, q) {
      var i :| 0 <= i < |b| && b[i].kv.modRevision == q;
      assert (a + b)[|a| + i].kv.modRevision == q;
    }
  }

  lemma {:induction false} PastShowsMore(front: seq<Event>, last: seq<Event>, keys: seq<Bytes>, r: StoreModel.Ref,
                                         startRev: int, wantPrev: bool)
    requires keys != [] && PastShows(front, DropLast(keys), r, startRev, wantPrev)
    requires TellsWrites(last, r.history, Last(keys), startRev, r.start, wantPrev)
    ensures PastShows(front + last, keys, r, startRev, wantPrev)
  {
    var past := front + last;
    assert keys == DropLast(keys) + [Last(keys)];
    forall i | 0 <= i < |past|
      ensures past[i].kv.key in keys && past[i].kv.modRevision >= startRev
      ensures EventShows(past[i], r.history, past[i].kv.key, r.start, wantPrev)
    {
      assert past[i] == if i < |front| then front[i] else last[i - |front|];
    }
    forall key, q | key in keys && M.IsRev(r.history, key, q) && q >= startRev ensures HasEventOf(past, q) {
      assert key == Last(keys) || key in DropLast(keys);
      HasEventConcat(front, last, q);
    }
  }

  /** The past that a new watch reports is exact for every key, and comes key by key. */
  lemma {:induction false} WatchPastIsExact(keys: seq<Bytes>, s: StoreModel.State, r: StoreModel.Ref,
                                            startRev: int, wantPrev: bool)
    requires StoreModel.Represents(s, r) && r.start < startRev
    ensures Stores.Histories(keys, s, startRev, wantPrev) == PastOf(keys, r, startRev, wantPrev)
    ensures PastShows(Stores.Histories(keys, s, startRev, wantPrev), keys, r, startRev, wantPrev)
  {
    if keys != [] {
      var front, last := DropLast(keys), Last(keys);
      WatchPastIsExact(front, s, r, startRev, wantPrev);
      StoreModel.RepresentsReadable(s, r, last);
      ScanItemExact(StoreModel.ItemOf(s, last), s.log, r.history, last, startRev, wantPrev);
      PastShowsMore(Stores.Histories(front, s, startRev, wantPrev),
                    ScanItem(StoreModel.ItemOf(s, last), s.log, last, startRev, wantPrev), keys, r, startRev, wantPrev);
    }
  }
}
