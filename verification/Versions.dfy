/** What the create revision and the version of a value mean, read off the history alone. */
module Versions {
  import opened Common
  import opened Mvcc
  import opened StoreModel
  import ConcurrentStore

  /** How many of the revisions from..hi wrote the key. */
  ghost function Writes(h: History, key: Bytes, from: int, hi: int): nat
    requires hi <= |h|
    decreases hi
  {
    if hi < from || hi <= 0 then 0
    else Writes(h, key, from, hi - 1) + (if h[hi - 1].key == key then 1 else 0)
  }

  /** The write at revision r continues a life of its key that began at the create revision: the
      key was not live before it and was never deleted in between, and the version counts the
      writes of that life. */
  ghost predicate CountsLife(h: History, r: int)
    requires 1 <= r <= |h|
  {
    var key, c := h[r - 1].key, h[r - 1].value.createRevision;
    && 1 <= c <= r && IsRev(h, key, c)
    && ValueOf(h, key, c - 1).data.None?
    && (forall q | c <= q < r && IsRev(h, key, q) :: h[q - 1].value.data.Some?)
    && h[r - 1].value.version == Writes(h, key, c, r)
  }

  lemma {:induction false} WritesSkip(h: History, key: Bytes, from: int, lo: int, hi: int)
    requires lo <= hi <= |h| && LastRev(h, key, hi) <= lo
    ensures Writes(h, key, from, hi) == Writes(h, key, from, lo)
    decreases hi
  {
    LastRevProps(h, key, hi);
    if lo < hi && hi > 0 { WritesSkip(h, key, from, lo, hi - 1); }
  }

  lemma {:induction false} WritesFrozen(h: History, more: History, key: Bytes, from: int, hi: int)
    requires hi <= |h| && h <= more
    ensures Writes(more, key, from, hi) == Writes(h, key, from, hi)
    decreases hi
  {
    if hi >= from && hi > 0 { WritesFrozen(h, more, key, from, hi - 1); }
  }

  lemma {:induction false} LifeFrozen(h: History, more: History, r: int)
    requires 1 <= r <= |h| && h <= more && CountsLife(h, r)
    ensures CountsLife(more, r)
  {
    var key, c := h[r - 1].key, h[r - 1].value.createRevision;
    LastRevFrozen(h, more, key, c - 1);
    WritesFrozen(h, more, key, c, r);
    forall q | c <= q < r && IsRev(more, key, q) ensures more[q - 1].value.data.Some? { assert IsRev(h, key, q); }
  }

  /** A write to a live key carries its life on. */
  lemma {:induction false} LifeGoesOn(h: History)
    requires h != [] && Derived(h)
    requires var front, key := DropLast(h), Last(h).key;
             var last := LastRev(front, key, |front|);
             last > 0 && last <= |front| && ValueAt(front, last).data.Some? && CountsLife(front, last)
    ensures CountsLife(h, |h|)
  {
    var front, key := DropLast(h), Last(h).key;
    var last := LastRev(front, key, |front|);
    LastRevProps(front, key, |front|);
    LifeFrozen(front, h, last);
    LastRevFrozen(front, h, key, |front|);
    WritesSkip(h, key, h[last - 1].value.createRevision, last, |front|);
    forall q | last < q < |h| ensures !IsRev(h, key, q) {
      if IsRev(h, key, q) { LastRevIsLast(h, key, |front|, q); }
    }
  }

  /** Every write of every history that effective writes produce. */
  lemma {:induction false} VersionsCountWrites(h: History, r: int)
    requires Derived(h) && 1 <= r <= |h|
    ensures CountsLife(h, r)
    decreases |h|
  {
    var front := DropLast(h);
    assert front <= h;
    if r < |h| {
      VersionsCountWrites(front, r);
      LifeFrozen(front, h, r);
    } else {
      var key := Last(h).key;
      var last := LastRev(front, key, |front|);
      LastRevProps(front, key, |front|);
      if last > 0 && ValueAt(front, last).data.Some? {
        VersionsCountWrites(front, last);
        LifeGoesOn(h);
      } else {
        LastRevFrozen(front, h, key, |front|);
      }
    }
  }

  /** In particular of the history of every interleaving of concurrent writers. */
  lemma {:induction false} ConcurrentVersions(steps: seq<ConcurrentStore.Step>, r: int)
    requires ConcurrentStore.ValidRun(ConcurrentStore.INIT, steps)
    requires 1 <= r <= |ConcurrentStore.Exec(ConcurrentStore.INIT, steps).history|
    ensures CountsLife(ConcurrentStore.Exec(ConcurrentStore.INIT, steps).history, r)
  {
    ConcurrentStore.ReachableInv(steps);
    VersionsCountWrites(ConcurrentStore.Exec(ConcurrentStore.INIT, steps).history, r);
  }

  // ---------------------------------------------------------------- conditional writes

  /** A write that demands equality with a last revision. Demanding r >= 1 succeeds exactly when
      the last write of the key is the one at r and is not a deletion. Demanding 0 succeeds exactly
      when the key is not live, and then only a put does. A negative number demands nothing. */
  lemma {:induction false} EqualRevisionMeans(h: History, key: Bytes, data: Option<Bytes>, r: int)
    requires ModsMatch(h)
    ensures var live := LatestOf(h, key).data.Some?;
            RefSet(h, key, data, Some(Required(Some(r), None, 0))).1.Written? <==>
            if r >= 1 then live && LastRev(h, key, |h|) == r
            else if r == 0 then !live && data.Some?
            else live || data.Some?
  {
    LastRevProps(h, key, |h|);
  }

  /** The last deletion of the key up to a revision, or 0. */
  ghost function LastDeletion(h: History, key: Bytes, hi: int): int
    requires hi <= |h|
    decreases hi
  {
    if hi <= 0 then 0
    else if h[hi - 1].key == key && h[hi - 1].value.data.None? then hi
    else LastDeletion(h, key, hi - 1)
  }

  /** How often the key has been written since it was last deleted. */
  ghost function LifeWrites(h: History, key: Bytes): nat {
    LastDeletionBound(h, key, |h|);
    Writes(h, key, LastDeletion(h, key, |h|) + 1, |h|)
  }

  lemma {:induction false} LastDeletionBound(h: History, key: Bytes, hi: int)
    requires hi <= |h|
    ensures 0 <= LastDeletion(h, key, hi) && (hi >= 0 ==> LastDeletion(h, key, hi) <= hi)
    decreases hi
  {
    if hi > 0 { LastDeletionBound(h, key, hi - 1); }
  }

  lemma {:induction false} NoDeletionSince(h: History, key: Bytes, lo: int, hi: int)
    requires 0 <= lo <= hi <= |h| && forall q | lo < q <= hi && IsRev(h, key, q) :: h[q - 1].value.data.Some?
    ensures LastDeletion(h, key, hi) == LastDeletion(h, key, lo)
    decreases hi
  {
    if lo < hi {
      assert IsRev(h, key, hi) ==> h[hi - 1].value.data.Some?;
      NoDeletionSince(h, key, lo, hi - 1);
    }
  }

  /** A key that is not live was last deleted at its last write, if it had one. */
  lemma {:induction false} DeadSince(h: History, key: Bytes, hi: int)
    requires 0 <= hi <= |h| && ValueOf(h, key, hi).data.None?
    ensures LastDeletion(h, key, hi) == LastRev(h, key, hi)
    decreases hi
  {
    LastRevProps(h, key, hi);
    if hi > 0 && h[hi - 1].key != key { DeadSince(h, key, hi - 1); }
  }

  lemma {:induction false} WritesFrom(h: History, key: Bytes, lo: int, from: int, hi: int)
    requires 1 <= lo <= from && hi <= |h| && forall q | lo <= q < from :: !IsRev(h, key, q)
    ensures Writes(h, key, lo, hi) == Writes(h, key, from, hi)
    decreases hi
  {
    if hi >= lo && hi > 0 {
      assert hi < from ==> !IsRev(h, key, hi);
      WritesFrom(h, key, lo, from, hi - 1);
    }
  }

  /** Since the create revision of a live key nothing was deleted, and before it the key was dead. */
  lemma {:induction false} LifeBegins(h: History, key: Bytes)
    requires Derived(h) && LatestOf(h, key).data.Some?
    ensures var c := LatestOf(h, key).createRevision;
            && 1 <= c <= |h| && LastDeletion(h, key, |h|) == LastRev(h, key, c - 1)
            && LatestOf(h, key).version == Writes(h, key, c, |h|)
            && IsRev(h, key, c)
  {
    var last := LastRev(h, key, |h|);
    LastRevProps(h, key, |h|);
    VersionsCountWrites(h, last);
    var c := h[last - 1].value.createRevision;
    WritesSkip(h, key, c, last, |h|);
    forall q | c - 1 < q <= |h| && IsRev(h, key, q) ensures h[q - 1].value.data.Some? {
      LastRevIsLast(h, key, |h|, q);
    }
    NoDeletionSince(h, key, c - 1, |h|);
    DeadSince(h, key, c - 1);
  }

  /** The version of a live key is the number of its writes since it was last deleted. */
  lemma {:induction false} VersionIsLifeWrites(h: History, key: Bytes)
    requires Derived(h) && LatestOf(h, key).data.Some?
    ensures LatestOf(h, key).version == LifeWrites(h, key) >= 1
  {
    var c := LatestOf(h, key).createRevision;
    LifeBegins(h, key);
    var d := LastRev(h, key, c - 1);
    LastRevProps(h, key, c - 1);
    forall q | d + 1 <= q < c ensures !IsRev(h, key, q) {
      if IsRev(h, key, q) { LastRevIsLast(h, key, c - 1, q); }
    }
    WritesFrom(h, key, d + 1, c, |h|);
    SomeWrites(h, key, c, |h|, c);
  }

  lemma {:induction false} SomeWrites(h: History, key: Bytes, from: int, hi: int, q: int)
    requires from <= q <= hi <= |h| && IsRev(h, key, q)
    ensures Writes(h, key, from, hi) >= 1
    decreases hi
  {
    if q < hi { SomeWrites(h, key, from, hi - 1, q); }
  }

  /** What a write demands of the key's last revision and of the writes of its life: greater (mode 1),
      less (2), different (3) or equal. A negative number demands nothing. A key that is not live
      takes a put that demands nothing, or 0. */
  ghost predicate Meets(h: History, key: Bytes, data: Option<Bytes>, revision: Option<int>, version: Option<int>,
                        mode: int)
  {
    var last, n := LastRev(h, key, |h|), LifeWrites(h, key);
    if LatestOf(h, key).data.Some? then
      && (revision.Some? && revision.value >= 0 ==>
            && (mode == 1 ==> last > revision.value)
            && (mode == 2 ==> last < revision.value)
            && (mode == 3 ==> last != revision.value)
            && (mode < 1 || mode > 3 ==> last == revision.value))
      && (version.Some? && version.value >= 0 ==>
            && (mode == 1 ==> n > version.value)
            && (mode == 2 ==> n < version.value)
            && (mode == 3 ==> n != version.value)
            && (mode < 1 || mode > 3 ==> n == version.value))
    else
      && data.Some?
      && (revision.Some? ==> revision.value <= 0)
      && (version.Some? ==> version.value <= 0)
  }

  /** When a conditional write succeeds, read off the history, and what it answers otherwise: the
      current revision, and the last write of the key if that is live. */
  lemma {:induction false} ConditionMeans(h: History, key: Bytes, data: Option<Bytes>, revision: Option<int>,
                                          version: Option<int>, mode: int)
    requires ModsMatch(h) && Derived(h)
    ensures var live, last := LatestOf(h, key).data.Some?, LastRev(h, key, |h|);
            && last <= |h|
            && RefSet(h, key, data, Some(Required(revision, version, mode))).1 ==
               (if Meets(h, key, data, revision, version, mode) then Written(|h| + 1)
                else Refused(|h|, if live then Some(ValueAt(h, last)) else None))
    ensures var more := RefSet(h, key, data, Some(Required(revision, version, mode))).0;
            if Meets(h, key, data, revision, version, mode)
            then |more| == |h| + 1 && more[..|h|] == h && Last(more).key == key && Last(more).value.data == data
            else more == h
    ensures RefSet(h, key, data, None).1.Written? <==> LatestOf(h, key).data.Some? || data.Some?
  {
    LastRevProps(h, key, |h|);
    if LatestOf(h, key).data.Some? { VersionIsLifeWrites(h, key); }
  }

  /** The same of the store, after every run. */
  lemma {:induction false} SetMeans(ops: seq<Op>, trim: bool, key: Bytes, data: Option<Bytes>, revision: Option<int>,
                                    version: Option<int>, mode: int)
    ensures var h := RefRun(ops).0.history;
            var answer := ApplySet(Run(EMPTY, ops, trim).0, key, data, Some(Required(revision, version, mode)), trim).1;
            && (answer.Written? <==> Meets(h, key, data, revision, version, mode))
            && answer.rev == (if answer.Written? then |h| + 1 else |h|)
  {
    var s, r := Run(EMPTY, ops, trim).0, RefRun(ops).0;
    RunRefines(ops, trim);
    SetRefines(s, r, key, data, Some(Required(revision, version, mode)), trim);
    ConditionMeans(r.history, key, data, revision, version, mode);
  }

  /** A write that demands equality with a version. Demanding n >= 1 succeeds exactly when the key is
      live and has been written n times since it was last deleted. */
  lemma {:induction false} EqualVersionMeans(h: History, key: Bytes, data: Option<Bytes>, n: int)
    requires ModsMatch(h) && Derived(h)
    ensures var live := LatestOf(h, key).data.Some?;
            RefSet(h, key, data, Some(Required(None, Some(n), 0))).1.Written? <==>
            if n >= 1 then live && LifeWrites(h, key) == n
            else if n == 0 then !live && data.Some?
            else live || data.Some?
  {
    ConditionMeans(h, key, data, None, Some(n), 0);
    if LatestOf(h, key).data.Some? { VersionIsLifeWrites(h, key); }
  }
}
