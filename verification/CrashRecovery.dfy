/** Starting from log files that were cut off at any moment. Every file has kept the first so many
    of its records. This module says which store comes back. */
module CrashRecovery {
  import opened Common
  import opened OffsetSequence
  import opened MinHeaps
  import opened Mvcc
  import opened StoreModel
  import opened WalCodec
  import opened WalLoad
  import opened Recovery
  import Notify
  import WalWriter
  import ConcurrentStore

  // ---------------------------------------------------------------- what survives

  /** How many earlier writes went to the same file. */
  ghost function FilePos(h: History, nameOf: Bytes -> Bytes, name: Bytes): nat {
    if h == [] then 0 else FilePos(DropLast(h), nameOf, name) + (if nameOf(Last(h).key) == name then 1 else 0)
  }

  /** `cut` says how many records of each file are left. Write i has survived. */
  ghost predicate Kept(h: History, nameOf: Bytes -> Bytes, cut: Bytes -> nat, i: nat)
    requires i < |h|
  {
    FilePos(h[..i], nameOf, nameOf(h[i].key)) < cut(nameOf(h[i].key))
  }

  ghost predicate KeptLast(h: History, nameOf: Bytes -> Bytes, cut: Bytes -> nat)
    requires h != []
  {
    FilePos(DropLast(h), nameOf, nameOf(Last(h).key)) < cut(nameOf(Last(h).key))
  }

  /** The surviving records, in revision order. */
  ghost function Survivors(h: History, nameOf: Bytes -> Bytes, cut: Bytes -> nat): seq<Record>
    requires |h| < INT64_END && ModsMatch(h)
  {
    if h == [] then []
    else Survivors(DropLast(h), nameOf, cut) + (if KeptLast(h, nameOf, cut) then [RecordOf(Last(h))] else [])
  }

  /** The surviving writes, numbered afresh. */
  ghost function Renumbered(h: History, nameOf: Bytes -> Bytes, cut: Bytes -> nat): History {
    if h == [] then []
    else
      var front, key := Renumbered(DropLast(h), nameOf, cut), Last(h).key;
      if KeptLast(h, nameOf, cut)
      then front + [Write(key, NextValue(LatestOf(front, key), |front| + 1, Last(h).value.data))]
      else front
  }

  /** The revision of the last surviving write of the key, or 0. */
  ghost function LastKept(h: History, nameOf: Bytes -> Bytes, cut: Bytes -> nat, key: Bytes): nat {
    if h == [] then 0
    else if Last(h).key == key && KeptLast(h, nameOf, cut) then |h|
    else LastKept(DropLast(h), nameOf, cut, key)
  }

  lemma {:induction false} LastKeptBound(h: History, nameOf: Bytes -> Bytes, cut: Bytes -> nat, key: Bytes)
    ensures LastKept(h, nameOf, cut, key) <= |h|
  {
    if h != [] { LastKeptBound(DropLast(h), nameOf, cut, key); }
  }

  // ---------------------------------------------------------------- every key keeps a prefix

  lemma {:induction false} FilePosMonotone(h: History, nameOf: Bytes -> Bytes, name: Bytes, i: nat)
    requires i <= |h|
    ensures FilePos(h[..i], nameOf, name) <= FilePos(h, nameOf, name)
    decreases |h|
  {
    if i == |h| {
      assert h[..i] == h;
    } else {
      assert DropLast(h)[..i] == h[..i];
      FilePosMonotone(DropLast(h), nameOf, name, i);
    }
  }

  /** If anything of the file from write i on has survived, then so has write i. */
  lemma {:induction false} KeptIsReached(h: History, nameOf: Bytes -> Bytes, cut: Bytes -> nat, i: nat)
    requires i < |h| && Kept(h, nameOf, cut, i)
    ensures LastKept(h, nameOf, cut, h[i].key) >= i + 1
    decreases |h|
  {
    if i == |h| - 1 {
      assert h[..i] == DropLast(h);
    } else {
      assert DropLast(h)[..i] == h[..i] && DropLast(h)[i] == h[i];
      KeptIsReached(DropLast(h), nameOf, cut, i);
    }
  }

  /** All writes of a key go to one file, so a write survives only together with the key's earlier
      ones. */
  lemma {:induction false} EarlierSurvive(h: History, nameOf: Bytes -> Bytes, cut: Bytes -> nat)
    requires h != [] && KeptLast(h, nameOf, cut)
    ensures var front, key := DropLast(h), Last(h).key;
            LastKept(front, nameOf, cut, key) == LastRev(front, key, |front|)
  {
    var front, key := DropLast(h), Last(h).key;
    var last := LastRev(front, key, |front|);
    LastRevProps(front, key, |front|);
    LastKeptBound(front, nameOf, cut, key);
    LastKeptIsRev(front, nameOf, cut, key);
    if last > 0 {
      FilePosMonotone(front, nameOf, nameOf(key), last - 1);
      KeptIsReached(front, nameOf, cut, last - 1);
    }
    if LastKept(front, nameOf, cut, key) > 0 {
      LastRevIsLast(front, key, |front|, LastKept(front, nameOf, cut, key));
    }
  }

  lemma {:induction false} LastKeptIsRev(h: History, nameOf: Bytes -> Bytes, cut: Bytes -> nat, key: Bytes)
    ensures LastKept(h, nameOf, cut, key) > 0 ==> IsRev(h, key, LastKept(h, nameOf, cut, key))
  {
    if h != [] { LastKeptIsRev(DropLast(h), nameOf, cut, key); }
  }

  /** Equal but for the revisions. */
  ghost predicate SameLife(x: Value, y: Value) {
    x.data == y.data && x.version == y.version
  }

  ghost predicate ComesBack(h: History, nameOf: Bytes -> Bytes, cut: Bytes -> nat, key: Bytes) {
    && LastKept(h, nameOf, cut, key) <= |h|
    && SameLife(LatestOf(Renumbered(h, nameOf, cut), key), ValueAt(h, LastKept(h, nameOf, cut, key)))
  }

  /** Appending a write changes the newest value of its own key only. */
  lemma {:induction false} LatestAfter(h: History, w: Write, key: Bytes)
    ensures LatestOf(h + [w], key) == if key == w.key then w.value else LatestOf(h, key)
  {
    LastRevFrozen(h, h + [w], key, |h|);
  }

  lemma {:induction false} ComesBackStep(h: History, nameOf: Bytes -> Bytes, cut: Bytes -> nat, key: Bytes)
    requires h != [] && Derived(h) && ComesBack(DropLast(h), nameOf, cut, key)
    requires ComesBack(DropLast(h), nameOf, cut, Last(h).key)
    ensures ComesBack(h, nameOf, cut, key)
  {
    var front, w := DropLast(h), Last(h);
    var back := Renumbered(front, nameOf, cut);
    LastKeptBound(front, nameOf, cut, key);
    if KeptLast(h, nameOf, cut) {
      EarlierSurvive(h, nameOf, cut);
      LatestAfter(back, Last(Renumbered(h, nameOf, cut)), key);
    }
  }

  /** Every key comes back as of its last surviving write. */
  lemma {:induction false} KeysComeBack(h: History, nameOf: Bytes -> Bytes, cut: Bytes -> nat, key: Bytes)
    requires Derived(h)
    ensures ComesBack(h, nameOf, cut, key)
    decreases |h|
  {
    if h != [] {
      KeysComeBack(DropLast(h), nameOf, cut, key);
      KeysComeBack(DropLast(h), nameOf, cut, Last(h).key);
      ComesBackStep(h, nameOf, cut, key);
    }
  }

  // ---------------------------------------------------------------- replay

  lemma {:induction false} RenumberedDerived(h: History, nameOf: Bytes -> Bytes, cut: Bytes -> nat)
    requires Derived(h)
    ensures ModsMatch(Renumbered(h, nameOf, cut)) && Derived(Renumbered(h, nameOf, cut))
  {
    if h != [] {
      var front := DropLast(h);
      RenumberedDerived(front, nameOf, cut);
      if KeptLast(h, nameOf, cut) {
        KeysComeBack(front, nameOf, cut, Last(h).key);
        EarlierSurvive(h, nameOf, cut);
        HistoryStep(Renumbered(front, nameOf, cut), Last(Renumbered(h, nameOf, cut)));
      }
    }
  }

  /** A surviving write is logged with the data that it wrote. */
  lemma {:induction false} RecordKeepsData(h: History)
    requires h != [] && |h| < INT64_END && ModsMatch(h) && Derived(h)
    ensures RecordOf(Last(h)).key == Last(h).key && RecordOf(Last(h)).value == Last(h).value.data
  {
    VersionsPositive(h, |h| - 1);
  }

  lemma {:induction false} SurvivorReplays(h: History, nameOf: Bytes -> Bytes, cut: Bytes -> nat, s: State)
    requires h != [] && |h| < INT64_END && ModsMatch(h) && Derived(h) && KeptLast(h, nameOf, cut)
    requires Represents(s, Ref(Renumbered(DropLast(h), nameOf, cut), 0))
    ensures var r := RecordOf(Last(h));
            Represents(ApplyReplay(s, r.key, r.value), Ref(Renumbered(h, nameOf, cut), 0))
  {
    var back := Renumbered(h, nameOf, cut);
    RenumberedDerived(h, nameOf, cut);
    RecordKeepsData(h);
    assert DropLast(back) == Renumbered(DropLast(h), nameOf, cut);
    ReplayStep(s, back);
  }

  /** Replaying the survivors gives a store that stands for the renumbered history. */
  lemma {:induction false} SurvivorsReplay(h: History, nameOf: Bytes -> Bytes, cut: Bytes -> nat)
    requires |h| < INT64_END && ModsMatch(h) && Derived(h)
    ensures Represents(ReplayAll(EMPTY, Survivors(h, nameOf, cut)), Ref(Renumbered(h, nameOf, cut), 0))
  {
    if h == [] {
      assert Represents(EMPTY, Ref([], 0)) by { RunRefines([], false); }
    } else {
      var before := Survivors(DropLast(h), nameOf, cut);
      SurvivorsReplay(DropLast(h), nameOf, cut);
      if KeptLast(h, nameOf, cut) {
        SurvivorReplays(h, nameOf, cut, ReplayAll(EMPTY, before));
        ReplayLast(before, RecordOf(Last(h)));
        assert Survivors(h, nameOf, cut) == before + [RecordOf(Last(h))];
      } else {
        assert Survivors(h, nameOf, cut) == before + [] == before;
      }
    }
  }

  lemma {:induction false} ReplayLast(records: seq<Record>, r: Record)
    ensures ReplayAll(EMPTY, records + [r]) == ApplyReplay(ReplayAll(EMPTY, records), r.key, r.value)
  {
    assert DropLast(records + [r]) == records && Last(records + [r]) == r;
  }

  // ---------------------------------------------------------------- merging cut files

  ghost function Take(s: seq<Record>, n: nat): seq<Record> {
    if n < |s| then s[..n] else s
  }

  lemma {:induction false} TakeSnoc(s: seq<Record>, r: Record, n: nat)
    ensures Take(s + [r], n) == Take(s, n) + (if |s| < n then [r] else [])
  {
  }

  lemma {:induction false} FilePosIsLength(h: History, nameOf: Bytes -> Bytes, name: Bytes)
    requires |h| < INT64_END && ModsMatch(h)
    ensures FilePos(h, nameOf, name) == |InFile(Records(h), nameOf, name)|
  {
    if h != [] {
      assert DropLast(Records(h)) == Records(DropLast(h));
      FilePosIsLength(DropLast(h), nameOf, name);
    }
  }

  lemma {:induction false} InFileSnoc(records: seq<Record>, r: Record, nameOf: Bytes -> Bytes, name: Bytes)
    ensures InFile(records + [r], nameOf, name) ==
            InFile(records, nameOf, name) + (if nameOf(r.key) == name then [r] else [])
  {
    assert DropLast(records + [r]) == records && Last(records + [r]) == r;
  }

  /** One more record of the file, before or after its cut. */
  lemma {:induction false} CutOne(a: seq<Record>, b: seq<Record>, r: Record, nameOf: Bytes -> Bytes, name: Bytes,
                                  n: nat, kept: bool)
    requires InFile(a, nameOf, name) == Take(InFile(b, nameOf, name), n)
    requires nameOf(r.key) == name ==> (kept <==> |InFile(b, nameOf, name)| < n)
    ensures InFile(if kept then a + [r] else a, nameOf, name) == Take(InFile(b + [r], nameOf, name), n)
  {
    InFileSnoc(a, r, nameOf, name);
    InFileSnoc(b, r, nameOf, name);
    if nameOf(r.key) == name {
      TakeSnoc(InFile(b, nameOf, name), r, n);
    }
  }

  lemma {:induction false} RecordsSplit(h: History)
    requires |h| < INT64_END && ModsMatch(h) && h != []
    ensures Records(h) == Records(DropLast(h)) + [RecordOf(Last(h))]
  {
    var front := DropLast(h);
    assert forall i | 0 <= i < |front| :: Records(h)[i] == Records(front)[i];
  }

  lemma {:induction false} SurvivorsSkip(h: History, nameOf: Bytes -> Bytes, cut: Bytes -> nat)
    requires |h| < INT64_END && ModsMatch(h) && h != [] && !KeptLast(h, nameOf, cut)
    ensures Survivors(h, nameOf, cut) == Survivors(DropLast(h), nameOf, cut)
  {
    var before := Survivors(DropLast(h), nameOf, cut);
    assert before + [] == before;
  }

  /** Of each file, the survivors are the records before the cut. */
  lemma {:induction false} SurvivorsInFile(h: History, nameOf: Bytes -> Bytes, cut: Bytes -> nat, name: Bytes)
    requires |h| < INT64_END && ModsMatch(h)
    ensures InFile(Survivors(h, nameOf, cut), nameOf, name) == Take(InFile(Records(h), nameOf, name), cut(name))
  {
    if h != [] {
      var front, r := DropLast(h), RecordOf(Last(h));
      var before := Survivors(front, nameOf, cut);
      SurvivorsInFile(front, nameOf, cut, name);
      FilePosIsLength(front, nameOf, name);
      RecordsSplit(h);
      CutOne(before, Records(front), r, nameOf, name, cut(name), KeptLast(h, nameOf, cut));
      assert before + [] == before;
    }
  }

  lemma {:induction false} SurvivorsMembers(h: History, nameOf: Bytes -> Bytes, cut: Bytes -> nat, r: Record)
    requires |h| < INT64_END && ModsMatch(h) && r in Survivors(h, nameOf, cut)
    ensures r in Records(h) && r.rev <= |h|
  {
    var front := DropLast(h);
    RecordsSplit(h);
    if r in Survivors(front, nameOf, cut) { SurvivorsMembers(front, nameOf, cut, r); }
  }

  lemma {:induction false} OrderedSnoc(s: seq<Record>, r: Record)
    requires forall i, j | 0 <= i < j < |s| :: s[i].rev < s[j].rev
    requires forall i | 0 <= i < |s| :: s[i].rev < r.rev
    ensures forall i, j | 0 <= i < j < |s + [r]| :: (s + [r])[i].rev < (s + [r])[j].rev
  {
  }

  lemma {:induction false} SurvivorsInOrder(h: History, nameOf: Bytes -> Bytes, cut: Bytes -> nat)
    requires |h| < INT64_END && ModsMatch(h)
    ensures var s := Survivors(h, nameOf, cut); forall i, j | 0 <= i < j < |s| :: s[i].rev < s[j].rev
  {
    if h != [] {
      var front := Survivors(DropLast(h), nameOf, cut);
      SurvivorsInOrder(DropLast(h), nameOf, cut);
      forall i | 0 <= i < |front| ensures front[i].rev < |h| {
        SurvivorsMembers(DropLast(h), nameOf, cut, front[i]);
      }
      if KeptLast(h, nameOf, cut) {
        OrderedSnoc(front, RecordOf(Last(h)));
      } else {
        SurvivorsSkip(h, nameOf, cut);
      }
    }
  }

  /** Cut files merge to the survivors in revision order, and to nothing else. */
  lemma {:induction false} CutFilesMerge(h: History, nameOf: Bytes -> Bytes, cut: Bytes -> nat, names: seq<Bytes>,
                                         files: seq<Bytes>, emitted: seq<Record>)
    requires |h| < INT64_END && ModsMatch(h) && Distinct(names) && |files| == |names|
    requires forall w | w in h :: nameOf(w.key) in names
    requires forall f | 0 <= f < |files| ::
               DecodeAll(files[f]).records == Take(InFile(Records(h), nameOf, names[f]), cut(names[f]))
    ensures Merges(files, emitted) <==> emitted == Survivors(h, nameOf, cut)
  {
    var all := Survivors(h, nameOf, cut);
    SurvivorsInOrder(h, nameOf, cut);
    forall f | 0 <= f < |files|
      ensures DecodeAll(files[f]).records == Lists(all, nameOf, names)[f]
      ensures SortedByRev(Lists(all, nameOf, names)[f])
    {
      SurvivorsInFile(h, nameOf, cut, names[f]);
      InFileSorted(all, nameOf, names[f]);
    }
    assert Contents(files) == Lists(all, nameOf, names);
    forall i | 0 <= i < |all| ensures nameOf(all[i].key) in names {
      SurvivorsMembers(h, nameOf, cut, all[i]);
      var k :| 0 <= k < |Records(h)| && Records(h)[k] == all[i];
      assert h[k] in h;
    }
    SplitUnion(all, nameOf, names);
    if Merges(files, emitted) { SortedUnique(emitted, all); }
  }

  // ---------------------------------------------------------------- when it is an earlier state

  lemma {:induction false} KeptCount(h: History, nameOf: Bytes -> Bytes, cut: Bytes -> nat)
    requires |h| < INT64_END && ModsMatch(h)
    ensures |Survivors(h, nameOf, cut)| == |Renumbered(h, nameOf, cut)| <= |h|
    ensures |Survivors(h, nameOf, cut)| == |h| <==> forall i | 0 <= i < |h| :: Kept(h, nameOf, cut, i)
    decreases |h|
  {
    if h != [] {
      var front := DropLast(h);
      KeptCount(front, nameOf, cut);
      KeptInFront(h, nameOf, cut);
    }
  }

  lemma {:induction false} KeptInFront(h: History, nameOf: Bytes -> Bytes, cut: Bytes -> nat)
    requires h != []
    ensures forall i | 0 <= i < |h| - 1 :: Kept(DropLast(h), nameOf, cut, i) <==> Kept(h, nameOf, cut, i)
    ensures Kept(h, nameOf, cut, |h| - 1) <==> KeptLast(h, nameOf, cut)
  {
    forall i | 0 <= i < |h| - 1 ensures Kept(DropLast(h), nameOf, cut, i) <==> Kept(h, nameOf, cut, i) {
      assert DropLast(h)[..i] == h[..i];
    }
    assert h[..|h| - 1] == DropLast(h);
  }

  lemma {:induction false} AllSurvive(h: History, nameOf: Bytes -> Bytes, cut: Bytes -> nat)
    requires |h| < INT64_END && ModsMatch(h) && forall i | 0 <= i < |h| :: Kept(h, nameOf, cut, i)
    ensures Survivors(h, nameOf, cut) == Records(h)
    decreases |h|
  {
    if h != [] {
      KeptInFront(h, nameOf, cut);
      AllSurvive(DropLast(h), nameOf, cut);
      RecordsSplit(h);
    }
  }

  /** No write is lost that lies before a surviving one. */
  ghost predicate NoGap(h: History, nameOf: Bytes -> Bytes, cut: Bytes -> nat) {
    forall i, j | 0 <= i < j < |h| && Kept(h, nameOf, cut, j) :: Kept(h, nameOf, cut, i)
  }

  /** No file has lost a record that lies before one which another file has kept. */
  ghost predicate FilesAgree(h: History, nameOf: Bytes -> Bytes, cut: Bytes -> nat) {
    forall i, j | 0 <= i < j < |h| && Kept(h, nameOf, cut, j) ::
      nameOf(h[i].key) == nameOf(h[j].key) || Kept(h, nameOf, cut, i)
  }

  lemma {:induction false} FilesDecide(h: History, nameOf: Bytes -> Bytes, cut: Bytes -> nat)
    ensures NoGap(h, nameOf, cut) <==> FilesAgree(h, nameOf, cut)
  {
    forall i, j | 0 <= i < j < |h| && Kept(h, nameOf, cut, j) && nameOf(h[i].key) == nameOf(h[j].key)
      ensures Kept(h, nameOf, cut, i)
    {
      assert h[..j][..i] == h[..i];
      FilePosMonotone(h[..j], nameOf, nameOf(h[i].key), i);
    }
  }

  lemma {:induction false} PrefixSurvives(h: History, nameOf: Bytes -> Bytes, cut: Bytes -> nat)
    requires |h| < INT64_END && ModsMatch(h) && NoGap(h, nameOf, cut)
    ensures Survivors(h, nameOf, cut) <= Records(h)
    decreases |h|
  {
    if h != [] {
      KeptInFront(h, nameOf, cut);
      if KeptLast(h, nameOf, cut) {
        assert forall i | 0 <= i < |h| - 1 :: Kept(h, nameOf, cut, |h| - 1) ==> Kept(h, nameOf, cut, i);
        AllSurvive(h, nameOf, cut);
      } else {
        PrefixSurvives(DropLast(h), nameOf, cut);
        RecordsSplit(h);
        SurvivorsSkip(h, nameOf, cut);
      }
    }
  }

  /** A prefix that holds the last record holds them all. */
  lemma {:induction false} LastMeansAll(h: History, nameOf: Bytes -> Bytes, cut: Bytes -> nat)
    requires |h| < INT64_END && ModsMatch(h) && Survivors(h, nameOf, cut) <= Records(h)
    requires h != [] && KeptLast(h, nameOf, cut)
    ensures forall i | 0 <= i < |h| :: Kept(h, nameOf, cut, i)
  {
    var before := Survivors(DropLast(h), nameOf, cut);
    KeptCount(DropLast(h), nameOf, cut);
    KeptCount(h, nameOf, cut);
    assert Survivors(h, nameOf, cut)[|before|] == RecordOf(Last(h));
    assert Records(h)[|before|].rev == |before| + 1;
  }

  lemma {:induction false} PrefixHasNoGap(h: History, nameOf: Bytes -> Bytes, cut: Bytes -> nat)
    requires |h| < INT64_END && ModsMatch(h) && Survivors(h, nameOf, cut) <= Records(h)
    ensures NoGap(h, nameOf, cut)
    decreases |h|
  {
    if h != [] {
      if KeptLast(h, nameOf, cut) {
        LastMeansAll(h, nameOf, cut);
      } else {
        PrefixOfFront(h, nameOf, cut);
        PrefixHasNoGap(DropLast(h), nameOf, cut);
        NoGapStep(h, nameOf, cut);
      }
    }
  }

  lemma {:induction false} PrefixOfFront(h: History, nameOf: Bytes -> Bytes, cut: Bytes -> nat)
    requires |h| < INT64_END && ModsMatch(h) && Survivors(h, nameOf, cut) <= Records(h)
    requires h != [] && !KeptLast(h, nameOf, cut)
    ensures Survivors(DropLast(h), nameOf, cut) <= Records(DropLast(h))
  {
    KeptCount(DropLast(h), nameOf, cut);
    RecordsSplit(h);
    SurvivorsSkip(h, nameOf, cut);
    ShorterPrefix(Survivors(DropLast(h), nameOf, cut), Records(DropLast(h)), RecordOf(Last(h)));
  }

  lemma {:induction false} ShorterPrefix(a: seq<Record>, b: seq<Record>, r: Record)
    requires a <= b + [r] && |a| <= |b|
    ensures a <= b
  {
    assert b == (b + [r])[..|b|];
  }

  lemma {:induction false} NoGapStep(h: History, nameOf: Bytes -> Bytes, cut: Bytes -> nat)
    requires h != [] && !KeptLast(h, nameOf, cut) && NoGap(DropLast(h), nameOf, cut)
    ensures NoGap(h, nameOf, cut)
  {
    KeptInFront(h, nameOf, cut);
    forall i, j | 0 <= i < j < |h| && Kept(h, nameOf, cut, j) ensures Kept(h, nameOf, cut, i) {
      assert j < |h| - 1 && Kept(DropLast(h), nameOf, cut, j) && Kept(DropLast(h), nameOf, cut, i);
    }
  }

  lemma {:induction false} PrefixIff(h: History, nameOf: Bytes -> Bytes, cut: Bytes -> nat)
    requires |h| < INT64_END && ModsMatch(h)
    ensures Survivors(h, nameOf, cut) <= Records(h) <==> FilesAgree(h, nameOf, cut)
  {
    FilesDecide(h, nameOf, cut);
    if NoGap(h, nameOf, cut) { PrefixSurvives(h, nameOf, cut); }
    if Survivors(h, nameOf, cut) <= Records(h) { PrefixHasNoGap(h, nameOf, cut); }
  }

  // ---------------------------------------------------------------- the whole way

  ghost predicate StoreComesBack(after: State, h: History, nameOf: Bytes -> Bytes, cut: Bytes -> nat, key: Bytes) {
    && Represents(after, Ref(Renumbered(h, nameOf, cut), 0))
    && LastKept(h, nameOf, cut, key) <= |h|
    && SameLife(ItemOf(after, key).latest, ValueAt(h, LastKept(h, nameOf, cut, key)))
  }

  lemma {:induction false} SurvivorsRebuild(h: History, nameOf: Bytes -> Bytes, cut: Bytes -> nat, key: Bytes)
    requires |h| < INT64_END && ModsMatch(h) && Derived(h)
    ensures var after := ReplayAll(EMPTY, Survivors(h, nameOf, cut));
            after.log.End() == |Survivors(h, nameOf, cut)| && StoreComesBack(after, h, nameOf, cut, key)
  {
    SurvivorsReplay(h, nameOf, cut);
    KeptCount(h, nameOf, cut);
    KeysComeBack(h, nameOf, cut, key);
    RepresentsReadable(ReplayAll(EMPTY, Survivors(h, nameOf, cut)), Ref(Renumbered(h, nameOf, cut), 0), key);
  }

  /** How many whole records each file holds. */
  ghost function CutsOf(h: History, steps: seq<WalWriter.Step>, nameOf: Bytes -> Bytes): Bytes -> nat
    requires |h| < INT64_END && ModsMatch(h) && WalWriter.ValidRun(WalWriter.INIT, steps)
  {
    var on := WalWriter.Exec(WalWriter.INIT, steps).files;
    var records := Records(h);
    name => WholeRecords(InFile(records, nameOf, name), |WalWriter.Lookup(on, name)|)
  }

  lemma {:induction false} CutFileDecodes(h: History, steps: seq<WalWriter.Step>, nameOf: Bytes -> Bytes, name: Bytes)
    requires Loggable(h) && WalWriter.ValidRun(WalWriter.INIT, steps) && NamesRight(steps, nameOf)
    requires Appends(steps) == Records(h)
    ensures DecodeAll(WalWriter.Lookup(WalWriter.Exec(WalWriter.INIT, steps).files, name)).records ==
            Take(InFile(Records(h), nameOf, name), CutsOf(h, steps, nameOf)(name))
    ensures DecodeAll(WalWriter.Lookup(WalWriter.Exec(WalWriter.INIT, steps).files, name)).clean <==>
            !Torn(h, steps, nameOf, name)
  {
    RecordsFit(h);
    CrashLeavesPrefix(steps, nameOf, name);
    var file := WalWriter.Lookup(WalWriter.Exec(WalWriter.INIT, steps).files, name);
    var all := InFile(Records(h), nameOf, name);
    TakeIsSlice(all, WholeRecords(all, |file|));
  }

  lemma {:induction false} TakeIsSlice(s: seq<Record>, n: nat)
    requires n <= |s|
    ensures Take(s, n) == s[..n]
  {
  }

  lemma {:induction false} RecordsFit(h: History)
    requires Loggable(h)
    ensures forall r | r in Records(h) :: Fits(r)
  {
  }

  // ---------------------------------------------------------------- an earlier state

  /** A store without a compacted part stands for one history only. */
  lemma {:induction false} HistoryIsDetermined(s: State, g: History, h: History)
    requires Represents(s, Ref(g, 0)) && Represents(s, Ref(h, 0))
    ensures g == h
  {
    forall i | 0 <= i < |g| ensures g[i] == h[i] {
      assert SlotMatches(s.log, g, i) && SlotMatches(s.log, h, i);
      assert IsRev(g, g[i].key, i + 1) && ItemMatches(ItemOf(s, g[i].key), g, g[i].key, |g|, 0);
      assert ItemMatches(ItemOf(s, g[i].key), h, g[i].key, |h|, 0);
    }
  }

  lemma {:induction false} FilePosSnoc(h: History, w: Write, nameOf: Bytes -> Bytes, name: Bytes)
    ensures FilePos(h + [w], nameOf, name) == FilePos(h, nameOf, name) + (if nameOf(w.key) == name then 1 else 0)
  {
    assert DropLast(h + [w]) == h;
  }

  /** Of each file, as many writes survive as the cut allows. */
  lemma {:induction false} RenumberedCount(h: History, nameOf: Bytes -> Bytes, cut: Bytes -> nat, name: Bytes)
    ensures var all := FilePos(h, nameOf, name);
            FilePos(Renumbered(h, nameOf, cut), nameOf, name) == if cut(name) < all then cut(name) else all
  {
    if h != [] {
      var front := Renumbered(DropLast(h), nameOf, cut);
      RenumberedCount(DropLast(h), nameOf, cut, name);
      if KeptLast(h, nameOf, cut) { FilePosSnoc(front, Last(Renumbered(h, nameOf, cut)), nameOf, name); }
    }
  }

  /** A write is counted by everything after it. */
  lemma {:induction false} FilePosCounts(h: History, nameOf: Bytes -> Bytes, i: nat, n: nat)
    requires i < n <= |h|
    ensures FilePos(h[..i], nameOf, nameOf(h[i].key)) < FilePos(h[..n], nameOf, nameOf(h[i].key))
  {
    assert DropLast(h[..i + 1]) == h[..i] && Last(h[..i + 1]) == h[i];
    assert h[..n][..i + 1] == h[..i + 1];
    FilePosMonotone(h[..n], nameOf, nameOf(h[i].key), i + 1);
  }

  /** If the surviving writes are those of an earlier moment, then exactly these have survived: each
      file has kept as many as it had by then. */
  lemma {:induction false} KeptIsBefore(h: History, nameOf: Bytes -> Bytes, cut: Bytes -> nat, n: nat, i: nat)
    requires n <= |h| && Renumbered(h, nameOf, cut) == h[..n] && i < |h|
    ensures Kept(h, nameOf, cut, i) <==> i < n
  {
    var name := nameOf(h[i].key);
    RenumberedCount(h, nameOf, cut, name);
    assert h[..|h|] == h;
    FilePosCounts(h, nameOf, i, |h|);
    if i < n {
      FilePosCounts(h, nameOf, i, n);
    } else {
      assert h[..i][..n] == h[..n];
      FilePosMonotone(h[..i], nameOf, name, n);
    }
  }

  lemma {:induction false} EarlierMeansAgree(h: History, nameOf: Bytes -> Bytes, cut: Bytes -> nat, n: nat)
    requires n <= |h| && Renumbered(h, nameOf, cut) == h[..n]
    ensures FilesAgree(h, nameOf, cut)
  {
    forall i, j | 0 <= i < j < |h| && Kept(h, nameOf, cut, j) ensures Kept(h, nameOf, cut, i) {
      KeptIsBefore(h, nameOf, cut, n, i);
      KeptIsBefore(h, nameOf, cut, n, j);
    }
  }

  lemma {:induction false} DerivedFront(h: History, n: nat)
    requires Derived(h) && ModsMatch(h) && n <= |h|
    ensures Derived(h[..n]) && ModsMatch(h[..n])
    decreases |h|
  {
    if n == |h| {
      assert h[..n] == h;
    } else {
      assert DropLast(h)[..n] == h[..n];
      DerivedFront(DropLast(h), n);
    }
  }

  /** If the files agree, the survivors are the records of an earlier moment. */
  lemma {:induction false} AgreeMeansEarlier(h: History, nameOf: Bytes -> Bytes, cut: Bytes -> nat)
    requires |h| < INT64_END && ModsMatch(h) && Derived(h) && FilesAgree(h, nameOf, cut)
    ensures var n := |Survivors(h, nameOf, cut)|;
            n <= |h| && Represents(ReplayAll(EMPTY, Survivors(h, nameOf, cut)), Ref(h[..n], 0))
  {
    var n := |Survivors(h, nameOf, cut)|;
    PrefixIff(h, nameOf, cut);
    KeptCount(h, nameOf, cut);
    DerivedFront(h, n);
    assert Survivors(h, nameOf, cut) == Records(h)[..n] == Records(h[..n]);
    ReplayRebuilds(h[..n]);
  }

  lemma {:induction false} EarlierIff(h: History, nameOf: Bytes -> Bytes, cut: Bytes -> nat)
    requires |h| < INT64_END && ModsMatch(h) && Derived(h)
    ensures (exists n: nat :: n <= |h| && Represents(ReplayAll(EMPTY, Survivors(h, nameOf, cut)), Ref(h[..n], 0)))
            <==> FilesAgree(h, nameOf, cut)
  {
    var back := ReplayAll(EMPTY, Survivors(h, nameOf, cut));
    if n: nat :| n <= |h| && Represents(back, Ref(h[..n], 0)) {
      SurvivorsReplay(h, nameOf, cut);
      HistoryIsDetermined(back, Renumbered(h, nameOf, cut), h[..n]);
      EarlierMeansAgree(h, nameOf, cut, n);
    }
    if FilesAgree(h, nameOf, cut) { AgreeMeansEarlier(h, nameOf, cut); }
  }

  // ---------------------------------------------------------------- starting up

  /** The file ends inside the body of a record. */
  ghost predicate Torn(h: History, steps: seq<WalWriter.Step>, nameOf: Bytes -> Bytes, name: Bytes)
    requires |h| < INT64_END && ModsMatch(h) && WalWriter.ValidRun(WalWriter.INIT, steps)
  {
    var file := WalWriter.Lookup(WalWriter.Exec(WalWriter.INIT, steps).files, name);
    var whole := Take(InFile(Records(h), nameOf, name), CutsOf(h, steps, nameOf)(name));
    |file| - |EncodeAll(whole)| >= HEADER
  }

  ghost predicate NoneTorn(h: History, steps: seq<WalWriter.Step>, nameOf: Bytes -> Bytes, names: seq<Bytes>)
    requires |h| < INT64_END && ModsMatch(h) && WalWriter.ValidRun(WalWriter.INIT, steps)
  {
    forall name | name in names :: !Torn(h, steps, nameOf, name)
  }

  /** Start-up gives a store that stands for the history as it was at some moment. */
  ghost predicate GivesEarlierState(files: seq<Bytes>, h: History) {
    exists s, n: nat :: n <= |h| && StartsUp(files, s) && Represents(s, Ref(h[..n], 0))
  }

  lemma {:induction false} CrashMerges(h: History, steps: seq<WalWriter.Step>, nameOf: Bytes -> Bytes,
                                       names: seq<Bytes>, files: seq<Bytes>, emitted: seq<Record>)
    requires Loggable(h) && WalWriter.ValidRun(WalWriter.INIT, steps) && NamesRight(steps, nameOf)
    requires Appends(steps) == Records(h)
    requires Distinct(names) && (forall w | w in h :: nameOf(w.key) in names)
    requires FilesAt(files, names, WalWriter.Exec(WalWriter.INIT, steps))
    ensures Merges(files, emitted) <==> emitted == Survivors(h, nameOf, CutsOf(h, steps, nameOf))
  {
    var cut := CutsOf(h, steps, nameOf);
    forall f | 0 <= f < |files|
      ensures DecodeAll(files[f]).records == Take(InFile(Records(h), nameOf, names[f]), cut(names[f]))
    {
      CutFileDecodes(h, steps, nameOf, names[f]);
    }
    CutFilesMerge(h, nameOf, cut, names, files, emitted);
  }

  lemma {:induction false} CleanIff(h: History, steps: seq<WalWriter.Step>, nameOf: Bytes -> Bytes,
                                    names: seq<Bytes>, files: seq<Bytes>)
    requires Loggable(h) && WalWriter.ValidRun(WalWriter.INIT, steps) && NamesRight(steps, nameOf)
    requires Appends(steps) == Records(h) && FilesAt(files, names, WalWriter.Exec(WalWriter.INIT, steps))
    ensures AllClean(files) <==> NoneTorn(h, steps, nameOf, names)
  {
    forall f | 0 <= f < |files| ensures DecodeAll(files[f]).clean <==> !Torn(h, steps, nameOf, names[f]) {
      CutFileDecodes(h, steps, nameOf, names[f]);
    }
  }

  lemma {:induction false} StartsUpIff(h: History, steps: seq<WalWriter.Step>, nameOf: Bytes -> Bytes,
                                       names: seq<Bytes>, files: seq<Bytes>, s: State)
    requires Loggable(h) && WalWriter.ValidRun(WalWriter.INIT, steps) && NamesRight(steps, nameOf)
    requires Appends(steps) == Records(h)
    requires Distinct(names) && (forall w | w in h :: nameOf(w.key) in names)
    requires FilesAt(files, names, WalWriter.Exec(WalWriter.INIT, steps))
    ensures StartsUp(files, s) <==>
            NoneTorn(h, steps, nameOf, names) && s == ReplayAll(EMPTY, Survivors(h, nameOf, CutsOf(h, steps, nameOf)))
  {
    var all := Survivors(h, nameOf, CutsOf(h, steps, nameOf));
    CleanIff(h, steps, nameOf, names, files);
    CrashMerges(h, steps, nameOf, names, files, all);
    if emitted :| Merges(files, emitted) && s == ReplayAll(EMPTY, emitted) {
      CrashMerges(h, steps, nameOf, names, files, emitted);
    }
  }

  /** The log writers are stopped at any moment. Start-up succeeds exactly when no file ends inside
      the body of a record. Then every key comes back as of its last surviving write, with the data
      and version it had, in a store that stands for the surviving writes numbered afresh. That
      store is an earlier state exactly when, besides, no file lost a record from before one that
      another file kept. */
  lemma {:induction false} CrashRecoveryIsExact(
    h: History, steps: seq<WalWriter.Step>, nameOf: Bytes -> Bytes, names: seq<Bytes>, files: seq<Bytes>, key: Bytes)
    requires Loggable(h) && WalWriter.ValidRun(WalWriter.INIT, steps) && NamesRight(steps, nameOf)
    requires Appends(steps) == Records(h)
    requires Distinct(names) && (forall w | w in h :: nameOf(w.key) in names)
    requires FilesAt(files, names, WalWriter.Exec(WalWriter.INIT, steps))
    ensures (exists s :: StartsUp(files, s)) <==> NoneTorn(h, steps, nameOf, names)
    ensures forall s | StartsUp(files, s) ::
              && s.log.End() == |Survivors(h, nameOf, CutsOf(h, steps, nameOf))|
              && StoreComesBack(s, h, nameOf, CutsOf(h, steps, nameOf), key)
    ensures GivesEarlierState(files, h) <==>
            NoneTorn(h, steps, nameOf, names) && FilesAgree(h, nameOf, CutsOf(h, steps, nameOf))
  {
    var cut := CutsOf(h, steps, nameOf);
    forall s ensures StartsUp(files, s) <==> NoneTorn(h, steps, nameOf, names) && IsBack(s, h, nameOf, cut) {
      StartsUpIff(h, steps, nameOf, names, files, s);
    }
    SurvivorsRebuild(h, nameOf, cut, key);
    EarlierByStart(files, h, nameOf, cut, NoneTorn(h, steps, nameOf, names));
  }

  /** The store that replaying the survivors gives. */
  ghost predicate IsBack(s: State, h: History, nameOf: Bytes -> Bytes, cut: Bytes -> nat)
    requires |h| < INT64_END && ModsMatch(h)
  {
    s == ReplayAll(EMPTY, Survivors(h, nameOf, cut))
  }

  lemma {:induction false} EarlierByStart(files: seq<Bytes>, h: History, nameOf: Bytes -> Bytes, cut: Bytes -> nat,
                                          starts: bool)
    requires |h| < INT64_END && ModsMatch(h) && Derived(h)
    requires forall s :: StartsUp(files, s) <==> starts && IsBack(s, h, nameOf, cut)
    ensures (exists s :: StartsUp(files, s)) <==> starts
    ensures GivesEarlierState(files, h) <==> starts && FilesAgree(h, nameOf, cut)
  {
    var back := ReplayAll(EMPTY, Survivors(h, nameOf, cut));
    assert StartsUp(files, back) <==> starts && IsBack(back, h, nameOf, cut);
    EarlierIff(h, nameOf, cut);
  }

  // ---------------------------------------------------------------- jobs still on the way

  lemma {:induction false} SentIsPrefix(h: History, jobs: seq<Entry<Write>>, i: nat)
    requires Notify.DistinctRevs(jobs) && forall k | 0 <= k < |jobs| :: IsJobOf(jobs[k], h)
    requires i < |Notify.Run(jobs).sent|
    ensures i < |h| && Notify.Run(jobs).sent[i] == Entry(i + 1, h[i])
  {
    var sent := Notify.Run(jobs).sent;
    Notify.Reordering(jobs);
    assert sent[i] in sent;
    var k :| 0 <= k < |jobs| && jobs[k] == sent[i];
  }

  /** When only some of the jobs have reached the notify thread, what it has handed to the log is
      the beginning of the history. */
  lemma {:induction false} HandedOnIsPrefix(h: History, jobs: seq<Entry<Write>>, records: seq<Record>)
    requires |h| < INT64_END && ModsMatch(h) && Derived(h) && Notify.DistinctRevs(jobs)
    requires forall i | 0 <= i < |jobs| :: IsJobOf(jobs[i], h)
    requires Logged(records, Notify.Run(jobs).sent)
    ensures |records| <= |h| && Derived(h[..|records|]) && ModsMatch(h[..|records|])
    ensures records == Records(h[..|records|])
  {
    if records != [] { SentIsPrefix(h, jobs, |records| - 1); }
    DerivedFront(h, |records|);
    var all := Records(h[..|records|]);
    forall i | 0 <= i < |records| ensures records[i] == all[i] {
      SentIsPrefix(h, jobs, i);
    }
  }

  lemma {:induction false} LoggableFront(h: History, n: nat)
    requires Loggable(h) && n <= |h|
    ensures Loggable(h[..n])
  {
    DerivedFront(h, n);
  }

  /** What starts up from the log of a beginning cannot be later than that. */
  lemma {:induction false} EarlierOfFront(files: seq<Bytes>, h: History, n: nat)
    requires n <= |h| && forall s | StartsUp(files, s) :: s.log.End() <= n
    ensures GivesEarlierState(files, h) <==> GivesEarlierState(files, h[..n])
  {
    if s, m: nat :| m <= |h| && StartsUp(files, s) && Represents(s, Ref(h[..m], 0)) {
      assert h[..n][..m] == h[..m];
    }
    if s, m: nat :| m <= n && StartsUp(files, s) && Represents(s, Ref(h[..n][..m], 0)) {
      assert h[..n][..m] == h[..m];
    }
  }

  /** The whole process is stopped at any moment: writers and compactions of the store anywhere in
      their steps, some jobs on their way to the notify thread or waiting on its heap, the log
      writers anywhere in theirs. Start-up gives the store as it was at some moment exactly when no
      file ends inside a body and no file lost a record from before one that another file kept. */
  lemma {:induction false} CrashAtAnyMoment(
    writers: seq<ConcurrentStore.Step>, jobs: seq<Entry<Write>>, steps: seq<WalWriter.Step>,
    nameOf: Bytes -> Bytes, names: seq<Bytes>, files: seq<Bytes>, key: Bytes)
    requires ConcurrentStore.ValidRun(ConcurrentStore.INIT, writers)
    requires var h := ConcurrentStore.Exec(ConcurrentStore.INIT, writers).history;
             && Loggable(h) && Notify.DistinctRevs(jobs) && (forall i | 0 <= i < |jobs| :: IsJobOf(jobs[i], h))
             && (forall w | w in h :: nameOf(w.key) in names)
    requires WalWriter.ValidRun(WalWriter.INIT, steps) && NamesRight(steps, nameOf) && Distinct(names)
    requires Logged(Appends(steps), Notify.Run(jobs).sent)
    requires FilesAt(files, names, WalWriter.Exec(WalWriter.INIT, steps))
    ensures var h, n := ConcurrentStore.Exec(ConcurrentStore.INIT, writers).history, |Appends(steps)|;
            && n <= |h| && Loggable(h[..n])
            && ((exists s :: StartsUp(files, s)) <==> NoneTorn(h[..n], steps, nameOf, names))
            && (forall s | StartsUp(files, s) ::
                  StoreComesBack(s, h[..n], nameOf, CutsOf(h[..n], steps, nameOf), key))
            && (GivesEarlierState(files, h) <==>
                  && NoneTorn(h[..n], steps, nameOf, names)
                  && FilesAgree(h[..n], nameOf, CutsOf(h[..n], steps, nameOf)))
  {
    var h, n := ConcurrentStore.Exec(ConcurrentStore.INIT, writers).history, |Appends(steps)|;
    HandedOnIsPrefix(h, jobs, Appends(steps));
    LoggableFront(h, n);
    CrashRecoveryIsExact(h[..n], steps, nameOf, names, files, key);
    KeptCount(h[..n], nameOf, CutsOf(h[..n], steps, nameOf));
    EarlierOfFront(files, h, n);
  }
}
