/** The two selections of a watch request. The scan of the past goes through one shard of the prefix
    index; a writer that looks for watchers compares its key with the plain byte range. */
module WatchRanges {
  import opened Common
  import opened ByteOrder
  import opened Prefixes
  import opened WatchPipeline
  import opened WatchDelivery

  /** The filter of `notify_watchers`: a writer of `key` finds the watcher. */
  predicate Notices(start: Bytes, end: Bytes, key: Bytes) {
    if end == [] then key == start else AtMost(start, key) && Less(key, end)
  }

  /** The ends that the scan takes for the end of the whole shard because of a final zero byte. */
  predicate OpenEnded(start: Bytes, end: Bytes) {
    || end == [0]
    || (end == start + [0] && Prefix(end) == Prefix(start))
    || (end != [] && Last(end) == 0 && Prefix(end) != Prefix(start))
  }

  // ---------------------------------------------------------------- what the scan selects

  lemma {:induction false} OpenScan(start: Bytes, end: Bytes, key: Bytes)
    requires OpenEnded(start, end) && PrefixAndRange(start, end).Accepted?
    ensures Selected(PrefixAndRange(start, end), key) <==> Prefix(key) == Prefix(start) && AtMost(start, key)
  {
    if Prefix(key) == Prefix(start) { SamePrefixOrder(start, key); }
    if end == [0] || Prefix(end) == Prefix(start) { OpenEnd(start, end); }
  }

  lemma {:induction false} EndParts(start: Bytes, end: Bytes)
    requires Prefix(end) == Prefix(start) && Suffix(end) == Suffix(start) + [0]
    ensures end == start + [0]
  {
    SplitJoins(start);
    SplitJoins(end);
  }

  lemma {:induction false} ClosedEnd(start: Bytes, end: Bytes)
    requires end != [] && Prefix(end) == Prefix(start) && !OpenEnded(start, end)
    ensures PrefixAndRange(start, end) == Accepted(Prefix(start), Suffix(start), Excluded(Suffix(end)))
  {
    ZeroForm(Suffix(end), Suffix(start));
    if Suffix(end) == Suffix(start) + [0] { EndParts(start, end); }
  }

  /** Every other accepted query selects, inside the shard of its start, the keys of [start, end). */
  lemma {:induction false} ClosedScan(start: Bytes, end: Bytes, key: Bytes)
    requires end != [] && !OpenEnded(start, end) && PrefixAndRange(start, end).Accepted?
    ensures Selected(PrefixAndRange(start, end), key) <==>
            Prefix(key) == Prefix(start) && AtMost(start, key) && Less(key, end)
  {
    if Prefix(end) != Prefix(start) {
      ShardedScan(start, end, key);
    } else {
      ClosedEnd(start, end);
      if Prefix(key) == Prefix(start) {
        SamePrefixOrder(start, key);
        SamePrefixOrder(key, end);
      }
    }
  }

  // ---------------------------------------------------------------- what a writer notices

  lemma {:induction false} NothingBelowZero(key: Bytes)
    ensures Less(key, [0]) <==> key == []
  {
  }

  lemma {:induction false} OnlyStart(start: Bytes, key: Bytes)
    ensures AtMost(start, key) && Less(key, start + [0]) <==> key == start
  {
    if AtMost(start, key) && Less(key, start + [0]) {
      assert start + [] == start;
      Sandwich(start, [], [0], key);
      var rest := key[|start|..];
      assert key == start + rest;
      LessConcat(start, rest, [0]);
      NothingBelowZero(rest);
    }
    if key == start {
      assert key == start + [];
      LessConcat(start, [], [0]);
    }
  }

  /** A shard "q/" lies after its end "q" with a zero byte. */
  lemma {:induction false} NothingBeforeShard(q: Bytes, rest: Bytes, key: Bytes)
    requires AtMost(q + [SLASH] + rest, key)
    ensures !Less(key, q + [0])
  {
    var start := q + [SLASH] + rest;
    assert start == q + ([SLASH] + rest);
    LessConcat(q, [SLASH] + rest, [0]);
    if Less(key, q + [0]) && key != start { LessTransitive(start, key, q + [0]); }
  }

  /** With an open end, at most the start key itself is noticed. */
  lemma {:induction false} OpenNotices(start: Bytes, end: Bytes, key: Bytes)
    requires OpenEnded(start, end) && PrefixAndRange(start, end).Accepted?
    ensures Notices(start, end, key) <==> key == start && end == start + [0]
  {
    if end == [0] {
      NothingBelowZero(key);
      NothingBelowZero(start);
      assert [] + [0] == [0];
    } else if Prefix(end) == Prefix(start) {
      OnlyStart(start, key);
    } else {
      OtherShardNotices(start, end, key);
    }
  }

  lemma {:induction false} OtherShardNotices(start: Bytes, end: Bytes, key: Bytes)
    requires end != [] && end != [0] && Last(end) == 0 && Prefix(end) != Prefix(start)
    requires PrefixAndRange(start, end).Accepted?
    ensures !Notices(start, end, key) && end != start + [0]
  {
    RejectedIff(start, end);
    SplitJoins(start);
    ShardAfterZero(Prefix(start), Suffix(start), end, key);
  }

  lemma {:induction false} ShardAfterZero(shard: Bytes, rest: Bytes, end: Bytes, key: Bytes)
    requires end != [] && Last(end) == 0 && shard == DropLast(end) + [SLASH]
    ensures !(AtMost(shard + rest, key) && Less(key, end)) && end != shard + rest + [0]
  {
    var q := DropLast(end);
    assert end == q + [0];
    if AtMost(shard + rest, key) { NothingBeforeShard(q, rest, key); }
  }

  // ---------------------------------------------------------------- where they differ

  /** Exactly for which keys the two selections of an accepted request differ. An end of the shard
      written with a zero byte: every key of the shard from start on, save start itself when the end
      is start with a zero byte. Any other end: the keys of the byte range that lie in another
      shard. No end: none. */
  lemma {:induction false} SelectionsDifferIff(start: Bytes, end: Bytes, key: Bytes)
    requires PrefixAndRange(start, end).Accepted?
    ensures (Selected(PrefixAndRange(start, end), key) <==> Notices(start, end, key)) <==>
            || end == []
            || (if OpenEnded(start, end)
                then !(Prefix(key) == Prefix(start) && AtMost(start, key)) || (key == start && end == start + [0])
                else !(AtMost(start, key) && Less(key, end) && Prefix(key) != Prefix(start)))
  {
    if end == [] {
      SingleKeyScan(start, key);
    } else if OpenEnded(start, end) {
      OpenScan(start, end, key);
      OpenNotices(start, end, key);
    } else {
      ClosedScan(start, end, key);
    }
  }

  /** In a whole resource shard, with a plain end, they never differ. */
  lemma {:induction false} WholeShardAgrees(start: Bytes, end: Bytes, key: Bytes)
    requires WholePrefix(Prefix(start)) && end != [] && Last(end) != 0 && PrefixAndRange(start, end).Accepted?
    ensures Selected(PrefixAndRange(start, end), key) <==> Notices(start, end, key)
  {
    FlatScan(start, end, key);
  }

  // ---------------------------------------------------------------- whole requests

  /** Of the keys that ever exist, in byte order, those that the scan selects. */
  function ScanKeys(start: Bytes, end: Bytes, all: seq<Bytes>): seq<Bytes> {
    if all == [] then []
    else ScanKeys(start, end, DropLast(all))
         + (if Selected(PrefixAndRange(start, end), Last(all)) then [Last(all)] else [])
  }

  function LiveKeys(start: Bytes, end: Bytes, all: seq<Bytes>): set<Bytes> {
    set key | key in all && Notices(start, end, key)
  }

  lemma {:induction false} ScanKeysMembers(start: Bytes, end: Bytes, all: seq<Bytes>, key: Bytes)
    ensures key in ScanKeys(start, end, all) <==> key in all && Selected(PrefixAndRange(start, end), key)
  {
    if all != [] {
      ScanKeysMembers(start, end, DropLast(all), key);
      assert all == DropLast(all) + [Last(all)];
    }
  }

  lemma {:induction false} ScanKeysDistinct(start: Bytes, end: Bytes, all: seq<Bytes>)
    requires Distinct(all)
    ensures Distinct(ScanKeys(start, end, all))
  {
    if all != [] {
      var front, last := DropLast(all), Last(all);
      ScanKeysDistinct(start, end, front);
      forall i | 0 <= i < |ScanKeys(start, end, front)| ensures ScanKeys(start, end, front)[i] != last {
        var key := ScanKeys(start, end, front)[i];
        assert key in ScanKeys(start, end, front);
        ScanKeysMembers(start, end, front, key);
        var j :| 0 <= j < |front| && front[j] == key;
        assert all[j] == key;
      }
    }
  }

  /** The request is served exactly in every run that catches no key. */
  ghost predicate ServedExactly(start: Bytes, end: Bytes, all: seq<Bytes>) {
    AlwaysExact(ScanKeys(start, end, all), LiveKeys(start, end, all))
  }

  /** Which watch requests are served exactly, whatever the interleaving: those whose two selections
      agree on the keys that exist and hold at most one of them. A request that is turned down opens
      no stream; its scan selects nothing here. */
  lemma {:induction false} ServedExactlyIff(start: Bytes, end: Bytes, all: seq<Bytes>)
    requires Distinct(all)
    ensures ServedExactly(start, end, all) <==>
            && (forall key | key in all :: Selected(PrefixAndRange(start, end), key) <==> Notices(start, end, key))
            && |ScanKeys(start, end, all)| <= 1
  {
    var keys, live := ScanKeys(start, end, all), LiveKeys(start, end, all);
    ScanKeysDistinct(start, end, all);
    ExactIffOneKey(keys, live);
    forall key ensures key in keys <==> key in all && Selected(PrefixAndRange(start, end), key) {
      ScanKeysMembers(start, end, all, key);
    }
  }

  // ---------------------------------------------------------------- two requests that are not

  lemma {:induction false} RegistryIsPrefix()
    ensures Prefix(REGISTRY) == REGISTRY
  {
    RegistryEnds(REGISTRY);
    assert SlashEndsFrom(REGISTRY, 10) == [];
  }

  lemma {:induction false} SlashAfter(key: Bytes, i: nat, j: nat)
    requires i <= j < |key| && key[j] == SLASH
    ensures SlashEndsFrom(key, i) != []
    decreases j - i
  {
    if i < j { SlashAfter(key, i + 1, j); }
  }

  /** A key with a further slash is in another shard. */
  lemma {:induction false} DeeperShard(below: Bytes)
    requires SLASH in below
    ensures Prefix(REGISTRY + below) != REGISTRY
  {
    var key := REGISTRY + below;
    var i :| 0 <= i < |below| && below[i] == SLASH;
    RegistryEnds(key);
    assert key[|REGISTRY| + i] == SLASH;
    SlashAfter(key, 10, |REGISTRY| + i);
  }

  /** "/registry0" */
  const REGISTRY_END: Bytes := [0x2f, 0x72, 0x65, 0x67, 0x69, 0x73, 0x74, 0x72, 0x79, ZERO_DIGIT]

  lemma {:induction false} RegistryEndIs()
    ensures REGISTRY == DropLast(REGISTRY) + [SLASH] && REGISTRY_END == DropLast(REGISTRY) + [ZERO_DIGIT]
    ensures DropLast(REGISTRY_END) == DropLast(REGISTRY) && Last(REGISTRY_END) == ZERO_DIGIT
  {
  }

  lemma {:induction false} BelowRegistry(below: Bytes)
    ensures below != [] ==> Notices(REGISTRY, REGISTRY_END, REGISTRY + below)
  {
    var q := DropLast(REGISTRY);
    RegistryEndIs();
    assert REGISTRY + [] == REGISTRY;
    LessConcat(REGISTRY, [], below);
    ShardBelowZeroDigit(q, below);
  }

  lemma {:induction false} RegistryAccepted()
    ensures PrefixAndRange(REGISTRY, REGISTRY_END).Accepted?
  {
    RegistryIsPrefix();
    RegistryEndIs();
    RejectedIff(REGISTRY, REGISTRY_END);
  }

  lemma {:induction false} DifferenceLoses(start: Bytes, end: Bytes, key: Bytes)
    requires !(Selected(PrefixAndRange(start, end), key) <==> Notices(start, end, key))
    ensures !ServedExactly(start, end, [key])
  {
    ServedExactlyIff(start, end, [key]);
    assert key in [key];
  }

  lemma {:induction false} OtherShardLoses(start: Bytes, end: Bytes, key: Bytes)
    requires PrefixAndRange(start, end).Accepted? && Notices(start, end, key) && Prefix(key) != Prefix(start)
    ensures !Selected(PrefixAndRange(start, end), key) && !ServedExactly(start, end, [key])
  {
    DifferenceLoses(start, end, key);
  }

  /** Watching everything below "/registry/" with the end "/registry0": the scan looks at the keys
      without a further slash only. So a write of any other key from before the watch is lost,
      although it is the only key there is. */
  lemma {:induction false} CrossShardWatch(below: Bytes)
    requires SLASH in below
    ensures PrefixAndRange(REGISTRY, REGISTRY_END).Accepted? && Notices(REGISTRY, REGISTRY_END, REGISTRY + below)
    ensures !Selected(PrefixAndRange(REGISTRY, REGISTRY_END), REGISTRY + below)
    ensures !ServedExactly(REGISTRY, REGISTRY_END, [REGISTRY + below])
  {
    RegistryAccepted();
    RegistryIsPrefix();
    BelowRegistry(below);
    DeeperShard(below);
    OtherShardLoses(REGISTRY, REGISTRY_END, REGISTRY + below);
  }

  /** Watching all keys from `start` on with the zero byte as end: no writer notices the watcher, so a
      write after the scan is lost, although start is the only key there is. */
  lemma {:induction false} ZeroByteWatch(start: Bytes)
    requires start != []
    ensures PrefixAndRange(start, [0]).Accepted?
    ensures Selected(PrefixAndRange(start, [0]), start) && !Notices(start, [0], start)
    ensures !ServedExactly(start, [0], [start])
  {
    OpenScan(start, [0], start);
    NothingBelowZero(start);
    DifferenceLoses(start, [0], start);
  }
}
