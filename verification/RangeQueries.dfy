/** What range requests answer: the store's listing against the history, and the paging and
    compare logic of the key-value service. */
module RangeQueries {
  import opened Common
  import opened OffsetSequence
  import opened Mvcc
  import opened StoreModel
  import opened ItemHistory
  import opened ByteOrder
  import opened Prefixes
  import opened KeyIndex
  import opened Stores

  // ---------------------------------------------------------------- the listing

  lemma {:induction false} LiveKeysMembers(keys: seq<Bytes>, s: State, rev: int)
    requires rev > 0
    ensures forall key :: key in LiveKeys(keys, s, rev) <==> key in keys && Has(ItemOf(s, key), s.log, rev)
  {
    if keys != [] {
      LiveKeysMembers(DropLast(keys), s, rev);
      assert keys == DropLast(keys) + [Last(keys)];
    }
  }

  lemma {:induction false} LiveKeysSorted(keys: seq<Bytes>, s: State, rev: int)
    requires rev > 0 && Sorted(keys)
    ensures Sorted(LiveKeys(keys, s, rev))
  {
    if keys != [] {
      LiveKeysSorted(DropLast(keys), s, rev);
      LiveKeysMembers(DropLast(keys), s, rev);
      var front := LiveKeys(DropLast(keys), s, rev);
      forall i | 0 <= i < |front| ensures Less(front[i], Last(keys)) {
        assert front[i] in front;
        var j :| 0 <= j < |DropLast(keys)| && DropLast(keys)[j] == front[i];
        assert keys[j] == front[i];
      }
    }
  }

  /** The page shows, of each key in turn, the value that was last at the revision, field by field. */
  ghost predicate PageShows(page: seq<KeyValue>, keys: seq<Bytes>, r: Ref, rev: int)
    requires rev <= |r.history|
  {
    |page| == |keys| && forall i | 0 <= i < |page| :: Shows(page[i], keys[i], ValueOf(r.history, keys[i], rev))
  }

  /** The keys a range lists are exactly the selected keys that are live at the revision, in byte
      order. Together with the postcondition of Range: the page is the first `limit` of them, and
      the count is exact however small the limit. */
  lemma {:induction false} RangeIsExact(index: Index, s: State, r: Ref, q: Query, rev: int)
    requires Represents(s, r) && Indexes(index, s.tree.Keys) && q.Accepted? && 0 < rev <= |r.history|
    ensures var live := LiveKeys(Scan(index, q), s, rev);
            && Sorted(live)
            && (forall key :: key in live <==> Selected(q, key) && LiveAt(r, key, rev))
            && (forall key | key in live ::
                  Visible(r.history, key, rev, r.start).Some? &&
                  KeyValueAt(s, key, rev) == AsKeyValue(Visible(r.history, key, rev, r.start).value, key))
            && (forall n: nat | n <= |live| :: PageShows(Listing(live[..n], s, rev), live[..n], r, rev))
  {
    var keys := Scan(index, q);
    ScanExact(index, s.tree.Keys, q);
    LiveKeysSorted(keys, s, rev);
    LiveKeysMembers(keys, s, rev);
    forall key ensures Has(ItemOf(s, key), s.log, rev) <==> LiveAt(r, key, rev)
               ensures Find(ItemOf(s, key), s.log, rev) == Visible(r.history, key, rev, r.start)
               ensures LiveAt(r, key, rev) ==> key in s.tree
    {
      RepresentsReadable(s, r, key);
      FindIsVisible(ItemOf(s, key), s.log, r.history, key, rev);
      HasAgreesWithFind(ItemOf(s, key), s.log, rev);
    }
    var live := LiveKeys(keys, s, rev);
    forall n: nat | n <= |live| ensures PageShows(Listing(live[..n], s, rev), live[..n], r, rev) {
      forall i | 0 <= i < n
        ensures Shows(Listing(live[..n], s, rev)[i], live[..n][i], ValueOf(r.history, live[i], rev))
      {
        assert live[i] in live;
      }
    }
  }

  /** In a whole shard the listing is the flat scan of [start, end). */
  lemma {:induction false} RangeIsFlatScan(index: Index, s: State, r: Ref, start: Bytes, end: Bytes, rev: int)
    requires Represents(s, r) && Indexes(index, s.tree.Keys) && 0 < rev <= |r.history|
    requires WholePrefix(Prefix(start)) && end != [] && Last(end) != 0 && PrefixAndRange(start, end).Accepted?
    ensures var live := LiveKeys(Scan(index, PrefixAndRange(start, end)), s, rev);
            && Sorted(live)
            && forall key :: key in live <==> AtMost(start, key) && Less(key, end) && LiveAt(r, key, rev)
  {
    RangeIsExact(index, s, r, PrefixAndRange(start, end), rev);
    forall key ensures Selected(PrefixAndRange(start, end), key) <==> AtMost(start, key) && Less(key, end) {
      FlatScan(start, end, key);
    }
  }

  // ---------------------------------------------------------------- paging

  datatype RangeRequest = RangeRequest(key: Bytes, rangeEnd: Bytes, revision: int, limit: Int64, countOnly: bool)

  datatype RangeResponse =
    | RangeResponse(kvs: seq<KeyValue>, revision: int, count: int, more: bool)
    | RangeFailed
    | RequestPanics

  const TWO_64: int := 0x1_0000_0000_0000_0000

  /** The cast of a signed to an unsigned 64-bit number. */
  function AsUsize(n: Int64): nat {
    if n < 0 then n + TWO_64 else n
  }

  /** The cast back. */
  function AsInt64(n: nat): Int64
    requires n < TWO_64
  {
    if n >= INT64_END then n - TWO_64 else n
  }

  function LimitOf(req: RangeRequest): Option<nat> {
    if req.countOnly then Some(0) else if req.limit == 0 then None else Some(AsUsize(req.limit))
  }

  function MoreOf(req: RangeRequest, count: int): bool {
    if req.countOnly || LimitOf(req).None? then false else count > AsInt64(LimitOf(req).value)
  }

  /** How many keys a page shows when n are live. */
  function PageSize(req: RangeRequest, n: nat): nat {
    Min(if LimitOf(req).Some? then LimitOf(req).value else USIZE_MAX, n)
  }

  /** The revision that a request looks at. */
  ghost function LooksAt(store: Store, req: RangeRequest): int
    reads store, store.log
  {
    if req.revision == 0 then store.log.Model().End() else req.revision
  }

  /** The live keys that a request asks for; none when there is no revision to look at. */
  ghost function Asked(store: Store, req: RangeRequest): seq<Bytes>
    reads store, store.log
  {
    var q, at := PrefixAndRange(req.key, req.rangeEnd), LooksAt(store, req);
    if at <= 0 || q.Rejected? then [] else LiveKeys(Scan(store.index, q), store.View(), at)
  }

  /** The page shows the first min(limit, n) keys; without a limit, or with a negative one, all. The
      flag `more` tells whether the page was cut short, exactly when the limit is not negative: a
      negative limit wraps to a huge page size and back, so everything is shown and `more` is set
      all the same. A request that only counts shows nothing and never sets the flag. */
  lemma {:induction false} PageSizeIs(req: RangeRequest, n: nat)
    requires n < INT64_END
    ensures PageSize(req, n) == if req.countOnly then 0 else if req.limit <= 0 then n else Min(req.limit, n)
    ensures (MoreOf(req, n) <==> PageSize(req, n) < n) <==> (if req.countOnly then n == 0 else req.limit >= 0)
  {
  }

  /** The revision is there, and start and end lie in one shard, in order. */
  ghost predicate Answerable(store: Store, req: RangeRequest)
    reads store, store.log
  {
    && store.log.Model().start < LooksAt(store, req) <= store.log.Model().End()
    && PrefixAndRange(req.key, req.rangeEnd).Accepted?
    && !(req.rangeEnd != [] && req.rangeEnd != [0] && Less(req.rangeEnd, req.key))
  }

  /** The answer shows what the lookup at the revision finds, and that is live. */
  ghost predicate FoundAndShown(kv: KeyValue, key: Bytes, s: State, at: int) {
    && at > 0
    && var found := Find(ItemOf(s, key), s.log, at);
       found.Some? && found.value.data.Some? && Shows(kv, key, found.value)
  }

  lemma {:induction false} ListingShows(keys: seq<Bytes>, s: State, at: int, n: nat)
    requires at > 0 && n <= |LiveKeys(keys, s, at)|
    ensures var live := LiveKeys(keys, s, at);
            && |Listing(live[..n], s, at)| == n
            && forall i | 0 <= i < n :: FoundAndShown(Listing(live[..n], s, at)[i], live[i], s, at)
  {
    var live := LiveKeys(keys, s, at);
    LiveKeysMembers(keys, s, at);
    forall i | 0 <= i < n ensures FoundAndShown(Listing(live[..n], s, at)[i], live[i], s, at) {
      assert live[i] in live;
      HasAgreesWithFind(ItemOf(s, live[i]), s.log, at);
    }
  }

  /** A range request. It fails exactly for a revision that is not there yet or no longer, and for a
      range across shards; it stops exactly when the bounds of a known shard are the wrong way round
      or there are keys but no revision to read them at. */
  method KvRange(store: Store, req: RangeRequest) returns (r: RangeResponse)
    requires store.Valid()
    ensures r.RangeFailed? <==>
              || req.revision > store.log.Model().End()
              || 0 < req.revision <= store.log.Model().start
              || PrefixAndRange(req.key, req.rangeEnd).Rejected?
    ensures r.RequestPanics? <==>
              var q := PrefixAndRange(req.key, req.rangeEnd);
              && req.revision <= store.log.Model().End() && !(0 < req.revision <= store.log.Model().start)
              && q.Accepted?
              && (|| (Prefix(req.key) in store.index && Backwards(req.key, req.rangeEnd))
                  || (LooksAt(store, req) <= 0 && Scan(store.index, q) != []))
    ensures Answerable(store, req) ==> r.RangeResponse?
    ensures r.RangeResponse? ==>
              var live := Asked(store, req);
              && r.revision == store.log.Model().End() && r.count == |live| && |r.kvs| <= |live|
              && (LooksAt(store, req) > 0 ==>
                    r.kvs == Listing(live[..|r.kvs|], store.View(), LooksAt(store, req)))
              && (forall i | 0 <= i < |r.kvs| :: FoundAndShown(r.kvs[i], live[i], store.View(), LooksAt(store, req)))
    ensures r.RangeResponse? && r.count < INT64_END ==>
              && |r.kvs| == (if req.countOnly then 0 else if req.limit <= 0 then r.count else Min(req.limit, r.count))
              && ((r.more <==> |r.kvs| < r.count) <==> (if req.countOnly then r.count == 0 else req.limit >= 0))
  {
    var result := store.Range(req.key, req.rangeEnd, req.revision, LimitOf(req));
    match result
    case Listed(kvs, latestRev, count) =>
      r := RangeResponse(kvs, latestRev, count, MoreOf(req, count));
      if count < INT64_END { PageSizeIs(req, count); }
      if LooksAt(store, req) > 0 {
        var keys := Scan(store.index, PrefixAndRange(req.key, req.rangeEnd));
        ListingShows(keys, store.View(), LooksAt(store, req), |kvs|);
      }
    case RangePanics =>
      r := RequestPanics;
    case _ =>
      r := RangeFailed;
  }

  /** A request for a single key lists just that key, if it is live. */
  lemma {:induction false} SingleKeyListing(index: Index, s: State, r: Ref, key: Bytes, rev: int)
    requires Represents(s, r) && Indexes(index, s.tree.Keys) && 0 < rev <= |r.history| && LiveAt(r, key, rev)
    ensures LiveKeys(Scan(index, PrefixAndRange(key, [])), s, rev) == [key]
  {
    var live := LiveKeys(Scan(index, PrefixAndRange(key, [])), s, rev);
    RangeIsExact(index, s, r, PrefixAndRange(key, []), rev);
    forall k ensures k in live <==> k == key { SingleKeyScan(key, k); }
    OneSorted(live, key);
  }

  lemma {:induction false} OneSorted(keys: seq<Bytes>, key: Bytes)
    requires Sorted(keys) && forall k :: k in keys <==> k == key
    ensures keys == [key]
  {
    assert key in keys;
    forall i | 0 <= i < |keys| ensures keys[i] == key { assert keys[i] in keys; }
    if |keys| >= 2 { SortedApart(keys, 0, 1); }
  }

  lemma {:induction false} SortedApart(keys: seq<Bytes>, i: nat, j: nat)
    requires Sorted(keys) && i < j < |keys|
    ensures keys[i] != keys[j]
  {
    LessIrreflexive(keys[i]);
  }

  lemma {:induction false} FirstPut(key: Bytes, bytes: Bytes)
    ensures var h := [Write(key, Value(1, 1, 1, Some(bytes)))];
            && Represents(ApplySet(EMPTY, key, Some(bytes), None, true).0, Ref(h, 0)) && LiveAt(Ref(h, 0), key, 1)
  {
    var h := [Write(key, Value(1, 1, 1, Some(bytes)))];
    RunRefines([], true);
    SetRefines(EMPTY, Ref([], 0), key, Some(bytes), None, true);
    assert RefSet([], key, Some(bytes), None).0 == [] + h == h;
    assert LastRev(h, key, 1) == 1;
  }

  /** The request that shows it: of a store with one key, limit -1 gets the whole page, and yet
      `more` is set. */
  method NegativeLimit(key: Bytes, bytes: Bytes) returns (r: RangeResponse)
    ensures r.RangeResponse? && r.more && |r.kvs| == r.count == 1
  {
    var store := new Store();
    var written := store.Set(key, Some(bytes), None);
    FirstPut(key, bytes);
    SingleKeyListing(store.index, store.View(), Ref([Write(key, Value(1, 1, 1, Some(bytes)))], 0), key, 1);
    r := KvRange(store, RangeRequest(key, [], 0, -1, false));
  }

  // ---------------------------------------------------------------- compare

  /** The service's own check, made on a listed key before a write is proposed. */
  predicate CheckCompare(current: Option<KeyValue>, req: Option<Required>) {
    match current
    case Some(kv) =>
      if RequiredRevision(req) >= 0 && !Compare(CompareMode(req), kv.modRevision, RequiredRevision(req)) then false
      else if RequiredVersion(req) >= 0 && !Compare(CompareMode(req), kv.version, RequiredVersion(req)) then false
      else true
    case None => RequiredRevision(req) <= 0 && RequiredVersion(req) <= 0
  }

  /** In every reachable state, the check made on the key as a range shows it predicts whether the
      store accepts the write, except that it lets the deletion of an absent key through. */
  lemma {:induction false} CheckPredictsSet(ops: seq<Op>, trim: bool, key: Bytes, data: Option<Bytes>,
                                            req: Option<Required>)
    ensures var s, latest := Run(EMPTY, ops, trim).0, LatestOf(RefRun(ops).0.history, key);
            var current := if latest.data.Some? then Some(AsKeyValue(latest, key)) else None;
            (CheckCompare(current, req) <==> ApplySet(s, key, data, req, trim).1.Written?) <==>
            (latest.data.Some? || data.Some? || RequiredRevision(req) > 0 || RequiredVersion(req) > 0)
  {
    RunRefines(ops, trim);
    RepresentsReadable(Run(EMPTY, ops, trim).0, RefRun(ops).0, key);
  }

  /** The input that shows it: deleting a key of an empty store passes the check and is refused. */
  lemma {:induction false} AbsentDelete(key: Bytes, trim: bool)
    ensures CheckCompare(None, None) && LatestOf([], key).data.None?
    ensures ApplySet(EMPTY, key, None, None, trim).1 == Refused(0, None)
  {
  }
}
