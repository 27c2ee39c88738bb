/** Per-key version lists and the append-only history they stand for.

    A `TreeItem` holds the revisions of one key and its newest value. The reference is a
    history: the sequence of all successful writes, where the write with revision r is
    element r - 1. */
module Mvcc {
  import opened Common
  import opened OffsetSequence

  datatype Value = Value(createRevision: int, modRevision: int, version: int, data: Option<Bytes>)

  datatype TreeItem = TreeItem(revisions: seq<int>, latest: Value)

  const NO_VALUE := Value(0, 0, 0, None)
  const NEW_ITEM := TreeItem([], NO_VALUE)
  /** What the log holds for a revision that has been allocated but not yet published. */
  const PLACEHOLDER := Value(0, 0, 1, None)

  datatype Required = Required(lastRevision: Option<int>, version: Option<int>, compare: int)

  // ---------------------------------------------------------------- conditional writes

  predicate Compare(cmp: int, existing: int, target: int) {
    match cmp
    case 1 => existing > target
    case 2 => existing < target
    case 3 => existing != target
    case _ => existing == target
  }

  function RequiredRevision(req: Option<Required>): int {
    if req.Some? && req.value.lastRevision.Some? then req.value.lastRevision.value else -1
  }

  function RequiredVersion(req: Option<Required>): int {
    if req.Some? && req.value.version.Some? then req.value.version.value else -1
  }

  function CompareMode(req: Option<Required>): int {
    if req.Some? then req.value.compare else 0
  }

  /** May a write of `data` replace `latest`? */
  predicate Allowed(latest: Value, data: Option<Bytes>, req: Option<Required>) {
    if latest.data.Some? then
      && (RequiredRevision(req) >= 0 ==> Compare(CompareMode(req), latest.modRevision, RequiredRevision(req)))
      && (RequiredVersion(req) >= 0 ==> Compare(CompareMode(req), latest.version, RequiredVersion(req)))
    else
      RequiredRevision(req) <= 0 && RequiredVersion(req) <= 0 && data.Some?
  }

  function NextValue(latest: Value, rev: int, data: Option<Bytes>): Value {
    if latest.data.Some? then
      Value(latest.createRevision, rev, latest.version + 1, data)
    else
      Value(rev, rev, 1, data)
  }

  // ---------------------------------------------------------------- lookups in a version list

  datatype SearchResult = Found(pos: nat) | Missing(pos: nat)

  /** The slice binary search of the Rust standard library, on a strictly increasing list. */
  function BinarySearch(revs: seq<int>, rev: int): (r: SearchResult)
    ensures r.pos <= |revs|
    ensures r.Found? ==> r.pos < |revs| && revs[r.pos] == rev
    ensures r.Missing? && r.pos < |revs| ==> rev < revs[r.pos]
    ensures forall i | 0 <= i < r.pos :: revs[i] < rev
  {
    SearchFrom(revs, rev, 0)
  }

  function SearchFrom(revs: seq<int>, rev: int, i: nat): (r: SearchResult)
    requires i <= |revs|
    requires forall j | 0 <= j < i :: revs[j] < rev
    ensures r.pos <= |revs|
    ensures r.Found? ==> r.pos < |revs| && revs[r.pos] == rev
    ensures r.Missing? && r.pos < |revs| ==> rev < revs[r.pos]
    ensures forall i | 0 <= i < r.pos :: revs[i] < rev
    decreases |revs| - i
  {
    if i == |revs| then Missing(i)
    else if revs[i] == rev then Found(i)
    else if rev < revs[i] then Missing(i)
    else SearchFrom(revs, rev, i + 1)
  }

  /** `find_value_for_revision`. */
  function Find(item: TreeItem, log: OffsetSeq<Value>, rev: int): Option<Value>
    requires rev > 0
  {
    if rev >= item.latest.modRevision then Some(item.latest)
    else
      match BinarySearch(item.revisions, rev)
      case Found(i) => log.Get(item.revisions[i] - 1)
      case Missing(i) => if i > 0 then log.Get(item.revisions[i - 1] - 1) else None
  }

  /** `has_value_for_revision`, a separate lookup that never copies the value. */
  predicate Has(item: TreeItem, log: OffsetSeq<Value>, rev: int)
    requires rev > 0
  {
    if rev >= item.latest.modRevision then item.latest.data.Some?
    else
      match BinarySearch(item.revisions, rev)
      case Found(i) =>
        var slot := log.Get(item.revisions[i] - 1);
        slot.Some? && slot.value.data.Some?
      case Missing(i) =>
        if i > 0 then
          var slot := log.Get(item.revisions[i - 1] - 1);
          slot.Some? && slot.value.data.Some?
        else false
  }

  /** Dropping compacted revisions inside `set`. */
  function Trim(revs: seq<int>, earliest: int): (r: seq<int>)
    ensures forall x | x in r :: x in revs
    ensures forall x | x in revs && earliest <= x :: x in r
    ensures StrictlyIncreasing(revs) ==> forall x | x in r :: earliest <= x
    ensures StrictlyIncreasing(revs) ==> StrictlyIncreasing(r)
  {
    if revs != [] && revs[0] < earliest then Trim(revs[1..], earliest) else revs
  }

  // ---------------------------------------------------------------- the history

  datatype Write = Write(key: Bytes, value: Value)
  type History = seq<Write>

  /** Revision r of the history wrote `key`. */
  ghost predicate IsRev(h: History, key: Bytes, r: int) {
    1 <= r <= |h| && h[r - 1].key == key
  }

  /** Revision of the last write to `key` at or before `rev`, 0 when there is none. */
  ghost function LastRev(h: History, key: Bytes, rev: int): int
    requires rev <= |h|
    decreases rev
  {
    if rev <= 0 then 0
    else if h[rev - 1].key == key then rev
    else LastRev(h, key, rev - 1)
  }

  ghost function ValueAt(h: History, r: int): Value
    requires r <= |h|
  {
    if r <= 0 then NO_VALUE else h[r - 1].value
  }

  /** The value of `key` at `rev`. */
  ghost function ValueOf(h: History, key: Bytes, rev: int): Value
    requires rev <= |h|
  {
    LastRevProps(h, key, rev);
    ValueAt(h, LastRev(h, key, rev))
  }

  ghost function LatestOf(h: History, key: Bytes): Value {
    ValueOf(h, key, |h|)
  }

  /** Every write carries its own revision. */
  ghost predicate ModsMatch(h: History) {
    forall i | 0 <= i < |h| :: h[i].value.modRevision == i + 1
  }

  /** The history is one that a sequence of effective writes produces: create revision and
      version follow from the previous write of the key, and only live keys are deleted. */
  ghost predicate Derived(h: History) {
    h == [] ||
    (&& Derived(DropLast(h))
     && var before := LatestOf(DropLast(h), Last(h).key);
        && Last(h).value == NextValue(before, |h|, Last(h).value.data)
        && (before.data.Some? || Last(h).value.data.Some?))
  }

  lemma {:induction false} LastRevProps(h: History, key: Bytes, rev: int)
    requires rev <= |h|
    ensures 0 <= LastRev(h, key, rev) && (rev >= 0 ==> LastRev(h, key, rev) <= rev)
    ensures LastRev(h, key, rev) > 0 ==> IsRev(h, key, LastRev(h, key, rev))
    decreases rev
  {
    if rev > 0 { LastRevProps(h, key, rev - 1); }
  }

  /** The defining property of LastRev: nothing between it and `rev` touches the key. */
  lemma {:induction false} LastRevIsLast(h: History, key: Bytes, rev: int, r: int)
    requires IsRev(h, key, r) && r <= rev <= |h|
    ensures r <= LastRev(h, key, rev)
    decreases rev
  {
    if r < rev && h[rev - 1].key != key { LastRevIsLast(h, key, rev - 1, r); }
  }

  /** What was visible at a revision never changes as the history grows. */
  lemma {:induction false} LastRevFrozen(h: History, more: History, key: Bytes, rev: int)
    requires rev <= |h| && h <= more
    ensures LastRev(more, key, rev) == LastRev(h, key, rev)
    ensures ValueOf(more, key, rev) == ValueOf(h, key, rev)
    decreases rev
  {
    if rev > 0 { LastRevFrozen(h, more, key, rev - 1); }
  }

  lemma {:induction false} LastRevMonotone(h: History, key: Bytes, lo: int, hi: int)
    requires 0 <= lo <= hi <= |h|
    ensures LastRev(h, key, lo) <= LastRev(h, key, hi)
    ensures LastRev(h, key, hi) <= lo ==> LastRev(h, key, lo) == LastRev(h, key, hi)
    decreases hi
  {
    LastRevProps(h, key, lo);
    if lo < hi && h[hi - 1].key != key { LastRevMonotone(h, key, lo, hi - 1); }
  }

  // ---------------------------------------------------------------- items against the history

  /** The item shows the writes of `key` up to `upto`: its newest value is the last of them, and
      its list holds them in order, lacking only revisions below `start`. */
  ghost predicate ItemMatches(item: TreeItem, h: History, key: Bytes, upto: int, start: int) {
    && upto <= |h|
    && item.latest == ValueOf(h, key, upto)
    && StrictlyIncreasing(item.revisions)
    && (forall r | r in item.revisions :: r <= upto && IsRev(h, key, r))
    && (forall r | IsRev(h, key, r) && start <= r <= upto :: r in item.revisions)
  }

  /** The log holds the value of every revision of `key` that is not compacted. */
  ghost predicate LogHolds(log: OffsetSeq<Value>, h: History, key: Bytes) {
    forall r | IsRev(h, key, r) && log.start < r :: log.Get(r - 1) == Some(h[r - 1].value)
  }

  ghost predicate Readable(item: TreeItem, log: OffsetSeq<Value>, h: History, key: Bytes) {
    && ModsMatch(h)
    && ItemMatches(item, h, key, |h|, log.start)
    && LogHolds(log, h, key)
  }

  /** What a read of `key` at `rev` answers once everything up to `start` is compacted:
      the last write at or before `rev`, unless that write is both superseded and compacted. */
  ghost function Visible(h: History, key: Bytes, rev: int, start: int): Option<Value>
    requires rev <= |h|
  {
    var r := LastRev(h, key, rev);
    if r == LastRev(h, key, |h|) || r > start then Some(ValueOf(h, key, rev)) else None
  }

  /** A read below the newest revision goes through the list: the search ends at the last
      revision at or before `rev`, or at one that is compacted. */
  lemma {:induction false} SearchFindsLastRev(item: TreeItem, h: History, key: Bytes, rev: int,
                                              start: int) returns (n: nat)
    requires ItemMatches(item, h, key, |h|, start) && 0 < rev <= |h|
    ensures n <= |item.revisions|
    ensures match BinarySearch(item.revisions, rev)
            case Found(i) => n == i + 1
            case Missing(i) => n == i
    ensures n > 0 ==> IsRev(h, key, item.revisions[n - 1])
    ensures n > 0 ==> item.revisions[n - 1] <= LastRev(h, key, rev)
    ensures LastRev(h, key, rev) >= start && LastRev(h, key, rev) > 0 ==>
              n > 0 && item.revisions[n - 1] == LastRev(h, key, rev)
  {
    var revs := item.revisions;
    var s := BinarySearch(revs, rev);
    n := if s.Found? then s.pos + 1 else s.pos;
    LastRevProps(h, key, rev);
    var r := LastRev(h, key, rev);
    if n > 0 {
      assert revs[n - 1] in revs;
      LastRevIsLast(h, key, rev, revs[n - 1]);
    }
    if r >= start && r > 0 {
      var p :| 0 <= p < |revs| && revs[p] == r;
    }
  }

  /** Reads after compaction, exactly. */
  lemma {:induction false} FindIsVisible(item: TreeItem, log: OffsetSeq<Value>, h: History, key: Bytes, rev: int)
    requires Readable(item, log, h, key)
    requires 0 < rev <= |h|
    ensures Find(item, log, rev) == Visible(h, key, rev, log.start)
  {
    LastRevProps(h, key, |h|);
    LastRevProps(h, key, rev);
    LastRevMonotone(h, key, rev, |h|);
    if rev < item.latest.modRevision {
      var n := SearchFindsLastRev(item, h, key, rev, log.start);
    }
  }

  /** The two lookups agree on whether the key is live. */
  lemma {:induction false} HasAgreesWithFind(item: TreeItem, log: OffsetSeq<Value>, rev: int)
    requires rev > 0
    ensures Has(item, log, rev) <==> Find(item, log, rev).Some? && Find(item, log, rev).value.data.Some?
  {
  }

  // ---------------------------------------------------------------- keeping items in step

  /** A write of another key, or a write of this key that is not yet published. */
  lemma {:induction false} ItemUnaffected(item: TreeItem, h: History, w: Write, key: Bytes, upto: int, start: int)
    requires ItemMatches(item, h, key, upto, start)
    ensures ItemMatches(item, h + [w], key, upto, start)
    ensures upto == |h| && w.key != key ==> ItemMatches(item, h + [w], key, |h| + 1, start)
  {
    LastRevFrozen(h, h + [w], key, upto);
    forall r | IsRev(h + [w], key, r) && start <= r <= upto ensures r in item.revisions {
      assert IsRev(h, key, r);
    }
    forall r | r in item.revisions ensures IsRev(h + [w], key, r) {
      assert IsRev(h, key, r);
    }
  }

  lemma {:induction false} TrimKeepsMatch(item: TreeItem, h: History, key: Bytes, upto: int, start: int,
                                          earliest: int)
    requires ItemMatches(item, h, key, upto, start) && earliest <= start
    ensures ItemMatches(item.(revisions := Trim(item.revisions, earliest)), h, key, upto, start)
  {
  }

  /** Publishing the newest revision of a key. */
  lemma {:induction false} PublishKeepsMatch(item: TreeItem, h: History, key: Bytes, rev: int, start: int)
    requires IsRev(h, key, rev) && ItemMatches(item, h, key, rev - 1, start)
    ensures ItemMatches(TreeItem(item.revisions + [rev], h[rev - 1].value), h, key, rev, start)
  {
    var revs := item.revisions;
    forall i | 0 <= i < |revs| ensures revs[i] < rev {
      assert revs[i] in revs;
    }
  }
}
