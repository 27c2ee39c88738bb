/** Reading the per-prefix files back and merging them by revision. */
module WalLoad {
  import opened Common
  import opened MinHeaps
  import opened WalCodec

  datatype Fetch = Fetched(record: Record) | AtEnd | Failed

  /** A buffered file reader. */
  class Reader {
    var rest: Bytes

    constructor (contents: Bytes)
      ensures rest == contents
    {
      rest := contents;
    }

    /** `read_exact`: all the bytes asked for, or a failure that consumes what there was. */
    method ReadExact(n: nat) returns (bytes: Option<Bytes>)
      modifies this
      ensures if n <= |old(rest)| then bytes == Some(old(rest)[..n]) && rest == old(rest)[n..]
              else bytes == None && rest == []
    {
      if n <= |rest| {
        bytes := Some(rest[..n]);
        rest := rest[n..];
      } else {
        bytes := None;
        rest := [];
      }
    }

    /** `WalRecord::read_from`. */
    method ReadFrom() returns (r: Fetch)
      modifies this
      ensures match Decode(old(rest))
              case End => r == AtEnd
              case Corrupt => r == Failed
              case Read(record, tail) => r == Fetched(record) && rest == tail
    {
      ghost var input := rest;
      var header := ReadExact(HEADER);
      if header.None? {
        return AtEnd;
      }
      var h := header.value;
      assert h[0..8] == input[0..8] && h[8..12] == input[8..12] && h[12..16] == input[12..16];
      FromLeBound(h[0..8]);
      FromLeBound(h[8..12]);
      FromLeBound(h[12..16]);
      Widths();
      var rev := AsI64(FromLe(h[0..8]));
      var keyLen := FromLe(h[8..12]);
      var valueLen := FromLe(h[12..16]);
      var key := ReadExact(keyLen);
      if key.None? {
        return Failed;
      }
      assert key.value == input[HEADER..HEADER + keyLen] && rest == input[HEADER + keyLen..];
      if valueLen == DELETE_MARKER {
        return Fetched(Record(rev, key.value, None));
      }
      var value := ReadExact(valueLen);
      if value.None? {
        return Failed;
      }
      assert value.value == input[HEADER + keyLen..HEADER + keyLen + valueLen];
      assert rest == input[HEADER + keyLen + valueLen..];
      return Fetched(Record(rev, key.value, value));
    }
  }

  // ---------------------------------------------------------------- what is left to emit

  /** All records of all lists, with repetition. */
  ghost function Union(lists: seq<seq<Record>>): multiset<Record> {
    if lists == [] then multiset{} else Union(DropLast(lists)) + multiset(Last(lists))
  }

  lemma {:induction false} TakeFirst(list: seq<Record>)
    requires list != []
    ensures multiset(list) == multiset(list[1..]) + multiset{list[0]}
  {
    assert list == [list[0]] + list[1..];
  }

  lemma {:induction false} SumShuffle(a: multiset<Record>, b: multiset<Record>, c: multiset<Record>)
    ensures (a + c) + b == (a + b) + c && a + (b + c) == (a + b) + c
  {
  }

  lemma {:induction false} UnionTake(lists: seq<seq<Record>>, i: nat)
    requires i < |lists| && lists[i] != []
    ensures Union(lists) == Union(lists[i := lists[i][1..]]) + multiset{lists[i][0]}
  {
    var front, last := DropLast(lists), Last(lists);
    var shorter := lists[i := lists[i][1..]];
    if i == |lists| - 1 {
      TakeFirst(last);
      assert DropLast(shorter) == front && Last(shorter) == last[1..];
      SumShuffle(Union(front), multiset(last[1..]), multiset{last[0]});
    } else {
      var front' := front[i := front[i][1..]];
      UnionTake(front, i);
      assert DropLast(shorter) == front' && Last(shorter) == last;
      SumShuffle(Union(front'), multiset(last), multiset{front[i][0]});
    }
  }

  lemma {:induction false} UnionOfEmpty(lists: seq<seq<Record>>)
    requires forall i | 0 <= i < |lists| :: lists[i] == []
    ensures Union(lists) == multiset{}
  {
    if lists != [] { UnionOfEmpty(DropLast(lists)); }
  }

  ghost predicate SortedByRev(rs: seq<Record>) {
    forall i, j | 0 <= i < j < |rs| :: rs[i].rev <= rs[j].rev
  }

  ghost function Contents(files: seq<Bytes>): seq<seq<Record>> {
    seq(|files|, i requires 0 <= i < |files| => DecodeAll(files[i]).records)
  }

  ghost predicate AllClean(files: seq<Bytes>) {
    forall i | 0 <= i < |files| :: DecodeAll(files[i]).clean
  }

  ghost predicate EachSorted(lists: seq<seq<Record>>) {
    forall i | 0 <= i < |lists| :: SortedByRev(lists[i])
  }

  ghost predicate EntryOk(e: Entry<nat>, left: seq<seq<Record>>) {
    e.item < |left| && left[e.item] != [] && e.rev == left[e.item][0].rev
  }

  ghost predicate DistinctItems(heap: seq<Entry<nat>>) {
    forall k, m | 0 <= k < m < |heap| :: heap[k].item != heap[m].item
  }

  /** The heap holds exactly one entry for every list that is not exhausted, under the revision
      of its first record. */
  ghost predicate HeapMatches(heap: seq<Entry<nat>>, left: seq<seq<Record>>) {
    && HeapOk(heap) && DistinctItems(heap)
    && (forall e | e in heap :: EntryOk(e, left))
    && (forall i | 0 <= i < |left| && left[i] != [] :: Entry(left[i][0].rev, i) in heap)
  }

  /** Taking the first record of the list at the top of the heap. */
  function AfterPop(heap: seq<Entry<nat>>, next: Option<Record>): seq<Entry<nat>>
    requires heap != []
  {
    if next.None? then heap[1..] else HeapPush(heap[1..], Entry(next.value.rev, heap[0].item))
  }

  ghost function Head(list: seq<Record>): Option<Record> {
    if list == [] then None else Some(list[0])
  }

  lemma {:induction false} PopMatches(heap: seq<Entry<nat>>, left: seq<seq<Record>>)
    requires HeapMatches(heap, left) && heap != []
    ensures heap[0].item < |left| && HeapMatches(heap[1..], left[heap[0].item := []])
  {
    var rest := heap[1..];
    assert heap[0] in heap && EntryOk(heap[0], left);
    assert heap == [heap[0]] + rest;
    forall e | e in rest ensures EntryOk(e, left[heap[0].item := []]) {
      var k :| 0 <= k < |rest| && rest[k] == e;
      assert heap[k + 1] == e && EntryOk(e, left);
    }
  }

  lemma {:induction false} PushMatches(heap: seq<Entry<nat>>, left: seq<seq<Record>>, i: nat, list: seq<Record>)
    requires HeapMatches(heap, left) && i < |left| && left[i] == [] && list != []
    ensures HeapMatches(HeapPush(heap, Entry(list[0].rev, i)), left[i := list])
  {
    var e := Entry(list[0].rev, i);
    forall k | 0 <= k < |heap| ensures heap[k].item != i {
      assert heap[k] in heap && EntryOk(heap[k], left);
    }
    PushKeepsItems(heap, e);
    HeapPushMembers(heap, e);
    HeapPushOk(heap, e);
    forall x | x in HeapPush(heap, e) ensures EntryOk(x, left[i := list]) {
      if x != e {
        assert x in heap && EntryOk(x, left);
        var k :| 0 <= k < |heap| && heap[k] == x;
      }
    }
  }

  lemma {:induction false} PopKeepsMatch(heap: seq<Entry<nat>>, left: seq<seq<Record>>)
    requires HeapMatches(heap, left) && heap != []
    ensures var i := heap[0].item;
            && EntryOk(heap[0], left)
            && HeapMatches(AfterPop(heap, Head(left[i][1..])), left[i := left[i][1..]])
  {
    assert heap[0] in heap && EntryOk(heap[0], left);
    PopMatches(heap, left);
    var i: nat := heap[0].item;
    var tail: seq<Record> := left[i][1..];
    assert left[i := []][i := tail] == left[i := tail];
    if tail != [] { PushMatches(heap[1..], left[i := []], i, tail); }
  }

  /** Entries with distinct items stay distinct when a new item is added. */
  lemma {:induction false} PushKeepsItems(heap: seq<Entry<nat>>, e: Entry<nat>)
    requires DistinctItems(heap) && forall k | 0 <= k < |heap| :: heap[k].item != e.item
    ensures DistinctItems(HeapPush(heap, e))
  {
    if heap != [] && heap[0].rev <= e.rev {
      var rest := HeapPush(heap[1..], e);
      PushKeepsItems(heap[1..], e);
      HeapPushMembers(heap[1..], e);
      forall k | 0 <= k < |rest| ensures rest[k].item != heap[0].item {
        assert rest[k] in rest;
        if rest[k] != e {
          var m :| 0 <= m < |heap[1..]| && heap[1..][m] == rest[k];
          assert heap[m + 1] == rest[k];
        }
      }
    }
  }

  /** The record that comes out is the smallest of all that are left. */
  lemma {:induction false} TopIsSmallest(heap: seq<Entry<nat>>, left: seq<seq<Record>>, j: nat, m: nat)
    requires HeapMatches(heap, left) && EachSorted(left) && heap != []
    requires j < |left| && m < |left[j]|
    ensures heap[0].rev <= left[j][m].rev
  {
    assert Entry(left[j][0].rev, j) in heap;
    var k :| 0 <= k < |heap| && heap[k] == Entry(left[j][0].rev, j);
    assert SortedByRev(left[j]);
  }

  // ---------------------------------------------------------------- the loader

  /** The slot and the reader of one file together hold what is left of it. */
  ghost predicate FileOk(file: Bytes, slot: Option<Record>, rest: Bytes, left: seq<Record>) {
    match slot
    case None => left == [] && DecodeAll(file).clean
    case Some(record) =>
      && left == [record] + DecodeAll(rest).records
      && (DecodeAll(file).clean <==> DecodeAll(rest).clean)
  }

  ghost predicate FilesOk(files: seq<Bytes>, slots: seq<Option<Record>>, readers: seq<Reader>, left: seq<seq<Record>>)
    reads readers
  {
    && |slots| == |readers| == |left| <= |files|
    && (forall i | 0 <= i < |readers| :: FileOk(files[i], slots[i], readers[i].rest, left[i]))
    && (forall i, j | 0 <= i < j < |readers| :: readers[i] != readers[j])
  }

  method OpenOne(file: Bytes) returns (ok: bool, reader: Reader, slot: Option<Record>)
    ensures fresh(reader)
    ensures if ok then FileOk(file, slot, reader.rest, DecodeAll(file).records) else !DecodeAll(file).clean
  {
    reader := new Reader(file);
    var next := reader.ReadFrom();
    ok := !next.Failed?;
    slot := if next.Fetched? then Some(next.record) else None;
  }

  /** Opens every file and reads its first record. */
  method OpenAll(files: seq<Bytes>) returns (ok: bool, readers: seq<Reader>, slots: seq<Option<Record>>)
    ensures !ok ==> !AllClean(files)
    ensures ok ==> |readers| == |files| && fresh(readers) && FilesOk(files, slots, readers, Contents(files))
  {
    readers, slots := [], [];
    for f := 0 to |files|
      invariant |readers| == f && fresh(readers)
      invariant FilesOk(files, slots, readers, Contents(files)[..f])
    {
      var success, reader, slot := OpenOne(files[f]);
      if !success {
        return false, [], [];
      }
      readers := readers + [reader];
      slots := slots + [slot];
    }
    assert Contents(files)[..|files|] == Contents(files);
    return true, readers, slots;
  }

  /** The lists before position n, with the rest taken as empty. */
  ghost function Mask(left: seq<seq<Record>>, n: nat): seq<seq<Record>> {
    seq(|left|, i requires 0 <= i < |left| => if i < n then left[i] else [])
  }

  method BuildHeap(slots: seq<Option<Record>>, ghost left: seq<seq<Record>>) returns (heap: seq<Entry<nat>>)
    requires |slots| == |left| && forall i | 0 <= i < |left| :: slots[i] == Head(left[i])
    ensures HeapMatches(heap, left)
  {
    heap := [];
    for i := 0 to |slots|
      invariant HeapMatches(heap, Mask(left, i))
    {
      assert Mask(left, i + 1) == Mask(left, i)[i := left[i]];
      if slots[i].Some? {
        PushMatches(heap, Mask(left, i), i, left[i]);
        heap := HeapPush(heap, Entry(slots[i].value.rev, i));
      } else {
        assert Mask(left, i + 1) == Mask(left, i);
      }
    }
    assert Mask(left, |slots|) == left;
  }

  /** Reads the record after the one in the slot. */
  method Advance(files: seq<Bytes>, slots: seq<Option<Record>>, readers: seq<Reader>,
                 ghost left: seq<seq<Record>>, idx: nat)
    returns (ok: bool, next: Option<Record>)
    requires FilesOk(files, slots, readers, left) && idx < |slots| && slots[idx].Some?
    modifies readers[idx]
    ensures left[idx] != []
    ensures if ok then FilesOk(files, slots[idx := next], readers, left[idx := left[idx][1..]])
            else !AllClean(files)
    ensures ok ==> next == Head(left[idx][1..])
  {
    assert FileOk(files[idx], slots[idx], readers[idx].rest, left[idx]);
    assert left[idx][1..] == DecodeAll(readers[idx].rest).records;
    var fetched := readers[idx].ReadFrom();
    ok := !fetched.Failed?;
    next := if fetched.Fetched? then Some(fetched.record) else None;
    if ok {
      assert FileOk(files[idx], next, readers[idx].rest, left[idx][1..]);
    }
  }

  lemma {:induction false} TailsSorted(left: seq<seq<Record>>, i: nat)
    requires EachSorted(left) && i < |left| && left[i] != []
    ensures EachSorted(left[i := left[i][1..]])
  {
    var list := left[i];
    assert SortedByRev(list);
    assert forall j | 0 <= j < |list[1..]| :: list[1..][j] == list[j + 1];
  }

  /** Nothing that is left comes before what has been emitted. */
  ghost predicate Below(emitted: seq<Record>, left: seq<seq<Record>>) {
    emitted != [] ==> forall j, m | 0 <= j < |left| && 0 <= m < |left[j]| :: Last(emitted).rev <= left[j][m].rev
  }

  lemma {:induction false} EmitKeepsOrder(emitted: seq<Record>, heap: seq<Entry<nat>>, left: seq<seq<Record>>)
    requires HeapMatches(heap, left) && heap != [] && EntryOk(heap[0], left)
    requires EachSorted(left) && SortedByRev(emitted) && Below(emitted, left)
    ensures var i := heap[0].item;
            && SortedByRev(emitted + [left[i][0]])
            && Below(emitted + [left[i][0]], left[i := left[i][1..]])
  {
    var i: nat := heap[0].item;
    var first: Record := left[i][0];
    forall j | 0 <= j < |emitted| ensures emitted[j].rev <= first.rev {
      assert emitted[j].rev <= Last(emitted).rev;
    }
    var left': seq<seq<Record>> := left[i := left[i][1..]];
    forall j, m | 0 <= j < |left'| && 0 <= m < |left'[j]| ensures first.rev <= left'[j][m].rev {
      TopIsSmallest(heap, left, j, if j == i then m + 1 else m);
    }
  }

  lemma {:induction false} HeapEmptyMeansDone(heap: seq<Entry<nat>>, left: seq<seq<Record>>)
    requires HeapMatches(heap, left) && heap == []
    ensures forall i | 0 <= i < |left| :: left[i] == []
  {
  }

  /** The loop's progress: what has been emitted and what is left make up all records, in order
      as long as every file is. */
  ghost predicate Merging(emitted: seq<Record>, heap: seq<Entry<nat>>, left: seq<seq<Record>>, all: seq<seq<Record>>) {
    && HeapMatches(heap, left)
    && multiset(emitted) + Union(left) == Union(all)
    && (EachSorted(all) ==> EachSorted(left) && SortedByRev(emitted) && Below(emitted, left))
  }

  lemma {:induction false} MergeStep(emitted: seq<Record>, heap: seq<Entry<nat>>, left: seq<seq<Record>>,
                                     all: seq<seq<Record>>)
    requires Merging(emitted, heap, left, all) && heap != []
    ensures EntryOk(heap[0], left)
    ensures var i := heap[0].item;
            var left' := left[i := left[i][1..]];
            && Merging(emitted + [left[i][0]], AfterPop(heap, Head(left[i][1..])), left', all)
            && |Union(left')| < |Union(left)|
  {
    PopKeepsMatch(heap, left);
    var i: nat := heap[0].item;
    UnionTake(left, i);
    SumShuffle(multiset(emitted), Union(left[i := left[i][1..]]), multiset{left[i][0]});
    if EachSorted(all) {
      EmitKeepsOrder(emitted, heap, left);
      TailsSorted(left, i);
    }
  }

  lemma {:induction false} MergeDone(emitted: seq<Record>, left: seq<seq<Record>>, all: seq<seq<Record>>)
    requires Merging(emitted, [], left, all)
    ensures multiset(emitted) == Union(all) && forall i | 0 <= i < |left| :: left[i] == []
  {
    HeapEmptyMeansDone([], left);
    UnionOfEmpty(left);
  }

  /** `load_wal_dir`: succeeds exactly when every file is clean, and then emits every record of
      every file. Files that are in revision order come out merged in revision order. */
  method LoadWalDir(files: seq<Bytes>) returns (ok: bool, emitted: seq<Record>)
    ensures ok <==> AllClean(files)
    ensures ok ==> multiset(emitted) == Union(Contents(files))
    ensures EachSorted(Contents(files)) ==> SortedByRev(emitted)
  {
    emitted := [];
    ghost var all := Contents(files);
    var success, readers, slots := OpenAll(files);
    if !success {
      return false, [];
    }
    ghost var left := all;
    var heap := BuildHeap(slots, left);
    while heap != []
      invariant FilesOk(files, slots, readers, left) && |left| == |files| && fresh(readers)
      invariant Merging(emitted, heap, left, all)
      decreases |Union(left)|
    {
      MergeStep(emitted, heap, left, all);
      var idx := heap[0].item;
      assert FileOk(files[idx], slots[idx], readers[idx].rest, left[idx]);
      emitted := emitted + [slots[idx].value];
      var fetched, next := Advance(files, slots, readers, left, idx);
      if !fetched {
        return false, emitted;
      }
      slots := slots[idx := next];
      left := left[idx := left[idx][1..]];
      heap := AfterPop(heap, next);
    }
    MergeDone(emitted, left, all);
    forall i | 0 <= i < |files| ensures DecodeAll(files[i]).clean {
      assert FileOk(files[i], slots[i], readers[i].rest, left[i]);
    }
    return true, emitted;
  }
}
