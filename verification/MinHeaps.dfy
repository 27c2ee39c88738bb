/** The priority queue that both the log loader and the notify thread use: a heap ordered so that
    the entry with the smallest revision comes out first. */
module MinHeaps {
  import opened Common

  datatype Entry<T> = Entry(rev: int, item: T)

  /** The heap as the order in which its entries come out. */
  ghost predicate HeapOk<T>(heap: seq<Entry<T>>) {
    forall i, j | 0 <= i < j < |heap| :: heap[i].rev <= heap[j].rev
  }

  function HeapPush<T>(heap: seq<Entry<T>>, e: Entry<T>): seq<Entry<T>> {
    if heap == [] then [e]
    else if e.rev < heap[0].rev then [e] + heap
    else [heap[0]] + HeapPush(heap[1..], e)
  }

  lemma {:induction false} HeapPushMembers<T>(heap: seq<Entry<T>>, e: Entry<T>)
    ensures multiset(HeapPush(heap, e)) == multiset(heap) + multiset{e}
    ensures forall x | x in HeapPush(heap, e) :: x == e || x in heap
    ensures forall x | x == e || x in heap :: x in HeapPush(heap, e)
  {
    if heap != [] {
      HeapPushMembers(heap[1..], e);
      assert heap == [heap[0]] + heap[1..];
    }
  }

  lemma {:induction false} HeapPushOk<T>(heap: seq<Entry<T>>, e: Entry<T>)
    requires HeapOk(heap)
    ensures HeapOk(HeapPush(heap, e))
  {
    if heap != [] && heap[0].rev <= e.rev {
      var rest := HeapPush(heap[1..], e);
      HeapPushOk(heap[1..], e);
      HeapPushMembers(heap[1..], e);
      forall i | 0 <= i < |rest| ensures heap[0].rev <= rest[i].rev {
        if rest[i] != e {
          assert rest[i] in rest && rest[i] in heap[1..];
          var j :| 0 <= j < |heap[1..]| && heap[1..][j] == rest[i];
          assert heap[j + 1] == rest[i];
        }
      }
    }
  }
}
