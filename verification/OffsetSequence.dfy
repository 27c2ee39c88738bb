/** The simple form of the revision log: a sequence whose first element has index `start`.
    Everything below `start` has been compacted away. */
module OffsetSequence {
  import opened Common

  datatype OffsetSeq<T> = OffsetSeq(start: nat, items: seq<T>) {

    function End(): nat {
      start + |items|
    }

    function Get(i: int): Option<T> {
      if start <= i < End() then Some(items[i - start]) else None
    }

    function Push(x: T): OffsetSeq<T> {
      OffsetSeq(start, items + [x])
    }

    function Set(i: int, x: T): OffsetSeq<T> {
      if start <= i < End() then OffsetSeq(start, items[i - start := x]) else this
    }

    /** None is the source's error return. */
    function RemoveBefore(i: int): Option<OffsetSeq<T>> {
      if start <= i <= End() then Some(OffsetSeq(i, items[i - start..])) else None
    }
  }

  /** What can be read at any index after each operation. */
  lemma {:induction false} Laws<T>(m: OffsetSeq<T>, x: T, i: int, j: int)
    ensures m.Get(j).Some? <==> m.start <= j < m.End()
    ensures m.Push(x).start == m.start && m.Push(x).End() == m.End() + 1
    ensures m.Push(x).Get(j) == if j == m.End() then Some(x) else m.Get(j)
    ensures m.Set(i, x).start == m.start && m.Set(i, x).End() == m.End()
    ensures m.Set(i, x).Get(j) == if j == i && m.Get(i).Some? then Some(x) else m.Get(j)
    ensures m.RemoveBefore(i).Some? <==> m.start <= i <= m.End()
    ensures m.RemoveBefore(i).Some? ==>
              var rest := m.RemoveBefore(i).value;
              rest.start == i && rest.End() == m.End() && rest.Get(j) == if j < i then None else m.Get(j)
  {
  }
}
