/** Types shared by every part of the model. */
module Common {

  datatype Option<+T> = None | Some(value: T)

  type Byte = b: int | 0 <= b < 256
  type Bytes = seq<Byte>

  /** The signed 64-bit integers that the source uses for revisions and limits. */
  const INT64_MIN: int := -0x8000_0000_0000_0000
  const INT64_END: int := 0x8000_0000_0000_0000
  type Int64 = n: int | INT64_MIN <= n < INT64_END

  ghost predicate StrictlyIncreasing(s: seq<int>) {
    forall i, j | 0 <= i < j < |s| :: s[i] < s[j]
  }

  function Last<T>(s: seq<T>): T
    requires s != []
  {
    s[|s| - 1]
  }

  function DropLast<T>(s: seq<T>): seq<T>
    requires s != []
  {
    s[..|s| - 1]
  }

  lemma {:induction false} ConcatAssoc<T>(a: seq<T>, b: seq<T>, c: seq<T>)
    ensures a + (b + c) == (a + b) + c
  {
  }

  lemma {:induction false} AppendLarger(a: seq<int>, x: int)
    requires StrictlyIncreasing(a) && forall y | y in a :: y < x
    ensures StrictlyIncreasing(a + [x])
  {
    forall i | 0 <= i < |a| ensures a[i] < x { assert a[i] in a; }
  }

  lemma {:induction false} LastIsLargest(a: seq<int>, x: int)
    requires StrictlyIncreasing(a) && a != []
    ensures x in a ==> x <= Last(a)
    ensures x in DropLast(a) <==> x in a && x < Last(a)
  {
    if x in a {
      var i :| 0 <= i < |a| && a[i] == x;
      if i < |a| - 1 { assert DropLast(a)[i] == x; }
    }
  }

  lemma {:induction false} SameIncreasing(a: seq<int>, b: seq<int>)
    requires StrictlyIncreasing(a) && StrictlyIncreasing(b)
    requires forall x :: x in a <==> x in b
    ensures a == b
  {
    assert a != [] ==> Last(a) in a;
    assert b != [] ==> Last(b) in b;
    if a != [] {
      LastIsLargest(a, Last(b));
      LastIsLargest(b, Last(a));
      forall x ensures x in DropLast(a) <==> x in DropLast(b) {
        LastIsLargest(a, x);
        LastIsLargest(b, x);
      }
      SameIncreasing(DropLast(a), DropLast(b));
      assert a == DropLast(a) + [Last(a)] && b == DropLast(b) + [Last(b)];
    }
  }
}
