/** Positions inside fixed-size blocks. */
module BlockArithmetic {

  /** Index i lives in block i / size at offset i % size, and nowhere else. */
  lemma {:induction false} Locate(i: int, size: int)
    requires size > 0
    ensures i == (i / size) * size + i % size && 0 <= i % size < size
  {
  }

  lemma {:induction false} LocateUnique(block: int, offset: int, size: int)
    requires 0 <= offset < size
    ensures (block * size + offset) / size == block && (block * size + offset) % size == offset
  {
    var i := block * size + offset;
    Locate(i, size);
    var d := i / size - block;
    assert d * size == offset - i % size;
    if d >= 1 { MulAtLeast(d, size); }
    if d <= -1 { MulAtLeast(-d, size); }
  }

  lemma {:induction false} MulAtLeast(n: int, size: int)
    requires n >= 1 && size > 0
    ensures n * size >= size
  {
  }

  lemma {:induction false} MulMonotone(a: int, b: int, size: int)
    requires a <= b && size > 0
    ensures a * size <= b * size
  {
  }

  lemma {:induction false} DivMonotone(a: int, b: int, size: int)
    requires a <= b && size > 0
    ensures a / size <= b / size
  {
    Locate(a, size);
    Locate(b, size);
    if b / size < a / size {
      MulMonotone(b / size + 1, a / size, size);
    }
  }

  /** Blocks needed to cover the indices below i. */
  function Blocks(i: int, size: int): int
    requires size > 0
  {
    if i % size == 0 then i / size else i / size + 1
  }

  lemma {:induction false} BlocksCover(i: int, block: int, offset: int, size: int)
    requires 0 <= offset < size
    ensures block >= Blocks(i, size) ==> block * size + offset >= i
    ensures block < Blocks(i, size) ==> block * size < i
  {
    Locate(i, size);
    if block >= Blocks(i, size) {
      MulMonotone(Blocks(i, size), block, size);
    } else {
      MulMonotone(block, Blocks(i, size) - 1, size);
    }
  }

  lemma {:induction false} MulStep(n: int, size: int)
    ensures n * size == (n - 1) * size + size
  {
  }

  /** How far an index of the live window lies from the first block. */
  lemma {:induction false} WindowOffset(start: int, end: int, idx: int, size: int) returns (whole: int)
    requires 0 <= start <= idx <= end && size > 0
    ensures whole == idx / size - start / size
    ensures 0 <= whole <= Blocks(end, size) - start / size
    ensures idx % size > 0 ==> whole < Blocks(end, size) - start / size
    ensures idx - (start - start % size) == whole * size + idx % size
    ensures 0 <= start % size < size && 0 <= idx % size < size
  {
    whole := idx / size - start / size;
    Locate(start, size);
    Locate(idx, size);
    DivMonotone(start, idx, size);
    BlocksCover(end, idx / size, 0, size);
    BlocksCover(end, idx / size - 1, 0, size);
    MulMonotone(idx / size, Blocks(end, size), size);
    Distribute(idx / size, start / size, size);
  }

  /** A slot at or after the block of idx is below idx only inside that block. */
  lemma {:induction false} BelowIndex(idx: int, block: int, offset: int, size: int)
    requires 0 <= offset < size && block >= 0
    ensures (idx / size + block) * size + offset < idx <==> block == 0 && offset < idx % size
  {
    Locate(idx, size);
    if block > 0 { MulMonotone(idx / size + 1, idx / size + block, size); }
  }

  lemma {:induction false} Distribute(a: int, b: int, size: int)
    ensures (a - b) * size == a * size - b * size
  {
  }

  lemma {:induction false} BlocksStep(i: int, size: int)
    requires size > 0
    ensures Blocks(i + 1, size) == i / size + 1
    ensures i % size != 0 ==> Blocks(i, size) == i / size + 1
    ensures i % size == 0 ==> Blocks(i, size) == i / size
  {
    Locate(i, size);
    if i % size + 1 < size {
      LocateUnique(i / size, i % size + 1, size);
    } else {
      LocateUnique(i / size + 1, 0, size);
      assert i + 1 == (i / size + 1) * size;
    }
  }
}

/** The growable, block-based array that holds the revision log, against a plain sequence with
    a moving start. */
module BlockDeques {
  import opened Common
  import opened OffsetSequence
  import opened BlockArithmetic

  /** What clearing the front of the first block does to one slot; `at` is the slot's index. */
  lemma {:induction false} ShrunkSlot<T>(m: OffsetSeq<T>, idx: int, size: int, block: int, offset: int, from: int,
                                         at: int)
    requires m.start <= idx <= m.End() && 0 <= offset < size && block >= 0
    requires at == (idx / size + block) * size + offset
    requires from == if idx / size == m.start / size then m.start % size else 0
    ensures (if block == 0 && from <= offset < idx % size then None else m.Get(at)) == m.RemoveBefore(idx).value.Get(at)
  {
    BelowIndex(idx, block, offset, size);
    if idx / size == m.start / size { BelowIndex(m.start, block, offset, size); }
  }

  class BlockDeque<T> {
    const size: nat
    var blocks: seq<array<Option<T>>>
    var startOffset: nat
    var length: nat
    ghost var contents: seq<T>
    ghost var Repr: set<object>

    ghost function Model(): OffsetSeq<T>
      reads this
    {
      OffsetSeq(startOffset, contents)
    }

    /** The absolute index of a slot. */
    ghost function IndexOf(block: int, offset: int): int
      requires size > 0
      reads this
    {
      (startOffset / size + block) * size + offset
    }

    ghost predicate BlockOk(b: int)
      reads this, Repr
    {
      0 <= b < |blocks| ==> blocks[b] in Repr && blocks[b].Length == size
    }

    ghost predicate Apart(a: int, b: int)
      reads this
    {
      0 <= a < b < |blocks| ==> blocks[a] != blocks[b]
    }

    /** A slot holds its element when its index is live and nothing otherwise. */
    ghost predicate SlotOk(b: int, o: int)
      reads this, Repr
    {
      0 <= b < |blocks| && 0 <= o < size && blocks[b] in Repr && blocks[b].Length == size ==>
        blocks[b][o] == Model().Get(IndexOf(b, o))
    }

    ghost predicate Slots()
      reads this, Repr
    {
      && size > 0 && this in Repr
      && |contents| == length
      && (forall b :: BlockOk(b))
      && (forall a, b :: Apart(a, b))
      && (forall b, o :: SlotOk(b, o))
    }

    /** The blocks are exactly those that the live window touches. */
    ghost predicate Valid()
      reads this, Repr
    {
      && Slots()
      && |blocks| == Blocks(startOffset + length, size) - startOffset / size
    }

    constructor (blockSize: nat)
      requires blockSize > 0
      ensures Valid() && fresh(Repr) && size == blockSize && Model() == OffsetSeq(0, []) && blocks == []
    {
      size := blockSize;
      blocks, startOffset, length, contents := [], 0, 0, [];
      Repr := {this};
      new;
      LocateUnique(0, 0, size);
    }

    method EarliestRevision() returns (rev: nat)
      ensures rev == Model().start
    {
      rev := startOffset;
    }

    method LatestRevision() returns (rev: nat)
      requires Valid()
      ensures rev == Model().End()
    {
      rev := length + startOffset;
    }

    /** Where a live index is stored. */
    lemma {:induction false} Placed(index: int)
      requires Valid() && startOffset <= index < startOffset + length
      ensures 0 <= index / size - startOffset / size < |blocks| && 0 <= index % size < size
      ensures blocks[index / size - startOffset / size] in Repr
      ensures blocks[index / size - startOffset / size].Length == size
      ensures blocks[index / size - startOffset / size][index % size] == Model().Get(index)
    {
      Locate(index, size);
      DivMonotone(startOffset, index, size);
      BlocksCover(startOffset + length, index / size, index % size, size);
      var b := index / size - startOffset / size;
      assert BlockOk(b) && SlotOk(b, index % size);
      SlotIsUnique(b, index % size, index);
    }

    method GetWith<R>(index: nat, f: Option<T> -> R) returns (r: R)
      requires Valid()
      ensures r == f(Model().Get(index))
    {
      if index >= length + startOffset {
        return f(None);
      }
      if index < startOffset {
        return f(None);
      }
      Placed(index);
      var blockIndex := index / size - startOffset / size;
      var offset := index % size;
      r := f(blocks[blockIndex][offset]);
    }

    method Get(index: nat) returns (r: Option<T>)
      requires Valid()
      ensures r == Model().Get(index)
    {
      r := GetWith(index, x => x);
    }

    /** Distinct slots have distinct indices. */
    lemma {:induction false} SlotIsUnique(block: int, offset: int, index: int)
      requires size > 0 && 0 <= offset < size
      ensures IndexOf(block, offset) == index <==>
              block == index / size - startOffset / size && offset == index % size
    {
      LocateUnique(startOffset / size + block, offset, size);
      Locate(index, size);
    }

    method Set(index: nat, value: T) returns (ok: bool)
      requires Valid()
      modifies Repr
      ensures Valid() && Repr == old(Repr) && blocks == old(blocks)
      ensures ok <==> old(Model().Get(index).Some?)
      ensures Model() == old(Model()).Set(index, value)
    {
      if index >= length + startOffset {
        return false;
      }
      if index < startOffset {
        return false;
      }
      Placed(index);
      var blockIndex := index / size - startOffset / size;
      var offset := index % size;
      blocks[blockIndex][offset] := Some(value);
      contents := contents[index - startOffset := value];
      forall b ensures BlockOk(b) { assert old(BlockOk(b)); }
      forall a, b ensures Apart(a, b) { assert old(Apart(a, b)); }
      forall b, o ensures SlotOk(b, o) {
        assert old(SlotOk(b, o)) && old(Apart(b, blockIndex)) && old(Apart(blockIndex, b));
        if 0 <= o < size { SlotIsUnique(b, o, index); }
      }
      return true;
    }

    /** A fresh block beyond the live window. */
    method AddBlock()
      requires Slots() && |blocks| >= Blocks(startOffset + length, size) - startOffset / size
      modifies this`blocks, this`Repr
      ensures Slots() && |blocks| == |old(blocks)| + 1 && old(blocks) <= blocks && fresh(Repr - old(Repr))
    {
      var block := new Option<T>[size](_ => None);
      blocks, Repr := blocks + [block], Repr + {block};
      forall b ensures BlockOk(b) { assert old(BlockOk(b)); }
      forall a, b ensures Apart(a, b) { assert old(Apart(a, b)) && old(BlockOk(a)); }
      forall b, o ensures SlotOk(b, o) {
        assert old(SlotOk(b, o)) && old(BlockOk(b));
        if b == |old(blocks)| && 0 <= o < size {
          BlocksCover(startOffset + length, startOffset / size + b, o, size);
        }
      }
    }

    /** Writes a new element into its slot, once the block exists. */
    method Store(index: nat, value: T)
      requires Slots() && index == startOffset + length
      requires 0 <= index / size - startOffset / size < |blocks|
      modifies Repr
      ensures Slots() && Repr == old(Repr) && blocks == old(blocks) && Model() == old(Model()).Push(value)
    {
      Locate(index, size);
      var blockIndex := index / size - startOffset / size;
      assert BlockOk(blockIndex);
      blocks[blockIndex][index % size] := Some(value);
      length := length + 1;
      contents := contents + [value];
      forall b ensures BlockOk(b) { assert old(BlockOk(b)); }
      forall a, b ensures Apart(a, b) { assert old(Apart(a, b)); }
      forall b, o ensures SlotOk(b, o) {
        assert old(SlotOk(b, o)) && old(Apart(b, blockIndex)) && old(Apart(blockIndex, b));
        if 0 <= o < size { SlotIsUnique(b, o, index); }
      }
    }

    method Push(value: T) returns (index: nat)
      requires Valid()
      modifies Repr
      ensures Valid() && fresh(Repr - old(Repr)) && old(blocks) <= blocks
      ensures index == old(Model().End())
      ensures Model() == old(Model()).Push(value)
    {
      index := length + startOffset;
      BlocksStep(index, size);
      DivMonotone(startOffset, index, size);
      var blockIndex := index / size - startOffset / size;
      // A block that is not there yet is added under the write lock.
      while blockIndex >= |blocks|
        invariant Slots() && Model() == old(Model()) && length == old(length) && fresh(Repr - old(Repr))
        invariant |old(blocks)| <= |blocks| <= blockIndex + 1 && old(blocks) <= blocks
        decreases blockIndex - |blocks|
      {
        AddBlock();
      }
      Store(index, value);
    }

    method Clear()
      requires Valid()
      modifies this
      ensures Valid() && Repr == old(Repr) && Model() == OffsetSeq(0, []) && blocks == []
    {
      blocks, startOffset, length, contents := [], 0, 0, [];
      LocateUnique(0, 0, size);
    }

    /** The loop that removes whole blocks. It stops in bounds, with the offset of idx. */
    method RemoveWholeBlocks(idx: nat) returns (i: nat, start: nat)
      requires size > 0 && |blocks| == Blocks(startOffset + length, size) - startOffset / size
      requires startOffset <= idx <= startOffset + length
      modifies this`blocks
      ensures i == idx % size
      ensures start == if idx / size == startOffset / size then startOffset else 0
      ensures 0 <= idx / size - startOffset / size <= |old(blocks)|
      ensures blocks == old(blocks)[idx / size - startOffset / size..]
      ensures idx % size > 0 ==> blocks != []
    {
      ghost var whole := WindowOffset(startOffset, startOffset + length, idx, size);
      start := startOffset;
      i := idx - (start - start % size);
      ghost var k := 0;
      while i >= size
        invariant 0 <= k <= whole
        invariant i == (whole - k) * size + idx % size
        invariant start == if k == 0 then startOffset else 0
        invariant blocks == old(blocks)[k..]
        decreases i
      {
        MulStep(whole - k, size);
        blocks := blocks[1..];
        i := i - size;
        start := 0;
        k := k + 1;
      }
      if k < whole { MulAtLeast(whole - k, size); }
    }

    /** Empties slots of the first block and leaves all others alone. */
    method ClearFront(i: nat, from: nat)
      requires i > 0 ==> blocks != [] && i <= blocks[0].Length
      requires forall a, b :: Apart(a, b)
      modifies if i > 0 then {blocks[0]} else {}
      ensures forall b, o | 0 <= b < |blocks| && 0 <= o < blocks[b].Length ::
                blocks[b][o] == if b == 0 && from <= o < i then None else old(blocks[b][o])
    {
      if i > 0 {
        var block := blocks[0];
        forall o | from <= o < i {
          block[o] := None;
        }
        forall b | 0 < b < |blocks| ensures blocks[b] != blocks[0] { assert Apart(0, b); }
      }
    }

    method RemoveBefore(idx: nat) returns (ok: bool)
      requires Valid()
      modifies Repr
      ensures Valid() && Repr == old(Repr)
      ensures ok <==> old(Model()).RemoveBefore(idx).Some?
      ensures Model() == if ok then old(Model()).RemoveBefore(idx).value else old(Model())
      ensures forall b | b in blocks :: b in old(blocks)
    {
      if idx > startOffset + length {
        return false;
      }
      if idx < startOffset {
        return false;
      }
      var i, start := RemoveWholeBlocks(idx);
      ghost var whole := idx / size - startOffset / size;
      forall a, b ensures Apart(a, b) { assert old(Apart(a + whole, b + whole)); }
      Locate(idx, size);
      assert old(BlockOk(whole));
      ClearFront(i, start % size);
      length := length - (idx - startOffset);
      contents := contents[idx - startOffset..];
      startOffset := idx;
      LocateUnique(0, 0, size);
      assert start % size == if idx / size == old(startOffset) / size then old(startOffset) % size else 0;
      forall b ensures BlockOk(b) { assert old(BlockOk(b + whole)); }
      forall a, b ensures Apart(a, b) { assert old(Apart(a + whole, b + whole)); }
      forall b, o ensures SlotOk(b, o) {
        if 0 <= b < |blocks| && 0 <= o < size {
          assert old(SlotOk(b + whole, o)) && old(BlockOk(b + whole));
          assert IndexOf(b, o) == old(IndexOf(b + whole, o));
          ShrunkSlot(old(Model()), idx, size, b, o, start % size, IndexOf(b, o));
        }
      }
      return true;
    }
  }
}
