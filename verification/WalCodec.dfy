/** The record format of the write-ahead log. */
module WalCodec {
  import opened Common

  datatype Record = Record(rev: Int64, key: Bytes, value: Option<Bytes>)

  const TWO_32: int := 0x1_0000_0000
  const TWO_64: int := 0x1_0000_0000_0000_0000
  const DELETE_MARKER: int := 0xffff_ffff
  const HEADER: nat := 16

  // ---------------------------------------------------------------- little-endian numbers

  /** The low `width` bytes of n; a wider number is cut off, as a narrowing cast does. */
  function ToLe(n: nat, width: nat): (bytes: Bytes)
    ensures |bytes| == width
    decreases width
  {
    if width == 0 then [] else [n % 256] + ToLe(n / 256, width - 1)
  }

  function FromLe(bytes: Bytes): (n: nat)
  {
    if bytes == [] then 0 else bytes[0] + 256 * FromLe(bytes[1..])
  }

  function Pow256(width: nat): (p: nat)
    ensures p > 0
  {
    if width == 0 then 1 else 256 * Pow256(width - 1)
  }

  lemma {:induction false} LeRoundTrip(n: nat, width: nat)
    ensures n < Pow256(width) ==> FromLe(ToLe(n, width)) == n
    decreases width
  {
    if width > 0 {
      LeRoundTrip(n / 256, width - 1);
      assert ToLe(n, width)[1..] == ToLe(n / 256, width - 1);
    }
  }

  lemma {:induction false} FromLeBound(bytes: Bytes)
    ensures FromLe(bytes) < Pow256(|bytes|)
  {
    if bytes != [] { FromLeBound(bytes[1..]); }
  }

  lemma {:induction false} Widths()
    ensures Pow256(4) == TWO_32 && Pow256(8) == TWO_64
  {
    assert Pow256(2) == 65536;
    assert Pow256(4) == 256 * (256 * Pow256(2));
    assert Pow256(6) == 256 * (256 * Pow256(4));
    assert Pow256(8) == 256 * (256 * Pow256(6));
  }

  // ---------------------------------------------------------------- records

  function AsU64(rev: Int64): nat {
    if rev < 0 then rev + TWO_64 else rev
  }

  function AsI64(n: nat): Int64
    requires n < TWO_64
  {
    if n >= INT64_END then n - TWO_64 else n
  }

  function Body(r: Record): Bytes {
    r.key + (if r.value.Some? then r.value.value else [])
  }

  function Encode(r: Record): Bytes {
    var valueLen := if r.value.Some? then |r.value.value| else DELETE_MARKER;
    ToLe(AsU64(r.rev), 8) + ToLe(|r.key|, 4) + ToLe(valueLen, 4) + Body(r)
  }

  function EncodeAll(rs: seq<Record>): Bytes {
    if rs == [] then [] else Encode(rs[0]) + EncodeAll(rs[1..])
  }

  /** Too short for a header reads as the end; too short for the body is an error. */
  datatype ReadResult = Read(record: Record, rest: Bytes) | End | Corrupt

  function Decode(input: Bytes): (r: ReadResult)
    ensures r.Read? ==> |r.rest| < |input|
  {
    if |input| < HEADER then End
    else
      FromLeBound(input[0..8]);
      FromLeBound(input[8..12]);
      FromLeBound(input[12..16]);
      Widths();
      var rev := AsI64(FromLe(input[0..8]));
      var keyLen := FromLe(input[8..12]);
      var valueLen := FromLe(input[12..16]);
      if |input| < HEADER + keyLen then Corrupt
      else
        var key := input[HEADER..HEADER + keyLen];
        if valueLen == DELETE_MARKER then Read(Record(rev, key, None), input[HEADER + keyLen..])
        else if |input| < HEADER + keyLen + valueLen then Corrupt
        else
          Read(Record(rev, key, Some(input[HEADER + keyLen..HEADER + keyLen + valueLen])),
               input[HEADER + keyLen + valueLen..])
  }

  datatype FileResult = FileResult(records: seq<Record>, clean: bool)

  /** Reading a file to its end or to the first error. */
  function DecodeAll(input: Bytes): FileResult
    decreases |input|
  {
    match Decode(input)
    case End => FileResult([], true)
    case Corrupt => FileResult([], false)
    case Read(record, rest) =>
      var more := DecodeAll(rest);
      FileResult([record] + more.records, more.clean)
  }

  // ---------------------------------------------------------------- round trip

  /** The lengths fit their fields, and the value's length is not taken for a deletion. */
  predicate Fits(r: Record) {
    |r.key| < TWO_32 && (r.value.Some? ==> |r.value.value| < DELETE_MARKER)
  }

  lemma {:induction false} FourParts(a: Bytes, b: Bytes, c: Bytes, d: Bytes, tail: Bytes)
    requires |a| == 8 && |b| == 4 && |c| == 4
    ensures var input := a + b + c + d + tail;
            && input[0..8] == a && input[8..12] == b && input[12..16] == c && input[16..] == d + tail
  {
  }

  lemma {:induction false} HeaderFields(r: Record, tail: Bytes)
    ensures var input := Encode(r) + tail;
            var valueLen := if r.value.Some? then |r.value.value| else DELETE_MARKER;
            && |input| == HEADER + |Body(r)| + |tail|
            && input[0..8] == ToLe(AsU64(r.rev), 8)
            && input[8..12] == ToLe(|r.key|, 4)
            && input[12..16] == ToLe(valueLen, 4)
            && input[16..] == Body(r) + tail
  {
    var valueLen := if r.value.Some? then |r.value.value| else DELETE_MARKER;
    FourParts(ToLe(AsU64(r.rev), 8), ToLe(|r.key|, 4), ToLe(valueLen, 4), Body(r), tail);
  }

  lemma {:induction false} BodyFields(r: Record, tail: Bytes)
    ensures (Body(r) + tail)[..|r.key|] == r.key
    ensures r.value.None? ==> (Body(r) + tail)[|r.key|..] == tail
    ensures r.value.Some? ==>
              && (Body(r) + tail)[|r.key|..|r.key| + |r.value.value|] == r.value.value
              && (Body(r) + tail)[|r.key| + |r.value.value|..] == tail
  {
  }

  lemma {:induction false} HeaderDecodes(r: Record, tail: Bytes)
    requires Fits(r)
    ensures var input := Encode(r) + tail;
            && |input| == HEADER + |Body(r)| + |tail|
            && FromLe(input[0..8]) == AsU64(r.rev)
            && FromLe(input[8..12]) == |r.key|
            && FromLe(input[12..16]) == if r.value.Some? then |r.value.value| else DELETE_MARKER
  {
    HeaderFields(r, tail);
    Widths();
    LeRoundTrip(AsU64(r.rev), 8);
    LeRoundTrip(|r.key|, 4);
    LeRoundTrip(if r.value.Some? then |r.value.value| else DELETE_MARKER, 4);
  }

  lemma {:induction false} BodyDecodes(r: Record, tail: Bytes)
    ensures var input := Encode(r) + tail;
            && |input| == HEADER + |Body(r)| + |tail|
            && input[HEADER..HEADER + |r.key|] == r.key
            && (r.value.None? ==> input[HEADER + |r.key|..] == tail)
            && (r.value.Some? ==>
                  && input[HEADER + |r.key|..HEADER + |r.key| + |r.value.value|] == r.value.value
                  && input[HEADER + |r.key| + |r.value.value|..] == tail)
  {
    var input, body := Encode(r) + tail, Body(r) + tail;
    HeaderFields(r, tail);
    BodyFields(r, tail);
    assert input[HEADER..HEADER + |r.key|] == body[..|r.key|];
    assert input[HEADER + |r.key|..] == body[|r.key|..];
    if r.value.Some? {
      var n := |r.key| + |r.value.value|;
      assert input[HEADER + |r.key|..HEADER + n] == body[|r.key|..n];
      assert input[HEADER + n..] == body[n..];
    }
  }

  /** One record, whatever follows it. */
  lemma {:induction false} DecodeEncoded(r: Record, tail: Bytes)
    requires Fits(r)
    ensures Decode(Encode(r) + tail) == Read(r, tail)
  {
    HeaderDecodes(r, tail);
    BodyDecodes(r, tail);
  }

  /** Four bytes as a number, the lowest first. */
  function Number(b0: int, b1: int, b2: int, b3: int): int {
    b0 + 0x100 * b1 + 0x1_0000 * b2 + 0x100_0000 * b3
  }

  lemma {:induction false} FourDigits(b: Bytes)
    requires |b| == 4
    ensures FromLe(b) == Number(b[0], b[1], b[2], b[3])
  {
    var b1, b2, b3 := b[1..], b[2..], b[3..];
    assert b1[1..] == b2 && b2[1..] == b3 && b3[1..] == [];
    assert FromLe(b3) == b[3] && FromLe(b2) == b[2] + 256 * FromLe(b3) && FromLe(b1) == b[1] + 256 * FromLe(b2);
  }

  lemma {:induction false} EightDigits(b: Bytes)
    requires |b| == 8
    ensures FromLe(b) == Number(b[0], b[1], b[2], b[3]) + 0x1_0000_0000 * Number(b[4], b[5], b[6], b[7])
  {
    var b1, b2, b3, high := b[1..], b[2..], b[3..], b[4..];
    assert b1[1..] == b2 && b2[1..] == b3 && b3[1..] == high;
    FourDigits(high);
    assert FromLe(b3) == b[3] + 256 * FromLe(high);
    assert FromLe(b2) == b[2] + 256 * FromLe(b3) && FromLe(b1) == b[1] + 256 * FromLe(b2);
  }

  /** Four bytes that make up the largest number are all 0xff. */
  lemma {:induction false} AllOnes(b0: Byte, b1: Byte, b2: Byte, b3: Byte)
    requires Number(b0, b1, b2, b3) == 0xffff_ffff
    ensures b0 == b1 == b2 == b3 == 0xff
  {
  }

  /** The format, byte by byte: eight bytes of revision in two's complement, four of key length, four of
      value length or four times 0xff for a deletion, each with the lowest byte first; then the key
      and the value. */
  lemma {:induction false} LayoutIs(r: Record)
    requires Fits(r)
    ensures var e := Encode(r);
            && |e| == 16 + |r.key| + (if r.value.Some? then |r.value.value| else 0)
            && Number(e[0], e[1], e[2], e[3]) + 0x1_0000_0000 * Number(e[4], e[5], e[6], e[7])
               == (if r.rev < 0 then r.rev + 0x1_0000_0000_0000_0000 else r.rev)
            && Number(e[8], e[9], e[10], e[11]) == |r.key|
            && (r.value.Some? ==> Number(e[12], e[13], e[14], e[15]) == |r.value.value|)
            && (r.value.None? ==> e[12] == e[13] == e[14] == e[15] == 0xff)
            && e[16..16 + |r.key|] == r.key
            && e[16 + |r.key|..] == (if r.value.Some? then r.value.value else [])
  {
    var e := Encode(r);
    assert e + [] == e;
    HeaderDecodes(r, []);
    BodyDecodes(r, []);
    EightDigits(e[0..8]);
    FourDigits(e[8..12]);
    FourDigits(e[12..16]);
    if r.value.None? { AllOnes(e[12], e[13], e[14], e[15]); }
    if r.value.Some? { assert e[16 + |r.key|..16 + |r.key| + |r.value.value|] == e[16 + |r.key|..]; }
  }

  /** Whatever the decoder returns fits. */
  lemma {:induction false} DecodedFits(input: Bytes)
    requires Decode(input).Read?
    ensures Fits(Decode(input).record)
  {
    FromLeBound(input[8..12]);
    FromLeBound(input[12..16]);
    Widths();
  }

  /** A record survives the round trip exactly when its lengths fit. */
  lemma {:induction false} RoundTripIff(r: Record, tail: Bytes)
    ensures Decode(Encode(r) + tail) == Read(r, tail) <==> Fits(r)
  {
    if Fits(r) {
      DecodeEncoded(r, tail);
    } else if Decode(Encode(r) + tail) == Read(r, tail) {
      DecodedFits(Encode(r) + tail);
    }
  }

  /** The longest value whose length still fits its field is taken for a deletion, and its bytes for
      what follows. */
  lemma {:induction false} LongValueReadsAsDelete(r: Record, tail: Bytes)
    requires |r.key| < TWO_32 && r.value.Some? && |r.value.value| == DELETE_MARKER
    ensures Decode(Encode(r) + tail) == Read(Record(r.rev, r.key, None), r.value.value + tail)
  {
    var input, body := Encode(r) + tail, Body(r) + tail;
    HeaderFields(r, tail);
    BodyDecodes(r, tail);
    Widths();
    LeRoundTrip(AsU64(r.rev), 8);
    LeRoundTrip(|r.key|, 4);
    LeRoundTrip(DELETE_MARKER, 4);
    assert input[HEADER + |r.key|..] == body[|r.key|..] == r.value.value + tail;
  }

  /** How many whole records the first n bytes of the encoding hold. */
  function WholeRecords(rs: seq<Record>, n: nat): (k: nat)
    ensures k <= |rs|
  {
    if rs == [] || n < |Encode(rs[0])| then 0 else 1 + WholeRecords(rs[1..], n - |Encode(rs[0])|)
  }

  /** A partial record: inside the header it reads as the end of the file, inside the body as
      an error. */
  lemma {:induction false} DecodeCut(r: Record, n: nat)
    requires Fits(r) && n < |Encode(r)|
    ensures Decode(Encode(r)[..n]) == if n < HEADER then End else Corrupt
  {
    if n >= HEADER {
      var input := Encode(r)[..n];
      var valueLen := if r.value.Some? then |r.value.value| else DELETE_MARKER;
      HeaderFields(r, []);
      assert Encode(r) + [] == Encode(r);
      assert input[0..8] == Encode(r)[0..8] && input[8..12] == Encode(r)[8..12] && input[12..16] == Encode(r)[12..16];
      Widths();
      LeRoundTrip(|r.key|, 4);
      LeRoundTrip(valueLen, 4);
    }
  }

  lemma {:induction false} DecodeAllCons(r: Record, tail: Bytes)
    requires Fits(r)
    ensures DecodeAll(Encode(r) + tail) == FileResult([r] + DecodeAll(tail).records, DecodeAll(tail).clean)
  {
    DecodeEncoded(r, tail);
  }

  lemma {:induction false} DecodeAllCut(r: Record, n: nat)
    requires Fits(r) && n < |Encode(r)|
    ensures DecodeAll(Encode(r)[..n]) == FileResult([], n < HEADER)
  {
    DecodeCut(r, n);
  }

  /** Any cut of an encoded file decodes to the records that lie wholly before the cut. The end
      is clean exactly when the cut falls on a record boundary or inside a header. */
  lemma {:induction false} TruncatedFile(rs: seq<Record>, n: nat)
    requires forall i | 0 <= i < |rs| :: Fits(rs[i])
    requires n <= |EncodeAll(rs)|
    ensures var k := WholeRecords(rs, n);
            && |EncodeAll(rs[..k])| <= n
            && DecodeAll(EncodeAll(rs)[..n]) == FileResult(rs[..k], n - |EncodeAll(rs[..k])| < HEADER)
    decreases |rs|
  {
    if rs == [] {
      assert EncodeAll(rs)[..n] == [];
    } else {
      var first, tail := Encode(rs[0]), EncodeAll(rs[1..]);
      TakeOfConcat(first, tail, n);
      if n < |first| {
        DecodeAllCut(rs[0], n);
        assert rs[..0] == [];
      } else {
        var m := n - |first|;
        DecodeAllCons(rs[0], tail[..m]);
        TruncatedFile(rs[1..], m);
        EncodeAllFront(rs, WholeRecords(rs[1..], m));
      }
    }
  }

  lemma {:induction false} TakeOfConcat(a: Bytes, b: Bytes, n: nat)
    requires n <= |a + b|
    ensures (a + b)[..n] == if n < |a| then a[..n] else a + b[..n - |a|]
  {
  }

  lemma {:induction false} EncodeAllFront(rs: seq<Record>, k: nat)
    requires rs != [] && k < |rs|
    ensures rs[..k + 1] == [rs[0]] + rs[1..][..k]
    ensures EncodeAll(rs[..k + 1]) == Encode(rs[0]) + EncodeAll(rs[1..][..k])
  {
    assert rs[..k + 1][1..] == rs[1..][..k];
  }

  /** A whole file decodes to the records that were written. */
  lemma {:induction false} FileRoundTrip(rs: seq<Record>)
    requires forall i | 0 <= i < |rs| :: Fits(rs[i])
    ensures DecodeAll(EncodeAll(rs)) == FileResult(rs, true)
  {
    if rs != [] {
      FileRoundTrip(rs[1..]);
      DecodeAllCons(rs[0], EncodeAll(rs[1..]));
    }
  }

  lemma {:induction false} EncodeAllConcat(a: seq<Record>, b: seq<Record>)
    ensures EncodeAll(a + b) == EncodeAll(a) + EncodeAll(b)
  {
    if a == [] {
      assert a + b == b;
    } else {
      assert (a + b)[1..] == a[1..] + b;
      EncodeAllConcat(a[1..], b);
    }
  }
}
