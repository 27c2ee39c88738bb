/** Byte-string order, as BTreeMap uses it. */
module ByteOrder {
  import opened Common

  predicate Less(a: Bytes, b: Bytes) {
    b != [] && (a == [] || a[0] < b[0] || (a[0] == b[0] && Less(a[1..], b[1..])))
  }

  predicate AtMost(a: Bytes, b: Bytes) {
    a == b || Less(a, b)
  }

  lemma {:induction false} LessConcat(p: Bytes, a: Bytes, b: Bytes)
    ensures Less(p + a, p + b) <==> Less(a, b)
  {
    if p == [] {
      assert p + a == a && p + b == b;
    } else {
      LessConcat(p[1..], a, b);
      assert (p + a)[1..] == p[1..] + a && (p + b)[1..] == p[1..] + b;
    }
  }

  lemma {:induction false} LessIrreflexive(a: Bytes)
    ensures !Less(a, a)
  {
    if a != [] { LessIrreflexive(a[1..]); }
  }

  lemma {:induction false} LessTransitive(a: Bytes, b: Bytes, c: Bytes)
    requires Less(a, b) && Less(b, c)
    ensures Less(a, c)
  {
    if a != [] && a[0] == b[0] == c[0] { LessTransitive(a[1..], b[1..], c[1..]); }
  }

  lemma {:induction false} LessTotal(a: Bytes, b: Bytes)
    ensures Less(a, b) || a == b || Less(b, a)
  {
    if a != [] && b != [] && a[0] == b[0] {
      LessTotal(a[1..], b[1..]);
      assert a == [a[0]] + a[1..] && b == [b[0]] + b[1..];
    }
  }

  /** A key between two keys that share a prefix has that prefix too. */
  lemma {:induction false} Sandwich(p: Bytes, a: Bytes, b: Bytes, key: Bytes)
    requires AtMost(p + a, key) && Less(key, p + b)
    ensures p <= key
  {
    if p != [] {
      var lo, hi := p + a, p + b;
      assert lo[1..] == p[1..] + a && hi[1..] == p[1..] + b;
      assert lo[0] == p[0] == hi[0];
      assert key[0] == p[0];
      assert lo == [lo[0]] + lo[1..] && key == [key[0]] + key[1..];
      Sandwich(p[1..], a, b, key[1..]);
    }
  }

  /** A key from q + [c] on but before q + [c + 1] starts with q + [c]. */
  lemma {:induction false} SandwichNext(q: Bytes, c: Byte, a: Bytes, key: Bytes)
    requires c < 255 && AtMost(q + [c] + a, key) && Less(key, q + [c + 1])
    ensures q + [c] <= key
  {
    if q == [] {
      assert q + [c] + a == [c] + a && q + [c + 1] == [c + 1];
      assert ([c] + a)[0] == c;
      assert key[1..] != [] || key == [key[0]];
    } else {
      var lo, hi := q + [c] + a, q + [c + 1];
      assert lo[1..] == q[1..] + [c] + a && hi[1..] == q[1..] + [c + 1];
      assert lo[0] == q[0] == hi[0];
      assert key[0] == q[0];
      assert lo == [lo[0]] + lo[1..] && key == [key[0]] + key[1..];
      SandwichNext(q[1..], c, a, key[1..]);
    }
  }
}

/** How keys are split over shards, and which keys a range query selects. */
module Prefixes {
  import opened Common
  import opened ByteOrder

  const SLASH: Byte := 0x2f
  const ZERO_DIGIT: Byte := 0x30
  const DOT: Byte := 0x2e
  /** "/registry/" */
  const REGISTRY: Bytes := [0x2f, 0x72, 0x65, 0x67, 0x69, 0x73, 0x74, 0x72, 0x79, 0x2f]

  /** Positions just past each slash at or after position i. */
  function SlashEndsFrom(key: Bytes, i: nat): (ends: seq<nat>)
    requires i <= |key|
    ensures forall j | 0 <= j < |ends| :: i < ends[j] <= |key|
    decreases |key| - i
  {
    if i == |key| then []
    else (if key[i] == SLASH then [i + 1] else []) + SlashEndsFrom(key, i + 1)
  }

  function SlashEnds(key: Bytes): seq<nat> {
    SlashEndsFrom(key, 0)
  }

  function Min(a: int, b: int): int {
    if a <= b then a else b
  }

  /** The third segment of a key that starts with "/registry/". */
  function Resource(key: Bytes): Bytes
    requires |REGISTRY| <= |key|
  {
    var ends := SlashEnds(key);
    if |ends| > 2 && |REGISTRY| <= ends[2] - 1 then key[|REGISTRY|..ends[2] - 1] else key[|REGISTRY|..]
  }

  lemma {:induction false} NoSlashBetween(key: Bytes, i: nat, j: nat)
    requires i <= j <= |key| && forall m | i <= m < j :: key[m] != SLASH
    ensures SlashEndsFrom(key, i) == SlashEndsFrom(key, j)
    decreases j - i
  {
    if i < j { NoSlashBetween(key, i + 1, j); }
  }

  lemma {:induction false} RegistryEnds(key: Bytes)
    requires REGISTRY <= key
    ensures SlashEnds(key) == [1, 10] + SlashEndsFrom(key, 10)
  {
    assert forall j | 0 <= j < 10 :: key[j] == REGISTRY[j];
    NoSlashBetween(key, 1, 9);
    assert SlashEndsFrom(key, 9) == [10] + SlashEndsFrom(key, 10);
  }

  /** Where `prefix_split` cuts: past the third slash, or past the fourth when the third segment
      has a dot, or past the last slash when there are fewer. */
  function PrefixLength(key: Bytes): (n: nat)
    ensures n <= |key|
  {
    if !(REGISTRY <= key) then 0
    else
      RegistryEnds(key);
      var ends := SlashEnds(key);
      var segments := Min(5, |ends| + 1);
      var last := Min(segments - 1, if DOT in Resource(key) then 4 else 3);
      ends[last - 1]
  }

  function Prefix(key: Bytes): Bytes {
    key[..PrefixLength(key)]
  }

  function Suffix(key: Bytes): Bytes {
    key[PrefixLength(key)..]
  }

  // ---------------------------------------------------------------- the prefix of every key

  function Ascii(text: string): Bytes
    requires forall i | 0 <= i < |text| :: text[i] as int < 256
  {
    seq(|text|, i requires 0 <= i < |text| => text[i] as int)
  }

  lemma {:induction false} Literals()
    ensures REGISTRY == Ascii("/registry/") && Ascii("/.0") == [SLASH, DOT, ZERO_DIGIT]
  {
    var text := "/registry/";
    assert forall i | 0 <= i < |text| :: text[i] as int < 256;
  }

  /** A key outside "/registry/" has no prefix. */
  lemma {:induction false} PrefixOutside(key: Bytes)
    requires !(REGISTRY <= key)
    ensures Prefix(key) == [] && Suffix(key) == key
  {
  }

  /** Where the slashes of "/registry/X" and what follows are. */
  lemma {:induction false} SlashesAfter(x: Bytes, tail: Bytes)
    requires SLASH !in x
    ensures var key := REGISTRY + x + tail;
            REGISTRY <= key && SlashEnds(key) == [1, 10] + SlashEndsFrom(key, 10 + |x|)
  {
    var key := REGISTRY + x + tail;
    assert REGISTRY <= key;
    RegistryEnds(key);
    forall m | 10 <= m < 10 + |x| ensures key[m] != SLASH { assert key[m] == x[m - 10] && x[m - 10] in x; }
    NoSlashBetween(key, 10, 10 + |x|);
  }

  /** "/registry/X" without a further slash: the prefix is "/registry/". */
  lemma {:induction false} PrefixTop(x: Bytes)
    requires SLASH !in x
    ensures Prefix(REGISTRY + x) == REGISTRY && Suffix(REGISTRY + x) == x
  {
    var key := REGISTRY + x;
    assert key == REGISTRY + x + [];
    SlashesAfter(x, []);
    assert SlashEndsFrom(key, 10 + |x|) == [];
  }

  lemma {:induction false} SlashHere(key: Bytes, i: nat)
    requires i < |key| && key[i] == SLASH
    ensures SlashEndsFrom(key, i) == [i + 1] + SlashEndsFrom(key, i + 1)
  {
  }

  /** The resource of "/registry/X/..." is X. */
  lemma {:induction false} ResourceIs(x: Bytes, rest: Bytes)
    requires SLASH !in x
    ensures var key := REGISTRY + x + [SLASH] + rest;
            && REGISTRY <= key && Resource(key) == x
            && SlashEnds(key) == [1, 10, 11 + |x|] + SlashEndsFrom(key, 11 + |x|)
  {
    var key := REGISTRY + x + [SLASH] + rest;
    assert key == REGISTRY + x + ([SLASH] + rest);
    SlashesAfter(x, [SLASH] + rest);
    SlashHere(key, 10 + |x|);
    var more := SlashEndsFrom(key, 11 + |x|);
    assert [1, 10] + ([11 + |x|] + more) == [1, 10, 11 + |x|] + more;
    assert key[10..10 + |x|] == x;
  }

  lemma {:induction false} NoSlashLeft(key: Bytes, i: nat)
    requires i <= |key| && SLASH !in key[i..]
    ensures SlashEndsFrom(key, i) == []
    decreases |key| - i
  {
    if i < |key| {
      assert key[i] == key[i..][0] && key[i + 1..] == key[i..][1..];
      NoSlashLeft(key, i + 1);
    }
  }

  /** "/registry/X/rest", where X has no dot or the rest no slash: the prefix is "/registry/X/". */
  lemma {:induction false} PrefixResource(x: Bytes, rest: Bytes)
    requires SLASH !in x && (DOT !in x || SLASH !in rest)
    ensures Prefix(REGISTRY + x + [SLASH] + rest) == REGISTRY + x + [SLASH]
    ensures Suffix(REGISTRY + x + [SLASH] + rest) == rest
  {
    var key := REGISTRY + x + [SLASH] + rest;
    ResourceIs(x, rest);
    if SLASH !in rest {
      assert key[11 + |x|..] == rest;
      NoSlashLeft(key, 11 + |x|);
    }
    assert SlashEnds(key)[2] == 11 + |x|;
    assert PrefixLength(key) == 11 + |x|;
  }

  /** "/registry/X/Y/rest", where X has a dot: the prefix is "/registry/X/Y/". */
  lemma {:induction false} PrefixDotted(x: Bytes, y: Bytes, rest: Bytes)
    requires SLASH !in x && DOT in x && SLASH !in y
    ensures Prefix(REGISTRY + x + [SLASH] + y + [SLASH] + rest) == REGISTRY + x + [SLASH] + y + [SLASH]
    ensures Suffix(REGISTRY + x + [SLASH] + y + [SLASH] + rest) == rest
  {
    var key := REGISTRY + x + [SLASH] + y + [SLASH] + rest;
    var from := 11 + |x|;
    assert key == REGISTRY + x + [SLASH] + (y + [SLASH] + rest);
    ResourceIs(x, y + [SLASH] + rest);
    forall m | from <= m < from + |y| ensures key[m] != SLASH { assert key[m] == y[m - from] && y[m - from] in y; }
    NoSlashBetween(key, from, from + |y|);
    SlashHere(key, from + |y|);
    assert SlashEnds(key)[3] == from + |y| + 1;
    assert PrefixLength(key) == from + |y| + 1;
  }

  lemma {:induction false} CutAtSlash(s: Bytes) returns (a: Bytes, b: Bytes)
    requires SLASH in s
    ensures s == a + [SLASH] + b && SLASH !in a
  {
    if s[0] == SLASH {
      a, b := [], s[1..];
    } else {
      assert s == [s[0]] + s[1..];
      a, b := CutAtSlash(s[1..]);
      a := [s[0]] + a;
    }
  }

  /** The prefix of every key, from its slashes and dots alone. */
  lemma {:induction false} PrefixOfEveryKey(key: Bytes) returns (x: Bytes, y: Bytes, rest: Bytes)
    ensures || (!(REGISTRY <= key) && Prefix(key) == [])
            || (key == REGISTRY + x && SLASH !in x && Prefix(key) == REGISTRY)
            || (&& key == REGISTRY + x + [SLASH] + rest && SLASH !in x && (DOT !in x || SLASH !in rest)
                && Prefix(key) == REGISTRY + x + [SLASH])
            || (&& key == REGISTRY + x + [SLASH] + y + [SLASH] + rest && SLASH !in x && DOT in x && SLASH !in y
                && Prefix(key) == REGISTRY + x + [SLASH] + y + [SLASH])
  {
    x, y, rest := [], [], [];
    if !(REGISTRY <= key) {
      PrefixOutside(key);
    } else {
      var below := key[|REGISTRY|..];
      assert key == REGISTRY + below;
      if SLASH !in below {
        x := below;
        PrefixTop(x);
      } else {
        x, rest := CutAtSlash(below);
        assert key == REGISTRY + x + [SLASH] + rest;
        if DOT !in x || SLASH !in rest {
          PrefixResource(x, rest);
        } else {
          var whole := rest;
          y, rest := CutAtSlash(whole);
          assert key == REGISTRY + x + [SLASH] + y + [SLASH] + rest;
          PrefixDotted(x, y, rest);
        }
      }
    }
  }

  lemma {:induction false} NoPrefixIff(key: Bytes)
    ensures Prefix(key) == [] <==> !(REGISTRY <= key)
  {
    var x, y, rest := PrefixOfEveryKey(key);
  }

  datatype Bound = Included(key: Bytes) | Excluded(key: Bytes) | Unbounded

  datatype Query = Accepted(prefix: Bytes, lo: Bytes, hi: Bound) | Rejected

  /** `prefix_and_range_of_key`; the lower bound is always inclusive. */
  function PrefixAndRange(start: Bytes, end: Bytes): Query {
    if end == [] then Accepted(Prefix(start), Suffix(start), Included(Suffix(start)))
    else if end == [0] then Accepted(Prefix(start), Suffix(start), Unbounded)
    else if Prefix(start) != Prefix(end) then
      var s := Suffix(end);
      if s != [] && (Last(s) == ZERO_DIGIT || Last(s) == 0) && Prefix(start) == Prefix(end) + DropLast(s) + [SLASH] then
        Accepted(Prefix(start), Suffix(start), Unbounded)
      else Rejected
    else
      var s := Suffix(end);
      if s != [] && Last(s) == 0 && DropLast(s) == Suffix(start) then
        Accepted(Prefix(start), Suffix(start), Unbounded)
      else
        Accepted(Prefix(start), Suffix(start), Excluded(s))
  }

  predicate BelowBound(suffix: Bytes, hi: Bound) {
    match hi
    case Included(b) => AtMost(suffix, b)
    case Excluded(b) => Less(suffix, b)
    case Unbounded => true
  }

  /** The keys that the scan of one shard visits. */
  predicate Selected(q: Query, key: Bytes) {
    q.Accepted? && Prefix(key) == q.prefix && AtMost(q.lo, Suffix(key)) && BelowBound(Suffix(key), q.hi)
  }

  // ---------------------------------------------------------------- the flat scan

  lemma {:induction false} SplitJoins(key: Bytes)
    ensures Prefix(key) + Suffix(key) == key
  {
  }

  lemma {:induction false} SamePrefixOrder(a: Bytes, b: Bytes)
    requires Prefix(a) == Prefix(b)
    ensures Less(a, b) <==> Less(Suffix(a), Suffix(b))
    ensures AtMost(a, b) <==> AtMost(Suffix(a), Suffix(b))
  {
    SplitJoins(a);
    SplitJoins(b);
    LessConcat(Prefix(a), Suffix(a), Suffix(b));
  }

  /** All keys of the shard "q/" come before "q0". */
  lemma {:induction false} ShardBelowZeroDigit(q: Bytes, rest: Bytes)
    ensures Less(q + [SLASH] + rest, q + [ZERO_DIGIT])
  {
    LessConcat(q, [SLASH] + rest, [ZERO_DIGIT]);
    assert q + [SLASH] + rest == q + ([SLASH] + rest);
  }

  lemma {:induction false} SplitLast(p: Bytes, s: Bytes)
    requires s != []
    ensures p + s == p + DropLast(s) + [Last(s)] && Last(p + s) == Last(s)
  {
  }

  /** The accepted form that crosses prefixes: start's shard is "q/" and the end is "q0". */
  lemma {:induction false} ShardEndsWithDigit(start: Bytes, end: Bytes) returns (q: Bytes)
    requires end != [] && Last(end) != 0 && PrefixAndRange(start, end).Accepted? && Prefix(start) != Prefix(end)
    ensures Prefix(start) == q + [SLASH] && end == q + [ZERO_DIGIT]
    ensures PrefixAndRange(start, end).hi == Unbounded
  {
    var s := Suffix(end);
    SplitJoins(end);
    SplitLast(Prefix(end), s);
    q := Prefix(end) + DropLast(s);
  }

  lemma {:induction false} SlashesEnd(key: Bytes, i: nat)
    requires i <= |key|
    ensures forall j | 0 <= j < |SlashEndsFrom(key, i)| :: key[SlashEndsFrom(key, i)[j] - 1] == SLASH
    decreases |key| - i
  {
    if i < |key| { SlashesEnd(key, i + 1); }
  }

  lemma {:induction false} PrefixEndsWithSlash(key: Bytes)
    ensures Prefix(key) != [] ==> Last(Prefix(key)) == SLASH
  {
    SlashesEnd(key, 0);
    if REGISTRY <= key { RegistryEnds(key); }
  }

  lemma {:induction false} ZeroForm(s: Bytes, t: Bytes)
    ensures s != [] && Last(s) == 0 && DropLast(s) == t <==> s == t + [0]
  {
  }

  /** A query is turned down exactly when its end lies in another shard and is not the end of
      start's own shard, written with '0' or a zero byte in place of the last slash. */
  lemma {:induction false} RejectedIff(start: Bytes, end: Bytes)
    ensures PrefixAndRange(start, end).Rejected? <==>
            && end != [] && end != [0] && Prefix(end) != Prefix(start)
            && !(Last(end) in [ZERO_DIGIT, 0] && Prefix(start) == DropLast(end) + [SLASH])
  {
    SplitJoins(end);
    PrefixEndsWithSlash(end);
    ShardEndForm(Prefix(start), Prefix(end), Suffix(end));
  }

  /** The form that ends a shard, seen in the parts of the end and in the whole of it. */
  lemma {:induction false} ShardEndForm(shard: Bytes, p: Bytes, s: Bytes)
    requires p != [] ==> Last(p) == SLASH
    ensures s != [] && (Last(s) == ZERO_DIGIT || Last(s) == 0) && shard == p + DropLast(s) + [SLASH] <==>
            p + s != [] && Last(p + s) in [ZERO_DIGIT, 0] && shard == DropLast(p + s) + [SLASH]
  {
    if s == [] {
      assert p + s == p;
    } else {
      SplitLast(p, s);
      assert DropLast(p + s) == p + DropLast(s);
    }
  }

  /** Every accepted query whose end is a plain key selects, inside the shard of its start, the
      keys of [start, end) in byte order. This includes the form that ends a whole shard with the
      digit '0' in place of its last slash. */
  lemma {:induction false} ShardedScan(start: Bytes, end: Bytes, key: Bytes)
    requires end != [] && Last(end) != 0 && PrefixAndRange(start, end).Accepted?
    ensures Selected(PrefixAndRange(start, end), key) <==>
            Prefix(key) == Prefix(start) && AtMost(start, key) && Less(key, end)
  {
    if Prefix(key) == Prefix(start) {
      SamePrefixOrder(start, key);
      if Prefix(end) == Prefix(start) {
        SamePrefixOrder(key, end);
        PlainEnd(start, end);
      } else {
        var q := ShardEndsWithDigit(start, end);
        SplitJoins(key);
        ShardBelowZeroDigit(q, Suffix(key));
      }
    }
  }

  lemma {:induction false} PlainEnd(start: Bytes, end: Bytes)
    requires end != [] && Last(end) != 0 && Prefix(end) == Prefix(start)
    ensures PrefixAndRange(start, end) == Accepted(Prefix(start), Suffix(start), Excluded(Suffix(end)))
  {
    if Suffix(end) != [] { assert Last(Suffix(end)) == Last(end); }
  }

  /** No end: exactly the start key. */
  lemma {:induction false} SingleKeyScan(start: Bytes, key: Bytes)
    ensures Selected(PrefixAndRange(start, []), key) <==> key == start
  {
    if Prefix(key) == Prefix(start) {
      SamePrefixOrder(start, key);
      SamePrefixOrder(key, start);
      LessIrreflexive(start);
      if Less(start, key) && Less(key, start) { LessTransitive(start, key, start); }
    }
  }

  /** The end is the zero byte, or start with a zero byte added: every key of the shard from
      start on, which is more than the byte range [start, end). */
  lemma {:induction false} OpenEndedScan(start: Bytes, end: Bytes, key: Bytes)
    requires end == [0] || (end == start + [0] && Prefix(end) == Prefix(start))
    ensures Selected(PrefixAndRange(start, end), key) <==> Prefix(key) == Prefix(start) && AtMost(start, key)
  {
    OpenEnd(start, end);
    if Prefix(key) == Prefix(start) { SamePrefixOrder(start, key); }
  }

  lemma {:induction false} OpenEnd(start: Bytes, end: Bytes)
    requires end == [0] || (end == start + [0] && Prefix(end) == Prefix(start))
    ensures PrefixAndRange(start, end) == Accepted(Prefix(start), Suffix(start), Unbounded)
  {
    if end != [0] { assert Suffix(end) == Suffix(start) + [0]; }
  }

  /** Outside "/registry/" there is one shard, so a plain range is the flat one among such keys. */
  lemma {:induction false} OutsideRange(start: Bytes, end: Bytes, key: Bytes)
    requires !(REGISTRY <= start) && !(REGISTRY <= end) && end != [] && Last(end) != 0
    ensures PrefixAndRange(start, end).Accepted?
    ensures Selected(PrefixAndRange(start, end), key) <==>
            !(REGISTRY <= key) && AtMost(start, key) && Less(key, end)
  {
    PrefixOutside(start);
    PrefixOutside(end);
    NoPrefixIff(key);
    RejectedIff(start, end);
    ShardedScan(start, end, key);
  }

  // ---------------------------------------------------------------- when one shard is enough

  /** "/registry/X/" where X has no dot, or "/registry/X/Y/" where X has one. */
  predicate WholePrefix(p: Bytes) {
    && REGISTRY <= p
    && var ends := SlashEnds(p);
       |ends| == (if DOT in Resource(p) then 4 else 3) && Last(ends) == |p|
  }

  lemma {:induction false} SlashEndsOfLonger(p: Bytes, key: Bytes, i: nat)
    requires p <= key && i <= |p|
    ensures SlashEndsFrom(p, i) <= SlashEndsFrom(key, i)
    decreases |p| - i
  {
    if i < |p| { SlashEndsOfLonger(p, key, i + 1); }
  }

  lemma {:induction false} WholePrefixIsPrefix(p: Bytes, key: Bytes)
    requires WholePrefix(p) && p <= key
    ensures Prefix(key) == p
  {
    SlashEndsOfLonger(p, key, 0);
    RegistryEnds(p);
    RegistryEnds(key);
    var ends := SlashEnds(key);
    assert ends[2] == SlashEnds(p)[2];
    assert Resource(key) == Resource(p);
  }

  /** For the shards that Kubernetes uses, the scan of one shard is the flat scan of the whole
      key space. */
  lemma {:induction false} FlatScan(start: Bytes, end: Bytes, key: Bytes)
    requires WholePrefix(Prefix(start))
    requires end != [] && Last(end) != 0 && PrefixAndRange(start, end).Accepted?
    ensures Selected(PrefixAndRange(start, end), key) <==> AtMost(start, key) && Less(key, end)
  {
    ShardedScan(start, end, key);
    if AtMost(start, key) && Less(key, end) {
      var p := Prefix(start);
      SplitJoins(start);
      if Prefix(end) == p {
        SplitJoins(end);
        Sandwich(p, Suffix(start), Suffix(end), key);
      } else {
        var q := ShardEndsWithDigit(start, end);
        SandwichNext(q, SLASH, Suffix(start), key);
      }
      WholePrefixIsPrefix(p, key);
    }
  }
}
