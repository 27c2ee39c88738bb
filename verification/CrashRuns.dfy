/** Runs of the log writers that show how a start after a crash fails to give an earlier state. */
module CrashRuns {
  import opened Common
  import opened Mvcc
  import opened StoreModel
  import opened WalCodec
  import opened WalLoad
  import opened Recovery
  import opened CrashRecovery
  import opened WalWriter

  predicate NoAppends(steps: seq<WalWriter.Step>) {
    forall i | 0 <= i < |steps| :: !steps[i].Append?
  }

  /** A worker takes the token of an appender and gets the flag of the prefix. */
  lemma {:induction false} TakeUp(s: WalWriter.State, a: nat, p: Bytes) returns (steps: seq<WalWriter.Step>)
    requires a in s.appenders && s.appenders[a] == p && s.tokens == [] && s.workers == map[]
    requires p !in s.flags && Lookup(s.queues, p) != []
    ensures ValidRun(s, steps) && NoAppends(steps)
    ensures var t := Exec(s, steps);
            t.queues == s.queues && t.files == s.files && 0 in t.workers && t.workers[0] == Batching(p, [])
  {
    steps := [];
    Extend(s, steps, SendToken(a));
    steps := steps + [SendToken(a)];
    Extend(s, steps, TakeToken(0));
    steps := steps + [TakeToken(0)];
    Extend(s, steps, CheckWork(0));
    steps := steps + [CheckWork(0)];
    Extend(s, steps, TryLock(0));
    steps := steps + [TryLock(0)];
  }

  /** It takes one record off the queue and writes some bytes of it. */
  lemma {:induction false} WriteSomeBytes(s: WalWriter.State, p: Bytes, r: Record, n: nat)
    returns (steps: seq<WalWriter.Step>)
    requires 0 in s.workers && s.workers[0] == Batching(p, []) && Lookup(s.queues, p) == [r] && 1 <= n <= |Encode(r)|
    ensures ValidRun(s, steps) && NoAppends(steps)
    ensures Exec(s, steps).files == s.files[p := Lookup(s.files, p) + Encode(r)[..n]]
  {
    steps := [];
    Extend(s, steps, TakeRecord(0));
    steps := steps + [TakeRecord(0)];
    assert [] + Encode(r) == Encode(r);
    Extend(s, steps, EndBatch(0));
    steps := steps + [EndBatch(0)];
    Extend(s, steps, WriteSome(0, n));
    steps := steps + [WriteSome(0, n)];
  }

  lemma {:induction false} WriteOut(s: WalWriter.State, a: nat, p: Bytes, r: Record, n: nat)
    returns (steps: seq<WalWriter.Step>)
    requires a in s.appenders && s.appenders[a] == p && s.tokens == [] && s.workers == map[]
    requires p !in s.flags && Lookup(s.queues, p) == [r] && 1 <= n <= |Encode(r)|
    ensures ValidRun(s, steps) && NoAppends(steps)
    ensures Exec(s, steps).files == s.files[p := Lookup(s.files, p) + Encode(r)[..n]]
  {
    var first := TakeUp(s, a, p);
    var second := WriteSomeBytes(Exec(s, first), p, r, n);
    RunConcat(s, first, second);
    steps := first + second;
  }

  /** Steps without an append add nothing to the record of appends. */
  lemma {:induction false} AppendsThen(first: seq<WalWriter.Step>, rest: seq<WalWriter.Step>)
    requires NoAppends(rest)
    ensures Appends(first + rest) == Appends(first)
    decreases |first| + |rest|
  {
    if first != [] {
      assert (first + rest)[1..] == first[1..] + rest;
      AppendsThen(first[1..], rest);
    } else if rest != [] {
      assert first + rest == rest && !rest[0].Append?;
      AppendsThen([], rest[1..]);
      assert [] + rest[1..] == rest[1..];
    }
  }

  /** What the loader finds in the files of these names. */
  ghost function FilesOf(steps: seq<WalWriter.Step>, names: seq<Bytes>): (files: seq<Bytes>)
    requires ValidRun(INIT, steps)
    ensures FilesAt(files, names, Exec(INIT, steps))
  {
    var on := Exec(INIT, steps).files;
    seq(|names|, f requires 0 <= f < |names| => Lookup(on, names[f]))
  }

  lemma {:induction false} SingleRecord(r: Record, n: nat)
    requires n <= |Encode(r)|
    ensures WholeRecords([r], n) == if n < |Encode(r)| then 0 else 1
    ensures |EncodeAll(Take([r], WholeRecords([r], n)))| == if n < |Encode(r)| then 0 else n
  {
    assert [r][1..] == [] && EncodeAll([r]) == Encode(r) + [] == Encode(r);
    if n == |Encode(r)| {
      assert WholeRecords([], 0) == 0 && Take([r], 1) == [r];
    } else {
      assert Take([r], 0) == [];
    }
  }

  /** A file with a single record, of which `n` bytes are there. */
  lemma {:induction false} SingleRecordFile(h: History, steps: seq<WalWriter.Step>, nameOf: Bytes -> Bytes,
                                            name: Bytes, r: Record, n: nat)
    requires |h| < INT64_END && ModsMatch(h) && ValidRun(INIT, steps) && InFile(Records(h), nameOf, name) == [r]
    requires |Lookup(Exec(INIT, steps).files, name)| == n <= |Encode(r)|
    ensures CutsOf(h, steps, nameOf)(name) == if n < |Encode(r)| then 0 else 1
    ensures Torn(h, steps, nameOf, name) <==> HEADER <= n < |Encode(r)|
  {
    SingleRecord(r, n);
  }

  // ---------------------------------------------------------------- a torn file

  lemma {:induction false} PartlyWritten(h: History, nameOf: Bytes -> Bytes, n: nat)
    returns (steps: seq<WalWriter.Step>)
    requires Loggable(h) && |h| == 1 && 1 <= n <= |Encode(RecordOf(h[0]))|
    ensures ValidRun(INIT, steps) && NamesRight(steps, nameOf) && Appends(steps) == Records(h)
    ensures Lookup(Exec(INIT, steps).files, nameOf(h[0].key)) == Encode(RecordOf(h[0]))[..n]
  {
    var p, r := nameOf(h[0].key), RecordOf(h[0]);
    var start: WalWriter.Step := Append(0, p, r);
    Extend(INIT, [], start);
    assert [] + [start] == [start];
    var rest := WriteOut(Exec(INIT, [start]), 0, p, r, n);
    RunConcat(INIT, [start], rest);
    steps := [start] + rest;
    AppendsThen([start], rest);
    OneAppend(start);
    OneInFile(h, nameOf);
  }

  /** One write, one file, and a stop after `n` bytes that lie beyond the header: nothing was lost
      from before a surviving record, and yet start-up fails. */
  lemma {:induction false} TornRun(h: History, nameOf: Bytes -> Bytes, n: nat) returns (steps: seq<WalWriter.Step>)
    requires Loggable(h) && |h| == 1 && HEADER <= n < |Encode(RecordOf(h[0]))|
    ensures ValidRun(INIT, steps) && NamesRight(steps, nameOf) && Appends(steps) == Records(h)
    ensures FilesAgree(h, nameOf, CutsOf(h, steps, nameOf))
    ensures forall s :: !StartsUp(FilesOf(steps, [nameOf(h[0].key)]), s)
  {
    var p := nameOf(h[0].key);
    steps := PartlyWritten(h, nameOf, n);
    OneInFile(h, nameOf);
    SingleRecordFile(h, steps, nameOf, p, RecordOf(h[0]), n);
    CleanIff(h, steps, nameOf, [p], FilesOf(steps, [p]));
    assert Torn(h, steps, nameOf, [p][0]);
  }

  lemma {:induction false} OneAppend(step: WalWriter.Step)
    requires step.Append?
    ensures Appends([step]) == [step.record]
  {
    assert [step][1..] == [] && [step.record] + [] == [step.record];
  }

  lemma {:induction false} OneInFile(h: History, nameOf: Bytes -> Bytes)
    requires Loggable(h) && |h| == 1
    ensures Records(h) == [RecordOf(h[0])] && InFile(Records(h), nameOf, nameOf(h[0].key)) == [RecordOf(h[0])]
  {
    var r := RecordOf(h[0]);
    assert Records(h) == [r] && DropLast([r]) == [];
    assert InFile([], nameOf, nameOf(h[0].key)) == [];
  }

  // ---------------------------------------------------------------- a gap

  lemma {:induction false} GapSurvivors(h: History, nameOf: Bytes -> Bytes, cut: Bytes -> nat)
    requires |h| == 2 && ModsMatch(h) && nameOf(h[0].key) != nameOf(h[1].key)
    requires cut(nameOf(h[0].key)) == 0 && cut(nameOf(h[1].key)) == 1
    ensures Survivors(h, nameOf, cut) == [RecordOf(h[1])] && !FilesAgree(h, nameOf, cut)
    ensures LastKept(h, nameOf, cut, h[1].key) == 2
  {
    var one := DropLast(h);
    assert one == [h[0]] == h[..1] && DropLast(one) == [] == h[..0];
    assert FilePos([], nameOf, nameOf(h[0].key)) == 0;
    assert FilePos(one, nameOf, nameOf(h[1].key)) == 0;
    assert Survivors(one, nameOf, cut) == [];
    assert !Kept(h, nameOf, cut, 0) && Kept(h, nameOf, cut, 1);
  }

  lemma {:induction false} TwoFiles(h: History, nameOf: Bytes -> Bytes)
    requires Loggable(h) && |h| == 2 && nameOf(h[0].key) != nameOf(h[1].key)
    ensures Records(h) == [RecordOf(h[0]), RecordOf(h[1])]
    ensures InFile(Records(h), nameOf, nameOf(h[0].key)) == [RecordOf(h[0])]
    ensures InFile(Records(h), nameOf, nameOf(h[1].key)) == [RecordOf(h[1])]
  {
    var a, b := RecordOf(h[0]), RecordOf(h[1]);
    assert Records(h) == [a, b] && DropLast([a, b]) == [a] && DropLast([a]) == [];
    forall name ensures InFile([a], nameOf, name) == if nameOf(a.key) == name then [a] else [] {
      assert InFile([], nameOf, name) == [];
    }
  }

  /** Two writes to two files, and a stop when only the second is written out. */
  lemma {:induction false} SecondFileOnly(h: History, nameOf: Bytes -> Bytes) returns (steps: seq<WalWriter.Step>)
    requires Loggable(h) && |h| == 2 && nameOf(h[0].key) != nameOf(h[1].key)
    ensures ValidRun(INIT, steps) && NamesRight(steps, nameOf) && Appends(steps) == Records(h)
    ensures var files := Exec(INIT, steps).files;
            Lookup(files, nameOf(h[0].key)) == [] && Lookup(files, nameOf(h[1].key)) == Encode(RecordOf(h[1]))
  {
    steps := WriteSecond(nameOf(h[0].key), RecordOf(h[0]), nameOf(h[1].key), RecordOf(h[1]));
    TwoFiles(h, nameOf);
  }

  ghost predicate AppendsOnly(steps: seq<WalWriter.Step>, p: Bytes, a: Record, q: Bytes, b: Record) {
    forall i | 0 <= i < |steps| && steps[i].Append? ::
      (steps[i].prefix == p && steps[i].record == a) || (steps[i].prefix == q && steps[i].record == b)
  }

  lemma {:induction false} WriteSecond(p: Bytes, a: Record, q: Bytes, b: Record) returns (steps: seq<WalWriter.Step>)
    requires p != q
    ensures ValidRun(INIT, steps) && Appends(steps) == [a, b] && AppendsOnly(steps, p, a, q, b)
    ensures Lookup(Exec(INIT, steps).files, p) == [] && Lookup(Exec(INIT, steps).files, q) == Encode(b)
  {
    var both := TwoAppends(p, a, q, b);
    var rest := WriteOut(Exec(INIT, both), 1, q, b, |Encode(b)|);
    steps := both + rest;
    GoOn(both, rest, p, a, q, b);
    WholeSlice(Encode(b));
  }

  lemma {:induction false} GoOn(first: seq<WalWriter.Step>, rest: seq<WalWriter.Step>,
                                p: Bytes, a: Record, q: Bytes, b: Record)
    requires ValidRun(INIT, first) && ValidRun(Exec(INIT, first), rest)
    requires AppendsOnly(first, p, a, q, b) && NoAppends(rest)
    ensures ValidRun(INIT, first + rest) && Exec(INIT, first + rest) == Exec(Exec(INIT, first), rest)
    ensures AppendsOnly(first + rest, p, a, q, b) && Appends(first + rest) == Appends(first)
  {
    RunConcat(INIT, first, rest);
    AppendsThen(first, rest);
  }

  lemma {:induction false} WholeSlice(bytes: Bytes)
    ensures bytes[..|bytes|] == bytes
  {
  }

  lemma {:induction false} TwoAppends(p: Bytes, a: Record, q: Bytes, b: Record) returns (steps: seq<WalWriter.Step>)
    requires p != q
    ensures ValidRun(INIT, steps) && Appends(steps) == [a, b] && AppendsOnly(steps, p, a, q, b)
    ensures var s := Exec(INIT, steps);
            && s.appenders == map[0 := p, 1 := q] && s.tokens == [] && s.workers == map[] && s.flags == {}
            && Lookup(s.queues, q) == [b] && s.files == map[]
  {
    var first: WalWriter.Step := Append(0, p, a);
    var second: WalWriter.Step := Append(1, q, b);
    Extend(INIT, [], first);
    Extend(INIT, [] + [first], second);
    assert [] + [first] + [second] == [first, second];
    steps := [first, second];
    OneAppend(second);
    assert steps[1..] == [second];
  }

  function TwoNames(h: History, nameOf: Bytes -> Bytes): seq<Bytes>
    requires |h| == 2
  {
    [nameOf(h[0].key), nameOf(h[1].key)]
  }

  lemma {:induction false} TwoNamesOk(h: History, nameOf: Bytes -> Bytes)
    requires |h| == 2 && nameOf(h[0].key) != nameOf(h[1].key)
    ensures Distinct(TwoNames(h, nameOf)) && forall w | w in h :: nameOf(w.key) in TwoNames(h, nameOf)
  {
    forall w | w in h ensures nameOf(w.key) in TwoNames(h, nameOf) {
      assert w == h[0] || w == h[1];
      assert TwoNames(h, nameOf)[0] == nameOf(h[0].key) && TwoNames(h, nameOf)[1] == nameOf(h[1].key);
    }
  }

  lemma {:induction false} SecondFileCut(h: History, nameOf: Bytes -> Bytes, steps: seq<WalWriter.Step>)
    requires Loggable(h) && |h| == 2 && nameOf(h[0].key) != nameOf(h[1].key) && ValidRun(INIT, steps)
    requires var files := Exec(INIT, steps).files;
             Lookup(files, nameOf(h[0].key)) == [] && Lookup(files, nameOf(h[1].key)) == Encode(RecordOf(h[1]))
    ensures NoneTorn(h, steps, nameOf, TwoNames(h, nameOf))
    ensures CutsOf(h, steps, nameOf)(nameOf(h[0].key)) == 0 && CutsOf(h, steps, nameOf)(nameOf(h[1].key)) == 1
  {
    FirstFileEmpty(h, nameOf, steps);
    SecondFileWhole(h, nameOf, steps);
    NeitherTorn(h, steps, nameOf, nameOf(h[0].key), nameOf(h[1].key));
  }

  lemma {:induction false} FirstFileEmpty(h: History, nameOf: Bytes -> Bytes, steps: seq<WalWriter.Step>)
    requires Loggable(h) && |h| == 2 && nameOf(h[0].key) != nameOf(h[1].key) && ValidRun(INIT, steps)
    requires Lookup(Exec(INIT, steps).files, nameOf(h[0].key)) == []
    ensures CutsOf(h, steps, nameOf)(nameOf(h[0].key)) == 0 && !Torn(h, steps, nameOf, nameOf(h[0].key))
  {
    TwoFiles(h, nameOf);
    SingleRecordFile(h, steps, nameOf, nameOf(h[0].key), RecordOf(h[0]), 0);
  }

  lemma {:induction false} SecondFileWhole(h: History, nameOf: Bytes -> Bytes, steps: seq<WalWriter.Step>)
    requires Loggable(h) && |h| == 2 && nameOf(h[0].key) != nameOf(h[1].key) && ValidRun(INIT, steps)
    requires Lookup(Exec(INIT, steps).files, nameOf(h[1].key)) == Encode(RecordOf(h[1]))
    ensures CutsOf(h, steps, nameOf)(nameOf(h[1].key)) == 1 && !Torn(h, steps, nameOf, nameOf(h[1].key))
  {
    TwoFiles(h, nameOf);
    SingleRecordFile(h, steps, nameOf, nameOf(h[1].key), RecordOf(h[1]), |Encode(RecordOf(h[1]))|);
  }

  lemma {:induction false} NeitherTorn(h: History, steps: seq<WalWriter.Step>, nameOf: Bytes -> Bytes,
                                       a: Bytes, b: Bytes)
    requires |h| < INT64_END && ModsMatch(h) && ValidRun(INIT, steps)
    requires !Torn(h, steps, nameOf, a) && !Torn(h, steps, nameOf, b)
    ensures NoneTorn(h, steps, nameOf, [a, b])
  {
    forall name | name in [a, b] ensures !Torn(h, steps, nameOf, name) { OnlyTwo(a, b, name); }
  }

  lemma {:induction false} OnlyTwo(a: Bytes, b: Bytes, name: Bytes)
    requires name in [a, b]
    ensures name == a || name == b
  {
  }

  /** The least case of a gap. The second write comes back under the revision of the first, in a
      store that is not as it was at any moment. */
  lemma {:induction false} GapRenumbers(h: History, nameOf: Bytes -> Bytes) returns (steps: seq<WalWriter.Step>)
    requires Loggable(h) && |h| == 2 && nameOf(h[0].key) != nameOf(h[1].key)
    ensures ValidRun(INIT, steps) && NamesRight(steps, nameOf) && Appends(steps) == Records(h)
    ensures var files := FilesOf(steps, TwoNames(h, nameOf));
            && (exists s :: StartsUp(files, s)) && !GivesEarlierState(files, h)
            && (forall s | StartsUp(files, s) ::
                  s.log.End() == 1 && SameLife(ItemOf(s, h[1].key).latest, h[1].value))
  {
    steps := SecondFileOnly(h, nameOf);
    SecondFileCut(h, nameOf, steps);
    GapComesBack(h, nameOf, steps);
  }

  lemma {:induction false} GapComesBack(h: History, nameOf: Bytes -> Bytes, steps: seq<WalWriter.Step>)
    requires Loggable(h) && |h| == 2 && nameOf(h[0].key) != nameOf(h[1].key)
    requires ValidRun(INIT, steps) && NamesRight(steps, nameOf) && Appends(steps) == Records(h)
    requires NoneTorn(h, steps, nameOf, TwoNames(h, nameOf))
    requires CutsOf(h, steps, nameOf)(nameOf(h[0].key)) == 0 && CutsOf(h, steps, nameOf)(nameOf(h[1].key)) == 1
    ensures var files := FilesOf(steps, TwoNames(h, nameOf));
            && (exists s :: StartsUp(files, s)) && !GivesEarlierState(files, h)
            && (forall s | StartsUp(files, s) ::
                  s.log.End() == 1 && SameLife(ItemOf(s, h[1].key).latest, h[1].value))
  {
    var cut, files := CutsOf(h, steps, nameOf), FilesOf(steps, TwoNames(h, nameOf));
    GapSurvivors(h, nameOf, cut);
    TwoNamesOk(h, nameOf);
    CrashRecoveryIsExact(h, steps, nameOf, TwoNames(h, nameOf), files, h[1].key);
    forall s | StartsUp(files, s)
      ensures s.log.End() == 1 && SameLife(ItemOf(s, h[1].key).latest, h[1].value)
    {
      assert s.log.End() == |Survivors(h, nameOf, cut)| && StoreComesBack(s, h, nameOf, cut, h[1].key);
    }
  }
}
