/** Serialising and reading back, and what reading leaves in the unknown fields. */
module RoundTrip {
  import opened Bytes
  import opened Varint
  import opened Wire
  import opened HeaderRecords
  import opened MergeLaws
  import opened Concatenation

  // ---------------------------------------------------------------- one record

  /** Records that the serialiser writes one by one. */
  predicate Writable(r: Record) {
    match r
    case Scalar(k, _) => IsScalar(k)
    case Repeated(k, vs) => IsRepeated(k) && |vs| == 1
    case Unknown(f) => CanonicalUnknown(f)
  }

  function RecordBytes(r: Record): seq<byte>
    requires Writable(r)
  {
    match r
    case Scalar(k, v) => VarintBytes(MakeTag(k, VARINT)) + ScalarValueBytes(k, ValueOf(k, v))
    case Repeated(k, vs) => VarintBytes(MakeTag(k, VARINT)) + VarintBytes(vs[0])
    case Unknown(f) => FieldBytes(f)
  }

  lemma TaggedStep(tag: uint32, payload: seq<byte>, rest: seq<byte>, r: Record)
    requires tag > 0
    requires ReadPayload(payload + rest, tag) == Step(r, rest, false)
    ensures NextStep(VarintBytes(tag) + payload + rest) == Step(r, rest, false)
  {
    ConcatAssoc(VarintBytes(tag), payload, rest);
    TagRoundTrip(tag, payload + rest);
    StepFromTag(VarintBytes(tag) + (payload + rest), tag, payload + rest);
  }

  lemma ScalarPayload(k: nat, v: uint32, rest: seq<byte>)
    requires IsScalar(k)
    ensures ReadVarint32(ScalarValueBytes(k, ValueOf(k, v)) + rest) == Varint(v, rest)
  {
    if k <= 2 { RoundTripInt32(ToInt32(v), rest); } else { RoundTrip32(v, rest); }
  }

  /** A written record is read back as itself, whatever follows. */
  lemma RecordRoundTrip(r: Record, rest: seq<byte>)
    requires Writable(r)
    ensures NextStep(RecordBytes(r) + rest) == Step(r, rest, false)
  {
    match r
    case Scalar(k, v) =>
      ScalarPayload(k, v, rest);
      TaggedStep(MakeTag(k, VARINT), ScalarValueBytes(k, ValueOf(k, v)), rest, r);
    case Repeated(k, vs) =>
      RoundTrip32(vs[0], rest);
      assert vs == [vs[0]];
      TaggedStep(MakeTag(k, VARINT), VarintBytes(vs[0]), rest, r);
    case Unknown(f) =>
      PayloadRoundTrip(f, rest, RECURSION_LIMIT);
      TaggedStep(TagOf(f), PayloadBytes(f), rest, r);
  }

  // ---------------------------------------------------------------- many records

  predicate AllWritable(rs: seq<Record>) { forall i :: 0 <= i < |rs| ==> Writable(rs[i]) }

  function RecordsBytes(rs: seq<Record>): seq<byte>
    requires AllWritable(rs)
  {
    if rs == [] then [] else RecordBytes(rs[0]) + RecordsBytes(rs[1..])
  }

  lemma {:induction false} RecordsBytesAppend(a: seq<Record>, b: seq<Record>)
    requires AllWritable(a) && AllWritable(b)
    ensures RecordsBytes(a + b) == RecordsBytes(a) + RecordsBytes(b)
  {
    if a == [] {
      assert a + b == b;
    } else {
      assert (a + b)[0] == a[0] && (a + b)[1..] == a[1..] + b;
      RecordsBytesAppend(a[1..], b);
      ConcatAssoc(RecordBytes(a[0]), RecordsBytes(a[1..]), RecordsBytes(b));
    }
  }

  lemma {:induction false} RecordsRoundTrip(rs: seq<Record>)
    requires AllWritable(rs)
    ensures ScanAll(RecordsBytes(rs)) == Scan(rs, Eof) && !Clamped(RecordsBytes(rs))
  {
    if rs == [] {
    } else {
      var b, rest := RecordBytes(rs[0]), RecordsBytes(rs[1..]);
      RecordRoundTrip(rs[0], rest);
      ScanCons(b + rest, rs[0], rest, false);
      RecordsRoundTrip(rs[1..]);
      assert [rs[0]] + rs[1..] == rs;
    }
  }

  // ---------------------------------------------------------------- the records of a message

  function WireValue(k: nat, v: int): uint32
    requires InRange(k, v)
  {
    if v < 0 then v + TWO_32 else v
  }

  function ScalarRecord(m: Msg, k: nat): (rs: seq<Record>)
    requires k in m.scalars ==> InRange(k, m.scalars[k])
  {
    if k in m.scalars then [Scalar(k, WireValue(k, m.scalars[k]))] else []
  }

  function RepeatedRecords(k: nat, vs: seq<uint32>): (rs: seq<Record>)
    ensures |rs| == |vs| && forall i :: 0 <= i < |vs| ==> rs[i] == Repeated(k, [vs[i]])
  {
    if vs == [] then [] else [Repeated(k, [vs[0]])] + RepeatedRecords(k, vs[1..])
  }

  lemma ScalarSection(m: Msg, k: nat)
    requires IsScalar(k) && (k in m.scalars ==> InRange(k, m.scalars[k]))
    ensures var rs := ScalarRecord(m, k); AllWritable(rs) && RecordsBytes(rs) == ScalarBytes(m, k)
  {
    if k in m.scalars {
      var r := ScalarRecord(m, k)[0];
      assert RecordsBytes([r]) == RecordBytes(r) + [];
    }
  }

  lemma {:induction false} RepeatedSection(k: nat, vs: seq<uint32>)
    requires IsRepeated(k)
    ensures var rs := RepeatedRecords(k, vs); AllWritable(rs) && RecordsBytes(rs) == RepeatedBytes(k, vs)
  {
    if vs == [] {
    } else {
      RepeatedSection(k, vs[1..]);
      assert RepeatedRecords(k, vs)[1..] == RepeatedRecords(k, vs[1..]);
    }
  }

  lemma {:induction false} UnknownSection(fs: seq<UnknownField>)
    requires forall i :: 0 <= i < |fs| ==> CanonicalUnknown(fs[i])
    ensures var rs := UnknownRecords(fs); AllWritable(rs) && RecordsBytes(rs) == FieldsBytes(fs)
  {
    if fs == [] {
    } else {
      UnknownSection(fs[1..]);
      assert UnknownRecords(fs)[1..] == UnknownRecords(fs[1..]);
    }
  }

  /** The records of a message in the order in which they are written. */
  function RecordsOf(m: Msg): seq<Record>
    requires WellTyped(m)
  {
    ScalarRecord(m, 1) + ScalarRecord(m, 2) + ScalarRecord(m, 3) +
    ScalarRecord(m, 4) + ScalarRecord(m, 5) + ScalarRecord(m, 6) +
    RepeatedRecords(7, m.remoteGuids) + RepeatedRecords(8, m.recvPlayerIDs) +
    ScalarRecord(m, 9) + ScalarRecord(m, 10) + UnknownRecords(m.unknown)
  }

  /** `bytes` is the written form of `rs`. */
  predicate Writes(rs: seq<Record>, bytes: seq<byte>) { AllWritable(rs) && RecordsBytes(rs) == bytes }

  lemma Extend(rs: seq<Record>, bytes: seq<byte>, more: seq<Record>, moreBytes: seq<byte>)
    requires Writes(rs, bytes) && Writes(more, moreBytes)
    ensures Writes(rs + more, bytes + moreBytes)
  {
    RecordsBytesAppend(rs, more);
  }

  lemma ExtendScalar(rs: seq<Record>, bytes: seq<byte>, m: Msg, k: nat)
    requires Writes(rs, bytes) && WellTyped(m) && IsScalar(k)
    ensures Writes(rs + ScalarRecord(m, k), bytes + ScalarBytes(m, k))
  {
    ScalarSection(m, k);
    Extend(rs, bytes, ScalarRecord(m, k), ScalarBytes(m, k));
  }

  /** The serialised message is its records, one after the other. */
  lemma SerializeIsRecords(m: Msg)
    requires WellFormed(m)
    ensures Writes(RecordsOf(m), Serialize(m))
  {
    var r1, b1 := ScalarRecord(m, 1), ScalarBytes(m, 1);
    ScalarSection(m, 1);
    ExtendScalar(r1, b1, m, 2);
    var r2, b2 := r1 + ScalarRecord(m, 2), b1 + ScalarBytes(m, 2);
    ExtendScalar(r2, b2, m, 3);
    var r3, b3 := r2 + ScalarRecord(m, 3), b2 + ScalarBytes(m, 3);
    ExtendScalar(r3, b3, m, 4);
    var r4, b4 := r3 + ScalarRecord(m, 4), b3 + ScalarBytes(m, 4);
    ExtendScalar(r4, b4, m, 5);
    var r5, b5 := r4 + ScalarRecord(m, 5), b4 + ScalarBytes(m, 5);
    ExtendScalar(r5, b5, m, 6);
    var r6, b6 := r5 + ScalarRecord(m, 6), b5 + ScalarBytes(m, 6);
    RepeatedSection(7, m.remoteGuids);
    Extend(r6, b6, RepeatedRecords(7, m.remoteGuids), RepeatedBytes(7, m.remoteGuids));
    var r7, b7 := r6 + RepeatedRecords(7, m.remoteGuids), b6 + RepeatedBytes(7, m.remoteGuids);
    RepeatedSection(8, m.recvPlayerIDs);
    Extend(r7, b7, RepeatedRecords(8, m.recvPlayerIDs), RepeatedBytes(8, m.recvPlayerIDs));
    var r8, b8 := r7 + RepeatedRecords(8, m.recvPlayerIDs), b7 + RepeatedBytes(8, m.recvPlayerIDs);
    ExtendScalar(r8, b8, m, 9);
    var r9, b9 := r8 + ScalarRecord(m, 9), b8 + ScalarBytes(m, 9);
    ExtendScalar(r9, b9, m, 10);
    UnknownSection(m.unknown);
    Extend(r9 + ScalarRecord(m, 10), b9 + ScalarBytes(m, 10), UnknownRecords(m.unknown), FieldsBytes(m.unknown));
  }

  // ---------------------------------------------------------------- the records rebuild the message

  lemma {:induction false} ApplyRepeated(x: Msg, k: nat, vs: seq<uint32>)
    requires IsRepeated(k)
    ensures ApplyAll(x, RepeatedRecords(k, vs)) == Apply(x, Repeated(k, vs))
    decreases |vs|
  {
    if vs == [] {
      assert x.remoteGuids + [] == x.remoteGuids && x.recvPlayerIDs + [] == x.recvPlayerIDs;
    } else {
      assert RepeatedRecords(k, vs)[1..] == RepeatedRecords(k, vs[1..]);
      ApplyRepeated(Apply(x, Repeated(k, [vs[0]])), k, vs[1..]);
      ConcatAssoc(if k == 7 then x.remoteGuids else x.recvPlayerIDs, [vs[0]], vs[1..]);
      assert [vs[0]] + vs[1..] == vs;
    }
  }

  lemma {:induction false} ApplyUnknown(x: Msg, fs: seq<UnknownField>)
    ensures ApplyAll(x, UnknownRecords(fs)) == x.(unknown := x.unknown + fs)
    decreases |fs|
  {
    if fs == [] {
      assert x.unknown + [] == x.unknown;
    } else {
      assert UnknownRecords(fs)[1..] == UnknownRecords(fs[1..]);
      ApplyUnknown(Apply(x, Unknown(fs[0])), fs[1..]);
      ConcatAssoc(x.unknown, [fs[0]], fs[1..]);
      assert [fs[0]] + fs[1..] == fs;
    }
  }

  /** The scalars with numbers up to `n`. */
  function UpTo(m: Msg, n: nat): map<nat, int> {
    map k | k in m.scalars && k <= n :: m.scalars[k]
  }

  /** Applying `rs` to the empty message gives this. */
  predicate Builds(rs: seq<Record>, m: Msg) { ApplyAll(EMPTY, rs) == m }

  lemma BuildScalar(rs: seq<Record>, x: Msg, m: Msg, k: nat)
    requires WellTyped(m) && IsScalar(k) && Builds(rs, x)
    requires x.scalars == UpTo(m, if k == 9 then 6 else k - 1)
    ensures Builds(rs + ScalarRecord(m, k), x.(scalars := UpTo(m, k)))
  {
    ApplyAllAppend(EMPTY, rs, ScalarRecord(m, k));
    if k in m.scalars {
      var r := Scalar(k, WireValue(k, m.scalars[k]));
      assert ApplyAll(x, [r]) == Apply(x, r) by { assert [r][1..] == []; }
      assert x.scalars[k := m.scalars[k]] == UpTo(m, k);
    } else {
      assert UpTo(m, k) == x.scalars;
    }
  }

  lemma BuildRepeated(rs: seq<Record>, x: Msg, k: nat, vs: seq<uint32>)
    requires IsRepeated(k) && Builds(rs, x)
    ensures Builds(rs + RepeatedRecords(k, vs), Apply(x, Repeated(k, vs)))
  {
    ApplyAllAppend(EMPTY, rs, RepeatedRecords(k, vs));
    ApplyRepeated(x, k, vs);
  }

  lemma BuildFirstSix(m: Msg)
    requires WellTyped(m)
    ensures Builds(ScalarRecord(m, 1) + ScalarRecord(m, 2) + ScalarRecord(m, 3) +
                   ScalarRecord(m, 4) + ScalarRecord(m, 5) + ScalarRecord(m, 6),
                   EMPTY.(scalars := UpTo(m, 6)))
  {
    assert UpTo(m, 0) == map[];
    BuildScalar([], EMPTY, m, 1);
    var r1 := ScalarRecord(m, 1);
    assert [] + r1 == r1;
    BuildScalar(r1, EMPTY.(scalars := UpTo(m, 1)), m, 2);
    var r2 := r1 + ScalarRecord(m, 2);
    BuildScalar(r2, EMPTY.(scalars := UpTo(m, 2)), m, 3);
    var r3 := r2 + ScalarRecord(m, 3);
    BuildScalar(r3, EMPTY.(scalars := UpTo(m, 3)), m, 4);
    var r4 := r3 + ScalarRecord(m, 4);
    BuildScalar(r4, EMPTY.(scalars := UpTo(m, 4)), m, 5);
    var r5 := r4 + ScalarRecord(m, 5);
    BuildScalar(r5, EMPTY.(scalars := UpTo(m, 5)), m, 6);
  }

  lemma RecordsRebuild(m: Msg)
    requires WellFormed(m)
    ensures Builds(RecordsOf(m), m)
  {
    var r6 := ScalarRecord(m, 1) + ScalarRecord(m, 2) + ScalarRecord(m, 3) +
              ScalarRecord(m, 4) + ScalarRecord(m, 5) + ScalarRecord(m, 6);
    var x6 := EMPTY.(scalars := UpTo(m, 6));
    BuildFirstSix(m);
    BuildRepeated(r6, x6, 7, m.remoteGuids);
    assert [] + m.remoteGuids == m.remoteGuids;
    var r7, x7 := r6 + RepeatedRecords(7, m.remoteGuids), x6.(remoteGuids := m.remoteGuids);
    BuildRepeated(r7, x7, 8, m.recvPlayerIDs);
    assert [] + m.recvPlayerIDs == m.recvPlayerIDs;
    var r8, x8 := r7 + RepeatedRecords(8, m.recvPlayerIDs), x7.(recvPlayerIDs := m.recvPlayerIDs);
    BuildScalar(r8, x8, m, 9);
    var r9 := r8 + ScalarRecord(m, 9);
    BuildScalar(r9, x8.(scalars := UpTo(m, 9)), m, 10);
    assert UpTo(m, 10) == m.scalars;
    var r10, x10 := r9 + ScalarRecord(m, 10), x8.(scalars := m.scalars);
    ApplyAllAppend(EMPTY, r10, UnknownRecords(m.unknown));
    ApplyUnknown(x10, m.unknown);
    assert [] + m.unknown == m.unknown;
  }

  // ---------------------------------------------------------------- main results

  /** Reading the serialised form of a message into a cleared message gives the message back. */
  lemma ParseSerialize(m: Msg)
    requires WellFormed(m)
    ensures Complete(Serialize(m)) && !Clamped(Serialize(m)) && Parse(Serialize(m), EMPTY) == m
  {
    SerializeIsRecords(m);
    RecordsRoundTrip(RecordsOf(m));
    RecordsRebuild(m);
  }

  /** Different messages have different serialised forms. */
  lemma SerializeInjective(m: Msg, m': Msg)
    requires WellFormed(m) && WellFormed(m') && Serialize(m) == Serialize(m')
    ensures m == m'
  {
    ParseSerialize(m);
    ParseSerialize(m');
  }

  predicate CanonicalRecord(r: Record) {
    match r
    case Scalar(k, _) => IsScalar(k)
    case Repeated(k, _) => IsRepeated(k)
    case Unknown(f) => CanonicalUnknown(f)
  }

  predicate AllCanonical(rs: seq<Record>) { forall i :: 0 <= i < |rs| ==> CanonicalRecord(rs[i]) }

  predicate StepCanonical(r: Step) {
    match r
    case Step(r, _, _) => CanonicalRecord(r)
    case Broken(partial) => AllCanonical(partial)
    case Stop(_) => true
  }

  lemma PayloadIsCanonical(s: seq<byte>, tag: uint32)
    requires tag > 0
    ensures StepCanonical(ReadPayload(s, tag))
  {
    if CaseOf(tag) == UninterpretedCase {
      SkippedIsValid(s, tag, RECURSION_LIMIT);
      var added := Wire.Added(SkipField(s, tag, RECURSION_LIMIT));
      if added != [] {
        assert !Accepted(added[0]);
      }
    }
  }

  lemma StepIsCanonical(s: seq<byte>)
    ensures StepCanonical(NextStep(s))
  {
    match ReadTag(s)
    case Tag(tag, rest) => PayloadIsCanonical(rest, tag);
    case _ =>
  }

  lemma {:induction false} ScanIsCanonical(s: seq<byte>)
    ensures AllCanonical(ScanAll(s).records)
    decreases |s|
  {
    StepIsCanonical(s);
    match NextStep(s)
    case Step(_, rest, _) => ScanIsCanonical(rest);
    case _ =>
  }

  lemma {:induction false} ApplyAllWellFormed(m: Msg, rs: seq<Record>)
    requires WellFormed(m) && AllCanonical(rs)
    ensures WellFormed(ApplyAll(m, rs))
    decreases |rs|
  {
    if rs == [] {
    } else {
      ApplyAllWellFormed(Apply(m, rs[0]), rs[1..]);
    }
  }

  /** Reading, even a read that fails part-way, never leaves among the unknown fields a record that a known
      case takes, and keeps every scalar in range. */
  lemma ParseIsWellFormed(s: seq<byte>, m: Msg)
    requires WellFormed(m)
    ensures WellFormed(Parse(s, m))
  {
    ScanIsCanonical(s);
    ApplyAllWellFormed(m, ScanAll(s).records);
  }

  /** Whatever the input, one pass through the parser and the serialiser is a normal form with the same meaning. */
  lemma SerializeAfterParse(s: seq<byte>, m: Msg)
    requires WellFormed(m)
    ensures var m' := Parse(s, m);
            && WellFormed(m')
            && Complete(Serialize(m')) && Parse(Serialize(m'), EMPTY) == m'
            && Serialize(Parse(Serialize(m'), EMPTY)) == Serialize(m')
  {
    ParseIsWellFormed(s, m);
    ParseSerialize(Parse(s, m));
  }

  // ---------------------------------------------------------------- packed and unpacked

  /** A length-delimited record of field `k` that covers exactly the payload `p`, in any spelling of its
      tag and length. */
  predicate PackedRecord(tag: seq<byte>, length: seq<byte>, p: seq<byte>, k: nat) {
    && IsRepeated(k)
    && ReadTag(tag) == Tag(MakeTag(k, LENGTH_DELIMITED), [])
    && ReadVarint32(length) == Varint(|p|, []) && |p| < TWO_31
    && ReadPacked(p).ok
  }

  lemma PackedStep(tag: seq<byte>, length: seq<byte>, p: seq<byte>, k: nat)
    requires PackedRecord(tag, length, p, k)
    ensures NextStep(tag + (length + p)) == Step(Repeated(k, ReadPacked(p).values), [], false)
  {
    var t := MakeTag(k, LENGTH_DELIMITED);
    TagPrefix(tag, length + p);
    ReadPrefix(length, p);
    assert [] + (length + p) == length + p && [] + p == p && p[..|p|] == p && p[|p|..] == [];
    PackedFieldIs(length + p, |p|, p, |p|);
    StepFromTag(tag + (length + p), t, length + p);
    assert FieldNumber(t) == k && WireType(t) == LENGTH_DELIMITED;
    PackedPayload(length + p, t);
  }

  /** A packed record can be replaced by the run of varint records with the same values, anywhere in the
      input, without changing the message or how the read ends. */
  lemma PackedIsUnpacked(x: seq<byte>, tag: seq<byte>, length: seq<byte>, p: seq<byte>, k: nat, y: seq<byte>, m: Msg)
    requires Complete(x) && !Clamped(x) && PackedRecord(tag, length, p, k)
    ensures var packed, run := tag + (length + p), RepeatedBytes(k, ReadPacked(p).values);
            && Parse(x + (packed + y), m) == Parse(x + (run + y), m)
            && ScanAll(x + (packed + y)).stop == ScanAll(x + (run + y)).stop
  {
    var packed, vs := tag + (length + p), ReadPacked(p).values;
    var run := RepeatedBytes(k, vs);
    var m' := Parse(x, m);
    ParseConcat(x, packed + y, m);
    ParseConcat(x, run + y, m);
    PackedStep(tag, length, p, k);
    Prepend(packed, y, m');
    RunIsRepeated(k, vs, y, m');
  }

  lemma RunIsRepeated(k: nat, vs: seq<uint32>, y: seq<byte>, m: Msg)
    requires IsRepeated(k)
    ensures var run := RepeatedBytes(k, vs);
            && Parse(run + y, m) == Parse(y, Apply(m, Repeated(k, vs)))
            && ScanAll(run + y).stop == ScanAll(y).stop
  {
    RepeatedSection(k, vs);
    RecordsRoundTrip(RepeatedRecords(k, vs));
    ParseConcat(RepeatedBytes(k, vs), y, m);
    ApplyRepeated(m, k, vs);
  }
}
