/** Reading a concatenation: when it is the same as reading the parts and merging. */
module Concatenation {
  import opened Bytes
  import opened Varint
  import opened Wire
  import opened HeaderRecords
  import opened MergeLaws
  import opened Reordering

  lemma {:induction false} PackedAppend(p: seq<byte>, q: seq<byte>)
    requires ReadPacked(p).ok
    ensures ReadPacked(p + q) == Packed(ReadPacked(p).values + ReadPacked(q).values, ReadPacked(q).ok)
    decreases |p|
  {
    if p == [] {
      assert p + q == q;
    } else {
      ReadPrefix(p, q);
      var Varint(v, rest) := ReadVarint32(p);
      PackedAppend(rest, q);
      PackedCons(p + q, v, rest + q);
      ConcatAssoc([v], ReadPacked(rest).values, ReadPacked(q).values);
    }
  }

  lemma PackedCons(s: seq<byte>, v: uint32, rest: seq<byte>)
    requires s != [] && ReadVarint32(s) == Varint(v, rest)
    ensures ReadPacked(s) == Packed([v] + ReadPacked(rest).values, ReadPacked(rest).ok)
  {
  }

  /** What a packed field reads once its length varint and its payload are known. */
  lemma PackedFieldIs(s: seq<byte>, declared: nat, rest: seq<byte>, len: nat)
    requires ReadVarint32(s) == Varint(declared, rest) && len <= |rest|
    requires if PackedOverrun(declared, |rest|) then len == |rest| else len == declared
    requires ReadPacked(rest[..len]).ok
    ensures ReadPackedField(s) ==
              PackedRead(ReadPacked(rest[..len]).values, rest[len..], PackedOverrun(declared, |rest|))
  {
  }

  lemma StepFromTag(s: seq<byte>, tag: uint32, payload: seq<byte>)
    requires ReadTag(s) == Tag(tag, payload)
    ensures NextStep(s) == ReadPayload(payload, tag)
  {
  }

  lemma PackedPayload(s: seq<byte>, tag: uint32)
    requires CaseOf(tag) == PackedCase && ReadPackedField(s).PackedRead?
    ensures var r := ReadPackedField(s);
            ReadPayload(s, tag) == Step(Repeated(FieldNumber(tag), r.values), r.rest, r.clamped)
  {
  }

  lemma PackedFieldPrefix(s: seq<byte>, t: seq<byte>)
    requires ReadPackedField(s).PackedRead? && !ReadPackedField(s).clamped
    ensures var r := ReadPackedField(s); ReadPackedField(s + t) == PackedRead(r.values, r.rest + t, false)
  {
    ReadPrefix(s, t);
    var Varint(len, rest) := ReadVarint32(s);
    assert (rest + t)[..len] == rest[..len] && (rest + t)[len..] == rest[len..] + t;
    PackedFieldIs(s + t, len, rest + t, len);
  }

  lemma PayloadPrefix(s: seq<byte>, t: seq<byte>, tag: uint32)
    requires ReadPayload(s, tag).Step? && !ReadPayload(s, tag).clamped
    ensures var r := ReadPayload(s, tag); ReadPayload(s + t, tag) == Step(r.record, r.rest + t, false)
  {
    match CaseOf(tag)
    case ScalarCase => ReadPrefix(s, t);
    case RepeatedCase => ReadPrefix(s, t);
    case PackedCase => PackedFieldPrefix(s, t);
    case UninterpretedCase => SkipPrefix(s, t, tag, RECURSION_LIMIT);
    case EndGroupCase =>
  }

  /** A record that was read without clamping does not depend on what follows it. */
  lemma StepPrefix(s: seq<byte>, t: seq<byte>)
    requires NextStep(s).Step? && !NextStep(s).clamped
    ensures NextStep(s + t) == Step(NextStep(s).record, NextStep(s).rest + t, false)
  {
    TagPrefix(s, t);
    PayloadPrefix(ReadTag(s).rest, t, ReadTag(s).tag);
  }

  lemma ScanCons(s: seq<byte>, r: Record, rest: seq<byte>, c: bool)
    requires NextStep(s) == Step(r, rest, c)
    ensures ScanAll(s) == Scan([r] + ScanAll(rest).records, ScanAll(rest).stop)
    ensures Clamped(s) == (c || Clamped(rest))
  {
  }

  /** The scan of `a + b` is the scan of `a` followed by the scan of `b`. */
  lemma {:induction false} ScanConcat(a: seq<byte>, b: seq<byte>)
    requires Complete(a) && !Clamped(a)
    ensures ScanAll(a + b) == Scan(ScanAll(a).records + ScanAll(b).records, ScanAll(b).stop)
    ensures Clamped(a + b) == Clamped(b)
    decreases |a|
  {
    match NextStep(a)
    case Step(r, rest, _) =>
      StepPrefix(a, b);
      ScanCons(a + b, r, rest + b, false);
      ScanConcat(rest, b);
      ConcatAssoc([r], ScanAll(rest).records, ScanAll(b).records);
    case Stop(_) =>
      assert a + b == b;
    case Broken(_) =>
  }

  /** Reading `a + b` into any message is reading `a` and then `b` into it. */
  lemma ParseConcat(a: seq<byte>, b: seq<byte>, m: Msg)
    requires Complete(a) && !Clamped(a)
    ensures Parse(a + b, m) == Parse(b, Parse(a, m)) && ScanAll(a + b).stop == ScanAll(b).stop
  {
    ScanConcat(a, b);
    ApplyAllAppend(m, ScanAll(a).records, ScanAll(b).records);
  }

  /** Reading a concatenation gives the merge of the two messages. */
  predicate ConcatMerges(a: seq<byte>, b: seq<byte>) {
    && Complete(a + b)
    && Parse(a + b, EMPTY) == Merge(Parse(a, EMPTY), Parse(b, EMPTY))
  }

  lemma ConcatIsMerge(a: seq<byte>, b: seq<byte>)
    requires Complete(a) && Complete(b) && !Clamped(a)
    ensures ConcatMerges(a, b)
  {
    ParseConcat(a, b, EMPTY);
    ApplyAllIsMerge(Parse(a, EMPTY), ScanAll(b).records);
  }

  // ---------------------------------------------------------------- the clamped case

  /** How many repeated values a message holds. */
  function RepeatedCount(m: Msg): nat { |m.remoteGuids| + |m.recvPlayerIDs| }

  /** A complete record for field 1 with value 1. */
  const ONE_SCALAR: seq<byte> := [8, 1]

  lemma EmptyScan()
    ensures ScanAll([]) == Scan([], Eof) && ReadPacked([]) == Packed([], true)
  {
  }

  /** An input that is one record and nothing else. */
  lemma SingleScan(s: seq<byte>, r: Record, c: bool)
    requires NextStep(s) == Step(r, [], c)
    ensures ScanAll(s) == Scan([r], Eof) && Clamped(s) == c
  {
    EmptyScan();
    ScanCons(s, r, [], c);
    assert [r] + [] == [r];
  }

  lemma SmallVarints()
    ensures ReadVarint32([1]) == Varint(1, []) && ReadVarint32([8]) == Varint(8, [])
    ensures ReadVarint32([5, 1]) == Varint(5, [1]) && ReadVarint32(ONE_SCALAR) == Varint(8, [1])
  {
    RoundTrip32(1, []);
    RoundTrip32(8, []);
    RoundTrip32(8, [1]);
    RoundTrip32(5, [1]);
    assert VarintBytes(1) + [] == [1] && VarintBytes(8) + [] == [8];
    assert VarintBytes(8) + [1] == ONE_SCALAR && VarintBytes(5) + [1] == [5, 1];
  }

  lemma OneScalar()
    ensures Complete(ONE_SCALAR) && RepeatedCount(Parse(ONE_SCALAR, EMPTY)) == 0
  {
    SmallVarints();
    assert NextStep(ONE_SCALAR) == Step(Scalar(1, 1), [], false);
    SingleScan(ONE_SCALAR, Scalar(1, 1), false);
  }

  /** What a clamped packed field swallows, read as values; and the byte that may be left, read as a record. */
  lemma Swallowed()
    ensures ReadPacked([8]) == Packed([8], true) && ReadPacked(ONE_SCALAR) == Packed([8, 1], true)
    ensures ScanAll([1]).stop == Failed
  {
    SmallVarints();
    EmptyScan();
    PackedCons([8], 8, []);
    PackedCons([1], 1, []);
    PackedCons(ONE_SCALAR, 8, [1]);
    assert ReadTag([1]) == Tag(1, []);
    assert NextStep([1]).Broken?;
  }

  /** A clamped packed record swallows the start of whatever is appended. */
  lemma ClampedPackedField(s: seq<byte>)
    requires ReadPackedField(s).PackedRead? && ReadPackedField(s).clamped
    ensures var r, r' := ReadPackedField(s), ReadPackedField(s + ONE_SCALAR);
            && r.rest == [] && r'.PackedRead?
            && (r'.rest == [1] || (r'.rest == [] && |r'.values| == |r.values| + 2))
  {
    var Varint(declared, p) := ReadVarint32(s);
    assert p[..|p|] == p;
    var extra := if declared == |p| + 1 && declared < TWO_31 then [8] else ONE_SCALAR;
    assert ReadPacked(p + extra) == Packed(ReadPacked(p).values + extra, true) by {
      Swallowed();
      PackedAppend(p, extra);
    }
    assert ReadVarint32(s + ONE_SCALAR) == Varint(declared, p + ONE_SCALAR) by { ReadPrefix(s, ONE_SCALAR); }
    assert (p + ONE_SCALAR)[..|p + extra|] == p + extra;
    PackedFieldIs(s + ONE_SCALAR, declared, p + ONE_SCALAR, |p + extra|);
  }

  lemma ClampedStepSwallows(a: seq<byte>)
    requires NextStep(a).Step? && NextStep(a).clamped
    ensures var r, r' := NextStep(a), NextStep(a + ONE_SCALAR);
            && r.record.Repeated? && r.rest == []
            && r'.Step? && r'.record.Repeated?
            && (r'.rest == [1] || (r'.rest == [] && |r'.record.values| == |r.record.values| + 2))
  {
    TagPrefix(a, ONE_SCALAR);
    ClampedPackedField(ReadTag(a).rest);
  }

  lemma ApplyCounts(m: Msg, rs: seq<Record>)
    ensures RepeatedCount(ApplyAll(m, rs)) == RepeatedCount(m) + RepeatedCount(ApplyAll(EMPTY, rs))
  {
    ApplyAllIsMerge(m, rs);
  }

  lemma SingleRecordCount(r: Record)
    requires r.Repeated?
    ensures RepeatedCount(ApplyAll(EMPTY, [r])) == |r.values|
  {
    assert ApplyAll(EMPTY, [r]) == ApplyAll(Apply(EMPTY, r), []);
  }

  lemma ClampedStepGains(a: seq<byte>)
    requires NextStep(a).Step? && NextStep(a).clamped
    ensures Complete(a + ONE_SCALAR) ==>
              RepeatedCount(Parse(a + ONE_SCALAR, EMPTY)) == RepeatedCount(Parse(a, EMPTY)) + 2
  {
    ClampedStepSwallows(a);
    var Step(r, _, c) := NextStep(a);
    var Step(r', rest', c') := NextStep(a + ONE_SCALAR);
    SingleScan(a, r, c);
    SingleRecordCount(r);
    if rest' == [1] {
      Swallowed();
      ScanCons(a + ONE_SCALAR, r', [1], c');
    } else {
      SingleScan(a + ONE_SCALAR, r', c');
      SingleRecordCount(r');
    }
  }

  lemma ConsCount(r: Record, rs: seq<Record>)
    ensures RepeatedCount(ApplyAll(EMPTY, [r] + rs)) ==
              RepeatedCount(Apply(EMPTY, r)) + RepeatedCount(ApplyAll(EMPTY, rs))
  {
    assert ([r] + rs)[1..] == rs;
    ApplyCounts(Apply(EMPTY, r), rs);
  }

  lemma {:induction false} ClampedGains(a: seq<byte>)
    requires Complete(a) && Clamped(a)
    ensures Complete(a + ONE_SCALAR) ==>
              RepeatedCount(Parse(a + ONE_SCALAR, EMPTY)) == RepeatedCount(Parse(a, EMPTY)) + 2
    decreases |a|
  {
    var Step(r, rest, c) := NextStep(a);
    if c {
      ClampedStepGains(a);
    } else {
      StepPrefix(a, ONE_SCALAR);
      ScanCons(a, r, rest, false);
      ScanCons(a + ONE_SCALAR, r, rest + ONE_SCALAR, false);
      ClampedGains(rest);
      ConsCount(r, ScanAll(rest).records);
      ConsCount(r, ScanAll(rest + ONE_SCALAR).records);
    }
  }

  /** Exactly the inputs without a clamped record can be followed by any other complete input. */
  lemma ConcatIsMergeExactly(a: seq<byte>)
    requires Complete(a)
    ensures !Clamped(a) <==> forall b | Complete(b) :: ConcatMerges(a, b)
  {
    if Clamped(a) {
      OneScalar();
      ClampedGains(a);
      assert !ConcatMerges(a, ONE_SCALAR);
    } else {
      forall b | Complete(b) ensures ConcatMerges(a, b) { ConcatIsMerge(a, b); }
    }
  }

  /** A concrete input of that kind: field 7, declared length 5, one byte of payload. */
  lemma ClampedExample()
    ensures var a := [58, 5, 1]; Complete(a) && Clamped(a) && !(forall b | Complete(b) :: ConcatMerges(a, b))
  {
    var a: seq<byte> := [58, 5, 1];
    TagRoundTrip(58, [5, 1]);
    assert a == VarintBytes(58) + [5, 1];
    SmallVarints();
    EmptyScan();
    PackedCons([1], 1, []);
    assert [1][..1] == [1] && [1][1..] == [];
    PackedFieldIs([5, 1], 5, [1], 1);
    assert ReadPackedField([5, 1]) == PackedRead([1], [], true);
    PackedPayload([5, 1], 58);
    StepFromTag(a, 58, [5, 1]);
    SingleScan(a, Repeated(7, [1]), true);
    ConcatIsMergeExactly(a);
  }

  // ---------------------------------------------------------------- swapping records in the input

  /** The bytes of exactly one complete record. */
  predicate OneRecord(s: seq<byte>) {
    NextStep(s).Step? && NextStep(s).rest == [] && !NextStep(s).clamped
  }

  /** A record in front of `u` is applied first. */
  lemma Prepend(s: seq<byte>, u: seq<byte>, m: Msg)
    requires OneRecord(s)
    ensures Parse(s + u, m) == Parse(u, Apply(m, NextStep(s).record))
    ensures ScanAll(s + u).stop == ScanAll(u).stop
  {
    StepPrefix(s, u);
    assert [] + u == u;
    var r := NextStep(s).record;
    ScanCons(s + u, r, u, false);
    assert ([r] + ScanAll(u).records)[1..] == ScanAll(u).records;
  }

  lemma PrependTwo(a: seq<byte>, b: seq<byte>, y: seq<byte>, m: Msg)
    requires OneRecord(a) && OneRecord(b)
    ensures Parse(a + (b + y), m) == Parse(y, Apply(Apply(m, NextStep(a).record), NextStep(b).record))
    ensures ScanAll(a + (b + y)).stop == ScanAll(y).stop
  {
    Prepend(a, b + y, m);
    Prepend(b, y, Apply(m, NextStep(a).record));
  }

  /** Swapping two neighbouring records of different fields changes nothing at all. */
  lemma SwapInInput(x: seq<byte>, a: seq<byte>, b: seq<byte>, y: seq<byte>, m: Msg)
    requires Complete(x) && !Clamped(x) && OneRecord(a) && OneRecord(b)
    requires KeyOf(NextStep(a).record) != KeyOf(NextStep(b).record)
    ensures Parse(x + (a + (b + y)), m) == Parse(x + (b + (a + y)), m)
    ensures ScanAll(x + (a + (b + y))).stop == ScanAll(x + (b + (a + y))).stop
  {
    var m' := Parse(x, m);
    var ab, ba := a + (b + y), b + (a + y);
    assert Parse(ab, m') == Parse(ba, m') && ScanAll(ab).stop == ScanAll(ba).stop by {
      SwapNeighbours(m', NextStep(a).record, NextStep(b).record);
      PrependTwo(a, b, y, m');
      PrependTwo(b, a, y, m');
    }
    ParseConcat(x, ab, m);
    ParseConcat(x, ba, m);
  }
}
