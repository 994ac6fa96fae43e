/** The abstract header message, the records of its wire form, and the plain read-and-dispatch parser. */
module HeaderRecords {
  import opened Bytes
  import opened Varint
  import opened Wire

  // ---------------------------------------------------------------- the message

  /** A scalar field is present exactly when its number is a key of `scalars`. */
  datatype Msg = Msg(scalars: map<nat, int>,
                     remoteGuids: seq<uint32>,
                     recvPlayerIDs: seq<uint32>,
                     unknown: seq<UnknownField>)

  const EMPTY := Msg(map[], [], [], [])

  predicate IsScalar(k: nat) { 1 <= k <= 6 || 9 <= k <= 10 }

  predicate IsRepeated(k: nat) { 7 <= k <= 8 }

  /** Fields 1 and 2 are int32, the others uint32. */
  predicate InRange(k: nat, v: int) {
    if k <= 2 then -TWO_31 <= v < TWO_31 else 0 <= v < TWO_32
  }

  function Merge(a: Msg, b: Msg): Msg {
    Msg(a.scalars + b.scalars, a.remoteGuids + b.remoteGuids,
        a.recvPlayerIDs + b.recvPlayerIDs, a.unknown + b.unknown)
  }

  // ---------------------------------------------------------------- records

  datatype Record =
    | Scalar(number: nat, value: uint32)
    | Repeated(number: nat, values: seq<uint32>)
    | Unknown(field: UnknownField)

  function ValueOf(k: nat, v: uint32): int {
    if k <= 2 then ToInt32(v) else v
  }

  function Apply(m: Msg, r: Record): Msg {
    match r
    case Scalar(k, v) => m.(scalars := m.scalars[k := ValueOf(k, v)])
    case Repeated(k, vs) =>
      if k == 7 then m.(remoteGuids := m.remoteGuids + vs) else m.(recvPlayerIDs := m.recvPlayerIDs + vs)
    case Unknown(f) => m.(unknown := m.unknown + [f])
  }

  function ApplyAll(m: Msg, rs: seq<Record>): Msg
    decreases |rs|
  {
    if rs == [] then m else ApplyAll(Apply(m, rs[0]), rs[1..])
  }

  function UnknownRecords(fs: seq<UnknownField>): (rs: seq<Record>)
    ensures |rs| == |fs| && forall i :: 0 <= i < |fs| ==> rs[i] == Unknown(fs[i])
  {
    seq(|fs|, i requires 0 <= i < |fs| => Unknown(fs[i]))
  }

  // ---------------------------------------------------------------- reading one record

  datatype Packed = Packed(values: seq<uint32>, ok: bool)

  /** Reads varints until the payload is used up; the values read before a failure are kept. */
  function ReadPacked(p: seq<byte>): Packed
    decreases |p|
  {
    if p == [] then Packed([], true)
    else match ReadVarint32(p)
      case Malformed => Packed([], false)
      case Varint(v, rest) =>
        var more := ReadPacked(rest);
        Packed([v] + more.values, more.ok)
  }

  /** A declared length that is negative as an int, or larger than what is left, is cut to what is left. */
  predicate PackedOverrun(declared: nat, available: nat) {
    declared >= TWO_31 || declared > available
  }

  datatype PackedField =
    | PackedBroken(values: seq<uint32>)
    | PackedRead(values: seq<uint32>, rest: seq<byte>, clamped: bool)

  /** The declared length, the payload it covers, and the payload's varints. */
  function ReadPackedField(s: seq<byte>): (r: PackedField)
    ensures r.PackedRead? ==> |r.rest| < |s|
  {
    match ReadVarint32(s)
    case Malformed => PackedBroken([])
    case Varint(declared, rest) =>
      var clamped := PackedOverrun(declared, |rest|);
      var len := if clamped then |rest| else declared;
      var p := ReadPacked(rest[..len]);
      if p.ok then PackedRead(p.values, rest[len..], clamped) else PackedBroken(p.values)
  }

  datatype StopKind = Eof | ZeroTagSeen | EndGroupSeen | Failed

  /** `Broken` carries what a failed read had already added to the message; `clamped` says that a
      packed record declared more bytes than the input holds and was cut at the end of the input. */
  datatype Step =
    | Stop(kind: StopKind)
    | Broken(partial: seq<Record>)
    | Step(record: Record, rest: seq<byte>, clamped: bool)

  /** The arms of the parser's switch. */
  datatype Case = ScalarCase | RepeatedCase | PackedCase | EndGroupCase | UninterpretedCase

  function CaseOf(tag: uint32): Case {
    var k, w := FieldNumber(tag), WireType(tag);
    if IsScalar(k) && w == VARINT then ScalarCase
    else if IsRepeated(k) && w == VARINT then RepeatedCase
    else if IsRepeated(k) && w == LENGTH_DELIMITED then PackedCase
    else if w == END_GROUP then EndGroupCase
    else UninterpretedCase
  }

  /** The record whose tag has been read and whose payload starts at `s`. */
  function ReadPayload(s: seq<byte>, tag: uint32): (r: Step)
    ensures r.Step? ==> |r.rest| <= |s|
  {
    var k := FieldNumber(tag);
    match CaseOf(tag)
    case ScalarCase =>
      (match ReadVarint32(s)
       case Malformed => Broken([])
       case Varint(v, rest) => Step(Scalar(k, v), rest, false))
    case RepeatedCase =>
      (match ReadVarint32(s)
       case Malformed => Broken([])
       case Varint(v, rest) => Step(Repeated(k, [v]), rest, false))
    case PackedCase =>
      (match ReadPackedField(s)
       case PackedBroken(vs) => Broken([Repeated(k, vs)])
       case PackedRead(vs, rest, clamped) => Step(Repeated(k, vs), rest, clamped))
    case EndGroupCase => Stop(EndGroupSeen)
    case UninterpretedCase =>
      (match SkipField(s, tag, RECURSION_LIMIT)
       case SkipFailed(partial) => Broken(UnknownRecords(partial))
       case Skipped(f, rest) => Step(Unknown(f), rest, false))
  }

  function NextStep(s: seq<byte>): (r: Step)
    ensures r.Step? ==> |r.rest| < |s|
  {
    match ReadTag(s)
    case EndOfInput => Stop(Eof)
    case ZeroTag => Stop(ZeroTagSeen)
    case Tag(tag, rest) => ReadPayload(rest, tag)
  }

  // ---------------------------------------------------------------- reading a whole input

  datatype Scan = Scan(records: seq<Record>, stop: StopKind)

  function ScanAll(s: seq<byte>): Scan
    decreases |s|
  {
    match NextStep(s)
    case Stop(kind) => Scan([], kind)
    case Broken(partial) => Scan(partial, Failed)
    case Step(r, rest, _) =>
      var more := ScanAll(rest);
      Scan([r] + more.records, more.stop)
  }

  /** Whether the scan meets a packed record that had to be cut at the end of the input. */
  predicate Clamped(s: seq<byte>)
    decreases |s|
  {
    match NextStep(s)
    case Step(_, rest, c) => c || Clamped(rest)
    case _ => false
  }

  /** Every byte belongs to a complete record. */
  predicate Complete(s: seq<byte>) { ScanAll(s).stop == Eof }

  /** The message after the plain loop has run over `s`, starting from `m`. */
  function Parse(s: seq<byte>, m: Msg): Msg { ApplyAll(m, ScanAll(s).records) }

  // ---------------------------------------------------------------- writing

  function ScalarValueBytes(k: nat, v: int): seq<byte>
    requires InRange(k, v)
  {
    VarintBytes(if k <= 2 then SignExtend(v) else v)
  }

  function ScalarBytes(m: Msg, k: nat): seq<byte>
    requires k in m.scalars ==> InRange(k, m.scalars[k])
  {
    if k in m.scalars then VarintBytes(MakeTag(k, VARINT)) + ScalarValueBytes(k, m.scalars[k]) else []
  }

  function RepeatedBytes(k: nat, vs: seq<uint32>): seq<byte> {
    if vs == [] then [] else VarintBytes(MakeTag(k, VARINT)) + VarintBytes(vs[0]) + RepeatedBytes(k, vs[1..])
  }

  /** Only scalar field numbers, each with a value of its type. */
  predicate WellTyped(m: Msg) {
    forall k :: k in m.scalars ==> IsScalar(k) && InRange(k, m.scalars[k])
  }

  /** Records that the known cases of the parser take for themselves. */
  predicate Accepted(f: UnknownField) {
    || (f.UVarint? && (IsScalar(f.number) || IsRepeated(f.number)))
    || (f.ULength? && IsRepeated(f.number))
  }

  predicate CanonicalUnknown(f: UnknownField) { ValidField(f, RECURSION_LIMIT) && !Accepted(f) }

  /** A message the accessors and the parser can produce. */
  predicate WellFormed(m: Msg) {
    && WellTyped(m)
    && forall i :: 0 <= i < |m.unknown| ==> CanonicalUnknown(m.unknown[i])
  }

  function Serialize(m: Msg): seq<byte>
    requires WellTyped(m)
  {
    ScalarBytes(m, 1) + ScalarBytes(m, 2) + ScalarBytes(m, 3) +
    ScalarBytes(m, 4) + ScalarBytes(m, 5) + ScalarBytes(m, 6) +
    RepeatedBytes(7, m.remoteGuids) + RepeatedBytes(8, m.recvPlayerIDs) +
    ScalarBytes(m, 9) + ScalarBytes(m, 10) + FieldsBytes(m.unknown)
  }
}
