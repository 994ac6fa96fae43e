/** What is still to be read, as seen from the two kinds of places in the goto-linked parser. */
module ParserProgress {
  import opened Bytes
  import opened Varint
  import opened Wire
  import opened HeaderRecords
  import opened RoundTrip

  /** The labels of the parser's switch, and what follows it: the next round of the loop, or the early return. */
  datatype Label =
    | ParseScalar(k: nat)
    | ParseRepeated(k: nat)
    | ParsePacked(k: nat)
    | HandleUninterpreted
    | BackToLoop
    | ReturnTrue

  /** The tag that a label stands for; only `HandleUninterpreted` looks at the variable that holds the last tag. */
  function LabelTag(at: Label, tag: uint32): uint32
    requires at.ParseScalar? ==> IsScalar(at.k)
    requires at.ParseRepeated? || at.ParsePacked? ==> IsRepeated(at.k)
  {
    match at
    case ParseScalar(k) => MakeTag(k, VARINT)
    case ParseRepeated(k) => MakeTag(k, VARINT)
    case ParsePacked(k) => MakeTag(k, LENGTH_DELIMITED)
    case _ => tag
  }

  predicate IsLabel(at: Label, tag: uint32) {
    match at
    case ParseScalar(k) => IsScalar(k)
    case ParseRepeated(k) => IsRepeated(k)
    case ParsePacked(k) => IsRepeated(k)
    case HandleUninterpreted => CaseOf(tag) == EndGroupCase || CaseOf(tag) == UninterpretedCase
    case _ => true
  }

  /** Where the switch goes with a fresh tag. */
  function SwitchOn(tag: uint32): (at: Label)
    ensures IsLabel(at, tag) && LabelTag(at, tag) == tag
    ensures !at.BackToLoop? && !at.ReturnTrue?
  {
    var k := FieldNumber(tag);
    if IsScalar(k) then (if WireType(tag) == VARINT then ParseScalar(k) else HandleUninterpreted)
    else if IsRepeated(k) then
      if WireType(tag) == VARINT then ParseRepeated(k)
      else if WireType(tag) == LENGTH_DELIMITED then ParsePacked(k)
      else HandleUninterpreted
    else HandleUninterpreted
  }

  /** The scan of an input whose next tag has already been read. */
  function AfterTag(s: seq<byte>, tag: uint32): Scan {
    var step := ReadPayload(s, tag);
    if step.Stop? then Scan([], step.kind)
    else if step.Broken? then Scan(step.partial, Failed)
    else
      var more := ScanAll(step.rest);
      Scan([step.record] + more.records, more.stop)
  }

  /** The plain loop over `whole` from `start` ends like the plain loop over `s` from `m`. */
  ghost predicate AtTop(whole: seq<byte>, start: Msg, s: seq<byte>, m: Msg) {
    Parse(whole, start) == Parse(s, m) && ScanAll(whole).stop == ScanAll(s).stop
  }

  /** The same where the tag in front of `s` has been read. */
  ghost predicate Ahead(whole: seq<byte>, start: Msg, s: seq<byte>, tag: uint32, m: Msg) {
    Parse(whole, start) == ApplyAll(m, AfterTag(s, tag).records) && ScanAll(whole).stop == AfterTag(s, tag).stop
  }

  ghost predicate Finished(whole: seq<byte>, start: Msg, m: Msg, stop: StopKind) {
    Parse(whole, start) == m && ScanAll(whole).stop == stop
  }

  lemma TagIsRead(whole: seq<byte>, start: Msg, s: seq<byte>, m: Msg)
    requires AtTop(whole, start, s, m) && ReadTag(s).Tag?
    ensures Ahead(whole, start, ReadTag(s).rest, ReadTag(s).tag, m)
  {
  }

  lemma NoTagRead(whole: seq<byte>, start: Msg, s: seq<byte>, m: Msg)
    requires AtTop(whole, start, s, m) && !ReadTag(s).Tag?
    ensures Finished(whole, start, m, if s == [] then Eof else ZeroTagSeen)
  {
  }

  lemma RecordRead(whole: seq<byte>, start: Msg, s: seq<byte>, tag: uint32, m: Msg)
    requires Ahead(whole, start, s, tag, m) && ReadPayload(s, tag).Step?
    ensures var r := ReadPayload(s, tag); AtTop(whole, start, r.rest, Apply(m, r.record))
  {
    var r := ReadPayload(s, tag);
    assert ([r.record] + ScanAll(r.rest).records)[1..] == ScanAll(r.rest).records;
  }

  lemma RecordBroken(whole: seq<byte>, start: Msg, s: seq<byte>, tag: uint32, m: Msg)
    requires Ahead(whole, start, s, tag, m) && !ReadPayload(s, tag).Step?
    ensures var r := ReadPayload(s, tag);
            && (r.Stop? ==> Finished(whole, start, m, r.kind))
            && (r.Broken? ==> Finished(whole, start, ApplyAll(m, r.partial), Failed))
  {
  }

  lemma ApplyOne(m: Msg, r: Record)
    ensures ApplyAll(m, [r]) == Apply(m, r) && ApplyAll(m, []) == m
  {
    assert [r][1..] == [];
  }

  /** A label whose payload is one varint. */
  lemma VarintIsRead(whole: seq<byte>, start: Msg, s: seq<byte>, k: nat, m: Msg)
    requires IsScalar(k) || IsRepeated(k)
    requires Ahead(whole, start, s, MakeTag(k, VARINT), m)
    ensures match ReadVarint32(s)
            case Malformed => Finished(whole, start, m, Failed)
            case Varint(v, rest) =>
              AtTop(whole, start, rest, Apply(m, if IsScalar(k) then Scalar(k, v) else Repeated(k, [v])))
  {
    var tag := MakeTag(k, VARINT);
    assert FieldNumber(tag) == k && WireType(tag) == VARINT;
    if ReadVarint32(s).Varint? {
      RecordRead(whole, start, s, tag, m);
    } else {
      RecordBroken(whole, start, s, tag, m);
      ApplyOne(m, Scalar(k, 0));
    }
  }

  /** A label whose payload is packed. */
  lemma PackedFieldRead(whole: seq<byte>, start: Msg, s: seq<byte>, k: nat, m: Msg)
    requires IsRepeated(k) && Ahead(whole, start, s, MakeTag(k, LENGTH_DELIMITED), m)
    ensures match ReadPackedField(s)
            case PackedBroken(vs) => Finished(whole, start, Apply(m, Repeated(k, vs)), Failed)
            case PackedRead(vs, rest, _) => AtTop(whole, start, rest, Apply(m, Repeated(k, vs)))
  {
    var tag := MakeTag(k, LENGTH_DELIMITED);
    assert FieldNumber(tag) == k && WireType(tag) == LENGTH_DELIMITED;
    if ReadPackedField(s).PackedRead? {
      RecordRead(whole, start, s, tag, m);
    } else {
      RecordBroken(whole, start, s, tag, m);
      ApplyOne(m, Repeated(k, ReadPackedField(s).values));
    }
  }

  /** The uninterpreted label: an end-group tag ends the read, anything else is skipped into the unknown fields. */
  lemma UninterpretedRead(whole: seq<byte>, start: Msg, s: seq<byte>, tag: uint32, m: Msg)
    requires IsLabel(HandleUninterpreted, tag) && Ahead(whole, start, s, tag, m)
    ensures if WireType(tag) == END_GROUP then Finished(whole, start, m, EndGroupSeen)
            else match SkipField(s, tag, RECURSION_LIMIT)
              case SkipFailed(partial) => Finished(whole, start, m.(unknown := m.unknown + partial), Failed)
              case Skipped(f, rest) => AtTop(whole, start, rest, m.(unknown := m.unknown + [f]))
  {
    if WireType(tag) == END_GROUP {
      RecordBroken(whole, start, s, tag, m);
    } else if SkipField(s, tag, RECURSION_LIMIT).Skipped? {
      RecordRead(whole, start, s, tag, m);
    } else {
      RecordBroken(whole, start, s, tag, m);
      ApplyUnknown(m, SkipField(s, tag, RECURSION_LIMIT).partial);
    }
  }

  /** A tag that is found next is the tag that the loop would read. */
  lemma TagIsFound(whole: seq<byte>, start: Msg, s: seq<byte>, tag: uint32, rest: seq<byte>, m: Msg)
    requires AtTop(whole, start, s, m) && ReadTag(s) == Tag(tag, rest)
    ensures Ahead(whole, start, rest, tag, m)
  {
    TagIsRead(whole, start, s, m);
  }
}
