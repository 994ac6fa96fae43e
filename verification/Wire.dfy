/** Tags, unknown fields, and the skipping and writing of unknown fields. */
module Wire {
  import opened Bytes
  import opened Varint

  const VARINT := 0
  const FIXED64 := 1
  const LENGTH_DELIMITED := 2
  const START_GROUP := 3
  const END_GROUP := 4
  const FIXED32 := 5

  /** Groups may be nested this deep before the reader gives up. */
  const RECURSION_LIMIT: nat := 100
  const MAX_FIELD_NUMBER: nat := 0x1FFF_FFFF

  function FieldNumber(tag: nat): nat { tag / 8 }

  function WireType(tag: nat): nat { tag % 8 }

  function MakeTag(number: nat, wireType: nat): nat { 8 * number + wireType }

  datatype TagRead = EndOfInput | ZeroTag | Tag(tag: uint32, rest: seq<byte>)

  /** `ZeroTag` is a malformed varint or one whose low 32 bits are all zero. */
  function ReadTag(s: seq<byte>): (r: TagRead)
    ensures r.Tag? ==> r.tag > 0 && |r.rest| < |s|
  {
    if s == [] then EndOfInput
    else match ReadVarint32(s)
      case Malformed => ZeroTag
      case Varint(t, rest) => if t == 0 then ZeroTag else Tag(t, rest)
  }

  datatype UnknownField =
    | UVarint(number: nat, varint: uint64)
    | UFixed32(number: nat, fixed32: uint32)
    | UFixed64(number: nat, fixed64: uint64)
    | ULength(number: nat, data: seq<byte>)
    | UGroup(number: nat, fields: seq<UnknownField>)

  // ---------------------------------------------------------------- reading

  /** A failed skip has already added `partial` to the unknown fields. */
  datatype Skip = SkipFailed(partial: seq<UnknownField>) | Skipped(field: UnknownField, rest: seq<byte>)

  datatype GroupBody = GroupBody(fields: seq<UnknownField>, ok: bool, lastTag: nat, rest: seq<byte>)

  /** The payload of a field that is not a group. */
  function SkipFlat(s: seq<byte>, tag: uint32): (r: Skip)
    ensures r.Skipped? ==> |r.rest| <= |s|
  {
    var number := FieldNumber(tag);
    match WireType(tag)
    case 0 =>
      (match ReadVarint64(s)
       case Malformed => SkipFailed([])
       case Varint(v, rest) => Skipped(UVarint(number, v), rest))
    case 1 =>
      if |s| < 8 then SkipFailed([]) else
        PowersOf256();
        Skipped(UFixed64(number, FromLittleEndian(s[..8])), s[8..])
    case 2 =>
      (match ReadVarint32(s)
       case Malformed => SkipFailed([])
       case Varint(len, rest) =>
         if len >= TWO_31 then SkipFailed([ULength(number, [])])
         else if len > |rest| then SkipFailed([ULength(number, rest)])
         else Skipped(ULength(number, rest[..len]), rest[len..]))
    case 5 =>
      if |s| < 4 then SkipFailed([]) else
        PowersOf256();
        Skipped(UFixed32(number, FromLittleEndian(s[..4])), s[4..])
    case _ => SkipFailed([])
  }

  /** Reads the payload that follows `tag`; `depth` more groups may be opened. */
  function SkipField(s: seq<byte>, tag: uint32, depth: nat): (r: Skip)
    ensures r.Skipped? ==> |r.rest| <= |s|
    decreases |s|, 1
  {
    if WireType(tag) != START_GROUP then SkipFlat(s, tag)
    else if depth == 0 then SkipFailed([])
    else
      var number := FieldNumber(tag);
      var body := SkipMessage(s, depth - 1);
      if body.ok && body.lastTag == MakeTag(number, END_GROUP)
      then Skipped(UGroup(number, body.fields), body.rest)
      else SkipFailed([UGroup(number, body.fields)])
  }

  /** Reads fields until an end-group tag, a zero tag or the end of input; `rest` matters only after an
      end-group tag. */
  function SkipMessage(s: seq<byte>, depth: nat): (r: GroupBody)
    ensures |r.rest| <= |s|
    decreases |s|, 0
  {
    match ReadTag(s)
    case EndOfInput => GroupBody([], true, 0, [])
    case ZeroTag => GroupBody([], true, 0, [])
    case Tag(tag, rest) =>
      if WireType(tag) == END_GROUP then GroupBody([], true, tag, rest)
      else match SkipField(rest, tag, depth)
        case SkipFailed(partial) => GroupBody(partial, false, tag, [])
        case Skipped(f, rest') =>
          var more := SkipMessage(rest', depth);
          GroupBody([f] + more.fields, more.ok, more.lastTag, more.rest)
  }

  // ---------------------------------------------------------------- writing

  function TagOf(f: UnknownField): nat {
    MakeTag(f.number, match f
                      case UVarint(_, _) => VARINT
                      case UFixed32(_, _) => FIXED32
                      case UFixed64(_, _) => FIXED64
                      case ULength(_, _) => LENGTH_DELIMITED
                      case UGroup(_, _) => START_GROUP)
  }

  function PayloadBytes(f: UnknownField): seq<byte>
    decreases f, 0
  {
    match f
    case UVarint(_, v) => VarintBytes(v)
    case UFixed32(_, v) => LittleEndian(v, 4)
    case UFixed64(_, v) => LittleEndian(v, 8)
    case ULength(_, data) => VarintBytes(|data|) + data
    case UGroup(number, fields) => FieldsBytes(fields) + VarintBytes(MakeTag(number, END_GROUP))
  }

  function FieldBytes(f: UnknownField): seq<byte>
    decreases f, 1
  {
    VarintBytes(TagOf(f)) + PayloadBytes(f)
  }

  function FieldsBytes(fs: seq<UnknownField>): seq<byte>
    decreases fs
  {
    if fs == [] then [] else FieldBytes(fs[0]) + FieldsBytes(fs[1..])
  }

  lemma {:induction false} FieldsBytesAppend(a: seq<UnknownField>, b: seq<UnknownField>)
    ensures FieldsBytes(a + b) == FieldsBytes(a) + FieldsBytes(b)
  {
    if a == [] {
      assert a + b == b;
    } else {
      var head, tail := FieldBytes(a[0]), a[1..];
      assert (a + b)[0] == a[0] && (a + b)[1..] == tail + b;
      calc {
        FieldsBytes(a + b);
        head + FieldsBytes(tail + b);
        { FieldsBytesAppend(tail, b); }
        head + (FieldsBytes(tail) + FieldsBytes(b));
        { ConcatAssoc(head, FieldsBytes(tail), FieldsBytes(b)); }
        head + FieldsBytes(tail) + FieldsBytes(b);
      }
    }
  }

  // ---------------------------------------------------------------- validity

  /** What a reader with `depth` group levels left can have produced. */
  predicate ValidField(f: UnknownField, depth: nat)
    decreases f, 0
  {
    && f.number <= MAX_FIELD_NUMBER
    && TagOf(f) != 0
    && match f
       case ULength(_, data) => |data| < TWO_31
       case UGroup(_, fields) => depth > 0 && ValidFields(fields, depth - 1)
       case _ => true
  }

  predicate ValidFields(fs: seq<UnknownField>, depth: nat)
    decreases fs
  {
    fs == [] || (ValidField(fs[0], depth) && ValidFields(fs[1..], depth))
  }

  lemma SingleIsValid(f: UnknownField, depth: nat)
    requires ValidField(f, depth)
    ensures ValidFields([f], depth)
  {
    assert [f][1..] == [];
  }

  /** What one read added: nothing, or one valid field with the tag that was read. */
  predicate AddedBy(fs: seq<UnknownField>, tag: uint32, depth: nat) {
    fs == [] || (fs == [fs[0]] && ValidField(fs[0], depth) && TagOf(fs[0]) == tag)
  }

  function Added(r: Skip): seq<UnknownField> {
    match r
    case Skipped(f, _) => [f]
    case SkipFailed(partial) => partial
  }

  /** What reading adds to the unknown fields is valid, also when the read fails part-way. */
  lemma {:induction false} SkippedIsValid(s: seq<byte>, tag: uint32, depth: nat)
    requires tag > 0
    ensures AddedBy(Added(SkipField(s, tag, depth)), tag, depth)
    decreases |s|, 1
  {
    if WireType(tag) == START_GROUP && depth > 0 {
      BodyIsValid(s, depth - 1);
    }
  }

  lemma {:induction false} BodyIsValid(s: seq<byte>, depth: nat)
    ensures ValidFields(SkipMessage(s, depth).fields, depth)
    decreases |s|, 0
  {
    match ReadTag(s)
    case Tag(tag, rest) =>
      SkippedIsValid(rest, tag, depth);
      var skip := SkipField(rest, tag, depth);
      if skip.Skipped? {
        BodyIsValid(skip.rest, depth);
      } else if skip.partial != [] {
        SingleIsValid(skip.partial[0], depth);
      }
    case _ =>
  }

  // ---------------------------------------------------------------- round trip

  lemma TagRoundTrip(tag: uint32, rest: seq<byte>)
    requires tag > 0
    ensures ReadTag(VarintBytes(tag) + rest) == Tag(tag, rest)
  {
    RoundTrip32(tag, rest);
  }

  lemma VarintRoundTrip(number: nat, v: uint64, rest: seq<byte>)
    requires number <= MAX_FIELD_NUMBER
    ensures SkipFlat(VarintBytes(v) + rest, MakeTag(number, VARINT)) == Skipped(UVarint(number, v), rest)
  {
    RoundTrip64(v, rest);
  }

  lemma FixedRoundTrip(v: nat, n: nat, rest: seq<byte>)
    requires (n == 4 && v < TWO_32) || (n == 8 && v < TWO_64)
    ensures var s := LittleEndian(v, n) + rest; FromLittleEndian(s[..n]) == v && s[n..] == rest
  {
    PowersOf256();
    LittleEndianRoundTrip(v, n);
    assert (LittleEndian(v, n) + rest)[..n] == LittleEndian(v, n);
  }

  lemma SkipLengthIs(s: seq<byte>, number: nat, len: uint32, rest: seq<byte>)
    requires number <= MAX_FIELD_NUMBER && ReadVarint32(s) == Varint(len, rest) && len < TWO_31 && len <= |rest|
    ensures SkipFlat(s, MakeTag(number, LENGTH_DELIMITED)) == Skipped(ULength(number, rest[..len]), rest[len..])
  {
  }

  lemma LengthRoundTrip(number: nat, data: seq<byte>, rest: seq<byte>)
    requires number <= MAX_FIELD_NUMBER && |data| < TWO_31
    ensures SkipFlat(VarintBytes(|data|) + data + rest, MakeTag(number, LENGTH_DELIMITED))
         == Skipped(ULength(number, data), rest)
  {
    ConcatAssoc(VarintBytes(|data|), data, rest);
    RoundTrip32(|data|, data + rest);
    SkipLengthIs(VarintBytes(|data|) + (data + rest), number, |data|, data + rest);
    assert (data + rest)[..|data|] == data && (data + rest)[|data|..] == rest;
  }

  lemma FlatRoundTrip(f: UnknownField, rest: seq<byte>, depth: nat)
    requires ValidField(f, depth) && !f.UGroup?
    ensures SkipFlat(PayloadBytes(f) + rest, TagOf(f)) == Skipped(f, rest)
  {
    match f
    case UVarint(number, v) => VarintRoundTrip(number, v, rest);
    case UFixed32(_, v) => FixedRoundTrip(v, 4, rest);
    case UFixed64(_, v) => FixedRoundTrip(v, 8, rest);
    case ULength(number, data) => LengthRoundTrip(number, data, rest);
  }

  /** Skipping a written payload gives the field back and stops at its end. */
  lemma {:induction false} PayloadRoundTrip(f: UnknownField, rest: seq<byte>, depth: nat)
    requires ValidField(f, depth)
    ensures SkipField(PayloadBytes(f) + rest, TagOf(f), depth) == Skipped(f, rest)
    decreases f, 1
  {
    if f.UGroup? {
      GroupRoundTrip(f.number, f.fields, rest, depth);
      ConcatAssoc(FieldsBytes(f.fields), VarintBytes(MakeTag(f.number, END_GROUP)), rest);
    } else {
      FlatRoundTrip(f, rest, depth);
    }
  }

  lemma {:induction false} GroupRoundTrip(number: nat, fields: seq<UnknownField>, rest: seq<byte>, depth: nat)
    requires number <= MAX_FIELD_NUMBER && depth > 0 && ValidFields(fields, depth - 1)
    ensures var s := FieldsBytes(fields) + (VarintBytes(MakeTag(number, END_GROUP)) + rest);
            SkipField(s, MakeTag(number, START_GROUP), depth) == Skipped(UGroup(number, fields), rest)
    decreases fields, 1
  {
    hide SkipField, SkipMessage, FieldsBytes, VarintBytes;
    var endTag := MakeTag(number, END_GROUP);
    BodyRoundTrip(fields, endTag, rest, depth - 1);
    SkipGroupIs(FieldsBytes(fields) + (VarintBytes(endTag) + rest), MakeTag(number, START_GROUP), depth, fields, rest);
  }

  lemma SkipGroupIs(s: seq<byte>, tag: uint32, depth: nat, fields: seq<UnknownField>, rest: seq<byte>)
    requires WireType(tag) == START_GROUP && depth > 0
    requires SkipMessage(s, depth - 1) == GroupBody(fields, true, MakeTag(FieldNumber(tag), END_GROUP), rest)
    ensures SkipField(s, tag, depth) == Skipped(UGroup(FieldNumber(tag), fields), rest)
  {
  }

  /** A written field in front of `u` is read first, and the rest is read from `u`. */
  lemma {:induction false} MessageStep(f: UnknownField, u: seq<byte>, depth: nat)
    requires ValidField(f, depth)
    ensures SkipMessage(FieldBytes(f) + u, depth) ==
            var r := SkipMessage(u, depth);
            GroupBody([f] + r.fields, r.ok, r.lastTag, r.rest)
    decreases f, 2
  {
    var t, p := VarintBytes(TagOf(f)), PayloadBytes(f);
    ConcatAssoc(t, p, u);
    TagRoundTrip(TagOf(f), p + u);
    PayloadRoundTrip(f, u, depth);
    BodyStep(FieldBytes(f) + u, TagOf(f), p + u, f, u, depth);
  }

  /** One field in front of the rest of a group body. */
  lemma BodyStep(s: seq<byte>, tag: uint32, payload: seq<byte>, f: UnknownField, rest: seq<byte>, depth: nat)
    requires ReadTag(s) == Tag(tag, payload) && WireType(tag) != END_GROUP
    requires SkipField(payload, tag, depth) == Skipped(f, rest)
    ensures SkipMessage(s, depth) ==
            var r := SkipMessage(rest, depth);
            GroupBody([f] + r.fields, r.ok, r.lastTag, r.rest)
  {
  }

  lemma {:induction false} BodyRoundTrip(fs: seq<UnknownField>, endTag: uint32, rest: seq<byte>, depth: nat)
    requires ValidFields(fs, depth) && WireType(endTag) == END_GROUP
    ensures SkipMessage(FieldsBytes(fs) + (VarintBytes(endTag) + rest), depth) == GroupBody(fs, true, endTag, rest)
    decreases fs, 0
  {
    var u := VarintBytes(endTag) + rest;
    if fs == [] {
      assert FieldsBytes(fs) + u == u;
      TagRoundTrip(endTag, rest);
    } else {
      ConcatAssoc(FieldBytes(fs[0]), FieldsBytes(fs[1..]), u);
      MessageStep(fs[0], FieldsBytes(fs[1..]) + u, depth);
      BodyRoundTrip(fs[1..], endTag, rest, depth);
      assert [fs[0]] + fs[1..] == fs;
    }
  }

  // ---------------------------------------------------------------- prefix

  lemma TagPrefix(s: seq<byte>, t: seq<byte>)
    requires ReadTag(s).Tag?
    ensures ReadTag(s + t) == Tag(ReadTag(s).tag, ReadTag(s).rest + t)
  {
    ReadPrefix(s, t);
  }

  lemma FlatPrefix(s: seq<byte>, t: seq<byte>, tag: uint32)
    requires SkipFlat(s, tag).Skipped?
    ensures SkipFlat(s + t, tag) == Skipped(SkipFlat(s, tag).field, SkipFlat(s, tag).rest + t)
  {
    match WireType(tag)
    case 0 => ReadPrefix(s, t);
    case 1 => assert (s + t)[..8] == s[..8] && (s + t)[8..] == s[8..] + t;
    case 2 =>
      ReadPrefix(s, t);
      var Varint(len, rest) := ReadVarint32(s);
      assert (rest + t)[..len] == rest[..len] && (rest + t)[len..] == rest[len..] + t;
    case _ => assert (s + t)[..4] == s[..4] && (s + t)[4..] == s[4..] + t;
  }

  /** A field that was skipped does not depend on what follows it. */
  lemma {:induction false} SkipPrefix(s: seq<byte>, t: seq<byte>, tag: uint32, depth: nat)
    requires SkipField(s, tag, depth).Skipped?
    ensures var r := SkipField(s, tag, depth); SkipField(s + t, tag, depth) == Skipped(r.field, r.rest + t)
    decreases |s|, 1
  {
    if WireType(tag) == START_GROUP {
      BodyPrefix(s, t, depth - 1);
    } else {
      FlatPrefix(s, t, tag);
    }
  }

  lemma {:induction false} BodyPrefix(s: seq<byte>, t: seq<byte>, depth: nat)
    requires SkipMessage(s, depth).ok && SkipMessage(s, depth).lastTag != 0
    ensures var r := SkipMessage(s, depth);
            SkipMessage(s + t, depth) == GroupBody(r.fields, r.ok, r.lastTag, r.rest + t)
    decreases |s|, 0
  {
    TagPrefix(s, t);
    var Tag(tag, rest) := ReadTag(s);
    if WireType(tag) != END_GROUP {
      SkipPrefix(rest, t, tag, depth);
      BodyPrefix(SkipField(rest, tag, depth).rest, t, depth);
    }
  }

  // ---------------------------------------------------------------- sizes

  /** The size of one unknown field, by type, summed in an `int`; `exact` says that no sum has gone out of range. */
  method UnknownFieldSize(f: UnknownField, ghost depth: nat) returns (size: int32, exact: bool)
    requires ValidField(f, depth)
    ensures Counts(size, exact, |FieldBytes(f)|)
    decreases f, 1
  {
    hide VarintBytes, Counts;
    var tagSize := SizeOfVarint32(TagOf(f));
    var payload, payloadExact := PayloadSize(f, depth);
    size, exact := AddSize(tagSize, true, payload, payloadExact, |VarintBytes(TagOf(f))|, |PayloadBytes(f)|);
  }

  method SizeOfVarint32(v: uint32) returns (size: int32)
    ensures Counts(size, true, |VarintBytes(v)|)
  {
    SizeIsLength32(v);
    size := VarintSize32(v);
  }

  method PayloadSize(f: UnknownField, ghost depth: nat) returns (size: int32, exact: bool)
    requires ValidField(f, depth)
    ensures Counts(size, exact, |PayloadBytes(f)|)
    decreases f, 0, 1
  {
    hide VarintBytes;
    match f {
      case UVarint(_, v) =>
        SizeIsLength64(v);
        return VarintSize64(v), true;
      case UFixed32(_, _) =>
        return 4, true;
      case UFixed64(_, _) =>
        return 8, true;
      case ULength(_, data) =>
        size := SizeOfVarint32(|data|);
        size, exact := AddSize(size, true, |data|, true, |VarintBytes(|data|)|, |data|);
      case UGroup(number, fields) =>
        size, exact := UnknownFieldsSize(fields, depth - 1);
        var endSize := SizeOfVarint32(MakeTag(number, END_GROUP));
        size, exact := AddSize(size, exact, endSize, true, |FieldsBytes(fields)|,
                               |VarintBytes(MakeTag(number, END_GROUP))|);
    }
  }

  /** The size of a list of unknown fields: the loop adds one field at a time. */
  method UnknownFieldsSize(fs: seq<UnknownField>, ghost depth: nat) returns (size: int32, exact: bool)
    requires ValidFields(fs, depth)
    ensures Counts(size, exact, |FieldsBytes(fs)|)
    decreases fs, 0, 0
  {
    size, exact := 0, true;
    ghost var done: nat := 0;
    for i := 0 to |fs|
      invariant ValidFields(fs[i..], depth)
      invariant Counts(size, exact, done) && done + |FieldsBytes(fs[i..])| == |FieldsBytes(fs)|
    {
      var one, oneExact := UnknownFieldSize(fs[i], depth);
      assert fs[i..][1..] == fs[i + 1..];
      size, exact := AddSize(size, exact, one, oneExact, done, |FieldBytes(fs[i])|);
      done := done + |FieldBytes(fs[i])|;
    }
  }
}
