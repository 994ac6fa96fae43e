/** The wire form of `ListenConfig`, and of `ServerActive`, which nests one behind a length prefix. */
module ConfigWire {
  import opened Bytes
  import opened Varint
  import opened Wire
  import opened Options
  import HeaderRecords

  // ---------------------------------------------------------------- what a message says

  datatype Config = Config(connectionType: Option<int>, listenIP: Option<seq<byte>>, listenPort: Option<int32>,
                           maxConnection: Option<int32>, udp: Option<bool>, unknown: seq<UnknownField>)

  const NO_CONFIG := Config(None, None, None, None, None, [])

  predicate IsConnectionType(v: int) { -1 <= v <= 10 }

  function Later<T>(a: Option<T>, b: Option<T>): Option<T> { if b.Some? then b else a }

  function MergeConfig(a: Config, b: Config): Config {
    Config(Later(a.connectionType, b.connectionType), Later(a.listenIP, b.listenIP),
           Later(a.listenPort, b.listenPort), Later(a.maxConnection, b.maxConnection), Later(a.udp, b.udp),
           a.unknown + b.unknown)
  }

  lemma MergeConfigAssociative(a: Config, b: Config, c: Config)
    ensures MergeConfig(MergeConfig(a, b), c) == MergeConfig(a, MergeConfig(b, c))
    ensures MergeConfig(a, NO_CONFIG) == a == MergeConfig(NO_CONFIG, a)
  {
    assert a.unknown + b.unknown + c.unknown == a.unknown + (b.unknown + c.unknown);
    assert a.unknown + [] == a.unknown == [] + a.unknown;
  }

  /** `remote` is absent when the nested message is, whatever the pointer holds. */
  datatype Active = Active(remote: Option<Config>, unknown: seq<UnknownField>)

  const NO_ACTIVE := Active(None, [])

  // ---------------------------------------------------------------- fields of a config

  /** What one field does to a config; an enum value that is not known goes to the unknown fields, cut to 32 bits. */
  function ApplyField(c: Config, f: UnknownField): Config {
    if f.UVarint? && f.number == 1 then
      var v := ToInt32(Low32(f.varint));
      if IsConnectionType(v) then c.(connectionType := Some(v))
      else c.(unknown := c.unknown + [UVarint(1, SignExtend(v))])
    else if f.ULength? && f.number == 2 then c.(listenIP := Some(f.data))
    else if f.UVarint? && f.number == 3 then c.(listenPort := Some(ToInt32(Low32(f.varint))))
    else if f.UVarint? && f.number == 4 then c.(maxConnection := Some(ToInt32(Low32(f.varint))))
    else if f.UVarint? && f.number == 5 then c.(udp := Some(Low32(f.varint) != 0))
    else c.(unknown := c.unknown + [f])
  }

  function ApplyFields(c: Config, fs: seq<UnknownField>): Config
    decreases |fs|
  {
    if fs == [] then c else ApplyFields(ApplyField(c, fs[0]), fs[1..])
  }

  lemma {:induction false} ApplyFieldsAppend(c: Config, fs: seq<UnknownField>, gs: seq<UnknownField>)
    ensures ApplyFields(c, fs + gs) == ApplyFields(ApplyFields(c, fs), gs)
    decreases |fs|
  {
    if fs == [] {
      assert fs + gs == gs;
    } else {
      assert (fs + gs)[0] == fs[0] && (fs + gs)[1..] == fs[1..] + gs;
      ApplyFieldsAppend(ApplyField(c, fs[0]), fs[1..], gs);
    }
  }

  /** No case of the parser takes the field or changes it. */
  predicate StaysUnknown(f: UnknownField) { ApplyField(NO_CONFIG, f) == NO_CONFIG.(unknown := [f]) }

  predicate ConfigUnknown(f: UnknownField, depth: nat) { ValidField(f, depth) && StaysUnknown(f) }

  lemma UnknownIsAppended(c: Config, f: UnknownField)
    requires StaysUnknown(f)
    ensures ApplyField(c, f) == c.(unknown := c.unknown + [f])
  {
    assert [] + [f] == [f];
  }

  lemma {:induction false} ApplyUnknownFields(c: Config, fs: seq<UnknownField>)
    requires forall i :: 0 <= i < |fs| ==> StaysUnknown(fs[i])
    ensures ApplyFields(c, fs) == c.(unknown := c.unknown + fs)
    decreases |fs|
  {
    if fs == [] {
      assert c.unknown + [] == c.unknown;
    } else {
      hide ApplyField, StaysUnknown;
      UnknownIsAppended(c, fs[0]);
      ApplyUnknownFields(ApplyField(c, fs[0]), fs[1..]);
      assert c.unknown + [fs[0]] + fs[1..] == c.unknown + fs;
    }
  }

  // ---------------------------------------------------------------- writing a config

  function NumberField(k: nat, v: Option<int>): seq<UnknownField>
    requires v.Some? ==> -TWO_31 <= v.value < TWO_31
  {
    if v.Some? then [UVarint(k, SignExtend(v.value))] else []
  }

  function TextField(k: nat, t: Option<seq<byte>>): seq<UnknownField> {
    if t.Some? then [ULength(k, t.value)] else []
  }

  function BoolField(k: nat, b: Option<bool>): seq<UnknownField> {
    if b.Some? then [UVarint(k, if b.value then 1 else 0)] else []
  }

  predicate TypeOk(c: Config) { c.connectionType.Some? ==> IsConnectionType(c.connectionType.value) }

  /** The known fields in the order in which they are written. */
  function KnownFields(c: Config): seq<UnknownField>
    requires TypeOk(c)
  {
    NumberField(1, c.connectionType) + TextField(2, c.listenIP) + NumberField(3, c.listenPort) +
    NumberField(4, c.maxConnection) + BoolField(5, c.udp)
  }

  function ConfigFields(c: Config): seq<UnknownField>
    requires TypeOk(c)
  {
    KnownFields(c) + c.unknown
  }

  function ConfigBytes(c: Config): seq<byte>
    requires TypeOk(c)
  {
    FieldsBytes(ConfigFields(c))
  }

  lemma OneFieldBytes(f: UnknownField)
    requires 1 <= f.number <= 15
    ensures FieldsBytes([f]) == VarintBytes(TagOf(f)) + PayloadBytes(f) && |VarintBytes(TagOf(f))| == 1
  {
    SizeIsLength32(TagOf(f));
    assert [f][1..] == [] && FieldBytes(f) + [] == FieldBytes(f);
  }

  /** The known part is the fields one after the other. */
  lemma KnownSections(c: Config)
    requires TypeOk(c)
    ensures FieldsBytes(KnownFields(c)) ==
              FieldsBytes(NumberField(1, c.connectionType)) + FieldsBytes(TextField(2, c.listenIP)) +
              FieldsBytes(NumberField(3, c.listenPort)) + FieldsBytes(NumberField(4, c.maxConnection)) +
              FieldsBytes(BoolField(5, c.udp))
  {
    hide FieldsBytes, NumberField, TextField, BoolField;
    var f1, f2, f3 := NumberField(1, c.connectionType), TextField(2, c.listenIP), NumberField(3, c.listenPort);
    var f4, f5 := NumberField(4, c.maxConnection), BoolField(5, c.udp);
    FieldsBytesAppend(f1, f2);
    FieldsBytesAppend(f1 + f2, f3);
    FieldsBytesAppend(f1 + f2 + f3, f4);
    FieldsBytesAppend(f1 + f2 + f3 + f4, f5);
  }

  /** A message that the accessors and the parser can produce. */
  predicate ConfigOk(c: Config, depth: nat) {
    && TypeOk(c)
    && (c.listenIP.Some? ==> |c.listenIP.value| < TWO_31)
    && forall i :: 0 <= i < |c.unknown| ==> ConfigUnknown(c.unknown[i], depth)
  }

  // ---------------------------------------------------------------- reading a config

  /** The plain loop over all fields; `None` unless every byte belongs to a complete field. */
  function ReadFields(s: seq<byte>, depth: nat): Option<seq<UnknownField>>
    decreases |s|
  {
    match ReadTag(s)
    case EndOfInput => Some([])
    case ZeroTag => None
    case Tag(tag, rest) =>
      if WireType(tag) == END_GROUP then None
      else match SkipField(rest, tag, depth)
        case SkipFailed(_) => None
        case Skipped(f, rest') =>
          var more := ReadFields(rest', depth);
          if more.Some? then Some([f] + more.value) else None
  }

  /** The config after its input has been read into `c`; groups may nest `depth` deep. */
  function ParseConfig(s: seq<byte>, depth: nat, c: Config): Option<Config> {
    var fs := ReadFields(s, depth);
    if fs.Some? then Some(ApplyFields(c, fs.value)) else None
  }

  lemma ReadFirst(f: UnknownField, u: seq<byte>, depth: nat)
    requires ValidField(f, depth)
    ensures ReadTag(FieldBytes(f) + u) == Tag(TagOf(f), PayloadBytes(f) + u) && WireType(TagOf(f)) != END_GROUP
    ensures SkipField(PayloadBytes(f) + u, TagOf(f), depth) == Skipped(f, u)
  {
    ConcatAssoc(VarintBytes(TagOf(f)), PayloadBytes(f), u);
    TagRoundTrip(TagOf(f), PayloadBytes(f) + u);
    PayloadRoundTrip(f, u, depth);
  }

  lemma {:induction false} ReadFieldsRoundTrip(fs: seq<UnknownField>, depth: nat)
    requires ValidFields(fs, depth)
    ensures ReadFields(FieldsBytes(fs), depth) == Some(fs)
  {
    if fs == [] {
    } else {
      ReadFirst(fs[0], FieldsBytes(fs[1..]), depth);
      ReadFieldsRoundTrip(fs[1..], depth);
      assert [fs[0]] + fs[1..] == fs;
    }
  }

  lemma {:induction false} ValidFieldsAppend(fs: seq<UnknownField>, gs: seq<UnknownField>, depth: nat)
    ensures ValidFields(fs + gs, depth) <==> ValidFields(fs, depth) && ValidFields(gs, depth)
  {
    if fs == [] {
      assert fs + gs == gs;
    } else {
      assert (fs + gs)[0] == fs[0] && (fs + gs)[1..] == fs[1..] + gs;
      ValidFieldsAppend(fs[1..], gs, depth);
    }
  }

  lemma {:induction false} EachIsValid(fs: seq<UnknownField>, depth: nat)
    ensures ValidFields(fs, depth) <==> forall i :: 0 <= i < |fs| ==> ValidField(fs[i], depth)
  {
    if fs == [] {
    } else {
      EachIsValid(fs[1..], depth);
      assert forall i :: 1 <= i < |fs| ==> fs[i] == fs[1..][i - 1];
    }
  }

  lemma KnownFieldsAreValid(c: Config, depth: nat)
    requires TypeOk(c) && (c.listenIP.Some? ==> |c.listenIP.value| < TWO_31)
    ensures ValidFields(KnownFields(c), depth)
  {
    EachIsValid(KnownFields(c), depth);
  }

  lemma ConfigIsValid(c: Config, depth: nat)
    requires TypeOk(c) && (c.listenIP.Some? ==> |c.listenIP.value| < TWO_31)
    ensures ValidFields(ConfigFields(c), depth) <==> ValidFields(c.unknown, depth)
  {
    KnownFieldsAreValid(c, depth);
    ValidFieldsAppend(KnownFields(c), c.unknown, depth);
  }

  lemma NumberIsApplied(c: Config, k: nat, v: int32)
    requires k == 1 ==> IsConnectionType(v)
    requires k == 1 || k == 3 || k == 4
    ensures ApplyFields(c, NumberField(k, Some(v))) ==
              if k == 1 then c.(connectionType := Some(v))
              else if k == 3 then c.(listenPort := Some(v))
              else c.(maxConnection := Some(v))
  {
    SignExtendThenTruncate(v);
    OneField(c, UVarint(k, SignExtend(v)));
  }

  lemma OneField(c: Config, f: UnknownField)
    ensures ApplyFields(c, [f]) == ApplyField(c, f)
  {
    assert [f][1..] == [];
  }

  lemma KnownFieldsRebuild(c: Config)
    requires TypeOk(c)
    ensures ApplyFields(NO_CONFIG, KnownFields(c)) == c.(unknown := [])
  {
    var f1, f2, f3 := NumberField(1, c.connectionType), TextField(2, c.listenIP), NumberField(3, c.listenPort);
    var f4, f5 := NumberField(4, c.maxConnection), BoolField(5, c.udp);
    var c1 := NO_CONFIG.(connectionType := c.connectionType);
    var c2 := c1.(listenIP := c.listenIP);
    var c3 := c2.(listenPort := c.listenPort);
    var c4 := c3.(maxConnection := c.maxConnection);
    if c.connectionType.Some? { NumberIsApplied(NO_CONFIG, 1, c.connectionType.value); }
    if c.listenIP.Some? { OneField(c1, ULength(2, c.listenIP.value)); }
    if c.listenPort.Some? { NumberIsApplied(c2, 3, c.listenPort.value); }
    if c.maxConnection.Some? { NumberIsApplied(c3, 4, c.maxConnection.value); }
    if c.udp.Some? { OneField(c4, f5[0]); }
    hide ApplyFields, NumberField, TextField, BoolField;
    ApplyFieldsAppend(NO_CONFIG, f1, f2);
    ApplyFieldsAppend(NO_CONFIG, f1 + f2, f3);
    ApplyFieldsAppend(NO_CONFIG, f1 + f2 + f3, f4);
    ApplyFieldsAppend(NO_CONFIG, f1 + f2 + f3 + f4, f5);
  }

  /** The fields of a config rebuild it. */
  lemma FieldsRebuild(c: Config)
    requires TypeOk(c) && forall i :: 0 <= i < |c.unknown| ==> StaysUnknown(c.unknown[i])
    ensures ApplyFields(NO_CONFIG, ConfigFields(c)) == c
  {
    hide KnownFields, ApplyFields, StaysUnknown, ApplyField;
    KnownFieldsRebuild(c);
    ApplyUnknownFields(c.(unknown := []), c.unknown);
    assert [] + c.unknown == c.unknown;
    ApplyFieldsAppend(NO_CONFIG, KnownFields(c), c.unknown);
  }

  /** Reading the written form of a config gives it back exactly when its unknown groups nest no deeper than the reader
      allows; otherwise the read fails. */
  lemma ConfigRoundTrip(c: Config, written: nat, depth: nat)
    requires ConfigOk(c, written)
    ensures ParseConfig(ConfigBytes(c), depth, NO_CONFIG) ==
              if ValidFields(c.unknown, depth) then Some(c) else None
  {
    ConfigIsValid(c, depth);
    ConfigIsValid(c, written);
    EachIsValid(c.unknown, written);
    if ValidFields(c.unknown, depth) {
      ReadFieldsRoundTrip(ConfigFields(c), depth);
      FieldsRebuild(c);
    } else {
      TooDeepIsNotRead(ConfigFields(c), written, depth);
    }
  }

  lemma FieldKeepsOk(c: Config, f: UnknownField, depth: nat)
    requires ConfigOk(c, depth) && ValidField(f, depth)
    ensures ConfigOk(ApplyField(c, f), depth)
  {
    if f.UVarint? && f.number == 1 {
      SignExtendThenTruncate(ToInt32(Low32(f.varint)));
    }
    assert StaysUnknown(f) || ApplyField(c, f).unknown == c.unknown || (f.UVarint? && f.number == 1);
  }

  lemma {:induction false} FieldsKeepOk(c: Config, fs: seq<UnknownField>, depth: nat)
    requires ConfigOk(c, depth) && ValidFields(fs, depth)
    ensures ConfigOk(ApplyFields(c, fs), depth)
    decreases |fs|
  {
    if fs == [] {
    } else {
      FieldKeepsOk(c, fs[0], depth);
      FieldsKeepOk(ApplyField(c, fs[0]), fs[1..], depth);
    }
  }

  lemma {:induction false} ReadFieldsAreValid(s: seq<byte>, depth: nat)
    ensures var fs := ReadFields(s, depth); fs.Some? ==> ValidFields(fs.value, depth)
    decreases |s|
  {
    match ReadTag(s)
    case Tag(tag, rest) =>
      SkippedIsValid(rest, tag, depth);
      var skip := SkipField(rest, tag, depth);
      if skip.Skipped? { ReadFieldsAreValid(skip.rest, depth); }
    case _ =>
  }

  /** What is read is always a message that the round trip holds for, with the depth of its own reader. */
  lemma ParsedIsOk(s: seq<byte>, depth: nat, c: Config)
    requires ConfigOk(c, depth)
    ensures var r := ParseConfig(s, depth, c); r.Some? ==> ConfigOk(r.value, depth)
  {
    ReadFieldsAreValid(s, depth);
    if ReadFields(s, depth).Some? { FieldsKeepOk(c, ReadFields(s, depth).value, depth); }
  }

  // ---------------------------------------------------------------- groups that nest too deep

  /** Only groups are too deep for a reader. */
  lemma TooDeepIsGroup(f: UnknownField, written: nat, depth: nat)
    requires ValidField(f, written) && !ValidField(f, depth)
    ensures f.UGroup? && written > 0 && ValidFields(f.fields, written - 1)
    ensures depth > 0 ==> !ValidFields(f.fields, depth - 1)
    ensures WireType(TagOf(f)) == START_GROUP && 0 <= TagOf(f) < TWO_32 && 0 <= MakeTag(f.number, END_GROUP)
  {
  }

  lemma GroupIsNotSkipped(s: seq<byte>, tag: uint32, depth: nat)
    requires WireType(tag) == START_GROUP && (depth == 0 || !SkipMessage(s, depth - 1).ok)
    ensures SkipField(s, tag, depth).SkipFailed?
  {
  }

  lemma GroupPayload(f: UnknownField, rest: seq<byte>)
    requires f.UGroup?
    ensures PayloadBytes(f) + rest == FieldsBytes(f.fields) + (VarintBytes(MakeTag(f.number, END_GROUP)) + rest)
  {
    ConcatAssoc(FieldsBytes(f.fields), VarintBytes(MakeTag(f.number, END_GROUP)), rest);
  }

  /** A written field that nests deeper than the reader allows makes it fail. */
  lemma {:induction false} TooDeepIsNotSkipped(f: UnknownField, rest: seq<byte>, written: nat, depth: nat)
    requires ValidField(f, written) && !ValidField(f, depth)
    ensures f.UGroup? && SkipField(PayloadBytes(f) + rest, TagOf(f), depth).SkipFailed?
    decreases f, 1
  {
    TooDeepIsGroup(f, written, depth);
    GroupPayload(f, rest);
    hide *;
    var inside := VarintBytes(MakeTag(f.number, END_GROUP)) + rest;
    if depth == 0 {
    } else {
      TooDeepInGroup(f.fields, inside, written - 1, depth - 1);
    }
    GroupIsNotSkipped(FieldsBytes(f.fields) + inside, TagOf(f), depth);
  }

  lemma {:induction false} TooDeepInGroup(fs: seq<UnknownField>, rest: seq<byte>, written: nat, depth: nat)
    requires ValidFields(fs, written) && !ValidFields(fs, depth)
    ensures !SkipMessage(FieldsBytes(fs) + rest, depth).ok
    decreases fs, 0
  {
    var u := FieldsBytes(fs[1..]) + rest;
    ConcatAssoc(FieldBytes(fs[0]), FieldsBytes(fs[1..]), rest);
    if ValidField(fs[0], depth) {
      MessageStep(fs[0], u, depth);
      TooDeepInGroup(fs[1..], rest, written, depth);
    } else {
      TagIsNext(fs[0], u, written);
      TooDeepIsNotSkipped(fs[0], u, written, depth);
    }
  }

  lemma TagIsNext(f: UnknownField, u: seq<byte>, written: nat)
    requires ValidField(f, written)
    ensures ReadTag(FieldBytes(f) + u) == Tag(TagOf(f), PayloadBytes(f) + u) && WireType(TagOf(f)) != END_GROUP
  {
    ReadFirst(f, u, written);
  }

  lemma {:induction false} TooDeepIsNotRead(fs: seq<UnknownField>, written: nat, depth: nat)
    requires ValidFields(fs, written) && !ValidFields(fs, depth)
    ensures ReadFields(FieldsBytes(fs), depth) == None
  {
    var u := FieldsBytes(fs[1..]);
    TagIsNext(fs[0], u, written);
    if ValidField(fs[0], depth) {
      ReadFirst(fs[0], u, depth);
      TooDeepIsNotRead(fs[1..], written, depth);
    } else {
      TooDeepIsNotSkipped(fs[0], u, written, depth);
    }
  }

  // ---------------------------------------------------------------- the message that nests a config

  function NestedBytes(c: Config, prefix: nat): seq<byte>
    requires TypeOk(c)
  {
    VarintBytes(MakeTag(1, LENGTH_DELIMITED)) + VarintBytes(prefix) + ConfigBytes(c)
  }

  /** What is written with `prefix` as the length of the nested message. */
  function ActiveBytesWith(m: Active, prefix: nat): seq<byte>
    requires m.remote.Some? ==> TypeOk(m.remote.value)
  {
    (if m.remote.Some? then NestedBytes(m.remote.value, prefix) else []) + FieldsBytes(m.unknown)
  }

  function NestedSize(m: Active): nat
    requires m.remote.Some? ==> TypeOk(m.remote.value)
  {
    if m.remote.Some? then |ConfigBytes(m.remote.value)| else 0
  }

  function ActiveBytes(m: Active): seq<byte>
    requires m.remote.Some? ==> TypeOk(m.remote.value)
  {
    ActiveBytesWith(m, NestedSize(m))
  }

  predicate ActiveUnknown(f: UnknownField) { ValidField(f, RECURSION_LIMIT) && !(f.ULength? && f.number == 1) }

  predicate ActiveOk(m: Active) {
    && (m.remote.Some? ==> ConfigOk(m.remote.value, RECURSION_LIMIT))
    && forall i :: 0 <= i < |m.unknown| ==> ActiveUnknown(m.unknown[i])
  }

  /** The plain loop: the nested message is read inside the window that its length cuts out, with one level of nesting
      less, and into what is there already. */
  function ReadActive(s: seq<byte>, depth: nat, m: Active): Option<Active>
    decreases |s|
  {
    match ReadTag(s)
    case EndOfInput => Some(m)
    case ZeroTag => None
    case Tag(tag, rest) =>
      if FieldNumber(tag) == 1 && WireType(tag) == LENGTH_DELIMITED then ReadNested(rest, depth, m)
      else if WireType(tag) == END_GROUP then None
      else match SkipField(rest, tag, depth)
        case SkipFailed(_) => None
        case Skipped(f, rest') => ReadActive(rest', depth, m.(unknown := m.unknown + [f]))
  }

  function ReadNested(s: seq<byte>, depth: nat, m: Active): Option<Active>
    decreases |s|
  {
    match ReadVarint32(s)
    case Malformed => None
    case Varint(declared, rest) =>
      var len := if HeaderRecords.PackedOverrun(declared, |rest|) then |rest| else declared;
      if depth == 0 then None
      else
        var nested := ParseConfig(rest[..len], depth - 1, GetOr(m.remote, NO_CONFIG));
        if nested.Some? then ReadActive(rest[len..], depth, m.(remote := Some(nested.value))) else None
  }

  lemma TagParts(f: UnknownField)
    ensures FieldNumber(TagOf(f)) == f.number && WireType(TagOf(f)) != END_GROUP
    ensures WireType(TagOf(f)) == LENGTH_DELIMITED <==> f.ULength?
  {
  }

  lemma UnknownStep(s: seq<byte>, tag: uint32, payload: seq<byte>, f: UnknownField, rest: seq<byte>, depth: nat,
                    m: Active)
    requires ReadTag(s) == Tag(tag, payload) && SkipField(payload, tag, depth) == Skipped(f, rest)
    requires WireType(tag) != END_GROUP && !(FieldNumber(tag) == 1 && WireType(tag) == LENGTH_DELIMITED)
    ensures ReadActive(s, depth, m) == ReadActive(rest, depth, m.(unknown := m.unknown + [f]))
  {
  }

  lemma UnknownFirst(f: UnknownField, u: seq<byte>, m: Active)
    requires ActiveUnknown(f)
    ensures ReadActive(FieldBytes(f) + u, RECURSION_LIMIT, m) ==
              ReadActive(u, RECURSION_LIMIT, m.(unknown := m.unknown + [f]))
  {
    TagParts(f);
    hide ReadActive, SkipField, ReadTag, FieldBytes, PayloadBytes, TagOf, ValidField, FieldNumber, WireType;
    ReadFirst(f, u, RECURSION_LIMIT);
    UnknownStep(FieldBytes(f) + u, TagOf(f), PayloadBytes(f) + u, f, u, RECURSION_LIMIT, m);
  }

  lemma NothingToRead(m: Active)
    ensures ReadActive([], RECURSION_LIMIT, m) == Some(m)
  {
  }

  lemma {:induction false} ReadActiveUnknown(fs: seq<UnknownField>, m: Active)
    requires forall i :: 0 <= i < |fs| ==> ActiveUnknown(fs[i])
    ensures ReadActive(FieldsBytes(fs), RECURSION_LIMIT, m) == Some(m.(unknown := m.unknown + fs))
    decreases |fs|
  {
    hide ReadActive, ActiveUnknown, FieldBytes;
    if fs == [] {
      NothingToRead(m);
      assert m.unknown + [] == m.unknown;
    } else {
      var m1 := m.(unknown := m.unknown + [fs[0]]);
      UnknownFirst(fs[0], FieldsBytes(fs[1..]), m);
      ReadActiveUnknown(fs[1..], m1);
      assert m1.unknown + fs[1..] == m.unknown + fs;
    }
  }

  lemma NestedStep(data: seq<byte>, u: seq<byte>, depth: nat, m: Active)
    requires |data| < TWO_31 && depth > 0
    ensures ReadNested(VarintBytes(|data|) + (data + u), depth, m) ==
              var nested := ParseConfig(data, depth - 1, GetOr(m.remote, NO_CONFIG));
              if nested.Some? then ReadActive(u, depth, m.(remote := Some(nested.value))) else None
  {
    RoundTrip32(|data|, data + u);
    assert (data + u)[..|data|] == data && (data + u)[|data|..] == u;
  }

  lemma PrefixedStep(data: seq<byte>, u: seq<byte>, depth: nat, m: Active)
    requires |data| < TWO_31 && depth > 0
    ensures ReadActive(VarintBytes(MakeTag(1, LENGTH_DELIMITED)) + VarintBytes(|data|) + data + u, depth, m) ==
              ReadNested(VarintBytes(|data|) + (data + u), depth, m)
  {
    var tag, length := VarintBytes(MakeTag(1, LENGTH_DELIMITED)), VarintBytes(|data|);
    assert tag + length + data + u == tag + (length + (data + u));
    TagRoundTrip(MakeTag(1, LENGTH_DELIMITED), length + (data + u));
  }

  /** Reading the written form of a message with a nested one gives it back exactly when the unknown groups of the nested
      message leave room for one more level; otherwise the read fails. */
  lemma ActiveRoundTrip(m: Active)
    requires ActiveOk(m) && |ActiveBytes(m)| < TWO_31
    ensures ReadActive(ActiveBytes(m), RECURSION_LIMIT, NO_ACTIVE) ==
              if m.remote.Some? && !ValidFields(m.remote.value.unknown, RECURSION_LIMIT - 1) then None else Some(m)
  {
    assert [] + m.unknown == m.unknown;
    if m.remote.Some? {
      var c, u := m.remote.value, FieldsBytes(m.unknown);
      hide ReadActive, ReadNested, ParseConfig, FieldsBytes, ConfigFields;
      PrefixedStep(ConfigBytes(c), u, RECURSION_LIMIT, NO_ACTIVE);
      NestedStep(ConfigBytes(c), u, RECURSION_LIMIT, NO_ACTIVE);
      ConfigRoundTrip(c, RECURSION_LIMIT, RECURSION_LIMIT - 1);
      ReadActiveUnknown(m.unknown, Active(Some(c), []));
    } else {
      assert [] + FieldsBytes(m.unknown) == FieldsBytes(m.unknown);
      ReadActiveUnknown(m.unknown, NO_ACTIVE);
    }
  }

  /** The written form is the right one exactly when the prefix is the size of the nested message. */
  lemma PrefixHasToFit(m: Active, prefix: nat)
    requires m.remote.Some? && TypeOk(m.remote.value) && prefix < TWO_32 && NestedSize(m) < TWO_32
    ensures ActiveBytesWith(m, prefix) == ActiveBytes(m) <==> prefix == NestedSize(m)
  {
    var tag, data := VarintBytes(MakeTag(1, LENGTH_DELIMITED)), ConfigBytes(m.remote.value) + FieldsBytes(m.unknown);
    forall n: nat ensures ActiveBytesWith(m, n) == tag + (VarintBytes(n) + data) { }
    if ActiveBytesWith(m, prefix) == ActiveBytes(m) {
      var s, t := VarintBytes(prefix) + data, VarintBytes(NestedSize(m)) + data;
      assert s == (tag + s)[|tag|..] == (tag + t)[|tag|..] == t;
      RoundTrip32(prefix, data);
      RoundTrip32(NestedSize(m), data);
    }
  }

  // ---------------------------------------------------------------- a message that is too deep

  /** Groups of field 6 inside one another: `n` of them around an empty one. */
  function Nest(n: nat): UnknownField { UGroup(6, if n == 0 then [] else [Nest(n - 1)]) }

  lemma OneFieldOnly(f: UnknownField, depth: nat)
    ensures FieldsBytes([f]) == FieldBytes(f) && (ValidFields([f], depth) <==> ValidField(f, depth))
  {
    assert [f][1..] == [];
    assert FieldBytes(f) + [] == FieldBytes(f);
  }

  lemma {:induction false} NestDepth(n: nat, depth: nat)
    ensures ValidField(Nest(n), depth) <==> depth > n
    ensures |FieldBytes(Nest(n))| == 2 * n + 2
  {
    var inside := if depth > 0 then depth - 1 else 0;
    assert VarintBytes(MakeTag(6, START_GROUP)) == [51] && VarintBytes(MakeTag(6, END_GROUP)) == [52];
    if n == 0 {
      assert PayloadBytes(Nest(0)) == [] + [52];
    } else {
      NestDepth(n - 1, inside);
      OneFieldOnly(Nest(n - 1), inside);
    }
  }

  /** A nested message with groups that it could hold by itself, and that cannot be read back. */
  lemma TooDeepExample()
    ensures var m := Active(Some(NO_CONFIG.(unknown := [Nest(99)])), []);
            && ActiveOk(m) && |ActiveBytes(m)| < TWO_31
            && ReadActive(ActiveBytes(m), RECURSION_LIMIT, NO_ACTIVE) == None
  {
    var c := NO_CONFIG.(unknown := [Nest(99)]);
    var m := Active(Some(c), []);
    NestDepth(99, RECURSION_LIMIT);
    NestDepth(99, RECURSION_LIMIT - 1);
    assert ConfigFields(c) == [Nest(99)];
    assert [Nest(99)][1..] == [];
    assert |ConfigBytes(c)| == 200;
    SizeIsLength32(200);
    SizeIsLength32(MakeTag(1, LENGTH_DELIMITED));
    ActiveRoundTrip(m);
  }
}
