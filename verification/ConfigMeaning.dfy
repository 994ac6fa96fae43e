/** The nested messages in plain numbers: what each field does to a config, what reading in one go and in parts means, and
    which bytes are written. */
module ConfigMeaning {
  import opened Bytes
  import opened Varint
  import opened Wire
  import opened Options
  import opened WireNumbers
  import opened ConfigWire

  // ---------------------------------------------------------------- one field

  /** `v` is the int32 that is congruent to `n` modulo 2^32. */
  predicate IsInt32Of(v: int, n: nat) { -0x8000_0000 <= v < 0x8000_0000 && (v - n) % 0x1_0000_0000 == 0 }

  /** Field 1 is an enum with the values -1 to 10; another value is kept as an unknown field, sign-extended. Field 2 is a
      string, 3 and 4 are int32, 5 is true unless its low 32 bits are all zero. Everything else is unknown. */
  lemma FieldMeaning(c: Config, f: UnknownField, v: int)
    ensures f.UVarint? && f.number == 1 && IsInt32Of(v, f.varint) ==>
              ApplyField(c, f) ==
                if v in {-1, 0, 1, 2, 3, 4, 5, 6, 7, 8, 9, 10} then c.(connectionType := Some(v))
                else c.(unknown := c.unknown + [UVarint(1, if v < 0 then 0x1_0000_0000_0000_0000 + v else v)])
    ensures f.ULength? && f.number == 2 ==> ApplyField(c, f) == c.(listenIP := Some(f.data))
    ensures f.UVarint? && f.number == 3 && IsInt32Of(v, f.varint) ==> ApplyField(c, f) == c.(listenPort := Some(v))
    ensures f.UVarint? && f.number == 4 && IsInt32Of(v, f.varint) ==> ApplyField(c, f) == c.(maxConnection := Some(v))
    ensures f.UVarint? && f.number == 5 ==> ApplyField(c, f) == c.(udp := Some(f.varint % 0x1_0000_0000 != 0))
    ensures !(f.UVarint? && f.number in {1, 3, 4, 5}) && !(f.ULength? && f.number == 2) ==>
              ApplyField(c, f) == c.(unknown := c.unknown + [f])
  {
    if f.UVarint? && IsInt32Of(v, f.varint) { ReadIsCongruent(f.varint, v); }
  }

  // ---------------------------------------------------------------- all fields

  datatype Value = Number(v: int) | Text(t: seq<byte>) | Truth(b: bool)

  /** Field `k` of a config, if it is present. */
  function FieldOf(c: Config, k: nat): Option<Value>
    requires 1 <= k <= 5
  {
    match k
    case 1 => if c.connectionType.Some? then Some(Number(c.connectionType.value)) else None
    case 2 => if c.listenIP.Some? then Some(Text(c.listenIP.value)) else None
    case 3 => if c.listenPort.Some? then Some(Number(c.listenPort.value)) else None
    case 4 => if c.maxConnection.Some? then Some(Number(c.maxConnection.value)) else None
    case _ => if c.udp.Some? then Some(Truth(c.udp.value)) else None
  }

  /** What a field says on its own. */
  function Says(f: UnknownField): Config { ApplyField(NO_CONFIG, f) }

  predicate SetsField(f: UnknownField, k: nat)
    requires 1 <= k <= 5
  {
    FieldOf(Says(f), k).Some?
  }

  predicate LastOf(fs: seq<UnknownField>, i: nat, k: nat)
    requires 1 <= k <= 5
  {
    i < |fs| && SetsField(fs[i], k) && forall j :: i < j < |fs| ==> !SetsField(fs[j], k)
  }

  function UnknownOf(fs: seq<UnknownField>): seq<UnknownField> {
    if fs == [] then [] else UnknownOf(fs[..|fs| - 1]) + Says(fs[|fs| - 1]).unknown
  }

  lemma OneMore(c: Config, fs: seq<UnknownField>, f: UnknownField)
    ensures ApplyFields(c, fs + [f]) == ApplyField(ApplyFields(c, fs), f)
  {
    ApplyFieldsAppend(c, fs, [f]);
    OneField(ApplyFields(c, fs), f);
  }

  /** A field sets what it says on its own, whatever was there, and leaves the rest alone. */
  lemma FieldSets(c: Config, f: UnknownField, k: nat)
    requires 1 <= k <= 5
    ensures FieldOf(ApplyField(c, f), k) == if SetsField(f, k) then FieldOf(Says(f), k) else FieldOf(c, k)
    ensures ApplyField(c, f).unknown == c.unknown + Says(f).unknown
  {
    assert forall u: UnknownField :: [] + [u] == [u];
    assert c.unknown + [] == c.unknown;
  }

  /** The last field that sets a value wins, a value that no field sets stays, and the unknown fields are appended in
      order. */
  lemma {:induction false} LastFieldWins(c: Config, fs: seq<UnknownField>, k: nat, i: nat)
    requires 1 <= k <= 5
    ensures LastOf(fs, i, k) ==> FieldOf(ApplyFields(c, fs), k) == FieldOf(Says(fs[i]), k)
    ensures (forall j :: 0 <= j < |fs| ==> !SetsField(fs[j], k)) ==> FieldOf(ApplyFields(c, fs), k) == FieldOf(c, k)
    ensures ApplyFields(c, fs).unknown == c.unknown + UnknownOf(fs)
    decreases |fs|
  {
    if fs == [] {
      assert c.unknown + [] == c.unknown;
    } else {
      var n := |fs| - 1;
      var init, last := fs[..n], fs[n];
      assert fs == init + [last];
      hide ApplyFields, ApplyField, FieldOf, Says;
      OneMore(c, init, last);
      FieldSets(ApplyFields(c, init), last, k);
      LastFieldWins(c, init, k, i);
      if LastOf(fs, i, k) && i < n { assert LastOf(init, i, k); }
      ConcatAssoc(c.unknown, UnknownOf(init), Says(last).unknown);
    }
  }

  // ---------------------------------------------------------------- reading and merging

  lemma FieldIsMerge(c: Config, f: UnknownField)
    ensures ApplyField(c, f) == MergeConfig(c, Says(f))
  {
    assert forall u: UnknownField :: [] + [u] == [u];
    assert c.unknown + [] == c.unknown;
  }

  /** Reading fields into a config is merging what they say on their own. */
  lemma {:induction false} FieldsAreMerge(c: Config, fs: seq<UnknownField>)
    ensures ApplyFields(c, fs) == MergeConfig(c, ApplyFields(NO_CONFIG, fs))
    decreases |fs|
  {
    if fs == [] {
      MergeConfigAssociative(c, NO_CONFIG, NO_CONFIG);
    } else {
      var one, rest := Says(fs[0]), fs[1..];
      FieldIsMerge(c, fs[0]);
      FieldsAreMerge(ApplyField(c, fs[0]), rest);
      FieldsAreMerge(one, rest);
      MergeConfigAssociative(c, one, ApplyFields(NO_CONFIG, rest));
    }
  }

  /** Reading an input into a config is merging what it says on its own. */
  lemma ParseIsMerge(s: seq<byte>, depth: nat, c: Config)
    ensures var alone := ParseConfig(s, depth, NO_CONFIG);
            ParseConfig(s, depth, c) == if alone.Some? then Some(MergeConfig(c, alone.value)) else None
  {
    if ReadFields(s, depth).Some? { FieldsAreMerge(c, ReadFields(s, depth).value); }
  }

  lemma FirstField(s: seq<byte>, tag: uint32, payload: seq<byte>, f: UnknownField, rest: seq<byte>, depth: nat)
    requires ReadTag(s) == Tag(tag, payload) && WireType(tag) != END_GROUP
    requires SkipField(payload, tag, depth) == Skipped(f, rest)
    ensures var more := ReadFields(rest, depth);
            ReadFields(s, depth) == if more.Some? then Some([f] + more.value) else None
  {
  }

  lemma {:induction false} ReadFieldsConcat(a: seq<byte>, b: seq<byte>, depth: nat)
    requires ReadFields(a, depth).Some?
    ensures var more := ReadFields(b, depth);
            ReadFields(a + b, depth) == if more.Some? then Some(ReadFields(a, depth).value + more.value) else None
    decreases |a|
  {
    match ReadTag(a)
    case EndOfInput =>
      assert a + b == b;
      assert ReadFields(b, depth).Some? ==> [] + ReadFields(b, depth).value == ReadFields(b, depth).value;
    case Tag(tag, payload) =>
      var Skipped(f, rest) := SkipField(payload, tag, depth);
      TagPrefix(a, b);
      SkipPrefix(payload, b, tag, depth);
      FirstField(a, tag, payload, f, rest, depth);
      FirstField(a + b, tag, payload + b, f, rest + b, depth);
      ReadFieldsConcat(rest, b, depth);
      hide ReadFields;
      if ReadFields(b, depth).Some? {
        ConcatAssoc([f], ReadFields(rest, depth).value, ReadFields(b, depth).value);
      }
    case ZeroTag =>
  }

  /** Reading a concatenation is merging: whatever the second part is, if the first is a config. */
  lemma ConcatIsMerge(a: seq<byte>, b: seq<byte>, depth: nat, c: Config)
    requires ParseConfig(a, depth, NO_CONFIG).Some?
    ensures var first, second := ParseConfig(a, depth, NO_CONFIG).value, ParseConfig(b, depth, NO_CONFIG);
            ParseConfig(a + b, depth, c) ==
              if second.Some? then Some(MergeConfig(c, MergeConfig(first, second.value))) else None
  {
    ReadFieldsConcat(a, b, depth);
    if ReadFields(b, depth).Some? {
      var fs, gs := ReadFields(a, depth).value, ReadFields(b, depth).value;
      ApplyFieldsAppend(NO_CONFIG, fs, gs);
      FieldsAreMerge(ApplyFields(NO_CONFIG, fs), gs);
      FieldsAreMerge(c, fs + gs);
    }
  }

  /** The written forms of two configs, one behind the other, are read as their merge. */
  lemma WrittenConcatIsMerge(a: Config, b: Config, depth: nat)
    requires ConfigOk(a, depth) && ConfigOk(b, depth)
    ensures ParseConfig(ConfigBytes(a) + ConfigBytes(b), depth, NO_CONFIG) == Some(MergeConfig(a, b))
  {
    EachIsValid(a.unknown, depth);
    EachIsValid(b.unknown, depth);
    ConfigRoundTrip(a, depth, depth);
    ConfigRoundTrip(b, depth, depth);
    ConcatIsMerge(ConfigBytes(a), ConfigBytes(b), depth, NO_CONFIG);
    MergeConfigAssociative(MergeConfig(a, b), NO_CONFIG, NO_CONFIG);
  }

  /** Where a read of a config ends: at the end of the input; a tag that is zero, malformed or 4 modulo 8, and a field that
      cannot be read, leave none. */
  lemma ConfigReadEnds(s: seq<byte>, depth: nat, c: Config)
    ensures s == [] ==> ParseConfig(s, depth, c) == Some(c)
    ensures s != [] && !ReadTag(s).Tag? ==> ParseConfig(s, depth, c) == None
    ensures ReadTag(s).Tag? && ReadTag(s).tag % 8 == 4 ==> ParseConfig(s, depth, c) == None
    ensures ReadTag(s).Tag? && SkipField(ReadTag(s).rest, ReadTag(s).tag, depth).SkipFailed? ==>
              ParseConfig(s, depth, c) == None
  {
  }

  // ---------------------------------------------------------------- the message that nests a config

  function MergeActive(a: Active, b: Active): Active {
    Active(if a.remote.Some? && b.remote.Some? then Some(MergeConfig(a.remote.value, b.remote.value))
           else if b.remote.Some? then b.remote else a.remote,
           a.unknown + b.unknown)
  }

  lemma MergeActiveAssociative(a: Active, b: Active, c: Active)
    ensures MergeActive(MergeActive(a, b), c) == MergeActive(a, MergeActive(b, c))
    ensures MergeActive(a, NO_ACTIVE) == a == MergeActive(NO_ACTIVE, a)
  {
    if a.remote.Some? && b.remote.Some? && c.remote.Some? {
      MergeConfigAssociative(a.remote.value, b.remote.value, c.remote.value);
    }
    ConcatAssoc(a.unknown, b.unknown, c.unknown);
    assert a.unknown + [] == a.unknown == [] + a.unknown;
  }

  lemma NestedTag(s: seq<byte>, payload: seq<byte>, depth: nat, m: Active)
    requires ReadTag(s) == Tag(10, payload)
    ensures ReadActive(s, depth, m) == ReadNested(payload, depth, m)
  {
  }

  lemma NestedWindow(payload: seq<byte>, declared: nat, body: seq<byte>, len: nat, depth: nat, m: Active)
    requires ReadVarint32(payload) == Varint(declared, body) && depth > 0
    requires len == if declared >= 0x8000_0000 || declared > |body| then |body| else declared
    ensures var nested := ParseConfig(body[..len], depth - 1, GetOr(m.remote, NO_CONFIG));
            ReadNested(payload, depth, m) ==
              if nested.None? then None else ReadActive(body[len..], depth, m.(remote := Some(nested.value)))
  {
  }

  lemma NestedMerges(m: Active, x: Config)
    ensures MergeActive(m, Active(Some(x), [])) == m.(remote := Some(MergeConfig(GetOr(m.remote, NO_CONFIG), x)))
  {
    MergeConfigAssociative(x, NO_CONFIG, NO_CONFIG);
    assert m.unknown + [] == m.unknown;
  }

  /** Behind tag 10 comes a length. The nested input is that many bytes, or all that is left if the length is more than
      that or at least 2^31; it is merged into what is nested already, with one level of groups less. */
  lemma NestedIsRead(s: seq<byte>, payload: seq<byte>, depth: nat, m: Active)
    requires ReadTag(s) == Tag(10, payload) && depth > 0
    ensures ReadVarint32(payload).Malformed? ==> ReadActive(s, depth, m) == None
    ensures ReadVarint32(payload).Varint? ==>
              var declared, body := ReadVarint32(payload).value, ReadVarint32(payload).rest;
              var len := if declared >= 0x8000_0000 || declared > |body| then |body| else declared;
              var nested := ParseConfig(body[..len], depth - 1, NO_CONFIG);
              ReadActive(s, depth, m) ==
                if nested.None? then None
                else ReadActive(body[len..], depth, MergeActive(m, Active(Some(nested.value), [])))
  {
    NestedTag(s, payload, depth, m);
    if ReadVarint32(payload).Malformed? {
      NoNested(payload, depth, m);
    } else {
      hide ReadActive, ReadNested, ParseConfig, MergeConfig, MergeActive, ReadVarint32;
      var declared, body := ReadVarint32(payload).value, ReadVarint32(payload).rest;
      var len := if declared >= 0x8000_0000 || declared > |body| then |body| else declared;
      NestedWindow(payload, declared, body, len, depth, m);
      ParseIsMerge(body[..len], depth - 1, GetOr(m.remote, NO_CONFIG));
      var nested := ParseConfig(body[..len], depth - 1, NO_CONFIG);
      if nested.Some? { NestedMerges(m, nested.value); }
    }
  }

  lemma NoNested(payload: seq<byte>, depth: nat, m: Active)
    requires ReadVarint32(payload).Malformed?
    ensures ReadNested(payload, depth, m) == None
  {
  }

  /** Any other field is appended to the unknown ones; the read ends like that of a config. */
  lemma OtherIsRead(s: seq<byte>, depth: nat, m: Active)
    requires ReadTag(s).Tag? ==> ReadTag(s).tag != 10
    ensures s == [] ==> ReadActive(s, depth, m) == Some(m)
    ensures s != [] && !ReadTag(s).Tag? ==> ReadActive(s, depth, m) == None
    ensures ReadTag(s).Tag? && ReadTag(s).tag % 8 == 4 ==> ReadActive(s, depth, m) == None
    ensures ReadTag(s).Tag? && ReadTag(s).tag % 8 != 4 ==>
              var skip := SkipField(ReadTag(s).rest, ReadTag(s).tag, depth);
              ReadActive(s, depth, m) ==
                if skip.Skipped? then ReadActive(skip.rest, depth, MergeActive(m, Active(None, [skip.field]))) else None
  {
  }

  /** Reading an input into a message is merging what it says on its own, nested message into nested message. */
  lemma {:induction false} ReadActiveIsMerge(s: seq<byte>, depth: nat, m: Active)
    requires depth > 0
    ensures var alone := ReadActive(s, depth, NO_ACTIVE);
            ReadActive(s, depth, m) == if alone.Some? then Some(MergeActive(m, alone.value)) else None
    decreases |s|, 0
  {
    hide ReadActive, MergeActive, ParseConfig, SkipField;
    MergeActiveAssociative(m, NO_ACTIVE, NO_ACTIVE);
    if ReadTag(s).Tag? && ReadTag(s).tag == 10 {
      var payload := ReadTag(s).rest;
      NestedIsRead(s, payload, depth, m);
      NestedIsRead(s, payload, depth, NO_ACTIVE);
      if ReadVarint32(payload).Varint? {
        var declared, body := ReadVarint32(payload).value, ReadVarint32(payload).rest;
        var len := if declared >= 0x8000_0000 || declared > |body| then |body| else declared;
        var nested := ParseConfig(body[..len], depth - 1, NO_CONFIG);
        if nested.Some? { MergeInFront(body[len..], depth, m, Active(Some(nested.value), [])); }
      }
    } else {
      OtherIsRead(s, depth, m);
      OtherIsRead(s, depth, NO_ACTIVE);
      if ReadTag(s).Tag? && ReadTag(s).tag % 8 != 4 {
        var skip := SkipField(ReadTag(s).rest, ReadTag(s).tag, depth);
        if skip.Skipped? { MergeInFront(skip.rest, depth, m, Active(None, [skip.field])); }
      }
    }
  }

  lemma {:induction false} MergeInFront(rest: seq<byte>, depth: nat, m: Active, one: Active)
    requires depth > 0
    ensures var alone := ReadActive(rest, depth, MergeActive(NO_ACTIVE, one));
            ReadActive(rest, depth, MergeActive(m, one)) ==
              if alone.Some? then Some(MergeActive(m, alone.value)) else None
    decreases |rest|, 1
  {
    hide ReadActive, MergeActive;
    ReadActiveIsMerge(rest, depth, MergeActive(m, one));
    ReadActiveIsMerge(rest, depth, MergeActive(NO_ACTIVE, one));
    MergeActiveAssociative(one, NO_ACTIVE, NO_ACTIVE);
    var alone := ReadActive(rest, depth, NO_ACTIVE);
    if alone.Some? { MergeActiveAssociative(m, one, alone.value); }
  }

  // ---------------------------------------------------------------- writing

  function NumberInBytes(tag: byte, v: Option<int>): seq<byte>
    requires v.Some? ==> v.value >= -0x8000_0000
  {
    if v.None? then []
    else if v.value < 0 then [tag] + VarintBytes(0x1_0000_0000_0000_0000 + v.value)
    else [tag] + VarintBytes(v.value)
  }

  function TextInBytes(tag: byte, t: Option<seq<byte>>): seq<byte> {
    if t.None? then [] else [tag] + VarintBytes(|t.value|) + t.value
  }

  lemma NumberSection(k: nat, v: Option<int>)
    requires 1 <= k <= 15 && (v.Some? ==> -0x8000_0000 <= v.value < 0x8000_0000)
    ensures FieldsBytes(NumberField(k, v)) == NumberInBytes(8 * k, v)
  {
    if v.Some? {
      OneFieldBytes(UVarint(k, SignExtend(v.value)));
      SmallVarint(8 * k);
    }
  }

  lemma TextSection(k: nat, t: Option<seq<byte>>)
    requires 1 <= k <= 15
    ensures FieldsBytes(TextField(k, t)) == TextInBytes(8 * k + 2, t)
  {
    if t.Some? {
      OneFieldBytes(ULength(k, t.value));
      SmallVarint(8 * k + 2);
      ConcatAssoc([8 * k + 2], VarintBytes(|t.value|), t.value);
    }
  }

  lemma TruthSection(b: Option<bool>)
    ensures FieldsBytes(BoolField(5, b)) == if b.None? then [] else [40, if b.value then 1 else 0]
  {
    if b.Some? {
      OneFieldBytes(BoolField(5, b)[0]);
      SmallVarint(40);
      SmallVarint(if b.value then 1 else 0);
    }
  }

  /** The written form of a config: the fields by their numbers, the unknown ones last. */
  lemma ConfigInBytes(c: Config)
    requires TypeOk(c)
    ensures ConfigBytes(c) ==
              NumberInBytes(8, c.connectionType) + TextInBytes(18, c.listenIP) + NumberInBytes(24, c.listenPort) +
              NumberInBytes(32, c.maxConnection) + (if c.udp.None? then [] else [40, if c.udp.value then 1 else 0]) +
              FieldsBytes(c.unknown)
  {
    hide NumberInBytes, TextInBytes, FieldsBytes;
    FieldsBytesAppend(KnownFields(c), c.unknown);
    KnownSections(c);
    NumberSection(1, c.connectionType);
    TextSection(2, c.listenIP);
    NumberSection(3, c.listenPort);
    NumberSection(4, c.maxConnection);
    TruthSection(c.udp);
  }

  /** The written form of a message with a nested one. */
  lemma ActiveInBytes(m: Active)
    requires m.remote.Some? ==> TypeOk(m.remote.value)
    ensures ActiveBytes(m) ==
              (if m.remote.Some? then TextInBytes(10, Some(ConfigBytes(m.remote.value))) else []) + FieldsBytes(m.unknown)
  {
    SmallVarint(10);
  }
}
