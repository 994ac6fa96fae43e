/** The header in plain numbers: what each tag does to the message, how a read ends, and which bytes are written. */
module HeaderNumbers {
  import opened Bytes
  import opened Varint
  import opened Wire
  import opened HeaderRecords
  import opened MergeLaws
  import opened Concatenation
  import opened RoundTrip
  import opened WireNumbers

  // ---------------------------------------------------------------- tags

  lemma TagMeaning(s: seq<byte>)
    ensures ReadTag(s) == if s == [] then EndOfInput
                          else match ReadVarint32(s)
                               case Malformed => ZeroTag
                               case Varint(t, rest) => if t == 0 then ZeroTag else Tag(t, rest)
  {
  }

  /** Every tag that is not in one of these lists goes to the unknown fields. */
  lemma HeaderCases(tag: uint32)
    ensures CaseOf(tag) == ScalarCase <==> tag in {8, 16, 24, 32, 40, 48, 72, 80}
    ensures CaseOf(tag) == RepeatedCase <==> tag in {56, 64}
    ensures CaseOf(tag) == PackedCase <==> tag in {58, 66}
    ensures CaseOf(tag) == EndGroupCase <==> tag % 8 == 4
  {
  }

  /** One record in front: it is applied, and the rest is read into the result. */
  lemma RecordInFront(s: seq<byte>, tag: uint32, payload: seq<byte>, r: Record, rest: seq<byte>, c: bool, m: Msg)
    requires ReadTag(s) == Tag(tag, payload) && ReadPayload(payload, tag) == Step(r, rest, c)
    ensures Parse(s, m) == Parse(rest, Apply(m, r)) && ScanAll(s).stop == ScanAll(rest).stop
  {
    StepFromTag(s, tag, payload);
    ScanCons(s, r, rest, c);
    assert ([r] + ScanAll(rest).records)[1..] == ScanAll(rest).records;
  }

  /** A read that breaks off, or ends, at the first tag. */
  lemma NothingBehind(s: seq<byte>, tag: uint32, payload: seq<byte>, m: Msg)
    requires ReadTag(s) == Tag(tag, payload) && !ReadPayload(payload, tag).Step?
    ensures var step := ReadPayload(payload, tag);
            && (step.Stop? ==> ScanAll(s).stop == step.kind && Parse(s, m) == m)
            && (step.Broken? ==> ScanAll(s).stop == Failed && Parse(s, m) == ApplyAll(m, step.partial))
  {
    StepFromTag(s, tag, payload);
  }

  lemma ApplyOne(m: Msg, r: Record)
    ensures ApplyAll(m, [r]) == Apply(m, r) && ApplyAll(m, []) == m
  {
    assert [r][1..] == [];
  }

  // ---------------------------------------------------------------- reading

  /** The value that field `k` has to take for a 64-bit value `n`: an int32 in fields 1 and 2, else a uint32, congruent to
      it modulo 2^32. */
  predicate Congruent(k: nat, n: nat, v: int) {
    && (v - n) % 0x1_0000_0000 == 0
    && if k <= 2 then -0x8000_0000 <= v < 0x8000_0000 else 0 <= v < 0x1_0000_0000
  }

  lemma ValueIsCongruent(k: nat, n: nat, v: int)
    ensures Congruent(k, n, v) <==> v == ValueOf(k, Low32(n))
  {
    if k <= 2 {
      if Congruent(k, n, v) { ReadIsCongruent(n, v); }
    } else {
      assert v == n % 0x1_0000_0000 ==> (v - n) % 0x1_0000_0000 == 0;
    }
  }

  /** Behind the tags 8, 16, ... 48, 72, 80 comes the value of a scalar, and nothing else changes. A malformed one leaves
      the message as it was. */
  lemma ScalarIsRead(s: seq<byte>, k: nat, payload: seq<byte>, m: Msg, v: int)
    requires 1 <= k <= 10 && k != 7 && k != 8 && ReadTag(s) == Tag(8 * k, payload)
    ensures ReadVarint64(payload).Malformed? ==> ScanAll(s).stop == Failed && Parse(s, m) == m
    ensures ReadVarint64(payload).Varint? && Congruent(k, ReadVarint64(payload).value, v) ==>
              var rest := ReadVarint64(payload).rest;
              Parse(s, m) == Parse(rest, m.(scalars := m.scalars[k := v])) && ScanAll(s).stop == ScanAll(rest).stop
  {
    HeaderCases(8 * k);
    if ReadVarint64(payload).Malformed? {
      NothingBehind(s, 8 * k, payload, m);
      ApplyOne(m, Scalar(0, 0));
    } else {
      var n, rest := ReadVarint64(payload).value, ReadVarint64(payload).rest;
      ValueIsCongruent(k, n, v);
      hide Congruent, ValueOf, Parse, ScanAll;
      RecordInFront(s, 8 * k, payload, Scalar(k, Low32(n)), rest, false, m);
    }
  }

  /** A value behind tag 56 or 64 is appended to the list of field 7 or 8. */
  lemma ElementIsRead(s: seq<byte>, tag: uint32, payload: seq<byte>, m: Msg)
    requires ReadTag(s) == Tag(tag, payload) && tag in {56, 64}
    ensures ReadVarint64(payload).Malformed? ==> ScanAll(s).stop == Failed && Parse(s, m) == m
    ensures ReadVarint64(payload).Varint? ==>
              var v, rest := ReadVarint64(payload).value % 0x1_0000_0000, ReadVarint64(payload).rest;
              var m' := if tag == 56 then m.(remoteGuids := m.remoteGuids + [v])
                        else m.(recvPlayerIDs := m.recvPlayerIDs + [v]);
              Parse(s, m) == Parse(rest, m') && ScanAll(s).stop == ScanAll(rest).stop
  {
    HeaderCases(tag);
    if ReadVarint64(payload).Malformed? {
      NothingBehind(s, tag, payload, m);
      ApplyOne(m, Scalar(0, 0));
    } else {
      var n, rest := ReadVarint64(payload).value, ReadVarint64(payload).rest;
      RecordInFront(s, tag, payload, Repeated(tag / 8, [Low32(n)]), rest, false, m);
    }
  }

  /** The values of a payload: one varint after the other until it is used up, or until there is none. */
  lemma PackedMeaning(p: seq<byte>, n: nat)
    ensures p == [] ==> ReadPacked(p) == Packed([], true)
    ensures p != [] && ReadVarint64(p).Malformed? ==> ReadPacked(p) == Packed([], false)
    ensures EndsAt(p, n) ==>
              var more := ReadPacked(p[n..]);
              ReadPacked(p) == Packed([Weight128(p, n) % 0x1_0000_0000_0000_0000 % 0x1_0000_0000] + more.values, more.ok)
  {
    if EndsAt(p, n) { VarintMeaning(p, n); }
  }

  /** Behind tag 58 or 66 comes a length. The payload is that many bytes, or all that is left if the length is more than
      that or at least 2^31. Its values are appended, those in front of a malformed one as well. */
  lemma PackedIsRead(s: seq<byte>, tag: uint32, payload: seq<byte>, m: Msg)
    requires ReadTag(s) == Tag(tag, payload) && tag in {58, 66}
    ensures ReadVarint32(payload).Malformed? ==> ScanAll(s).stop == Failed && Parse(s, m) == m
    ensures ReadVarint32(payload).Varint? ==>
              var declared, body := ReadVarint32(payload).value, ReadVarint32(payload).rest;
              var len := if declared >= 0x8000_0000 || declared > |body| then |body| else declared;
              var vs := ReadPacked(body[..len]).values;
              var m' := if tag == 58 then m.(remoteGuids := m.remoteGuids + vs)
                        else m.(recvPlayerIDs := m.recvPlayerIDs + vs);
              if ReadPacked(body[..len]).ok then
                Parse(s, m) == Parse(body[len..], m') && ScanAll(s).stop == ScanAll(body[len..]).stop
              else ScanAll(s).stop == Failed && Parse(s, m) == m'
  {
    HeaderCases(tag);
    match ReadPackedField(payload)
    case PackedBroken(vs) =>
      NothingBehind(s, tag, payload, m);
      ApplyOne(m, Repeated(tag / 8, vs));
      assert m.remoteGuids + [] == m.remoteGuids && m.recvPlayerIDs + [] == m.recvPlayerIDs;
    case PackedRead(vs, rest, c) =>
      RecordInFront(s, tag, payload, Repeated(tag / 8, vs), rest, c, m);
  }

  /** Any other tag that is not 4 modulo 8 is skipped into the unknown fields; what a failed skip had added stays. */
  lemma UnknownIsRead(s: seq<byte>, tag: uint32, payload: seq<byte>, m: Msg)
    requires ReadTag(s) == Tag(tag, payload) && tag % 8 != 4
    requires tag !in {8, 16, 24, 32, 40, 48, 72, 80} && tag !in {56, 64} && tag !in {58, 66}
    ensures match SkipField(payload, tag, 100)
            case Skipped(f, rest) =>
              Parse(s, m) == Parse(rest, m.(unknown := m.unknown + [f])) && ScanAll(s).stop == ScanAll(rest).stop
            case SkipFailed(partial) => ScanAll(s).stop == Failed && Parse(s, m) == m.(unknown := m.unknown + partial)
  {
    HeaderCases(tag);
    match SkipField(payload, tag, 100)
    case Skipped(f, rest) => RecordInFront(s, tag, payload, Unknown(f), rest, false, m);
    case SkipFailed(partial) =>
      NothingBehind(s, tag, payload, m);
      ApplyUnknown(m, partial);
  }

  /** A tag that is 4 modulo 8 ends the read: not as a failure, and not as a complete one. */
  lemma EndGroupEndsRead(s: seq<byte>, tag: uint32, payload: seq<byte>, m: Msg)
    requires ReadTag(s) == Tag(tag, payload) && tag % 8 == 4
    ensures ScanAll(s).stop != Failed && !Complete(s) && Parse(s, m) == m
  {
    HeaderCases(tag);
    NothingBehind(s, tag, payload, m);
  }

  /** The end of the input completes the read; a tag that is zero or malformed ends it without failing or completing. */
  lemma NoTagEndsRead(s: seq<byte>, m: Msg)
    requires !ReadTag(s).Tag?
    ensures ScanAll(s).stop != Failed && (Complete(s) <==> s == []) && Parse(s, m) == m
  {
  }

  /** An empty group of field 11 is kept as an unknown field. */
  lemma GroupExample()
    ensures Complete([91, 92]) && Parse([91, 92], EMPTY).unknown == [UGroup(11, [])]
  {
    SmallVarint(91);
    SmallVarint(92);
    RoundTrip32(91, [92]);
    assert VarintBytes(91) + [92] == [91, 92];
    GroupByTag(11, [], [], 100);
    assert FieldsBytes([]) + (VarintBytes(92) + []) == [92];
    UnknownIsRead([91, 92], 91, [92], EMPTY);
    NoTagEndsRead([], EMPTY.(unknown := [UGroup(11, [])]));
    assert [] + [UGroup(11, [])] == [UGroup(11, [])];
  }

  // ---------------------------------------------------------------- writing

  /** The bytes of one scalar behind its tag byte. */
  function ScalarInBytes(m: Msg, k: nat): seq<byte>
    requires 1 <= k <= 10 && (k in m.scalars ==> m.scalars[k] >= -0x8000_0000)
  {
    if k !in m.scalars then []
    else if m.scalars[k] < 0 then [8 * k] + VarintBytes(0x1_0000_0000_0000_0000 + m.scalars[k])
    else [8 * k] + VarintBytes(m.scalars[k])
  }

  /** Each value behind the same tag byte. */
  function ListInBytes(tag: byte, vs: seq<uint32>): seq<byte> {
    if vs == [] then [] else ListInBytes(tag, vs[..|vs| - 1]) + [tag] + VarintBytes(vs[|vs| - 1])
  }

  lemma {:induction false} ListSection(k: nat, vs: seq<uint32>)
    requires 7 <= k <= 8
    ensures RepeatedBytes(k, vs) == ListInBytes(8 * k, vs)
  {
    if vs == [] {
    } else {
      var n := |vs| - 1;
      ListSection(k, vs[..n]);
      AppendElement(k, vs[..n], vs[n]);
      assert vs == vs[..n] + [vs[n]];
    }
  }

  lemma {:induction false} AppendElement(k: nat, vs: seq<uint32>, v: uint32)
    requires 7 <= k <= 8
    ensures RepeatedBytes(k, vs + [v]) == RepeatedBytes(k, vs) + [8 * k] + VarintBytes(v)
  {
    SmallVarint(8 * k);
    if vs == [] {
      assert RepeatedBytes(k, [v][1..]) == [];
      assert [8 * k] + VarintBytes(v) + [] == [8 * k] + VarintBytes(v);
      assert [] + [v] == [v] && [] + [8 * k] + VarintBytes(v) == [8 * k] + VarintBytes(v);
    } else {
      AppendElement(k, vs[1..], v);
      assert (vs + [v])[0] == vs[0] && (vs + [v])[1..] == vs[1..] + [v];
      var one, more := [8 * k] + VarintBytes(vs[0]), RepeatedBytes(k, vs[1..]);
      assert one + (more + [8 * k] + VarintBytes(v)) == one + more + [8 * k] + VarintBytes(v);
    }
  }

  lemma ScalarSectionInBytes(m: Msg, k: nat)
    requires WellTyped(m) && IsScalar(k)
    ensures ScalarBytes(m, k) == ScalarInBytes(m, k)
  {
    SmallVarint(8 * k);
    assert k in m.scalars ==> InRange(k, m.scalars[k]);
  }

  /** The serialized form: the fields by their numbers, the lists in their place, the unknown fields last. */
  lemma SerializedInBytes(m: Msg)
    requires WellTyped(m)
    ensures forall k :: k in m.scalars ==> m.scalars[k] >= -0x8000_0000
    ensures Serialize(m) ==
              ScalarInBytes(m, 1) + ScalarInBytes(m, 2) + ScalarInBytes(m, 3) + ScalarInBytes(m, 4) +
              ScalarInBytes(m, 5) + ScalarInBytes(m, 6) + ListInBytes(56, m.remoteGuids) +
              ListInBytes(64, m.recvPlayerIDs) + ScalarInBytes(m, 9) + ScalarInBytes(m, 10) + FieldsBytes(m.unknown)
  {
    ScalarSectionInBytes(m, 1);
    ScalarSectionInBytes(m, 2);
    ScalarSectionInBytes(m, 3);
    ScalarSectionInBytes(m, 4);
    ScalarSectionInBytes(m, 5);
    ScalarSectionInBytes(m, 6);
    ScalarSectionInBytes(m, 9);
    ScalarSectionInBytes(m, 10);
    ListSection(7, m.remoteGuids);
    ListSection(8, m.recvPlayerIDs);
  }

  lemma MinusOneDigits()
    ensures VarintBytes(0xFFFF_FFFF_FFFF_FFFF) == [255, 255, 255, 255, 255, 255, 255, 255, 255, 1]
  {
    var b := VarintBytes(0xFFFF_FFFF_FFFF_FFFF);
    NegativeIsWritten(-1, 0);
    forall i | 0 <= i < 10 ensures b[i] == if i < 9 then 255 else 1 {
      NegativeIsWritten(-1, i);
      PowersOf128();
    }
  }

  /** Minus one as the packet id. */
  lemma MinusOneExample()
    ensures var m := EMPTY.(scalars := map[1 := -1]);
            WellTyped(m) && Serialize(m) == [8, 255, 255, 255, 255, 255, 255, 255, 255, 255, 1]
  {
    hide VarintBytes;
    MinusOneDigits();
    SerializedInBytes(EMPTY.(scalars := map[1 := -1]));
  }
}
