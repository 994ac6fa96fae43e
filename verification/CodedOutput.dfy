/** The two ways of writing: to a growing stream, and in place into an array that is already large enough. */
module CodedOutput {
  import opened Bytes
  import opened Varint
  import opened Wire

  // ---------------------------------------------------------------- the stream

  class CodedOutputStream {
    var out: seq<byte>

    constructor ()
      ensures out == []
    {
      out := [];
    }

    method WriteRaw(bytes: seq<byte>)
      modifies this
      ensures out == old(out) + bytes
    {
      out := out + bytes;
    }

    /** The seven-bits-at-a-time loop; it serves both widths. */
    method WriteVarint(value: uint64)
      modifies this
      ensures out == old(out) + VarintBytes(value)
    {
      var v, bytes: seq<byte> := value, [];
      while v > 0x7F
        invariant 0 <= v < TWO_64 && out == old(out)
        invariant bytes + VarintBytes(v) == VarintBytes(value)
      {
        ConcatAssoc(bytes, [v % 128 + 128], VarintBytes(v / 128));
        bytes := bytes + [v % 128 + 128];
        v := v / 128;
      }
      assert VarintBytes(v) == [v];
      WriteRaw(bytes + [v]);
    }

    method WriteVarint32SignExtended(value: int32)
      modifies this
      ensures out == old(out) + VarintBytes(SignExtend(value))
    {
      WriteVarint(if value < 0 then value + TWO_64 else value);
    }

    method WriteLittleEndian(value: nat, n: nat)
      modifies this
      ensures out == old(out) + LittleEndian(value, n)
    {
      var v, bytes: seq<byte> := value, [];
      for i := 0 to n
        invariant v >= 0 && out == old(out)
        invariant bytes + LittleEndian(v, n - i) == LittleEndian(value, n)
      {
        ConcatAssoc(bytes, [v % 256], LittleEndian(v / 256, n - i - 1));
        bytes := bytes + [v % 256];
        v := v / 256;
      }
      assert LittleEndian(v, 0) == [] && bytes + [] == bytes;
      WriteRaw(bytes);
    }

    method WriteUnknownField(f: UnknownField, ghost depth: nat)
      requires ValidField(f, depth)
      modifies this
      ensures out == old(out) + FieldBytes(f)
      decreases f, 1
    {
      hide VarintBytes, LittleEndian, FieldsBytes;
      WriteVarint(TagOf(f));
      match f {
        case UVarint(_, v) => WriteVarint(v);
        case UFixed32(_, v) => WriteLittleEndian(v, 4);
        case UFixed64(_, v) => WriteLittleEndian(v, 8);
        case ULength(_, text) =>
          WriteVarint(|text|);
          WriteRaw(text);
        case UGroup(number, fields) =>
          WriteUnknownFields(fields, depth - 1);
          WriteVarint(MakeTag(number, END_GROUP));
      }
    }

    method WriteUnknownFields(fs: seq<UnknownField>, ghost depth: nat)
      requires ValidFields(fs, depth)
      modifies this
      ensures out == old(out) + FieldsBytes(fs)
      decreases fs, 0
    {
      for i := 0 to |fs|
        invariant ValidFields(fs[i..], depth)
        invariant out + FieldsBytes(fs[i..]) == old(out) + FieldsBytes(fs)
      {
        ghost var was := out;
        WriteUnknownField(fs[i], depth);
        assert fs[i..][1..] == fs[i + 1..];
        ConcatAssoc(was, FieldBytes(fs[i]), FieldsBytes(fs[i + 1..]));
      }
      assert out + [] == out;
    }
  }

  // ---------------------------------------------------------------- the array

  /** `after` is `before` with `b` written at `at`. */
  ghost predicate Wrote(before: seq<byte>, after: seq<byte>, at: nat, b: seq<byte>) {
    && at + |b| <= |before|
    && after == before[..at] + b + before[at + |b|..]
  }

  lemma WroteBoth(x: seq<byte>, y: seq<byte>, z: seq<byte>, at: nat, b: seq<byte>, c: seq<byte>)
    requires Wrote(x, y, at, b) && Wrote(y, z, at + |b|, c)
    ensures Wrote(x, z, at, b + c)
  {
    assert y[..at + |b|] == x[..at] + b;
    assert y[at + |b| + |c|..] == x[at + |b| + |c|..];
  }

  /** Bytes that fill everything are everything. */
  lemma WroteAll(before: seq<byte>, after: seq<byte>, b: seq<byte>)
    requires Wrote(before, after, 0, b) && |before| == |b|
    ensures after == b
  {
  }

  /** The low byte with the continuation bit set. */
  function Low(v: nat): byte { v % 128 + 128 }

  /** Byte `i` of an n-byte varint for `v` stands at `at + i`; `shift` is 128 to the `i`. */
  predicate GroupAt(a: seq<byte>, at: nat, v: nat, i: nat, n: nat, shift: nat)
    requires at + n <= |a| && shift > 0
  {
    i < n ==> a[at + i] == v / shift % 128 + (if i + 1 < n then 128 else 0)
  }

  lemma Reassemble(before: seq<byte>, after: seq<byte>, at: nat, b: seq<byte>)
    requires |before| == |after| && at + |b| <= |before|
    requires forall j :: 0 <= j < |before| && !(at <= j < at + |b|) ==> after[j] == before[j]
    requires forall i :: 0 <= i < |b| ==> after[at + i] == b[i]
    ensures Wrote(before, after, at, b)
  {
    assert after[at..at + |b|] == b;
    assert after[..at] == before[..at] && after[at + |b|..] == before[at + |b|..];
    assert after == after[..at] + after[at..at + |b|] + after[at + |b|..];
  }

  lemma GroupsWritten(before: seq<byte>, after: seq<byte>, at: nat, v: uint64)
    requires |before| == |after| && at + |VarintBytes(v)| <= |before|
    requires forall j :: 0 <= j < |before| && !(at <= j < at + |VarintBytes(v)|) ==> after[j] == before[j]
    requires var n := |VarintBytes(v)|;
             && GroupAt(after, at, v, 0, n, 1) && GroupAt(after, at, v, 1, n, 0x80)
             && GroupAt(after, at, v, 2, n, 0x4000) && GroupAt(after, at, v, 3, n, 0x20_0000)
             && GroupAt(after, at, v, 4, n, 0x1000_0000) && GroupAt(after, at, v, 5, n, 0x8_0000_0000)
             && GroupAt(after, at, v, 6, n, 0x400_0000_0000) && GroupAt(after, at, v, 7, n, 0x2_0000_0000_0000)
             && GroupAt(after, at, v, 8, n, 0x100_0000_0000_0000)
             && GroupAt(after, at, v, 9, n, 0x8000_0000_0000_0000)
    ensures Wrote(before, after, at, VarintBytes(v))
  {
    RoundTrip64(v, []);
    forall i | 0 <= i < |VarintBytes(v)| ensures after[at + i] == VarintBytes(v)[i] {
      VarintDigits(v, i);
      DigitIs(v, i);
      PowersOf128();
    }
    Reassemble(before, after, at, VarintBytes(v));
  }

  method WriteByte(a: array<byte>, at: nat, b: byte) returns (end: nat)
    requires at < a.Length
    modifies a
    ensures end == at + 1 && Wrote(old(a[..]), a[..], at, [b])
  {
    a[at] := b;
    end := at + 1;
  }

  /** The unrolled 32-bit writer: no loop, the last byte patched to end the varint. */
  method WriteVarint32FallbackToArray(value: uint32, a: array<byte>, at: nat) returns (end: nat)
    requires at + |VarintBytes(value)| <= a.Length
    modifies a
    ensures end == at + |VarintBytes(value)| && Wrote(old(a[..]), a[..], at, VarintBytes(value))
  {
    SizeIsLength32(value);
    hide VarintBytes;
    a[at] := Low(value);
    if value >= 0x80 {
      a[at + 1] := Low(value / 0x80);
      if value >= 0x4000 {
        a[at + 2] := Low(value / 0x4000);
        if value >= 0x20_0000 {
          a[at + 3] := Low(value / 0x20_0000);
          if value >= 0x1000_0000 {
            a[at + 4] := value / 0x1000_0000;
            end := at + 5;
          } else {
            a[at + 3] := a[at + 3] % 128;
            end := at + 4;
          }
        } else {
          a[at + 2] := a[at + 2] % 128;
          end := at + 3;
        }
      } else {
        a[at + 1] := a[at + 1] % 128;
        end := at + 2;
      }
    } else {
      a[at] := a[at] % 128;
      end := at + 1;
    }
    GroupsWritten(old(a[..]), a[..], at, value);
  }

  lemma AddMultiple(x: nat, c: nat)
    ensures (x + 128 * c) % 128 == x % 128
  {
  }

  lemma LowParts(v: uint64)
    ensures var p := v % TWO_32;
            && p % 128 == v % 128 && p / 0x80 % 128 == v / 0x80 % 128
            && p / 0x4000 % 128 == v / 0x4000 % 128 && p / 0x20_0000 % 128 == v / 0x20_0000 % 128
  {
    var p, q := v % TWO_32, v / TWO_32;
    assert v == p + 0x1_0000_0000 * q;
    AddMultiple(p, 0x200_0000 * q);
    assert v / 0x80 == p / 0x80 + 0x200_0000 * q;
    AddMultiple(p / 0x80, 0x4_0000 * q);
    assert v / 0x4000 == p / 0x4000 + 0x4_0000 * q;
    AddMultiple(p / 0x4000, 0x800 * q);
    assert v / 0x20_0000 == p / 0x20_0000 + 0x800 * q;
    AddMultiple(p / 0x20_0000, 0x10 * q);
  }

  lemma MiddleParts(v: uint64)
    ensures var p := v / 0x1000_0000 % TWO_32;
            && p % 128 == v / 0x1000_0000 % 128 && p / 0x80 % 128 == v / 0x8_0000_0000 % 128
            && p / 0x4000 % 128 == v / 0x400_0000_0000 % 128 && p / 0x20_0000 % 128 == v / 0x2_0000_0000_0000 % 128
  {
    var w := v / 0x1000_0000;
    LowParts(w);
    assert w / 0x80 == v / 0x8_0000_0000;
    assert w / 0x4000 == v / 0x400_0000_0000;
    assert w / 0x20_0000 == v / 0x2_0000_0000_0000;
  }

  lemma HighParts(v: uint64)
    ensures v / 0x100_0000_0000_0000 / 0x80 == v / 0x8000_0000_0000_0000
  {
  }

  /** How many groups the three parts of a 64-bit value take: the binary search of the 64-bit writer. */
  method GroupCount(part0: nat, part1: nat, part2: nat, ghost v: uint64) returns (size: nat)
    requires part0 == v % TWO_32 && part1 == v / 0x1000_0000 % TWO_32 && part2 == v / 0x100_0000_0000_0000
    ensures size == |VarintBytes(v)|
  {
    SizeIsLength64(v);
    hide VarintBytes;
    if part2 == 0 {
      if part1 == 0 {
        if part0 < 0x4000 {
          size := if part0 < 0x80 then 1 else 2;
        } else {
          size := if part0 < 0x20_0000 then 3 else 4;
        }
      } else {
        if part1 < 0x4000 {
          size := if part1 < 0x80 then 5 else 6;
        } else {
          size := if part1 < 0x20_0000 then 7 else 8;
        }
      }
    } else {
      size := if part2 < 0x80 then 9 else 10;
    }
  }

  /** The i-th byte of the 64-bit writer before the last one is patched. */
  function PartByte(part0: nat, part1: nat, part2: nat, i: nat): byte {
    match i
    case 0 => Low(part0)
    case 1 => Low(part0 / 0x80)
    case 2 => Low(part0 / 0x4000)
    case 3 => Low(part0 / 0x20_0000)
    case 4 => Low(part1)
    case 5 => Low(part1 / 0x80)
    case 6 => Low(part1 / 0x4000)
    case 7 => Low(part1 / 0x20_0000)
    case 8 => Low(part2)
    case _ => Low(part2 / 0x80)
  }

  lemma PartByteIsGroup(v: uint64, i: nat)
    requires i < 10
    ensures PartByte(v % TWO_32, v / 0x1000_0000 % TWO_32, v / 0x100_0000_0000_0000, i) == Digit(v, i) + 128
  {
    DigitIs(v, i);
    PowersOf128();
    if i < 4 { LowParts(v); } else if i < 8 { MiddleParts(v); } else { HighParts(v); }
  }

  method FillParts(part0: nat, part1: nat, part2: nat, size: nat, a: array<byte>, at: nat)
    requires 0 < size <= 10 && at + size <= a.Length
    modifies a
    ensures forall j :: 0 <= j < a.Length && !(at <= j < at + size) ==> a[j] == old(a[j])
    ensures forall i :: 0 <= i < size ==> a[at + i] == PartByte(part0, part1, part2, i)
  {
    hide Low;
    if size >= 10 { a[at + 9] := Low(part2 / 0x80); }
    if size >= 9 { a[at + 8] := Low(part2); }
    if size >= 8 { a[at + 7] := Low(part1 / 0x20_0000); }
    if size >= 7 { a[at + 6] := Low(part1 / 0x4000); }
    if size >= 6 { a[at + 5] := Low(part1 / 0x80); }
    if size >= 5 { a[at + 4] := Low(part1); }
    if size >= 4 { a[at + 3] := Low(part0 / 0x20_0000); }
    if size >= 3 { a[at + 2] := Low(part0 / 0x4000); }
    if size >= 2 { a[at + 1] := Low(part0 / 0x80); }
    a[at] := Low(part0);
  }

  /** The 64-bit writer: three parts, the bytes filled from the last to the first, the last one patched. */
  method WriteVarint64ToArray(value: uint64, a: array<byte>, at: nat) returns (end: nat)
    requires at + |VarintBytes(value)| <= a.Length
    modifies a
    ensures end == at + |VarintBytes(value)| && Wrote(old(a[..]), a[..], at, VarintBytes(value))
  {
    RoundTrip64(value, []);
    hide VarintBytes, ReadVarint64, PartByte, Digit;
    var part0, part1 := value % TWO_32, value / 0x1000_0000 % TWO_32;
    var part2 := value / 0x100_0000_0000_0000;
    var size := GroupCount(part0, part1, part2, value);
    FillParts(part0, part1, part2, size, a, at);
    a[at + size - 1] := a[at + size - 1] % 128;
    end := at + size;
    forall i | 0 <= i < size ensures a[at + i] == VarintBytes(value)[i] {
      PartByteIsGroup(value, i);
      VarintDigits(value, i);
    }
    Reassemble(old(a[..]), a[..], at, VarintBytes(value));
  }

  method WriteVarint32ToArray(value: uint32, a: array<byte>, at: nat) returns (end: nat)
    requires at + |VarintBytes(value)| <= a.Length
    modifies a
    ensures end == at + |VarintBytes(value)| && Wrote(old(a[..]), a[..], at, VarintBytes(value))
  {
    if value < 0x80 {
      end := WriteByte(a, at, value);
    } else {
      end := WriteVarint32FallbackToArray(value, a, at);
    }
  }

  method WriteVarint32SignExtendedToArray(value: int32, a: array<byte>, at: nat) returns (end: nat)
    requires at + |VarintBytes(SignExtend(value))| <= a.Length
    modifies a
    ensures end == at + |VarintBytes(SignExtend(value))|
    ensures Wrote(old(a[..]), a[..], at, VarintBytes(SignExtend(value)))
  {
    if value < 0 {
      end := WriteVarint64ToArray(value + TWO_64, a, at);
    } else {
      end := WriteVarint32ToArray(value, a, at);
    }
  }

  /** Tags of up to two bytes are written directly. */
  method WriteTagToArray(tag: uint32, a: array<byte>, at: nat) returns (end: nat)
    requires at + |VarintBytes(tag)| <= a.Length
    modifies a
    ensures end == at + |VarintBytes(tag)| && Wrote(old(a[..]), a[..], at, VarintBytes(tag))
  {
    if tag < 0x80 {
      end := WriteByte(a, at, tag);
    } else if tag < 0x4000 {
      assert VarintBytes(tag) == [Low(tag)] + [tag / 128];
      ghost var before := a[..];
      end := WriteByte(a, at, Low(tag));
      ghost var middle := a[..];
      end := WriteByte(a, end, tag / 128);
      WroteBoth(before, middle, a[..], at, [Low(tag)], [tag / 128]);
    } else {
      end := WriteVarint32FallbackToArray(tag, a, at);
    }
  }

  method WriteRawToArray(bytes: seq<byte>, a: array<byte>, at: nat) returns (end: nat)
    requires at + |bytes| <= a.Length
    modifies a
    ensures end == at + |bytes| && Wrote(old(a[..]), a[..], at, bytes)
  {
    for i := 0 to |bytes|
      invariant forall j :: 0 <= j < a.Length && !(at <= j < at + i) ==> a[j] == old(a[j])
      invariant forall j :: 0 <= j < i ==> a[at + j] == bytes[j]
    {
      a[at + i] := bytes[i];
    }
    end := at + |bytes|;
    Reassemble(old(a[..]), a[..], at, bytes);
  }

  method WriteUnknownFieldToArray(f: UnknownField, a: array<byte>, at: nat, ghost depth: nat) returns (end: nat)
    requires ValidField(f, depth) && at + |FieldBytes(f)| <= a.Length
    modifies a
    ensures end == at + |FieldBytes(f)| && Wrote(old(a[..]), a[..], at, FieldBytes(f))
    decreases f, 2
  {
    ghost var before := a[..];
    end := WriteTagToArray(TagOf(f), a, at);
    ghost var middle := a[..];
    end := WritePayloadToArray(f, a, end, depth);
    WroteBoth(before, middle, a[..], at, VarintBytes(TagOf(f)), PayloadBytes(f));
  }

  method WritePayloadToArray(f: UnknownField, a: array<byte>, at: nat, ghost depth: nat) returns (end: nat)
    requires ValidField(f, depth) && at + |PayloadBytes(f)| <= a.Length
    modifies a
    ensures end == at + |PayloadBytes(f)| && Wrote(old(a[..]), a[..], at, PayloadBytes(f))
    decreases f, 1
  {
    hide VarintBytes, LittleEndian, FieldsBytes, Wrote;
    ghost var before := a[..];
    match f {
      case UVarint(_, v) =>
        end := WriteVarint64ToArray(v, a, at);
      case UFixed32(_, v) =>
        end := WriteRawToArray(LittleEndian(v, 4), a, at);
      case UFixed64(_, v) =>
        end := WriteRawToArray(LittleEndian(v, 8), a, at);
      case ULength(_, text) =>
        end := WriteVarint32ToArray(|text|, a, at);
        ghost var middle := a[..];
        end := WriteRawToArray(text, a, end);
        WroteBoth(before, middle, a[..], at, VarintBytes(|text|), text);
      case UGroup(number, fields) =>
        end := WriteUnknownFieldsToArray(fields, a, at, depth - 1);
        ghost var middle := a[..];
        end := WriteTagToArray(MakeTag(number, END_GROUP), a, end);
        WroteBoth(before, middle, a[..], at, FieldsBytes(fields), VarintBytes(MakeTag(number, END_GROUP)));
    }
  }

  lemma WroteNothing(x: seq<byte>, at: nat)
    requires at <= |x|
    ensures Wrote(x, x, at, [])
  {
    assert x == x[..at] + [] + x[at..];
  }

  method WriteUnknownFieldsToArray(fs: seq<UnknownField>, a: array<byte>, at: nat, ghost depth: nat)
    returns (end: nat)
    requires ValidFields(fs, depth) && at + |FieldsBytes(fs)| <= a.Length
    modifies a
    ensures end == at + |FieldsBytes(fs)| && Wrote(old(a[..]), a[..], at, FieldsBytes(fs))
    decreases fs, 0
  {
    end := at;
    ghost var done: seq<byte>, before := [], a[..];
    WroteNothing(before, at);
    for i := 0 to |fs|
      invariant ValidFields(fs[i..], depth)
      invariant done + FieldsBytes(fs[i..]) == FieldsBytes(fs)
      invariant end == at + |done| && Wrote(before, a[..], at, done)
    {
      assert fs[i..][1..] == fs[i + 1..];
      ghost var middle, one := a[..], FieldBytes(fs[i]);
      ConcatAssoc(done, one, FieldsBytes(fs[i + 1..]));
      end := WriteUnknownFieldToArray(fs[i], a, end, depth);
      WroteBoth(before, middle, a[..], at, done, one);
      done := done + one;
    }
    assert done + [] == done;
  }
}
