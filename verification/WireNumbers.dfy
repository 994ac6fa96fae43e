/** The wire format in plain numbers, from the digits of a varint on: which bytes stand for which values, tags and
    fields. */
module WireNumbers {
  import opened Bytes
  import opened Varint
  import opened Wire

  // ---------------------------------------------------------------- varints

  /** The low seven bits of the first `n` bytes, weighted by powers of 128 from the first byte on. */
  function Weight128(s: seq<byte>, n: nat): nat
    requires n <= |s|
  {
    if n == 0 then 0 else Weight128(s, n - 1) + s[n - 1] % 128 * Pow128(n - 1)
  }

  /** The first byte below 128 is byte `n`, counted from one, and comes within ten bytes. */
  predicate EndsAt(s: seq<byte>, n: nat) {
    1 <= n <= 10 && n <= |s| && s[n - 1] < 128 && forall i :: 0 <= i < n - 1 ==> s[i] >= 128
  }

  lemma {:induction false} WeightOfRest(s: seq<byte>, n: nat)
    requires 1 <= n <= |s|
    ensures Weight128(s, n) == s[0] % 128 + 128 * Weight128(s[1..], n - 1)
  {
    if n == 1 {
      assert Weight128(s, 1) == Weight128(s, 0) + s[0] % 128 * Pow128(0);
    } else {
      WeightOfRest(s, n - 1);
      assert s[1..][n - 2] == s[n - 1];
      TimesPower(s[n - 1] % 128, Pow128(n - 2));
    }
  }

  lemma TimesPower(b: nat, p: nat)
    ensures b * (128 * p) == 128 * (b * p)
  {
  }

  lemma {:induction false} RawMeaning(s: seq<byte>, n: nat, limit: nat)
    requires 1 <= n <= limit && n <= |s| && s[n - 1] < 128 && forall i :: 0 <= i < n - 1 ==> s[i] >= 128
    ensures ReadRaw(s, limit) == Varint(Weight128(s, n), s[n..])
    decreases n
  {
    WeightOfRest(s, n);
    if n == 1 {
    } else {
      assert s[0] >= 128 && s[1..][n - 2] == s[n - 1];
      assert forall i :: 0 <= i < n - 2 ==> s[1..][i] == s[i + 1];
      RawMeaning(s[1..], n - 1, limit - 1);
      assert s[1..][n - 1..] == s[n..];
    }
  }

  /** A varint is what ends within ten bytes; its value is the weighted sum, cut to 64 bits. */
  lemma VarintMeaning(s: seq<byte>, n: nat)
    requires EndsAt(s, n)
    ensures ReadVarint64(s) == Varint(Weight128(s, n) % 0x1_0000_0000_0000_0000, s[n..])
    ensures ReadVarint32(s) == Varint(Weight128(s, n) % 0x1_0000_0000_0000_0000 % 0x1_0000_0000, s[n..])
  {
    RawMeaning(s, n, 10);
  }

  lemma {:induction false} RawIsVarint(s: seq<byte>, limit: nat) returns (n: nat)
    requires ReadRaw(s, limit).Varint?
    ensures 1 <= n <= limit && n <= |s| && s[n - 1] < 128 && forall i :: 0 <= i < n - 1 ==> s[i] >= 128
    decreases limit
  {
    if s[0] < 128 {
      n := 1;
    } else {
      var m := RawIsVarint(s[1..], limit - 1);
      n := m + 1;
      assert s[1..][m - 1] == s[n - 1];
      forall i | 0 <= i < n - 1 ensures s[i] >= 128 { assert i == 0 || s[1..][i - 1] == s[i]; }
    }
  }

  /** Nothing else is one. */
  lemma NoVarint(s: seq<byte>)
    ensures ReadVarint64(s).Varint? <==> exists n: nat :: EndsAt(s, n)
    ensures ReadVarint32(s).Varint? <==> exists n: nat :: EndsAt(s, n)
  {
    if ReadVarint64(s).Varint? {
      var n := RawIsVarint(s, 10);
      assert EndsAt(s, n);
    }
    if n: nat :| EndsAt(s, n) { VarintMeaning(s, n); }
  }

  /** Byte i of a written varint is the i-th digit to the base 128, plus 128 if it is not the last; and the shortest
      number of digits is written. */
  lemma WrittenVarint(v: nat, i: nat, n: nat)
    requires n > 0
    ensures |VarintBytes(v)| <= n <==> v < Pow128(n)
    ensures i < |VarintBytes(v)| ==>
              VarintBytes(v)[i] == v / Pow128(i) % 128 + if i + 1 < |VarintBytes(v)| then 128 else 0
  {
    VarintLength(v, n);
    if i < |VarintBytes(v)| {
      VarintDigits(v, i);
      DigitIs(v, i);
    }
  }

  lemma SmallVarint(v: nat)
    requires v < 128
    ensures VarintBytes(v) == [v]
  {
  }

  // ---------------------------------------------------------------- negative numbers

  /** A negative int32 is written as the ten digits of 2^64 + v. */
  lemma NegativeIsWritten(v: int32, i: nat)
    requires v < 0 && i < 10
    ensures var b := VarintBytes(SignExtend(v));
            |b| == 10 && b[i] == (0x1_0000_0000_0000_0000 + v) / Pow128(i) % 128 + if i < 9 then 128 else 0
  {
    RoundTripInt32(v, []);
    WrittenVarint(0x1_0000_0000_0000_0000 + v, i, 10);
  }

  /** Read as an int32, a 64-bit value gives the one number in range that is congruent to it modulo 2^32. */
  lemma ReadIsCongruent(n: nat, v: int)
    requires -0x8000_0000 <= v < 0x8000_0000 && (v - n) % 0x1_0000_0000 == 0
    ensures ToInt32(Low32(n)) == v
  {
    var x := ToInt32(Low32(n));
    assert (x - n) % 0x1_0000_0000 == 0;
    assert (x - v) % 0x1_0000_0000 == 0;
  }

  // ---------------------------------------------------------------- fixed numbers

  /** Four bytes, the first one counting ones. */
  function Number4(s: seq<byte>): uint32
    requires |s| >= 4
  {
    (s[0] as int) + 0x100 * (s[1] as int) + 0x1_0000 * (s[2] as int) + 0x100_0000 * (s[3] as int)
  }

  function Number8(s: seq<byte>): uint64
    requires |s| >= 8
  {
    Number4(s) + 0x1_0000_0000 * Number4(s[4..])
  }

  lemma FourBytes(s: seq<byte>, rest: seq<byte>)
    requires |s| == 4
    ensures FromLittleEndian(s + rest) == Number4(s) + 0x1_0000_0000 * FromLittleEndian(rest)
  {
    var t := s + rest;
    assert t[1..] == s[1..] + rest && t[1..][1..] == s[2..] + rest && t[1..][1..][1..] == s[3..] + rest;
    assert t[1..][1..][1..][1..] == rest;
    assert FromLittleEndian(t[1..][1..][1..]) == s[3] + 256 * FromLittleEndian(rest);
    assert FromLittleEndian(t[1..][1..]) == s[2] + 256 * FromLittleEndian(t[1..][1..][1..]);
    assert FromLittleEndian(t[1..]) == s[1] + 256 * FromLittleEndian(t[1..][1..]);
  }

  lemma FixedMeaning(s: seq<byte>)
    ensures |s| == 4 ==> FromLittleEndian(s) == Number4(s)
    ensures |s| == 8 ==> FromLittleEndian(s) == Number8(s)
  {
    if |s| == 4 {
      FourBytes(s, []);
      assert s + [] == s;
    } else if |s| == 8 {
      FourBytes(s[..4], s[4..]);
      FourBytes(s[4..], []);
      assert s[..4] + s[4..] == s && s[4..] + [] == s[4..];
    }
  }

  /** What is written for a fixed number has its value. */
  lemma WrittenFixed(v: uint32, w: uint64)
    ensures |LittleEndian(v, 4)| == 4 && Number4(LittleEndian(v, 4)) == v
    ensures |LittleEndian(w, 8)| == 8 && Number8(LittleEndian(w, 8)) == w
  {
    PowersOf256();
    LittleEndianRoundTrip(v, 4);
    LittleEndianRoundTrip(w, 8);
    FixedMeaning(LittleEndian(v, 4));
    FixedMeaning(LittleEndian(w, 8));
  }

  // ---------------------------------------------------------------- fields

  /** Reading behind a tag: the remainder modulo 8 says what follows, the quotient is the field number. */
  lemma FieldByTag(s: seq<byte>, tag: uint32, depth: nat)
    ensures tag % 8 == 0 ==>
              SkipField(s, tag, depth) == match ReadVarint64(s)
                                          case Malformed => SkipFailed([])
                                          case Varint(v, rest) => Skipped(UVarint(tag / 8, v), rest)
    ensures tag % 8 == 1 ==>
              SkipField(s, tag, depth) == if |s| < 8 then SkipFailed([])
                                          else Skipped(UFixed64(tag / 8, Number8(s)), s[8..])
    ensures tag % 8 == 2 ==>
              SkipField(s, tag, depth) == match ReadVarint32(s)
                                          case Malformed => SkipFailed([])
                                          case Varint(n, rest) =>
                                            if n >= 0x8000_0000 then SkipFailed([ULength(tag / 8, [])])
                                            else if n > |rest| then SkipFailed([ULength(tag / 8, rest)])
                                            else Skipped(ULength(tag / 8, rest[..n]), rest[n..])
    ensures tag % 8 == 5 ==>
              SkipField(s, tag, depth) == if |s| < 4 then SkipFailed([])
                                          else Skipped(UFixed32(tag / 8, Number4(s)), s[4..])
    ensures tag % 8 == 4 || tag % 8 == 6 || tag % 8 == 7 ==> SkipField(s, tag, depth) == SkipFailed([])
  {
    PowersOf256();
    if tag % 8 == 1 && |s| >= 8 {
      FixedMeaning(s[..8]);
      assert s[..8][4..] == s[4..8];
    } else if tag % 8 == 5 && |s| >= 4 {
      FixedMeaning(s[..4]);
    }
  }

  /** A tag 8n + 3, the fields of a body and the tag 8n + 4 are one unknown field. */
  lemma GroupByTag(n: nat, fields: seq<UnknownField>, rest: seq<byte>, depth: nat)
    requires n <= 0x1FFF_FFFF && depth > 0 && ValidFields(fields, depth - 1)
    ensures SkipField(FieldsBytes(fields) + (VarintBytes(8 * n + 4) + rest), 8 * n + 3, depth) ==
              Skipped(UGroup(n, fields), rest)
  {
    hide SkipField, FieldsBytes, VarintBytes, ValidFields;
    GroupRoundTrip(n, fields, rest, depth);
  }

  /** A group that ends with the input, or with the end tag of another number, fails; what it holds stays. */
  lemma GroupLeftOpen(n: nat, k: nat, fields: seq<UnknownField>, rest: seq<byte>, depth: nat)
    requires n <= 0x1FFF_FFFF && k <= 0x1FFF_FFFF && k != n && depth > 0 && ValidFields(fields, depth - 1)
    ensures SkipField(FieldsBytes(fields) + (VarintBytes(8 * k + 4) + rest), 8 * n + 3, depth) ==
              SkipFailed([UGroup(n, fields)])
    ensures SkipField(FieldsBytes(fields), 8 * n + 3, depth) == SkipFailed([UGroup(n, fields)])
    ensures SkipField(rest, 8 * n + 3, 0) == SkipFailed([])
  {
    hide SkipMessage, FieldsBytes, VarintBytes, ValidFields;
    BodyRoundTrip(fields, 8 * k + 4, rest, depth - 1);
    BodyToTheEnd(fields, depth - 1);
  }

  lemma {:induction false} BodyToTheEnd(fs: seq<UnknownField>, depth: nat)
    requires ValidFields(fs, depth)
    ensures SkipMessage(FieldsBytes(fs), depth) == GroupBody(fs, true, 0, [])
  {
    if fs == [] {
    } else {
      MessageStep(fs[0], FieldsBytes(fs[1..]), depth);
      BodyToTheEnd(fs[1..], depth);
      assert [fs[0]] + fs[1..] == fs;
    }
  }

  /** What is written for each kind of field. */
  lemma FieldInBytes(f: UnknownField)
    ensures f.UVarint? ==> FieldBytes(f) == VarintBytes(8 * f.number) + VarintBytes(f.varint)
    ensures f.UFixed64? ==> FieldBytes(f) == VarintBytes(8 * f.number + 1) + LittleEndian(f.fixed64, 8)
    ensures f.ULength? ==> FieldBytes(f) == VarintBytes(8 * f.number + 2) + (VarintBytes(|f.data|) + f.data)
    ensures f.UGroup? ==>
              FieldBytes(f) == VarintBytes(8 * f.number + 3) + (FieldsBytes(f.fields) + VarintBytes(8 * f.number + 4))
    ensures f.UFixed32? ==> FieldBytes(f) == VarintBytes(8 * f.number + 5) + LittleEndian(f.fixed32, 4)
  {
  }

  /** Fields are written one behind the other. */
  lemma FieldsInBytes(f: UnknownField, fs: seq<UnknownField>)
    ensures FieldsBytes([]) == [] && FieldsBytes([f] + fs) == FieldBytes(f) + FieldsBytes(fs)
  {
    assert ([f] + fs)[1..] == fs;
  }
}
