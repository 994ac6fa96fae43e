/** Base 128 varints: seven bits a byte, least significant group first, high bit set on all but the last. */
module Varint {
  import opened Bytes

  const MAX_VARINT_BYTES: nat := 10

  /** `rest` is what follows the varint. */
  datatype VarintRead = Malformed | Varint(value: nat, rest: seq<byte>)

  function VarintBytes(v: nat): (s: seq<byte>)
    ensures |s| > 0
  {
    if v < 128 then [v] else [v % 128 + 128] + VarintBytes(v / 128)
  }

  /** Reads at most `limit` bytes; the value is not yet truncated to a machine width. */
  function ReadRaw(s: seq<byte>, limit: nat): (r: VarintRead)
    ensures r.Varint? ==> |r.rest| < |s|
  {
    if limit == 0 || s == [] then Malformed
    else if s[0] < 128 then Varint(s[0], s[1..])
    else match ReadRaw(s[1..], limit - 1)
      case Malformed => Malformed
      case Varint(v, rest) => Varint(s[0] - 128 + 128 * v, rest)
  }

  function ReadVarint64(s: seq<byte>): (r: VarintRead)
    ensures r.Varint? ==> |r.rest| < |s| && r.value < TWO_64
  {
    match ReadRaw(s, MAX_VARINT_BYTES)
    case Malformed => Malformed
    case Varint(v, rest) => Varint(v % TWO_64, rest)
  }

  function ReadVarint32(s: seq<byte>): (r: VarintRead)
    ensures r.Varint? ==> |r.rest| < |s| && r.value < TWO_32
  {
    match ReadVarint64(s)
    case Malformed => Malformed
    case Varint(v, rest) => Varint(Low32(v), rest)
  }

  function Pow128(n: nat): (p: nat)
    ensures p > 0
  {
    if n == 0 then 1 else 128 * Pow128(n - 1)
  }

  lemma PowersOf128()
    ensures Pow128(1) == 0x80 && Pow128(2) == 0x4000 && Pow128(3) == 0x20_0000 && Pow128(4) == 0x1000_0000
    ensures Pow128(5) == 0x8_0000_0000 && Pow128(6) == 0x400_0000_0000 && Pow128(7) == 0x2_0000_0000_0000
    ensures Pow128(8) == 0x100_0000_0000_0000 && Pow128(9) == 0x8000_0000_0000_0000
    ensures Pow128(10) == 0x40_0000_0000_0000_0000
  {
    assert Pow128(1) == 0x80 && Pow128(2) == 0x4000;
    assert Pow128(3) == 0x20_0000 && Pow128(4) == 0x1000_0000;
    assert Pow128(5) == 0x8_0000_0000 && Pow128(6) == 0x400_0000_0000;
    assert Pow128(7) == 0x2_0000_0000_0000 && Pow128(8) == 0x100_0000_0000_0000;
    assert Pow128(9) == 0x8000_0000_0000_0000;
  }

  /** A value takes n bytes exactly when it lies between consecutive powers of 128. */
  lemma {:induction false} VarintLength(v: nat, n: nat)
    requires n > 0
    ensures |VarintBytes(v)| <= n <==> v < Pow128(n)
  {
    if v >= 128 && n > 1 {
      VarintLength(v / 128, n - 1);
      assert v / 128 < Pow128(n - 1) <==> v < 128 * Pow128(n - 1);
    } else if n > 1 {
      assert Pow128(n - 1) >= 1;
    } else {
      assert Pow128(1) == 128 * Pow128(0);
    }
  }

  lemma {:induction false} ReadRawOfBytes(v: nat, rest: seq<byte>, limit: nat)
    requires |VarintBytes(v)| <= limit
    ensures ReadRaw(VarintBytes(v) + rest, limit) == Varint(v, rest)
  {
    if v >= 128 {
      ReadRawOfBytes(v / 128, rest, limit - 1);
      assert (VarintBytes(v) + rest)[1..] == VarintBytes(v / 128) + rest;
    } else {
      assert (VarintBytes(v) + rest)[1..] == rest;
    }
  }

  /** Reading back what was written gives the value and stops right behind it, whatever follows. */
  lemma RoundTrip64(v: uint64, rest: seq<byte>)
    ensures ReadVarint64(VarintBytes(v) + rest) == Varint(v, rest)
    ensures |VarintBytes(v)| <= MAX_VARINT_BYTES
  {
    PowersOf128();
    VarintLength(v, MAX_VARINT_BYTES);
    ReadRawOfBytes(v, rest, MAX_VARINT_BYTES);
  }

  lemma Truncated(s: seq<byte>, v: uint64, rest: seq<byte>)
    requires ReadVarint64(s) == Varint(v, rest)
    ensures ReadVarint32(s) == Varint(Low32(v), rest)
  {
  }

  lemma NotTruncated(s: seq<byte>, v: uint32, rest: seq<byte>)
    requires ReadVarint64(s) == Varint(v, rest)
    ensures ReadVarint32(s) == Varint(v, rest)
  {
  }

  lemma RoundTrip32(v: uint32, rest: seq<byte>)
    ensures ReadVarint32(VarintBytes(v) + rest) == Varint(v, rest)
  {
    RoundTrip64(v, rest);
    NotTruncated(VarintBytes(v) + rest, v, rest);
  }

  /** A sign-extended int32 comes back as the same int32. */
  lemma RoundTripInt32(v: int32, rest: seq<byte>)
    ensures var b := VarintBytes(SignExtend(v));
            var r := ReadVarint32(b + rest);
            r.Varint? && ToInt32(r.value) == v && r.rest == rest
    ensures v < 0 ==> |VarintBytes(SignExtend(v))| == 10
    ensures v >= 0 ==> |VarintBytes(SignExtend(v))| <= 5
  {
    RoundTrip64(SignExtend(v), rest);
    Truncated(VarintBytes(SignExtend(v)) + rest, SignExtend(v), rest);
    SignExtendThenTruncate(v);
    PowersOf128();
    VarintLength(SignExtend(v), 9);
    VarintLength(SignExtend(v), 10);
    VarintLength(SignExtend(v), 5);
  }

  /** `r` with `t` appended to what is left. */
  function Followed(r: VarintRead, t: seq<byte>): VarintRead {
    if r.Varint? then Varint(r.value, r.rest + t) else r
  }

  /** A varint that was read does not depend on what follows it. */
  lemma {:induction false} ReadRawPrefix(s: seq<byte>, t: seq<byte>, limit: nat)
    ensures ReadRaw(s, limit).Varint? ==> ReadRaw(s + t, limit) == Followed(ReadRaw(s, limit), t)
  {
    if limit == 0 || s == [] {
    } else {
      assert (s + t)[1..] == s[1..] + t;
      if s[0] >= 128 {
        ReadRawPrefix(s[1..], t, limit - 1);
      }
    }
  }

  lemma ReadPrefix(s: seq<byte>, t: seq<byte>)
    ensures ReadVarint64(s).Varint? ==> ReadVarint64(s + t) == Followed(ReadVarint64(s), t)
    ensures ReadVarint32(s).Varint? ==> ReadVarint32(s + t) == Followed(ReadVarint32(s), t)
  {
    ReadRawPrefix(s, t, MAX_VARINT_BYTES);
  }

  // ---------------------------------------------------------------- sizes

  function VarintSize32(v: uint32): (n: nat)
    ensures 1 <= n <= 10
  {
    if v < 0x80 then 1
    else if v < 0x4000 then 2
    else if v < 0x20_0000 then 3
    else if v < 0x1000_0000 then 4
    else 5
  }

  function VarintSize32SignExtended(v: int32): (n: nat)
    ensures 1 <= n <= 10
  {
    if v < 0 then 10 else VarintSize32(v)
  }

  function VarintSize64(v: uint64): (n: nat)
    ensures 1 <= n <= 10
  {
    if v < 0x8_0000_0000 then
      if v < 0x80 then 1
      else if v < 0x4000 then 2
      else if v < 0x20_0000 then 3
      else if v < 0x1000_0000 then 4
      else 5
    else
      if v < 0x400_0000_0000 then 6
      else if v < 0x2_0000_0000_0000 then 7
      else if v < 0x100_0000_0000_0000 then 8
      else if v < 0x8000_0000_0000_0000 then 9
      else 10
  }

  /** The threshold tables count exactly the bytes that are written. */
  lemma SizeIsLength64(v: uint64)
    ensures VarintSize64(v) == |VarintBytes(v)|
  {
    PowersOf128();
    VarintLength(v, VarintSize64(v));
    if VarintSize64(v) > 1 { VarintLength(v, VarintSize64(v) - 1); }
  }

  lemma SizeIsLength32(v: uint32)
    ensures VarintSize32(v) == |VarintBytes(v)|
  {
    PowersOf128();
    VarintLength(v, VarintSize32(v));
    if VarintSize32(v) > 1 { VarintLength(v, VarintSize32(v) - 1); }
  }

  lemma SizeIsLengthInt32(v: int32)
    ensures VarintSize32SignExtended(v) == |VarintBytes(SignExtend(v))|
  {
    if v < 0 {
      RoundTripInt32(v, []);
    } else {
      SizeIsLength32(v);
    }
  }

  // ---------------------------------------------------------------- digits

  /** The i-th group of seven bits. */
  function Digit(v: nat, i: nat): byte {
    if i == 0 then v % 128 else Digit(v / 128, i - 1)
  }

  lemma {:induction false} VarintDigits(v: nat, i: nat)
    requires i < |VarintBytes(v)|
    ensures VarintBytes(v)[i] == Digit(v, i) + (if i + 1 < |VarintBytes(v)| then 128 else 0)
  {
    if i == 0 {
    } else {
      VarintDigits(v / 128, i - 1);
    }
  }

  lemma DivBy128(v: nat, b: nat)
    requires b > 0
    ensures v / 128 / b == v / (128 * b)
  {
    var q := v / 128;
    var r, s := q / b, q % b;
    var rem := 128 * s + v % 128;
    assert q == b * r + s;
    assert v == 128 * (b * r + s) + v % 128;
    assert v == (128 * b) * r + rem by { Assoc(b, r); }
    assert 0 <= rem < 128 * b;
    QuotientUnique(v, 128 * b, r, rem);
  }

  lemma Assoc(b: nat, r: nat)
    ensures 128 * (b * r) == (128 * b) * r
  {
  }

  lemma QuotientUnique(v: nat, d: nat, q: nat, r: nat)
    requires d > 0 && v == d * q + r && r < d
    ensures v / d == q
  {
    var q', r' := v / d, v % d;
    assert v == d * q' + r';
    assert d * (q - q') == r' - r;
    AtLeastOne(d, q - q');
    AtLeastOne(d, q' - q);
  }

  lemma AtLeastOne(d: nat, k: int)
    ensures k >= 1 ==> d * k >= d
  {
  }

  /** The i-th group is the value shifted right by 7i bits and cut to seven bits. */
  lemma {:induction false} DigitIs(v: nat, i: nat)
    ensures Digit(v, i) == v / Pow128(i) % 128
  {
    if i == 0 {
    } else {
      DigitIs(v / 128, i - 1);
      DivBy128(v, Pow128(i - 1));
    }
  }
}
