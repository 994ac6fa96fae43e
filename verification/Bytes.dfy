/** Machine integers and little-endian words, over unbounded integers with explicit ranges. */
module Bytes {
  const TWO_31: int := 0x8000_0000
  const TWO_32: int := 0x1_0000_0000
  const TWO_64: int := 0x1_0000_0000_0000_0000

  type byte = x: int | 0 <= x < 256
  type uint32 = x: int | 0 <= x < TWO_32
  type int32 = x: int | -TWO_31 <= x < TWO_31
  type uint64 = x: int | 0 <= x < TWO_64

  /** `static_cast<uint32>` of a 64-bit value. */
  function Low32(v: nat): uint32 {
    v % TWO_32
  }

  /** `static_cast<int32>` of a 32-bit value. */
  function ToInt32(v: uint32): int32 {
    if v < TWO_31 then v else v - TWO_32
  }

  /** `static_cast<uint64>` of a signed value: sign extension to 64 bits. */
  function SignExtend(v: int32): uint64 {
    if v < 0 then v + TWO_64 else v
  }

  // ---------------------------------------------------------------- sums in an int

  predicate InInt(n: int) { -TWO_31 <= n < TWO_31 }

  /** The conversion of a length to `int`. */
  function AsInt(n: nat): int32 { ToInt32(Low32(n)) }

  /** An addition that goes out of range has no defined result in C++; here it goes round. */
  function AddInt(a: int32, b: int32): int32 { ToInt32((a + b) % TWO_32) }

  /** An `int` sum for a count whose true value is `n`: it is exact, with no addition gone out of range, as long as `n`
      fits. */
  predicate Counts(sum: int32, exact: bool, n: nat) {
    (exact <==> n < TWO_31) && (exact ==> sum == n)
  }

  /** Adds an `int` that counts `n` to one that counts `m`. */
  method AddSize(sum: int32, exact: bool, more: int32, moreExact: bool, ghost m: nat, ghost n: nat)
    returns (newSum: int32, newExact: bool)
    requires Counts(sum, exact, m) && Counts(more, moreExact, n)
    ensures Counts(newSum, newExact, m + n)
  {
    newSum, newExact := AddInt(sum, more), exact && moreExact && InInt(sum + more);
  }

  lemma SignExtendThenTruncate(v: int32)
    ensures ToInt32(Low32(SignExtend(v))) == v
  {
    if v < 0 {
      assert v + TWO_64 == (v + TWO_32) + (TWO_32 - 1) * TWO_32;
    }
  }

  function Pow256(n: nat): (p: nat)
    ensures p > 0
  {
    if n == 0 then 1 else 256 * Pow256(n - 1)
  }

  function LittleEndian(v: nat, n: nat): (s: seq<byte>)
    ensures |s| == n
  {
    if n == 0 then [] else [v % 256] + LittleEndian(v / 256, n - 1)
  }

  function FromLittleEndian(s: seq<byte>): (v: nat)
    ensures v < Pow256(|s|)
  {
    if s == [] then 0 else s[0] + 256 * FromLittleEndian(s[1..])
  }

  lemma {:induction false} LittleEndianRoundTrip(v: nat, n: nat)
    requires v < Pow256(n)
    ensures FromLittleEndian(LittleEndian(v, n)) == v
  {
    if n == 0 {
    } else {
      LittleEndianRoundTrip(v / 256, n - 1);
      assert LittleEndian(v, n)[1..] == LittleEndian(v / 256, n - 1);
    }
  }

  lemma PowersOf256()
    ensures Pow256(4) == TWO_32 && Pow256(8) == TWO_64
  {
    assert Pow256(3) == 0x100_0000;
    assert Pow256(4) == TWO_32;
    assert Pow256(6) == 0x1_0000_0000_0000;
    assert Pow256(8) == 256 * Pow256(7);
  }

  lemma ConcatAssoc<T>(a: seq<T>, b: seq<T>, c: seq<T>)
    ensures a + b + c == a + (b + c)
  {
  }
}
