/** The has-bit word: one bit for each scalar field, bit k - 1 for field k. */
module HasBits {
  import opened HeaderRecords

  type Word = bv32

  const FIRST_GROUP: Word := 0xFF
  const SECOND_GROUP: Word := 0xFF00
  const KNOWN_BITS: Word := 0x33F

  function Mask(k: nat): Word
    requires IsScalar(k)
  {
    match k
    case 1 => 0x1
    case 2 => 0x2
    case 3 => 0x4
    case 4 => 0x8
    case 5 => 0x10
    case 6 => 0x20
    case 9 => 0x100
    case _ => 0x200
  }

  /** Field k has bit k - 1, counted from zero. */
  lemma MaskIsShift(k: nat)
    requires IsScalar(k)
    ensures Mask(k) == (1 as Word) << (k - 1)
  {
  }

  predicate Has(bits: Word, k: nat)
    requires IsScalar(k)
  {
    bits & Mask(k) != 0
  }

  function WithField(bits: Word, k: nat): Word
    requires IsScalar(k)
  {
    bits | Mask(k)
  }

  function WithoutField(bits: Word, k: nat): Word
    requires IsScalar(k)
  {
    bits & !Mask(k)
  }

  /** Bits 6, 7 and everything above 9 are clear. */
  predicate OnlyKnown(bits: Word) { bits & !KNOWN_BITS == 0 }

  lemma DistinctMasks(k: nat, j: nat)
    requires IsScalar(k) && IsScalar(j)
    ensures if k == j then Mask(k) == Mask(j) else Mask(k) & Mask(j) == 0 && Mask(k) != Mask(j)
    ensures Mask(k) != 0
    ensures Mask(k) & !KNOWN_BITS == 0
  {
  }

  lemma OrSame(bits: Word, m: Word)
    ensures (bits | m) & m == m
  {
  }

  lemma OrOther(bits: Word, m: Word, n: Word)
    requires m & n == 0
    ensures (bits | m) & n == bits & n
  {
  }

  lemma OrKnown(bits: Word, m: Word)
    requires m & !KNOWN_BITS == 0 && OnlyKnown(bits)
    ensures OnlyKnown(bits | m)
  {
  }

  lemma SetBit(bits: Word, k: nat, j: nat)
    requires IsScalar(k) && IsScalar(j)
    ensures Has(bits | Mask(k), j) <==> j == k || Has(bits, j)
    ensures OnlyKnown(bits) ==> OnlyKnown(bits | Mask(k))
  {
    hide Mask, Has, OnlyKnown;
    OrMask(bits, k, j);
    AddedUnderMask(bits, bits | Mask(k), k, j);
    if OnlyKnown(bits) { OrMaskKnown(bits, k); }
  }

  lemma OrMask(bits: Word, k: nat, j: nat)
    requires IsScalar(k) && IsScalar(j)
    ensures (bits | Mask(k)) & Mask(j) == if k == j then Mask(j) else bits & Mask(j)
  {
    if k == j {
      hide Mask;
      OrSame(bits, Mask(k));
    } else {
      DistinctMasks(k, j);
      hide Mask;
      OrOther(bits, Mask(k), Mask(j));
    }
  }

  lemma OrMaskKnown(bits: Word, k: nat)
    requires IsScalar(k) && OnlyKnown(bits)
    ensures OnlyKnown(bits | Mask(k))
  {
    DistinctMasks(k, k);
    hide Mask, OnlyKnown;
    OrKnown(bits, Mask(k));
  }

  lemma AddedUnderMask(bits: Word, added: Word, k: nat, j: nat)
    requires IsScalar(j) && added & Mask(j) == if k == j then Mask(j) else bits & Mask(j)
    ensures Has(added, j) <==> j == k || Has(bits, j)
  {
  }

  lemma ClearBit(bits: Word, k: nat, j: nat)
    requires IsScalar(k) && IsScalar(j)
    ensures Has(bits & !Mask(k), j) <==> j != k && Has(bits, j)
    ensures OnlyKnown(bits) ==> OnlyKnown(bits & !Mask(k))
  {
    DistinctMasks(k, j);
    hide Mask, Has, OnlyKnown;
    if k == j { AndNotSame(bits, Mask(k)); } else { AndNotOther(bits, Mask(k), Mask(j)); }
    SameUnderMask(bits, bits & !Mask(k), k, j);
    if OnlyKnown(bits) { AndNotKnown(bits, Mask(k)); }
  }

  lemma SameUnderMask(bits: Word, cleared: Word, k: nat, j: nat)
    requires IsScalar(j) && cleared & Mask(j) == if k == j then 0 else bits & Mask(j)
    ensures Has(cleared, j) <==> j != k && Has(bits, j)
  {
  }

  lemma AndNotSame(bits: Word, m: Word)
    ensures bits & !m & m == 0
  {
  }

  lemma AndNotOther(bits: Word, m: Word, n: Word)
    requires m & n == 0
    ensures bits & !m & n == bits & n
  {
  }

  lemma AndNotKnown(bits: Word, m: Word)
    requires OnlyKnown(bits)
    ensures OnlyKnown(bits & !m)
  {
  }

  /** A group guard that is zero says that no field of the group is present. */
  lemma GroupGuard(bits: Word, k: nat)
    requires IsScalar(k)
    ensures k <= 6 && Has(bits, k) ==> bits & FIRST_GROUP != 0
    ensures k >= 9 && Has(bits, k) ==> bits & SECOND_GROUP != 0
    ensures !Has(0, k)
  {
  }

  // ---------------------------------------------------------------- the word and the field values together

  /** Slot k holds the value of scalar field k; the other slots are not used. */
  ghost predicate IsValues(vals: seq<int>) {
    |vals| == 11 && forall k: nat :: IsScalar(k) ==> InRange(k, vals[k])
  }

  /** The representation invariant: no stray bits, and an absent field is at its default. */
  ghost predicate RepOk(bits: Word, vals: seq<int>) {
    && IsValues(vals) && vals[0] == vals[7] == vals[8] == 0
    && OnlyKnown(bits)
    && forall k: nat :: IsScalar(k) && !Has(bits, k) ==> vals[k] == 0
  }

  ghost function ScalarMap(bits: Word, vals: seq<int>): map<nat, int>
    requires IsValues(vals)
  {
    map k: nat | k <= 10 && IsScalar(k) && Has(bits, k) :: vals[k]
  }

  /** `bits'` is `bits` with field `k` added. */
  ghost predicate Adds(bits: Word, bits': Word, k: nat) {
    && (OnlyKnown(bits) ==> OnlyKnown(bits'))
    && forall j: nat :: IsScalar(j) ==> (Has(bits', j) <==> j == k || Has(bits, j))
  }

  lemma MaskAdds(bits: Word, k: nat)
    requires IsScalar(k)
    ensures Adds(bits, WithField(bits, k), k)
  {
    SetBit(bits, k, k);
    forall j: nat | IsScalar(j) ensures Has(bits | Mask(k), j) <==> j == k || Has(bits, j) { SetBit(bits, k, j); }
  }

  lemma StoreField(bits: Word, bits': Word, vals: seq<int>, k: nat, v: int)
    requires RepOk(bits, vals) && IsScalar(k) && InRange(k, v) && Adds(bits, bits', k)
    ensures RepOk(bits', vals[k := v])
    ensures ScalarMap(bits', vals[k := v]) == ScalarMap(bits, vals)[k := v]
  {
    hide Mask, Has, OnlyKnown;
  }

  /** `bits'` is `bits` with field `k` removed. */
  ghost predicate Drops(bits: Word, bits': Word, k: nat) {
    && (OnlyKnown(bits) ==> OnlyKnown(bits'))
    && forall j: nat :: IsScalar(j) ==> (Has(bits', j) <==> j != k && Has(bits, j))
  }

  lemma MaskDrops(bits: Word, k: nat)
    requires IsScalar(k)
    ensures Drops(bits, WithoutField(bits, k), k)
  {
    ClearBit(bits, k, k);
    forall j: nat | IsScalar(j) ensures Has(bits & !Mask(k), j) <==> j != k && Has(bits, j) { ClearBit(bits, k, j); }
  }

  lemma DropField(bits: Word, bits': Word, vals: seq<int>, k: nat)
    requires RepOk(bits, vals) && IsScalar(k) && Drops(bits, bits', k)
    ensures RepOk(bits', vals[k := 0])
    ensures ScalarMap(bits', vals[k := 0]) == ScalarMap(bits, vals) - {k}
  {
    hide Mask, Has, OnlyKnown;
  }

  /** What the mask-guarded clear leaves: each group is reset only if its guard is not zero. */
  function ClearedValues(bits: Word, vals: seq<int>): seq<int>
    requires |vals| == 11
  {
    seq(11, k requires 0 <= k < 11 =>
      if k <= 6 then (if bits & FIRST_GROUP != 0 then 0 else vals[k])
      else if bits & SECOND_GROUP != 0 then 0 else vals[k])
  }

  /** The guarded clear always gives all defaults. */
  lemma ClearIsTotal(bits: Word, vals: seq<int>)
    requires RepOk(bits, vals)
    ensures forall k :: 0 <= k < 11 ==> ClearedValues(bits, vals)[k] == 0
    ensures RepOk(0, ClearedValues(bits, vals)) && ScalarMap(0, ClearedValues(bits, vals)) == map[]
  {
    forall k: nat | IsScalar(k) ensures ClearedValues(bits, vals)[k] == 0 && !Has(0, k) { GroupGuard(bits, k); }
  }

  /** The message determines the has-bit word and every field value, present or not. */
  lemma MessageDeterminesRep(bits: Word, vals: seq<int>, bits': Word, vals': seq<int>)
    requires RepOk(bits, vals) && RepOk(bits', vals') && ScalarMap(bits, vals) == ScalarMap(bits', vals')
    ensures bits == bits' && vals == vals'
  {
    hide Mask, Has, OnlyKnown;
    var m, m' := ScalarMap(bits, vals), ScalarMap(bits', vals');
    forall k: nat | IsScalar(k) ensures Has(bits, k) == Has(bits', k) && vals[k] == vals'[k] {
      assert k in m <==> Has(bits, k);
      assert k in m' <==> Has(bits', k);
      if k in m { assert m[k] == vals[k] && m'[k] == vals'[k]; }
    }
    forall k: nat | k < 11 ensures vals[k] == vals'[k] {
      assert IsScalar(k) || k == 0 || k == 7 || k == 8;
    }
    assert vals == vals';
    SameFieldsSameWord(bits, bits');
  }

  lemma AllBits(a: Word, b: Word)
    requires OnlyKnown(a) && OnlyKnown(b)
    ensures Has(a, 1) == Has(b, 1) && Has(a, 2) == Has(b, 2) && Has(a, 3) == Has(b, 3) && Has(a, 4) == Has(b, 4)
         && Has(a, 5) == Has(b, 5) && Has(a, 6) == Has(b, 6) && Has(a, 9) == Has(b, 9) && Has(a, 10) == Has(b, 10)
         ==> a == b
  {
  }

  lemma SameFieldsSameWord(a: Word, b: Word)
    requires OnlyKnown(a) && OnlyKnown(b)
    requires forall k: nat :: IsScalar(k) ==> (Has(a, k) <==> Has(b, k))
    ensures a == b
  {
    hide Has, Mask, OnlyKnown;
    AllBits(a, b);
    assert Has(a, 1) == Has(b, 1) && Has(a, 2) == Has(b, 2) && Has(a, 3) == Has(b, 3) && Has(a, 4) == Has(b, 4);
    assert Has(a, 5) == Has(b, 5) && Has(a, 6) == Has(b, 6) && Has(a, 9) == Has(b, 9) && Has(a, 10) == Has(b, 10);
  }
}
