/** The `Header` class: its fields, its accessors, and the operations that combine whole messages. */
module HeaderClass {
  import opened Options
  import opened Bytes
  import opened Varint
  import opened Wire
  import opened HeaderRecords
  import opened MergeLaws
  import opened RoundTrip
  import opened Concatenation
  import opened HasBits
  import opened CodedInput
  import opened CodedOutput
  import opened ParserProgress

  /** `base` with the scalars of `m` up to number `k` merged into it. */
  ghost function MergedUpTo(base: map<nat, int>, m: Msg, k: nat): map<nat, int> { base + UpTo(m, k) }

  lemma MergeOne(base: map<nat, int>, m: Msg, k: nat)
    requires WellTyped(m) && IsScalar(k)
    ensures var before := MergedUpTo(base, m, if k == 9 then 6 else k - 1);
            MergedUpTo(base, m, k) == if k in m.scalars then before[k := m.scalars[k]] else before
  {
  }

  lemma MergeEnds(base: map<nat, int>, m: Msg)
    requires WellTyped(m)
    ensures MergedUpTo(base, m, 0) == base && MergedUpTo(base, m, 10) == base + m.scalars
  {
    assert UpTo(m, 0) == map[] && UpTo(m, 10) == m.scalars;
  }

  lemma {:induction false} CanonicalFieldsAreValid(fs: seq<UnknownField>)
    requires forall i :: 0 <= i < |fs| ==> CanonicalUnknown(fs[i])
    ensures ValidFields(fs, RECURSION_LIMIT)
  {
    if fs == [] {
    } else {
      CanonicalFieldsAreValid(fs[1..]);
    }
  }

  lemma NoFieldsNoBytes()
    ensures FieldsBytes([]) == []
  {
  }

  lemma ScalarBytesLength(m: Msg, k: nat)
    requires WellTyped(m) && IsScalar(k)
    ensures |ScalarBytes(m, k)| ==
            if k !in m.scalars then 0
            else 1 + if k <= 2 then VarintSize32SignExtended(m.scalars[k]) else VarintSize32(m.scalars[k])
  {
    if k in m.scalars {
      if k <= 2 { SizeIsLengthInt32(m.scalars[k]); } else { SizeIsLength32(m.scalars[k]); }
    }
  }

  /** The sections of the first six fields. */
  function FirstSix(m: Msg): seq<byte>
    requires WellTyped(m)
  {
    ScalarBytes(m, 1) + ScalarBytes(m, 2) + ScalarBytes(m, 3) +
    ScalarBytes(m, 4) + ScalarBytes(m, 5) + ScalarBytes(m, 6)
  }

  /** The length of the whole is the sum of the sections. */
  lemma SectionLengths(m: Msg)
    requires WellTyped(m)
    ensures |Serialize(m)| ==
            |FirstSix(m)| + |RepeatedBytes(7, m.remoteGuids)| + |RepeatedBytes(8, m.recvPlayerIDs)| +
            |ScalarBytes(m, 9)| + |ScalarBytes(m, 10)| + |FieldsBytes(m.unknown)|
  {
    hide ScalarBytes, RepeatedBytes, FieldsBytes;
  }

  /** What a repeated field takes on the wire without its tags. */
  function DataBytes(vs: seq<uint32>): seq<byte> {
    if vs == [] then [] else VarintBytes(vs[0]) + DataBytes(vs[1..])
  }

  /** Each value comes with one byte of tag. */
  lemma {:induction false} RepeatedLength(k: nat, vs: seq<uint32>)
    requires IsRepeated(k)
    ensures |RepeatedBytes(k, vs)| == |vs| + |DataBytes(vs)|
  {
    if vs == [] {
    } else {
      RepeatedLength(k, vs[1..]);
    }
  }

  /** The loop over the data of a repeated field, summed in an `int`; `exact` says that no sum has gone out of range. */
  method RepeatedDataSize(vs: seq<uint32>) returns (dataSize: int32, exact: bool)
    ensures Counts(dataSize, exact, |DataBytes(vs)|)
  {
    hide VarintBytes;
    dataSize, exact := 0, true;
    ghost var done: nat := 0;
    for i := 0 to |vs|
      invariant Counts(dataSize, exact, done) && done + |DataBytes(vs[i..])| == |DataBytes(vs)|
    {
      var one := SizeOfVarint32(vs[i]);
      assert vs[i..][1..] == vs[i + 1..];
      dataSize, exact := AddSize(dataSize, exact, one, true, done, |VarintBytes(vs[i])|);
      done := done + |VarintBytes(vs[i])|;
    }
  }

  method WriteRepeated(k: nat, vs: seq<uint32>, output: CodedOutputStream)
    requires IsRepeated(k)
    modifies output
    ensures output.out == old(output.out) + RepeatedBytes(k, vs)
  {
    ghost var start := output.out;
    for i := 0 to |vs|
      invariant output.out + RepeatedBytes(k, vs[i..]) == start + RepeatedBytes(k, vs)
    {
      ghost var was := output.out;
      output.WriteVarint(MakeTag(k, VARINT));
      output.WriteVarint(vs[i]);
      assert vs[i..][1..] == vs[i + 1..];
      ElementInFront(k, vs[i], vs[i + 1..], was);
    }
    assert output.out + [] == output.out;
  }

  lemma ElementInFront(k: nat, v: uint32, rest: seq<uint32>, was: seq<byte>)
    ensures was + VarintBytes(MakeTag(k, VARINT)) + VarintBytes(v) + RepeatedBytes(k, rest)
         == was + (VarintBytes(MakeTag(k, VARINT)) + VarintBytes(v) + RepeatedBytes(k, rest))
  {
  }

  method WriteRepeatedToArray(k: nat, vs: seq<uint32>, a: array<byte>, at: nat, ghost before: seq<byte>,
                              ghost base: nat, ghost done: seq<byte>)
    returns (end: nat)
    requires IsRepeated(k) && at == base + |done| && Wrote(before, a[..], base, done)
    requires at + |RepeatedBytes(k, vs)| <= a.Length
    modifies a
    ensures end == at + |RepeatedBytes(k, vs)| && Wrote(before, a[..], base, done + RepeatedBytes(k, vs))
  {
    end := at;
    ghost var so := done;
    for i := 0 to |vs|
      invariant so + RepeatedBytes(k, vs[i..]) == done + RepeatedBytes(k, vs)
      invariant end == base + |so| && Wrote(before, a[..], base, so)
    {
      ghost var tag, value := VarintBytes(MakeTag(k, VARINT)), VarintBytes(vs[i]);
      assert vs[i..][1..] == vs[i + 1..];
      ElementInFront(k, vs[i], vs[i + 1..], so);
      ConcatAssoc(so, tag, value);
      ghost var s0 := a[..];
      end := WriteTagToArray(MakeTag(k, VARINT), a, end);
      ghost var s1 := a[..];
      end := WriteVarint32ToArray(vs[i], a, end);
      WroteBoth(s0, s1, a[..], base + |so|, tag, value);
      WroteBoth(before, s0, a[..], base, so, tag + value);
      so := so + (tag + value);
    }
    assert so + [] == so;
  }

  class Header {
    var packetID: int32
    var packetSize: int32
    var sourceGuid: uint32
    var playerID: uint32
    var gateGuid: uint32
    var playerGuid: uint32
    var remoteGuids: seq<uint32>
    var recvPlayerIDs: seq<uint32>
    var ackSequenceNumber: uint32
    var sequenceNumber: uint32
    var cachedSize: int32
    var hasBits: Word
    var unknown: seq<UnknownField>

    ghost function Values(): (vals: seq<int>)
      reads this
      ensures |vals| == 11
    {
      [0, packetID, packetSize, sourceGuid, playerID, gateGuid, playerGuid, 0, 0, ackSequenceNumber, sequenceNumber]
    }

    ghost predicate Valid()
      reads this
    {
      RepOk(hasBits, Values()) && forall i :: 0 <= i < |unknown| ==> CanonicalUnknown(unknown[i])
    }

    ghost function View(): Msg
      reads this
      requires Valid()
    {
      Msg(ScalarMap(hasBits, Values()), remoteGuids, recvPlayerIDs, unknown)
    }

    /** Which member each field number stands for. */
    lemma FieldsByNumber(k: nat)
      requires Valid()
      ensures k in View().scalars ==>
                k in {1, 2, 3, 4, 5, 6, 9, 10} &&
                View().scalars[k] == if k == 1 then packetID else if k == 2 then packetSize
                                     else if k == 3 then sourceGuid else if k == 4 then playerID
                                     else if k == 5 then gateGuid else if k == 6 then playerGuid
                                     else if k == 9 then ackSequenceNumber else sequenceNumber
      ensures View().remoteGuids == remoteGuids && View().recvPlayerIDs == recvPlayerIDs && View().unknown == unknown
    {
    }

    lemma ViewIsWellFormed()
      requires Valid()
      ensures WellFormed(View())
    {
      hide Mask, Has, OnlyKnown;
    }

    constructor ()
      ensures Valid() && View() == EMPTY && cachedSize == 0
    {
      cachedSize := 0;
      packetID, packetSize := 0, 0;
      sourceGuid, playerID, gateGuid, playerGuid := 0, 0, 0, 0;
      ackSequenceNumber, sequenceNumber := 0, 0;
      remoteGuids, recvPlayerIDs, unknown := [], [], [];
      hasBits := 0;
      new;
      forall k: nat | IsScalar(k) ensures !Has(0, k) { GroupGuard(0, k); }
      assert ScalarMap(0, Values()) == map[];
    }

    // ---------------------------------------------------------------- accessors

    method HasField(k: nat) returns (present: bool)
      requires Valid() && IsScalar(k)
      ensures present <==> k in View().scalars
    {
      present := hasBits & Mask(k) != 0;
    }

    /** Reading an absent field gives its default. */
    method Get(k: nat) returns (v: int)
      requires Valid() && IsScalar(k)
      ensures v == (if k in View().scalars then View().scalars[k] else 0) && InRange(k, v)
    {
      match k {
        case 1 => v := packetID;
        case 2 => v := packetSize;
        case 3 => v := sourceGuid;
        case 4 => v := playerID;
        case 5 => v := gateGuid;
        case 6 => v := playerGuid;
        case 9 => v := ackSequenceNumber;
        case _ => v := sequenceNumber;
      }
      assert v == Values()[k];
    }

    /** Stores a value without touching the has-bit. */
    method Store(k: nat, v: int)
      requires IsScalar(k) && InRange(k, v)
      modifies this`packetID, this`packetSize, this`sourceGuid, this`playerID, this`gateGuid, this`playerGuid,
               this`ackSequenceNumber, this`sequenceNumber
      ensures Values() == old(Values())[k := v]
    {
      match k {
        case 1 => packetID := v;
        case 2 => packetSize := v;
        case 3 => sourceGuid := v;
        case 4 => playerID := v;
        case 5 => gateGuid := v;
        case 6 => playerGuid := v;
        case 9 => ackSequenceNumber := v;
        case _ => sequenceNumber := v;
      }
    }

    method SetField(k: nat, v: int)
      requires Valid() && IsScalar(k) && InRange(k, v)
      modifies this
      ensures Valid() && cachedSize == old(cachedSize)
      ensures View() == old(View()).(scalars := old(View()).scalars[k := v])
    {
      MaskAdds(hasBits, k);
      StoreField(hasBits, WithField(hasBits, k), Values(), k, v);
      hide WithField, Adds, Mask, Has, OnlyKnown, RepOk, ScalarMap, CanonicalUnknown;
      hasBits := WithField(hasBits, k);
      Store(k, v);
    }

    method ClearField(k: nat)
      requires Valid() && IsScalar(k)
      modifies this
      ensures Valid() && cachedSize == old(cachedSize)
      ensures View() == old(View()).(scalars := old(View()).scalars - {k})
    {
      MaskDrops(hasBits, k);
      DropField(hasBits, WithoutField(hasBits, k), Values(), k);
      hide WithoutField, Drops, Mask, Has, OnlyKnown, RepOk, ScalarMap, CanonicalUnknown;
      Store(k, 0);
      hasBits := WithoutField(hasBits, k);
    }

    method AddRemoteGuid(v: uint32)
      requires Valid()
      modifies this`remoteGuids
      ensures Valid() && View() == old(View()).(remoteGuids := old(remoteGuids) + [v])
    {
      remoteGuids := remoteGuids + [v];
    }

    method AddRecvPlayerID(v: uint32)
      requires Valid()
      modifies this`recvPlayerIDs
      ensures Valid() && View() == old(View()).(recvPlayerIDs := old(recvPlayerIDs) + [v])
    {
      recvPlayerIDs := recvPlayerIDs + [v];
    }

    method ClearRemoteGuids()
      requires Valid()
      modifies this`remoteGuids
      ensures Valid() && View() == old(View()).(remoteGuids := [])
    {
      remoteGuids := [];
    }

    // ---------------------------------------------------------------- whole messages

    /** The mask-guarded clear. */
    method Clear()
      requires Valid()
      modifies this
      ensures Valid() && View() == EMPTY && cachedSize == old(cachedSize)
    {
      ClearIsTotal(hasBits, Values());
      ghost var cleared := ClearedValues(hasBits, Values());
      if hasBits & FIRST_GROUP != 0 {
        packetID, packetSize := 0, 0;
        sourceGuid, playerID, gateGuid, playerGuid := 0, 0, 0, 0;
      }
      if hasBits & SECOND_GROUP != 0 {
        ackSequenceNumber, sequenceNumber := 0, 0;
      }
      remoteGuids, recvPlayerIDs := [], [];
      hasBits := 0;
      unknown := [];
      assert Values() == cleared;
    }

    /** Copies field `k` if `from` has it; the fields below it have been merged. */
    method MergeField(from: Header, k: nat, ghost base: map<nat, int>)
      requires Valid() && from.Valid() && from != this && IsScalar(k)
      requires View().scalars == MergedUpTo(base, from.View(), if k == 9 then 6 else k - 1)
      modifies this
      ensures Valid() && cachedSize == old(cachedSize)
      ensures View() == old(View()).(scalars := MergedUpTo(base, from.View(), k))
    {
      from.ViewIsWellFormed();
      MergeOne(base, from.View(), k);
      hide MergedUpTo, Mask, Has, OnlyKnown, RepOk, ScalarMap, CanonicalUnknown;
      var present := from.HasField(k);
      if present {
        var v := from.Get(k);
        SetField(k, v);
      }
    }

    /** The first guarded group. */
    method MergeFirstGroup(from: Header, ghost base: map<nat, int>)
      requires Valid() && from.Valid() && from != this
      requires View().scalars == MergedUpTo(base, from.View(), 0)
      modifies this
      ensures Valid() && cachedSize == old(cachedSize)
      ensures View() == old(View()).(scalars := MergedUpTo(base, from.View(), 6))
    {
      hide MergedUpTo, Mask, Has, OnlyKnown, RepOk, ScalarMap, CanonicalUnknown;
      if from.hasBits & FIRST_GROUP == 0 {
        from.NoneUpTo(base);
        return;
      }
      MergeField(from, 1, base);
      MergeField(from, 2, base);
      MergeField(from, 3, base);
      MergeField(from, 4, base);
      MergeField(from, 5, base);
      MergeField(from, 6, base);
    }

    /** The second guarded group. */
    method MergeSecondGroup(from: Header, ghost base: map<nat, int>)
      requires Valid() && from.Valid() && from != this
      requires View().scalars == MergedUpTo(base, from.View(), 6)
      modifies this
      ensures Valid() && cachedSize == old(cachedSize)
      ensures View() == old(View()).(scalars := MergedUpTo(base, from.View(), 10))
    {
      hide MergedUpTo, Mask, Has, OnlyKnown, RepOk, ScalarMap, CanonicalUnknown;
      if from.hasBits & SECOND_GROUP == 0 {
        from.NoneAbove(base);
        return;
      }
      MergeField(from, 9, base);
      MergeField(from, 10, base);
    }

    method MergeFrom(from: Header)
      requires Valid() && from.Valid() && from != this
      modifies this
      ensures Valid() && View() == Merge(old(View()), from.View()) && cachedSize == old(cachedSize)
    {
      hide Mask, Has, OnlyKnown, RepOk, ScalarMap, CanonicalUnknown;
      ghost var base := View().scalars;
      from.ViewIsWellFormed();
      MergeEnds(base, from.View());
      hide MergedUpTo, WellFormed, WellTyped;
      remoteGuids := remoteGuids + from.remoteGuids;
      recvPlayerIDs := recvPlayerIDs + from.recvPlayerIDs;
      MergeFirstGroup(from, base);
      MergeSecondGroup(from, base);
      unknown := unknown + from.unknown;
    }

    lemma NoneUpTo(base: map<nat, int>)
      requires Valid() && hasBits & FIRST_GROUP == 0
      ensures MergedUpTo(base, View(), 6) == MergedUpTo(base, View(), 0)
    {
      forall k: nat | IsScalar(k) && k <= 6 ensures k !in View().scalars { GroupGuard(hasBits, k); }
      assert UpTo(View(), 6) == UpTo(View(), 0);
    }

    lemma NoneAbove(base: map<nat, int>)
      requires Valid() && hasBits & SECOND_GROUP == 0
      ensures MergedUpTo(base, View(), 10) == MergedUpTo(base, View(), 6)
    {
      forall k: nat | IsScalar(k) && k >= 9 ensures k !in View().scalars { GroupGuard(hasBits, k); }
      assert UpTo(View(), 10) == UpTo(View(), 6);
    }

    method CopyFrom(from: Header)
      requires Valid() && from.Valid()
      modifies this
      ensures Valid() && from.Valid() && View() == old(from.View()) == from.View()
    {
      if from == this {
        return;
      }
      Clear();
      MergeFrom(from);
      MergeIdentity(from.View());
    }

    method SwapScalars(other: Header)
      requires other != this
      modifies this`packetID, this`packetSize, this`sourceGuid, this`playerID, this`gateGuid, this`playerGuid,
               this`ackSequenceNumber, this`sequenceNumber,
               other`packetID, other`packetSize, other`sourceGuid, other`playerID, other`gateGuid, other`playerGuid,
               other`ackSequenceNumber, other`sequenceNumber
      ensures Values() == old(other.Values()) && other.Values() == old(Values())
    {
      packetID, other.packetID := other.packetID, packetID;
      packetSize, other.packetSize := other.packetSize, packetSize;
      sourceGuid, other.sourceGuid := other.sourceGuid, sourceGuid;
      playerID, other.playerID := other.playerID, playerID;
      gateGuid, other.gateGuid := other.gateGuid, gateGuid;
      playerGuid, other.playerGuid := other.playerGuid, playerGuid;
      ackSequenceNumber, other.ackSequenceNumber := other.ackSequenceNumber, ackSequenceNumber;
      sequenceNumber, other.sequenceNumber := other.sequenceNumber, sequenceNumber;
    }

    method Swap(other: Header)
      requires Valid() && other.Valid()
      modifies this, other
      ensures Valid() && other.Valid()
      ensures View() == old(other.View()) && other.View() == old(View())
      ensures cachedSize == old(other.cachedSize) && other.cachedSize == old(cachedSize)
    {
      hide Mask, Has, OnlyKnown, RepOk, ScalarMap, CanonicalUnknown;
      if other != this {
        remoteGuids, other.remoteGuids := other.remoteGuids, remoteGuids;
        recvPlayerIDs, other.recvPlayerIDs := other.recvPlayerIDs, recvPlayerIDs;
        hasBits, other.hasBits := other.hasBits, hasBits;
        unknown, other.unknown := other.unknown, unknown;
        cachedSize, other.cachedSize := other.cachedSize, cachedSize;
        SwapScalars(other);
      }
    }

    // ---------------------------------------------------------------- sizes and writing

    lemma UnknownIsValid()
      requires Valid()
      ensures ValidFields(unknown, RECURSION_LIMIT)
    {
      CanonicalFieldsAreValid(unknown);
    }

    /** What one scalar field adds to the size. */
    method ScalarSize(k: nat) returns (n: int32)
      requires Valid() && IsScalar(k)
      ensures 0 <= n <= 11 && n == |ScalarBytes(View(), k)|
    {
      n := 0;
      ScalarBytesLength(View(), k);
      var present := HasField(k);
      if present {
        var v := Get(k);
        n := 1 + if k <= 2 then VarintSize32SignExtended(v) else VarintSize32(v);
      }
    }

    method FirstGroupSize() returns (n: int32)
      requires Valid()
      ensures n == |FirstSix(View())|
    {
      hide Mask, Has, OnlyKnown, RepOk, ScalarMap, CanonicalUnknown;
      if hasBits & FIRST_GROUP == 0 {
        NoneInGroups();
        return 0;
      }
      hide ScalarBytes;
      var n1 := ScalarSize(1);
      var n2 := ScalarSize(2);
      var n3 := ScalarSize(3);
      var n4 := ScalarSize(4);
      var n5 := ScalarSize(5);
      var n6 := ScalarSize(6);
      return n1 + n2 + n3 + n4 + n5 + n6;
    }

    method SecondGroupSize() returns (n: int32)
      requires Valid()
      ensures n == |ScalarBytes(View(), 9)| + |ScalarBytes(View(), 10)|
    {
      hide Mask, Has, OnlyKnown, RepOk, ScalarMap, CanonicalUnknown;
      if hasBits & SECOND_GROUP == 0 {
        NoneInGroups();
        return 0;
      }
      var n9 := ScalarSize(9);
      var n10 := ScalarSize(10);
      return n9 + n10;
    }

    /** One repeated field: a byte of tag for each value, and the data. */
    method RepeatedSize(k: nat, vs: seq<uint32>) returns (size: int32, exact: bool)
      requires IsRepeated(k)
      ensures Counts(size, exact, |RepeatedBytes(k, vs)|)
    {
      RepeatedLength(k, vs);
      var dataSize, dataExact := RepeatedDataSize(vs);
      size, exact := AddSize(AsInt(|vs|), |vs| < TWO_31, dataSize, dataExact, |vs|, |DataBytes(vs)|);
    }

    /** Sums in the order of the source: guarded scalars first, then the repeated fields, then the unknown ones. */
    method SumOfSections() returns (total: int32, exact: bool)
      requires Valid()
      ensures Counts(total, exact, |Serialize(View())|)
    {
      hide Mask, Has, OnlyKnown, RepOk, ScalarMap, CanonicalUnknown, Counts;
      hide FirstSix, ScalarBytes, RepeatedBytes, FieldsBytes, Serialize;
      ViewIsWellFormed();
      SectionLengths(View());
      ghost var m := View();
      total, exact := ScalarsSize();
      ghost var done := |FirstSix(m)| + |ScalarBytes(m, 9)| + |ScalarBytes(m, 10)|;
      var size, sizeExact := RepeatedSize(7, remoteGuids);
      total, exact := AddSize(total, exact, size, sizeExact, done, |RepeatedBytes(7, remoteGuids)|);
      done := done + |RepeatedBytes(7, remoteGuids)|;
      size, sizeExact := RepeatedSize(8, recvPlayerIDs);
      total, exact := AddSize(total, exact, size, sizeExact, done, |RepeatedBytes(8, recvPlayerIDs)|);
      done := done + |RepeatedBytes(8, recvPlayerIDs)|;
      if unknown != [] {
        UnknownIsValid();
        size, sizeExact := UnknownFieldsSize(unknown, RECURSION_LIMIT);
        total, exact := AddSize(total, exact, size, sizeExact, done, |FieldsBytes(unknown)|);
      } else {
        NoFieldsNoBytes();
      }
    }

    method ScalarsSize() returns (size: int32, exact: bool)
      requires Valid()
      ensures Counts(size, exact, |FirstSix(View())| + |ScalarBytes(View(), 9)| + |ScalarBytes(View(), 10)|)
    {
      hide Mask, Has, OnlyKnown, RepOk, ScalarMap, CanonicalUnknown, FirstSix, ScalarBytes;
      ViewIsWellFormed();
      var first := FirstGroupSize();
      var second := SecondGroupSize();
      size, exact := AddSize(first, true, second, true, first, second);
    }

    /** The sums are kept in an `int`: the result is the size exactly when the size is below 2^31, and exactly then no
        addition has gone out of range. */
    method ByteSize() returns (total: int32, exact: bool)
      requires Valid()
      modifies this`cachedSize
      ensures Valid() && View() == old(View()) && cachedSize == total
      ensures exact <==> |Serialize(View())| < TWO_31
      ensures exact ==> total == |Serialize(View())|
    {
      hide Mask, Has, OnlyKnown, RepOk, ScalarMap, CanonicalUnknown, Serialize;
      ViewIsWellFormed();
      total, exact := SumOfSections();
      cachedSize := total;
    }

    lemma NoneInGroups()
      requires Valid()
      ensures hasBits & FIRST_GROUP == 0 ==> forall k: nat :: IsScalar(k) && k <= 6 ==> k !in View().scalars
      ensures hasBits & SECOND_GROUP == 0 ==> forall k: nat :: IsScalar(k) && k >= 9 ==> k !in View().scalars
    {
      forall k: nat | IsScalar(k)
        ensures Has(hasBits, k) ==> hasBits & (if k <= 6 then FIRST_GROUP else SECOND_GROUP) != 0
      {
        GroupGuard(hasBits, k);
      }
    }

    /** Writes one scalar field, if present, after what is `done`. */
    method WriteScalar(k: nat, output: CodedOutputStream, ghost start: seq<byte>, ghost done: seq<byte>)
      requires Valid() && IsScalar(k) && output.out == start + done
      modifies output
      ensures output.out == start + (done + ScalarBytes(View(), k))
    {
      var present := HasField(k);
      ghost var b := ScalarBytes(View(), k);
      ConcatAssoc(start, done, b);
      if present {
        var v := Get(k);
        output.WriteVarint(MakeTag(k, VARINT));
        if k <= 2 {
          output.WriteVarint32SignExtended(v);
        } else {
          output.WriteVarint(v);
        }
        ConcatAssoc(start + done, VarintBytes(MakeTag(k, VARINT)), ScalarValueBytes(k, v));
      }
    }

    method WriteFirstSix(output: CodedOutputStream)
      requires Valid()
      modifies output
      ensures output.out == old(output.out) + FirstSix(View())
    {
      ViewIsWellFormed();
      hide ScalarBytes, Mask, Has, OnlyKnown, RepOk, ScalarMap, CanonicalUnknown;
      ghost var m, start := View(), output.out;
      assert start + [] == start;
      WriteScalar(1, output, start, []);
      ghost var b := ScalarBytes(m, 1);
      assert [] + b == b;
      WriteScalar(2, output, start, b);
      b := b + ScalarBytes(m, 2);
      WriteScalar(3, output, start, b);
      b := b + ScalarBytes(m, 3);
      WriteScalar(4, output, start, b);
      b := b + ScalarBytes(m, 4);
      WriteScalar(5, output, start, b);
      b := b + ScalarBytes(m, 5);
      WriteScalar(6, output, start, b);
    }

    method SerializeWithCachedSizes(output: CodedOutputStream)
      requires Valid()
      modifies output
      ensures output.out == old(output.out) + Serialize(View())
    {
      ViewIsWellFormed();
      hide RepeatedBytes, FieldsBytes, ScalarBytes, Mask, Has, OnlyKnown, RepOk, ScalarMap, CanonicalUnknown;
      ghost var m, start := View(), output.out;
      ghost var b := FirstSix(m);
      WriteFirstSix(output);
      WriteRepeated(7, remoteGuids, output);
      ConcatAssoc(start, b, RepeatedBytes(7, remoteGuids));
      b := b + RepeatedBytes(7, remoteGuids);
      WriteRepeated(8, recvPlayerIDs, output);
      ConcatAssoc(start, b, RepeatedBytes(8, recvPlayerIDs));
      b := b + RepeatedBytes(8, recvPlayerIDs);
      WriteScalar(9, output, start, b);
      b := b + ScalarBytes(m, 9);
      WriteScalar(10, output, start, b);
      b := b + ScalarBytes(m, 10);
      ConcatAssoc(start, b, FieldsBytes(unknown));
      WriteUnknown(output);
    }

    method WriteUnknown(output: CodedOutputStream)
      requires Valid()
      modifies output
      ensures output.out == old(output.out) + FieldsBytes(unknown)
    {
      if unknown != [] {
        UnknownIsValid();
        output.WriteUnknownFields(unknown, RECURSION_LIMIT);
      } else {
        assert output.out + [] == output.out;
      }
    }

    /** Writes one scalar field, if present, in place after what is `done`. */
    method WriteScalarToArray(k: nat, a: array<byte>, at: nat, ghost before: seq<byte>, ghost base: nat,
                              ghost done: seq<byte>)
      returns (end: nat)
      requires Valid() && IsScalar(k) && at == base + |done| && Wrote(before, a[..], base, done)
      requires at + |ScalarBytes(View(), k)| <= a.Length
      modifies a
      ensures end == at + |ScalarBytes(View(), k)|
      ensures Wrote(before, a[..], base, done + ScalarBytes(View(), k))
    {
      hide Wrote, VarintBytes, Mask, Has, OnlyKnown, RepOk, ScalarMap, CanonicalUnknown;
      var present := HasField(k);
      end := at;
      if present {
        var v := Get(k);
        ghost var tag, value := VarintBytes(MakeTag(k, VARINT)), ScalarValueBytes(k, v);
        ghost var s0 := a[..];
        end := WriteTagToArray(MakeTag(k, VARINT), a, at);
        ghost var s1 := a[..];
        if k <= 2 {
          end := WriteVarint32SignExtendedToArray(v, a, end);
        } else {
          end := WriteVarint32ToArray(v, a, end);
        }
        WroteBoth(s0, s1, a[..], at, tag, value);
        WroteBoth(before, s0, a[..], base, done, tag + value);
      } else {
        assert done + [] == done;
      }
    }

    /** The first six sections. */
    method WriteFirstSixToArray(a: array<byte>, at: nat) returns (end: nat)
      requires Valid() && at + |FirstSix(View())| <= a.Length
      modifies a
      ensures end == at + |FirstSix(View())| && Wrote(old(a[..]), a[..], at, FirstSix(View()))
    {
      hide Wrote, VarintBytes, Mask, Has, OnlyKnown, RepOk, CanonicalUnknown;
      ghost var m, before := View(), a[..];
      WroteNothing(before, at);
      assert [] + ScalarBytes(m, 1) == ScalarBytes(m, 1);
      hide ScalarBytes;
      end := WriteScalarToArray(1, a, at, before, at, []);
      ghost var b := ScalarBytes(m, 1);
      end := WriteScalarToArray(2, a, end, before, at, b);
      b := b + ScalarBytes(m, 2);
      end := WriteScalarToArray(3, a, end, before, at, b);
      b := b + ScalarBytes(m, 3);
      end := WriteScalarToArray(4, a, end, before, at, b);
      b := b + ScalarBytes(m, 4);
      end := WriteScalarToArray(5, a, end, before, at, b);
      b := b + ScalarBytes(m, 5);
      end := WriteScalarToArray(6, a, end, before, at, b);
    }

    /** Writes in place from `at`; nothing outside the written range changes. */
    method SerializeWithCachedSizesToArray(a: array<byte>, at: nat) returns (end: nat)
      requires Valid() && at + |Serialize(View())| <= a.Length
      modifies a
      ensures end == at + |Serialize(View())| && Wrote(old(a[..]), a[..], at, Serialize(View()))
    {
      hide Wrote, VarintBytes, RepeatedBytes, FieldsBytes, ScalarBytes, Mask, Has, OnlyKnown, RepOk, CanonicalUnknown;
      ghost var m, before := View(), a[..];
      end := WriteFirstSixToArray(a, at);
      ghost var b := FirstSix(m);
      hide FirstSix;
      end := WriteRepeatedToArray(7, remoteGuids, a, end, before, at, b);
      b := b + RepeatedBytes(7, remoteGuids);
      end := WriteRepeatedToArray(8, recvPlayerIDs, a, end, before, at, b);
      b := b + RepeatedBytes(8, recvPlayerIDs);
      end := WriteScalarToArray(9, a, end, before, at, b);
      b := b + ScalarBytes(m, 9);
      end := WriteScalarToArray(10, a, end, before, at, b);
      b := b + ScalarBytes(m, 10);
      end := WriteUnknownToArray(a, end, before, at, b);
    }

    method WriteUnknownToArray(a: array<byte>, at: nat, ghost before: seq<byte>, ghost base: nat, ghost done: seq<byte>)
      returns (end: nat)
      requires Valid() && at == base + |done| && Wrote(before, a[..], base, done)
      requires at + |FieldsBytes(unknown)| <= a.Length
      modifies a
      ensures end == at + |FieldsBytes(unknown)| && Wrote(before, a[..], base, done + FieldsBytes(unknown))
    {
      hide Wrote, FieldsBytes;
      end := at;
      if unknown != [] {
        UnknownIsValid();
        ghost var s0 := a[..];
        end := WriteUnknownFieldsToArray(unknown, a, at, RECURSION_LIMIT);
        WroteBoth(before, s0, a[..], base, done, FieldsBytes(unknown));
      } else {
        NoFieldsNoBytes();
        assert done + [] == done;
      }
    }

    /** Allocates a buffer of the computed size and fills it to its last byte; `None` where the size does not fit an
        `int`, which leaves the program without a defined meaning. */
    method Serialized() returns (text: Option<seq<byte>>)
      requires Valid()
      modifies this`cachedSize
      ensures Valid() && View() == old(View())
      ensures text == if |Serialize(View())| < TWO_31 then Some(Serialize(View())) else None
    {
      hide Mask, Has, OnlyKnown, RepOk, ScalarMap, CanonicalUnknown, Serialize, Wrote;
      ViewIsWellFormed();
      var size, exact := ByteSize();
      if !exact {
        return None;
      }
      var data := new byte[size](_ => 0);
      ghost var before := data[..];
      var end := SerializeWithCachedSizesToArray(data, 0);
      WroteAll(before, data[..], Serialize(View()));
      text := Some(data[..]);
    }

    // ---------------------------------------------------------------- the parser

    /** `ReadPrimitive` into a scalar field, then its has-bit; on failure the field is as it was. */
    method ReadScalar(k: nat, input: CodedInputStream, ghost whole: seq<byte>, ghost start: Msg) returns (ok: bool)
      requires Valid() && IsScalar(k) && Ahead(whole, start, input.buffer, MakeTag(k, VARINT), View())
      modifies this, input`buffer
      ensures Valid() && |input.buffer| <= |old(input.buffer)|
      ensures ok ==> AtTop(whole, start, input.buffer, View()) && |input.buffer| < |old(input.buffer)|
      ensures !ok ==> Finished(whole, start, View(), Failed)
    {
      hide Ahead, AtTop, Finished;
      VarintIsRead(whole, start, input.buffer, k, View());
      var v;
      ok, v := input.ReadVarint32();
      if ok {
        SetField(k, ValueOf(k, v));
      }
    }

    /** `Add` on one of the two repeated fields. */
    method AddTo(k: nat, v: uint32)
      requires Valid() && IsRepeated(k)
      modifies this`remoteGuids, this`recvPlayerIDs
      ensures Valid() && View() == Apply(old(View()), Repeated(k, [v]))
    {
      if k == 7 {
        AddRemoteGuid(v);
      } else {
        AddRecvPlayerID(v);
      }
      assert recvPlayerIDs == old(recvPlayerIDs) || remoteGuids == old(remoteGuids);
    }

    method ReadElement(k: nat, input: CodedInputStream, ghost whole: seq<byte>, ghost start: Msg) returns (ok: bool)
      requires Valid() && IsRepeated(k) && Ahead(whole, start, input.buffer, MakeTag(k, VARINT), View())
      modifies this, input`buffer
      ensures Valid() && |input.buffer| <= |old(input.buffer)|
      ensures ok ==> AtTop(whole, start, input.buffer, View()) && |input.buffer| < |old(input.buffer)|
      ensures !ok ==> Finished(whole, start, View(), Failed)
    {
      hide Ahead, AtTop, Finished;
      VarintIsRead(whole, start, input.buffer, k, View());
      var v;
      ok, v := input.ReadVarint32();
      if ok {
        AddTo(k, v);
      }
    }

    /** `ExpectTag` for field `k` with wire type varint. */
    method Expect(k: nat, input: CodedInputStream, ghost whole: seq<byte>, ghost start: Msg) returns (found: bool)
      requires Valid() && 1 <= k <= 10 && AtTop(whole, start, input.buffer, View())
      modifies input`buffer
      ensures |input.buffer| <= |old(input.buffer)|
      ensures found ==> Ahead(whole, start, input.buffer, MakeTag(k, VARINT), View())
      ensures !found ==> AtTop(whole, start, input.buffer, View())
    {
      hide Ahead, AtTop;
      ghost var s := input.buffer;
      found := input.ExpectTag(MakeTag(k, VARINT));
      if found {
        TagIsFound(whole, start, s, MakeTag(k, VARINT), input.buffer, View());
      }
    }

    /** One element, and then more of the same field for as long as the tag follows and reserved slots are left. */
    method ReadRepeated(k: nat, input: CodedInputStream, ghost whole: seq<byte>, ghost start: Msg) returns (ok: bool)
      requires Valid() && IsRepeated(k) && Ahead(whole, start, input.buffer, MakeTag(k, VARINT), View())
      modifies this, input`buffer
      ensures Valid() && |input.buffer| <= |old(input.buffer)|
      ensures ok ==> AtTop(whole, start, input.buffer, View()) && |input.buffer| < |old(input.buffer)|
      ensures !ok ==> Finished(whole, start, View(), Failed)
    {
      hide Ahead, AtTop, Finished;
      ok := ReadElement(k, input, whole, start);
      if !ok {
        return;
      }
      var reserved: nat := *;
      while reserved > 0
        invariant Valid() && ok && |input.buffer| < |old(input.buffer)|
        invariant AtTop(whole, start, input.buffer, View())
        decreases reserved
      {
        var found := Expect(k, input, whole, start);
        if !found {
          return;
        }
        ok := ReadElement(k, input, whole, start);
        if !ok {
          return;
        }
        reserved := reserved - 1;
      }
    }

    /** The packed form: the declared length narrows the window, and varints are read until it is empty. */
    method ReadPackedInto(k: nat, input: CodedInputStream) returns (ok: bool)
      requires Valid() && IsRepeated(k) && !input.legitimateEnd
      modifies this`remoteGuids, this`recvPlayerIDs, input`buffer, input`legitimateEnd
      ensures Valid() && |input.buffer| <= |old(input.buffer)| && !input.legitimateEnd
      ensures match ReadPackedField(old(input.buffer))
              case PackedBroken(vs) => !ok && View() == Apply(old(View()), Repeated(k, vs))
              case PackedRead(vs, rest, _) =>
                ok && View() == Apply(old(View()), Repeated(k, vs)) && input.buffer == rest
    {
      hide ReadVarint32;
      ghost var was := View();
      AddNothing(was, k);
      var length;
      ok, length := input.ReadVarint32();
      if !ok {
        return;
      }
      ghost var unlimited := input.buffer;
      var hidden := input.PushLimit(length);
      ghost var payload, added: seq<uint32> := input.buffer, [];
      assert payload + hidden == unlimited;
      assert hidden == unlimited[|payload|..] && payload == unlimited[..|payload|];
      while input.buffer != []
        invariant Valid() && View() == Apply(was, Repeated(k, added))
        invariant |input.buffer| <= |payload| && !input.legitimateEnd
        invariant ReadPacked(payload) == Packed(added + ReadPacked(input.buffer).values, ReadPacked(input.buffer).ok)
        decreases |input.buffer|
      {
        ghost var s := input.buffer;
        var v;
        ok, v := input.ReadVarint32();
        if !ok {
          assert added + [] == added;
          return;
        }
        AddTo(k, v);
        AddMore(was, k, added, v);
        PackedCons(s, v, input.buffer);
        ConcatAssoc(added, [v], ReadPacked(input.buffer).values);
        added := added + [v];
      }
      assert added + [] == added;
      assert [] + hidden == hidden;
      input.PopLimit(hidden);
    }

    lemma AddNothing(m: Msg, k: nat)
      ensures Apply(m, Repeated(k, [])) == m
    {
      assert m.remoteGuids + [] == m.remoteGuids && m.recvPlayerIDs + [] == m.recvPlayerIDs;
    }

    lemma AddMore(m: Msg, k: nat, vs: seq<uint32>, v: uint32)
      ensures Apply(Apply(m, Repeated(k, vs)), Repeated(k, [v])) == Apply(m, Repeated(k, vs + [v]))
    {
      ConcatAssoc(m.remoteGuids, vs, [v]);
      ConcatAssoc(m.recvPlayerIDs, vs, [v]);
    }

    method ReadPackedPrimitive(k: nat, input: CodedInputStream, ghost whole: seq<byte>, ghost start: Msg)
      returns (ok: bool)
      requires Valid() && IsRepeated(k) && !input.legitimateEnd
      requires Ahead(whole, start, input.buffer, MakeTag(k, LENGTH_DELIMITED), View())
      modifies this, input`buffer, input`legitimateEnd
      ensures Valid() && |input.buffer| <= |old(input.buffer)| && !input.legitimateEnd
      ensures ok ==> AtTop(whole, start, input.buffer, View()) && |input.buffer| < |old(input.buffer)|
      ensures !ok ==> Finished(whole, start, View(), Failed)
    {
      hide Ahead, AtTop, Finished;
      PackedFieldRead(whole, start, input.buffer, k, View());
      ok := ReadPackedInto(k, input);
    }

    /** `SkipField` into the unknown fields; what a failed skip has added stays. */
    method SkipUnknown(tag: uint32, input: CodedInputStream, ghost whole: seq<byte>, ghost start: Msg)
      returns (ok: bool)
      requires Valid() && input.depth == 0 && !input.legitimateEnd && tag > 0
      requires IsLabel(HandleUninterpreted, tag) && WireType(tag) != END_GROUP
      requires Ahead(whole, start, input.buffer, tag, View())
      modifies this, input
      ensures Valid() && |input.buffer| <= |old(input.buffer)|
      ensures ok ==> AtTop(whole, start, input.buffer, View()) && input.depth == 0 && !input.legitimateEnd
      ensures !ok ==> Finished(whole, start, View(), Failed)
    {
      hide Ahead, AtTop, Finished;
      UninterpretedRead(whole, start, input.buffer, tag, View());
      AddedIsCanonical(input.buffer, tag);
      var added;
      ghost var skip := Wire.SkipField(input.buffer, tag, RECURSION_LIMIT);
      ok, added := input.SkipField(tag);
      assert added == Wire.Added(skip);
      unknown := unknown + added;
    }

    lemma AddedIsCanonical(s: seq<byte>, tag: uint32)
      requires IsLabel(HandleUninterpreted, tag) && WireType(tag) != END_GROUP && tag > 0
      ensures var added := Wire.Added(Wire.SkipField(s, tag, RECURSION_LIMIT));
              forall i :: 0 <= i < |added| ==> CanonicalUnknown(added[i])
    {
      SkippedIsValid(s, tag, RECURSION_LIMIT);
    }

    /** Where the parser stands when it is about to run the code at a label. */
    ghost predicate AtLabel(at: Label, tag: uint32, input: CodedInputStream, whole: seq<byte>, start: Msg)
      requires Valid()
      reads this, input
    {
      && IsLabel(at, tag)
      && match at
         case BackToLoop => AtTop(whole, start, input.buffer, View())
         case ReturnTrue =>
           && Finished(whole, start, View(), ScanAll(whole).stop)
           && ScanAll(whole).stop == (if input.legitimateEnd then Eof else EndGroupSeen)
         case _ => Ahead(whole, start, input.buffer, LabelTag(at, tag), View())
    }

    /** Runs the code at one label up to the next jump. No jump leads to the uninterpreted label, so the last tag is
        looked at only where the switch has just read it. */
    method RunLabel(at: Label, tag: uint32, input: CodedInputStream, ghost whole: seq<byte>, ghost start: Msg)
      returns (ok: bool, next: Label)
      requires Valid() && input.depth == 0 && !input.legitimateEnd && tag > 0
      requires AtLabel(at, tag, input, whole, start) && !at.BackToLoop? && !at.ReturnTrue?
      modifies this, input
      ensures Valid() && |input.buffer| <= |old(input.buffer)|
      ensures !ok ==> Finished(whole, start, View(), Failed)
      ensures ok ==> AtLabel(next, tag, input, whole, start) && !next.HandleUninterpreted? && input.depth == 0
      ensures ok ==> next.ReturnTrue? || !input.legitimateEnd
      ensures ok ==> next.BackToLoop? || next.ReturnTrue? || |input.buffer| < |old(input.buffer)|
    {
      hide Ahead, AtTop, Finished;
      next := BackToLoop;
      var found := false;
      if at.ParseScalar? {
        ok := ReadScalar(at.k, input, whole, start);
        if ok && at.k == 10 {
          found := input.ExpectAtEnd();
          if found {
            NoTagRead(whole, start, input.buffer, View());
            next := ReturnTrue;
          }
        } else if ok {
          found := Expect(at.k + 1, input, whole, start);
          if found {
            next := if at.k == 6 then ParseRepeated(7) else ParseScalar(at.k + 1);
          }
        }
      } else if at.ParseRepeated? {
        ok := ReadRepeated(at.k, input, whole, start);
        if ok {
          next := AfterRepeated(at.k, tag, input, whole, start);
        }
      } else if at.ParsePacked? {
        ok := ReadPackedPrimitive(at.k, input, whole, start);
        if ok {
          next := AfterRepeated(at.k, tag, input, whole, start);
        }
      } else if WireType(tag) == END_GROUP {
        UninterpretedRead(whole, start, input.buffer, tag, View());
        ok, next := true, ReturnTrue;
      } else {
        ok := SkipUnknown(tag, input, whole, start);
      }
    }

    /** The two tags expected after a repeated field: itself again, then the field behind it. */
    method AfterRepeated(k: nat, tag: uint32, input: CodedInputStream, ghost whole: seq<byte>, ghost start: Msg)
      returns (next: Label)
      requires Valid() && IsRepeated(k) && AtTop(whole, start, input.buffer, View())
      modifies input`buffer
      ensures Valid() && |input.buffer| <= |old(input.buffer)|
      ensures AtLabel(next, tag, input, whole, start) && !next.HandleUninterpreted? && !next.ReturnTrue?
    {
      hide Ahead, AtTop, Finished;
      next := BackToLoop;
      var found := Expect(k, input, whole, start);
      if found {
        return ParseRepeated(k);
      }
      found := Expect(k + 1, input, whole, start);
      if found {
        next := if k == 7 then ParseRepeated(8) else ParseScalar(9);
      }
    }

    /** The goto-linked parser ends exactly like the plain read-and-dispatch loop: same message, same success, and
        the end of the input is reported exactly when the whole input was read. */
    method MergePartialFromCodedStream(input: CodedInputStream) returns (ok: bool)
      requires Valid() && input.depth == 0 && !input.legitimateEnd
      modifies this, input
      ensures Valid() && View() == Parse(old(input.buffer), old(View()))
      ensures ok <==> ScanAll(old(input.buffer)).stop != Failed
      ensures ok ==> (input.legitimateEnd <==> Complete(old(input.buffer)))
    {
      ghost var whole, start := input.buffer, View();
      while true
        invariant Valid() && input.depth == 0 && !input.legitimateEnd
        invariant AtTop(whole, start, input.buffer, View())
        decreases |input.buffer|
      {
        ghost var top := input.buffer;
        var tag := input.ReadTag();
        if tag == 0 {
          NoTagRead(whole, start, top, View());
          return true;
        }
        TagIsRead(whole, start, top, View());
        var at := SwitchOn(tag);
        hide AtTop, Ahead, Parse, ScanAll;
        while !at.BackToLoop? && !at.ReturnTrue?
          invariant Valid() && input.depth == 0 && (at.ReturnTrue? || !input.legitimateEnd)
          invariant AtLabel(at, tag, input, whole, start) && |input.buffer| < |top|
          decreases |input.buffer|, if at.BackToLoop? || at.ReturnTrue? then 0 else 1
        {
          ok, at := RunLabel(at, tag, input, whole, start);
          if !ok {
            return;
          }
        }
        if at.ReturnTrue? {
          return true;
        }
      }
    }

    /** Clears, reads, and succeeds only if all of the input was read. */
    method ParseFromArray(bytes: seq<byte>) returns (ok: bool)
      requires Valid()
      modifies this
      ensures Valid() && View() == Parse(bytes, EMPTY)
      ensures ok <==> Complete(bytes)
    {
      Clear();
      var input := new CodedInputStream(bytes);
      ok := MergePartialFromCodedStream(input);
      ok := ok && input.legitimateEnd;
    }
  }
}
