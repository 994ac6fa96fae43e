/** How large a serialized header can be. */
module SizeBounds {
  import opened Bytes
  import opened Varint
  import opened Wire
  import opened HeaderRecords
  import opened HeaderClass

  /** A varint field takes two to six bytes, and a negative int32 one takes exactly eleven. */
  lemma ScalarBytesBound(m: Msg, k: nat)
    requires WellTyped(m) && IsScalar(k)
    ensures var n := |ScalarBytes(m, k)|;
            && (k !in m.scalars ==> n == 0)
            && (k in m.scalars && m.scalars[k] < 0 ==> n == 11)
            && (k in m.scalars && m.scalars[k] >= 0 ==> 2 <= n <= 6)
  {
    ScalarBytesLength(m, k);
  }

  lemma {:induction false} RepeatedBytesBound(k: nat, vs: seq<uint32>)
    requires IsRepeated(k)
    ensures 2 * |vs| <= |RepeatedBytes(k, vs)| <= 6 * |vs|
  {
    if vs == [] {
    } else {
      SizeIsLength32(MakeTag(k, VARINT));
      SizeIsLength32(vs[0]);
      RepeatedBytesBound(k, vs[1..]);
    }
  }

  function Bound(m: Msg): nat { 58 + 6 * (|m.remoteGuids| + |m.recvPlayerIDs|) + |FieldsBytes(m.unknown)| }

  lemma SizeIsBounded(m: Msg)
    requires WellTyped(m)
    ensures 2 * (|m.remoteGuids| + |m.recvPlayerIDs|) + |FieldsBytes(m.unknown)| <= |Serialize(m)| <= Bound(m)
  {
    SectionLengths(m);
    FirstSixBound(m);
    ScalarBytesBound(m, 9);
    ScalarBytesBound(m, 10);
    assert (9 in m.scalars ==> InRange(9, m.scalars[9])) && (10 in m.scalars ==> InRange(10, m.scalars[10]));
    RepeatedBytesBound(7, m.remoteGuids);
    RepeatedBytesBound(8, m.recvPlayerIDs);
  }

  lemma FirstSixBound(m: Msg)
    requires WellTyped(m)
    ensures |FirstSix(m)| <= 46
  {
    forall k | 1 <= k <= 6 ensures |ScalarBytes(m, k)| <= if k <= 2 then 11 else 6 {
      ScalarBytesBound(m, k);
      assert k in m.scalars ==> InRange(k, m.scalars[k]);
    }
    hide ScalarBytes;
    assert |ScalarBytes(m, 1)| <= 11 && |ScalarBytes(m, 2)| <= 11 && |ScalarBytes(m, 3)| <= 6;
    assert |ScalarBytes(m, 4)| <= 6 && |ScalarBytes(m, 5)| <= 6 && |ScalarBytes(m, 6)| <= 6;
  }

  /** The size fits an `int` if the bound does, and does not fit it from 2^30 repeated elements on. */
  lemma SizeFits(m: Msg)
    requires WellTyped(m)
    ensures Bound(m) < TWO_31 ==> |Serialize(m)| < TWO_31
    ensures 2 * (|m.remoteGuids| + |m.recvPlayerIDs|) >= TWO_31 ==> |Serialize(m)| >= TWO_31
  {
    SizeIsBounded(m);
  }

  /** The bound is reached whatever the repeated fields hold, when their values take five bytes. */
  lemma BoundIsReached(m: Msg)
    requires WellTyped(m)
    requires forall k :: IsScalar(k) ==>
               k in m.scalars && if k <= 2 then m.scalars[k] < 0 else m.scalars[k] >= 0x1000_0000
    requires forall i :: 0 <= i < |m.remoteGuids| ==> m.remoteGuids[i] >= 0x1000_0000
    requires forall i :: 0 <= i < |m.recvPlayerIDs| ==> m.recvPlayerIDs[i] >= 0x1000_0000
    ensures |Serialize(m)| == Bound(m)
  {
    forall k | IsScalar(k) ensures |ScalarBytes(m, k)| == if k <= 2 then 11 else 6 { ScalarBytesLength(m, k); }
    SectionLengths(m);
    FiveByteElements(7, m.remoteGuids);
    FiveByteElements(8, m.recvPlayerIDs);
    hide ScalarBytes, RepeatedBytes, Serialize;
    assert |ScalarBytes(m, 1)| == 11 && |ScalarBytes(m, 2)| == 11 && |ScalarBytes(m, 3)| == 6;
    assert |ScalarBytes(m, 4)| == 6 && |ScalarBytes(m, 5)| == 6 && |ScalarBytes(m, 6)| == 6;
  }

  lemma {:induction false} FiveByteElements(k: nat, vs: seq<uint32>)
    requires IsRepeated(k) && forall i :: 0 <= i < |vs| ==> vs[i] >= 0x1000_0000
    ensures |RepeatedBytes(k, vs)| == 6 * |vs|
  {
    if vs == [] {
    } else {
      SizeIsLength32(MakeTag(k, VARINT));
      SizeIsLength32(vs[0]);
      FiveByteElements(k, vs[1..]);
    }
  }
}
