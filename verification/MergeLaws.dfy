/** Merging is a monoid, and applying records is merging what they mean. */
module MergeLaws {
  import opened Bytes
  import opened Wire
  import opened HeaderRecords

  lemma MergeAssociative(a: Msg, b: Msg, c: Msg)
    ensures Merge(Merge(a, b), c) == Merge(a, Merge(b, c))
  {
    assert (a.scalars + b.scalars) + c.scalars == a.scalars + (b.scalars + c.scalars);
    assert (a.remoteGuids + b.remoteGuids) + c.remoteGuids == a.remoteGuids + (b.remoteGuids + c.remoteGuids);
    assert (a.recvPlayerIDs + b.recvPlayerIDs) + c.recvPlayerIDs
        == a.recvPlayerIDs + (b.recvPlayerIDs + c.recvPlayerIDs);
    assert (a.unknown + b.unknown) + c.unknown == a.unknown + (b.unknown + c.unknown);
  }

  lemma MergeIdentity(m: Msg)
    ensures Merge(EMPTY, m) == m && Merge(m, EMPTY) == m
  {
    assert EMPTY.scalars + m.scalars == m.scalars == m.scalars + EMPTY.scalars;
    assert EMPTY.remoteGuids + m.remoteGuids == m.remoteGuids == m.remoteGuids + [];
    assert EMPTY.recvPlayerIDs + m.recvPlayerIDs == m.recvPlayerIDs == m.recvPlayerIDs + [];
    assert EMPTY.unknown + m.unknown == m.unknown == m.unknown + [];
  }

  lemma ApplyIsMerge(m: Msg, r: Record)
    ensures Apply(m, r) == Merge(m, Apply(EMPTY, r))
  {
    assert m.unknown + [] == m.unknown;
    assert m.remoteGuids + [] == m.remoteGuids;
    assert m.recvPlayerIDs + [] == m.recvPlayerIDs;
    match r
    case Scalar(k, v) => assert m.scalars[k := ValueOf(k, v)] == m.scalars + map[k := ValueOf(k, v)];
    case Repeated(k, vs) => assert [] + vs == vs; assert m.scalars + map[] == m.scalars;
    case Unknown(f) => assert [] + [f] == [f]; assert m.scalars + map[] == m.scalars;
  }

  /** Reading records into a message is merging the message they describe on their own. */
  lemma {:induction false} ApplyAllIsMerge(m: Msg, rs: seq<Record>)
    ensures ApplyAll(m, rs) == Merge(m, ApplyAll(EMPTY, rs))
    decreases |rs|
  {
    if rs == [] {
      MergeIdentity(m);
    } else {
      var one, rest := Apply(EMPTY, rs[0]), rs[1..];
      calc {
        ApplyAll(m, rs);
        ApplyAll(Apply(m, rs[0]), rest);
        { ApplyAllIsMerge(Apply(m, rs[0]), rest); ApplyIsMerge(m, rs[0]); }
        Merge(Merge(m, one), ApplyAll(EMPTY, rest));
        { MergeAssociative(m, one, ApplyAll(EMPTY, rest)); ApplyAllIsMerge(one, rest); }
        Merge(m, ApplyAll(one, rest));
      }
    }
  }

  lemma {:induction false} ApplyAllAppend(m: Msg, a: seq<Record>, b: seq<Record>)
    ensures ApplyAll(m, a + b) == ApplyAll(ApplyAll(m, a), b)
    decreases |a|
  {
    if a == [] {
      assert a + b == b;
    } else {
      ApplyAllAppend(Apply(m, a[0]), a[1..], b);
      assert (a + b)[0] == a[0] && (a + b)[1..] == a[1..] + b;
    }
  }

  // ---------------------------------------------------------------- what a list of records means

  predicate SetsScalar(r: Record, k: nat) { r.Scalar? && r.number == k }

  /** The values that one record adds to repeated field `k` (anything but 7 means 8, as in `Apply`). */
  function Added(r: Record, seven: bool): seq<uint32> {
    if r.Repeated? && (r.number == 7) == seven then r.values else []
  }

  function AllAdded(rs: seq<Record>, seven: bool): seq<uint32> {
    if rs == [] then [] else AllAdded(rs[..|rs| - 1], seven) + Added(rs[|rs| - 1], seven)
  }

  function UnknownsOf(rs: seq<Record>): seq<UnknownField> {
    if rs == [] then []
    else UnknownsOf(rs[..|rs| - 1]) + (var r := rs[|rs| - 1]; if r.Unknown? then [r.field] else [])
  }

  /** Record `i` is the last one that sets scalar `k`. */
  predicate LastSetter(rs: seq<Record>, i: nat, k: nat) {
    && i < |rs|
    && SetsScalar(rs[i], k)
    && forall j :: i < j < |rs| ==> !SetsScalar(rs[j], k)
  }

  /** The whole message in terms of the record list: last one wins for scalars, in-order concatenation for
      the repeated fields, in-order subsequence for the unknown fields. */
  lemma {:induction false} Meaning(rs: seq<Record>, k: nat, i: nat)
    ensures var m := ApplyAll(EMPTY, rs);
            && m.remoteGuids == AllAdded(rs, true)
            && m.recvPlayerIDs == AllAdded(rs, false)
            && m.unknown == UnknownsOf(rs)
            && (k in m.scalars <==> exists j :: 0 <= j < |rs| && SetsScalar(rs[j], k))
            && (LastSetter(rs, i, k) ==> k in m.scalars && m.scalars[k] == ValueOf(k, rs[i].value))
    decreases |rs|
  {
    if rs == [] {
    } else {
      var n := |rs| - 1;
      var init, last := rs[..n], rs[n];
      assert rs == init + [last];
      ApplyAllAppend(EMPTY, init, [last]);
      assert ApplyAll(EMPTY, rs) == Apply(ApplyAll(EMPTY, init), last);
      Meaning(init, k, i);
      var was := ApplyAll(EMPTY, init);
      if SetsScalar(last, k) {
        assert SetsScalar(rs[n], k);
      } else {
        assert k in ApplyAll(EMPTY, rs).scalars <==> k in was.scalars;
        if k in was.scalars {
          var j :| 0 <= j < |init| && SetsScalar(init[j], k);
          assert SetsScalar(rs[j], k);
        }
        forall j | 0 <= j < |rs| && SetsScalar(rs[j], k) ensures k in was.scalars {
          assert SetsScalar(init[j], k);
        }
        if LastSetter(rs, i, k) {
          assert LastSetter(init, i, k);
        }
      }
    }
  }

  /** The message that a cleared header becomes when an input is read to its end. */
  lemma ParseMeaning(s: seq<byte>, k: nat, i: nat)
    requires Complete(s)
    ensures var rs, m := ScanAll(s).records, Parse(s, EMPTY);
            && m.remoteGuids == AllAdded(rs, true)
            && m.recvPlayerIDs == AllAdded(rs, false)
            && m.unknown == UnknownsOf(rs)
            && (k in m.scalars <==> exists j :: 0 <= j < |rs| && SetsScalar(rs[j], k))
            && (LastSetter(rs, i, k) ==> k in m.scalars && m.scalars[k] == ValueOf(k, rs[i].value))
  {
    Meaning(ScanAll(s).records, k, i);
  }
}
