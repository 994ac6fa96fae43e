/** Records of different fields commute as far as the known fields are concerned. */
module Reordering {
  import opened Bytes
  import opened HeaderRecords
  import opened MergeLaws

  datatype Key = ScalarKey(k: nat) | GuidsKey | IdsKey | UnknownKey

  function KeyOf(r: Record): Key {
    match r
    case Scalar(k, _) => ScalarKey(k)
    case Repeated(k, _) => if k == 7 then GuidsKey else IdsKey
    case Unknown(_) => UnknownKey
  }

  /** The records of one field, in order. */
  function Project(rs: seq<Record>, key: Key): seq<Record> {
    if rs == [] then []
    else Project(rs[..|rs| - 1], key) + (if KeyOf(rs[|rs| - 1]) == key then [rs[|rs| - 1]] else [])
  }

  function FieldAt(m: Msg, key: Key): seq<int> {
    match key
    case ScalarKey(k) => if k in m.scalars then [m.scalars[k]] else []
    case GuidsKey => m.remoteGuids
    case IdsKey => m.recvPlayerIDs
    case UnknownKey => []
  }

  predicate SameKnownFields(a: Msg, b: Msg) {
    a.scalars == b.scalars && a.remoteGuids == b.remoteGuids && a.recvPlayerIDs == b.recvPlayerIDs
  }

  lemma {:induction false} FieldFromProjection(rs: seq<Record>, key: Key)
    ensures FieldAt(ApplyAll(EMPTY, rs), key) == FieldAt(ApplyAll(EMPTY, Project(rs, key)), key)
    decreases |rs|
  {
    if rs == [] {
    } else {
      var n := |rs| - 1;
      var init, last, p := rs[..n], rs[n], Project(rs[..n], key);
      assert rs == init + [last];
      ApplyLast(init, last, key);
      FieldFromProjection(init, key);
      if KeyOf(last) == key {
        ApplyLast(p, last, key);
        SameChange(ApplyAll(EMPTY, init), ApplyAll(EMPTY, p), last, key);
      } else {
        assert p + [] == p;
      }
    }
  }

  lemma ApplyLast(init: seq<Record>, last: Record, key: Key)
    ensures ApplyAll(EMPTY, init + [last]) == Apply(ApplyAll(EMPTY, init), last)
    ensures KeyOf(last) != key ==> FieldAt(ApplyAll(EMPTY, init + [last]), key) == FieldAt(ApplyAll(EMPTY, init), key)
  {
    ApplyAllAppend(EMPTY, init, [last]);
    assert [last][1..] == [];
  }

  lemma SameChange(a: Msg, b: Msg, r: Record, key: Key)
    requires FieldAt(a, key) == FieldAt(b, key) && KeyOf(r) == key
    ensures FieldAt(Apply(a, r), key) == FieldAt(Apply(b, r), key)
  {
  }

  /** The known fields depend only on the per-field subsequences of the records. */
  lemma ProjectionsDetermineKnownFields(rs: seq<Record>, rs': seq<Record>)
    requires forall key :: key != UnknownKey ==> Project(rs, key) == Project(rs', key)
    ensures SameKnownFields(ApplyAll(EMPTY, rs), ApplyAll(EMPTY, rs'))
  {
    var a, b := ApplyAll(EMPTY, rs), ApplyAll(EMPTY, rs');
    forall key | key != UnknownKey ensures FieldAt(a, key) == FieldAt(b, key) {
      FieldFromProjection(rs, key);
      FieldFromProjection(rs', key);
    }
    forall k: nat ensures k in a.scalars <==> k in b.scalars
                  ensures k in a.scalars && k in b.scalars ==> a.scalars[k] == b.scalars[k] {
      assert FieldAt(a, ScalarKey(k)) == FieldAt(b, ScalarKey(k));
      assert k in a.scalars && k in b.scalars ==> FieldAt(a, ScalarKey(k))[0] == FieldAt(b, ScalarKey(k))[0];
    }
    assert a.remoteGuids == FieldAt(a, GuidsKey) == FieldAt(b, GuidsKey);
    assert a.recvPlayerIDs == FieldAt(a, IdsKey) == FieldAt(b, IdsKey);
  }

  /** Two inputs with the same records of each known field, in whatever order across fields, give the same fields. */
  lemma ReorderedInputs(s: seq<byte>, s': seq<byte>)
    requires Complete(s) && Complete(s')
    requires forall key :: key != UnknownKey ==> Project(ScanAll(s).records, key) == Project(ScanAll(s').records, key)
    ensures var a, b := Parse(s, EMPTY), Parse(s', EMPTY);
            a.scalars == b.scalars && a.remoteGuids == b.remoteGuids && a.recvPlayerIDs == b.recvPlayerIDs
  {
    ProjectionsDetermineKnownFields(ScanAll(s).records, ScanAll(s').records);
  }

  /** Two neighbouring records of different fields commute, unknown fields included. */
  lemma SwapNeighbours(m: Msg, r: Record, r': Record)
    requires KeyOf(r) != KeyOf(r')
    ensures Apply(Apply(m, r), r') == Apply(Apply(m, r'), r)
  {
    if r.Scalar? && r'.Scalar? {
      assert m.scalars[r.number := ValueOf(r.number, r.value)][r'.number := ValueOf(r'.number, r'.value)]
          == m.scalars[r'.number := ValueOf(r'.number, r'.value)][r.number := ValueOf(r.number, r.value)];
    }
  }
}
