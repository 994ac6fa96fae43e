/** The Lua side of the header's list fields: a table out, a table in. */
module HeaderLua {
  import opened Bytes
  import opened HeaderRecords
  import opened HeaderClass
  import opened LuaTables

  /** The countdown loop fills the table from its last entry to its first. */
  method GetRemoteGuids(m: Header) returns (table: map<int, uint32>)
    requires m.Valid()
    ensures IsList(table, m.View().remoteGuids)
  {
    var index := |m.remoteGuids|;
    table := map[];
    while index > 0
      invariant 0 <= index <= |m.remoteGuids|
      invariant HoldsFrom(table, m.remoteGuids, index)
    {
      table := table[index := m.remoteGuids[index - 1]];
      index := index - 1;
    }
  }

  /** What `set_remoteGuids` does to a message: the values are appended in the order in which `lua_next` meets them. */
  function Extended(m: Msg, table: map<int, uint32>, order: seq<int>): Msg
    requires IsTraversal(table, order)
  {
    m.(remoteGuids := m.remoteGuids + Values(table, order))
  }

  method SetRemoteGuids(m: Header, table: map<int, uint32>, order: seq<int>)
    requires m.Valid() && IsTraversal(table, order)
    modifies m
    ensures m.Valid() && m.View() == Extended(old(m.View()), table, order)
  {
    ghost var values := Values(table, order);
    assert old(m.remoteGuids) + values[..0] == m.remoteGuids;
    var i := 0;
    while i < |order|
      invariant 0 <= i <= |order| && m.Valid()
      invariant m.View() == old(m.View()).(remoteGuids := old(m.remoteGuids) + values[..i])
    {
      m.AddRemoteGuid(table[order[i]]);
      assert values[..i + 1] == values[..i] + [values[i]];
      i := i + 1;
    }
    assert values[..i] == values;
  }

  /** Clear, set with a list met in key order, get: the same table. A second set without a clear repeats the list. */
  lemma ClearSetGet(m: Msg, table: map<int, uint32>, s: seq<uint32>)
    requires IsList(table, s)
    ensures IsTraversal(table, UpTo(|s|))
    ensures var once := Extended(m.(remoteGuids := []), table, UpTo(|s|));
            && (forall got :: IsList(got, once.remoteGuids) <==> got == table)
            && Extended(once, table, UpTo(|s|)).remoteGuids == s + s
  {
    InOrderGivesElements(table, s);
    assert [] + s == s;
    forall got | IsList(got, s) ensures got == table { ListIsUnique(got, table, s); }
  }

  /** Whatever the order, a message that takes another's list over gets a permutation of it. */
  lemma TransferIsPermutation(from: Msg, to: Msg, table: map<int, uint32>, order: seq<int>)
    requires IsList(table, from.remoteGuids) && IsTraversal(table, order)
    ensures multiset(Extended(to.(remoteGuids := []), table, order).remoteGuids) == multiset(from.remoteGuids)
  {
    AnyOrderGivesPermutation(table, from.remoteGuids, order);
    assert [] + Values(table, order) == Values(table, order);
  }
}
