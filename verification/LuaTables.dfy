/** The tables that the bindings exchange with Lua: keys 1..n, and the order in which a traversal meets them. */
module LuaTables {
  /** The table holds the elements of `s` from position `from` on, each at its position plus one. */
  ghost predicate HoldsFrom<T>(table: map<int, T>, s: seq<T>, from: nat) {
    && (forall k :: k in table <==> from < k <= |s|)
    && (forall k :: k in table ==> table[k] == s[k - 1])
  }

  /** The domain is 1..|s| and entry i is element i - 1. */
  ghost predicate IsList<T>(table: map<int, T>, s: seq<T>) { HoldsFrom(table, s, 0) }

  lemma ListIsUnique<T>(a: map<int, T>, b: map<int, T>, s: seq<T>)
    requires IsList(a, s) && IsList(b, s)
    ensures a == b
  {
    forall k | k in a.Keys ensures k in b.Keys { assert k in b; }
    forall k | k in b.Keys ensures k in a.Keys { assert k in a; }
    forall k | k in a ensures a[k] == b[k] { assert a[k] == s[k - 1] == b[k]; }
  }

  predicate NoRepeats(order: seq<int>) { forall i, j :: 0 <= i < j < |order| ==> order[i] != order[j] }

  /** `lua_next` meets each key of the table once, in an order of its own. */
  ghost predicate IsTraversal<T>(table: map<int, T>, order: seq<int>) {
    && NoRepeats(order)
    && (forall i :: 0 <= i < |order| ==> order[i] in table)
    && (forall k :: k in table ==> exists i :: 0 <= i < |order| && order[i] == k)
  }

  /** The values in the order of the traversal. */
  function Values<T>(table: map<int, T>, order: seq<int>): (values: seq<T>)
    requires IsTraversal(table, order)
  {
    seq(|order|, i requires 0 <= i < |order| => table[order[i]])
  }

  function UpTo(n: nat): (keys: seq<int>) { seq(n, i => i + 1) }

  /** A list that is traversed in key order gives its elements back in order. */
  lemma InOrderGivesElements<T>(table: map<int, T>, s: seq<T>)
    requires IsList(table, s)
    ensures IsTraversal(table, UpTo(|s|)) && Values(table, UpTo(|s|)) == s
  {
    forall k | k in table ensures exists i :: 0 <= i < |s| && UpTo(|s|)[i] == k { assert UpTo(|s|)[k - 1] == k; }
  }

  function Without<T>(s: seq<T>, j: nat): seq<T>
    requires j < |s|
  {
    s[..j] + s[j + 1..]
  }

  lemma MultisetWithout<T>(s: seq<T>, j: nat)
    requires j < |s|
    ensures multiset(s) == multiset(Without(s, j)) + multiset{s[j]}
  {
    assert s == s[..j] + [s[j]] + s[j + 1..];
  }

  lemma TraversalWithout<T>(table: map<int, T>, order: seq<int>, j: nat)
    requires IsTraversal(table, order) && j < |order|
    ensures IsTraversal(table - {order[j]}, Without(order, j))
  {
    var rest, smaller := Without(order, j), table - {order[j]};
    forall i | 0 <= i < |rest| ensures rest[i] == order[if i < j then i else i + 1] { }
    forall k | k in smaller ensures exists i :: 0 <= i < |rest| && rest[i] == k {
      var i :| 0 <= i < |order| && order[i] == k;
      assert k == rest[if i < j then i else i - 1];
    }
  }

  lemma ValuesWithout<T>(table: map<int, T>, order: seq<int>, j: nat)
    requires IsTraversal(table, order) && j < |order|
    requires IsTraversal(table - {order[j]}, Without(order, j))
    ensures Values(table - {order[j]}, Without(order, j)) == Without(Values(table, order), j)
  {
  }

  lemma ListWithoutLast<T>(table: map<int, T>, s: seq<T>)
    requires s != [] && IsList(table, s)
    ensures |s| in table && table[|s|] == s[|s| - 1] && IsList(table - {|s|}, s[..|s| - 1])
  {
  }

  lemma EmptyTraversal<T>(table: map<int, T>, order: seq<int>)
    requires IsTraversal(table, order)
    ensures order == [] || order[0] in table
  {
  }

  lemma PositionOf<T>(table: map<int, T>, order: seq<int>, key: int) returns (j: nat)
    requires IsTraversal(table, order) && key in table
    ensures j < |order| && order[j] == key && Values(table, order)[j] == table[key]
  {
    j :| 0 <= j < |order| && order[j] == key;
  }

  /** In any other order it gives a permutation of them. */
  lemma {:induction false} AnyOrderGivesPermutation<T>(table: map<int, T>, s: seq<T>, order: seq<int>)
    requires IsList(table, s) && IsTraversal(table, order)
    ensures multiset(Values(table, order)) == multiset(s)
    decreases |s|
  {
    if s == [] {
      EmptyTraversal(table, order);
    } else {
      hide *;
      ListWithoutLast(table, s);
      var j := PositionOf(table, order, |s|);
      TraversalWithout(table, order, j);
      ValuesWithout(table, order, j);
      AnyOrderGivesPermutation(table - {|s|}, s[..|s| - 1], Without(order, j));
      MultisetWithout(Values(table, order), j);
      assert s == s[..|s| - 1] + [s[|s| - 1]];
    }
  }
}
