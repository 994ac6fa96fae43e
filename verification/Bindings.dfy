/** The binding functions themselves: they change the heap of messages, the live handles, the counter and the set of
    registered messages in place, and each does what its function in `Ownership` says. */
module Bindings {
  import opened Options
  import opened Ownership
  import opened HandleRuns
  import opened HandleLedger
  import opened HandleMeaning
  import opened LuaTables

  /** `rawget_servers` raises an error for an index out of range. */
  datatype RawGetResult = Pushed(h: HandleId) | IndexError(size: nat)

  lemma ReleaseOne(w: World, p: Addr, hs: seq<HandleId>, index: nat)
    requires IsServer(w, p) && 0 < index <= |hs| && w.heap[p].size == index
    ensures GetServers(w, p, hs[..index]) == GetServers(GetOne(w, p, hs[index - 1]), p, hs[..index - 1])
  {
    assert hs[..index][..index - 1] == hs[..index - 1];
  }

  lemma AppendOneMore(w: World, p: Addr, hs: seq<HandleId>, spares: seq<Addr>, i: nat)
    requires IsServer(w, p) && |hs| == |spares| && i < |hs|
    ensures SetServers(w, p, hs[i..], spares[i..]) ==
              SetServers(AddOne(w, p, hs[i], spares[i]), p, hs[i + 1..], spares[i + 1..])
  {
    assert hs[i..][1..] == hs[i + 1..] && spares[i..][1..] == spares[i + 1..];
  }

  lemma NothingToAppend(w: World, p: Addr)
    requires IsServer(w, p)
    ensures SetServers(w, p, [], []) == w
  {
  }

  lemma NothingToRelease(w: World, p: Addr)
    requires IsServer(w, p) && w.heap[p].size == 0
    ensures GetServers(w, p, []) == w
  {
  }

  lemma HoldsOneMore<T>(table: map<int, T>, s: seq<T>, index: nat)
    requires 0 < index <= |s| && HoldsFrom(table, s, index)
    ensures HoldsFrom(table[index := s[index - 1]], s, index - 1)
  {
  }

  lemma ListGrows<T>(table: map<int, T>, s: seq<T>, i: nat)
    requires i < |s| && IsList(table, s[..i])
    ensures IsList(table[i + 1 := s[i]], s[..i + 1])
  {
  }

  /** How often a loop that counts up from zero while it is below the Lua number `n` goes round. */
  function Rounds(n: real): nat {
    if n <= 0.0 then 0 else if n.Floor as real == n then n.Floor else n.Floor + 1
  }

  lemma RoundsCountsUp(i: nat, n: real)
    ensures i as real < n <==> i < Rounds(n)
  {
  }

  /** Handle identities and addresses stand for what the two allocators give out, so callers pass them in. */
  class Runtime {
    var heap: map<Addr, Node>
    var handles: map<HandleId, Handle>
    var udataNum: int
    var uDatas: set<Addr>
    ghost var uncountedCollected: nat

    ghost function Now(): World
      reads this
    {
      World(heap, handles, udataNum, uDatas, uncountedCollected)
    }

    constructor ()
      ensures Now() == START && Inv(Now())
    {
      heap, handles, udataNum, uDatas, uncountedCollected := map[], map[], 0, {}, 0;
      new;
      StartIsOk();
    }

    // ---------------------------------------------------------------- handles

    /** `lua_protobuf_pb_ListenConfig_` and its copies for the other types. */
    method PushHandle(h: HandleId, a: Addr, owning: bool)
      modifies this
      ensures Now() == Push(old(Now()), h, a, owning)
    {
      handles := handles[h := Handle(a, owning, true)];
      udataNum := udataNum + 1;
      uDatas := uDatas + {a};
    }

    method New(h: HandleId, a: Addr, kind: Node)
      requires Inv(Now()) && h !in handles && a !in heap
      modifies this
      ensures Now() == Ownership.New(old(Now()), h, a, kind) && Inv(Now())
    {
      NewIsSafe(Now(), h, a, kind);
      heap := heap[a := Empty(kind)];
      PushHandle(h, a, true);
    }

    /** `PushMessage`: the two counter statements are commented out. The message and what is nested in it have been
        made on the C++ side. */
    method PushMessage(h: HandleId, a: Addr, n: Node)
      requires Inv(Now()) && h !in handles && NewTree(Now(), a, n)
      modifies this
      ensures Now() == Ownership.PushMessage(old(Now()), h, a, n) && Inv(Now())
    {
      PushMessageIsSafe(Now(), h, a, n);
      heap := (heap + map c | c in Children(n) :: ListenConfig)[a := n];
      handles := handles[h := Handle(a, true, false)];
    }

    /** One `delete`; a second one for the same message would not meet its precondition. */
    method Free(a: Addr)
      requires a in heap
      modifies this`heap
      ensures heap == old(heap) - {a}
    {
      heap := heap - {a};
    }

    /** The destructor frees the elements, cleared ones included, or the nested message; then the message goes. */
    method DeleteMessage(a: Addr)
      requires a in heap && Ownership.Distinct(Children(heap[a]))
      requires forall c :: c in Children(heap[a]) ==> c in heap && c != a
      modifies this`heap
      ensures Now() == Delete(old(Now()), a)
    {
      var children := Children(heap[a]);
      var i := 0;
      while i < |children|
        invariant 0 <= i <= |children|
        invariant heap == old(heap) - set c | c in children[..i]
      {
        assert children[i] !in children[..i];
        Free(children[i]);
        assert children[..i + 1] == children[..i] + [children[i]];
        i := i + 1;
      }
      assert children[..i] == children;
      Free(a);
    }

    /** `__gc`. */
    method Gc(h: HandleId)
      requires Inv(Now()) && h in handles
      modifies this
      ensures SafeToCollect(old(Now()), h) && Now() == Collect(old(Now()), h) && Inv(Now())
    {
      CollectIsSafe(Now(), h);
      CollectKeeps(Now(), h);
      var Handle(a, owning, counted) := handles[h];
      if owning {
        assert NodeOk(heap[a]);
        DeleteMessage(a);
      }
      udataNum := udataNum - 1;
      uDatas := uDatas - {a};
      handles := handles - {h};
      uncountedCollected := uncountedCollected + if counted then 0 else 1;
    }

    method Clear(via: HandleId)
      requires Inv(Now()) && via in handles && handles[via].target in heap
      modifies this
      ensures Now() == ClearMessage(old(Now()), old(handles[via].target)) && Inv(Now())
    {
      var p := handles[via].target;
      ClearIsSafe(Now(), p);
      match heap[p] {
        case ListenConfig =>
        case InitServer(elements, _) => heap := heap[p := InitServer(elements, 0)];
        case ServerActive(child, _) => heap := heap[p := ServerActive(child, false)];
      }
    }

    // ---------------------------------------------------------------- repeated nested messages

    method ReleaseLast(p: Addr) returns (a: Addr)
      requires IsServer(Now(), p) && heap[p].size > 0
      modifies this`heap
      ensures var InitServer(elements, size) := old(heap)[p];
              && a == elements[size - 1]
              && heap == old(heap)[p := InitServer(WithoutSlot(elements, size - 1), size - 1)]
    {
      var InitServer(elements, size) := heap[p];
      var current, held := size - 1, |elements| - 1;
      a := elements[current];
      if current < held {
        elements := elements[current := elements[held]];
      }
      assert elements[..held] == WithoutSlot(heap[p].elements, current);
      heap := heap[p := InitServer(elements[..held], current)];
    }

    method Add(p: Addr, spare: Addr) returns (a: Addr)
      requires IsServer(Now(), p)
      modifies this`heap
      ensures var InitServer(elements, size) := old(heap)[p];
              if size < |elements| then
                a == elements[size] && heap == old(heap)[p := InitServer(elements, size + 1)]
              else
                a == spare && heap == old(heap)[spare := ListenConfig][p := InitServer(elements + [spare], size + 1)]
    {
      var InitServer(elements, size) := heap[p];
      if size < |elements| {
        a := elements[size];
      } else {
        a := spare;
        heap := heap[spare := ListenConfig];
        elements := elements + [spare];
      }
      heap := heap[p := InitServer(elements, size + 1)];
    }

    /** One round of the release loop. */
    method ReleaseToHandle(p: Addr, h: HandleId)
      requires IsServer(Now(), p) && heap[p].size > 0
      modifies this
      ensures Now() == GetOne(old(Now()), p, h) && IsServer(Now(), p) && heap[p].size == old(heap)[p].size - 1
    {
      var a := ReleaseLast(p);
      PushHandle(h, a, true);
    }

    /** One round of the append loop. */
    method AddWithHandle(p: Addr, h: HandleId, spare: Addr)
      requires IsServer(Now(), p)
      modifies this
      ensures Now() == AddOne(old(Now()), p, h, spare) && IsServer(Now(), p)
    {
      var a := Add(p, spare);
      PushHandle(h, a, false);
    }

    /** `get_servers`: entry i of the table is the owning handle to what was element i - 1. */
    method GetServers(via: HandleId, hs: seq<HandleId>) returns (table: map<int, HandleId>)
      requires Inv(Now()) && via in handles && IsServer(Now(), handles[via].target)
      requires NewHandles(Now(), hs) && heap[handles[via].target].size == |hs|
      modifies this
      ensures Now() == Ownership.GetServers(old(Now()), old(handles[via].target), hs) && Inv(Now())
      ensures IsList(table, hs)
    {
      ghost var w := Now();
      var p := handles[via].target;
      GetServersIsSafe(w, p, hs);
      hide NewHandles, Inv, GetOne, Ownership.GetServers;
      table := map[];
      assert HoldsFrom(table, hs, |hs|);
      hide HoldsFrom;
      var index := heap[p].size;
      assert hs[..index] == hs;
      while index > 0
        invariant 0 <= index <= |hs| && IsServer(Now(), p) && heap[p].size == index
        invariant Ownership.GetServers(w, p, hs) == Ownership.GetServers(Now(), p, hs[..index])
        invariant HoldsFrom(table, hs, index)
      {
        ReleaseOne(Now(), p, hs, index);
        ReleaseToHandle(p, hs[index - 1]);
        HoldsOneMore(table, hs, index);
        table := table[index := hs[index - 1]];
        index := index - 1;
      }
      assert hs[..index] == [];
      NothingToRelease(Now(), p);
    }

    /** `set_servers` for a Lua number that need not be whole: entry i of the table is the borrowed handle to the i-th
        message appended. */
    method SetServers(via: HandleId, n: real, hs: seq<HandleId>, spares: seq<Addr>) returns (table: map<int, HandleId>)
      requires Inv(Now()) && via in handles && IsServer(Now(), handles[via].target)
      requires NewHandles(Now(), hs) && NewAddresses(Now(), spares) && |spares| == |hs| == Rounds(n)
      modifies this
      ensures Now() == Ownership.SetServers(old(Now()), old(handles[via].target), hs, spares) && Inv(Now())
      ensures IsList(table, hs)
    {
      ghost var w := Now();
      var p := handles[via].target;
      SetServersIsSafe(w, p, hs, spares);
      hide NewHandles, NewAddresses, Inv, AddOne, Ownership.SetServers, IsList;
      table := map[];
      var i := 0;
      assert hs[0..] == hs && spares[0..] == spares;
      while i as real < n
        invariant 0 <= i <= |hs| && IsServer(Now(), p)
        decreases |hs| - i
        invariant Ownership.SetServers(w, p, hs, spares) == Ownership.SetServers(Now(), p, hs[i..], spares[i..])
        invariant IsList(table, hs[..i])
      {
        RoundsCountsUp(i, n);
        AppendOneMore(Now(), p, hs, spares, i);
        AddWithHandle(p, hs[i], spares[i]);
        ListGrows(table, hs, i);
        table := table[i + 1 := hs[i]];
        i := i + 1;
      }
      RoundsCountsUp(i, n);
      assert hs[..i] == hs && hs[i..] == [] && spares[i..] == [];
      NothingToAppend(Now(), p);
    }

    method RawGetServers(via: HandleId, index: int, h: HandleId) returns (result: RawGetResult)
      requires Inv(Now()) && via in handles && IsServer(Now(), handles[via].target) && h !in handles
      modifies this
      ensures Now() == RawGet(old(Now()), old(handles[via].target), index, h) && Inv(Now())
      ensures result == var size := old(heap)[old(handles)[via].target].size;
                        if 1 <= index <= size then Pushed(h) else IndexError(size)
    {
      var p := handles[via].target;
      RawGetIsSafe(Now(), p, index, h);
      var size := heap[p].size;
      if index < 1 || index > size {
        return IndexError(size);
      }
      PushHandle(h, heap[p].elements[index - 1], false);
      return Pushed(h);
    }

    method SizeServers(via: HandleId) returns (size: nat)
      requires via in handles && IsServer(Now(), handles[via].target)
      ensures forall index, h :: h !in handles ==>
                (h in RawGet(Now(), handles[via].target, index, h).handles <==> 1 <= index <= size)
    {
      size := heap[handles[via].target].size;
    }

    // ---------------------------------------------------------------- optional nested message

    method HasRemoteServer(via: HandleId) returns (present: bool)
      requires via in handles && IsActive(Now(), handles[via].target)
      ensures present <==> HasRemote(Now(), handles[via].target)
    {
      present := heap[handles[via].target].present;
    }

    method MutableRemoteServer(p: Addr, spare: Addr) returns (a: Addr)
      requires IsActive(Now(), p)
      modifies this`heap
      ensures Now() == Mutable(old(Now()), p, spare) && a == ChildOr(old(Now()), p, spare)
    {
      var ServerActive(child, _) := heap[p];
      if child == None {
        heap := heap[spare := ListenConfig];
        child := Some(spare);
      }
      a := child.value;
      heap := heap[p := ServerActive(child, true)];
    }

    method GetRemoteServer(via: HandleId, h: HandleId, spare: Addr)
      requires Inv(Now()) && via in handles && IsActive(Now(), handles[via].target)
      requires h !in handles && spare !in heap
      modifies this
      ensures Now() == GetRemote(old(Now()), old(handles[via].target), h, spare) && Inv(Now())
    {
      var p := handles[via].target;
      GetRemoteIsSafe(Now(), p, h, spare);
      var a := MutableRemoteServer(p, spare);
      heap := heap[p := ServerActive(None, false)];
      PushHandle(h, a, true);
    }

    method SetRemoteServer(via: HandleId, h: HandleId, spare: Addr)
      requires Inv(Now()) && via in handles && IsActive(Now(), handles[via].target)
      requires h !in handles && spare !in heap
      modifies this
      ensures Now() == SetRemote(old(Now()), old(handles[via].target), h, spare) && Inv(Now())
    {
      var p := handles[via].target;
      SetRemoteIsSafe(Now(), p, h, spare);
      var a := MutableRemoteServer(p, spare);
      PushHandle(h, a, false);
    }

    // ---------------------------------------------------------------- the memory report

    /** `GetUdataNum`: `bytes` gives the size of every allocated message, and each registered message is asked for its
        size, so it has to be allocated. */
    method GetUdataNum(bytes: map<Addr, nat>, order: seq<Addr>) returns (count: int, kilobytes: real)
      requires bytes.Keys == heap.Keys && ReportIsSafe(Now()) && Walks(order, uDatas)
      ensures forall i :: 0 <= i < |order| ==> order[i] in bytes
      ensures count == udataNum && kilobytes == Total(order, bytes) as real / 1024.0
    {
      var memory := 0.0;
      forall i | 0 <= i < |order| ensures order[i] in bytes { assert order[i] in uDatas; }
      for i := 0 to |order|
        invariant memory == Total(order[..i], bytes) as real
      {
        assert order[..i + 1][..i] == order[..i];
        memory := memory + bytes[order[i]] as real;
      }
      assert order[..|order|] == order;
      count, kilobytes := udataNum, memory / 1024.0;
    }
  }
}
