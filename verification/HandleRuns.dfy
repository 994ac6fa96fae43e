/** Runs of binding calls: what the two transfer loops do, and what every legal run keeps. */
module HandleRuns {
  import opened Options
  import opened Ownership

  predicate NewHandles(w: World, hs: seq<HandleId>) {
    && (forall i :: 0 <= i < |hs| ==> hs[i] !in w.handles)
    && (forall i, j :: 0 <= i < j < |hs| ==> hs[i] != hs[j])
  }

  predicate NewAddresses(w: World, spares: seq<Addr>) {
    && (forall i :: 0 <= i < |spares| ==> spares[i] !in w.heap)
    && (forall i, j :: 0 <= i < j < |spares| ==> spares[i] != spares[j])
  }

  // ---------------------------------------------------------------- one call each

  lemma PushKeeps(w: World, h: HandleId, a: Addr, owning: bool)
    requires LedgerOk(w) && RegisteredAreLive(w) && h !in w.handles && Linear(Push(w, h, a, owning))
    ensures Inv(Push(w, h, a, owning))
  {
    PushKeepsCounters(w, h, a, owning);
  }

  lemma NewIsSafe(w: World, h: HandleId, a: Addr, kind: Node)
    requires Inv(w) && h !in w.handles && a !in w.heap
    ensures Inv(New(w, h, a, kind))
  {
    NewKeeps(w, h, a, kind, true);
    CountersDoNotOwn(w.(heap := w.heap[a := Empty(kind)], handles := w.handles[h := Handle(a, true, true)]),
                     New(w, h, a, kind));
    PushKeepsCounters(w.(heap := w.heap[a := Empty(kind)]), h, a, true);
  }

  lemma PushMessageIsSafe(w: World, h: HandleId, a: Addr, n: Node)
    requires Inv(w) && h !in w.handles && NewTree(w, a, n)
    ensures Inv(PushMessage(w, h, a, n))
  {
    PushMessageKeeps(w, h, a, n);
    PushMessageKeepsCounters(w, h, a, n);
  }

  /** Collecting any handle at any time is safe: the message of an owning handle is still allocated. */
  lemma CollectIsSafe(w: World, h: HandleId)
    requires Inv(w) && h in w.handles
    ensures w.handles[h].owning ==> w.handles[h].target in w.heap
    ensures Inv(Collect(w, h))
  {
    CollectKeeps(w, h);
    ForgetKeepsCounters(if w.handles[h].owning then Delete(w, w.handles[h].target) else w, h);
  }

  lemma ServerIsOk(w: World, p: Addr)
    requires Linear(w) && p in w.heap && w.heap[p].InitServer?
    ensures IsServer(w, p) && Distinct(w.heap[p].elements)
  {
    assert NodeOk(w.heap[p]);
  }

  lemma GetOneIsSafe(w: World, p: Addr, h: HandleId)
    requires Inv(w) && IsServer(w, p) && w.heap[p].size > 0 && h !in w.handles
    ensures Inv(GetOne(w, p, h))
  {
    var InitServer(elements, size) := w.heap[p];
    ServerIsOk(w, p);
    WithoutSlotRemoves(elements, size - 1);
    var n := InitServer(WithoutSlot(elements, size - 1), size - 1);
    assert NodeOk(n);
    ReleaseKeeps(w, p, n, elements[size - 1], h);
    PushKeeps(w.(heap := w.heap[p := n]), h, elements[size - 1], true);
  }

  lemma AddOneIsSafe(w: World, p: Addr, h: HandleId, spare: Addr)
    requires Inv(w) && IsServer(w, p) && h !in w.handles && spare !in w.heap
    ensures Inv(AddOne(w, p, h, spare))
  {
    var InitServer(elements, size) := w.heap[p];
    ServerIsOk(w, p);
    if size < |elements| {
      var n := InitServer(elements, size + 1);
      SameChildrenKeeps(w, p, n);
      BorrowKeeps(w.(heap := w.heap[p := n]), h, elements[size]);
      PushKeeps(w.(heap := w.heap[p := n]), h, elements[size], false);
    } else {
      AddNewIsSafe(w, p, h, spare);
    }
  }

  lemma AddNewIsSafe(w: World, p: Addr, h: HandleId, spare: Addr)
    requires Inv(w) && IsServer(w, p) && h !in w.handles && spare !in w.heap
    requires w.heap[p].size == |w.heap[p].elements|
    ensures Inv(AddOne(w, p, h, spare))
  {
    var n := InitServer(w.heap[p].elements + [spare], w.heap[p].size + 1);
    ServerIsOk(w, p);
    ChildrenAreAllocated(w, p);
    assert NodeOk(n);
    AllocateKeeps(w, p, n, spare);
    hide Linear, NodeOk;
    BorrowKeeps(w.(heap := w.heap[spare := ListenConfig][p := n]), h, spare);
    PushKeeps(w.(heap := w.heap[spare := ListenConfig][p := n]), h, spare, false);
  }

  lemma ChildrenAreAllocated(w: World, p: Addr)
    requires Linear(w) && p in w.heap
    ensures forall c :: c in Children(w.heap[p]) ==> c in w.heap && w.heap[c].ListenConfig?
  {
    forall c | c in Children(w.heap[p]) ensures c in w.heap && w.heap[c].ListenConfig? {
      assert Owns(w, ByParent(p), c);
    }
  }

  lemma ClearIsSafe(w: World, p: Addr)
    requires Inv(w) && p in w.heap
    ensures Inv(ClearMessage(w, p))
  {
    assert NodeOk(w.heap[p]);
    var w' := ClearMessage(w, p);
    if w.heap[p].InitServer? || w.heap[p].ServerActive? {
      SameChildrenKeeps(w, p, w'.heap[p]);
    }
  }

  lemma MutableIsSafe(w: World, p: Addr, spare: Addr)
    requires Inv(w) && IsActive(w, p) && spare !in w.heap
    ensures Inv(Mutable(w, p, spare)) && Mutable(w, p, spare).heap[p] == ServerActive(Some(ChildOr(w, p, spare)), true)
  {
    match w.heap[p].child
    case Some(c) => SameChildrenKeeps(w, p, ServerActive(Some(c), true));
    case None =>
      assert [] + [spare] == [spare];
      AllocateKeeps(w, p, ServerActive(Some(spare), true), spare);
  }

  lemma GetRemoteIsSafe(w: World, p: Addr, h: HandleId, spare: Addr)
    requires Inv(w) && IsActive(w, p) && h !in w.handles && spare !in w.heap
    ensures Inv(GetRemote(w, p, h, spare))
  {
    MutableIsSafe(w, p, spare);
    var w' := Mutable(w, p, spare);
    ReleaseKeeps(w', p, ServerActive(None, false), ChildOr(w, p, spare), h);
    PushKeeps(w'.(heap := w'.heap[p := ServerActive(None, false)]), h, ChildOr(w, p, spare), true);
  }

  lemma SetRemoteIsSafe(w: World, p: Addr, h: HandleId, spare: Addr)
    requires Inv(w) && IsActive(w, p) && h !in w.handles && spare !in w.heap
    ensures Inv(SetRemote(w, p, h, spare))
  {
    MutableIsSafe(w, p, spare);
    BorrowKeeps(Mutable(w, p, spare), h, ChildOr(w, p, spare));
    PushKeeps(Mutable(w, p, spare), h, ChildOr(w, p, spare), false);
  }

  // ---------------------------------------------------------------- the transfer loops

  lemma {:induction false} GetServersIsSafe(w: World, p: Addr, hs: seq<HandleId>)
    requires Inv(w) && IsServer(w, p) && w.heap[p].size == |hs| && NewHandles(w, hs)
    ensures Inv(GetServers(w, p, hs))
    decreases |hs|
  {
    if hs == [] {
    } else {
      GetOneIsSafe(w, p, hs[|hs| - 1]);
      GetServersIsSafe(GetOne(w, p, hs[|hs| - 1]), p, hs[..|hs| - 1]);
    }
  }

  lemma {:induction false} SetServersIsSafe(w: World, p: Addr, hs: seq<HandleId>, spares: seq<Addr>)
    requires Inv(w) && IsServer(w, p) && NewHandles(w, hs) && NewAddresses(w, spares) && |spares| == |hs|
    ensures Inv(SetServers(w, p, hs, spares))
    decreases |hs|
  {
    if hs == [] {
    } else {
      AddOneIsSafe(w, p, hs[0], spares[0]);
      SetServersIsSafe(AddOne(w, p, hs[0], spares[0]), p, hs[1..], spares[1..]);
    }
  }

  lemma SuffixAfterRemoval(s: seq<Addr>, i: nat)
    requires i < |s| && Distinct(s)
    ensures forall c :: c in WithoutSlot(s, i)[i..] <==> c in s[i + 1..]
  {
    var t := WithoutSlot(s, i);
    forall c | c in s[i + 1..] ensures c in t[i..] {
      var j :| 0 <= j < |s[i + 1..]| && s[i + 1..][j] == c;
      if i + 1 + j == |s| - 1 { assert t[i..][0] == c; } else { assert t[i..][j + 1] == c; }
    }
    forall c | c in t[i..] ensures c in s[i + 1..] {
      var j :| 0 <= j < |t[i..]| && t[i..][j] == c;
      if j == 0 { assert s[i + 1..][|s| - 2 - i] == c; } else { assert s[i + 1..][j - 1] == c; }
    }
  }

  /** One round of the release loop. */
  lemma GetOneEffect(w: World, p: Addr, h: HandleId)
    requires Inv(w) && IsServer(w, p) && w.heap[p].size > 0 && h !in w.handles
    ensures var w', n, was := GetOne(w, p, h), w.heap[p].size - 1, w.heap[p].elements;
            && w'.heap == w.heap[p := w'.heap[p]] && IsServer(w', p) && w'.heap[p].size == n
            && w'.heap[p].elements[..n] == was[..n]
            && (forall c :: c in w'.heap[p].elements[n..] <==> c in was[n + 1..])
            && w'.handles == w.handles[h := Handle(was[n], true, true)]
            && w'.udataNum == w.udataNum + 1 && w'.uDatas == w.uDatas + {was[n]}
  {
    ServerIsOk(w, p);
    WithoutSlotRemoves(w.heap[p].elements, w.heap[p].size - 1);
    SuffixAfterRemoval(w.heap[p].elements, w.heap[p].size - 1);
  }

  /** What `get_servers` may be called with. */
  ghost predicate CanGet(w: World, p: Addr, hs: seq<HandleId>) {
    Inv(w) && IsServer(w, p) && w.heap[p].size == |hs| && NewHandles(w, hs)
  }

  lemma GetOneStep(w: World, p: Addr, hs: seq<HandleId>)
    requires CanGet(w, p, hs) && hs != []
    ensures var n := |hs| - 1; hs[n] !in w.handles && CanGet(GetOne(w, p, hs[n]), p, hs[..n])
  {
    GetOneEffect(w, p, hs[|hs| - 1]);
    GetOneIsSafe(w, p, hs[|hs| - 1]);
  }

  /** `get_servers` leaves the message with no elements and with the cleared messages it had; no other message
      changes. */
  lemma {:induction false} GetServersEmpties(w: World, p: Addr, hs: seq<HandleId>)
    requires CanGet(w, p, hs)
    ensures var w' := GetServers(w, p, hs);
            && IsServer(w', p) && w'.heap == w.heap[p := w'.heap[p]] && w'.heap[p].size == 0
            && (forall c :: c in w'.heap[p].elements <==> c in w.heap[p].elements[|hs|..])
    decreases |hs|
  {
    hide NewHandles, Inv;
    if hs == [] {
      assert w.heap[p].elements[0..] == w.heap[p].elements;
    } else {
      GetOneStep(w, p, hs);
      GetOneEffect(w, p, hs[|hs| - 1]);
      GetServersEmpties(GetOne(w, p, hs[|hs| - 1]), p, hs[..|hs| - 1]);
      hide GetOne;
    }
  }

  /** The release loop changes no handle that was there, and counts each new one. */
  lemma {:induction false} GetServersKeepsHandles(w: World, p: Addr, hs: seq<HandleId>)
    requires CanGet(w, p, hs)
    ensures var w' := GetServers(w, p, hs);
            && (forall h :: h in w.handles ==> h in w'.handles && w'.handles[h] == w.handles[h])
            && w'.udataNum == w.udataNum + |hs|
    decreases |hs|
  {
    hide NewHandles, Inv;
    if hs == [] {
    } else {
      GetOneStep(w, p, hs);
      GetOneEffect(w, p, hs[|hs| - 1]);
      GetServersKeepsHandles(GetOne(w, p, hs[|hs| - 1]), p, hs[..|hs| - 1]);
      hide GetOne;
    }
  }

  /** The release loop makes the handles that it is given and no others. */
  lemma {:induction false} GetServersNewHandles(w: World, p: Addr, hs: seq<HandleId>)
    requires CanGet(w, p, hs)
    ensures GetServers(w, p, hs).handles.Keys == w.handles.Keys + set h | h in hs
    decreases |hs|
  {
    hide NewHandles, Inv;
    if hs == [] {
    } else {
      var n := |hs| - 1;
      GetOneStep(w, p, hs);
      GetOneEffect(w, p, hs[n]);
      GetServersNewHandles(GetOne(w, p, hs[n]), p, hs[..n]);
      hide GetOne;
      assert hs == hs[..n] + [hs[n]];
    }
  }

  /** Entry i + 1 of the table that `get_servers` returns is an owning handle to what was element i. */
  lemma {:induction false} GetServersHandle(w: World, p: Addr, hs: seq<HandleId>, i: nat)
    requires CanGet(w, p, hs) && i < |hs|
    ensures var w' := GetServers(w, p, hs);
            hs[i] in w'.handles && w'.handles[hs[i]] == Handle(w.heap[p].elements[i], true, true)
    decreases |hs|
  {
    hide NewHandles, Inv;
    var n, was := |hs| - 1, w.heap[p].elements;
    GetOneStep(w, p, hs);
    GetOneEffect(w, p, hs[n]);
    var w1 := GetOne(w, p, hs[n]);
    hide GetOne;
    if i == n {
      GetServersKeepsHandles(w1, p, hs[..n]);
    } else {
      GetServersHandle(w1, p, hs[..n], i);
      assert hs[..n][i] == hs[i] && w1.heap[p].elements[..n][i] == was[..n][i];
    }
  }

  /** The release loop registers what were the elements. */
  lemma {:induction false} GetServersRegisters(w: World, p: Addr, hs: seq<HandleId>)
    requires CanGet(w, p, hs)
    ensures GetServers(w, p, hs).uDatas == w.uDatas + set a | a in w.heap[p].elements[..|hs|]
    decreases |hs|
  {
    hide NewHandles, Inv;
    if hs == [] {
    } else {
      var n, was := |hs| - 1, w.heap[p].elements;
      GetOneStep(w, p, hs);
      GetOneEffect(w, p, hs[n]);
      GetServersRegisters(GetOne(w, p, hs[n]), p, hs[..n]);
      hide GetOne;
      assert was[..n + 1] == was[..n] + [was[n]];
    }
  }

  /** One round of the append loop. */
  lemma AddOneEffect(w: World, p: Addr, h: HandleId, spare: Addr)
    requires IsServer(w, p) && h !in w.handles && spare !in w.heap
    ensures var w', size, was := AddOne(w, p, h, spare), w.heap[p].size, w.heap[p].elements;
            && IsServer(w', p) && w'.heap[p].size == size + 1
            && w'.heap[p].elements == (if size < |was| then was else was + [spare])
            && (forall q :: q in w.heap && q != p ==> q in w'.heap && w'.heap[q] == w.heap[q])
            && (forall q :: q in w'.heap ==> q in w.heap || q == spare)
            && w'.handles == w.handles[h := Handle(w'.heap[p].elements[size], false, true)]
            && w'.udataNum == w.udataNum + 1
  {
  }

  /** `set_servers(n)` keeps the elements and appends n more, the cleared messages first. */
  lemma {:induction false} SetServersAppends(w: World, p: Addr, hs: seq<HandleId>, spares: seq<Addr>)
    requires IsServer(w, p) && NewHandles(w, hs) && NewAddresses(w, spares) && |spares| == |hs|
    ensures var w', was, size := SetServers(w, p, hs, spares), w.heap[p].elements, w.heap[p].size;
            && IsServer(w', p) && w'.heap[p].size == size + |hs|
            && w'.heap[p].elements == (if size + |hs| <= |was| then was else was + spares[|was| - size..])
            && (forall q :: q in w.heap && q != p ==> q in w'.heap && w'.heap[q] == w.heap[q])
    decreases |hs|
  {
    if hs == [] {
    } else {
      AddOneEffect(w, p, hs[0], spares[0]);
      AddOneStep(w, p, hs, spares);
      hide AddOne, NewHandles, NewAddresses;
      SetServersAppends(AddOne(w, p, hs[0], spares[0]), p, hs[1..], spares[1..]);
      AppendOne(w.heap[p].elements, w.heap[p].size, spares);
    }
  }

  lemma AppendOne(was: seq<Addr>, size: nat, spares: seq<Addr>)
    requires size <= |was| && spares != []
    ensures size < |was| && size + |spares| > |was| ==> spares[1..][|was| - size - 1..] == spares[|was| - size..]
    ensures size == |was| ==> was + [spares[0]] + spares[1..] == was + spares[0..] && spares[1..][0..] == spares[1..]
  {
  }

  /** The append loop changes no handle but its own, and no element. */
  lemma {:induction false} SetServersKeeps(w: World, p: Addr, hs: seq<HandleId>, spares: seq<Addr>)
    requires IsServer(w, p) && NewHandles(w, hs) && NewAddresses(w, spares) && |spares| == |hs|
    ensures var w' := SetServers(w, p, hs, spares);
            && IsServer(w', p) && w'.heap[p].size == w.heap[p].size + |hs|
            && w.heap[p].elements <= w'.heap[p].elements
            && w'.handles.Keys == w.handles.Keys + (set h | h in hs)
            && (forall h :: h in w.handles ==> w'.handles[h] == w.handles[h])
            && w'.udataNum == w.udataNum + |hs|
    decreases |hs|
  {
    if hs == [] {
    } else {
      AddOneEffect(w, p, hs[0], spares[0]);
      SetServersKeeps(AddOne(w, p, hs[0], spares[0]), p, hs[1..], spares[1..]);
      hide AddOne;
      assert hs == [hs[0]] + hs[1..];
    }
  }

  /** Entry i + 1 of the table that `set_servers` returns is a borrowed handle to the i-th appended element. */
  lemma {:induction false} SetServersHandle(w: World, p: Addr, hs: seq<HandleId>, spares: seq<Addr>, i: nat)
    requires IsServer(w, p) && NewHandles(w, hs) && NewAddresses(w, spares) && |spares| == |hs| && i < |hs|
    ensures var w', at := SetServers(w, p, hs, spares), w.heap[p].size + i;
            && IsServer(w', p) && at < w'.heap[p].size
            && hs[i] in w'.handles && w'.handles[hs[i]] == Handle(w'.heap[p].elements[at], false, true)
    decreases |hs|
  {
    AddOneStep(w, p, hs, spares);
    hide NewHandles, NewAddresses, AddOne;
    var w1 := AddOne(w, p, hs[0], spares[0]);
    if i == 0 {
      SetServersKeeps(w1, p, hs[1..], spares[1..]);
    } else {
      SetServersHandle(w1, p, hs[1..], spares[1..], i - 1);
      assert hs[1..][i - 1] == hs[i];
    }
  }

  lemma AddOneStep(w: World, p: Addr, hs: seq<HandleId>, spares: seq<Addr>)
    requires IsServer(w, p) && NewHandles(w, hs) && NewAddresses(w, spares) && |spares| == |hs| && hs != []
    ensures var w1, size := AddOne(w, p, hs[0], spares[0]), w.heap[p].size;
            && IsServer(w1, p) && w1.heap[p].size == size + 1
            && NewHandles(w1, hs[1..]) && NewAddresses(w1, spares[1..])
            && hs[0] in w1.handles && w1.handles[hs[0]] == Handle(w1.heap[p].elements[size], false, true)
  {
    AddOneEffect(w, p, hs[0], spares[0]);
  }

  // ---------------------------------------------------------------- calls after one another

  /** What `set_servers` hands out as entry i + 1 is what `rawget_servers` then finds at that position, and what
      `get_servers` then passes to an owning handle. */
  lemma SetThenRawGetThenGet(w: World, p: Addr, hs: seq<HandleId>, spares: seq<Addr>, i: nat, raw: HandleId,
                             taken: seq<HandleId>, set1: World, raw1: World)
    requires IsServer(w, p) && NewHandles(w, hs) && NewAddresses(w, spares) && |spares| == |hs| && i < |hs|
    requires set1 == SetServers(w, p, hs, spares) && IsServer(set1, p) && raw !in set1.handles
    requires raw1 == RawGet(set1, p, w.heap[p].size + i + 1, raw) && CanGet(raw1, p, taken)
    ensures var at, got1 := w.heap[p].size + i, GetServers(raw1, p, taken);
            && hs[i] in set1.handles && raw in raw1.handles && at < |taken| && taken[at] in got1.handles
            && set1.handles[hs[i]].target == raw1.handles[raw].target == got1.handles[taken[at]].target
            && !raw1.handles[raw].owning && got1.handles[taken[at]].owning
  {
    hide SetServers, GetServers, NewHandles, NewAddresses, Inv;
    SetServersHandle(w, p, hs, spares, i);
    SetServersKeeps(w, p, hs, spares);
    GetServersHandle(raw1, p, taken, w.heap[p].size + i);
  }

  /** While there are cleared messages to reuse, appending allocates nothing. */
  lemma {:induction false} SetServersReuses(w: World, p: Addr, hs: seq<HandleId>, spares: seq<Addr>)
    requires IsServer(w, p) && |spares| == |hs| && w.heap[p].size + |hs| <= |w.heap[p].elements|
    ensures SetServers(w, p, hs, spares).heap.Keys == w.heap.Keys
    decreases |hs|
  {
    if hs == [] {
    } else {
      SetServersReuses(AddOne(w, p, hs[0], spares[0]), p, hs[1..], spares[1..]);
    }
  }

  /** A cleared server gives its old elements out again, in the same order, without allocating. */
  lemma ClearThenSet(w: World, p: Addr, hs: seq<HandleId>, spares: seq<Addr>, i: nat)
    requires IsServer(w, p) && NewHandles(w, hs) && NewAddresses(w, spares) && |spares| == |hs|
    requires i < |hs| <= |w.heap[p].elements|
    ensures var cleared := ClearMessage(w, p);
            && IsServer(cleared, p) && cleared.heap[p].size == 0
            && var set1 := SetServers(cleared, p, hs, spares);
               && set1.heap.Keys == w.heap.Keys
               && hs[i] in set1.handles && set1.handles[hs[i]] == Handle(w.heap[p].elements[i], false, true)
  {
    var cleared := ClearMessage(w, p);
    assert IsServer(cleared, p) && NewHandles(cleared, hs) && NewAddresses(cleared, spares);
    SetServersReuses(cleared, p, hs, spares);
    SetServersHandle(cleared, p, hs, spares, i);
    SetServersKeeps(cleared, p, hs, spares);
    hide SetServers;
    assert SetServers(cleared, p, hs, spares).heap[p].elements[i] == w.heap[p].elements[i];
  }

  /** `set_remoteServer` and then `get_remoteServer` give handles to the same message, the second owning it; a further
      `get_remoteServer` makes a new message. */
  lemma SetThenGetRemote(w: World, p: Addr, h1: HandleId, a1: Addr, h2: HandleId, a2: Addr, h3: HandleId, a3: Addr)
    requires IsActive(w, p) && a1 !in w.heap && a2 !in w.heap && a3 !in w.heap && h1 != h2
    ensures var w1 := SetRemote(w, p, h1, a1);
            && IsActive(w1, p) && IsActive(GetRemote(w1, p, h2, a2), p)
            && var w2 := GetRemote(w1, p, h2, a2);
               && w2.heap[p] == ServerActive(None, false)
               && w2.handles[h2] == Handle(w2.handles[h1].target, true, true) && !w2.handles[h1].owning
               && GetRemote(w2, p, h3, a3).handles[h3] == Handle(a3, true, true)
  {
  }

  // ---------------------------------------------------------------- runs

  /** One call from Lua, or one handle passed in from C++, with what the allocators give out. */
  datatype Op =
    | NewOp(h: HandleId, a: Addr, kind: Node)
    | PushMessageOp(h: HandleId, a: Addr, node: Node)
    | GetServersOp(via: HandleId, hs: seq<HandleId>)
    | SetServersOp(via: HandleId, hs: seq<HandleId>, spares: seq<Addr>)
    | RawGetOp(via: HandleId, index: int, h: HandleId)
    | ClearOp(via: HandleId)
    | GetRemoteOp(via: HandleId, h: HandleId, spare: Addr)
    | SetRemoteOp(via: HandleId, h: HandleId, spare: Addr)
    | GcOp(h: HandleId)

  function Target(w: World, h: HandleId): Addr { if h in w.handles then w.handles[h].target else 0 }

  /** Calls go through a live handle to a still-allocated message of the right type; a collection needs nothing but
      a live handle. New handles and new messages get identities that are not in use. */
  predicate Legal(w: World, op: Op) {
    match op
    case NewOp(h, a, _) => h !in w.handles && a !in w.heap
    case PushMessageOp(h, a, n) => h !in w.handles && NewTree(w, a, n)
    case GetServersOp(via, hs) =>
      via in w.handles && IsServer(w, Target(w, via)) && NewHandles(w, hs) && |hs| == w.heap[Target(w, via)].size
    case SetServersOp(via, hs, spares) =>
      via in w.handles && IsServer(w, Target(w, via)) && NewHandles(w, hs) && NewAddresses(w, spares)
      && |hs| == |spares|
    case RawGetOp(via, _, h) => via in w.handles && IsServer(w, Target(w, via)) && h !in w.handles
    case ClearOp(via) => via in w.handles && Target(w, via) in w.heap
    case GetRemoteOp(via, h, spare) =>
      via in w.handles && IsActive(w, Target(w, via)) && h !in w.handles && spare !in w.heap
    case SetRemoteOp(via, h, spare) =>
      via in w.handles && IsActive(w, Target(w, via)) && h !in w.handles && spare !in w.heap
    case GcOp(h) => h in w.handles
  }

  /** A collection in a state that the invariant rules out would free a message twice; it is left as it is here, and
      `RunIsSafe` shows that it is never reached. */
  function Apply(w: World, op: Op): World
    requires Legal(w, op)
  {
    match op
    case NewOp(h, a, kind) => New(w, h, a, kind)
    case PushMessageOp(h, a, n) => PushMessage(w, h, a, n)
    case GetServersOp(via, hs) => GetServers(w, Target(w, via), hs)
    case SetServersOp(via, hs, spares) => SetServers(w, Target(w, via), hs, spares)
    case RawGetOp(via, index, h) => RawGet(w, Target(w, via), index, h)
    case ClearOp(via) => ClearMessage(w, Target(w, via))
    case GetRemoteOp(via, h, spare) => GetRemote(w, Target(w, via), h, spare)
    case SetRemoteOp(via, h, spare) => SetRemote(w, Target(w, via), h, spare)
    case GcOp(h) => if SafeToCollect(w, h) then Collect(w, h) else w
  }

  /** The message that a collection would delete is still allocated. */
  predicate SafeToCollect(w: World, h: HandleId)
    requires h in w.handles
  {
    w.handles[h].owning ==> w.handles[h].target in w.heap
  }

  lemma OpIsSafe(w: World, op: Op)
    requires Inv(w) && Legal(w, op)
    ensures Inv(Apply(w, op)) && (op.GcOp? ==> SafeToCollect(w, op.h))
  {
    match op
    case NewOp(h, a, kind) => NewIsSafe(w, h, a, kind);
    case PushMessageOp(h, a, n) => PushMessageIsSafe(w, h, a, n);
    case GetServersOp(via, hs) => GetServersIsSafe(w, Target(w, via), hs);
    case SetServersOp(via, hs, spares) => SetServersIsSafe(w, Target(w, via), hs, spares);
    case RawGetOp(via, index, h) => RawGetIsSafe(w, Target(w, via), index, h);
    case ClearOp(via) => ClearIsSafe(w, Target(w, via));
    case GetRemoteOp(via, h, spare) => GetRemoteIsSafe(w, Target(w, via), h, spare);
    case SetRemoteOp(via, h, spare) => SetRemoteIsSafe(w, Target(w, via), h, spare);
    case GcOp(h) => CollectIsSafe(w, h);
  }

  lemma RawGetIsSafe(w: World, p: Addr, index: int, h: HandleId)
    requires Inv(w) && IsServer(w, p) && h !in w.handles
    ensures Inv(RawGet(w, p, index, h))
  {
    if 1 <= index <= w.heap[p].size {
      BorrowKeeps(w, h, w.heap[p].elements[index - 1]);
      PushKeeps(w, h, w.heap[p].elements[index - 1], false);
    }
  }

  predicate LegalRun(w: World, ops: seq<Op>)
    decreases |ops|
  {
    ops == [] || (Legal(w, ops[0]) && LegalRun(Apply(w, ops[0]), ops[1..]))
  }

  function Run(w: World, ops: seq<Op>): World
    requires LegalRun(w, ops)
    decreases |ops|
  {
    if ops == [] then w else Run(Apply(w, ops[0]), ops[1..])
  }

  lemma {:induction false} RunKeepsInv(w: World, ops: seq<Op>)
    requires Inv(w) && LegalRun(w, ops)
    ensures Inv(Run(w, ops))
    decreases |ops|
  {
    if ops == [] {
    } else {
      OpIsSafe(w, ops[0]);
      RunKeepsInv(Apply(w, ops[0]), ops[1..]);
    }
  }

  lemma StartIsOk()
    ensures Inv(START)
  {
    assert CountedHandles(START) == {};
  }

  /** After any run from the empty state: each allocated message has exactly one owner, in one slot of it if that is a
      message, and nested messages are leaves; collecting any live handle
      would delete only an allocated message, the counter is the number of live counted handles less the collected
      uncounted ones, and every registered address belongs to a live handle. */
  lemma RunIsSafe(ops: seq<Op>)
    requires LegalRun(START, ops)
    ensures var w := Run(START, ops);
            && Linear(w)
            && (forall a :: a in w.heap ==> exists o :: Owns(w, o, a) && forall o' :: Owns(w, o', a) ==> o' == o)
            && (forall h :: h in w.handles ==> SafeToCollect(w, h))
            && w.udataNum == |CountedHandles(w)| - w.uncountedCollected
            && RegisteredAreLive(w)
  {
    StartIsOk();
    RunKeepsInv(START, ops);
    var w := Run(START, ops);
    forall h | h in w.handles ensures SafeToCollect(w, h) {
      if w.handles[h].owning { assert Owns(w, ByHandle(h), w.handles[h].target); }
    }
    forall a | a in w.heap ensures exists o :: Owns(w, o, a) && forall o' :: Owns(w, o', a) ==> o' == o {
      var o :| Owns(w, o, a);
      assert forall o' :: Owns(w, o', a) ==> o' == o;
    }
  }

  /** Every allocated message is the target of a live owning handle or nested in one. */
  lemma EachMessageIsHeld(w: World, a: Addr)
    requires Linear(w)
    ensures a in w.heap ==>
              exists h :: h in w.handles && w.handles[h].owning && w.handles[h].target in w.heap
                          && (w.handles[h].target == a || a in Children(w.heap[w.handles[h].target]))
  {
    if a in w.heap {
      var o :| Owns(w, o, a);
      if o.ByParent? {
        var top :| Owns(w, top, o.p);
        assert top.ByHandle?;
      }
    }
  }

  /** Nothing leaks: once every handle has been collected nothing is left allocated. */
  lemma NothingLeaks(ops: seq<Op>)
    requires LegalRun(START, ops)
    ensures Run(START, ops).handles == map[] ==> Run(START, ops).heap == map[]
  {
    StartIsOk();
    RunKeepsInv(START, ops);
    var w := Run(START, ops);
    forall a ensures a in w.heap ==> w.handles != map[] { EachMessageIsHeld(w, a); }
  }
}
