/** The handle counter, the registered messages and the memory report, over whole runs. */
module HandleLedger {
  import opened Ownership
  import opened HandleRuns

  // ---------------------------------------------------------------- what a call does to the ledger

  /** The new handles are all counted and their messages registered; no other handle and no other entry changes. */
  ghost predicate Registers(w: World, w': World) {
    && (forall h :: h in w.handles ==> h in w'.handles && w'.handles[h] == w.handles[h])
    && (forall h :: h in w'.handles && h !in w.handles ==> w'.handles[h].counted)
    && (forall a :: a in w'.uDatas <==>
          a in w.uDatas || exists h :: h in w'.handles && h !in w.handles && w'.handles[h].target == a)
    && w'.uncountedCollected == w.uncountedCollected
  }

  lemma PushRegisters(w: World, h: HandleId, a: Addr, owning: bool)
    requires h !in w.handles
    ensures Registers(w, Push(w, h, a, owning))
  {
    var w' := Push(w, h, a, owning);
    assert h in w'.handles && w'.handles[h].target == a;
  }

  lemma RegistersBoth(w: World, w1: World, w2: World)
    requires Registers(w, w1) && Registers(w1, w2)
    ensures Registers(w, w2)
  {
    forall a ensures a in w2.uDatas <==>
                     a in w.uDatas || exists h :: h in w2.handles && h !in w.handles && w2.handles[h].target == a
    {
      if h :| h in w2.handles && h !in w.handles && w2.handles[h].target == a {
        assert h in w1.handles || h !in w1.handles;
      }
      if h :| h in w1.handles && h !in w.handles && w1.handles[h].target == a {
        assert h in w2.handles && w2.handles[h].target == a;
      }
    }
  }

  lemma {:induction false} GetServersRegister(w: World, p: Addr, hs: seq<HandleId>)
    requires IsServer(w, p) && w.heap[p].size == |hs| && NewHandles(w, hs)
    ensures Registers(w, GetServers(w, p, hs))
    decreases |hs|
  {
    if hs == [] {
    } else {
      var n, w1 := |hs| - 1, GetOne(w, p, hs[|hs| - 1]);
      PushRegisters(w, hs[n], w.heap[p].elements[n], true);
      assert Registers(w, w1);
      GetServersRegister(w1, p, hs[..n]);
      RegistersBoth(w, w1, GetServers(w1, p, hs[..n]));
    }
  }

  lemma {:induction false} SetServersRegister(w: World, p: Addr, hs: seq<HandleId>, spares: seq<Addr>)
    requires IsServer(w, p) && NewHandles(w, hs) && NewAddresses(w, spares) && |spares| == |hs|
    ensures Registers(w, SetServers(w, p, hs, spares))
    decreases |hs|
  {
    if hs == [] {
    } else {
      var w1 := AddOne(w, p, hs[0], spares[0]);
      AddOneStep(w, p, hs, spares);
      assert Registers(w, w1);
      SetServersRegister(w1, p, hs[1..], spares[1..]);
      RegistersBoth(w, w1, SetServers(w1, p, hs[1..], spares[1..]));
    }
  }

  lemma OpRegisters(w: World, op: Op)
    requires Legal(w, op) && !op.GcOp? && !op.PushMessageOp?
    ensures Registers(w, Apply(w, op))
  {
    match op
    case GetServersOp(via, hs) => GetServersRegister(w, Target(w, via), hs);
    case SetServersOp(via, hs, spares) => SetServersRegister(w, Target(w, via), hs, spares);
    case NewOp(h, a, kind) => PushRegisters(w, h, a, true);
    case RawGetOp(via, index, h) =>
      var p := Target(w, via);
      if 1 <= index <= w.heap[p].size { PushRegisters(w, h, w.heap[p].elements[index - 1], false); }
    case GetRemoteOp(via, h, spare) => PushRegisters(w, h, ChildOr(w, Target(w, via), spare), true);
    case SetRemoteOp(via, h, spare) => PushRegisters(w, h, ChildOr(w, Target(w, via), spare), false);
    case ClearOp(_) =>
  }

  // ---------------------------------------------------------------- the counter

  ghost function UncountedHandles(w: World): set<HandleId> { set h | h in w.handles && !w.handles[h].counted }

  /** The handles that have been made past the counter, live or collected. */
  ghost function Uncounted(w: World): nat { |UncountedHandles(w)| + w.uncountedCollected }

  /** The calls of a run that go past the counter. */
  function Pushes(ops: seq<Op>): nat {
    if ops == [] then 0 else (if ops[0].PushMessageOp? then 1 else 0) + Pushes(ops[1..])
  }

  lemma RegistersUncounted(w: World, w': World)
    requires Registers(w, w')
    ensures Uncounted(w') == Uncounted(w)
  {
    assert UncountedHandles(w') == UncountedHandles(w);
  }

  lemma PushMessageUncounted(w: World, h: HandleId, a: Addr, n: Node)
    requires h !in w.handles
    ensures Uncounted(PushMessage(w, h, a, n)) == Uncounted(w) + 1
  {
    assert UncountedHandles(PushMessage(w, h, a, n)) == UncountedHandles(w) + {h};
  }

  lemma CollectUncounted(w: World, h: HandleId)
    requires h in w.handles && SafeToCollect(w, h)
    ensures Uncounted(Collect(w, h)) == Uncounted(w)
  {
    assert UncountedHandles(Collect(w, h)) == UncountedHandles(w) - {h};
  }

  lemma OpUncounted(w: World, op: Op)
    requires Inv(w) && Legal(w, op)
    ensures Uncounted(Apply(w, op)) == Uncounted(w) + if op.PushMessageOp? then 1 else 0
  {
    hide Uncounted, Registers, Inv, Collect, PushMessage;
    if op.PushMessageOp? {
      PushMessageUncounted(w, op.h, op.a, op.node);
    } else if op.GcOp? {
      OpIsSafe(w, op);
      CollectUncounted(w, op.h);
    } else {
      OpRegisters(w, op);
      hide Apply;
      RegistersUncounted(w, Apply(w, op));
    }
  }

  lemma {:induction false} RunUncounted(w: World, ops: seq<Op>)
    requires Inv(w) && LegalRun(w, ops)
    ensures Uncounted(Run(w, ops)) == Uncounted(w) + Pushes(ops)
    decreases |ops|
  {
    if ops == [] {
    } else {
      OpIsSafe(w, ops[0]);
      OpUncounted(w, ops[0]);
      RunUncounted(Apply(w, ops[0]), ops[1..]);
    }
  }

  /** After any run the counter is the number of live handles less the number of `PushMessage` calls. */
  lemma CounterDrift(ops: seq<Op>)
    requires LegalRun(START, ops)
    ensures var w := Run(START, ops); w.udataNum == |w.handles| - Pushes(ops)
  {
    StartIsOk();
    assert UncountedHandles(START) == {};
    RunKeepsInv(START, ops);
    RunUncounted(START, ops);
    var w := Run(START, ops);
    assert w.handles.Keys == CountedHandles(w) + UncountedHandles(w);
  }

  /** The counter is the number of live handles exactly in the runs without `PushMessage`. */
  lemma CounterIsExact(ops: seq<Op>)
    requires LegalRun(START, ops)
    ensures var w := Run(START, ops);
            w.udataNum == |w.handles| <==> forall i :: 0 <= i < |ops| ==> !ops[i].PushMessageOp?
  {
    CounterDrift(ops);
    NoPushes(ops);
  }

  lemma {:induction false} NoPushes(ops: seq<Op>)
    ensures Pushes(ops) == 0 <==> forall i :: 0 <= i < |ops| ==> !ops[i].PushMessageOp?
  {
    if ops == [] {
    } else {
      NoPushes(ops[1..]);
      assert forall i :: 1 <= i < |ops| ==> ops[i] == ops[1..][i - 1];
    }
  }

  /** One message handed over: one handle and a counter of zero; after its collection no handle and minus one. */
  lemma DriftExample()
    ensures var push := PushMessageOp(1, 10, ListenConfig);
            && LegalRun(START, [push]) && LegalRun(START, [push, GcOp(1)])
            && |Run(START, [push]).handles| == 1 && Run(START, [push]).udataNum == 0
            && Run(START, [push, GcOp(1)]).handles == map[] && Run(START, [push, GcOp(1)]).udataNum == -1
  {
    var push := PushMessageOp(1, 10, ListenConfig);
    var w1 := Apply(START, push);
    assert w1.handles == map[1 := Handle(10, true, false)] && w1.heap == map[10 := ListenConfig];
    var w2 := Apply(w1, GcOp(1));
    assert w2.handles == map[];
    assert [push][1..] == [] && [push, GcOp(1)][1..] == [GcOp(1)] && [GcOp(1)][1..] == [];
    assert LegalRun(w1, [GcOp(1)]) && Run(w1, [GcOp(1)]) == w2;
  }

  // ---------------------------------------------------------------- over a run

  /** `p` holds in every state of the run. */
  ghost predicate Always(p: World -> bool, w: World, ops: seq<Op>)
    requires LegalRun(w, ops)
    decreases |ops|
  {
    p(w) && (ops == [] || Always(p, Apply(w, ops[0]), ops[1..]))
  }

  /** `c` holds before each collection of the run. */
  ghost predicate AtEachGc(c: (World, HandleId) -> bool, w: World, ops: seq<Op>)
    requires LegalRun(w, ops)
    decreases |ops|
  {
    ops == [] || ((ops[0].GcOp? ==> c(w, ops[0].h)) && AtEachGc(c, Apply(w, ops[0]), ops[1..]))
  }

  // ---------------------------------------------------------------- what the memory report may read

  /** The memory report asks every registered message for its size, so all of them must be allocated. */
  ghost predicate ReportIsSafe(w: World) { w.uDatas <= w.heap.Keys }

  /** Nothing that collecting `h` would free along with its message is registered. */
  ghost predicate NoNestedRegistered(w: World, h: HandleId) {
    h in w.handles && w.handles[h].owning && w.handles[h].target in w.heap ==>
      forall c :: c in Children(w.heap[w.handles[h].target]) ==> c !in w.uDatas
  }

  /** A collection keeps the report safe exactly when no nested message of the deleted one is registered. */
  lemma CollectAndReport(w: World, h: HandleId)
    requires Inv(w) && ReportIsSafe(w) && h in w.handles && SafeToCollect(w, h)
    ensures ReportIsSafe(Collect(w, h)) <==> NoNestedRegistered(w, h)
  {
    CollectKeeps(w, h);
    var a, w' := w.handles[h].target, Collect(w, h);
    if w.handles[h].owning {
      forall c | c in Children(w.heap[a]) && c in w.uDatas ensures c in w'.uDatas && c !in w'.heap { }
    }
  }

  /** Every other call keeps the report safe. */
  lemma OtherCallsAndReport(w: World, op: Op)
    requires Inv(w) && Legal(w, op) && ReportIsSafe(w) && !op.GcOp?
    ensures ReportIsSafe(Apply(w, op))
  {
    match op
    case GetServersOp(via, hs) =>
      var p := Target(w, via);
      GetServersEmpties(w, p, hs);
      GetServersRegisters(w, p, hs);
      ChildrenAreAllocated(w, p);
    case SetServersOp(via, hs, spares) => SetServersReport(w, Target(w, via), hs, spares);
    case RawGetOp(via, _, _) => ChildrenAreAllocated(w, Target(w, via));
    case GetRemoteOp(via, _, _) => ChildrenAreAllocated(w, Target(w, via));
    case SetRemoteOp(via, _, _) => ChildrenAreAllocated(w, Target(w, via));
    case _ =>
  }

  lemma {:induction false} SetServersReport(w: World, p: Addr, hs: seq<HandleId>, spares: seq<Addr>)
    requires Inv(w) && IsServer(w, p) && NewHandles(w, hs) && NewAddresses(w, spares) && |spares| == |hs|
    requires ReportIsSafe(w)
    ensures ReportIsSafe(SetServers(w, p, hs, spares))
    decreases |hs|
  {
    if hs == [] {
    } else {
      ChildrenAreAllocated(w, p);
      AddOneIsSafe(w, p, hs[0], spares[0]);
      SetServersReport(AddOne(w, p, hs[0], spares[0]), p, hs[1..], spares[1..]);
    }
  }

  /** A run after which the report is not safe: a server, one borrowed element, and the server collected first. */
  lemma ReportExample()
    ensures var ops := [NewOp(1, 10, InitServer([], 0)), SetServersOp(1, [2], [20]), GcOp(1)];
            LegalRun(START, ops) && !ReportIsSafe(Run(START, ops))
  {
  }

  /** The report is safe in every state of a run exactly when no collection finds a nested message of the deleted one
      registered. */
  lemma {:induction false} RunAndReport(w: World, ops: seq<Op>)
    requires Inv(w) && ReportIsSafe(w) && LegalRun(w, ops)
    ensures Always(ReportIsSafe, w, ops) <==> AtEachGc(NoNestedRegistered, w, ops)
    decreases |ops|
  {
    if ops == [] {
    } else {
      var w1 := Apply(w, ops[0]);
      OpIsSafe(w, ops[0]);
      if ops[0].GcOp? {
        CollectAndReport(w, ops[0].h);
      } else {
        OtherCallsAndReport(w, ops[0]);
      }
      if ReportIsSafe(w1) { RunAndReport(w1, ops[1..]); }
    }
  }

  // ---------------------------------------------------------------- what the memory report adds up

  /** The sum of the sizes of the messages in `order`. */
  function Total(order: seq<Addr>, bytes: map<Addr, nat>): nat
    requires forall i :: 0 <= i < |order| ==> order[i] in bytes
  {
    if order == [] then 0 else Total(order[..|order| - 1], bytes) + bytes[order[|order| - 1]]
  }

  /** The registered messages in the order in which the set is walked: by address. */
  ghost predicate Walks(order: seq<Addr>, registered: set<Addr>) {
    && (forall i, j :: 0 <= i < j < |order| ==> order[i] < order[j])
    && (forall a :: a in order <==> a in registered)
  }

  lemma FirstIsRegistered(order: seq<Addr>, registered: set<Addr>)
    requires Walks(order, registered)
    ensures order == [] || order[0] in registered
  {
    if order != [] { assert order[0] in order; }
  }

  /** A set of addresses is walked in one way only. */
  lemma {:induction false} WalkIsUnique(order: seq<Addr>, other: seq<Addr>, registered: set<Addr>)
    requires Walks(order, registered) && Walks(other, registered)
    ensures order == other
    decreases |order|
  {
    if order == [] {
      FirstIsRegistered(other, registered);
    } else {
      var last := order[|order| - 1];
      LastIsGreatest(order, registered);
      assert order[|order| - 1] in registered && other != [];
      LastIsGreatest(other, registered);
      WalksWithoutLast(order, registered);
      assert other[|other| - 1] in registered && other[|other| - 1] == last;
      WalksWithoutLast(other, registered);
      WalkIsUnique(order[..|order| - 1], other[..|other| - 1], registered - {last});
      assert order == order[..|order| - 1] + [last] && other == other[..|other| - 1] + [last];
    }
  }

  lemma LastIsGreatest(order: seq<Addr>, registered: set<Addr>)
    requires Walks(order, registered)
    ensures order != [] ==> forall a :: a in registered ==> a <= order[|order| - 1]
    ensures registered != {} ==> order != []
  {
    if registered != {} {
      var a :| a in registered;
      assert a in order;
    }
    forall a | a in registered && order != [] ensures a <= order[|order| - 1] {
      assert a in order;
      var i :| 0 <= i < |order| && order[i] == a;
    }
  }

  lemma WalksWithoutLast(order: seq<Addr>, registered: set<Addr>)
    requires Walks(order, registered) && order != []
    ensures Walks(order[..|order| - 1], registered - {order[|order| - 1]})
  {
    var n := |order| - 1;
    forall a ensures a in order[..n] <==> a in registered && a != order[n] {
      if a in order && a != order[n] {
        var i :| 0 <= i < |order| && order[i] == a;
        assert order[..n][i] == a;
      }
      if a in order[..n] {
        var i :| 0 <= i < n && order[..n][i] == a;
        assert order[i] == a && a in order;
      }
    }
  }

  lemma NothingToReport(order: seq<Addr>, bytes: map<Addr, nat>)
    requires Walks(order, {})
    ensures order == [] && Total(order, bytes) == 0
  {
    FirstIsRegistered(order, {});
  }

  /** Registering one more message raises the report by exactly its size, wherever its address comes in the walk. */
  lemma {:induction false} OneMoreToReport(order: seq<Addr>, more: seq<Addr>, registered: set<Addr>, a: Addr,
                                           bytes: map<Addr, nat>)
    requires Walks(order, registered) && Walks(more, registered + {a}) && a !in registered
    requires registered + {a} <= bytes.Keys
    ensures (forall i :: 0 <= i < |order| ==> order[i] in bytes) && (forall i :: 0 <= i < |more| ==> more[i] in bytes)
    ensures Total(more, bytes) == Total(order, bytes) + bytes[a]
    decreases |more|
  {
    forall i | 0 <= i < |order| ensures order[i] in bytes { assert order[i] in order; }
    forall i | 0 <= i < |more| ensures more[i] in bytes { assert more[i] in more; }
    LastIsGreatest(more, registered + {a});
    WalksWithoutLast(more, registered + {a});
    var n := |more| - 1;
    assert more[n] in more;
    if more[n] == a {
      assert registered + {a} - {a} == registered;
      WalkIsUnique(order, more[..n], registered);
    } else {
      LastIsGreatest(order, registered);
      assert a in more && more[n] in registered;
      assert order[|order| - 1] in order && order[|order| - 1] == more[n];
      WalksWithoutLast(order, registered);
      assert registered + {a} - {more[n]} == registered - {more[n]} + {a};
      OneMoreToReport(order[..|order| - 1], more[..n], registered - {more[n]}, a, bytes);
    }
  }

  // ---------------------------------------------------------------- which messages are registered

  /** The message of every live counted handle is registered. */
  ghost predicate AllRegistered(w: World) {
    forall h :: h in w.handles && w.handles[h].counted ==> w.handles[h].target in w.uDatas
  }

  /** No other live counted handle refers to the message of `h`. */
  ghost predicate OnlyHandle(w: World, h: HandleId) {
    h in w.handles ==>
      forall g :: g in w.handles && g != h && w.handles[g].counted ==> w.handles[g].target != w.handles[h].target
  }

  /** A collection keeps the messages of all live counted handles registered exactly when no other one refers to the
      message of the collected handle. */
  lemma CollectAndRegistry(w: World, h: HandleId)
    requires AllRegistered(w) && h in w.handles && SafeToCollect(w, h)
    ensures AllRegistered(Collect(w, h)) <==> OnlyHandle(w, h)
  {
    var w' := Collect(w, h);
    forall g | g in w.handles && g != h ensures g in w'.handles && w'.handles[g] == w.handles[g] { }
  }

  lemma OtherCallsAndRegistry(w: World, op: Op)
    requires Legal(w, op) && AllRegistered(w) && !op.GcOp?
    ensures AllRegistered(Apply(w, op))
  {
    if op.PushMessageOp? {
    } else {
      OpRegisters(w, op);
    }
  }

  /** The messages of all live counted handles are registered in every state of a run exactly when no collection finds
      another live counted handle to the same message. */
  lemma {:induction false} RunAndRegistry(w: World, ops: seq<Op>)
    requires Inv(w) && AllRegistered(w) && LegalRun(w, ops)
    ensures Always(AllRegistered, w, ops) <==> AtEachGc(OnlyHandle, w, ops)
    decreases |ops|
  {
    if ops == [] {
    } else {
      var w1 := Apply(w, ops[0]);
      OpIsSafe(w, ops[0]);
      if ops[0].GcOp? {
        CollectAndRegistry(w, ops[0].h);
      } else {
        OtherCallsAndRegistry(w, ops[0]);
      }
      if AllRegistered(w1) { RunAndRegistry(w1, ops[1..]); }
    }
  }

  /** A run after which a live counted handle has a message that is not registered: a server, one borrowed element, a
      second handle to it, and that one collected. */
  lemma RegistryExample()
    ensures var ops := [NewOp(1, 10, InitServer([], 0)), SetServersOp(1, [2], [20]), RawGetOp(1, 1, 3), GcOp(3)];
            && LegalRun(START, ops)
            && var w := Run(START, ops);
               2 in w.handles && w.handles[2] == Handle(20, false, true) && 20 in w.heap && 20 !in w.uDatas
  {
  }

  /** Both for every run from the empty state. */
  lemma RunsFromStart(ops: seq<Op>)
    requires LegalRun(START, ops)
    ensures Always(ReportIsSafe, START, ops) <==> AtEachGc(NoNestedRegistered, START, ops)
    ensures Always(AllRegistered, START, ops) <==> AtEachGc(OnlyHandle, START, ops)
  {
    StartIsOk();
    RunAndReport(START, ops);
    RunAndRegistry(START, ops);
  }
}
