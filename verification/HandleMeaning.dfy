/** What single calls do to the message behind a handle, and what a run of them leaves present. */
module HandleMeaning {
  import opened Options
  import opened Ownership
  import opened HandleRuns

  /** Neither an element nor a nested message is present. */
  predicate NothingPresent(n: Node) {
    (n.InitServer? ==> n.size == 0) && (n.ServerActive? ==> !n.present)
  }

  // ---------------------------------------------------------------- single calls

  /** A new message is empty, and its handle accepts exactly the calls of its own kind. */
  lemma NewIsOfItsKind(w: World, h: HandleId, a: Addr, kind: Node, g: HandleId, spare: Addr)
    requires h !in w.handles && g !in w.handles && g != h && a !in w.heap && spare !in w.heap && spare != a
    ensures var w' := New(w, h, a, kind);
            && w'.heap.Keys == w.heap.Keys + {a} && Children(w'.heap[a]) == [] && NothingPresent(w'.heap[a])
            && (Legal(w', GetRemoteOp(h, g, spare)) <==> kind.ServerActive?)
            && (Legal(w', SetRemoteOp(h, g, spare)) <==> kind.ServerActive?)
            && (Legal(w', GetServersOp(h, [])) <==> kind.InitServer?)
            && (Legal(w', SetServersOp(h, [g], [spare])) <==> kind.InitServer?)
            && (forall index :: Legal(w', RawGetOp(h, index, g)) <==> kind.InitServer?)
            && Legal(w', ClearOp(h))
  {
  }

  /** `clear` leaves nothing present in a message of any kind; what it holds stays allocated and owned, and nothing else
      changes. */
  lemma ClearLeavesNothing(w: World, p: Addr)
    requires p in w.heap
    ensures var w' := ClearMessage(w, p);
            && w'.heap.Keys == w.heap.Keys && NothingPresent(w'.heap[p])
            && Children(w'.heap[p]) == Children(w.heap[p])
            && (w'.heap[p].InitServer? <==> w.heap[p].InitServer?)
            && (w'.heap[p].ServerActive? <==> w.heap[p].ServerActive?)
            && (forall q :: q in w.heap && q != p ==> w'.heap[q] == w.heap[q])
            && w' == w.(heap := w'.heap)
  {
    if w.heap[p].ListenConfig? {
    } else {
      assert w.heap.Keys + {p} == w.heap.Keys;
    }
  }

  /** `rawget` gives a handle for an index from 1 to the size, and no other index changes anything. */
  lemma RawGetInRange(w: World, p: Addr, index: int, h: HandleId)
    requires IsServer(w, p) && h !in w.handles
    ensures var w' := RawGet(w, p, index, h);
            && (h in w'.handles <==> 1 <= index <= w.heap[p].size)
            && (h in w'.handles ==> w'.handles[h] == Handle(w.heap[p].elements[index - 1], false, true))
            && (h !in w'.handles ==> w' == w)
            && w'.heap == w.heap
  {
  }

  /** Releasing a slot moves only the last pointer, into the hole; every other pointer stays in its place. */
  lemma SlotIsFilledFromTheEnd(s: seq<Addr>, i: nat)
    requires i < |s|
    ensures var t := WithoutSlot(s, i);
            && |t| == |s| - 1
            && (forall j :: 0 <= j < |t| && j != i ==> t[j] == s[j])
            && (i < |t| ==> t[i] == s[|s| - 1])
  {
  }

  // ---------------------------------------------------------------- what is present after a run

  predicate HasRemote(w: World, p: Addr) { p in w.heap && w.heap[p].ServerActive? && w.heap[p].present }

  /** The call makes the message at `p`, or sets, gets or clears what is nested in it. */
  predicate Decides(w: World, op: Op, p: Addr) {
    match op
    case NewOp(_, a, _) => a == p
    case PushMessageOp(_, a, _) => a == p
    case SetRemoteOp(via, _, _) => Target(w, via) == p
    case GetRemoteOp(via, _, _) => Target(w, via) == p
    case ClearOp(via) => Target(w, via) == p
    case _ => false
  }

  /** The call sets the nested message, or hands over a message that has one. */
  predicate Sets(op: Op) {
    op.SetRemoteOp? || (op.PushMessageOp? && op.node.ServerActive? && op.node.present)
  }

  /** The last call of the run that decides about `p`. */
  function LastDecision(w: World, ops: seq<Op>, p: Addr): Option<Op>
    requires LegalRun(w, ops)
    decreases |ops|
  {
    if ops == [] then None
    else
      var later := LastDecision(Apply(w, ops[0]), ops[1..], p);
      if later.Some? then later else if Decides(w, ops[0], p) then Some(ops[0]) else None
  }

  /** Appending to a list changes no message but the list's own and makes only leaves. */
  lemma {:induction false} SetServersMakesLeaves(w: World, p: Addr, hs: seq<HandleId>, spares: seq<Addr>)
    requires IsServer(w, p) && NewHandles(w, hs) && NewAddresses(w, spares) && |spares| == |hs|
    ensures var w' := SetServers(w, p, hs, spares);
            IsServer(w', p) && forall q :: q in w'.heap && q != p ==>
              (q in w.heap && w'.heap[q] == w.heap[q]) || (q !in w.heap && w'.heap[q] == ListenConfig)
    decreases |hs|
  {
    if hs == [] {
    } else {
      AddOneStep(w, p, hs, spares);
      SetServersMakesLeaves(AddOne(w, p, hs[0], spares[0]), p, hs[1..], spares[1..]);
    }
  }

  lemma OpPresence(w: World, op: Op, p: Addr)
    requires Inv(w) && Legal(w, op) && IsActive(Apply(w, op), p)
    ensures if Decides(w, op, p) then HasRemote(Apply(w, op), p) <==> Sets(op)
            else IsActive(w, p) && (HasRemote(Apply(w, op), p) <==> HasRemote(w, p))
  {
    match op
    case GetServersOp(via, hs) => GetServersEmpties(w, Target(w, via), hs);
    case SetServersOp(via, hs, spares) => SetServersMakesLeaves(w, Target(w, via), hs, spares);
    case _ =>
  }

  lemma {:induction false} RunPresence(w: World, ops: seq<Op>, p: Addr)
    requires Inv(w) && LegalRun(w, ops) && IsActive(Run(w, ops), p)
    ensures var last := LastDecision(w, ops, p);
            if last.Some? then HasRemote(Run(w, ops), p) <==> Sets(last.value)
            else IsActive(w, p) && (HasRemote(Run(w, ops), p) <==> HasRemote(w, p))
    decreases |ops|
  {
    if ops == [] {
    } else {
      var w1 := Apply(w, ops[0]);
      OpIsSafe(w, ops[0]);
      RunPresence(w1, ops[1..], p);
      if LastDecision(w1, ops[1..], p).None? { OpPresence(w, ops[0], p); }
    }
  }

  /** After any run a server active has its nested message exactly if, of the calls that made it or that set, got or
      cleared what is in it, the last one was a set or handed it over with one. */
  lemma PresentIsLastSet(ops: seq<Op>, p: Addr)
    requires LegalRun(START, ops) && IsActive(Run(START, ops), p)
    ensures var last := LastDecision(START, ops, p);
            last.Some? && (HasRemote(Run(START, ops), p) <==> Sets(last.value))
  {
    StartIsOk();
    RunPresence(START, ops, p);
  }
}
