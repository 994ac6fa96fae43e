/** Who owns which message: an abstract heap of messages, the live Lua handles, and the two handle counters. */
module Ownership {
  import opened Options

  type Addr = nat
  type HandleId = nat

  /** The three representative message types: no nested message, repeated nested messages, one optional nested message.
      `elements` is the pointer array of a repeated field; the first `size` pointers are its elements and the others are
      cleared messages that it keeps for reuse. */
  datatype Node =
    | ListenConfig
    | InitServer(elements: seq<Addr>, size: nat)
    | ServerActive(child: Option<Addr>, present: bool)

  /** `counted` tells the handles that went through the counters from those made by `PushMessage`. */
  datatype Handle = Handle(target: Addr, owning: bool, counted: bool)

  /** `uncountedCollected` is history: how many `PushMessage` handles have been collected. */
  datatype World = World(heap: map<Addr, Node>, handles: map<HandleId, Handle>, udataNum: int, uDatas: set<Addr>,
                         uncountedCollected: nat)

  const START := World(map[], map[], 0, {}, 0)

  function Children(n: Node): seq<Addr> {
    match n
    case ListenConfig => []
    case InitServer(elements, _) => elements
    case ServerActive(child, _) => if child.Some? then [child.value] else []
  }

  // ---------------------------------------------------------------- one owner each

  datatype Owner = ByHandle(h: HandleId) | ByParent(p: Addr)

  ghost predicate Owns(w: World, o: Owner, a: Addr) {
    match o
    case ByHandle(h) => h in w.handles && w.handles[h].owning && w.handles[h].target == a
    case ByParent(p) => p in w.heap && a in Children(w.heap[p])
  }

  predicate Distinct(s: seq<Addr>) { forall i, j :: 0 <= i < j < |s| ==> s[i] != s[j] }

  predicate NodeOk(n: Node) {
    && Distinct(Children(n))
    && (n.InitServer? ==> n.size <= |n.elements|)
    && (n.ServerActive? && n.present ==> n.child.Some?)
  }

  /** Nothing but allocated messages is owned, each allocated message has exactly one owner, a nested message is a
      leaf, and every node is well formed. */
  ghost predicate Linear(w: World) {
    && (forall o, a :: Owns(w, o, a) ==> a in w.heap)
    && (forall o, o', a :: Owns(w, o, a) && Owns(w, o', a) ==> o == o')
    && (forall a :: a in w.heap ==> exists o :: Owns(w, o, a))
    && (forall p, a :: Owns(w, ByParent(p), a) ==> w.heap[a].ListenConfig?)
    && (forall p :: p in w.heap ==> NodeOk(w.heap[p]))
  }

  // ---------------------------------------------------------------- the counters

  ghost function CountedHandles(w: World): set<HandleId> { set h | h in w.handles && w.handles[h].counted }

  /** The counter is the number of live counted handles, less the uncounted ones that were collected. */
  ghost predicate LedgerOk(w: World) { w.udataNum == |CountedHandles(w)| - w.uncountedCollected }

  /** Every registered address is the target of a live counted handle. */
  ghost predicate RegisteredAreLive(w: World) {
    forall a :: a in w.uDatas ==> exists h :: h in w.handles && w.handles[h].counted && w.handles[h].target == a
  }

  ghost predicate Inv(w: World) { Linear(w) && LedgerOk(w) && RegisteredAreLive(w) }

  // ---------------------------------------------------------------- what the bindings do

  function Empty(kind: Node): Node {
    match kind
    case ListenConfig => ListenConfig
    case InitServer(_, _) => InitServer([], 0)
    case ServerActive(_, _) => ServerActive(None, false)
  }

  /** The per-type handle push. */
  function Push(w: World, h: HandleId, a: Addr, owning: bool): World {
    w.(handles := w.handles[h := Handle(a, owning, true)], udataNum := w.udataNum + 1, uDatas := w.uDatas + {a})
  }

  function New(w: World, h: HandleId, a: Addr, kind: Node): World {
    Push(w.(heap := w.heap[a := Empty(kind)]), h, a, true)
  }

  /** A message at `a` and the nested messages it holds are allocated. */
  function Allocate(w: World, a: Addr, n: Node): World {
    w.(heap := (w.heap + map c | c in Children(n) :: ListenConfig)[a := n])
  }

  /** `PushMessage` for a message made on the C++ side, with whatever nested messages it holds: an owning handle that
      goes past the counters. */
  function PushMessage(w: World, h: HandleId, a: Addr, n: Node): World {
    Allocate(w, a, n).(handles := w.handles[h := Handle(a, true, false)])
  }

  /** None of the addresses of a message made on the C++ side is in use. */
  predicate NewTree(w: World, a: Addr, n: Node) {
    a !in w.heap && a !in Children(n) && NodeOk(n) && forall c :: c in Children(n) ==> c !in w.heap
  }

  /** `delete`: the message and everything it owns. */
  function Delete(w: World, a: Addr): World
    requires a in w.heap
  {
    w.(heap := w.heap - ({a} + set c | c in Children(w.heap[a])))
  }

  function Forget(w: World, h: HandleId): World
    requires h in w.handles
  {
    w.(handles := w.handles - {h},
       udataNum := w.udataNum - 1,
       uDatas := w.uDatas - {w.handles[h].target},
       uncountedCollected := w.uncountedCollected + if w.handles[h].counted then 0 else 1)
  }

  /** `__gc`. Its precondition on owning handles is what the invariant has to provide. */
  function Collect(w: World, h: HandleId): World
    requires h in w.handles
    requires w.handles[h].owning ==> w.handles[h].target in w.heap
  {
    Forget(if w.handles[h].owning then Delete(w, w.handles[h].target) else w, h)
  }

  /** `ReleaseLast`: the hole left by the last element is filled with the last cleared message. */
  function WithoutSlot(s: seq<Addr>, i: nat): seq<Addr>
    requires i < |s|
  {
    s[i := s[|s| - 1]][..|s| - 1]
  }

  predicate IsServer(w: World, p: Addr) {
    p in w.heap && w.heap[p].InitServer? && w.heap[p].size <= |w.heap[p].elements|
  }

  /** One round of `get_servers`. */
  function GetOne(w: World, p: Addr, h: HandleId): World
    requires IsServer(w, p) && w.heap[p].size > 0
  {
    var InitServer(elements, size) := w.heap[p];
    Push(w.(heap := w.heap[p := InitServer(WithoutSlot(elements, size - 1), size - 1)]), h, elements[size - 1], true)
  }

  /** `get_servers` with the handles for entries 1..n: the last element is released first. */
  function GetServers(w: World, p: Addr, hs: seq<HandleId>): World
    requires IsServer(w, p) && w.heap[p].size == |hs|
    decreases |hs|
  {
    if hs == [] then w else GetServers(GetOne(w, p, hs[|hs| - 1]), p, hs[..|hs| - 1])
  }

  /** `Add`: a cleared message is reused if there is one, else `spare` is allocated. */
  function AddOne(w: World, p: Addr, h: HandleId, spare: Addr): World
    requires IsServer(w, p)
  {
    var InitServer(elements, size) := w.heap[p];
    if size < |elements| then
      Push(w.(heap := w.heap[p := InitServer(elements, size + 1)]), h, elements[size], false)
    else
      Push(w.(heap := w.heap[spare := ListenConfig][p := InitServer(elements + [spare], size + 1)]), h, spare, false)
  }

  /** `set_servers(n)` with the handles for entries 1..n and the addresses the allocator would give out. */
  function SetServers(w: World, p: Addr, hs: seq<HandleId>, spare: seq<Addr>): World
    requires IsServer(w, p) && |spare| == |hs|
    decreases |hs|
  {
    if hs == [] then w
    else
      var w' := AddOne(w, p, hs[0], spare[0]);
      SetServers(w', p, hs[1..], spare[1..])
  }

  /** `rawget_servers`: an index outside 1..size is an error and changes nothing. */
  function RawGet(w: World, p: Addr, index: int, h: HandleId): World
    requires IsServer(w, p)
  {
    if index < 1 || index > w.heap[p].size then w else Push(w, h, w.heap[p].elements[index - 1], false)
  }

  /** `clear`: elements become cleared messages; the nested message is kept and loses its has-bit. */
  function ClearMessage(w: World, p: Addr): World
    requires p in w.heap
  {
    match w.heap[p]
    case ListenConfig => w
    case InitServer(elements, _) => w.(heap := w.heap[p := InitServer(elements, 0)])
    case ServerActive(child, _) => w.(heap := w.heap[p := ServerActive(child, false)])
  }

  predicate IsActive(w: World, p: Addr) { p in w.heap && w.heap[p].ServerActive? }

  /** `mutable_remoteserver`. */
  function Mutable(w: World, p: Addr, spare: Addr): World
    requires IsActive(w, p)
  {
    match w.heap[p].child
    case Some(c) => w.(heap := w.heap[p := ServerActive(Some(c), true)])
    case None => w.(heap := w.heap[spare := ListenConfig][p := ServerActive(Some(spare), true)])
  }

  function ChildOr(w: World, p: Addr, spare: Addr): Addr
    requires IsActive(w, p)
  {
    match w.heap[p].child
    case Some(c) => c
    case None => spare
  }

  /** `get_remoteServer`: mutable, release, owning handle. */
  function GetRemote(w: World, p: Addr, h: HandleId, spare: Addr): World
    requires IsActive(w, p)
  {
    var w' := Mutable(w, p, spare);
    Push(w'.(heap := w'.heap[p := ServerActive(None, false)]), h, ChildOr(w, p, spare), true)
  }

  /** `set_remoteServer`: mutable, borrowed handle. */
  function SetRemote(w: World, p: Addr, h: HandleId, spare: Addr): World
    requires IsActive(w, p)
  {
    Push(Mutable(w, p, spare), h, ChildOr(w, p, spare), false)
  }

  // ---------------------------------------------------------------- the counters are kept

  lemma PushKeepsCounters(w: World, h: HandleId, a: Addr, owning: bool)
    requires LedgerOk(w) && RegisteredAreLive(w) && h !in w.handles
    ensures LedgerOk(Push(w, h, a, owning)) && RegisteredAreLive(Push(w, h, a, owning))
  {
    var w' := Push(w, h, a, owning);
    assert CountedHandles(w') == CountedHandles(w) + {h};
    forall b | b in w'.uDatas ensures exists g :: g in w'.handles && w'.handles[g].counted && w'.handles[g].target == b {
      if b == a {
        assert h in w'.handles && w'.handles[h].counted && w'.handles[h].target == b;
      } else {
        var g :| g in w.handles && w.handles[g].counted && w.handles[g].target == b;
        assert g in w'.handles && w'.handles[g].counted && w'.handles[g].target == b;
      }
    }
  }

  lemma ForgetKeepsCounters(w: World, h: HandleId)
    requires LedgerOk(w) && RegisteredAreLive(w) && h in w.handles
    ensures LedgerOk(Forget(w, h)) && RegisteredAreLive(Forget(w, h))
  {
    var w' := Forget(w, h);
    assert CountedHandles(w') == CountedHandles(w) - {h};
    forall b | b in w'.uDatas ensures exists g :: g in w'.handles && w'.handles[g].counted && w'.handles[g].target == b {
      var g :| g in w.handles && w.handles[g].counted && w.handles[g].target == b;
      assert g in w'.handles && w'.handles[g].counted && w'.handles[g].target == b;
    }
  }

  lemma PushMessageKeepsCounters(w: World, h: HandleId, a: Addr, n: Node)
    requires LedgerOk(w) && RegisteredAreLive(w) && h !in w.handles
    ensures LedgerOk(PushMessage(w, h, a, n)) && RegisteredAreLive(PushMessage(w, h, a, n))
  {
    var w' := PushMessage(w, h, a, n);
    assert CountedHandles(w') == CountedHandles(w);
    forall b | b in w'.uDatas ensures exists g :: g in w'.handles && w'.handles[g].counted && w'.handles[g].target == b {
      var g :| g in w.handles && w.handles[g].counted && w.handles[g].target == b;
      assert g in w'.handles && w'.handles[g].counted && w'.handles[g].target == b;
    }
  }

  // ---------------------------------------------------------------- ownership is kept

  /** The nodes of `w'` are well formed, and a message that was a leaf still is one. */
  ghost predicate NodesKept(w: World, w': World) {
    && (forall p :: p in w'.heap ==> NodeOk(w'.heap[p]))
    && (forall p :: p in w.heap && p in w'.heap ==> w.heap[p].ListenConfig? == w'.heap[p].ListenConfig?)
  }

  /** Message `a` is new and owned by `o`; nothing else changes hands. */
  lemma Gain(w: World, w': World, o: Owner, a: Addr)
    requires Linear(w) && NodesKept(w, w') && a !in w.heap && w'.heap.Keys == w.heap.Keys + {a}
    requires o.ByParent? ==> w'.heap[a].ListenConfig?
    requires forall o', b :: Owns(w', o', b) <==> Owns(w, o', b) || (o' == o && b == a)
    ensures Linear(w')
  {
    hide Owns, NodeOk;
    forall b | b in w'.heap ensures exists o' :: Owns(w', o', b) {
      if b == a {
        assert Owns(w', o, b);
      } else {
        var o' :| Owns(w, o', b);
        assert Owns(w', o', b);
      }
    }
  }

  /** Message `a` passes to owner `o`; nothing else changes hands. */
  lemma Move(w: World, w': World, o: Owner, a: Addr)
    requires Linear(w) && NodesKept(w, w') && a in w.heap && w'.heap.Keys == w.heap.Keys
    requires o.ByParent? ==> w'.heap[a].ListenConfig?
    requires forall o', b :: Owns(w', o', b) <==> (b != a && Owns(w, o', b)) || (o' == o && b == a)
    ensures Linear(w')
  {
    hide Owns, NodeOk;
    forall b | b in w'.heap ensures exists o' :: Owns(w', o', b) {
      if b == a {
        assert Owns(w', o, b);
      } else {
        var o' :| Owns(w, o', b);
        assert Owns(w', o', b);
      }
    }
  }

  /** The messages in `gone` are freed; nothing else changes hands. */
  lemma Lose(w: World, w': World, gone: set<Addr>)
    requires Linear(w) && NodesKept(w, w') && w'.heap.Keys == w.heap.Keys - gone
    requires forall o, b :: Owns(w', o, b) <==> Owns(w, o, b) && b !in gone
    ensures Linear(w')
  {
    hide Owns, NodeOk;
    forall b | b in w'.heap ensures exists o :: Owns(w', o, b) {
      var o :| Owns(w, o, b);
      assert Owns(w', o, b);
    }
  }

  lemma NewKeeps(w: World, h: HandleId, a: Addr, kind: Node, counted: bool)
    requires Linear(w) && h !in w.handles && a !in w.heap
    ensures Linear(w.(heap := w.heap[a := Empty(kind)], handles := w.handles[h := Handle(a, true, counted)]))
  {
    Gain(w, w.(heap := w.heap[a := Empty(kind)], handles := w.handles[h := Handle(a, true, counted)]), ByHandle(h), a);
  }

  /** A new message and its nested messages come with one owner each. */
  lemma PushMessageKeeps(w: World, h: HandleId, a: Addr, n: Node)
    requires Linear(w) && h !in w.handles && NewTree(w, a, n)
    ensures Linear(PushMessage(w, h, a, n))
  {
    var w' := PushMessage(w, h, a, n);
    forall o, b ensures Owns(w', o, b) <==> Owns(w, o, b) || (if o == ByHandle(h) then b == a
                                                              else o == ByParent(a) && b in Children(n))
    {
      PushedOwners(w, h, a, n, o, b);
    }
    PushedHeap(w, h, a, n);
    GainTree(w, w', h, a, n);
  }

  lemma PushedHeap(w: World, h: HandleId, a: Addr, n: Node)
    requires Linear(w) && NewTree(w, a, n)
    ensures var w' := PushMessage(w, h, a, n);
            && w'.heap.Keys == w.heap.Keys + {a} + (set c | c in Children(n))
            && w'.heap[a] == n && (forall c :: c in Children(n) ==> w'.heap[c] == ListenConfig)
            && (forall p :: p in w.heap ==> w'.heap[p] == w.heap[p])
  {
  }

  lemma GainTree(w: World, w': World, h: HandleId, a: Addr, n: Node)
    requires Linear(w) && NewTree(w, a, n) && w'.heap.Keys == w.heap.Keys + {a} + (set c | c in Children(n))
    requires w'.heap[a] == n && (forall c :: c in Children(n) ==> w'.heap[c] == ListenConfig)
    requires forall p :: p in w.heap ==> w'.heap[p] == w.heap[p]
    requires forall o, b :: Owns(w', o, b) <==> Owns(w, o, b) || (if o == ByHandle(h) then b == a
                                                                  else o == ByParent(a) && b in Children(n))
    ensures Linear(w')
  {
    assert NodeOk(ListenConfig);
    hide Owns, NodeOk;
    forall b | b in w'.heap ensures exists o :: Owns(w', o, b) {
      if b == a {
        assert Owns(w', ByHandle(h), b);
      } else if b in Children(n) {
        assert Owns(w', ByParent(a), b);
      } else {
        var o :| Owns(w, o, b);
        assert Owns(w', o, b);
      }
    }
  }

  lemma PushedOwners(w: World, h: HandleId, a: Addr, n: Node, o: Owner, b: Addr)
    requires Linear(w) && h !in w.handles && NewTree(w, a, n)
    ensures Owns(PushMessage(w, h, a, n), o, b) <==>
              Owns(w, o, b) || (if o == ByHandle(h) then b == a else o == ByParent(a) && b in Children(n))
  {
  }

  /** Who owns what does not depend on the counters. */
  lemma CountersDoNotOwn(w: World, w': World)
    requires Linear(w) && w'.heap == w.heap && w'.handles == w.handles
    ensures Linear(w')
  {
    Lose(w, w', {});
  }

  lemma BorrowKeeps(w: World, h: HandleId, a: Addr)
    requires Linear(w) && h !in w.handles
    ensures Linear(Push(w, h, a, false))
  {
    Lose(w, Push(w, h, a, false), {});
  }

  /** A node is replaced by one with the same children. */
  lemma SameChildrenKeeps(w: World, p: Addr, n: Node)
    requires Linear(w) && p in w.heap && NodeOk(n) && Children(n) == Children(w.heap[p])
    requires n.ListenConfig? == w.heap[p].ListenConfig?
    ensures Linear(w.(heap := w.heap[p := n]))
  {
    Lose(w, w.(heap := w.heap[p := n]), {});
  }

  /** A parent gets one more child, newly allocated. */
  lemma AllocateKeeps(w: World, p: Addr, n: Node, a: Addr)
    requires Linear(w) && p in w.heap && a !in w.heap && NodeOk(n) && !n.ListenConfig?
    requires !w.heap[p].ListenConfig? && Children(n) == Children(w.heap[p]) + [a]
    ensures Linear(w.(heap := w.heap[a := ListenConfig][p := n]))
  {
    Gain(w, w.(heap := w.heap[a := ListenConfig][p := n]), ByParent(p), a);
  }

  /** A child passes from its parent to a new owning handle. */
  lemma ReleaseKeeps(w: World, p: Addr, n: Node, a: Addr, h: HandleId)
    requires Linear(w) && p in w.heap && a in Children(w.heap[p]) && h !in w.handles
    requires NodeOk(n) && !n.ListenConfig?
    requires forall c :: c in Children(n) <==> c in Children(w.heap[p]) && c != a
    ensures Linear(Push(w.(heap := w.heap[p := n]), h, a, true))
  {
    assert Owns(w, ByParent(p), a);
    var w' := Push(w.(heap := w.heap[p := n]), h, a, true);
    forall o', b ensures Owns(w', o', b) <==> (b != a && Owns(w, o', b)) || (o' == ByHandle(h) && b == a) {
      if b == a && Owns(w, o', b) { assert o' == ByParent(p); }
      if b == a && o' != ByHandle(h) && Owns(w', o', b) { assert Owns(w, o', b); }
    }
    Move(w, Push(w.(heap := w.heap[p := n]), h, a, true), ByHandle(h), a);
  }

  lemma WithoutSlotRemoves(s: seq<Addr>, i: nat)
    requires i < |s| && Distinct(s)
    ensures Distinct(WithoutSlot(s, i)) && |WithoutSlot(s, i)| == |s| - 1
    ensures forall c :: c in WithoutSlot(s, i) <==> c in s && c != s[i]
    ensures WithoutSlot(s, i)[..i] == s[..i]
  {
    var t := WithoutSlot(s, i);
    forall c | c in s && c != s[i] ensures c in t {
      var j :| 0 <= j < |s| && s[j] == c;
      if j == |s| - 1 { assert t[i] == c; } else { assert t[j] == c; }
    }
  }

  /** Collecting an owning handle frees its message and the message's children, each still allocated and none owned
      by anyone else. */
  lemma CollectKeeps(w: World, h: HandleId)
    requires Linear(w) && h in w.handles
    ensures w.handles[h].owning ==> w.handles[h].target in w.heap
    ensures w.handles[h].owning ==>
              forall c :: c in Children(w.heap[w.handles[h].target]) ==> c in w.heap && c != w.handles[h].target
    ensures Linear(Collect(w, h))
  {
    var a := w.handles[h].target;
    if w.handles[h].owning {
      assert Owns(w, ByHandle(h), a);
      forall c | c in Children(w.heap[a]) ensures c in w.heap && c != a && w.heap[c].ListenConfig? {
        assert Owns(w, ByParent(a), c);
      }
      var gone := {a} + set c | c in Children(w.heap[a]);
      forall o, b ensures Owns(Collect(w, h), o, b) <==> Owns(w, o, b) && b !in gone {
        DeletedOwners(w, h, o, b);
      }
      Lose(w, Collect(w, h), gone);
    } else {
      Lose(w, Collect(w, h), {});
    }
  }

  lemma DeletedOwners(w: World, h: HandleId, o: Owner, b: Addr)
    requires Linear(w) && h in w.handles && w.handles[h].owning && w.handles[h].target in w.heap
    ensures var a := w.handles[h].target;
            Owns(Collect(w, h), o, b) <==> Owns(w, o, b) && b != a && b !in Children(w.heap[a])
  {
    var a := w.handles[h].target;
    assert Owns(w, ByHandle(h), a);
    if b in Children(w.heap[a]) {
      assert Owns(w, ByParent(a), b);
    }
    forall c | c in Children(w.heap[a]) ensures c in w.heap && Children(w.heap[c]) == [] {
      assert Owns(w, ByParent(a), c);
    }
    if Owns(Collect(w, h), o, b) {
      assert Owns(w, o, b) && o != ByHandle(h) && o != ByParent(a);
    }
  }
}
