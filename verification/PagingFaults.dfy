/** Runs in which mapped frames come from the page allocator and go back to it, as demand paging does. */
module PagingFaults {
  import opened Wrappers
  import opened Linaddr
  import opened PageTree
  import opened Paging
  import opened PagingRuns

  /** A call with a frame of the caller's own; the fault handler's map_page of a new page; free_page of such a page. */
  datatype Act = Call(op: Op) | Fault(virt: nat, flags: nat) | Release(frame: nat)

  /** The tables, and the frames taken from the allocator for data. */
  datatype Kernel = Kernel(s: Machine, taken: set<nat>)

  function Do(k: Kernel, act: Act): Outcome<Kernel> {
    match act
    case Call(op) =>
      var s :- Step(k.s, op);
      Done(Kernel(s, k.taken))
    case Fault(virt, flags) =>
      var (s1, f) :- AllocPage(k.s);
      var s :- MapPage(s1, virt, f, flags);
      Done(Kernel(s, k.taken + {f}))
    case Release(frame) => Done(Kernel(FreePage(k.s, frame), k.taken - {frame}))
  }

  /** The same on the plain map: a fault maps the frame that is next to be handed out. */
  function OpsOf(k: Kernel, act: Act): seq<Op> {
    match act
    case Call(op) => [op]
    case Fault(virt, flags) => if k.s.pool == [] then [] else [Map(virt, k.s.pool[|k.s.pool| - 1], flags)]
    case Release(_) => []
  }

  function Exec(k: Kernel, acts: seq<Act>): Outcome<Kernel>
    decreases |acts|
  {
    if acts == [] then Done(k) else
    var k1 :- Do(k, acts[0]);
    Exec(k1, acts[1..])
  }

  function Trace(k: Kernel, acts: seq<Act>): seq<Op>
    decreases |acts|
  {
    if acts == [] || Do(k, acts[0]).Panic? then []
    else OpsOf(k, acts[0]) + Trace(Do(k, acts[0]).value, acts[1..])
  }

  /** No page is mapped to the frame. */
  predicate NotMapped(a: Space, f: nat) {
    forall v :: v in a.pages ==> EntryAddr(a.pages[v]) != f
  }

  /** What callers keep to: managed addresses, frames of their own, and only unmapped frames given back. */
  ghost predicate ActOk(k: Kernel, a: Space, slots: set<Index>, act: Act) {
    match act
    case Call(op) => OpOk(k.s, slots, op)
    case Fault(virt, flags) => Pml4i(virt) in slots && FlagsOk(flags)
    case Release(frame) => frame in k.taken && frame !in a.holds && NotMapped(a, frame)
  }

  ghost predicate ActsOk(k: Kernel, a: Space, slots: set<Index>, acts: seq<Act>)
    decreases |acts|
  {
    acts != [] ==>
      && ActOk(k, a, slots, acts[0])
      && (Do(k, acts[0]).Done? && RunSpace(a, OpsOf(k, acts[0])).Done? ==>
            ActsOk(Do(k, acts[0]).value, RunSpace(a, OpsOf(k, acts[0])).value, slots, acts[1..]))
  }

  /** The tables stand for the plain map, and each frame of all is free, a table, or taken and neither of these. */
  ghost predicate Shared(k: Kernel, a: Space, slots: set<Index>, all: set<nat>) {
    && Models(k.s, slots, a)
    && (forall f :: f in a.holds ==> !Owned(k.s, f))
    && (forall f :: f in k.taken ==> PhysPage(f) && !Owned(k.s, f))
    && (forall f: nat :: f in all <==> Owned(k.s, f) || f in k.taken)
  }

  /** The walks outside the managed slots are as before. */
  ghost predicate SameElsewhere(s: Machine, s': Machine, slots: set<Index>) {
    && s'.root == s.root
    && forall v: VPage :: v.i4 !in slots && v.i4 != RECURSIVE_SLOT ==> Walk(s'.mem, s.root, v) == Walk(s.mem, s.root, v)
  }

  // ---- taking a frame and giving it back ----

  lemma FewerFree(s: Machine, s1: Machine, slots: set<Index>, f: nat)
    requires Inv(s, slots) && s.pool == s1.pool + [f] && s1 == s.(pool := s1.pool)
    ensures Inv(s1, slots) && f !in s1.pool && f in s.pool
  {
    assert s.pool[|s1.pool|] == f && forall i :: 0 <= i < |s1.pool| ==> s1.pool[i] == s.pool[i];
    hide Present, Large, EntryAddr, PhysPage, TreeShaped, TableAt;
    assert PoolOk(s1);
    forall n ensures T(s1, n) == T(s, n) {
    }
    assert CountsOk(s1, slots, Root) && EntriesOk(s1, slots);
  }

  /** Taking the next frame changes no table. */
  lemma Taken(k: Kernel, a: Space, slots: set<Index>, all: set<nat>)
    requires Shared(k, a, slots, all) && k.s.pool != []
    ensures var (s1, f) := AllocPage(k.s).value;
      Shared(Kernel(s1, k.taken + {f}), a, slots, all) && f !in a.holds && PhysPage(f)
  {
    var (s1, f) := AllocPage(k.s).value;
    assert k.s.pool == s1.pool + [f];
    FewerFree(k.s, s1, slots, f);
    assert PhysPage(f) && k.s.refs(f) == 0 && !IsTable(k.s.mem, k.s.root, f);
    hide Present, Large, EntryAddr, PhysPage, Walk, IsTable, Inv;
    assert forall g :: Owned(k.s, g) <==> Owned(s1, g) || g == f;
  }

  /** A present entry of a managed page table is a page of the plain map. */
  lemma LeafIsPage(s: Machine, slots: set<Index>, a: Space, n: Node, i: Index)
    requires Models(s, slots, a) && Managed(slots, n) && T(s, n).Some? && n.Depth() >= 3
    requires Present(s.mem(T(s, n).value, i))
    ensures exists v :: v in a.pages && a.pages[v] == s.mem(T(s, n).value, i)
  {
    assert n.parent.Depth() < 3;
    assert n.parent.Depth() == 2 && n.parent.parent.Depth() == 1 && n.parent.parent.parent.Depth() == 0;
    var v := VPage(n.parent.parent.i, n.parent.i, n.i, i);
    assert n == Pt(v) && n.Slot() == v.i4;
    WalkByTables(s.mem, s.root, v);
    assert v in a.pages;
  }

  lemma MoreFree(s: Machine, slots: set<Index>, a: Space, f: nat)
    requires Models(s, slots, a) && DataFrame(s, f) && PhysPage(f) && s.refs(f) == 0 && NotMapped(a, f)
    ensures Inv(FreePage(s, f), slots)
  {
    var s1 := FreePage(s, f);
    hide Present, Large, EntryAddr, PhysPage, TreeShaped, TableAt;
    assert PoolOk(s1);
    forall n ensures T(s1, n) == T(s, n) {
    }
    assert CountsOk(s1, slots, Root);
    forall n, i: Index | Managed(slots, n) && T(s, n).Some? && n.Depth() >= 3 && Present(s.mem(T(s, n).value, i))
      ensures EntryAddr(s.mem(T(s, n).value, i)) != f
    {
      LeafIsPage(s, slots, a, n, i);
    }
    assert EntriesOk(s1, slots);
  }

  /** A frame given back is free again. */
  lemma Released(k: Kernel, a: Space, slots: set<Index>, all: set<nat>, f: nat)
    requires Shared(k, a, slots, all) && ActOk(k, a, slots, Release(f))
    ensures Shared(Kernel(FreePage(k.s, f), k.taken - {f}), a, slots, all)
    ensures SameElsewhere(k.s, FreePage(k.s, f), slots)
  {
    MoreFree(k.s, slots, a, f);
    hide Present, Large, EntryAddr, PhysPage, Walk, IsTable, Inv, NotMapped;
    var s1 := FreePage(k.s, f);
    assert forall g :: Owned(s1, g) <==> Owned(k.s, g) || g == f;
  }

  // ---- the acts ----

  /** A call with a frame that is neither free nor a table. */
  lemma Called(k: Kernel, a: Space, slots: set<Index>, all: set<nat>, op: Op)
    requires Shared(k, a, slots, all) && OpOk(k.s, slots, op) && Step(k.s, op).Done?
    ensures StepSpace(a, op).Done?
    ensures Shared(Kernel(Step(k.s, op).value, k.taken), StepSpace(a, op).value, slots, all)
    ensures SameElsewhere(k.s, Step(k.s, op).value, slots)
  {
    StepRefines(k.s, slots, a, op);
    hide Step, Models, PhysPage, IsTable, EntryAddr, FlagsOk, Pml4i, Pdpti, Pdi, Pti, Walk;
  }

  /** A frame that was free is mapped nowhere, so the page gets it. */
  lemma FaultMaps(s: Machine, a: Space, slots: set<Index>, f: nat, virt: nat, flags: nat)
    requires Models(s, slots, a) && f in s.pool && Pml4i(virt) in slots && virt != 0 && FlagsOk(flags)
    ensures var a' := StepSpace(a, Map(virt, f, flags)).value;
      && PageOf(virt) in a'.pages
      && var w := a'.pages[PageOf(virt)]; IsPage(Some(Leaf4K(w, RightsIn(w))), f, flags)
  {
    ManagedWalk(s, slots, PageOf(virt));
    assert PhysPage(f);
    LeafWordFacts(f, flags);
    hide Inv, Walk, Pml4i, Pdpti, Pdi, Pti;
  }

  lemma FewOps(a: Space, op: Op)
    ensures RunSpace(a, []) == Done(a) && RunSpace(a, [op]) == StepSpace(a, op)
  {
  }

  lemma FaultRefines(k: Kernel, a: Space, slots: set<Index>, all: set<nat>, virt: nat, flags: nat)
    requires Shared(k, a, slots, all) && ActOk(k, a, slots, Fault(virt, flags)) && Do(k, Fault(virt, flags)).Done?
    ensures var k', f := Do(k, Fault(virt, flags)).value, k.s.pool[|k.s.pool| - 1];
      && f in k'.taken && f !in k.taken && StepSpace(a, Map(virt, f, flags)).Done?
      && Shared(k', StepSpace(a, Map(virt, f, flags)).value, slots, all) && SameElsewhere(k.s, k'.s, slots)
      && IsPage(Walk(k'.s.mem, k'.s.root, PageOf(virt)), f, flags)
  {
    var (s1, f) := AllocPage(k.s).value;
    Taken(k, a, slots, all);
    FaultMaps(k.s, a, slots, f, virt, flags);
    assert f !in k.taken && FrameOf(f) == f && PageOf(virt).i4 in slots;
    hide MapPage, UnmapPage, PageOf, Pml4i, LeafWord, EntryAddr, Inv, Walk, IsTable, FlagsOk, RightsIn, IsPage;
    Called(Kernel(s1, k.taken + {f}), a, slots, all, Map(virt, f, flags));
    hide MapSpace, Owned, FrameOf, PhysPage;
  }

  /** Each act is the matching step on the plain map, and no frame is lost or doubled. */
  lemma ActRefines(k: Kernel, a: Space, slots: set<Index>, all: set<nat>, act: Act)
    requires Shared(k, a, slots, all) && ActOk(k, a, slots, act) && Do(k, act).Done?
    ensures RunSpace(a, OpsOf(k, act)).Done?
    ensures Shared(Do(k, act).value, RunSpace(a, OpsOf(k, act)).value, slots, all)
    ensures SameElsewhere(k.s, Do(k, act).value.s, slots)
  {
    hide Shared, SameElsewhere, RunSpace, MapPage, Step, StepSpace, OpOk;
    match act
    case Call(op) =>
      Called(k, a, slots, all, op);
      FewOps(a, op);
    case Fault(virt, flags) =>
      FaultRefines(k, a, slots, all, virt, flags);
      FewOps(a, Map(virt, k.s.pool[|k.s.pool| - 1], flags));
    case Release(frame) =>
      Released(k, a, slots, all, frame);
      FewOps(a, Unmap(0));
  }

  lemma {:induction false} RunConcat(a: Space, ops1: seq<Op>, ops2: seq<Op>)
    requires RunSpace(a, ops1).Done?
    ensures RunSpace(a, ops1 + ops2) == RunSpace(RunSpace(a, ops1).value, ops2)
    decreases |ops1|
  {
    hide StepSpace;
    if ops1 == [] {
      assert ops1 + ops2 == ops2;
    } else {
      assert (ops1 + ops2)[1..] == ops1[1..] + ops2;
      RunConcat(StepSpace(a, ops1[0]).value, ops1[1..], ops2);
    }
  }

  /** Every run with faults and frames given back is a run on the plain map. The hardware translates each managed
    * page as the map says and all others as before, and each frame stays free, a table or taken, never two of these. */
  lemma {:induction false} ExecRefines(k: Kernel, a: Space, slots: set<Index>, all: set<nat>, acts: seq<Act>)
    requires Shared(k, a, slots, all) && ActsOk(k, a, slots, acts) && Exec(k, acts).Done?
    ensures RunSpace(a, Trace(k, acts)).Done?
    ensures Shared(Exec(k, acts).value, RunSpace(a, Trace(k, acts)).value, slots, all)
    ensures SameElsewhere(k.s, Exec(k, acts).value.s, slots)
    decreases |acts|
  {
    hide Shared, SameElsewhere, RunSpace, Do, OpsOf, ActOk;
    if acts == [] {
      FewOps(a, Unmap(0));
      ElsewhereTrans(k.s, k.s, k.s, slots);
    } else {
      ActRefines(k, a, slots, all, acts[0]);
      var k1, a1 := Do(k, acts[0]).value, RunSpace(a, OpsOf(k, acts[0])).value;
      ExecRefines(k1, a1, slots, all, acts[1..]);
      RunConcat(a, OpsOf(k, acts[0]), Trace(k1, acts[1..]));
      ElsewhereTrans(k.s, k1.s, Exec(k1, acts[1..]).value.s, slots);
    }
  }

  lemma ElsewhereTrans(s1: Machine, s2: Machine, s3: Machine, slots: set<Index>)
    ensures SameElsewhere(s1, s1, slots)
    ensures SameElsewhere(s1, s2, slots) && SameElsewhere(s2, s3, slots) ==> SameElsewhere(s1, s3, slots)
  {
  }
}
