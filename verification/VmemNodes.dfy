/** What the calls of kernel/src/vmem.c do to the list nodes, and runs of both calls, on values. */
module VmemNodes {
  import opened Wrappers
  import opened Arith
  import opened Linaddr
  import opened Vmem

  // ---- what the calls do to the list nodes ----

  /** A change of the node list: none, the first spare node put in at k, or node k freed. */
  datatype Edit = Keep | Insert(k: nat) | Remove(k: nat)

  predicate Applies<T>(e: Edit, nodes: seq<T>, spare: seq<T>) {
    && (e.Insert? ==> e.k <= |nodes| && spare != [])
    && (e.Remove? ==> e.k < |nodes|)
  }

  /** The list nodes and the spare nodes, each in order, after the change. */
  function Edited<T>(e: Edit, nodes: seq<T>, spare: seq<T>): (seq<T>, seq<T>)
    requires Applies(e, nodes, spare)
  {
    match e
    case Keep => (nodes, spare)
    case Insert(k) => (Inserted(nodes, k, spare[0]), spare[1..])
    case Remove(k) => (Removed(nodes, k), [nodes[k]] + spare)
  }

  function FillEdit(areas: seq<Area>, j: nat, len: nat, flags: nat): Edit
    requires j + 1 < |areas|
  {
    var addr := areas[j].End();
    var joinsRight := addr + len == areas[j + 1].base && areas[j + 1].flags == flags;
    if areas[j].flags == flags then if joinsRight then Remove(j + 1) else Keep
    else if joinsRight then Keep
    else Insert(Before(areas, addr))
  }

  /** What vmalloc_at does to the nodes of a list in order. */
  function VmallocEdit(areas: seq<Area>, start: nat, end: nat, len: nat, flags: nat): Edit {
    if areas == [] then Insert(0)
    else if |areas| == 1 then Insert(if start + len <= areas[0].base then 0 else 1)
    else
      var (j, found) := Search(areas, 0, start, end, len);
      if found then FillEdit(areas, j, len, flags) else Insert(j + 1)
  }

  function VfreeEdit(areas: seq<Area>, addr: nat, len: nat): Edit {
    if areas == [] then Keep
    else
      var k := Holder(areas, 0, addr);
      if addr == areas[k].base && len == areas[k].size then Remove(k)
      else if addr == areas[k].base || addr + len == areas[k].End() then Keep
      else Insert(k + 1)
  }

  /** No node is lost or doubled. */
  lemma EditConserves<T>(e: Edit, nodes: seq<T>, spare: seq<T>)
    requires Applies(e, nodes, spare)
    ensures var (nodes', spare') := Edited(e, nodes, spare);
      multiset(nodes') + multiset(spare') == multiset(nodes) + multiset(spare)
  {
    match e
    case Keep =>
    case Insert(k) =>
      assert nodes == nodes[..k] + nodes[k..];
      assert spare == [spare[0]] + spare[1..];
    case Remove(k) =>
      assert nodes == nodes[..k] + [nodes[k]] + nodes[k + 1..];
  }

  /** Every node of either list comes from one of the two lists. */
  lemma DrawnFrom<T>(e: Edit, nodes: seq<T>, spare: seq<T>)
    requires Applies(e, nodes, spare)
    ensures var (nodes', spare') := Edited(e, nodes, spare);
      forall n :: n in nodes' || n in spare' ==> n in nodes || n in spare
  {
  }

  /** Without a join to the right vmalloc_at inserts an area of its own or extends the area on its left. */
  lemma VmallocEditIs(vm: Vm, start: nat, end: nat, npages: nat, flags: nat, vm': Vm, addr: nat) returns (j: nat)
    requires ListOk(vm.areas) && npages > 0
    requires VmallocAt(vm, start, end, npages, flags) == Done((vm', addr))
    requires !JoinsRight(vm.areas, start, end, npages * PAGE_SIZE, flags)
    ensures var e, len := VmallocEdit(vm.areas, start, end, npages * PAGE_SIZE, flags), npages * PAGE_SIZE;
      && !e.Remove?
      && (e.Insert? ==>
        e.k <= |vm.areas| && vm.spare > 0 && vm'.areas == Inserted(vm.areas, e.k, Area(addr, len, flags)))
      && (e.Keep? ==> j < |vm.areas| && addr == vm.areas[j].End() && vm'.areas == Extended(vm.areas, j, len))
  {
    hide ListOk, Inserted;
    var len := npages * PAGE_SIZE;
    j := 0;
    if |vm.areas| > 1 {
      var (last, found) := Search(vm.areas, 0, start, end, len);
      j := last;
      if !found {
        LastStop(vm.areas, start, end, len);
        assert vm.areas[..j + 1] == vm.areas;
      }
    }
  }

  /** vfree of the range just returned puts every list node and every spare node back where it was, in order,
    * unless the range was merged with the area to its right. */
  lemma VfreeUndoesEdit<T>(vm: Vm, start: nat, end: nat, npages: nat, flags: nat, vm': Vm, addr: nat,
                           nodes: seq<T>, spare: seq<T>)
    requires ListOk(vm.areas) && npages > 0 && NoWrap(vm.areas, start, npages * PAGE_SIZE)
    requires VmallocAt(vm, start, end, npages, flags) == Done((vm', addr))
    requires !JoinsRight(vm.areas, start, end, npages * PAGE_SIZE, flags)
    requires |nodes| == |vm.areas| && |spare| == vm.spare
    ensures var e := VmallocEdit(vm.areas, start, end, npages * PAGE_SIZE, flags);
      var e' := VfreeEdit(vm'.areas, addr, npages * PAGE_SIZE);
      && Applies(e, nodes, spare)
      && var (nodes', spare') := Edited(e, nodes, spare);
         Applies(e', nodes', spare') && Edited(e', nodes', spare') == (nodes, spare)
  {
    var len := npages * PAGE_SIZE;
    VmallocCorrect(vm, start, end, npages, flags);
    var j := VmallocEditIs(vm, start, end, npages, flags, vm', addr);
    var e := VmallocEdit(vm.areas, start, end, len, flags);
    hide *;
    if e.Insert? {
      UndoneInsert(vm.areas, e.k, Area(addr, len, flags), nodes, spare);
    } else {
      UndoneExtend(vm.areas, j, len);
    }
  }

  lemma UndoneInsert<T>(areas: seq<Area>, k: nat, a: Area, nodes: seq<T>, spare: seq<T>)
    requires k <= |areas| == |nodes| && spare != [] && ListOk(Inserted(areas, k, a))
    ensures VfreeEdit(Inserted(areas, k, a), a.base, a.size) == Remove(k)
    ensures Removed(Inserted(nodes, k, spare[0]), k) == nodes && Inserted(nodes, k, spare[0])[k] == spare[0]
    ensures [spare[0]] + spare[1..] == spare
    ensures k < |Inserted(nodes, k, spare[0])|
  {
    InsertedAt(areas, k, a);
    HolderFinds(Inserted(areas, k, a), k, a.base);
    InsertedAt(nodes, k, spare[0]);
    assert Removed(Inserted(nodes, k, spare[0]), k) == nodes;
    hide ListOk, Inserted, Holder;
  }

  lemma UndoneExtend(areas: seq<Area>, j: nat, len: nat)
    requires ListOk(areas) && j < |areas| && len > 0 && ListOk(Extended(areas, j, len))
    ensures VfreeEdit(Extended(areas, j, len), areas[j].End(), len) == Keep
  {
    Neighbours(areas, j);
    HolderFinds(Extended(areas, j, len), j, areas[j].End());
  }

  // ---- runs ----

  datatype Call = Alloc(r: Request) | Free(address: nat, npages: nat) {
    function Len(): nat { if Alloc? then r.Len() else npages * PAGE_SIZE }
  }

  /** One call, with the range's address: the one vmalloc_at returns, or the page vfree starts at. */
  function Step(vm: Vm, c: Call): Outcome<(Vm, nat)> {
    match c
    case Alloc(r) => VmallocAt(vm, r.start, r.end, r.npages, r.flags)
    case Free(address, npages) =>
      var vm' :- Vfree(vm, address, npages, 0);
      Done((vm', address - address % PAGE_SIZE))
  }

  function StepEdit(areas: seq<Area>, c: Call): Edit {
    match c
    case Alloc(r) => VmallocEdit(areas, r.start, r.end, r.Len(), r.flags)
    case Free(address, npages) => VfreeEdit(areas, address - address % PAGE_SIZE, npages * PAGE_SIZE)
  }

  /** The calls vfree is right for: a range inside an area reaches the end of it. */
  predicate TailFree(areas: seq<Area>, addr: nat, len: nat) {
    areas != [] ==>
      var a := areas[Holder(areas, 0, addr)];
      a.base <= addr && addr + len < a.End() ==> len == 0 && addr == a.base
  }

  predicate Allowed(vm: Vm, c: Call) {
    c.Free? ==> TailFree(vm.areas, c.address - c.address % PAGE_SIZE, c.Len())
  }

  /** A call that is allowed makes no area from a spare node's stale flags. */
  lemma StaleIsUnused(vm: Vm, c: Call, stale: nat)
    requires c.Free? && Allowed(vm, c)
    ensures Vfree(vm, c.address, c.npages, stale) == Vfree(vm, c.address, c.npages, 0)
  {
  }

  function Run(vm: Vm, calls: seq<Call>): (r: Outcome<(Vm, seq<nat>)>)
    ensures r.Done? ==> |r.value.1| == |calls|
    decreases |calls|
  {
    if calls == [] then Done((vm, [])) else
    var (vm1, addr) :- Step(vm, calls[0]);
    var (vm2, rest) :- Run(vm1, calls[1..]);
    Done((vm2, [addr] + rest))
  }

  predicate RunAllowed(vm: Vm, calls: seq<Call>)
    decreases |calls|
  {
    calls != [] ==>
      Allowed(vm, calls[0]) && (Step(vm, calls[0]).Done? ==> RunAllowed(Step(vm, calls[0]).value.0, calls[1..]))
  }

  /** What one call leaves at address x, where was is what was there. */
  function Effect(was: Option<nat>, c: Call, addr: nat, x: nat): Option<nat> {
    if addr <= x < addr + c.Len() then if c.Alloc? then Some(c.r.flags) else None else was
  }

  /** What the calls leave at address x: the last call whose range holds x decides. */
  function Cover(was: Option<nat>, calls: seq<Call>, addrs: seq<nat>, x: nat): Option<nat>
    requires |addrs| == |calls|
    decreases |calls|
  {
    if calls == [] then was else Cover(Effect(was, calls[0], addrs[0], x), calls[1..], addrs[1..], x)
  }

  /** Each range handed out is free at that time, and at the end every address is as the calls say. */
  ghost predicate Sound(areas: seq<Area>, areas': seq<Area>, calls: seq<Call>, addrs: seq<nat>)
    requires |addrs| == |calls|
  {
    && (forall x: nat :: FlagsAt(areas', x) == Cover(FlagsAt(areas, x), calls, addrs, x))
    && (forall i, x: nat :: 0 <= i < |calls| && calls[i].Alloc? && addrs[i] <= x < addrs[i] + calls[i].Len() ==>
          Cover(FlagsAt(areas, x), calls[..i], addrs[..i], x).None?)
  }

  /** All areas and all requests stay below bound, with room for one more request in 64 bits. */
  ghost predicate Fits(areas: seq<Area>, calls: seq<Call>, bound: nat) {
    && (forall i :: 0 <= i < |areas| ==> areas[i].End() <= bound)
    && (forall c :: c in calls && c.Alloc? ==> Bounded([], [c.r], bound))
  }

  lemma FitsParts(areas: seq<Area>, calls: seq<Call>, bound: nat)
    requires Fits(areas, calls, bound) && calls != []
    ensures Fits(areas, [calls[0]], bound) && Fits([], calls[1..], bound)
  {
  }

  lemma FitsJoined(areas: seq<Area>, calls: seq<Call>, bound: nat)
    requires Fits(areas, [], bound) && Fits([], calls, bound)
    ensures Fits(areas, calls, bound)
  {
  }

  lemma StepCorrect(vm: Vm, c: Call, bound: nat)
    requires ListOk(vm.areas) && Fits(vm.areas, [c], bound) && Allowed(vm, c) && Step(vm, c).Done?
    ensures var (vm', addr) := Step(vm, c).value;
      && ListOk(vm'.areas) && Fits(vm'.areas, [], bound) && |vm'.areas| + vm'.spare == |vm.areas| + vm.spare
      && (forall x: nat :: FlagsAt(vm'.areas, x) == Effect(FlagsAt(vm.areas, x), c, addr, x))
      && (c.Alloc? ==> forall x: nat :: addr <= x < addr + c.Len() ==> FlagsAt(vm.areas, x).None?)
      && (c.Alloc? ==> Chosen(vm.areas, c.r.start, c.r.end, c.Len(), addr))
  {
    hide Chosen;
    var (vm', addr) := Step(vm, c).value;
    if c.Alloc? {
      VmallocChooses(vm, c.r.start, c.r.end, c.r.npages, c.r.flags);
      assert c in [c];
      assert Bounded(vm.areas, [c.r], bound);
      StaysBounded(vm, c.r, bound);
      VmallocCorrect(vm, c.r.start, c.r.end, c.r.npages, c.r.flags);
    } else {
      VfreeCorrect(vm, addr, c.Len(), 0);
      hide VfreeAt;
      FreeStaysBounded(vm.areas, vm'.areas, addr, c.Len(), bound);
    }
  }

  lemma CoveredBelow(areas: seq<Area>, x: nat, bound: nat)
    requires Fits(areas, [], bound) && FlagsAt(areas, x).Some?
    ensures x < bound
  {
    if x >= bound {
      FlagsAtNone(areas, x);
    }
  }

  lemma FreeStaysBounded(areas: seq<Area>, areas': seq<Area>, addr: nat, len: nat, bound: nat)
    requires Fits(areas, [], bound) && ListOk(areas') && Shrinks(areas, areas', addr, len)
    ensures Fits(areas', [], bound)
  {
    forall i | 0 <= i < |areas'| ensures areas'[i].End() <= bound {
      FindsTheArea(areas', i, areas'[i].End() - 1);
      CoveredBelow(areas, areas'[i].End() - 1, bound);
    }
  }

  /** Every run of both calls: the list stays in order and loses no node, each range handed out is free at that
    * time, and at the end every address is as the calls say. */
  lemma {:induction false} RunCorrect(vm: Vm, calls: seq<Call>, bound: nat)
    requires ListOk(vm.areas) && Fits(vm.areas, calls, bound) && RunAllowed(vm, calls) && Run(vm, calls).Done?
    ensures var (vm', addrs) := Run(vm, calls).value;
      ListOk(vm'.areas) && Sound(vm.areas, vm'.areas, calls, addrs) && |vm'.areas| + vm'.spare == |vm.areas| + vm.spare
    decreases |calls|
  {
    if calls != [] {
      var c := calls[0];
      FitsParts(vm.areas, calls, bound);
      StepCorrect(vm, c, bound);
      var (vm1, addr) := Step(vm, c).value;
      FitsJoined(vm1.areas, calls[1..], bound);
      RunCorrect(vm1, calls[1..], bound);
      var (vm', rest) := Run(vm1, calls[1..]).value;
      hide ListOk, Run, RunAllowed, Step, Fits;
      SoundStep(vm.areas, vm1.areas, vm'.areas, calls, addr, rest);
    }
  }

  lemma SoundStep(areas: seq<Area>, areas1: seq<Area>, areas': seq<Area>, calls: seq<Call>, addr: nat, rest: seq<nat>)
    requires |rest| == |calls| - 1 && Sound(areas1, areas', calls[1..], rest)
    requires forall x: nat :: FlagsAt(areas1, x) == Effect(FlagsAt(areas, x), calls[0], addr, x)
    requires calls[0].Alloc? ==> forall x: nat :: addr <= x < addr + calls[0].Len() ==> FlagsAt(areas, x).None?
    ensures Sound(areas, areas', calls, [addr] + rest)
  {
    var addrs := [addr] + rest;
    assert addrs[1..] == rest;
    hide FlagsAt, Effect;
    forall i, x: nat | 0 <= i < |calls| && calls[i].Alloc? && addrs[i] <= x < addrs[i] + calls[i].Len()
      ensures Cover(FlagsAt(areas, x), calls[..i], addrs[..i], x).None?
    {
      if i > 0 {
        assert calls[1..][i - 1] == calls[i] && rest[i - 1] == addrs[i];
        assert calls[..i][1..] == calls[1..][..i - 1] && addrs[..i][1..] == rest[..i - 1];
      }
    }
  }
}
