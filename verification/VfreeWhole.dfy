/** The whole of vfree: the areas, and the mappings of their pages (kernel/src/vmem.c). */
module VfreeWhole {
  import opened Wrappers
  import opened Arith
  import opened Linaddr
  import opened PageTree
  import opened Paging
  import opened VfreePages
  import V = Vmem
  import N = VmemNodes
  import L = VmemList
  import Pager

  function Base(address: nat): nat { address - address % PAGE_SIZE }

  function Vfree(vm: V.Vm, s: Machine, address: nat, npages: nat, stale: nat): Outcome<(V.Vm, Machine)> {
    var vm' :- V.Vfree(vm, address, npages, stale);
    var s' :- UnmapLoop(s, Base(address), npages, 0);
    Done((vm', s'))
  }

  /** The loop over the pages. It looks at each page and unmaps the first. */
  method UnmapRange(p: Pager.Pager, base: nat, npages: nat) returns (ok: bool)
    modifies p
    ensures UnmapLoop(old(p.State()), base, npages, 0) == if ok then Done(p.State()) else Panic
  {
    hide Paging.UnmapPage, Walk, PageOf;
    ok := true;
    for i := 0 to npages
      invariant ok && UnmapLoop(p.State(), base, npages, i) == UnmapLoop(old(p.State()), base, npages, 0)
    {
      var mapped := p.IsMapped(base + i * PAGE_SIZE);
      if mapped {
        ok := p.UnmapPage(base);
        if !ok { return; }
      }
    }
  }

  /** vfree in place: the list part, and then the loop over the pages. */
  method VfreeInPlace(l: L.VmaList, p: Pager.Pager, address: nat, npages: nat) returns (ok: bool)
    requires l.Valid() && l.HeadClean()
    modifies l, l.nodes, l.spare, p
    ensures var stale := if old(l.spare) == [] then 0 else old(l.spare[0].flags);
      Vfree(old(l.State()), old(p.State()), address, npages, stale)
        == if ok then Done((l.State(), p.State())) else Panic
  {
    hide V.Vfree, UnmapLoop, L.VmaList.Valid, L.VmaList.HeadClean, V.ListOk, N.VfreeEdit, N.Applies, N.Edited;
    ok := l.Vfree(address, npages);
    if ok {
      ok := UnmapRange(p, address - address % PAGE_SIZE, npages);
    }
  }

  /** The list is in order, exactly the range is no longer covered, none of its pages is mapped, and all other pages
    * are mapped as before. */
  ghost predicate FreesRange(areas: seq<V.Area>, areas': seq<V.Area>, s: Machine, s': Machine, base: nat, n: nat) {
    && V.ListOk(areas') && V.Shrinks(areas, areas', base, n * PAGE_SIZE)
    && (forall i: nat :: i < n ==> !Mapped(s', base + i * PAGE_SIZE))
    && OthersStay(s, s', base)
  }

  /** vfree frees the range, areas and mappings, if and only if the range reaches the end of its area, no page of it
    * but the first is mapped, and that one, if it is, with one reference. It keeps the page tables' invariant. */
  lemma VfreeExact(vm: V.Vm, s: Machine, slots: set<Index>, address: nat, n: nat, stale: nat)
    requires V.ListOk(vm.areas) && Inv(s, slots) && Pml4i(Base(address)) in slots && InRange(Base(address), n) && n > 0
    requires Vfree(vm, s, address, n, stale).Done?
    ensures var ((vm', s'), base) := (Vfree(vm, s, address, n, stale).value, Base(address));
      && Inv(s', slots) && vm.areas != []
      && (FreesRange(vm.areas, vm'.areas, s, s', base, n) <==>
            && base + n * PAGE_SIZE == vm.areas[V.Holder(vm.areas, 0, base)].End()
            && (forall i: nat :: 0 < i < n ==> !Mapped(s, base + i * PAGE_SIZE))
            && (Mapped(s, base) ==> RefsOf(s, base) == 1))
  {
    hide *;
    VfreeParts(vm, s, address, n, stale);
    var ((vm', s'), base) := (Vfree(vm, s, address, n, stale).value, Base(address));
    ListPart(vm, address, n, stale);
    RangeUnmapped(s, slots, base, n);
    LoopUnmaps(s, slots, base, n);
    OthersAre(s, s', slots, base, MappedCount(s, base, n, 0));
    FreesRangeIs(vm.areas, vm'.areas, s, s', base, n);
  }

  lemma VfreeParts(vm: V.Vm, s: Machine, address: nat, n: nat, stale: nat)
    requires Vfree(vm, s, address, n, stale).Done?
    ensures V.Vfree(vm, address, n, stale) == Done(Vfree(vm, s, address, n, stale).value.0)
    ensures UnmapLoop(s, Base(address), n, 0) == Done(Vfree(vm, s, address, n, stale).value.1)
  {
    hide V.Vfree, UnmapLoop;
  }

  lemma ListPart(vm: V.Vm, address: nat, n: nat, stale: nat)
    requires V.ListOk(vm.areas) && n > 0 && V.Vfree(vm, address, n, stale).Done?
    ensures var (areas', base) := (V.Vfree(vm, address, n, stale).value.areas, Base(address));
      && vm.areas != []
      && (V.ListOk(areas') && V.Shrinks(vm.areas, areas', base, n * PAGE_SIZE) <==>
            base + n * PAGE_SIZE == vm.areas[V.Holder(vm.areas, 0, base)].End())
  {
    V.VfreeCorrect(vm, Base(address), n * PAGE_SIZE, stale);
    hide V.ListOk, V.Shrinks, V.Holder;
  }

  lemma OthersAre(s: Machine, s': Machine, slots: set<Index>, base: nat, count: nat)
    requires Unmapped(s, Done(s'), slots, base, count)
    ensures OthersStay(s, s', base)
  {
  }

  lemma FreesRangeIs(areas: seq<V.Area>, areas': seq<V.Area>, s: Machine, s': Machine, base: nat, n: nat)
    requires OthersStay(s, s', base)
    ensures FreesRange(areas, areas', s, s', base, n) <==>
      && V.ListOk(areas') && V.Shrinks(areas, areas', base, n * PAGE_SIZE)
      && forall i: nat :: i < n ==> !Mapped(s', base + i * PAGE_SIZE)
  {
  }

  /** Every mapped page under the slots belongs to an area, as demand paging has it. */
  ghost predicate MappedIsCovered(areas: seq<V.Area>, s: Machine, slots: set<Index>) {
    forall a: nat :: a % PAGE_SIZE == 0 && Canonical(a) && Pml4i(a) in slots && Mapped(s, a) ==>
      V.FlagsAt(areas, a).Some?
  }

  /** The pages of the range are addresses of the machine, under the slots. */
  ghost predicate UnderSlots(base: nat, n: nat, slots: set<Index>) {
    forall i: nat :: i < n ==> Canonical(base + i * PAGE_SIZE) && Pml4i(base + i * PAGE_SIZE) in slots
  }

  /** Where the areas shrink by the range, mapped pages still belong to areas if and only if the range ends unmapped:
    * what vfree forgets to unmap stays mapped without an area. */
  lemma CoveredAfter(areas: seq<V.Area>, areas': seq<V.Area>, s: Machine, s': Machine, slots: set<Index>, base: nat,
                     n: nat)
    requires MappedIsCovered(areas, s, slots) && V.Shrinks(areas, areas', base, n * PAGE_SIZE)
    requires OthersStay(s, s', base)
    requires RECURSIVE_SLOT !in slots && base % PAGE_SIZE == 0 && n > 0 && UnderSlots(base, n, slots)
    ensures MappedIsCovered(areas', s', slots) <==> forall i: nat :: i < n ==> !Mapped(s', base + i * PAGE_SIZE)
  {
    hide V.FlagsAt, Mapped, Canonical, Pml4i, OthersStay;
    if MappedIsCovered(areas', s', slots) {
      forall i: nat | i < n ensures !Mapped(s', base + i * PAGE_SIZE) {
        NextPages(base, i);
        assert V.FlagsAt(areas', base + i * PAGE_SIZE).None?;
      }
    }
    if forall i: nat :: i < n ==> !Mapped(s', base + i * PAGE_SIZE) {
      assert Canonical(base + 0 * PAGE_SIZE) && !Mapped(s', base + 0 * PAGE_SIZE);
      forall a: nat | a % PAGE_SIZE == 0 && Canonical(a) && Pml4i(a) in slots && Mapped(s', a)
        ensures V.FlagsAt(areas', a).Some?
      {
        if base <= a < base + n * PAGE_SIZE {
          var i := PageInside(base, n, a);
        } else {
          SameElsewhere(s, s', slots, base, a);
        }
      }
    }
  }

  lemma PageInside(base: nat, n: nat, a: nat) returns (i: nat)
    requires base % PAGE_SIZE == 0 && a % PAGE_SIZE == 0 && base <= a < base + n * PAGE_SIZE
    ensures i < n && a == base + i * PAGE_SIZE
  {
    i := a / PAGE_SIZE - base / PAGE_SIZE;
  }

  /** Another page under the slots is mapped as before. */
  lemma SameElsewhere(s: Machine, s': Machine, slots: set<Index>, base: nat, a: nat)
    requires OthersStay(s, s', base) && RECURSIVE_SLOT !in slots && Pml4i(a) in slots
    requires Canonical(a) && Canonical(base) && a % PAGE_SIZE == 0 && base % PAGE_SIZE == 0 && a != base
    ensures Mapped(s', a) <==> Mapped(s, a)
  {
    BuildOfFields(a);
    BuildOfFields(base);
    hide BuildLinaddr, Pml4i, Pdpti, Pdi, Pti;
    assert Offset(a) == Offset(base) == 0;
    assert PageOf(a) != PageOf(base);
  }
}
