/** Where the runs start: the new PML4 of mman_init, and the tables it leaves for map_page. */
module PagingStart {
  import opened Wrappers
  import opened Arith
  import opened Linaddr
  import opened PageTree
  import opened Paging
  import opened PagingRuns
  import opened EarlyMapping
  import opened DirectMap
  import opened DirectMapper
  import opened MemMap
  import F = Frames

  /** A PML4 with no entry but the recursive one, and distinct free pages, start the boot tables. */
  lemma EmptyTables(s: Machine, slots: set<Index>)
    requires RECURSIVE_SLOT !in slots
    requires forall i: Index :: i != RECURSIVE_SLOT ==> !Present(s.mem(s.root, i))
    requires forall i, j :: 0 <= i < j < |s.pool| ==> s.pool[i] != s.pool[j]
    requires forall f :: f in s.pool ==> PhysPage(f) && s.refs(f) == 0 && f != s.root
    ensures BootInv(s, slots)
    ensures forall v: VPage :: v.i4 != RECURSIVE_SLOT ==> Walk(s.mem, s.root, v).None?
  {
    forall n: Node ensures TableAt(s.mem, s.root, n).Some? ==> n == Root {
      OnlyRoot(s, n);
    }
  }

  lemma {:induction false} OnlyRoot(s: Machine, n: Node)
    requires forall i: Index :: i != RECURSIVE_SLOT ==> !Present(s.mem(s.root, i))
    ensures TableAt(s.mem, s.root, n).Some? ==> n == Root
  {
    if n.Child? {
      OnlyRoot(s, n.parent);
      assert n == Child(n.parent, n.i) && TableAt(s.mem, s.root, Root) == Some(s.root);
    }
  }

  /** Boot tables that map nothing under some slots leave these slots to map_page, as an empty map. */
  lemma SlotsAreFree(s: Machine, boot: set<Index>, slots: set<Index>)
    requires BootInv(s, boot) && slots <= boot
    requires forall v: VPage :: v.i4 in slots ==> Walk(s.mem, s.root, v).None?
    requires forall f :: s.refs(f) == 0
    ensures Models(s, slots, Space(map[], multiset{}))
  {
    forall n | Managed(slots, n) ensures T(s, n).None? {
      if T(s, n).Some? {
        var u: VPage :| OnPath(n, u) && Walk(s.mem, s.root, u).Some?;
        PathFacts(u);
      }
    }
  }

  /** Once the direct map is built, the slots it and the earlier mappings leave alone are free for map_page. */
  lemma AfterDirectMap(s0: Machine, s: Machine, boot: set<Index>, slots: set<Index>, hhdm: nat, entries: seq<Entry>,
                       flags: nat)
    requires DirectAll(s0, s, boot, hhdm, entries, flags) && slots <= boot && forall f :: s0.refs(f) == 0
    requires forall a: nat :: Canonical(a) && Pml4i(a) in slots ==> Tr(s0, a).None? && !InEntries(entries, a - hhdm)
    ensures Models(s, slots, Space(map[], multiset{}))
  {
    forall v: VPage | v.i4 in slots ensures Walk(s.mem, s.root, v).None? {
      var a := BuildLinaddr(v.i4, v.i3, v.i2, v.i1, 0);
      BuildFields(v.i4, v.i3, v.i2, v.i1, 0);
      assert Tr(s, a).None?;
    }
    SlotsAreFree(s, boot, slots);
  }

  // ---- the free frames ----

  function Addresses(stack: seq<nat>): seq<nat> {
    seq(|stack|, i requires 0 <= i < |stack| => stack[i] * PAGE_SIZE)
  }

  /** While the stack of high pages serves, and its pages are below 2^20, the free frames of the page tables are the
    * allocator's: both sides hand out the same frame, and take back the same. */
  lemma PoolIsStack(f: F.Frames, s: Machine, addr: nat)
    requires F.Inv(f) && f.stack != [] && s.pool == Addresses(f.stack)
    ensures F.Ready(f) ==>
      var (f', s') := (F.AllocPage(f), AllocPage(s));
      && f'.Got? && s'.Done? && s'.value.1 == f'.addr && s'.value.0.pool == Addresses(f'.left.stack)
    ensures addr % PAGE_SIZE == 0 && F.LOWMEM_SIZE <= addr && addr / PAGE_SIZE < TWO_32 ==>
      var f' := F.FreePage(f, addr);
      f'.Done? && FreePage(s, addr).pool == Addresses(f'.value.stack)
  {
    var k := |f.stack| - 1;
    assert s.pool[k] == f.stack[k] * PAGE_SIZE;
    assert Addresses(f.stack[..k]) == s.pool[..k];
    if addr % PAGE_SIZE == 0 && addr / PAGE_SIZE < TWO_32 {
      assert Addresses(f.stack + [addr / PAGE_SIZE]) == s.pool + [addr];
    }
  }
}
