/** The routines of kernel/arch/x86_64/paging.c, updating memory, counts and free frames in place. */
module Pager {
  import opened Wrappers
  import opened Linaddr
  import opened PageTree
  import P = Paging
  import E = EarlyMapping

  class Pager {
    const root: nat
    var mem: Memory
    var refs: nat -> nat
    var pool: seq<nat>

    constructor (root: nat, mem: Memory, refs: nat -> nat, pool: seq<nat>)
      ensures State() == P.Machine(root, mem, refs, pool)
    {
      this.root, this.mem, this.refs, this.pool := root, mem, refs, pool;
    }

    function State(): P.Machine
      reads this
    {
      P.Machine(root, mem, refs, pool)
    }

    method IncPage(f: nat)
      modifies this
      ensures State() == P.IncPage(old(State()), f)
    {
      refs := P.SetRef(refs, f, refs(f) + 1);
    }

    /** The count left, or None for the panic on a count of zero. */
    method DecPage(f: nat) returns (left: Option<nat>)
      modifies this
      ensures P.DecPage(old(State()), f) == if left.Some? then Done(State()) else Panic
      ensures left.Some? ==> left.value == refs(f)
    {
      if refs(f) == 0 {
        return None;
      }
      refs := P.SetRef(refs, f, refs(f) - 1);
      left := Some(refs(f));
    }

    method AllocPage() returns (f: Option<nat>)
      modifies this
      ensures P.AllocPage(old(State())) == if f.Some? then Done((State(), f.value)) else Panic
    {
      if pool == [] {
        return None;
      }
      f := Some(pool[|pool| - 1]);
      pool := pool[..|pool| - 1];
    }

    method FreePage(f: nat)
      modifies this
      ensures State() == P.FreePage(old(State()), f)
    {
      pool := pool + [f];
    }

    /** The block repeated for each level in map_page; false for a panic. */
    method EnsureTable(t: nat, i: Index, counted: bool) returns (ok: bool)
      modifies this
      ensures P.EnsureTable(old(State()), t, i, counted) == if ok then Done(State()) else Panic
    {
      if !Present(mem(t, i)) {
        var addr := AllocPage();
        if addr.None? {
          return false;
        }
        mem := Write(mem, t, i, TableWord(addr.value));
        mem := ZeroFrame(mem, addr.value);
        if counted {
          IncPage(t);
        }
      }
      ok := true;
    }

    /** The descent of map_page: the frame of the page table of virt, or None for a panic. */
    method BuildPath(virt: nat) returns (pt: Option<nat>)
      modifies this
      ensures P.BuildPath(old(State()), PageOf(virt)) == if pt.Some? then Done((State(), pt.value)) else Panic
    {
      hide Present, EntryAddr, Pml4i, Pdpti, Pdi, Pti, P.EnsureTable;
      var ok := EnsureTable(root, Pml4i(virt), false);
      if !ok {
        return None;
      }
      var pdpt := EntryAddr(mem(root, Pml4i(virt)));

      ok := EnsureTable(pdpt, Pdpti(virt), true);
      if !ok {
        return None;
      }
      var pd := EntryAddr(mem(pdpt, Pdpti(virt)));

      ok := EnsureTable(pd, Pdi(virt), true);
      if !ok {
        return None;
      }
      pt := Some(EntryAddr(mem(pd, Pdi(virt))));
    }

    method MapPage(virt: nat, physAddr: nat, flags: nat) returns (ok: bool)
      modifies this
      ensures P.MapPage(old(State()), virt, physAddr, flags) == if ok then Done(State()) else Panic
    {
      hide Present, EntryAddr, Pml4i, Pdpti, Pdi, P.BuildPath, LeafWord;
      var phys := physAddr - physAddr % PAGE_SIZE;
      if virt == 0 {
        return false;
      }
      var table := BuildPath(virt);
      if table.None? {
        return false;
      }
      var pt := table.value;

      ok := true;
      var pte := mem(pt, Pti(virt));
      if Present(pte) {
        if EntryAddr(pte) == phys {
          return;
        }
      } else {
        IncPage(pt);
      }
      mem := Write(mem, pt, Pti(virt), LeafWord(phys, flags));
      IncPage(phys);
    }

    method UnmapPage(virt: nat) returns (ok: bool)
      modifies this
      ensures P.UnmapPage(old(State()), virt) == if ok then Done(State()) else Panic
    {
      hide Present, Large, EntryAddr, Pml4i, Pdpti, Pdi, Pti;
      ok := true;
      var pml4e := mem(root, Pml4i(virt));
      if !Present(pml4e) { return; }
      var pdpt := EntryAddr(pml4e);
      var pdpte := mem(pdpt, Pdpti(virt));
      if !Present(pdpte) { return; }
      var pd := EntryAddr(pdpte);
      var pde := mem(pd, Pdi(virt));
      if !Present(pde) { return; }
      var pt := EntryAddr(pde);
      var pte := mem(pt, Pti(virt));
      if !Present(pte) { return; }

      var left := DecPage(EntryAddr(pte));
      if left.None? || left.value > 0 {
        return left.Some?;
      }
      mem := Write(mem, pt, Pti(virt), 0);

      left := DecPage(pt);
      if left.None? || left.value > 0 {
        return left.Some?;
      }
      FreePage(pt);
      mem := Write(mem, pd, Pdi(virt), 0);

      left := DecPage(pd);
      if left.None? || left.value > 0 {
        return left.Some?;
      }
      FreePage(pd);
      mem := Write(mem, pdpt, Pdpti(virt), 0);

      left := DecPage(pdpt);
      if left.None? || left.value > 0 {
        return left.Some?;
      }
      FreePage(pdpt);
      mem := Write(mem, root, Pml4i(virt), 0);
    }

    /** is_mapped agrees with the hardware walk, large pages included. */
    method IsMapped(virt: nat) returns (mapped: bool)
      ensures mapped <==> Walk(mem, root, PageOf(virt)).Some?
    {
      var pml4e := mem(root, Pml4i(virt));
      if !Present(pml4e) {
        return false;
      }
      var pdpte := mem(EntryAddr(pml4e), Pdpti(virt));
      if !Present(pdpte) {
        return false;
      }
      if Large(pdpte) {
        return true;
      }
      var pde := mem(EntryAddr(pdpte), Pdi(virt));
      if !Present(pde) {
        return false;
      }
      if Large(pde) {
        return true;
      }
      var pte := mem(EntryAddr(pde), Pti(virt));
      return Present(pte);
    }

    /** early_map on the tables at root, which the source passes or reads from cr3. */
    method EarlyMap(virt: nat, physAddr: nat, size: E.MapSize, flags: nat) returns (ok: bool)
      modifies this
      ensures E.EarlyMap(old(State()), virt, physAddr, size, flags) == if ok then Done(State()) else Panic
    {
      hide Present, EntryAddr, Pml4i, Pdpti, Pdi, Pti, P.EnsureTable, LeafWord, LargeWord;
      var phys := physAddr - physAddr % PAGE_SIZE;
      if virt == 0 {
        return false;
      }
      ok := EnsureTable(root, Pml4i(virt), false);
      if !ok { return; }
      var pdpt := EntryAddr(mem(root, Pml4i(virt)));
      if size.Size1G? {
        mem := Write(mem, pdpt, Pdpti(virt), LargeWord(phys, flags));
        return;
      }
      ok := EnsureTable(pdpt, Pdpti(virt), false);
      if !ok { return; }
      var pd := EntryAddr(mem(pdpt, Pdpti(virt)));
      if size.Size2M? {
        mem := Write(mem, pd, Pdi(virt), LargeWord(phys, flags));
        return;
      }
      ok := EnsureTable(pd, Pdi(virt), false);
      if !ok { return; }
      var pt := EntryAddr(mem(pd, Pdi(virt)));
      mem := Write(mem, pt, Pti(virt), LeafWord(phys, flags));
    }
  }
}
