/** The linked list of virtual areas and the list of spare nodes (kernel/src/vmem.c). */
module VmemList {
  import opened Wrappers
  import opened Arith
  import opened Linaddr
  import V = Vmem
  import N = VmemNodes

  class Node {
    var base: nat
    var size: nat
    var flags: nat
    var next: Node?
    var prev: Node?

    ghost predicate Shows(a: V.Area)
      reads this
    {
      base == a.base && size == a.size && flags == a.flags
    }
  }

  class VmaList {
    var head: Node?
    var free: Node?
    ghost var nodes: seq<Node>
    ghost var areas: seq<V.Area>
    ghost var spare: seq<Node>

    /** first starts a chain of next links through exactly these nodes, ending in null. */
    static ghost predicate Chain(first: Node?, ns: seq<Node>)
      reads ns
    {
      && (first == if ns == [] then null else ns[0])
      && (forall i {:trigger ns[i].next} :: 0 <= i < |ns| ==> ns[i].next == if i + 1 < |ns| then ns[i + 1] else null)
      && (forall i, j :: 0 <= i < j < |ns| ==> ns[i] != ns[j])
    }

    /** Both chains are sound and share no node, and every back link but the first is right. */
    ghost predicate Linked()
      reads this`head, this`free, this`nodes, this`spare, nodes, spare
    {
      && Chain(head, nodes) && Chain(free, spare)
      && (forall i, j :: 0 <= i < |nodes| && 0 <= j < |spare| ==> nodes[i] != spare[j])
      && (forall i {:trigger nodes[i].prev} :: 1 <= i < |nodes| ==> nodes[i].prev == nodes[i - 1])
    }

    /** The nodes hold the areas. */
    ghost predicate Holds()
      reads this`areas, this`nodes, nodes
    {
      |areas| == |nodes| && forall i :: 0 <= i < |nodes| ==> nodes[i].Shows(areas[i])
    }

    ghost predicate Valid()
      reads this, nodes, spare
    {
      Linked() && Holds()
    }

    /** The first node has no back link. */
    ghost predicate HeadClean()
      reads this`nodes, nodes
    {
      nodes != [] ==> nodes[0].prev == null
    }

    ghost function State(): V.Vm
      reads this
    {
      V.Vm(areas, |spare|)
    }

    /** vmem_init: the objects of a page, linked both ways, are the spare nodes. The last link is what the page held. */
    constructor (page: seq<Node>)
      requires forall i, j :: 0 <= i < j < |page| ==> page[i] != page[j]
      requires page != [] && page[|page| - 1].next == null
      modifies page
      ensures Valid() && HeadClean() && nodes == [] && spare == page
      ensures page[0].prev == old(page[0].prev)
    {
      head, free, nodes, areas, spare := null, page[0], [], [], page;
      new;
      for i := 1 to |page|
        invariant nodes == [] && areas == [] && spare == page && head == null
        invariant free == page[0] && page[|page| - 1].next == null && page[0].prev == old(page[0].prev)
        invariant forall k {:trigger page[k].next} :: 0 <= k < i - 1 ==> page[k].next == page[k + 1]
      {
        page[i - 1].next := page[i];
        page[i].prev := page[i - 1];
      }
    }

    ghost predicate Unused(vma: Node)
      reads this`nodes, this`spare
    {
      vma !in nodes && vma !in spare
    }

    /** alloc_vma, or null where the source would call the allocator again with its lock held. */
    method AllocVma() returns (vma: Node?)
      requires Valid()
      modifies this`free, this`spare
      ensures Linked() && Holds() && (vma == null <==> old(spare) == [])
      ensures vma != null ==> vma == old(spare)[0] && spare == old(spare)[1..] && Unused(vma)
    {
      if free == null {
        return null;
      }
      vma := free;
      free := vma.next;
      spare := spare[1..];
    }

    /** free_vma of a node that is on neither list. */
    method FreeVma(vma: Node)
      requires Valid() && Unused(vma)
      modifies this`free, this`spare, vma`next
      ensures Valid() && spare == [vma] + old(spare)
      ensures HeadClean() <==> old(HeadClean())
    {
      vma.next := free;
      free := vma;
      spare := [vma] + spare;
    }

    /** A spare node with its fields set, not yet linked; null when there is none. */
    method NewVma(base: nat, size: nat, flags: nat) returns (vma: Node?)
      requires Valid()
      modifies this`free, this`spare, spare`base, spare`size, spare`flags
      ensures Valid() && (vma == null <==> old(spare) == [])
      ensures vma != null ==> vma == old(spare)[0] && spare == old(spare)[1..] && Unused(vma)
      ensures vma != null ==> vma.Shows(V.Area(base, size, flags))
    {
      vma := AllocVma();
      if vma != null {
        vma.base, vma.size, vma.flags := base, size, flags;
      }
    }

    /** A spare node with its range set and its flags as they were. */
    method NewRest(base: nat, size: nat) returns (vma: Node?)
      requires Valid()
      modifies this`free, this`spare, spare`base, spare`size
      ensures Valid() && (vma == null <==> old(spare) == [])
      ensures vma != null ==> vma == old(spare)[0] && spare == old(spare)[1..] && Unused(vma)
      ensures vma != null ==> vma.Shows(V.Area(base, size, old(spare[0].flags)))
    {
      vma := AllocVma();
      if vma != null {
        vma.base, vma.size := base, size;
      }
    }

    // ---- linking ----

    /** The assignments of create_vma for the front: the back link stays as it was. */
    method LinkFront(vma: Node)
      requires Linked() && Unused(vma)
      modifies this`head, this`nodes, nodes`prev, vma`next
      ensures Linked() && (HeadClean() <==> vma.prev == null) && nodes == V.Inserted(old(nodes), 0, vma)
    {
      vma.next := head;
      if head != null {
        head.prev := vma;
      }
      head := vma;
      nodes := V.Inserted(nodes, 0, vma);
    }

    /** The front of the list as vmalloc_at writes it. */
    method LinkFirst(vma: Node)
      requires Linked() && Unused(vma)
      modifies this`head, this`nodes, nodes`prev, vma`next, vma`prev
      ensures Linked() && HeadClean() && nodes == V.Inserted(old(nodes), 0, vma)
    {
      vma.next := head;
      vma.prev := null;
      if head != null {
        head.prev := vma;
      }
      head := vma;
      nodes := V.Inserted(nodes, 0, vma);
    }

    /** A new node behind prev, linked both ways but for the back link of the node after it. */
    method LinkForward(prev: Node, vma: Node, ghost k: nat)
      requires Linked() && Unused(vma) && k < |nodes| && nodes[k] == prev
      modifies this`nodes, nodes`next, vma`next, vma`prev
      ensures Chain(head, nodes) && Chain(free, spare) && nodes == V.Inserted(old(nodes), k + 1, vma)
      ensures nodes[k + 1] == vma
      ensures forall i, j :: 0 <= i < |nodes| && 0 <= j < |spare| ==> nodes[i] != spare[j]
      ensures forall i {:trigger nodes[i].prev} :: 1 <= i < |nodes| ==>
        nodes[i].prev == nodes[if i == k + 2 then k else i - 1]
      ensures HeadClean() <==> old(HeadClean())
    {
      vma.next := prev.next;
      vma.prev := prev;
      prev.next := vma;
      nodes := V.Inserted(nodes, k + 1, vma);
    }

    /** The assignments that put a new node behind prev. */
    method LinkAfter(prev: Node, vma: Node, ghost k: nat)
      requires Linked() && Unused(vma) && k < |nodes| && nodes[k] == prev
      modifies this`nodes, nodes`next, nodes`prev, vma`next, vma`prev
      ensures Linked() && (HeadClean() <==> old(HeadClean()))
      ensures nodes == V.Inserted(old(nodes), k + 1, vma)
    {
      var curr := prev.next;
      assert k + 1 < |nodes| ==> curr == nodes[k + 1];
      LinkForward(prev, vma, k);
      if curr != null {
        assert nodes[k + 2] == curr;
        hide V.Inserted;
        curr.prev := vma;
      }
    }

    /** The assignments that end the list with a new node behind prev. */
    method LinkLast(prev: Node, vma: Node, ghost k: nat)
      requires Linked() && Unused(vma) && k < |nodes| && nodes[k] == prev
      modifies this`nodes, nodes`next, vma`next, vma`prev
      ensures Linked() && (HeadClean() <==> old(HeadClean()))
      ensures nodes == V.Inserted(old(nodes)[..k + 1], k + 1, vma)
    {
      prev.next := vma;
      vma.prev := prev;
      vma.next := null;
      nodes := V.Inserted(nodes[..k + 1], k + 1, vma);
      assert nodes == old(nodes)[..k + 1] + [vma];
    }

    /** Takes node k out of the list; the first node needs its back link clear. */
    method Unlink(vma: Node, ghost k: nat)
      requires Linked() && k < |nodes| && nodes[k] == vma && HeadClean()
      modifies this`head, this`nodes, nodes`next, nodes`prev
      ensures Linked() && HeadClean() && Unused(vma) && nodes == V.Removed(old(nodes), k)
    {
      assert vma.prev == if k > 0 then nodes[k - 1] else null;
      assert vma.next == if k + 1 < |nodes| then nodes[k + 1] else null;
      if vma.prev != null {
        vma.prev.next := vma.next;
      } else {
        head := vma.next;
      }
      if vma.next != null {
        vma.next.prev := vma.prev;
      }
      nodes := V.Removed(nodes, k);
    }

    /** Takes the node after prev out of the list. */
    method UnlinkNext(prev: Node, curr: Node, ghost k: nat)
      requires Linked() && k + 1 < |nodes| && nodes[k] == prev && nodes[k + 1] == curr
      modifies this`nodes, nodes`next, nodes`prev
      ensures Linked() && (HeadClean() <==> old(HeadClean())) && Unused(curr)
      ensures nodes == V.Removed(old(nodes), k + 1)
    {
      prev.next := curr.next;
      if curr.next != null {
        curr.next.prev := prev;
      }
      nodes := V.Removed(nodes, k + 1);
    }

    // ---- linking, with the areas kept in step ----

    /** Notes the area of a node just linked at k. */
    ghost method NoteInserted(before: seq<Node>, k: nat, vma: Node, a: V.Area)
      requires Linked() && |areas| == |before| && (forall i :: 0 <= i < |before| ==> before[i].Shows(areas[i]))
      requires k <= |before| && nodes == V.Inserted(before, k, vma) && vma.Shows(a)
      modifies this`areas
      ensures Valid() && areas == V.Inserted(old(areas), k, a)
    {
      hide VmaList.Linked;
      V.InsertedAt(before, k, vma);
      V.InsertedAt(areas, k, a);
      hide V.Inserted;
      assert Linked();
      areas := V.Inserted(areas, k, a);
    }

    ghost method NoteRemoved(before: seq<Node>, k: nat)
      requires Linked() && |areas| == |before| && (forall i :: 0 <= i < |before| ==> before[i].Shows(areas[i]))
      requires k < |before| && nodes == V.Removed(before, k)
      modifies this`areas
      ensures Valid() && areas == V.Removed(old(areas), k)
    {
      areas := V.Removed(areas, k);
    }

    /** Changes the range of node k in place. */
    method Resize(vma: Node, base: nat, size: nat, ghost k: nat)
      requires Valid() && k < |nodes| && nodes[k] == vma
      modifies this`areas, vma`base, vma`size
      ensures Valid() && (HeadClean() <==> old(HeadClean()))
      ensures areas == old(areas)[k := V.Area(base, size, old(areas)[k].flags)]
    {
      vma.base, vma.size := base, size;
      areas := areas[k := V.Area(base, size, areas[k].flags)];
    }

    // ---- create_vma ----

    /** The place for a new area: behind prev, before curr. */
    method FindPlace(base: nat) returns (prev: Node?, curr: Node?, ghost k: nat)
      requires Valid()
      ensures k == V.Before(areas, base) && k <= |nodes|
      ensures prev == (if V.Before(areas, base) > 0 then nodes[V.Before(areas, base) - 1] else null)
      ensures curr == (if V.Before(areas, base) < |nodes| then nodes[V.Before(areas, base)] else null)
    {
      hide V.Before, VmaList.HeadClean;
      prev, curr, k := null, head, 0;
      assert areas[0..] == areas;
      V.BeforeFrom(areas, k, base);
      while curr != null && curr.base < base
        invariant k <= |nodes| && curr == (if k < |nodes| then nodes[k] else null)
        invariant prev == if k > 0 then nodes[k - 1] else null
        invariant V.Before(areas, base) == k + V.Before(areas[k..], base)
        invariant V.Before(areas[k..], base) ==
          if k < |areas| && areas[k].base < base then 1 + V.Before(areas[k + 1..], base) else 0
        decreases |nodes| - k
      {
        assert curr.Shows(areas[k]);
        prev := curr;
        curr := curr.next;
        k := k + 1;
        V.BeforeFrom(areas, k, base);
      }
      assert curr != null ==> curr.Shows(areas[k]);
    }

    /** create_vma; false when no spare node is left. The source does not set the back link of a
      * node it puts in front. */
    method CreateVma(base: nat, size: nat, flags: nat) returns (ok: bool)
      requires Valid()
      modifies this, nodes, spare
      ensures ok <==> old(spare) != []
      ensures ok ==> Valid() && var k := V.Before(old(areas), base);
        && nodes == V.Inserted(old(nodes), k, old(spare)[0]) && spare == old(spare)[1..]
        && areas == V.Inserted(old(areas), k, V.Area(base, size, flags))
        && (HeadClean() <==> if k > 0 then old(HeadClean()) else old(spare[0].prev) == null)
    {
      hide VmaList.Linked, VmaList.HeadClean, V.Inserted, V.Before;
      var vma := NewVma(base, size, flags);
      if vma == null {
        return false;
      }
      var prev, _, k := FindPlace(base);
      if prev == null {
        LinkFront(vma);
      } else {
        LinkAfter(prev, vma, k - 1);
      }
      NoteInserted(old(nodes), k, vma, V.Area(base, size, flags));
      ok := true;
    }

    /** page_fault_handler's search for the area of an address. */
    method FindVma(x: nat) returns (vma: Node?)
      requires Valid()
      ensures V.FlagsAt(areas, x) == if vma == null then None else Some(vma.flags)
      ensures vma != null ==> vma in nodes && vma.base <= x < V.Add64(vma.base, vma.size)
    {
      ghost var k := 0;
      vma := head;
      while vma != null
        invariant k <= |nodes| && vma == (if k < |nodes| then nodes[k] else null)
        invariant V.FlagsAt(areas, x) == V.FlagsAt(areas[k..], x)
        decreases |nodes| - k
      {
        if vma.base <= x < V.Add64(vma.base, vma.size) {
          return;
        }
        vma := vma.next;
        k := k + 1;
      }
    }

    // ---- vmalloc_at ----

    /** A new area behind the last visited node, as the end of the list. */
    method AddLast(prev: Node, base: nat, size: nat, flags: nat, ghost k: nat) returns (ok: bool)
      requires Valid() && HeadClean() && k < |nodes| && nodes[k] == prev
      modifies this, nodes, spare
      ensures ok <==> old(spare) != []
      ensures ok ==> Valid() && HeadClean() && spare == old(spare)[1..]
      ensures ok ==> nodes == V.Inserted(old(nodes)[..k + 1], k + 1, old(spare)[0])
      ensures V.AddAt(V.Vm(old(areas)[..k + 1], |old(spare)|), k + 1, V.Area(base, size, flags)) ==
        if ok then Done(State()) else Panic
    {
      hide VmaList.Linked, V.Inserted;
      var vma := NewVma(base, size, flags);
      if vma == null {
        return false;
      }
      LinkLast(prev, vma, k);
      areas := areas[..k + 1];
      NoteInserted(old(nodes)[..k + 1], k + 1, vma, V.Area(base, size, flags));
      ok := true;
    }

    method AddFirst(base: nat, size: nat, flags: nat) returns (ok: bool)
      requires Valid()
      modifies this, nodes, spare
      ensures ok <==> old(spare) != []
      ensures ok ==> Valid() && HeadClean() && spare == old(spare)[1..]
      ensures ok ==> nodes == V.Inserted(old(nodes), 0, old(spare)[0])
      ensures V.AddAt(old(State()), 0, V.Area(base, size, flags)) == if ok then Done(State()) else Panic
    {
      hide VmaList.Linked, V.Inserted;
      var vma := NewVma(base, size, flags);
      if vma == null {
        return false;
      }
      LinkFirst(vma);
      NoteInserted(old(nodes), 0, vma, V.Area(base, size, flags));
      ok := true;
    }

    /** The gap after node j gets the new pages: into its neighbours if their flags agree. */
    method FillGap(prev: Node, curr: Node, len: nat, flags: nat, ghost j: nat) returns (ok: bool)
      requires Valid() && HeadClean() && j + 1 < |nodes| && nodes[j] == prev && nodes[j + 1] == curr
      requires areas[0].base < areas[j].End()
      modifies this, nodes, spare
      ensures ok ==> Valid() && HeadClean()
      ensures ok ==> var e := N.FillEdit(old(areas), j, len, flags);
        N.Applies(e, old(nodes), old(spare)) && (nodes, spare) == N.Edited(e, old(nodes), old(spare))
      ensures V.FillGap(old(State()), j, len, flags) == if ok then Done(State()) else Panic
    {
      hide VmaList.Linked, VmaList.HeadClean, V.Inserted, V.Removed;
      assert prev.Shows(areas[j]) && curr.Shows(areas[j + 1]);
      var freeAddr := prev.base + prev.size;
      ok := true;
      if prev.flags == flags {
        if freeAddr + len == curr.base && curr.flags == flags {
          // the source grows prev by len first, then by the size of curr
          Resize(prev, prev.base, prev.size + len + curr.size, j);
          V.UpdateThenRemove(old(areas), j, areas[j]);
          Absorb(prev, curr, j);
        } else {
          Resize(prev, prev.base, prev.size + len, j);
        }
      } else if freeAddr + len == curr.base && curr.flags == flags {
        Resize(curr, freeAddr, curr.size + len, j + 1);
      } else {
        ok := CreateVma(freeAddr, len, flags);
      }
    }

    /** Takes the node after prev out of the list and frees it. */
    method Absorb(prev: Node, curr: Node, ghost k: nat)
      requires Valid() && k + 1 < |nodes| && nodes[k] == prev && nodes[k + 1] == curr
      modifies this`nodes, this`areas, this`free, this`spare, nodes`next, nodes`prev
      ensures Valid() && (HeadClean() <==> old(HeadClean())) && spare == [curr] + old(spare)
      ensures nodes == V.Removed(old(nodes), k + 1) && areas == V.Removed(old(areas), k + 1)
    {
      UnlinkNext(prev, curr, k);
      NoteRemoved(old(nodes), k + 1);
      FreeVma(curr);
    }

    /** The gap search: prev and curr are nodes j and j + 1, curr null at the end of the list. */
    method Search(start: nat, end: nat, len: nat) returns (prev: Node, curr: Node?, found: bool, ghost j: nat)
      requires Valid() && |nodes| > 1
      ensures V.Search(areas, 0, start, end, len) == (j, found)
      ensures prev == nodes[V.Search(areas, 0, start, end, len).0] && found == V.Search(areas, 0, start, end, len).1
      ensures j < |nodes| && (found ==> j + 1 < |nodes| && curr == nodes[j + 1])
    {
      j, prev, curr, found := 0, head, head.next, false;
      while curr != null
        invariant j < |nodes| && prev == nodes[j] && curr == (if j + 1 < |nodes| then nodes[j + 1] else null)
        invariant !found && V.Search(areas, 0, start, end, len) == V.Search(areas, j, start, end, len)
        decreases |nodes| - j
      {
        assert prev.Shows(areas[j]) && curr.Shows(areas[j + 1]);
        if prev.base + prev.size >= start {
          if prev.base + prev.size + len <= curr.base {
            found := true;
            return;
          }
          if prev.base >= end {
            return;
          }
        }
        prev := curr;
        curr := curr.next;
        j := j + 1;
      }
    }

    /** vmalloc_at with the lock held; None where the source panics or takes the lock again. */
    method VmallocLocked(start: nat, end: nat, npages: nat, flags: nat) returns (addr: Option<nat>)
      requires Valid() && HeadClean() && V.ListOk(areas)
      modifies this, nodes, spare
      ensures addr.Some? ==> Valid() && HeadClean()
      ensures addr.Some? ==> var e := N.VmallocEdit(old(areas), start, end, npages * PAGE_SIZE, flags);
        N.Applies(e, old(nodes), old(spare)) && (nodes, spare) == N.Edited(e, old(nodes), old(spare))
      ensures V.VmallocAt(old(State()), start, end, npages, flags) ==
        if addr.Some? then Done((State(), addr.value)) else Panic
    {
      hide V.AddAt, V.FillGap, V.Search, V.Inserted, N.FillEdit;
      var len := npages * PAGE_SIZE;
      var ok;
      if head == null {
        ok := AddFirst(start, len, flags);
        return if ok then Some(start) else None;
      }
      assert head.Shows(areas[0]);
      if head.next == null {
        if start + len <= head.base {
          ok := AddFirst(start, len, flags);
          return if ok then Some(start) else None;
        } else if head.base + head.size + len <= end {
          var freeAddr := head.base + head.size;
          assert areas[..1] == areas && nodes[..1] == nodes;
          ok := AddLast(head, freeAddr, len, flags, 0);
          return if ok then Some(freeAddr) else None;
        } else {
          return None;
        }
      }
      var prev, curr, found, j := Search(start, end, len);
      assert prev.Shows(areas[j]);
      var freeAddr := prev.base + prev.size;
      if found {
        ok := FillGap(prev, curr, len, flags, j);
        return if ok then Some(freeAddr) else None;
      }
      if freeAddr + len <= end {
        V.LastStop(areas, start, end, len);
        assert nodes[..j + 1] == nodes;
        ok := AddLast(prev, freeAddr, len, flags, j);
        return if ok then Some(freeAddr) else None;
      }
      return None;
    }

    /** vmalloc_at; None where the source panics or takes its lock again. */
    method VmallocAt(start: nat, end: nat, npages: nat, flags: nat) returns (addr: Option<nat>)
      requires Valid() && HeadClean() && V.ListOk(areas)
      modifies this, nodes, spare
      ensures addr.Some? ==> Valid() && HeadClean()
      ensures addr.Some? ==> var e := N.VmallocEdit(old(areas), start, end, npages * PAGE_SIZE, flags);
        N.Applies(e, old(nodes), old(spare)) && (nodes, spare) == N.Edited(e, old(nodes), old(spare))
      ensures V.VmallocAt(old(State()), start, end, npages, flags) ==
        if addr.Some? then Done((State(), addr.value)) else Panic
      ensures addr.Some? ==> V.Chosen(old(areas), start, end, npages * PAGE_SIZE, addr.value)
    {
      V.VmallocChooses(State(), start, end, npages, flags);
      hide *;
      addr := VmallocLocked(start, end, npages, flags);
    }

    // ---- vfree ----

    /** vfree's search: the last node, from the second on, that starts at or before addr; else the first. */
    method FindHolder(addr: nat) returns (prev: Node, ghost k: nat)
      requires Valid() && nodes != []
      ensures prev == nodes[V.Holder(areas, 0, addr)]
      ensures k == V.Holder(areas, 0, addr)
    {
      prev, k := head, 0;
      var curr := head.next;
      while curr != null
        invariant k < |nodes| && prev == nodes[k] && curr == (if k + 1 < |nodes| then nodes[k + 1] else null)
        invariant V.Holder(areas, 0, addr) == V.Holder(areas, k, addr)
        decreases |nodes| - k
      {
        assert curr.Shows(areas[k + 1]);
        if curr.base > addr {
          return;
        }
        prev := curr;
        curr := curr.next;
        k := k + 1;
      }
    }

    /** The split arm of vfree as written: the flags of the new node stay as they were, and so does the back link
      * of the node after it. */
    method Split(prev: Node, addr: nat, len: nat, ghost k: nat) returns (ok: bool)
      requires Valid() && k < |nodes| && nodes[k] == prev && areas[k].base <= addr
      modifies this, nodes, spare
      ensures ok <==> old(spare) != []
      ensures ok ==>
        && Chain(head, nodes) && Chain(free, spare) && spare == old(spare)[1..]
        && areas == V.SplitAt(old(areas), k, addr, len, old(spare[0].flags))
        && nodes == V.Inserted(old(nodes), k + 1, old(spare)[0])
        && (k + 2 < |nodes| ==> nodes[k + 2].prev == nodes[k])
    {
      assert prev.Shows(areas[k]);
      hide V.Inserted, V.Sub64, VmaList.Linked, VmaList.Holds, VmaList.Chain, VmaList.HeadClean;
      Resize(prev, prev.base, addr - prev.base, k);
      var vma := NewRest(addr + len, V.Sub64(prev.base + prev.size, addr + len));
      if vma == null {
        return false;
      }
      areas := V.Inserted(areas, k + 1, V.Area(vma.base, vma.size, vma.flags));
      LinkForward(prev, vma, k);
      ok := true;
    }

    /** The list part of vfree; false for a panic, or for the fault on an empty list. */
    method Vfree(address: nat, npages: nat) returns (ok: bool)
      requires Valid() && HeadClean()
      modifies this, nodes, spare
      ensures var stale := if old(spare) == [] then 0 else old(spare[0].flags);
        V.Vfree(old(State()), address, npages, stale) == if ok then Done(State()) else Panic
      ensures ok && V.ListOk(areas) && V.ListOk(old(areas)) ==> Valid() && HeadClean()
      ensures ok ==> var e := N.VfreeEdit(old(areas), address - address % PAGE_SIZE, npages * PAGE_SIZE);
        N.Applies(e, old(nodes), old(spare)) && (nodes, spare) == N.Edited(e, old(nodes), old(spare))
    {
      hide V.Inserted, V.Removed, V.SplitAt, V.Holder;
      if head == null {
        return false;
      }
      var addr: nat := address - address % PAGE_SIZE;
      var len := npages * PAGE_SIZE;
      var prev, k := FindHolder(addr);
      assert prev.Shows(areas[k]);
      ok := true;
      if prev.base > addr || addr + len > prev.base + prev.size {
        return false;
      }
      if addr == prev.base && len == prev.size {
        DestroyVma(prev, k);
      } else if addr == prev.base {
        Resize(prev, prev.base + len, prev.size, k);
      } else if addr + len == prev.base + prev.size {
        Resize(prev, prev.base, prev.size - len, k);
      } else {
        if V.ListOk(areas) {
          V.SplitIsWrong(areas, k, addr, len, if spare == [] then 0 else spare[0].flags);
        }
        ok := Split(prev, addr, len, k);
      }
    }

    method DestroyVma(vma: Node, ghost k: nat)
      requires Valid() && HeadClean() && k < |nodes| && nodes[k] == vma
      modifies this, nodes`next, nodes`prev
      ensures Valid() && HeadClean() && spare == [vma] + old(spare)
      ensures nodes == V.Removed(old(nodes), k) && areas == V.Removed(old(areas), k)
    {
      Unlink(vma, k);
      NoteRemoved(old(nodes), k);
      FreeVma(vma);
    }

    // ---- both calls in turn ----

    /** All links follow from the order of the nodes. */
    lemma LinksAre()
      requires Valid() && HeadClean()
      ensures head == (if nodes == [] then null else nodes[0]) && free == if spare == [] then null else spare[0]
      ensures |nodes| == |areas|
      ensures forall i {:trigger nodes[i].next} :: 0 <= i < |nodes| ==>
        nodes[i].next == if i + 1 < |nodes| then nodes[i + 1] else null
      ensures forall i {:trigger nodes[i].prev} :: 0 <= i < |nodes| ==>
        nodes[i].prev == if i > 0 then nodes[i - 1] else null
      ensures forall i {:trigger spare[i].next} :: 0 <= i < |spare| ==>
        spare[i].next == if i + 1 < |spare| then spare[i + 1] else null
    {
    }

    /** vfree of the range vmalloc_at has just returned. Unless the range was merged with the area to its right,
      * every node is back at its place on both lists, with its range, its flags and its links. */
    method AllocThenFree(start: nat, end: nat, npages: nat, flags: nat) returns (addr: Option<nat>, ok: bool)
      requires Valid() && HeadClean() && V.ListOk(areas)
      requires npages > 0 && V.NoWrap(areas, start, npages * PAGE_SIZE)
      modifies this, nodes, spare
      ensures V.VmallocAt(old(State()), start, end, npages, flags).Done? <==> addr.Some?
      ensures addr.Some? && addr.value % PAGE_SIZE == 0 ==>
        (ok && State() == old(State()) <==> !V.JoinsRight(old(areas), start, end, npages * PAGE_SIZE, flags))
      ensures (addr.Some? && addr.value % PAGE_SIZE == 0
        && !V.JoinsRight(old(areas), start, end, npages * PAGE_SIZE, flags)) ==>
        && nodes == old(nodes) && spare == old(spare) && Valid() && HeadClean()
        && head == old(head) && free == old(free)
        && (forall i {:trigger nodes[i].next} :: 0 <= i < |nodes| ==> nodes[i].next == old(nodes[i].next))
        && (forall i {:trigger nodes[i].prev} :: 0 <= i < |nodes| ==> nodes[i].prev == old(nodes[i].prev))
        && (forall i {:trigger spare[i].next} :: 0 <= i < |spare| ==> spare[i].next == old(spare[i].next))
    {
      hide V.VmallocAt, V.ListOk, V.NoWrap, V.Vfree, V.JoinsRight, V.Inserted, V.Removed, V.Grows;
      hide N.VmallocEdit, N.VfreeEdit, N.Edited, N.Applies, VmaList.Linked, VmaList.Holds, VmaList.HeadClean;
      LinksAre();
      addr := VmallocAt(start, end, npages, flags);
      ok := false;
      if addr.Some? && addr.value % PAGE_SIZE == 0 {
        V.VmallocCorrect(old(State()), start, end, npages, flags);
        ghost var vm := State();
        N.DrawnFrom(N.VmallocEdit(old(areas), start, end, npages * PAGE_SIZE, flags), old(nodes), old(spare));
        assert forall i :: 0 <= i < |nodes| ==> nodes[i] in old(nodes) || nodes[i] in old(spare);
        assert forall i :: 0 <= i < |spare| ==> spare[i] in old(nodes) || spare[i] in old(spare);
        ghost var stale := if spare == [] then 0 else spare[0].flags;
        ok := Vfree(addr.value, npages);
        V.VfreeUndoesVmalloc(old(State()), start, end, npages, flags, vm, addr.value, stale);
        if !V.JoinsRight(old(areas), start, end, npages * PAGE_SIZE, flags) {
          N.VfreeUndoesEdit(old(State()), start, end, npages, flags, vm, addr.value, old(nodes), old(spare));
          LinksAre();
        }
      }
    }

    /** One call; None where it panics. */
    method Do(c: N.Call) returns (addr: Option<nat>)
      requires Valid() && HeadClean() && V.ListOk(areas) && N.Allowed(State(), c)
      modifies this, nodes, spare
      ensures N.Step(old(State()), c) == if addr.Some? then Done((State(), addr.value)) else Panic
      ensures addr.Some? && V.ListOk(areas) ==> Valid() && HeadClean()
      ensures addr.Some? ==> var e := N.StepEdit(old(areas), c);
        N.Applies(e, old(nodes), old(spare)) && (nodes, spare) == N.Edited(e, old(nodes), old(spare))
    {
      hide V.VmallocAt, V.ListOk, N.VmallocEdit, N.VfreeEdit, N.Edited, N.Applies, N.Allowed;
      match c
      case Alloc(r) =>
        addr := VmallocAt(r.start, r.end, r.npages, r.flags);
      case Free(address, npages) =>
        N.StaleIsUnused(State(), c, if spare == [] then 0 else spare[0].flags);
        hide V.Vfree;
        var ok := Vfree(address, npages);
        addr := if ok then Some(address - address % PAGE_SIZE) else None;
    }

    /** A run of both calls on the list, each vfree up to the end of its area. None where a call panics. */
    method Run(calls: seq<N.Call>, ghost bound: nat) returns (addrs: Option<seq<nat>>)
      requires Valid() && HeadClean() && V.ListOk(areas)
      requires N.Fits(areas, calls, bound) && N.RunAllowed(State(), calls)
      modifies this, nodes, spare
      ensures N.Run(old(State()), calls) == if addrs.Some? then Done((State(), addrs.value)) else Panic
      ensures addrs.Some? ==> Valid() && HeadClean() && V.ListOk(areas)
      ensures addrs.Some? ==> |addrs.value| == |calls| && N.Sound(old(areas), areas, calls, addrs.value)
      ensures addrs.Some? ==> multiset(nodes) + multiset(spare) == multiset(old(nodes)) + multiset(old(spare))
      decreases |calls|
    {
      hide V.ListOk, N.Step, N.StepEdit, N.Edited, N.Applies, N.Sound, N.Allowed;
      if calls == [] {
        N.RunCorrect(State(), calls, bound);
        return Some([]);
      }
      ghost var vm := State();
      ghost var e := N.StepEdit(areas, calls[0]);
      N.FitsParts(areas, calls, bound);
      hide N.Fits;
      var addr := Do(calls[0]);
      if addr == None {
        return None;
      }
      N.StepCorrect(vm, calls[0], bound);
      N.FitsJoined(areas, calls[1..], bound);
      N.DrawnFrom(e, old(nodes), old(spare));
      N.EditConserves(e, old(nodes), old(spare));
      assert forall i :: 0 <= i < |nodes| ==> nodes[i] in old(nodes) || nodes[i] in old(spare);
      assert forall i :: 0 <= i < |spare| ==> spare[i] in old(nodes) || spare[i] in old(spare);
      var rest := Run(calls[1..], bound);
      if rest == None {
        return None;
      }
      N.RunCorrect(vm, calls, bound);
      addrs := Some([addr.value] + rest.value);
    }
  }
}
