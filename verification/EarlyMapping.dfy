/** early_map: pages of three sizes, placed at boot (kernel/arch/x86_64/paging.c). */
module EarlyMapping {
  import opened Wrappers
  import opened Linaddr
  import opened PageTree
  import opened Paging

  datatype MapSize = Size4K | Size2M | Size1G

  /** early_map for a page-aligned physical address, from the top and from each table on. */
  function EarlyAt(s: Machine, v: VPage, phys: nat, size: MapSize, flags: nat): Outcome<Machine> {
    var s1 :- EnsureTable(s, s.root, v.i4, false);
    EarlyFrom3(s1, v, EntryAddr(s1.mem(s.root, v.i4)), phys, size, flags)
  }

  function EarlyFrom2(s2: Machine, v: VPage, t2: nat, phys: nat, size: MapSize, flags: nat): Outcome<Machine> {
    if size.Size2M? then Done(s2.(mem := Write(s2.mem, t2, v.i2, LargeWord(phys, flags)))) else
    var s3 :- EnsureTable(s2, t2, v.i2, false);
    var t1 := EntryAddr(s3.mem(t2, v.i2));
    Done(s3.(mem := Write(s3.mem, t1, v.i1, LeafWord(phys, flags))))
  }

  function EarlyFrom3(s1: Machine, v: VPage, t3: nat, phys: nat, size: MapSize, flags: nat): Outcome<Machine> {
    if size.Size1G? then Done(s1.(mem := Write(s1.mem, t3, v.i3, LargeWord(phys, flags)))) else
    var s2 :- EnsureTable(s1, t3, v.i3, false);
    EarlyFrom2(s2, v, EntryAddr(s2.mem(t3, v.i3)), phys, size, flags)
  }

  function EarlyMap(s: Machine, virt: nat, physAddr: nat, size: MapSize, flags: nat): Outcome<Machine> {
    if virt == 0 then Panic else EarlyAt(s, PageOf(virt), physAddr - physAddr % PAGE_SIZE, size, flags)
  }

  // ---- blocks of pages ----

  /** u lies in the page of the given size that starts at v. */
  predicate InBlock(u: VPage, v: VPage, size: MapSize) {
    && u.i4 == v.i4 && u.i3 == v.i3
    && (size.Size1G? || u.i2 == v.i2)
    && (size.Size4K? ==> u.i1 == v.i1)
  }

  function LeafOf(phys: nat, size: MapSize, flags: nat): Leaf {
    var w := HolderWord(phys, size, flags);
    match size
    case Size4K => Leaf4K(w, RightsIn(w))
    case Size2M => Leaf2M(w, RightsIn(w))
    case Size1G => Leaf1G(w, RightsIn(w))
  }

  /** A page of the given size and frame whose entry has each flag asked for, and the rights the flags give;
    * a large page has its size bit and may always be written. */
  ghost predicate IsBlock(l: Leaf, phys: nat, size: MapSize, flags: nat) {
    && (size.Size4K? <==> l.Leaf4K?) && (size.Size2M? <==> l.Leaf2M?) && EntryAddr(l.word) == phys
    && IsOr(l.word, phys, flags, if size.Size4K? then {0} else {0, 1, 7})
    && l.rights == Rights(RightsIn(flags).write || !size.Size4K?, RightsIn(flags).execute)
  }

  lemma LeafOfIs(phys: nat, size: MapSize, flags: nat)
    requires PhysPage(phys) && FlagsOk(flags)
    ensures IsBlock(LeafOf(phys, size, flags), phys, size, flags)
  {
    LeafWordFacts(phys, flags);
    LargeWordFacts(phys, flags);
    hide IsOr, RightsIn, EntryAddr, LeafWord, LargeWord;
  }

  /** The table whose entry maps a page of the given size at v, and the index of the entry. */
  function Holder(v: VPage, size: MapSize): Node {
    match size
    case Size4K => Pt(v)
    case Size2M => Pd(v)
    case Size1G => Pdpt(v)
  }

  function Slot(v: VPage, size: MapSize): Index {
    match size
    case Size4K => v.i1
    case Size2M => v.i2
    case Size1G => v.i3
  }

  function HolderWord(phys: nat, size: MapSize, flags: nat): nat {
    if size.Size4K? then LeafWord(phys, flags) else LargeWord(phys, flags)
  }

  predicate OnPath(n: Node, u: VPage) {
    n == Pdpt(u) || n == Pd(u) || n == Pt(u)
  }

  // ---- the invariant of the boot tables ----

  /** Every table under the given slots, but for those on the path of v, leads to a mapped page. */
  ghost predicate FertileBut(m: Memory, root: nat, slots: set<Index>, v: VPage) {
    forall n :: Managed(slots, n) && !OnPath(n, v) && TableAt(m, root, n).Some? ==>
      exists u: VPage :: OnPath(n, u) && Walk(m, root, u).Some?
  }

  ghost predicate Fertile(m: Memory, root: nat, slots: set<Index>) {
    forall n :: Managed(slots, n) && TableAt(m, root, n).Some? ==>
      exists u: VPage :: OnPath(n, u) && Walk(m, root, u).Some?
  }

  ghost predicate BootInv(s: Machine, slots: set<Index>) {
    && RECURSIVE_SLOT !in slots
    && TreeShaped(s.mem, s.root)
    && PoolOk(s)
    && Fertile(s.mem, s.root, slots)
    && Permissive(s.mem, s.root, slots)
  }

  /** No page of the block is mapped. */
  ghost predicate Unmapped(s: Machine, v: VPage, size: MapSize) {
    forall u: VPage :: InBlock(u, v, size) ==> Walk(s.mem, s.root, u).None?
  }

  /** In an unmapped block, the entry for the block is free and no large page lies on the way. */
  lemma WayIsClear(s: Machine, slots: set<Index>, v: VPage, size: MapSize)
    requires BootInv(s, slots) && v.i4 in slots && Unmapped(s, v, size)
    ensures T(s, Pdpt(v)).Some? && !size.Size1G? && Present(s.mem(T(s, Pdpt(v)).value, v.i3)) ==> T(s, Pd(v)).Some?
    ensures T(s, Pd(v)).Some? && size.Size4K? && Present(s.mem(T(s, Pd(v)).value, v.i2)) ==> T(s, Pt(v)).Some?
    ensures T(s, Holder(v, size)).Some? ==> !Present(s.mem(T(s, Holder(v, size)).value, Slot(v, size)))
  {
    PathFacts(v);
    WalkByTables(s.mem, s.root, v);
    assert InBlock(v, v, size);
    if !size.Size4K? {
      var c := Child(Holder(v, size), Slot(v, size));
      assert Managed(slots, c);
      forall u: VPage | OnPath(c, u) ensures InBlock(u, v, size) {
        PathFacts(u);
      }
    }
  }

  // ---- one table on the way ----

  /** m1 reaches from s by making tables on the path of v. */
  ghost predicate OnTheWay(s: Machine, s1: Machine, slots: set<Index>, v: VPage, n: Node) {
    && s1.root == s.root && RECURSIVE_SLOT !in slots
    && TreeShaped(s1.mem, s1.root)
    && PoolOk(s1)
    && FertileBut(s1.mem, s1.root, slots, v)
    && Permissive(s1.mem, s1.root, slots)
    && SameWalks(s.mem, s1.mem, s.root)
    && (forall f :: Owned(s1, f) <==> Owned(s, f))
    && s1.refs == s.refs
    && T(s1, n).Some?
  }

  lemma EnsureOnTheWay(s: Machine, s1: Machine, slots: set<Index>, v: VPage, n: Node, i: Index)
    requires OnTheWay(s, s1, slots, v, n) && OnPath(Child(n, i), v) && v.i4 in slots
    requires Present(s1.mem(T(s1, n).value, i)) ==> T(s1, Child(n, i)).Some?
    ensures var r := EnsureTable(s1, T(s1, n).value, i, false);
      && (r.Done? <==> T(s1, Child(n, i)).Some? || s1.pool != [])
      && (r.Done? ==>
        && OnTheWay(s, r.value, slots, v, Child(n, i))
        && T(r.value, Child(n, i)) == Some(EntryAddr(r.value.mem(T(s1, n).value, i)))
        && SameTablesBut(s1.mem, r.value.mem, s.root, Child(n, i))
        && |r.value.pool| == |s1.pool| - (if T(s1, Child(n, i)).None? then 1 else 0)
        && (T(s1, Child(n, i)).None? ==> forall j: Index :: !Present(r.value.mem(T(r.value, Child(n, i)).value, j))))
  {
    PathFacts(v);
    var t := T(s1, n).value;
    if !Present(s1.mem(t, i)) && s1.pool != [] {
      var f := s1.pool[|s1.pool| - 1];
      var s2 := EnsureTable(s1, t, i, false).value;
      NewTable(s1, slots, n, i, f, s2.mem);
      EnsurePool(s1, t, f, s2);
      StaysPermissive(s1.mem, s2.mem, s1.root, slots, n, i);
      StaysFertile(s1.mem, s2.mem, s.root, slots, v, Child(n, i));
      hide TreeShaped, FertileBut, TableAt, Walk, OnPath, Managed;
    }
  }

  /** A new table on the path of v leaves the other tables leading to mapped pages. */
  lemma StaysFertile(m1: Memory, m2: Memory, root: nat, slots: set<Index>, v: VPage, c: Node)
    requires FertileBut(m1, root, slots, v) && RECURSIVE_SLOT !in slots && OnPath(c, v)
    requires SameTablesBut(m1, m2, root, c) && SameWalks(m1, m2, root)
    ensures FertileBut(m2, root, slots, v)
  {
    forall k | Managed(slots, k) && !OnPath(k, v) && TableAt(m2, root, k).Some?
      ensures exists u: VPage :: OnPath(k, u) && Walk(m2, root, u).Some?
    {
      assert TableAt(m1, root, k).Some?;
      var u: VPage :| OnPath(k, u) && Walk(m1, root, u).Some?;
      PathFacts(u);
      assert u.i4 in slots && Walk(m2, root, u).Some?;
    }
  }

  // ---- the entry itself ----

  /** A free entry gets a leaf of the given size. */
  lemma LeafPlaced(s: Machine, slots: set<Index>, v: VPage, phys: nat, size: MapSize, flags: nat, m: Memory)
    requires TreeShaped(s.mem, s.root) && v.i4 in slots && RECURSIVE_SLOT !in slots
    requires Permissive(s.mem, s.root, slots)
    requires T(s, Holder(v, size)).Some? && !Present(s.mem(T(s, Holder(v, size)).value, Slot(v, size)))
    requires PhysPage(phys) && FlagsOk(flags)
    requires m == Write(s.mem, T(s, Holder(v, size)).value, Slot(v, size), HolderWord(phys, size, flags))
    ensures forall k :: TableAt(m, s.root, k) == T(s, k)
    ensures Permissive(m, s.root, slots)
    ensures forall u: VPage :: u.i4 != RECURSIVE_SLOT ==>
      Walk(m, s.root, u) == if InBlock(u, v, size) then Some(LeafOf(phys, size, flags)) else Walk(s.mem, s.root, u)
  {
    var n, i := Holder(v, size), Slot(v, size);
    PathFacts(v);
    LeafWordFacts(phys, flags);
    LargeWordFacts(phys, flags);
    AllTablesStay(s.mem, m, s.root, n, i);
    hide RightsIn, EntryAddr, IsOr;
    assert T(s, Child(n, i)).None? && TableAt(m, s.root, Child(n, i)).None?;
    StaysPermissive(s.mem, m, s.root, slots, n, i);
    forall u: VPage | u.i4 != RECURSIVE_SLOT
      ensures Walk(m, s.root, u) ==
        if InBlock(u, v, size) then Some(LeafOf(phys, size, flags)) else Walk(s.mem, s.root, u)
    {
      PathFacts(u);
      if InBlock(u, v, size) {
        WalkByTables(m, s.root, u);
        LeafRights(m, s.root, slots, u);
      } else {
        SameWalk(s.mem, m, s.root, n, i, u);
      }
    }
  }

  /** The last write makes the path fertile again. */
  lemma PlacedKeeps(s: Machine, s1: Machine, slots: set<Index>, v: VPage, phys: nat, size: MapSize, flags: nat)
    requires OnTheWay(s, s1, slots, v, Holder(v, size)) && v.i4 in slots
    requires !Present(s1.mem(T(s1, Holder(v, size)).value, Slot(v, size)))
    requires PhysPage(phys) && FlagsOk(flags)
    ensures var t := T(s1, Holder(v, size)).value;
      var s2 := s1.(mem := Write(s1.mem, t, Slot(v, size), HolderWord(phys, size, flags)));
      BootInv(s2, slots) && MapsBlock(s, s2, v, phys, size, flags)
  {
    var s2 := s1.(mem := Write(s1.mem, T(s1, Holder(v, size)).value, Slot(v, size), HolderWord(phys, size, flags)));
    LeafPlaced(s1, slots, v, phys, size, flags, s2.mem);
    LeafOfIs(phys, size, flags);
    PlacedFertile(s1, s2, slots, v, size);
    forall g: nat ensures IsTable(s2.mem, s.root, g) <==> IsTable(s1.mem, s.root, g) {
      if IsTable(s1.mem, s.root, g) {
        var k :| TableAt(s1.mem, s.root, k) == Some(g);
        assert TableAt(s2.mem, s.root, k) == Some(g);
      }
      if IsTable(s2.mem, s.root, g) {
        var k :| TableAt(s2.mem, s.root, k) == Some(g);
        assert T(s1, k) == Some(g);
      }
    }
  }

  lemma PlacedFertile(s1: Machine, s2: Machine, slots: set<Index>, v: VPage, size: MapSize)
    requires FertileBut(s1.mem, s1.root, slots, v) && s2.root == s1.root && RECURSIVE_SLOT !in slots && v.i4 in slots
    requires forall k :: TableAt(s2.mem, s1.root, k) == T(s1, k)
    requires forall u: VPage :: u.i4 != RECURSIVE_SLOT && (InBlock(u, v, size) || Walk(s1.mem, s1.root, u).Some?) ==>
      Walk(s2.mem, s1.root, u).Some?
    ensures Fertile(s2.mem, s2.root, slots)
  {
    forall n | Managed(slots, n) && TableAt(s2.mem, s2.root, n).Some?
      ensures exists u: VPage :: OnPath(n, u) && Walk(s2.mem, s2.root, u).Some?
    {
      if OnPath(n, v) {
        assert InBlock(v, v, size) && Walk(s2.mem, s2.root, v).Some?;
      } else {
        assert T(s1, n).Some?;
        var u: VPage :| OnPath(n, u) && Walk(s1.mem, s1.root, u).Some?;
        PathFacts(u);
        assert Walk(s2.mem, s2.root, u).Some?;
      }
    }
  }

  /** Exactly the pages of the block get the leaf, with the flags and rights asked for; nothing else changes. */
  ghost predicate MapsBlock(s: Machine, s': Machine, v: VPage, phys: nat, size: MapSize, flags: nat) {
    && s'.root == s.root && s'.refs == s.refs
    && (forall u: VPage :: u.i4 != RECURSIVE_SLOT ==>
          Walk(s'.mem, s.root, u) ==
            if InBlock(u, v, size) then Some(LeafOf(phys, size, flags)) else Walk(s.mem, s.root, u))
    && IsBlock(LeafOf(phys, size, flags), phys, size, flags)
    && (forall f :: Owned(s', f) <==> Owned(s, f))
  }

  /** How many tables early_map has to create. */
  function MissingFor(s: Machine, v: VPage, size: MapSize): nat {
    (if T(s, Pdpt(v)).None? then 1 else 0)
    + (if !size.Size1G? && T(s, Pd(v)).None? then 1 else 0)
    + (if size.Size4K? && T(s, Pt(v)).None? then 1 else 0)
  }

  /** What early_map promises for a block. */
  ghost predicate PlacesBlock(s: Machine, r: Outcome<Machine>, slots: set<Index>, v: VPage, phys: nat, size: MapSize,
                              flags: nat) {
    && (r.Done? <==> MissingFor(s, v, size) <= |s.pool|)
    && (r.Done? ==>
      && BootInv(r.value, slots) && MapsBlock(s, r.value, v, phys, size, flags)
      && |r.value.pool| == |s.pool| - MissingFor(s, v, size))
  }

  ghost predicate FinalFree(s: Machine, v: VPage, size: MapSize) {
    T(s, Holder(v, size)).Some? ==> !Present(s.mem(T(s, Holder(v, size)).value, Slot(v, size)))
  }

  lemma From2(s: Machine, s2: Machine, slots: set<Index>, v: VPage, phys: nat, size: MapSize, flags: nat)
    requires OnTheWay(s, s2, slots, v, Pd(v)) && v.i4 in slots && !size.Size1G?
    requires size.Size4K? && Present(s2.mem(T(s2, Pd(v)).value, v.i2)) ==> T(s2, Pt(v)).Some?
    requires FinalFree(s2, v, size)
    requires PhysPage(phys) && FlagsOk(flags)
    ensures var r := EarlyFrom2(s2, v, T(s2, Pd(v)).value, phys, size, flags);
      var k := if size.Size4K? && T(s2, Pt(v)).None? then 1 else 0;
      && (r.Done? <==> k <= |s2.pool|)
      && (r.Done? ==>
        BootInv(r.value, slots) && MapsBlock(s, r.value, v, phys, size, flags) && |r.value.pool| == |s2.pool| - k)
  {
    if size.Size2M? {
      PlacedKeeps(s, s2, slots, v, phys, size, flags);
    } else {
      EnsureOnTheWay(s, s2, slots, v, Pd(v), v.i2);
      var r := EnsureTable(s2, T(s2, Pd(v)).value, v.i2, false);
      if r.Done? {
        PlacedKeeps(s, r.value, slots, v, phys, size, flags);
      }
    }
  }

  lemma From3(s: Machine, s1: Machine, slots: set<Index>, v: VPage, phys: nat, size: MapSize, flags: nat)
    requires OnTheWay(s, s1, slots, v, Pdpt(v)) && v.i4 in slots
    requires !size.Size1G? && Present(s1.mem(T(s1, Pdpt(v)).value, v.i3)) ==> T(s1, Pd(v)).Some?
    requires T(s1, Pd(v)).Some? && size.Size4K? && Present(s1.mem(T(s1, Pd(v)).value, v.i2)) ==> T(s1, Pt(v)).Some?
    requires FinalFree(s1, v, size)
    requires PhysPage(phys) && FlagsOk(flags)
    ensures var r := EarlyFrom3(s1, v, T(s1, Pdpt(v)).value, phys, size, flags);
      var k := (if !size.Size1G? && T(s1, Pd(v)).None? then 1 else 0)
        + (if size.Size4K? && T(s1, Pt(v)).None? then 1 else 0);
      && (r.Done? <==> k <= |s1.pool|)
      && (r.Done? ==>
        BootInv(r.value, slots) && MapsBlock(s, r.value, v, phys, size, flags) && |r.value.pool| == |s1.pool| - k)
  {
    if size.Size1G? {
      PlacedKeeps(s, s1, slots, v, phys, size, flags);
    } else {
      EnsureOnTheWay(s, s1, slots, v, Pdpt(v), v.i3);
      var r := EnsureTable(s1, T(s1, Pdpt(v)).value, v.i3, false);
      if r.Done? {
        From2(s, r.value, slots, v, phys, size, flags);
      }
    }
  }

  /** early_map of an unmapped block maps exactly the block, never passing or replacing a
    * large page, and fails only for want of frames. */
  lemma EarlyAtCorrect(s: Machine, slots: set<Index>, v: VPage, phys: nat, size: MapSize, flags: nat)
    requires BootInv(s, slots) && v.i4 in slots && Unmapped(s, v, size)
    requires PhysPage(phys) && FlagsOk(flags)
    ensures PlacesBlock(s, EarlyAt(s, v, phys, size, flags), slots, v, phys, size, flags)
  {
    PathFacts(v);
    WayIsClear(s, slots, v, size);
    WalkByTables(s.mem, s.root, v);
    assert OnTheWay(s, s, slots, v, Root);
    EnsureOnTheWay(s, s, slots, v, Root, v.i4);
    var r := EnsureTable(s, s.root, v.i4, false);
    if r.Done? {
      From3(s, r.value, slots, v, phys, size, flags);
    }
  }

  lemma EarlyMapCorrect(s: Machine, slots: set<Index>, virt: nat, phys: nat, size: MapSize, flags: nat)
    requires BootInv(s, slots) && virt != 0 && Pml4i(virt) in slots && Unmapped(s, PageOf(virt), size)
    requires PhysPage(phys) && FlagsOk(flags)
    ensures PlacesBlock(s, EarlyMap(s, virt, phys, size, flags), slots, PageOf(virt), phys, size, flags)
  {
    hide *;
    SlotOf(virt);
    EarlyMapIs(s, virt, phys, size, flags);
    EarlyAtCorrect(s, slots, PageOf(virt), phys, size, flags);
  }

  lemma SlotOf(a: nat)
    ensures PageOf(a).i4 == Pml4i(a)
  {
    hide Pml4i, Pdpti, Pdi, Pti;
  }

  lemma EarlyMapIs(s: Machine, virt: nat, phys: nat, size: MapSize, flags: nat)
    requires virt != 0 && PhysPage(phys)
    ensures EarlyMap(s, virt, phys, size, flags) == EarlyAt(s, PageOf(virt), phys, size, flags)
  {
    hide EarlyAt, PageOf;
  }
}
