/** The direct map of physical memory at the higher-half offset (kernel/arch/x86_64/mman.c). */
module DirectMap {
  import opened Wrappers
  import opened Arith
  import opened Linaddr
  import opened PageTree
  import opened Paging
  import opened EarlyMapping

  function Bytes(size: MapSize): nat {
    match size
    case Size4K => PAGE_SIZE
    case Size2M => TWO_21
    case Size1G => TWO_30
  }

  datatype Block = Block(start: nat, size: MapSize) {
    function End(): nat { start + Bytes(size) }

    predicate Aligned() { start % Bytes(size) == 0 }

    predicate Has(x: nat) { start <= x < End() }
  }

  /** The blocks follow each other from lo to hi. */
  ghost predicate IsTiling(blocks: seq<Block>, lo: nat, hi: nat) {
    if blocks == [] then lo == hi else
    var last := blocks[|blocks| - 1];
    last.Aligned() && last.End() == hi && IsTiling(blocks[..|blocks| - 1], lo, last.start)
  }

  // ---- geometry of linear addresses ----

  lemma SamePage(a: nat, b: nat)
    requires Canonical(a) && Canonical(b)
    ensures Pml4i(a) == Pml4i(b) && Pdpti(a) == Pdpti(b) <==> a / TWO_30 == b / TWO_30
    ensures Pml4i(a) == Pml4i(b) && Pdpti(a) == Pdpti(b) && Pdi(a) == Pdi(b) <==> a / TWO_21 == b / TWO_21
    ensures PageOf(a) == PageOf(b) <==> a / PAGE_SIZE == b / PAGE_SIZE
  {
    Numbers(a);
    Numbers(b);
  }

  /** Page, 2 MiB and 1 GiB numbers of a canonical address from its indices. */
  lemma Numbers(a: nat)
    requires Canonical(a)
    ensures var top := if Pml4i(a) < 256 then 0 else 0xffff;
      && a / TWO_30 == (top * 512 + Pml4i(a)) * 512 + Pdpti(a)
      && a / TWO_21 == a / TWO_30 * 512 + Pdi(a)
      && a / PAGE_SIZE == a / TWO_21 * 512 + Pti(a)
  {
    assert a / TWO_21 == a / PAGE_SIZE / 512;
    assert a / TWO_30 == a / TWO_21 / 512;
    assert a / TWO_39 == a / TWO_30 / 512;
    assert a / TWO_48 == a / TWO_39 / 512;
    assert a / TWO_48 == if a < TWO_47 then 0 else 0xffff;
    assert a / TWO_47 == a / TWO_39 / 256;
  }

  lemma BlockAddresses(start: nat, a: nat, size: MapSize)
    requires Canonical(start) && Canonical(a) && start % Bytes(size) == 0
    ensures InBlock(PageOf(a), PageOf(start), size) <==> start <= a < start + Bytes(size)
  {
    SamePage(a, start);
    match size
    case Size4K => assert a / PAGE_SIZE == start / PAGE_SIZE <==> start <= a < start + PAGE_SIZE;
    case Size2M => assert a / TWO_21 == start / TWO_21 <==> start <= a < start + TWO_21;
    case Size1G => assert a / TWO_30 == start / TWO_30 <==> start <= a < start + TWO_30;
  }

  // ---- placing the blocks of a region ----

  /** The early_map calls for the blocks, in order. */
  function PlaceAll(s: Machine, hhdm: nat, blocks: seq<Block>, flags: nat): Outcome<Machine> {
    if blocks == [] then Done(s) else
    var last := blocks[|blocks| - 1];
    var s1 :- PlaceAll(s, hhdm, blocks[..|blocks| - 1], flags);
    EarlyMap(s1, hhdm + last.start, last.start, last.size, flags)
  }

  /** Where an access to a linear address goes, and what it may do there. */
  datatype Access = Access(phys: nat, rights: Rights)

  function Tr(s: Machine, a: nat): Option<Access> {
    var leaf := Walk(s.mem, s.root, PageOf(a));
    if leaf.None? then None else Some(Access(Translate(s.mem, s.root, a).value, leaf.value.rights))
  }

  /** The address goes to phys, where code runs as the flags say, and writes are let through if the flags
    * say so: a page of 2 MiB or 1 GiB may always be written. */
  predicate Reaches(t: Option<Access>, phys: int, flags: nat) {
    && t.Some? && t.value.phys == phys
    && t.value.rights.execute == RightsIn(flags).execute && (RightsIn(flags).write ==> t.value.rights.write)
  }

  /** A 1 GiB aligned offset, with all of [hhdm + lo, hhdm + hi) in the given PML4 slots of the
    * upper half. */
  ghost predicate Window(hhdm: nat, lo: nat, hi: nat, slots: set<Index>) {
    && hhdm % TWO_30 == 0 && TWO_64 - TWO_47 <= hhdm && hhdm + hi <= TWO_64 && lo <= hi <= TWO_52
    && forall a :: hhdm + lo <= a < hhdm + hi ==> Pml4i(a) in slots
  }

  /** s is s0 with the physical range [lo, hi) mapped at hhdm, byte for byte and with the rights in flags. */
  ghost predicate Direct(s0: Machine, s: Machine, slots: set<Index>, hhdm: nat, lo: nat, hi: nat, flags: nat) {
    && BootInv(s, slots) && s.root == s0.root && s.refs == s0.refs
    && (forall a: nat :: Canonical(a) && Pml4i(a) != RECURSIVE_SLOT ==>
          if hhdm + lo <= a < hhdm + hi then Reaches(Tr(s, a), a - hhdm, flags) else Tr(s, a) == Tr(s0, a))
    && (forall f :: Owned(s, f) <==> Owned(s0, f))
  }

  lemma BlockIsUnmapped(s: Machine, start: nat, size: MapSize)
    requires Canonical(start) && start % Bytes(size) == 0
    requires forall a: nat :: Canonical(a) && start <= a < start + Bytes(size) ==> Tr(s, a).None?
    ensures Unmapped(s, PageOf(start), size)
  {
    forall u: VPage | InBlock(u, PageOf(start), size) ensures Walk(s.mem, s.root, u).None? {
      var a := BuildLinaddr(u.i4, u.i3, u.i2, u.i1, 0);
      BuildFields(u.i4, u.i3, u.i2, u.i1, 0);
      BlockAddresses(start, a, size);
      assert Tr(s, a).None?;
    }
  }

  lemma LowBits(hhdm: nat, start: nat, size: MapSize, a: nat)
    requires (hhdm + start) % Bytes(size) == 0 && start % Bytes(size) == 0
    requires hhdm + start <= a < hhdm + start + Bytes(size)
    ensures start / Bytes(size) * Bytes(size) + a % Bytes(size) == a - hhdm
  {
    hide Bytes;
    AddLow(hhdm + start, Bytes(size), a - (hhdm + start));
    WholeMultiple(start, Bytes(size));
  }

  lemma AlignedSum(hhdm: nat, start: nat, size: MapSize)
    requires hhdm % TWO_30 == 0 && start % Bytes(size) == 0
    ensures (hhdm + start) % Bytes(size) == 0 && start % PAGE_SIZE == 0
  {
    Coarser(hhdm, PAGE_SIZE, TWO_18);
    Coarser(hhdm, TWO_21, 512);
    Coarser(start, PAGE_SIZE, TWO_18);
    Coarser(start, PAGE_SIZE, 512);
    SumAligned(hhdm, start, Bytes(size));
  }

  /** What Translate makes of a leaf. */
  lemma LeafTranslate(phys: nat, size: MapSize, flags: nat, m: Memory, root: nat, a: nat)
    requires PhysPage(phys) && phys % Bytes(size) == 0 && FlagsOk(flags)
    requires Walk(m, root, PageOf(a)) == Some(LeafOf(phys, size, flags))
    ensures Translate(m, root, a) == Some(phys / Bytes(size) * Bytes(size) + a % Bytes(size))
  {
    LeafWordFacts(phys, flags);
    LargeWordFacts(phys, flags);
    TranslateIs(m, root, a);
    hide *;
    match size
    case Size4K =>
      SizeIs(size, phys, flags);
      WholeMultiple(phys, Bytes(size));
    case Size2M => SizeIs(size, phys, flags);
    case Size1G => SizeIs(size, phys, flags);
  }

  lemma TranslateIs(m: Memory, root: nat, a: nat)
    requires Walk(m, root, PageOf(a)).Some?
    ensures Translate(m, root, a) ==
      match Walk(m, root, PageOf(a)).value
      case Leaf4K(w, _) => Some(EntryAddr(w) + a % PAGE_SIZE)
      case Leaf2M(w, _) => Some(EntryAddr(w) / TWO_21 * TWO_21 + a % TWO_21)
      case Leaf1G(w, _) => Some(EntryAddr(w) / TWO_30 * TWO_30 + a % TWO_30)
  {
    hide Walk, EntryAddr, PageOf;
  }

  lemma SizeIs(size: MapSize, phys: nat, flags: nat)
    ensures Bytes(size) == match size case Size4K => PAGE_SIZE case Size2M => TWO_21 case Size1G => TWO_30
    ensures LeafOf(phys, size, flags) == match size
      case Size4K => Leaf4K(LeafWord(phys, flags), RightsIn(LeafWord(phys, flags)))
      case Size2M => Leaf2M(LargeWord(phys, flags), RightsIn(LargeWord(phys, flags)))
      case Size1G => Leaf1G(LargeWord(phys, flags), RightsIn(LargeWord(phys, flags)))
  {
    hide LeafWord, LargeWord, RightsIn;
  }

  lemma BlockTranslates(s: Machine, s': Machine, hhdm: nat, b: Block, flags: nat, a: nat)
    requires b.Aligned() && hhdm % TWO_30 == 0 && Canonical(hhdm + b.start) && Canonical(a)
    requires Pml4i(a) != RECURSIVE_SLOT
    requires PhysPage(b.start) && FlagsOk(flags)
    requires MapsBlock(s, s', PageOf(hhdm + b.start), b.start, b.size, flags)
    ensures if hhdm + b.start <= a < hhdm + b.End() then Reaches(Tr(s', a), a - hhdm, flags) else Tr(s', a) == Tr(s, a)
  {
    hide Present, Large, EntryAddr, Pml4i, Pdpti, Pdi, Pti, RightsIn, IsOr, Canonical, PhysPage, InBlock, LeafOf;
    AlignedSum(hhdm, b.start, b.size);
    BlockAddresses(hhdm + b.start, a, b.size);
    if hhdm + b.start <= a < hhdm + b.End() {
      LeafTranslate(b.start, b.size, flags, s'.mem, s'.root, a);
      LowBits(hhdm, b.start, b.size, a);
    }
  }

  lemma WindowPart(hhdm: nat, lo: nat, mid: nat, hi: nat, slots: set<Index>)
    requires Window(hhdm, lo, hi, slots) && lo <= mid <= hi
    ensures Window(hhdm, lo, mid, slots)
  {
    hide Pml4i;
  }

  /** The next block of a region is unmapped. */
  lemma NextIsUnmapped(s0: Machine, s: Machine, slots: set<Index>, hhdm: nat, lo: nat, b: Block, flags: nat)
    requires Direct(s0, s, slots, hhdm, lo, b.start, flags) && lo <= b.start && b.Aligned()
    requires Window(hhdm, lo, b.End(), slots)
    requires forall a: nat :: hhdm + b.start <= a < hhdm + b.End() ==> Tr(s0, a).None?
    ensures Canonical(hhdm + b.start) && Pml4i(hhdm + b.start) in slots
    ensures Unmapped(s, PageOf(hhdm + b.start), b.size)
  {
    hide Present, Large, EntryAddr, PageOf;
    var virt := hhdm + b.start;
    AlignedSum(hhdm, b.start, b.size);
    assert Pml4i(virt) in slots;
    forall a: nat | Canonical(a) && virt <= a < virt + Bytes(b.size) ensures Tr(s, a).None? {
      assert Pml4i(a) in slots;
    }
    BlockIsUnmapped(s, virt, b.size);
  }

  /** early_map refuses the next block of a region only for want of frames. */
  lemma RefusedForFrames(s0: Machine, s: Machine, slots: set<Index>, hhdm: nat, lo: nat, b: Block, flags: nat)
    requires Direct(s0, s, slots, hhdm, lo, b.start, flags) && lo <= b.start && b.Aligned()
    requires Window(hhdm, lo, b.End(), slots) && FlagsOk(flags)
    requires forall a: nat :: hhdm + b.start <= a < hhdm + b.End() ==> Tr(s0, a).None?
    ensures EarlyMap(s, hhdm + b.start, b.start, b.size, flags) == Panic <==>
      |s.pool| < MissingFor(s, PageOf(hhdm + b.start), b.size)
  {
    NextIsUnmapped(s0, s, slots, hhdm, lo, b, flags);
    AlignedSum(hhdm, b.start, b.size);
    hide Tr, Unmapped, EarlyMap, MissingFor, Pml4i, PageOf;
    EarlyMapCorrect(s, slots, hhdm + b.start, b.start, b.size, flags);
  }

  lemma PlaceNext(s0: Machine, s: Machine, s': Machine, slots: set<Index>, hhdm: nat, lo: nat, b: Block, flags: nat)
    requires Direct(s0, s, slots, hhdm, lo, b.start, flags) && lo <= b.start && b.Aligned()
    requires Window(hhdm, lo, b.End(), slots) && FlagsOk(flags)
    requires forall a: nat :: hhdm + b.start <= a < hhdm + b.End() ==> Tr(s0, a).None?
    requires EarlyMap(s, hhdm + b.start, b.start, b.size, flags) == Done(s')
    ensures Direct(s0, s', slots, hhdm, lo, b.End(), flags)
  {
    hide Present, Large, EntryAddr, EarlyAt, PageOf;
    var virt := hhdm + b.start;
    NextIsUnmapped(s0, s, slots, hhdm, lo, b, flags);
    AlignedSum(hhdm, b.start, b.size);
    EarlyMapCorrect(s, slots, virt, b.start, b.size, flags);
    forall a: nat | Canonical(a) && Pml4i(a) != RECURSIVE_SLOT
      ensures if hhdm + lo <= a < hhdm + b.End() then Reaches(Tr(s', a), a - hhdm, flags) else Tr(s', a) == Tr(s0, a)
    {
      BlockTranslates(s, s', hhdm, b, flags, a);
    }
  }

  /** Placing any tiling of a region by aligned blocks maps __va(p) to p for exactly the bytes
    * of the region, and leaves every other address alone. */
  lemma {:induction false} RegionMapped(s0: Machine, s: Machine, slots: set<Index>, hhdm: nat, lo: nat, hi: nat,
                                        blocks: seq<Block>, flags: nat)
    requires BootInv(s0, slots) && Window(hhdm, lo, hi, slots) && FlagsOk(flags)
    requires IsTiling(blocks, lo, hi)
    requires forall a: nat :: hhdm + lo <= a < hhdm + hi ==> Tr(s0, a).None?
    requires PlaceAll(s0, hhdm, blocks, flags) == Done(s)
    ensures Direct(s0, s, slots, hhdm, lo, hi, flags)
    decreases |blocks|
  {
    hide EarlyMap, Canonical, Tr, BootInv, Owned, Pml4i, FlagsOk;
    if blocks != [] {
      var front, last := blocks[..|blocks| - 1], blocks[|blocks| - 1];
      TilingGrows(front, lo, last.start);
      var r := PlaceAll(s0, hhdm, front, flags);
      RegionMapped(s0, r.value, slots, hhdm, lo, last.start, front, flags);
      PlaceNext(s0, r.value, s, slots, hhdm, lo, last, flags);
    }
  }

  lemma {:induction false} TilingGrows(blocks: seq<Block>, lo: nat, hi: nat)
    requires IsTiling(blocks, lo, hi)
    ensures lo <= hi
    ensures forall b :: b in blocks ==> lo <= b.start && b.End() <= hi && b.Aligned()
    decreases |blocks|
  {
    if blocks != [] {
      var front, last := blocks[..|blocks| - 1], blocks[|blocks| - 1];
      TilingGrows(front, lo, last.start);
      forall b | b in blocks ensures lo <= b.start && b.End() <= hi && b.Aligned() {
        assert blocks == front + [last];
      }
    }
  }
}
