/** The loops of mman_init that build the direct map (kernel/arch/x86_64/mman.c). */
module DirectMapper {
  import opened Wrappers
  import opened Arith
  import opened Linaddr
  import opened EarlyMapping
  import opened MemMap
  import opened PageTree
  import opened Paging
  import opened DirectMap
  import opened Tiling
  import Pager

  /** ptr is a multiple of u, or the last multiple before it lies before lo. */
  predicate Late(ptr: nat, lo: nat, u: nat)
    requires u > 0
  {
    ptr % u == 0 || AlignDown(ptr, u) < lo
  }

  /** The next multiple of u after ptr lies past hi. */
  predicate Tail(ptr: nat, hi: nat, u: nat)
    requires u > 0
  {
    AlignDown(ptr, u) + u > hi
  }

  /** A step that stays below the next multiple of u. */
  lemma StepInGroup(ptr: nat, u: nat, step: nat, k: nat)
    requires step > 0 && u == k * step && ptr % step == 0 && u > 0
    ensures (ptr + step) % step == 0
    ensures (ptr + step) % u == 0 || AlignDown(ptr + step, u) == AlignDown(ptr, u)
  {
    var n := ptr / step;
    Scaled(ptr, step, n);
    ModScaled(n, step, k);
    ModScaled(n + 1, step, k);
    SuccMod(n, k);
    var m := n % k;
    assert (m + 1) * step == m * step + step;
  }

  lemma Scaled(ptr: nat, step: nat, n: nat)
    requires step > 0 && ptr % step == 0 && n == ptr / step
    ensures ptr == n * step && ptr + step == (n + 1) * step && (ptr + step) % step == 0
  {
    DivModUnique(ptr + step, step, n + 1, 0);
  }

  lemma SuccMod(n: nat, k: nat)
    requires k > 0
    ensures (n + 1) % k == if n % k + 1 == k then 0 else n % k + 1
  {
    var q := n / k;
    assert n == q * k + n % k;
    if n % k + 1 == k {
      assert (q + 1) * k == q * k + k;
      DivModUnique(n + 1, k, q + 1, 0);
    } else {
      DivModUnique(n + 1, k, q, n % k + 1);
    }
  }

  lemma ModScaled(n: nat, d: nat, k: nat)
    requires d > 0 && k > 0
    ensures k * d > 0 && n * d % (k * d) == n % k * d
  {
    var q, r := n / k, n % k;
    Distribute(q, k, r, d);
    DivModUnique(n * d, k * d, q, r * d);
  }

  lemma Distribute(q: nat, k: nat, r: nat, d: nat)
    requires r < k && d > 0
    ensures (q * k + r) * d == q * (k * d) + r * d && r * d < k * d
  {
    AtLeast(k - r, d);
    assert (k - r) * d == k * d - r * d;
    assert (q * k + r) * d == q * k * d + r * d;
  }

  // ---- what each loop knows about its blocks ----

  /** Padding with small pages: no larger page fits because it would start before lo. */
  lemma HeadSmall(ptr: nat, lo: nat, hi: nat)
    requires ptr % PAGE_SIZE == 0 && ptr % TWO_21 != 0 && Late(ptr, lo, TWO_21) && Late(ptr, lo, TWO_30)
    ensures Maximal(Block(ptr, Size4K), lo, hi)
    ensures Late(ptr + PAGE_SIZE, lo, TWO_21) && Late(ptr + PAGE_SIZE, lo, TWO_30) && (ptr + PAGE_SIZE) % PAGE_SIZE == 0
  {
    Coarser(ptr, TWO_21, 512);
    StepInGroup(ptr, TWO_21, PAGE_SIZE, 512);
    StepInGroup(ptr, TWO_30, PAGE_SIZE, TWO_18);
  }

  lemma HeadLarge(ptr: nat, lo: nat, hi: nat)
    requires ptr % TWO_21 == 0 && ptr % TWO_30 != 0 && Late(ptr, lo, TWO_30)
    ensures Maximal(Block(ptr, Size2M), lo, hi)
    ensures Late(ptr + TWO_21, lo, TWO_30) && (ptr + TWO_21) % TWO_21 == 0 && (ptr + TWO_21) % PAGE_SIZE == 0
  {
    Coarser(ptr + TWO_21, PAGE_SIZE, 512);
    StepInGroup(ptr, TWO_30, TWO_21, 512);
  }

  lemma Huge(ptr: nat, lo: nat, hi: nat)
    requires ptr % TWO_30 == 0
    ensures Maximal(Block(ptr, Size1G), lo, hi)
    ensures (ptr + TWO_30) % TWO_30 == 0 && (ptr + TWO_30) % TWO_21 == 0 && (ptr + TWO_30) % PAGE_SIZE == 0
  {
    SumAligned(ptr, TWO_30, TWO_30);
    Coarser(ptr + TWO_30, PAGE_SIZE, TWO_18);
    Coarser(ptr + TWO_30, TWO_21, 512);
  }

  /** After the largest pages: no larger page fits because it would end past hi. */
  lemma TailLarge(ptr: nat, lo: nat, hi: nat)
    requires ptr % TWO_21 == 0 && Tail(ptr, hi, TWO_30) && ptr + TWO_21 <= hi
    ensures Maximal(Block(ptr, Size2M), lo, hi)
    ensures Tail(ptr + TWO_21, hi, TWO_30) && (ptr + TWO_21) % TWO_21 == 0 && (ptr + TWO_21) % PAGE_SIZE == 0
  {
    Coarser(ptr + TWO_21, PAGE_SIZE, 512);
    StepInGroup(ptr, TWO_30, TWO_21, 512);
  }

  lemma TailSmall(ptr: nat, lo: nat, hi: nat)
    requires ptr % PAGE_SIZE == 0 && Tail(ptr, hi, TWO_21) && Tail(ptr, hi, TWO_30) && ptr + PAGE_SIZE <= hi
    ensures Maximal(Block(ptr, Size4K), lo, hi)
    ensures Tail(ptr + PAGE_SIZE, hi, TWO_21) && Tail(ptr + PAGE_SIZE, hi, TWO_30) && (ptr + PAGE_SIZE) % PAGE_SIZE == 0
  {
    StepInGroup(ptr, TWO_21, PAGE_SIZE, 512);
    StepInGroup(ptr, TWO_30, PAGE_SIZE, TWO_18);
  }

  /** Little is left at a 2 MiB boundary. */
  lemma TailStarts(ptr: nat, hi: nat)
    requires ptr % TWO_21 == 0 && hi < ptr + TWO_21
    ensures Tail(ptr, hi, TWO_21) && Tail(ptr, hi, TWO_30)
  {
    var n := ptr / TWO_21;
    assert ptr == n * TWO_21;
    ModScaled(n, TWO_21, 512);
  }

  lemma TilingAppend(blocks: seq<Block>, b: Block, lo: nat)
    requires IsTiling(blocks, lo, b.start) && b.Aligned()
    ensures IsTiling(blocks + [b], lo, b.End())
  {
    assert (blocks + [b])[..|blocks|] == blocks;
  }

  lemma PlaceAppend(s: Machine, hhdm: nat, blocks: seq<Block>, b: Block, flags: nat)
    ensures PlaceAll(s, hhdm, blocks + [b], flags) ==
      match PlaceAll(s, hhdm, blocks, flags)
      case Panic => Panic
      case Done(s1) => EarlyMap(s1, hhdm + b.start, b.start, b.size, flags)
  {
    hide EarlyMap;
    assert (blocks + [b])[..|blocks|] == blocks;
  }

  ghost predicate Progress(blocks: seq<Block>, lo: nat, ptr: nat, hi: nat) {
    ptr <= hi && IsTiling(blocks, lo, ptr) && forall b :: b in blocks ==> Maximal(b, lo, hi)
  }

  lemma ProgressOn(blocks: seq<Block>, b: Block, lo: nat, hi: nat)
    requires Progress(blocks, lo, b.start, hi) && b.Aligned() && b.End() <= hi && Maximal(b, lo, hi)
    ensures Progress(blocks + [b], lo, b.End(), hi)
  {
    TilingAppend(blocks, b, lo);
    hide Maximal, IsTiling;
  }

  /** s is s0 with the blocks placed, a greedy tiling of [lo, hi) as far as ptr. */
  ghost predicate PlacedTo(s0: Machine, s: Machine, hhdm: nat, flags: nat, blocks: seq<Block>, lo: nat, ptr: nat,
                           hi: nat) {
    PlaceAll(s0, hhdm, blocks, flags) == Done(s) && Progress(blocks, lo, ptr, hi)
  }

  /** The last of the blocks, a greedy tiling from lo on inside [lo, hi), is the first early_map refuses. */
  ghost predicate StuckAt(s0: Machine, hhdm: nat, flags: nat, blocks: seq<Block>, lo: nat, hi: nat) {
    blocks != [] &&
    var front, last := blocks[..|blocks| - 1], blocks[|blocks| - 1];
    && Progress(blocks, lo, last.End(), hi)
    && PlaceAll(s0, hhdm, front, flags).Done?
    && EarlyMap(PlaceAll(s0, hhdm, front, flags).value, hhdm + last.start, last.start, last.size, flags) == Panic
  }

  lemma Sticks(s0: Machine, s: Machine, hhdm: nat, flags: nat, blocks: seq<Block>, lo: nat, b: Block, hi: nat)
    requires PlacedTo(s0, s, hhdm, flags, blocks, lo, b.start, hi) && b.Aligned() && b.End() <= hi
    requires Maximal(b, lo, hi)
    requires EarlyMap(s, hhdm + b.start, b.start, b.size, flags) == Panic
    ensures StuckAt(s0, hhdm, flags, blocks + [b], lo, hi)
  {
    ProgressOn(blocks, b, lo, hi);
    assert (blocks + [b])[..|blocks|] == blocks;
    hide EarlyMap, PlaceAll, Progress, Maximal;
  }

  /** One early_map call, with the block it places noted. */
  method Place(p: Pager.Pager, hhdm: nat, ptr: nat, size: MapSize, flags: nat,
               ghost s0: Machine, ghost blocks: seq<Block>, ghost lo: nat, ghost hi: nat)
    returns (ok: bool, ghost blocks': seq<Block>)
    requires PlacedTo(s0, p.State(), hhdm, flags, blocks, lo, ptr, hi)
    requires ptr % Bytes(size) == 0 && ptr + Bytes(size) <= hi && Maximal(Block(ptr, size), lo, hi)
    modifies p
    ensures if ok then PlacedTo(s0, p.State(), hhdm, flags, blocks', lo, ptr + Bytes(size), hi)
            else StuckAt(s0, hhdm, flags, blocks', lo, hi)
  {
    hide EarlyMap, PlaceAll, Progress, Maximal, StuckAt;
    PlaceAppend(s0, hhdm, blocks, Block(ptr, size), flags);
    ProgressOn(blocks, Block(ptr, size), lo, hi);
    ghost var s := p.State();
    ok := p.EarlyMap(hhdm + ptr, ptr, size, flags);
    blocks' := blocks + [Block(ptr, size)];
    if !ok {
      Sticks(s0, s, hhdm, flags, blocks, lo, Block(ptr, size), hi);
    }
  }

  /** The five loops for one memory map entry: early_map is called for a greedy tiling of the
    * entry's pages. */
  method MapRegion(p: Pager.Pager, hhdm: nat, base: nat, length: nat, flags: nat)
    returns (ok: bool, ghost blocks: seq<Block>)
    modifies p
    ensures ok ==> PlaceAll(old(p.State()), hhdm, blocks, flags) == Done(p.State())
    ensures ok ==> Greedy(blocks, AlignDown(base, PAGE_SIZE), AlignDown(base + length, PAGE_SIZE))
    ensures !ok ==>
      StuckAt(old(p.State()), hhdm, flags, blocks, AlignDown(base, PAGE_SIZE), AlignDown(base + length, PAGE_SIZE))
  {
    hide PlaceAll, Maximal, Late, Tail, PlacedTo, StuckAt, Greedy;
    var end: nat := base + length - (base + length) % PAGE_SIZE;
    var ptr: nat := base - base % PAGE_SIZE;
    ghost var s0, lo := p.State(), ptr;
    blocks := [];
    Start(s0, hhdm, base, length, flags);
    ok, ptr, blocks := PadTo1G(p, hhdm, ptr, end, flags, s0);
    if !ok { return; }

    while end - ptr >= TWO_30
      invariant ptr <= end && PlacedTo(s0, p.State(), hhdm, flags, blocks, lo, ptr, end)
      invariant (ptr % TWO_21 == 0 || end - ptr < PAGE_SIZE) && ptr % PAGE_SIZE == 0
      invariant ptr % TWO_30 == 0 || end - ptr < TWO_21
    {
      Huge(ptr, lo, end);
      ok, blocks := Place(p, hhdm, ptr, Size1G, flags, s0, blocks, lo, end);
      if !ok { return; }
      ptr := ptr + TWO_30;
    }
    AtHuge(ptr, end);
    while end - ptr >= TWO_21
      invariant ptr <= end && PlacedTo(s0, p.State(), hhdm, flags, blocks, lo, ptr, end)
      invariant (ptr % TWO_21 == 0 || end - ptr < PAGE_SIZE) && ptr % PAGE_SIZE == 0
      invariant end - ptr < TWO_21 || Tail(ptr, end, TWO_30)
    {
      TailLarge(ptr, lo, end);
      ok, blocks := Place(p, hhdm, ptr, Size2M, flags, s0, blocks, lo, end);
      if !ok { return; }
      ptr := ptr + TWO_21;
    }
    if ptr % TWO_21 == 0 {
      TailStarts(ptr, end);
    }
    while end - ptr >= PAGE_SIZE
      invariant ptr <= end && PlacedTo(s0, p.State(), hhdm, flags, blocks, lo, ptr, end)
      invariant ptr % PAGE_SIZE == 0
      invariant end - ptr < PAGE_SIZE || (Tail(ptr, end, TWO_21) && Tail(ptr, end, TWO_30))
    {
      TailSmall(ptr, lo, end);
      ok, blocks := Place(p, hhdm, ptr, Size4K, flags, s0, blocks, lo, end);
      if !ok { return; }
      ptr := ptr + PAGE_SIZE;
    }
    Finish(s0, p.State(), hhdm, flags, blocks, lo, ptr, end);
  }

  /** The first two loops: small pages up to 2 MiB, then 2 MiB pages up to 1 GiB. */
  method PadTo1G(p: Pager.Pager, hhdm: nat, start: nat, end: nat, flags: nat, ghost s0: Machine)
    returns (ok: bool, ptr: nat, ghost blocks: seq<Block>)
    requires PlacedTo(s0, p.State(), hhdm, flags, [], start, start, end)
    requires start <= end && start % PAGE_SIZE == 0 && Late(start, start, TWO_21) && Late(start, start, TWO_30)
    modifies p
    ensures !ok ==> StuckAt(s0, hhdm, flags, blocks, start, end)
    ensures ok ==> ptr <= end && PlacedTo(s0, p.State(), hhdm, flags, blocks, start, ptr, end)
    ensures ok ==> (ptr % TWO_21 == 0 || end - ptr < PAGE_SIZE) && ptr % PAGE_SIZE == 0
    ensures ok ==> ptr % TWO_30 == 0 || end - ptr < TWO_21
  {
    hide PlaceAll, Maximal, Late, Tail, PlacedTo, StuckAt;
    ok, ptr, blocks := true, start, [];
    while ptr % TWO_21 != 0 && end - ptr >= PAGE_SIZE
      invariant ptr <= end && PlacedTo(s0, p.State(), hhdm, flags, blocks, start, ptr, end)
      invariant ptr % PAGE_SIZE == 0 && Late(ptr, start, TWO_21) && Late(ptr, start, TWO_30)
      decreases end - ptr
    {
      HeadSmall(ptr, start, end);
      ok, blocks := Place(p, hhdm, ptr, Size4K, flags, s0, blocks, start, end);
      if !ok { return; }
      ptr := ptr + PAGE_SIZE;
    }
    while ptr % TWO_30 != 0 && end - ptr >= TWO_21
      invariant ptr <= end && PlacedTo(s0, p.State(), hhdm, flags, blocks, start, ptr, end)
      invariant (ptr % TWO_21 == 0 || end - ptr < PAGE_SIZE) && ptr % PAGE_SIZE == 0 && Late(ptr, start, TWO_30)
      decreases end - ptr
    {
      HeadLarge(ptr, start, end);
      ok, blocks := Place(p, hhdm, ptr, Size2M, flags, s0, blocks, start, end);
      if !ok { return; }
      ptr := ptr + TWO_21;
    }
  }

  lemma Finish(s0: Machine, s: Machine, hhdm: nat, flags: nat, blocks: seq<Block>, lo: nat, ptr: nat, hi: nat)
    requires PlacedTo(s0, s, hhdm, flags, blocks, lo, ptr, hi)
    requires ptr % PAGE_SIZE == 0 && hi % PAGE_SIZE == 0 && ptr <= hi < ptr + PAGE_SIZE
    ensures Greedy(blocks, lo, hi) && PlaceAll(s0, hhdm, blocks, flags) == Done(s)
  {
    PageMultiples(ptr, hi);
  }

  lemma Start(s0: Machine, hhdm: nat, base: nat, length: nat, flags: nat)
    ensures var lo, hi := AlignDown(base, PAGE_SIZE), AlignDown(base + length, PAGE_SIZE);
      && lo <= hi && PlacedTo(s0, s0, hhdm, flags, [], lo, lo, hi)
      && lo % PAGE_SIZE == 0 && hi % PAGE_SIZE == 0
      && Late(lo, lo, TWO_21) && Late(lo, lo, TWO_30)
  {
    DivModUnique(AlignDown(base, PAGE_SIZE), PAGE_SIZE, base / PAGE_SIZE, 0);
    DivModUnique(AlignDown(base + length, PAGE_SIZE), PAGE_SIZE, (base + length) / PAGE_SIZE, 0);
  }

  lemma AtHuge(ptr: nat, hi: nat)
    requires ptr % TWO_30 == 0 || hi < ptr + TWO_21
    requires hi < ptr + TWO_30
    ensures hi < ptr + TWO_21 || Tail(ptr, hi, TWO_30)
  {
  }

  lemma PageMultiples(ptr: nat, end: nat)
    requires ptr % PAGE_SIZE == 0 && end % PAGE_SIZE == 0 && ptr <= end < ptr + PAGE_SIZE
    ensures ptr == end
  {
    AddLow(ptr, PAGE_SIZE, end - ptr);
  }

  // ---- the whole memory map ----

  /** Physical address x belongs to a direct-mapped entry. */
  ghost predicate InEntries(entries: seq<Entry>, x: int) {
    exists i :: 0 <= i < |entries| && entries[i].Mapped() && entries[i].base <= x < entries[i].End()
  }

  /** s is s0 with exactly the memory of the entries mapped, each byte at hhdm above itself with the rights in flags. */
  ghost predicate DirectAll(s0: Machine, s: Machine, slots: set<Index>, hhdm: nat, entries: seq<Entry>, flags: nat) {
    && BootInv(s, slots) && s.root == s0.root && s.refs == s0.refs
    && (forall a: nat :: Canonical(a) && Pml4i(a) != RECURSIVE_SLOT ==>
          if InEntries(entries, a - hhdm) then Reaches(Tr(s, a), a - hhdm, flags) else Tr(s, a) == Tr(s0, a))
    && (forall f :: Owned(s, f) <==> Owned(s0, f))
  }

  /** The direct map fits: the mapped entries lie in the window and nothing is mapped there yet. */
  ghost predicate Fits(s0: Machine, slots: set<Index>, hhdm: nat, entries: seq<Entry>) {
    && BootInv(s0, slots) && MapOk(entries)
    && (forall i :: 0 <= i < |entries| && entries[i].Mapped() ==>
      Window(hhdm, entries[i].base, entries[i].End(), slots))
    && (forall a: nat :: InEntries(entries, a - hhdm) ==> Tr(s0, a).None?)
  }

  /** The blocks of one memory map entry. */
  ghost predicate TilesEntry(e: Entry, blocks: seq<Block>) {
    if e.Mapped() then Greedy(blocks, AlignDown(e.base, PAGE_SIZE), AlignDown(e.End(), PAGE_SIZE)) else blocks == []
  }

  ghost predicate TilesAll(entries: seq<Entry>, tilings: seq<seq<Block>>) {
    |tilings| == |entries| && forall i :: 0 <= i < |entries| ==> TilesEntry(entries[i], tilings[i])
  }

  /** The early_map calls for the entries, in order. */
  function PlaceEntries(s: Machine, hhdm: nat, tilings: seq<seq<Block>>, flags: nat): Outcome<Machine> {
    if tilings == [] then Done(s) else
    var s1 :- PlaceEntries(s, hhdm, tilings[..|tilings| - 1], flags);
    PlaceAll(s1, hhdm, tilings[|tilings| - 1], flags)
  }

  /** The calls for entry e from s on come to a page that needs more tables than there are free frames then. */
  ghost predicate StarvedIn(s: Machine, hhdm: nat, flags: nat, e: Entry, blocks: seq<Block>) {
    && StuckAt(s, hhdm, flags, blocks, AlignDown(e.base, PAGE_SIZE), AlignDown(e.End(), PAGE_SIZE))
    && var b, s' := blocks[|blocks| - 1], PlaceAll(s, hhdm, blocks[..|blocks| - 1], flags).value;
       |s'.pool| < MissingFor(s', PageOf(hhdm + b.start), b.size)
  }

  /** The calls for the entries before entry i succeed, and those for entry i do not. */
  ghost predicate Starved(s: Machine, hhdm: nat, flags: nat, entries: seq<Entry>, tilings: seq<seq<Block>>,
                          blocks: seq<Block>) {
    var i := |tilings|;
    && i < |entries| && entries[i].Mapped() && TilesAll(entries[..i], tilings)
    && PlaceEntries(s, hhdm, tilings, flags).Done?
    && StarvedIn(PlaceEntries(s, hhdm, tilings, flags).value, hhdm, flags, entries[i], blocks)
  }

  /** The direct map is built into tables that already hold other mappings. The calls are those for the greedy tilings
    * of the entries, and fail only for want of frames; blocks are those of the entry where they fail. */
  method MapMemory(p: Pager.Pager, hhdm: nat, entries: seq<Entry>, flags: nat, ghost slots: set<Index>)
    returns (ok: bool, ghost tilings: seq<seq<Block>>, ghost blocks: seq<Block>)
    requires Fits(p.State(), slots, hhdm, entries) && FlagsOk(flags)
    modifies p
    ensures ok ==> DirectAll(old(p.State()), p.State(), slots, hhdm, entries, flags)
    ensures ok ==> TilesAll(entries, tilings) && PlaceEntries(old(p.State()), hhdm, tilings, flags) == Done(p.State())
    ensures !ok ==> Starved(old(p.State()), hhdm, flags, entries, tilings, blocks)
  {
    ghost var s0 := p.State();
    assert entries[..|entries|] == entries && entries[..0] == [];
    ok, tilings, blocks := true, [], [];
    NothingMapped(s0, slots, hhdm, flags);
    hide Fits, FlagsOk, DirectAll, TilesEntry, PlaceAll, StarvedIn;
    for i := 0 to |entries|
      invariant DirectAll(s0, p.State(), slots, hhdm, entries[..i], flags)
      invariant TilesAll(entries[..i], tilings) && PlaceEntries(s0, hhdm, tilings, flags) == Done(p.State())
    {
      ok, blocks := MapEntry(p, hhdm, entries, i, flags, slots, s0);
      if !ok { return; }
      assert (tilings + [blocks])[..|tilings|] == tilings;
      tilings := tilings + [blocks];
    }
    ok := true;
  }

  method MapEntry(p: Pager.Pager, hhdm: nat, entries: seq<Entry>, i: nat, flags: nat, ghost slots: set<Index>,
                  ghost s0: Machine)
    returns (ok: bool, ghost blocks: seq<Block>)
    requires i < |entries| && Fits(s0, slots, hhdm, entries) && FlagsOk(flags)
    requires DirectAll(s0, p.State(), slots, hhdm, entries[..i], flags)
    modifies p
    ensures ok ==> DirectAll(s0, p.State(), slots, hhdm, entries[..i + 1], flags)
    ensures ok ==> TilesEntry(entries[i], blocks) && PlaceAll(old(p.State()), hhdm, blocks, flags) == Done(p.State())
    ensures !ok ==> entries[i].Mapped() && StarvedIn(old(p.State()), hhdm, flags, entries[i], blocks)
  {
    hide *;
    var e := entries[i];
    ghost var s1 := p.State();
    EndIs(e);
    if e.Mapped() {
      ok, blocks := MapRegion(p, hhdm, e.base, e.length, flags);
      if ok {
        OneMoreEntry(s0, s1, p.State(), slots, hhdm, entries, i, blocks, flags);
        TilesMapped(e, blocks);
      } else {
        StuckIsStarved(s0, s1, slots, hhdm, entries, i, blocks, flags);
      }
    } else {
      ok, blocks := true, [];
      TilesSkipped(e, s1, hhdm, flags);
      Skipped(s0, s1, slots, hhdm, entries, i, flags);
    }
  }

  lemma EndIs(e: Entry)
    ensures e.End() == e.base + e.length
  {
  }

  lemma TilesMapped(e: Entry, blocks: seq<Block>)
    requires e.Mapped() && Greedy(blocks, AlignDown(e.base, PAGE_SIZE), AlignDown(e.base + e.length, PAGE_SIZE))
    ensures TilesEntry(e, blocks)
  {
    hide Greedy, AlignDown;
  }

  lemma TilesSkipped(e: Entry, s: Machine, hhdm: nat, flags: nat)
    requires !e.Mapped()
    ensures TilesEntry(e, []) && PlaceAll(s, hhdm, [], flags) == Done(s)
  {
  }

  lemma NothingMapped(s: Machine, slots: set<Index>, hhdm: nat, flags: nat)
    requires BootInv(s, slots)
    ensures DirectAll(s, s, slots, hhdm, [], flags)
  {
  }

  lemma EntriesStep(entries: seq<Entry>, i: nat, x: int)
    requires i < |entries|
    ensures InEntries(entries[..i + 1], x) <==>
      InEntries(entries[..i], x) || (entries[i].Mapped() && entries[i].base <= x < entries[i].End())
  {
    var front, more := entries[..i], entries[..i + 1];
    if InEntries(front, x) {
      var k :| 0 <= k < |front| && front[k].Mapped() && front[k].base <= x < front[k].End();
      assert more[k] == front[k];
    }
    if entries[i].Mapped() && entries[i].base <= x < entries[i].End() {
      assert more[i] == entries[i];
    }
    if InEntries(more, x) {
      var k :| 0 <= k < |more| && more[k].Mapped() && more[k].base <= x < more[k].End();
      assert k < i ==> front[k] == more[k];
    }
  }

  lemma Skipped(s0: Machine, s: Machine, slots: set<Index>, hhdm: nat, entries: seq<Entry>, i: nat, flags: nat)
    requires i < |entries| && !entries[i].Mapped() && DirectAll(s0, s, slots, hhdm, entries[..i], flags)
    ensures DirectAll(s0, s, slots, hhdm, entries[..i + 1], flags)
  {
    hide BootInv, Owned, Canonical, Tr, Pml4i, InEntries;
    forall x: int ensures InEntries(entries[..i + 1], x) <==> InEntries(entries[..i], x) {
      EntriesStep(entries, i, x);
    }
  }

  lemma OneMoreEntry(s0: Machine, s1: Machine, s2: Machine, slots: set<Index>, hhdm: nat, entries: seq<Entry>, i: nat,
                     blocks: seq<Block>, flags: nat)
    requires i < |entries| && entries[i].Mapped() && Fits(s0, slots, hhdm, entries) && FlagsOk(flags)
    requires DirectAll(s0, s1, slots, hhdm, entries[..i], flags)
    requires PlaceAll(s1, hhdm, blocks, flags) == Done(s2)
    requires Greedy(blocks, AlignDown(entries[i].base, PAGE_SIZE), AlignDown(entries[i].End(), PAGE_SIZE))
    ensures DirectAll(s0, s2, slots, hhdm, entries[..i + 1], flags)
  {
    hide *;
    var e := entries[i];
    FitsEntry(s0, slots, hhdm, entries, i);
    EntryFree(s0, s1, slots, hhdm, entries, i, flags);
    StillBootInv(s0, s1, slots, hhdm, entries[..i], flags);
    TilingOfEntry(e, blocks);
    RegionMapped(s1, s2, slots, hhdm, e.base, e.End(), blocks, flags);
    EntryAdded(s0, s1, s2, slots, hhdm, entries, i, flags);
  }

  lemma TilingOfEntry(e: Entry, blocks: seq<Block>)
    requires e.base % PAGE_SIZE == 0 && e.length % PAGE_SIZE == 0
    requires Greedy(blocks, AlignDown(e.base, PAGE_SIZE), AlignDown(e.End(), PAGE_SIZE))
    ensures IsTiling(blocks, e.base, e.End())
  {
    hide IsTiling;
    SumAligned(e.base, e.length, PAGE_SIZE);
  }

  lemma StuckIsStarved(s0: Machine, s1: Machine, slots: set<Index>, hhdm: nat, entries: seq<Entry>, i: nat,
                       blocks: seq<Block>, flags: nat)
    requires i < |entries| && entries[i].Mapped() && Fits(s0, slots, hhdm, entries) && FlagsOk(flags)
    requires DirectAll(s0, s1, slots, hhdm, entries[..i], flags)
    requires StuckAt(s1, hhdm, flags, blocks, AlignDown(entries[i].base, PAGE_SIZE),
      AlignDown(entries[i].End(), PAGE_SIZE))
    ensures StarvedIn(s1, hhdm, flags, entries[i], blocks)
  {
    hide *;
    FitsEntry(s0, slots, hhdm, entries, i);
    var e := entries[i];
    StuckParts(s1, hhdm, flags, blocks, e);
    var front, b := blocks[..|blocks| - 1], blocks[|blocks| - 1];
    EntryFree(s0, s1, slots, hhdm, entries, i, flags);
    StillBootInv(s0, s1, slots, hhdm, entries[..i], flags);
    var s := PlaceAll(s1, hhdm, front, flags).value;
    WindowPart(hhdm, e.base, b.start, e.End(), slots);
    RegionMapped(s1, s, slots, hhdm, e.base, b.start, front, flags);
    WindowPart(hhdm, e.base, b.End(), e.End(), slots);
    RefusedForFrames(s1, s, slots, hhdm, e.base, b, flags);
    StarvedThere(s1, hhdm, flags, e, blocks);
  }

  lemma FitsEntry(s0: Machine, slots: set<Index>, hhdm: nat, entries: seq<Entry>, i: nat)
    requires i < |entries| && entries[i].Mapped() && Fits(s0, slots, hhdm, entries)
    ensures var e := entries[i];
      e.base % PAGE_SIZE == 0 && e.length % PAGE_SIZE == 0 && Window(hhdm, e.base, e.End(), slots)
  {
    hide Window;
    assert entries[i] in entries;
  }

  lemma StuckParts(s: Machine, hhdm: nat, flags: nat, blocks: seq<Block>, e: Entry)
    requires e.base % PAGE_SIZE == 0 && e.length % PAGE_SIZE == 0
    requires StuckAt(s, hhdm, flags, blocks, AlignDown(e.base, PAGE_SIZE), AlignDown(e.End(), PAGE_SIZE))
    ensures blocks != []
    ensures var front, b := blocks[..|blocks| - 1], blocks[|blocks| - 1];
      && IsTiling(front, e.base, b.start) && b.Aligned() && e.base <= b.start <= b.End() <= e.End()
      && PlaceAll(s, hhdm, front, flags).Done?
      && EarlyMap(PlaceAll(s, hhdm, front, flags).value, hhdm + b.start, b.start, b.size, flags) == Panic
  {
    hide PlaceAll, EarlyMap;
    SumAligned(e.base, e.length, PAGE_SIZE);
    TilingGrows(blocks[..|blocks| - 1], e.base, blocks[|blocks| - 1].start);
  }

  lemma StarvedThere(s: Machine, hhdm: nat, flags: nat, e: Entry, blocks: seq<Block>)
    requires StuckAt(s, hhdm, flags, blocks, AlignDown(e.base, PAGE_SIZE), AlignDown(e.End(), PAGE_SIZE))
    requires var b, s' := blocks[|blocks| - 1], PlaceAll(s, hhdm, blocks[..|blocks| - 1], flags).value;
      |s'.pool| < MissingFor(s', PageOf(hhdm + b.start), b.size)
    ensures StarvedIn(s, hhdm, flags, e, blocks)
  {
  }

  lemma StillBootInv(s0: Machine, s: Machine, slots: set<Index>, hhdm: nat, entries: seq<Entry>, flags: nat)
    requires DirectAll(s0, s, slots, hhdm, entries, flags)
    ensures BootInv(s, slots)
  {
  }

  lemma EntryFree(s0: Machine, s1: Machine, slots: set<Index>, hhdm: nat, entries: seq<Entry>, i: nat, flags: nat)
    requires i < |entries| && entries[i].Mapped() && Fits(s0, slots, hhdm, entries)
    requires DirectAll(s0, s1, slots, hhdm, entries[..i], flags)
    ensures forall a: nat :: hhdm + entries[i].base <= a < hhdm + entries[i].End() ==> Tr(s1, a).None?
  {
    var e := entries[i];
    assert RECURSIVE_SLOT !in slots;
    hide BootInv, Owned, Tr, Pml4i;
    forall a: nat | hhdm + e.base <= a < hhdm + e.End() ensures Tr(s1, a).None? {
      EntriesApart(entries, i, a - hhdm);
      assert Pml4i(a) in slots;
    }
  }

  lemma EntryAdded(s0: Machine, s1: Machine, s2: Machine, slots: set<Index>, hhdm: nat, entries: seq<Entry>, i: nat,
                   flags: nat)
    requires i < |entries| && entries[i].Mapped()
    requires DirectAll(s0, s1, slots, hhdm, entries[..i], flags)
    requires Direct(s1, s2, slots, hhdm, entries[i].base, entries[i].End(), flags)
    ensures DirectAll(s0, s2, slots, hhdm, entries[..i + 1], flags)
  {
    var e := entries[i];
    hide BootInv, Owned, Tr, Reaches, Pml4i, Canonical, InEntries;
    forall x: int ensures InEntries(entries[..i + 1], x) <==> InEntries(entries[..i], x) || (e.base <= x < e.End()) {
      EntriesStep(entries, i, x);
    }
  }

  lemma EntriesApart(entries: seq<Entry>, i: nat, x: int)
    requires i < |entries| && MapOk(entries) && entries[i].Mapped() && entries[i].base <= x < entries[i].End()
    ensures InEntries(entries, x) && !InEntries(entries[..i], x)
  {
    if InEntries(entries[..i], x) {
      var k :| 0 <= k < i && entries[..i][k].Mapped() && entries[..i][k].base <= x < entries[..i][k].End();
      assert entries[..i][k] == entries[k];
      assert Holds(entries[k], x / PAGE_SIZE) && Holds(entries[i], x / PAGE_SIZE);
    }
  }
}
