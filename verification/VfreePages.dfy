/** The end of vfree: unmapping the pages of the freed range (kernel/src/vmem.c). */
module VfreePages {
  import opened Wrappers
  import opened Arith
  import opened Linaddr
  import opened PageTree
  import opened Paging
  import opened RecursiveMap

  predicate Mapped(s: Machine, a: nat) {
    Walk(s.mem, s.root, PageOf(a)).Some?
  }

  /** The loop from page i on. It looks at page i, and unmaps the first page. */
  function UnmapLoop(s: Machine, base: nat, n: nat, i: nat): Outcome<Machine>
    decreases n - i
  {
    if i >= n then Done(s)
    else if Mapped(s, base + i * PAGE_SIZE) then
      var s1 :- UnmapPage(s, base);
      UnmapLoop(s1, base, n, i + 1)
    else UnmapLoop(s, base, n, i + 1)
  }

  /** How many references the frame of the page holds; 0 if the page is not mapped. */
  function RefsOf(s: Machine, a: nat): nat {
    var w := Walk(s.mem, s.root, PageOf(a));
    if w.None? then 0 else s.refs(EntryAddr(w.value.word))
  }

  /** How many pages of the range are mapped, from page i on. */
  function MappedCount(s: Machine, base: nat, n: nat, i: nat): nat
    decreases n - i
  {
    if i >= n then 0
    else (if Mapped(s, base + i * PAGE_SIZE) then 1 else 0) + MappedCount(s, base, n, i + 1)
  }

  /** The page number, of 36 bits, that the four indices make up. */
  function PageNumber(v: VPage): nat {
    ((v.i4 * 512 + v.i3) * 512 + v.i2) * 512 + v.i1
  }

  lemma NumberOf(a: nat)
    ensures PageNumber(PageOf(a)) == a / PAGE_SIZE % 0x10_0000_0000
  {
    Pages4(a);
    assert a / 0x200 / 8 == a / PAGE_SIZE;
  }

  lemma CyclesApart(x: nat, i: nat, m: nat)
    requires 0 < i < m
    ensures (x + i) % m != x % m
  {
    var q, r := x / m, x % m;
    assert x == q * m + r;
    if r + i < m {
      DivModUnique(x + i, m, q, r + i);
    } else {
      assert (q + 1) * m == q * m + m;
      DivModUnique(x + i, m, q + 1, r + i - m);
    }
  }

  lemma NextPages(a: nat, i: nat)
    ensures (a + i * PAGE_SIZE) / PAGE_SIZE == a / PAGE_SIZE + i
  {
    DivModUnique(a + i * PAGE_SIZE, PAGE_SIZE, a / PAGE_SIZE + i, a % PAGE_SIZE);
  }

  /** Pages of one range of less than 2^48 bytes are different pages. */
  lemma PagesApart(a: nat, i: nat)
    requires 0 < i && i * PAGE_SIZE < TWO_48
    ensures PageOf(a + i * PAGE_SIZE) != PageOf(a)
  {
    hide PageOf, PageNumber;
    NumberOf(a);
    NumberOf(a + i * PAGE_SIZE);
    NextPages(a, i);
    CyclesApart(a / PAGE_SIZE, i, 0x10_0000_0000);
  }

  /** At most the first page is unmapped. */
  ghost predicate OthersStay(s: Machine, s': Machine, base: nat) {
    && s'.root == s.root
    && forall u: VPage :: u.i4 != RECURSIVE_SLOT && u != PageOf(base) ==>
      Walk(s'.mem, s.root, u) == Walk(s.mem, s.root, u)
  }

  /** The pages after the first do not notice. */
  lemma MappedElsewhere(s: Machine, s': Machine, base: nat, i: nat)
    requires OthersStay(s, s', base) && 0 < i && i * PAGE_SIZE < TWO_48 && Pml4i(base + i * PAGE_SIZE) != RECURSIVE_SLOT
    ensures Mapped(s', base + i * PAGE_SIZE) <==> Mapped(s, base + i * PAGE_SIZE)
  {
    PagesApart(base, i);
    hide Walk, Pml4i, Pdpti, Pdi, Pti;
  }

  /** The pages of the range lie outside the recursive slot and are different pages. */
  ghost predicate InRange(base: nat, n: nat) {
    n * PAGE_SIZE < TWO_48 && forall i: nat :: i < n ==> Pml4i(base + i * PAGE_SIZE) != RECURSIVE_SLOT
  }

  lemma {:induction false} CountStays(s: Machine, s': Machine, base: nat, n: nat, i: nat)
    requires OthersStay(s, s', base) && InRange(base, n) && 0 < i
    ensures MappedCount(s', base, n, i) == MappedCount(s, base, n, i)
    decreases n - i
  {
    hide OthersStay, Mapped, Pml4i;
    if i < n {
      MappedElsewhere(s, s', base, i);
      CountStays(s, s', base, n, i + 1);
    }
  }

  /** What count calls of unmap_page on one page leave: it panics on a page whose frame has no reference, and else
    * takes up to count references, and the mapping with the last of them. */
  ghost predicate Unmapped(s: Machine, r: Outcome<Machine>, slots: set<Index>, base: nat, count: nat) {
    && (r.Panic? <==> Mapped(s, base) && RefsOf(s, base) == 0 && count > 0)
    && (r.Done? ==>
          && Inv(r.value, slots) && OthersStay(s, r.value, base)
          && (Mapped(r.value, base) <==> Mapped(s, base) && (count == 0 || count < RefsOf(s, base)))
          && (Mapped(r.value, base) ==> RefsOf(r.value, base) == RefsOf(s, base) - count))
  }

  lemma OneUnmap(s: Machine, slots: set<Index>, base: nat)
    requires Inv(s, slots) && Pml4i(base) in slots
    ensures Unmapped(s, UnmapPage(s, base), slots, base, 1)
  {
    UnmapPageCorrect(s, slots, base);
    ManagedWalk(s, slots, PageOf(base));
    hide Inv, EntryAddr, UnmapAt, Walk, IsTable;
  }

  lemma OneMore(s: Machine, s1: Machine, r: Outcome<Machine>, slots: set<Index>, base: nat, count: nat)
    requires Unmapped(s, Done(s1), slots, base, 1) && Unmapped(s1, r, slots, base, count)
    requires Mapped(s1, base) ==> RefsOf(s1, base) > 0
    ensures Unmapped(s, r, slots, base, count + 1)
  {
    hide Inv, PageOf;
  }

  /** From page i on, behind the first, the loop unmaps the first page once for each mapped page. */
  lemma {:induction false} LoopKeeps(s: Machine, slots: set<Index>, base: nat, n: nat, i: nat)
    requires Inv(s, slots) && Pml4i(base) in slots && InRange(base, n) && 0 < i
    ensures Unmapped(s, UnmapLoop(s, base, n, i), slots, base, MappedCount(s, base, n, i))
    decreases n - i
  {
    hide Inv, Mapped, Pml4i, UnmapPage, OthersStay, RefsOf, InRange;
    if i >= n {
      NoUnmap(s, slots, base);
    } else if Mapped(s, base + i * PAGE_SIZE) {
      UnmapThenLoop(s, slots, base, n, i);
    } else {
      LoopKeeps(s, slots, base, n, i + 1);
    }
  }

  lemma NoUnmap(s: Machine, slots: set<Index>, base: nat)
    requires Inv(s, slots)
    ensures Unmapped(s, Done(s), slots, base, 0)
  {
    hide Inv;
  }

  lemma UnmapThenLoop(s: Machine, slots: set<Index>, base: nat, n: nat, i: nat)
    requires Inv(s, slots) && Pml4i(base) in slots && InRange(base, n) && i < n
    ensures var r := UnmapPage(s, base);
      Unmapped(s, if r.Panic? then Panic else UnmapLoop(r.value, base, n, i + 1), slots, base,
        1 + MappedCount(s, base, n, i + 1))
    decreases n - i, 0
  {
    hide Inv, Pml4i, UnmapPage, InRange, Mapped, RefsOf, OthersStay, UnmapLoop, MappedCount;
    OneUnmap(s, slots, base);
    var r := UnmapPage(s, base);
    if r.Done? {
      LoopKeeps(r.value, slots, base, n, i + 1);
      CountStays(s, r.value, base, n, i + 1);
      OneMore(s, r.value, UnmapLoop(r.value, base, n, i + 1), slots, base, MappedCount(s, base, n, i + 1));
    }
  }

  /** The loop unmaps the first page, once for each mapped page of the range, and no other. So vfree leaves the range
    * unmapped exactly when no page of it but the first was mapped, and that one with one reference. */
  lemma RangeUnmapped(s: Machine, slots: set<Index>, base: nat, n: nat)
    requires Inv(s, slots) && Pml4i(base) in slots && InRange(base, n) && n > 0
    ensures var r, count := UnmapLoop(s, base, n, 0), MappedCount(s, base, n, 0);
      && (r.Panic? <==> Mapped(s, base) && RefsOf(s, base) == 0)
      && (r.Done? ==>
        && Inv(r.value, slots)
        && (Mapped(r.value, base) <==> Mapped(s, base) && count < RefsOf(s, base))
        && (forall i: nat :: 0 < i < n ==> (Mapped(r.value, base + i * PAGE_SIZE) <==> Mapped(s, base + i * PAGE_SIZE)))
        && ((forall i: nat :: i < n ==> !Mapped(r.value, base + i * PAGE_SIZE)) <==>
              && (forall i: nat :: 0 < i < n ==> !Mapped(s, base + i * PAGE_SIZE))
              && (Mapped(s, base) ==> RefsOf(s, base) == 1)))
  {
    LoopUnmaps(s, slots, base, n);
    CountNone(s, base, n, 1);
    assert MappedCount(s, base, n, 0) == (if Mapped(s, base) then 1 else 0) + MappedCount(s, base, n, 1) by {
      assert base + 0 * PAGE_SIZE == base;
    }
    var r := UnmapLoop(s, base, n, 0);
    if r.Done? {
      forall i: nat | 0 < i < n ensures Mapped(r.value, base + i * PAGE_SIZE) <==> Mapped(s, base + i * PAGE_SIZE) {
        MappedElsewhere(s, r.value, base, i);
      }
    }
    hide Inv, Mapped, RefsOf, OthersStay, UnmapLoop, MappedCount, InRange;
    RangeLeft(s, r, base, n);
  }

  lemma LoopUnmaps(s: Machine, slots: set<Index>, base: nat, n: nat)
    requires Inv(s, slots) && Pml4i(base) in slots && InRange(base, n) && n > 0
    ensures Unmapped(s, UnmapLoop(s, base, n, 0), slots, base, MappedCount(s, base, n, 0))
  {
    hide Inv, Mapped, RefsOf, OthersStay, UnmapPage, Unmapped, InRange, Pml4i;
    assert base + 0 * PAGE_SIZE == base;
    if Mapped(s, base) {
      UnmapThenLoop(s, slots, base, n, 0);
    } else {
      LoopKeeps(s, slots, base, n, 1);
    }
  }

  /** The first page and the others, together. */
  lemma RangeLeft(s: Machine, r: Outcome<Machine>, base: nat, n: nat)
    requires n > 0
    ensures r.Done? ==> ((forall i: nat :: i < n ==> !Mapped(r.value, base + i * PAGE_SIZE)) <==>
      !Mapped(r.value, base) && forall i: nat :: 0 < i < n ==> !Mapped(r.value, base + i * PAGE_SIZE))
  {
    hide Mapped;
    assert base + 0 * PAGE_SIZE == base;
  }

  lemma {:induction false} CountNone(s: Machine, base: nat, n: nat, i: nat)
    ensures MappedCount(s, base, n, i) == 0 <==> forall j: nat :: i <= j < n ==> !Mapped(s, base + j * PAGE_SIZE)
    decreases n - i
  {
    hide Mapped;
    if i < n {
      CountNone(s, base, n, i + 1);
    }
  }
}
