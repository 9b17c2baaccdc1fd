/** What mman_init sets aside for the page allocator (kernel/arch/x86_64/mman.c). */
module BootMemory {
  import opened Wrappers
  import opened Arith
  import opened Linaddr
  import opened MemMap
  import opened Frames

  const BITMAP_SIZE := 8192
  const STACK_ENTRY := 4

  /** The map is as promised, and page numbers fit the 32-bit stack entries. */
  ghost predicate Sound(entries: seq<Entry>) {
    && MapOk(entries)
    && (forall e :: e in entries && e.Mapped() ==> 0 < e.End() <= TWO_32 * PAGE_SIZE)
  }

  /** Some entry from k on, of the given kind, holds the page. */
  ghost predicate From(entries: seq<Entry>, k: nat, kind: Kind, p: nat) {
    exists i :: k <= i < |entries| && entries[i].kind == kind && Holds(entries[i], p)
  }

  /** Some entry before k, of the given kind, holds the page. */
  ghost predicate Upto(entries: seq<Entry>, k: nat, kind: Kind, p: nat) {
    exists i :: 0 <= i < k && i < |entries| && entries[i].kind == kind && Holds(entries[i], p)
  }

  predicate Counted(kind: Kind) {
    kind.Usable? || kind.BootloaderReclaimable? || kind.AcpiReclaimable?
  }

  function MemSize(entries: seq<Entry>): nat {
    if entries == [] then 0
    else
      var e := entries[|entries| - 1];
      MemSize(entries[..|entries| - 1]) + if Counted(e.kind) then e.length else 0
  }

  /** Pages set aside for the bitmap and the stack. */
  function Reserve(entries: seq<Entry>): (r: nat)
    ensures r >= 2
  {
    (MemSize(entries) / PAGE_SIZE * STACK_ENTRY + BITMAP_SIZE + 0xfff) / PAGE_SIZE
  }

  /** The least number of pages with room for the bitmap and four bytes for each page of memory. */
  lemma ReserveIsLeast(entries: seq<Entry>)
    ensures var need := 8192 + 4 * (MemSize(entries) / PAGE_SIZE);
      (Reserve(entries) - 1) * PAGE_SIZE < need <= Reserve(entries) * PAGE_SIZE
  {
    hide MemSize;
  }

  function HighBase(e: Entry): nat {
    if e.base > LOWMEM_SIZE then e.base else LOWMEM_SIZE
  }

  predicate Roomy(e: Entry, reserve: nat) {
    e.kind.Usable? && e.End() > HighBase(e) + reserve * PAGE_SIZE
  }

  /** The run of reserve pages from home on opens the high part of the usable entry h. */
  ghost predicate HomeAt(entries: seq<Entry>, h: nat, home: nat, reserve: nat) {
    && h < |entries|
    && Roomy(entries[h], reserve)
    && home * PAGE_SIZE == HighBase(entries[h])
  }

  /** The reserved run lies in entry h alone, and entry h has no high page before it. */
  lemma ReservedRun(entries: seq<Entry>, h: nat, home: nat, reserve: nat, i: nat, p: nat)
    requires Sound(entries) && HomeAt(entries, h, home, reserve)
    requires i < |entries| && entries[i].kind.Usable?
    ensures home >= LOW_PAGES
    ensures home <= p < home + reserve ==> Holds(entries[h], p)
    ensures home <= p < home + reserve && Holds(entries[i], p) ==> i == h
    ensures p < home && p >= LOW_PAGES ==> !Holds(entries[h], p)
  {
    assert entries[h] in entries;
    if home <= p < home + reserve && Holds(entries[i], p) {
      assert Holds(entries[h], p);
    }
  }

  // ---- The stack fits ----

  /** The pages of the entries counted in the memory size. */
  function MemPages(entries: seq<Entry>): set<nat> {
    if entries == [] then {}
    else
      var e := entries[|entries| - 1];
      MemPages(entries[..|entries| - 1]) + if e.Mapped() then Span(e.base / PAGE_SIZE, e.length / PAGE_SIZE) else {}
  }

  lemma {:induction false} SpanSize(start: nat, n: nat)
    ensures |Span(start, n)| == n
  {
    if n == 0 {
      assert Span(start, n) == {};
    } else {
      SpanSize(start, n - 1);
      SpanNext(start, n);
      hide Span;
    }
  }

  lemma SpanNext(start: nat, n: nat)
    requires n > 0
    ensures Span(start, n) == Span(start, n - 1) + {start + n - 1} && start + n - 1 !in Span(start, n - 1)
  {
    assert forall p: nat :: InSpan(p, start, n) <==> InSpan(p, start, n - 1) || p == start + n - 1;
  }

  lemma SumPages(a: nat, b: nat)
    ensures a / PAGE_SIZE + b / PAGE_SIZE <= (a + b) / PAGE_SIZE
  {
  }

  lemma UnionSize(a: set<nat>, b: set<nat>)
    ensures |a + b| <= |a| + |b|
  {
    assert a + b == a + (b - a);
    assert |b| == |b - a| + |b * a| by {
      assert b == (b - a) + (b * a);
    }
  }

  lemma {:induction false} PagesWithinSize(entries: seq<Entry>)
    ensures |MemPages(entries)| <= MemSize(entries) / PAGE_SIZE
    decreases |entries|
  {
    if entries != [] {
      var front, e := entries[..|entries| - 1], entries[|entries| - 1];
      PagesWithinSize(front);
      var span := Span(e.base / PAGE_SIZE, e.length / PAGE_SIZE);
      SpanSize(e.base / PAGE_SIZE, e.length / PAGE_SIZE);
      UnionSize(MemPages(front), span);
      SumPages(MemSize(front), e.length);
    }
  }

  lemma {:induction false} PageOfEntry(entries: seq<Entry>, i: nat, p: nat)
    requires Sound(entries) && i < |entries| && entries[i].Mapped() && Holds(entries[i], p)
    ensures p in MemPages(entries)
    decreases |entries|
  {
    var front, e := entries[..|entries| - 1], entries[|entries| - 1];
    assert entries[i] in entries;
    if i == |entries| - 1 {
      assert InSpan(p, e.base / PAGE_SIZE, e.length / PAGE_SIZE);
    } else {
      FrontSound(entries);
      PageOfEntry(front, i, p);
    }
  }

  lemma FrontSound(entries: seq<Entry>)
    requires Sound(entries) && entries != []
    ensures Sound(entries[..|entries| - 1])
  {
    var front := entries[..|entries| - 1];
    forall e | e in front ensures e in entries {
    }
    assert forall i :: 0 <= i < |front| ==> front[i] == entries[i];
  }

  /** The bitmap and a stack of distinct pages of the map fit the reserved run. */
  lemma StackFits(entries: seq<Entry>, stack: seq<nat>)
    requires Distinct(stack) && forall p :: p in stack ==> p in MemPages(entries)
    ensures BITMAP_SIZE + STACK_ENTRY * |stack| <= Reserve(entries) * PAGE_SIZE
  {
    StackWithin(stack, MemPages(entries));
    PagesWithinSize(entries);
  }

  /** A stack and high pages held that are no more than the map's pages keep the stack inside the reserved run
    * for good, whether alloc_page is ready or not. */
  lemma StackNeverOutgrows(entries: seq<Entry>, s: State, ops: seq<Op>)
    requires s.Weight() <= |MemPages(entries)| && Run(s, ops).Some?
    ensures BITMAP_SIZE + STACK_ENTRY * |Run(s, ops).value.frames.stack| <= Reserve(entries) * PAGE_SIZE
  {
    RunWeight(s, ops);
    PagesWithinSize(entries);
  }

  // ---- From boot on ----

  /** Every usable page is a bitmap bit, a stack entry or a reserved page, and none is two of these. */
  ghost predicate Partitioned(entries: seq<Entry>, f: Frames, home: nat, reserve: nat) {
    && Inv(f)
    && home >= LOW_PAGES
    && (forall p: nat :: From(entries, 0, Usable, p) <==> IsFree(f, p) || InSpan(p, home, reserve))
    && (forall p: nat :: InSpan(p, home, reserve) ==> p !in f.stack)
  }

  /** The boot loader's pages, but for the one skipped, have joined the free ones. */
  ghost predicate Reclaimed(entries: seq<Entry>, f: Frames, f': Frames, skip: nat) {
    && Inv(f')
    && forall p: nat :: IsFree(f', p) <==> IsFree(f, p) || (From(entries, 0, BootloaderReclaimable, p) && p != skip)
  }

  /** What the reclaiming loops do to any state: low pages get their bits, and high ones go on the stack. */
  ghost predicate Adds(entries: seq<Entry>, f: Frames, f': Frames, skip: nat, pushed: seq<nat>) {
    && |f.bits| == |f'.bits| == LOW_PAGES
    && (forall p: nat :: p < LOW_PAGES ==>
          (f'.bits[p] <==> f.bits[p] || (From(entries, 0, BootloaderReclaimable, p) && p != skip)))
    && f'.stack == f.stack + pushed && Distinct(pushed)
    && (forall p: nat :: p in pushed <==> From(entries, 0, BootloaderReclaimable, p) && p >= LOW_PAGES && p != skip)
  }

  /** From a state that holds each page once, and none of the boot loader's, they lead to such a state. */
  lemma AddsKeeps(entries: seq<Entry>, f: Frames, f': Frames, skip: nat, pushed: seq<nat>)
    requires Sound(entries) && Inv(f) && Adds(entries, f, f', skip, pushed)
    requires forall p: nat :: From(entries, 0, BootloaderReclaimable, p) ==> !IsFree(f, p)
    ensures Reclaimed(entries, f, f', skip)
  {
    forall p: nat | From(entries, 0, BootloaderReclaimable, p) ensures p < TWO_32 && p !in f.stack {
      FromIsCounted(entries, BootloaderReclaimable, p);
      assert !IsFree(f, p);
    }
    hide From;
    assert forall i :: 0 <= i < |pushed| ==> pushed[i] in pushed;
  }

  /** What the allocator manages in the end. */
  ghost predicate Managed(entries: seq<Entry>, home: nat, skip: nat, p: nat) {
    || (From(entries, 0, Usable, p) && !InSpan(p, home, Reserve(entries)))
    || (From(entries, 0, BootloaderReclaimable, p) && p != skip)
  }

  ghost function Pool(entries: seq<Entry>, home: nat, skip: nat): set<nat> {
    set p | p in MemPages(entries) && Managed(entries, home, skip, p)
  }

  function Start(f: Frames): State { State(f, multiset{}, multiset{}) }

  lemma KindsApart(entries: seq<Entry>, p: nat)
    requires Sound(entries) && From(entries, 0, BootloaderReclaimable, p)
    ensures !From(entries, 0, Usable, p)
  {
  }

  lemma FromIsCounted(entries: seq<Entry>, kind: Kind, p: nat)
    requires Sound(entries) && From(entries, 0, kind, p) && (kind.Usable? || kind.BootloaderReclaimable?)
    ensures p in MemPages(entries) && p < TWO_32
  {
    var i :| 0 <= i < |entries| && entries[i].kind == kind && Holds(entries[i], p);
    PageOfEntry(entries, i, p);
    assert entries[i] in entries;
  }

  /** While the tables are built no page is lost or doubled, and the boot loader's pages stay out. */
  lemma BeforeReclaim(entries: seq<Entry>, f: Frames, home: nat, ops: seq<Op>)
    requires Sound(entries) && Partitioned(entries, f, home, Reserve(entries))
    requires Run(Start(f), ops).Some? && ReadyRun(Start(f), ops)
    ensures Conserved(Run(Start(f), ops).value, Free(f))
    ensures forall p: nat :: From(entries, 0, BootloaderReclaimable, p) ==> Count(Run(Start(f), ops).value, p) == 0
  {
    forall p: nat | p in Free(f) ensures p < TWO_32 {
      FromIsCounted(entries, Usable, p);
    }
    RunConserves(Start(f), ops, Free(f));
    hide Run, ReadyRun, Conserved;
    assert forall p: nat :: Count(Run(Start(f), ops).value, p) == if p in Free(f) then 1 else 0;
    forall p: nat | From(entries, 0, BootloaderReclaimable, p) ensures p !in Free(f) {
      KindsApart(entries, p);
    }
  }

  /** With the boot loader's pages added, each managed page is free or held once, and no other page is. */
  lemma AfterReclaim(entries: seq<Entry>, f: Frames, home: nat, skip: nat, s: State, f': Frames)
    requires Sound(entries) && Partitioned(entries, f, home, Reserve(entries)) && Conserved(s, Free(f))
    requires forall p: nat :: From(entries, 0, BootloaderReclaimable, p) ==> Count(s, p) == 0
    requires Reclaimed(entries, s.frames, f', skip)
    ensures Conserved(s.(frames := f'), Pool(entries, home, skip))
  {
    assert forall p: nat :: InSpan(p, home, Reserve(entries)) ==> !IsFree(f, p);
    hide From, InSpan, IsFree, Reserve;
    forall p: nat ensures Count(s.(frames := f'), p) == if p in Pool(entries, home, skip) then 1 else 0 {
      if From(entries, 0, BootloaderReclaimable, p) {
        FromIsCounted(entries, BootloaderReclaimable, p);
        KindsApart(entries, p);
      } else if From(entries, 0, Usable, p) {
        FromIsCounted(entries, Usable, p);
      }
      assert Count(s, p) == if p in Free(f) then 1 else 0;
    }
  }

  /** The stack mman_init fills and the pages the reclaiming pushes are together no more than the map's pages. */
  lemma PushedFits(entries: seq<Entry>, f: Frames, home: nat, skip: nat, pushed: seq<nat>)
    requires Sound(entries) && Partitioned(entries, f, home, Reserve(entries)) && Distinct(pushed)
    requires forall p: nat :: p in pushed ==> From(entries, 0, BootloaderReclaimable, p)
    ensures |f.stack| + |pushed| <= |MemPages(entries)|
  {
    var all := f.stack + pushed;
    forall p | p in f.stack ensures p in MemPages(entries) && p !in pushed {
      assert IsFree(f, p);
      FromIsCounted(entries, Usable, p);
      if p in pushed {
        KindsApart(entries, p);
      }
    }
    forall p | p in pushed ensures p in MemPages(entries) {
      FromIsCounted(entries, BootloaderReclaimable, p);
    }
    hide From, MemPages, Partitioned;
    assert forall i :: 0 <= i < |pushed| ==> pushed[i] in pushed;
    assert forall i :: 0 <= i < |f.stack| ==> f.stack[i] in f.stack;
    StackWithin(all, MemPages(entries));
  }

  /** From mman_init on, with the pages taken while the tables are built still held, no later run outgrows the
    * reserved region. Where the allocations are ready, no page is lost or doubled either. */
  lemma BootRunFits(entries: seq<Entry>, f: Frames, home: nat, skip: nat, before: seq<Op>, pushed: seq<nat>,
                    f': Frames, after: seq<Op>)
    requires Sound(entries) && Partitioned(entries, f, home, Reserve(entries))
    requires Run(Start(f), before).Some? && Adds(entries, Run(Start(f), before).value.frames, f', skip, pushed)
    requires Run(Run(Start(f), before).value.(frames := f'), after).Some?
    ensures var s := Run(Start(f), before).value.(frames := f');
      && BITMAP_SIZE + STACK_ENTRY * |Run(s, after).value.frames.stack| <= Reserve(entries) * PAGE_SIZE
      && (ReadyRun(Start(f), before) && ReadyRun(s, after) ==>
            Conserved(Run(s, after).value, Pool(entries, home, skip)))
  {
    var s1 := Run(Start(f), before).value;
    var s, pool := s1.(frames := f'), Pool(entries, home, skip);
    RunWeight(Start(f), before);
    PushedFits(entries, f, home, skip, pushed);
    assert s.Weight() == s1.Weight() + |pushed|;
    if ReadyRun(Start(f), before) && ReadyRun(s, after) {
      BeforeReclaim(entries, f, home, before);
      NoneFree(entries, s1);
      AddsKeeps(entries, s1.frames, f', skip, pushed);
      AfterReclaim(entries, f, home, skip, s1, f');
      RunConserves(s, after, pool);
    }
    hide Run, ReadyRun, Conserved, Reserve, Adds, MemPages;
    StackNeverOutgrows(entries, s, after);
  }

  lemma NoneFree(entries: seq<Entry>, s: State)
    requires forall p: nat :: From(entries, 0, BootloaderReclaimable, p) ==> Count(s, p) == 0
    ensures forall p: nat :: From(entries, 0, BootloaderReclaimable, p) ==> !IsFree(s.frames, p)
  {
  }
}
