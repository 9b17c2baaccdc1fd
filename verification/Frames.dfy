/** The physical page allocator, on values (kernel/arch/x86_64/mman.c). */
module Frames {
  import opened Wrappers
  import opened Arith
  import opened Bits
  import opened Linaddr

  /** Pages below LOWMEM_SIZE have a bit each; bit p is bit p % 64 of bitmap word p / 64. */
  const LOW_PAGES := 0x1_0000
  const LOWMEM_SIZE := 0x1000_0000
  const TWO_20 := 0x10_0000

  /** The bitmap, and the stack of high page numbers with its top last. */
  datatype Frames = Frames(bits: seq<bool>, stack: seq<nat>)

  /** The stack holds 32-bit numbers of high pages, none twice. */
  predicate Inv(f: Frames) {
    && |f.bits| == LOW_PAGES
    && Distinct(f.stack)
    && forall p :: p in f.stack ==> LOW_PAGES <= p < TWO_32
  }

  ghost predicate IsFree(f: Frames, p: nat) {
    (p < |f.bits| && f.bits[p]) || p in f.stack
  }

  ghost function Free(f: Frames): (free: set<nat>)
    ensures forall p: nat :: p in free <==> IsFree(f, p)
  {
    (set p: nat | p < |f.bits| && f.bits[p]) + (set p | p in f.stack)
  }

  predicate InSpan(p: nat, start: nat, n: nat) {
    start <= p < start + n
  }

  function Span(start: nat, n: nat): set<nat> {
    set p: nat | p < start + n && InSpan(p, start, n)
  }

  // ---- alloc_page ----

  /** The first set bit at or after page p. */
  function Lowest(bits: seq<bool>, p: nat): (r: Option<nat>)
    requires p <= |bits|
    ensures r.Some? ==> p <= r.value < |bits| && bits[r.value] && forall q :: p <= q < r.value ==> !bits[q]
    ensures r.None? ==> forall q :: p <= q < |bits| ==> !bits[q]
    decreases |bits| - p
  {
    if p == |bits| then None else if bits[p] then Some(p) else Lowest(bits, p + 1)
  }

  /** The last set bit of the pages lo up to hi. */
  function Highest(bits: seq<bool>, lo: nat, hi: nat): (r: Option<nat>)
    requires lo <= hi <= |bits|
    ensures r.Some? ==> lo <= r.value < hi && bits[r.value] && forall q :: r.value < q < hi ==> !bits[q]
    ensures r.None? ==> forall q :: lo <= q < hi ==> !bits[q]
  {
    if lo == hi then None else if bits[hi - 1] then Some(hi - 1) else Highest(bits, lo, hi - 1)
  }

  /** Word i becomes the number n. */
  function StoreWord(bits: seq<bool>, i: nat, n: nat): (r: seq<bool>)
    ensures |r| == |bits|
  {
    seq(|bits|, p requires 0 <= p < |bits| => if p / 64 == i then Bit(n, p % 64) else bits[p])
  }

  /** An address and the state left, or a scan that runs past the bitmap. */
  datatype Alloc = Got(addr: nat, left: Frames) | Stray

  /** alloc_page as written: the product with the page size is a 32-bit one, and in the bitmap arm
    * the word becomes the index of its highest set bit. */
  function AllocPage(f: Frames): Alloc
    requires |f.bits| == LOW_PAGES
  {
    if f.stack != [] then
      var top := f.stack[|f.stack| - 1];
      Got(top * PAGE_SIZE % TWO_32, f.(stack := f.stack[..|f.stack| - 1]))
    else
      match Lowest(f.bits, 0)
      case None => Stray
      case Some(p) =>
        var word := p / 64 * 64;
        Got(p * PAGE_SIZE, f.(bits := StoreWord(f.bits, p / 64, Highest(f.bits, word, word + 64).value - word)))
  }

  /** The call returns a free page and takes just that page out of the free ones. */
  ghost predicate TakesOne(f: Frames, r: Alloc) {
    && r.Got?
    && r.addr % PAGE_SIZE == 0
    && IsFree(f, r.addr / PAGE_SIZE)
    && (forall p: nat :: IsFree(r.left, p) <==> IsFree(f, p) && p != r.addr / PAGE_SIZE)
  }

  /** The page on top is below 2^20; or the stack is empty and the first nonzero word is 1. */
  predicate Ready(f: Frames)
    requires |f.bits| == LOW_PAGES
  {
    if f.stack != [] then f.stack[|f.stack| - 1] < TWO_20
    else
      match Lowest(f.bits, 0)
      case None => false
      case Some(p) => p % 64 == 0 && forall q :: p < q < p + 64 ==> !f.bits[q]
  }

  lemma Popped(stack: seq<nat>)
    requires stack != [] && Distinct(stack)
    ensures var k := |stack| - 1;
      && Distinct(stack[..k])
      && forall p :: p in stack[..k] <==> p in stack && p != stack[k]
  {
    var k := |stack| - 1;
    assert stack == stack[..k] + [stack[k]];
    forall i | 0 <= i < k ensures stack[..k][i] == stack[i] && stack[i] != stack[k] {
    }
  }

  lemma StackArm(f: Frames)
    requires Inv(f) && f.stack != []
    ensures TakesOne(f, AllocPage(f)) <==> Ready(f)
  {
    var k := |f.stack| - 1;
    var top, left := f.stack[k], f.stack[..k];
    DivModUnique(top * PAGE_SIZE, TWO_32, top / TWO_20, top % TWO_20 * PAGE_SIZE);
    var r := AllocPage(f);
    assert r.addr == top % TWO_20 * PAGE_SIZE;
    Popped(f.stack);
    assert top in f.stack;
    assert IsFree(f, top) && !IsFree(r.left, top);
  }

  lemma BitmapArm(f: Frames, p: nat)
    requires Inv(f) && f.stack == [] && Lowest(f.bits, 0) == Some(p)
    ensures TakesOne(f, AllocPage(f)) <==> Ready(f)
  {
    var w := p / 64 * 64;
    var h := Highest(f.bits, w, w + 64).value;
    var r := AllocPage(f);
    assert r.left.bits == StoreWord(f.bits, p / 64, h - w);
    assert h / 64 == p / 64 && h % 64 == h - w;
    SmallHasNoBit(h - w, h - w);
    assert IsFree(f, h) && !IsFree(r.left, h);
    if h == p {
      if h == w {
        forall q: nat ensures IsFree(r.left, q) <==> IsFree(f, q) && q != p {
          SmallHasNoBit(0, q % 64);
        }
      } else {
        var k := SomeBit(h - w);
        var q := w + k;
        assert q / 64 == p / 64 && q % 64 == k;
        assert IsFree(r.left, q) && !IsFree(f, q);
      }
    }
  }

  /** alloc_page takes one free page exactly when the first nonzero arm it reaches is ready. */
  lemma AllocPageExact(f: Frames)
    requires Inv(f)
    ensures TakesOne(f, AllocPage(f)) <==> Ready(f)
    ensures Ready(f) ==> Inv(AllocPage(f).left)
  {
    if f.stack != [] {
      StackArm(f);
      Popped(f.stack);
    } else if Lowest(f.bits, 0).Some? {
      BitmapArm(f, Lowest(f.bits, 0).value);
    }
  }

  // ---- free_page ----

  /** free_page as written: a high page needs a stack that is not empty. The stack entry has 32 bits. */
  function FreePage(f: Frames, addr: nat): Outcome<Frames>
    requires |f.bits| == LOW_PAGES
  {
    var page := addr / PAGE_SIZE;
    if addr < LOWMEM_SIZE then Done(f.(bits := f.bits[page := true]))
    else if f.stack != [] then Done(f.(stack := f.stack + [page % TWO_32]))
    else Panic
  }

  lemma FreePageExact(f: Frames, addr: nat)
    requires Inv(f) && !IsFree(f, addr / PAGE_SIZE) && addr / PAGE_SIZE < TWO_32
    ensures FreePage(f, addr).Done? <==> addr < LOWMEM_SIZE || f.stack != []
    ensures FreePage(f, addr).Done? ==> Inv(FreePage(f, addr).value)
    ensures FreePage(f, addr).Done? ==>
      forall p: nat :: IsFree(FreePage(f, addr).value, p) <==> IsFree(f, p) || p == addr / PAGE_SIZE
  {
  }

  /** The page freed last is handed out first, with the free pages as they were: a high page again at its address
    * exactly when that is below 4 GiB. With the stack empty, alloc_page hands out the lowest free page. */
  lemma AllocPageOrder(f: Frames, page: nat)
    requires Inv(f)
    ensures LOW_PAGES <= page < TWO_32 && f.stack != [] ==>
      var r := AllocPage(FreePage(f, page * PAGE_SIZE).value);
      r.Got? && r.left == f && (r.addr == page * PAGE_SIZE <==> page * PAGE_SIZE < TWO_32)
    ensures f.stack == [] ==>
      var r := AllocPage(f);
      if r.Got? then
        && r.addr % PAGE_SIZE == 0 && IsFree(f, r.addr / PAGE_SIZE)
        && (forall p: nat :: p < r.addr / PAGE_SIZE ==> !IsFree(f, p))
      else forall p: nat :: !IsFree(f, p)
  {
    if LOW_PAGES <= page < TWO_32 && f.stack != [] {
      var freed := FreePage(f, page * PAGE_SIZE).value;
      assert freed.stack == f.stack + [page] && freed.stack[..|f.stack|] == f.stack;
    }
  }

  // ---- alloc_aligned and free_contig ----

  predicate AllSet(bits: seq<bool>, start: nat, n: nat)
    requires start + n <= |bits|
  {
    forall p :: start <= p < start + n ==> bits[p]
  }

  function Filled(bits: seq<bool>, start: nat, n: nat, b: bool): (r: seq<bool>)
    requires start + n <= |bits|
    ensures |r| == |bits|
    ensures forall p :: 0 <= p < |bits| ==> r[p] == if start <= p < start + n then b else bits[p]
  {
    bits[..start] + seq(n, _ => b) + bits[start + n..]
  }

  /** n free pages start at the multiple s of align. */
  predicate IsRun(bits: seq<bool>, s: nat, n: nat, align: nat)
    requires align > 0
  {
    s % align == 0 && s + n <= |bits| && AllSet(bits, s, n)
  }

  lemma NextMultiple(start: nat, align: nat, s: nat)
    requires align > 0 && start % align == 0
    ensures (start + align) % align == 0
    ensures s % align == 0 && start < s ==> start + align <= s
  {
    DivModUnique(align, align, 1, 0);
    SumAligned(start, align, align);
    if s % align == 0 && start < s {
      var d := s / align - start / align;
      assert s == s / align * align && start == start / align * align;
      assert s - start == d * align;
      AtLeast(d, align);
    }
  }

  /** The search of alloc_aligned, from start on in steps of align. */
  function FirstFit(bits: seq<bool>, start: nat, n: nat, align: nat): Option<nat>
    requires align > 0
    decreases |bits| - start
  {
    if start + n > |bits| then None
    else if AllSet(bits, start, n) then Some(start)
    else FirstFit(bits, start + align, n, align)
  }

  lemma {:induction false} FirstFitIsFirst(bits: seq<bool>, start: nat, n: nat, align: nat)
    requires align > 0 && start % align == 0
    ensures FirstFit(bits, start, n, align).Some? ==> IsRun(bits, FirstFit(bits, start, n, align).value, n, align)
    ensures forall s: nat :: start <= s && IsRun(bits, s, n, align) ==>
      FirstFit(bits, start, n, align).Some? && FirstFit(bits, start, n, align).value <= s
    decreases |bits| - start
  {
    NextMultiple(start, align, start);
    if start + n <= |bits| && !AllSet(bits, start, n) {
      FirstFitIsFirst(bits, start + align, n, align);
      forall s: nat | start <= s && IsRun(bits, s, n, align) ensures start + align <= s {
        NextMultiple(start, align, s);
      }
    }
  }

  /** The address and the state after alloc_aligned. */
  function AllocAligned(f: Frames, n: nat, align: nat): Outcome<(nat, Frames)>
    requires |f.bits| == LOW_PAGES && align > 0
  {
    if n == 0 then Done((0, f))
    else
      match FirstFit(f.bits, 0, n, align)
      case None => Panic
      case Some(s) =>
        FirstFitBound(f.bits, 0, n, align);
        Done((s * PAGE_SIZE, f.(bits := Filled(f.bits, s, n, false))))
  }

  lemma {:induction false} FirstFitBound(bits: seq<bool>, start: nat, n: nat, align: nat)
    requires align > 0
    ensures FirstFit(bits, start, n, align).Some? ==> FirstFit(bits, start, n, align).value + n <= |bits|
    decreases |bits| - start
  {
    if start + n <= |bits| && !AllSet(bits, start, n) {
      FirstFitBound(bits, start + align, n, align);
    }
  }

  function FreeContig(f: Frames, addr: nat, n: nat): Frames
    requires addr / PAGE_SIZE + n <= |f.bits|
  {
    if n == 0 || addr == 0 then f else f.(bits := Filled(f.bits, addr / PAGE_SIZE, n, true))
  }

  /** alloc_aligned clears exactly the bits of the first aligned run, and panics only without one. */
  lemma AllocAlignedIsFirstFit(f: Frames, n: nat, align: nat)
    requires Inv(f) && align > 0 && n > 0
    ensures AllocAligned(f, n, align).Panic? <==> forall s: nat :: !IsRun(f.bits, s, n, align)
    ensures AllocAligned(f, n, align).Done? ==>
      var (addr, left) := AllocAligned(f, n, align).value;
      && addr % PAGE_SIZE == 0
      && IsRun(f.bits, addr / PAGE_SIZE, n, align)
      && (forall s: nat :: IsRun(f.bits, s, n, align) ==> addr / PAGE_SIZE <= s)
      && (forall p: nat :: IsFree(left, p) <==> IsFree(f, p) && p !in Span(addr / PAGE_SIZE, n))
      && Inv(left)
  {
    FirstFitIsFirst(f.bits, 0, n, align);
  }

  /** free_contig of what alloc_aligned returned restores the bitmap, unless the run starts at page 0. */
  lemma FreeContigRestores(f: Frames, n: nat, align: nat)
    requires Inv(f) && align > 0 && n > 0 && AllocAligned(f, n, align).Done?
    ensures
      var (addr, left) := AllocAligned(f, n, align).value;
      addr / PAGE_SIZE + n <= |f.bits| && (FreeContig(left, addr, n) == f <==> addr != 0)
  {
    FirstFitIsFirst(f.bits, 0, n, align);
    var (addr, left) := AllocAligned(f, n, align).value;
    var s := addr / PAGE_SIZE;
    assert AllSet(f.bits, s, n) && f.bits[s] && !left.bits[s];
    assert Filled(left.bits, s, n, true) == f.bits;
  }

  // ---- Runs ----

  /** The allocator, and how often its callers hold each low and each high page. */
  datatype State = State(frames: Frames, low: multiset<nat>, high: multiset<nat>) {
    function Held(p: nat): nat { if p < LOW_PAGES then low[p] else high[p] }

    function With(f: Frames, p: nat): State {
      if p < LOW_PAGES then State(f, low + multiset{p}, high) else State(f, low, high + multiset{p})
    }

    function Without(f: Frames, p: nat): State {
      if p < LOW_PAGES then State(f, low - multiset{p}, high) else State(f, low, high - multiset{p})
    }

    /** The room the stack may come to need. */
    function Weight(): nat { |frames.stack| + |high| }
  }

  datatype Op = TakePage | PutPage(page: nat) | TakeRun(n: nat, align: nat) | PutRun(page: nat, n: nat)

  /** Callers free what they hold. */
  predicate Allowed(s: State, op: Op) {
    && |s.frames.bits| == LOW_PAGES
    && match op
       case TakePage => true
       case PutPage(page) => s.Held(page) > 0
       case TakeRun(n, align) => align > 0
       case PutRun(page, n) => page + n <= LOW_PAGES && multiset(Span(page, n)) <= s.low
  }

  function Step(s: State, op: Op): Outcome<State>
    requires Allowed(s, op)
  {
    match op
    case TakePage =>
      var r := AllocPage(s.frames);
      if r.Got? then Done(s.With(r.left, r.addr / PAGE_SIZE)) else Panic
    case PutPage(page) =>
      var f :- FreePage(s.frames, page * PAGE_SIZE);
      Done(s.Without(f, page))
    case TakeRun(n, align) =>
      var (addr, f) :- AllocAligned(s.frames, n, align);
      Done(State(f, s.low + multiset(Span(addr / PAGE_SIZE, n)), s.high))
    case PutRun(page, n) =>
      var f := FreeContig(s.frames, page * PAGE_SIZE, n);
      Done(if page == 0 then s.(frames := f) else State(f, s.low - multiset(Span(page, n)), s.high))
  }

  /** The state after a run, if every step is allowed and none panics. */
  function Run(s: State, ops: seq<Op>): Option<State>
    decreases |ops|
  {
    if ops == [] then Some(s)
    else if !Allowed(s, ops[0]) then None
    else if Step(s, ops[0]).Panic? then None
    else Run(Step(s, ops[0]).value, ops[1..])
  }

  /** No call, ready or not, makes the stack and the high pages held grow together. */
  lemma StepWeight(s: State, op: Op)
    requires Allowed(s, op) && Step(s, op).Done?
    ensures Step(s, op).value.Weight() <= s.Weight()
  {
  }

  lemma {:induction false} RunWeight(s: State, ops: seq<Op>)
    requires Run(s, ops).Some?
    ensures Run(s, ops).value.Weight() <= s.Weight()
    decreases |ops|
  {
    if ops != [] {
      StepWeight(s, ops[0]);
      RunWeight(Step(s, ops[0]).value, ops[1..]);
    }
  }

  predicate ReadyFor(s: State, op: Op)
    requires Allowed(s, op)
  {
    op.TakePage? ==> Ready(s.frames)
  }

  /** alloc_page is ready whenever the run calls it. */
  predicate ReadyRun(s: State, ops: seq<Op>)
    requires Run(s, ops).Some?
    decreases |ops|
  {
    ops != [] ==> ReadyFor(s, ops[0]) && ReadyRun(Step(s, ops[0]).value, ops[1..])
  }

  /** How often the page is there, free or held. */
  ghost function Count(s: State, p: nat): nat {
    s.Held(p) + if IsFree(s.frames, p) then 1 else 0
  }

  /** Each page of all is either free or held, once, and no other page is. */
  ghost predicate Conserved(s: State, all: set<nat>) {
    && Inv(s.frames)
    && (forall p :: p in s.high ==> LOW_PAGES <= p)
    && (forall p: nat :: p in all ==> p < TWO_32)
    && (forall p: nat :: Count(s, p) == if p in all then 1 else 0)
  }

  ghost predicate SameCounts(s: State, s': State) {
    && Inv(s'.frames)
    && (forall p: nat :: Count(s', p) == Count(s, p))
    && (forall p :: p in s'.high ==> p in s.high || LOW_PAGES <= p)
  }

  lemma TakePageConserves(s: State)
    requires Inv(s.frames) && Ready(s.frames) && Step(s, TakePage).Done?
    ensures var s' := Step(s, TakePage).value; SameCounts(s, s')
  {
    AllocPageExact(s.frames);
    hide AllocPage, Ready, IsFree, Inv;
  }

  lemma PutPageConserves(s: State, page: nat)
    requires Inv(s.frames) && s.Held(page) > 0 && !IsFree(s.frames, page) && page < TWO_32
    requires Step(s, PutPage(page)).Done?
    ensures var s' := Step(s, PutPage(page)).value; SameCounts(s, s')
  {
    FreePageExact(s.frames, page * PAGE_SIZE);
    hide FreePage, IsFree, Inv;
  }

  lemma TakeRunConserves(s: State, n: nat, align: nat)
    requires Inv(s.frames) && align > 0 && Step(s, TakeRun(n, align)).Done?
    ensures var s' := Step(s, TakeRun(n, align)).value; SameCounts(s, s')
  {
    if n > 0 {
      AllocAlignedIsFirstFit(s.frames, n, align);
      var page := AllocAligned(s.frames, n, align).value.0 / PAGE_SIZE;
      assert forall p: nat :: p in Span(page, n) ==> p < LOW_PAGES && IsFree(s.frames, p);
      hide AllocAligned, IsFree, Inv, Span;
    }
  }

  lemma PutRunConserves(s: State, page: nat, n: nat)
    requires Inv(s.frames) && page + n <= LOW_PAGES && multiset(Span(page, n)) <= s.low
    requires forall p: nat :: Count(s, p) <= 1
    ensures var s' := Step(s, PutRun(page, n)).value; SameCounts(s, s')
  {
    SpanFreed(s.frames, page, n);
    assert forall p: nat :: p in Span(page, n) ==> p in multiset(Span(page, n)) && p < LOW_PAGES;
    hide FreeContig, IsFree, Inv, Span;
  }

  lemma StepConserves(s: State, op: Op, all: set<nat>)
    requires Conserved(s, all) && Allowed(s, op) && ReadyFor(s, op) && Step(s, op).Done?
    ensures Conserved(Step(s, op).value, all)
  {
    hide Step, IsFree, Inv;
    match op
    case TakePage =>
      TakePageConserves(s);
    case PutPage(page) =>
      assert Count(s, page) == if page in all then 1 else 0;
      PutPageConserves(s, page);
    case TakeRun(n, align) =>
      TakeRunConserves(s, n, align);
    case PutRun(page, n) =>
      PutRunConserves(s, page, n);
  }

  lemma SpanFreed(f: Frames, page: nat, n: nat)
    requires Inv(f) && page + n <= LOW_PAGES
    ensures var f' := FreeContig(f, page * PAGE_SIZE, n);
      Inv(f') && forall p: nat :: IsFree(f', p) <==> IsFree(f, p) || (page != 0 && p in Span(page, n))
  {
  }

  /** Every run whose allocations are ready keeps each page free or held once, never both. */
  lemma {:induction false} RunConserves(s: State, ops: seq<Op>, all: set<nat>)
    requires Conserved(s, all) && Run(s, ops).Some? && ReadyRun(s, ops)
    ensures Conserved(Run(s, ops).value, all)
    decreases |ops|
  {
    if ops != [] {
      StepConserves(s, ops[0], all);
      RunConserves(Step(s, ops[0]).value, ops[1..], all);
    }
  }

  lemma {:induction false} StackWithin(stack: seq<nat>, all: set<nat>)
    requires Distinct(stack) && forall p :: p in stack ==> p in all
    ensures |stack| <= |all|
    decreases |stack|
  {
    if stack != [] {
      var k := |stack| - 1;
      StackWithin(stack[..k], all - {stack[k]});
      assert all == all - {stack[k]} + {stack[k]};
    }
  }

  /** The stack and the high pages held are no more than there are pages. */
  lemma {:induction false} ConservedWeight(s: State, all: set<nat>)
    requires Conserved(s, all)
    ensures s.Weight() <= |all|
    decreases s.high
  {
    if s.high == multiset{} {
      forall p | p in s.frames.stack ensures p in all {
        assert Count(s, p) > 0;
      }
      StackWithin(s.frames.stack, all);
    } else {
      var p :| p in s.high;
      assert Count(s, p) > 0;
      hide IsFree, Inv;
      ConservedWeight(s.Without(s.frames, p), all - {p});
    }
  }
}
