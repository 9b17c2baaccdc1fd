/** The physical page allocator in place (kernel/arch/x86_64/mman.c). */
module PageAllocator {
  import opened Wrappers
  import opened Arith
  import opened Bits
  import opened Linaddr
  import opened MemMap
  import opened Frames
  import F = Frames
  import opened BootMemory

  class Allocator {
    const bitmap: array<bool>
    var stack: seq<nat>

    constructor ()
      ensures fresh(bitmap) && Valid()
    {
      bitmap := new bool[LOW_PAGES];
      stack := [];
    }

    predicate Valid() {
      bitmap.Length == LOW_PAGES
    }

    ghost function State(): Frames
      reads this, bitmap
    {
      Frames(bitmap[..], stack)
    }

    /** None when the scan runs past the bitmap. */
    method AllocPage() returns (addr: Option<nat>)
      requires Valid()
      modifies this, bitmap
      ensures addr.Some? ==> F.AllocPage(old(State())) == Got(addr.value, State())
      ensures addr.None? ==> F.AllocPage(old(State())) == Stray && State() == old(State())
    {
      if stack == [] {
        addr := AllocLow();
        return;
      }
      var top := stack[|stack| - 1];
      stack := stack[..|stack| - 1];
      addr := Some(top * PAGE_SIZE % TWO_32);
    }

    /** The scan of the bitmap for a nonzero word. */
    method AllocLow() returns (addr: Option<nat>)
      requires Valid() && stack == []
      modifies bitmap
      ensures addr.Some? ==> F.AllocPage(old(State())) == Got(addr.value, State())
      ensures addr.None? ==> F.AllocPage(old(State())) == Stray && State() == old(State())
    {
      hide F.AllocPage, Lowest, Highest, StoreWord, Bit;
      var i := 0;
      while i < LOW_PAGES / 64
        invariant 0 <= i <= LOW_PAGES / 64
        invariant bitmap[..] == old(bitmap[..])
        invariant forall q :: 0 <= q < 64 * i ==> !bitmap[q]
      {
        var first := Lowest(bitmap[..], 64 * i);
        if first.Some? && first.value < 64 * i + 64 {
          var bit := first.value - 64 * i;
          FoundWord(State(), i, first.value);
          var top := Highest(bitmap[..], 64 * i, 64 * i + 64).value - 64 * i;
          SetWord(i, top);
          return Some((i * 64 + bit) * PAGE_SIZE);
        }
        i := i + 1;
      }
      NoWord(State());
      addr := None;
    }

    method SetWord(i: nat, n: nat)
      requires Valid() && i < LOW_PAGES / 64
      modifies bitmap
      ensures bitmap[..] == StoreWord(old(bitmap[..]), i, n)
    {
      forall k | 0 <= k < 64 {
        bitmap[64 * i + k] := Bit(n, k);
      }
      assert forall p :: 0 <= p < LOW_PAGES && p / 64 == i ==> bitmap[64 * i + p % 64] == Bit(n, p % 64);
    }

    /** False when the call panics. */
    method FreePage(addr: nat) returns (ok: bool)
      requires Valid()
      modifies this, bitmap
      ensures ok ==> F.FreePage(old(State()), addr) == Done(State())
      ensures !ok ==> F.FreePage(old(State()), addr).Panic? && State() == old(State())
    {
      var page := addr / PAGE_SIZE;
      ok := true;
      if addr < LOWMEM_SIZE {
        bitmap[page / 64 * 64 + page % 64] := true;
      } else if stack != [] {
        stack := stack + [page % TWO_32];
      } else {
        ok := false;
      }
    }

    /** None when the call panics. */
    method AllocAligned(n: nat, align: nat) returns (addr: Option<nat>)
      requires Valid() && align > 0
      modifies bitmap
      ensures addr.Some? ==> F.AllocAligned(old(State()), n, align) == Done((addr.value, State()))
      ensures addr.None? ==> F.AllocAligned(old(State()), n, align).Panic? && State() == old(State())
    {
      if n == 0 {
        return Some(0);
      }
      var start := 0;
      while start + n <= LOW_PAGES
        invariant start >= 0
        invariant bitmap[..] == old(bitmap[..])
        invariant FirstFit(bitmap[..], 0, n, align) == FirstFit(bitmap[..], start, n, align)
        decreases LOW_PAGES - start
      {
        var found := true;
        var j := 0;
        while j < n
          invariant 0 <= j <= n
          invariant found <==> forall p :: start <= p < start + j ==> bitmap[p]
        {
          var p := start + j;
          if !bitmap[p / 64 * 64 + p % 64] {
            found := false;
            break;
          }
          j := j + 1;
        }
        assert found <==> AllSet(bitmap[..], start, n);
        if found {
          Mark(start, n, false);
          return Some(start * PAGE_SIZE);
        }
        start := start + align;
      }
      addr := None;
    }

    method AllocContig(n: nat) returns (addr: Option<nat>)
      requires Valid()
      modifies bitmap
      ensures addr.Some? ==> F.AllocAligned(old(State()), n, 1) == Done((addr.value, State()))
      ensures addr.None? ==> F.AllocAligned(old(State()), n, 1).Panic? && State() == old(State())
    {
      addr := AllocAligned(n, 1);
    }

    method FreeContig(addr: nat, n: nat)
      requires Valid() && addr / PAGE_SIZE + n <= LOW_PAGES
      modifies bitmap
      ensures State() == F.FreeContig(old(State()), addr, n)
    {
      if n == 0 || addr == 0 {
        return;
      }
      Mark(addr / PAGE_SIZE, n, true);
    }

    /** Sets or clears n bits, one at a time. */
    method Mark(start: nat, n: nat, b: bool)
      requires Valid() && start + n <= LOW_PAGES
      modifies bitmap
      ensures bitmap[..] == Filled(old(bitmap[..]), start, n, b)
    {
      var j := 0;
      while j < n
        invariant 0 <= j <= n
        invariant bitmap[..] == Filled(old(bitmap[..]), start, j, b)
      {
        var p := start + j;
        bitmap[p / 64 * 64 + p % 64] := b;
        j := j + 1;
      }
    }

    // ---- mman_init ----

    /** The first bitmap bits are the usable low pages. The mask turns with the page number. */
    method SetupBitmap(entries: seq<Entry>)
      requires Valid() && Sound(entries)
      modifies bitmap
      ensures forall p: nat :: p < LOW_PAGES ==> (bitmap[p] <==> From(entries, 0, Usable, p))
    {
      forall p | 0 <= p < LOW_PAGES {
        bitmap[p] := false;
      }
      var i := 0;
      while i < |entries|
        invariant 0 <= i <= |entries|
        invariant forall p: nat :: p < LOW_PAGES ==> (bitmap[p] <==> Upto(entries, i, Usable, p))
      {
        var entry := entries[i];
        ghost var before := bitmap[..];
        assert entry in entries;
        if entry.kind.Usable? {
          var startPage, endPage := entry.base / PAGE_SIZE, (entry.End() - 1) / PAGE_SIZE;
          var mask := startPage % 64;
          var j := startPage;
          while j <= Min(endPage, LOW_PAGES - 1)
            invariant startPage <= j && mask == j % 64
            invariant forall p: nat :: p < LOW_PAGES ==> (bitmap[p] <==> before[p] || (Holds(entry, p) && p < j))
          {
            bitmap[j / 64 * 64 + mask] := true;
            mask := (mask + 1) % 64;
            j := j + 1;
          }
        }
        i := i + 1;
        forall p: nat | p < LOW_PAGES ensures bitmap[p] <==> Upto(entries, i, Usable, p) {
          UptoNext(entries, i - 1, Usable, p);
        }
      }
      forall p: nat | p < LOW_PAGES ensures bitmap[p] <==> From(entries, 0, Usable, p) {
        assert Upto(entries, |entries|, Usable, p) <==> From(entries, 0, Usable, p);
      }
    }

    /** The stack gets the usable high pages outside the reserved run, the last entry's last page first. */
    method SetupStack(entries: seq<Entry>, home: nat, reserve: nat, ghost h: nat)
      requires Sound(entries) && HomeAt(entries, h, home, reserve) && reserve > 0
      modifies this
      ensures Distinct(stack)
      ensures forall p: nat :: p in stack <==>
        From(entries, 0, Usable, p) && p >= LOW_PAGES && !InSpan(p, home, reserve)
    {
      stack := [];
      var i := |entries| - 1;
      while i >= 0
        invariant -1 <= i < |entries|
        invariant Distinct(stack)
        invariant forall p: nat :: p in stack <==>
          From(entries, i + 1, Usable, p) && p >= LOW_PAGES && !InSpan(p, home, reserve)
      {
        var entry := entries[i];
        if entry.kind.Usable? {
          PushEntry(entries, i, home, reserve, h);
        }
        forall p: nat ensures From(entries, i, Usable, p) <==>
          From(entries, i + 1, Usable, p) || (entry.kind.Usable? && Holds(entry, p)) {
          FromNext(entries, i, Usable, p);
        }
        i := i - 1;
      }
    }

    method PushEntry(entries: seq<Entry>, i: nat, home: nat, reserve: nat, ghost h: nat)
      requires Sound(entries) && HomeAt(entries, h, home, reserve) && reserve > 0
      requires i < |entries| && entries[i].kind.Usable?
      requires Distinct(stack)
      requires forall p: nat :: p in stack ==> From(entries, i + 1, Usable, p)
      modifies this
      ensures Distinct(stack)
      ensures forall p: nat :: p in stack <==>
        p in old(stack) || (Holds(entries[i], p) && p >= LOW_PAGES && !InSpan(p, home, reserve))
    {
      var entry := entries[i];
      assert entry in entries;
      var startPage, endPage := entry.base / PAGE_SIZE, (entry.End() - 1) / PAGE_SIZE;
      forall p: nat | Holds(entry, p) ensures p !in stack {
        NotLater(entries, i, p);
      }
      forall p: nat ensures InSpan(p, home, reserve) && Holds(entry, p) ==> i == h {
        ReservedRun(entries, h, home, reserve, i, p);
      }
      ReservedRun(entries, h, home, reserve, i, home + reserve - 1);
      var j := endPage;
      while j >= Max(startPage, LOW_PAGES)
        invariant j <= endPage
        invariant Distinct(stack)
        invariant forall p: nat :: p in stack <==>
          p in old(stack) || (Holds(entry, p) && p > j && p >= LOW_PAGES && !InSpan(p, home, reserve))
        invariant j < Max(startPage, LOW_PAGES) || !InSpan(j, home, reserve) || j == home + reserve - 1
        decreases j
      {
        if j == home + reserve - 1 {
          j := j - reserve;
          if j < Max(startPage, LOW_PAGES) {
            j := j - 1;
            continue;
          }
        }
        stack := stack + [j];
        j := j - 1;
      }
    }

    /** Boot-loader pages get their bits or go on the stack, save the one under the boot stack. */
    method Reclaim(entries: seq<Entry>, skip: nat) returns (ghost pushed: seq<nat>)
      requires Valid() && Sound(entries)
      modifies this, bitmap
      ensures Adds(entries, old(State()), State(), skip, pushed)
    {
      var i := 0;
      pushed := [];
      while i < |entries|
        invariant 0 <= i <= |entries|
        invariant forall p: nat :: p < LOW_PAGES ==>
          (bitmap[p] <==> old(bitmap[p]) || (Upto(entries, i, BootloaderReclaimable, p) && p != skip))
        invariant stack == old(stack) + pushed && Distinct(pushed)
        invariant forall p: nat :: p in pushed <==>
          Upto(entries, i, BootloaderReclaimable, p) && p >= LOW_PAGES && p != skip
      {
        var entry := entries[i];
        if entry.kind.BootloaderReclaimable? {
          forall p: nat | Holds(entry, p) ensures p !in pushed {
            NotEarlier(entries, i, p);
          }
          assert entry in entries;
          pushed := ReclaimEntry(entry, skip, pushed);
        }
        i := i + 1;
        forall p: nat ensures Upto(entries, i, BootloaderReclaimable, p) <==>
          Upto(entries, i - 1, BootloaderReclaimable, p) || (entry.kind.BootloaderReclaimable? && Holds(entry, p)) {
          UptoNext(entries, i - 1, BootloaderReclaimable, p);
        }
      }
      forall p: nat ensures Upto(entries, |entries|, BootloaderReclaimable, p) <==>
        From(entries, 0, BootloaderReclaimable, p) {
      }
    }

    /** One entry, where the pages pushed before are none of its own. */
    method ReclaimEntry(entry: Entry, skip: nat, ghost before: seq<nat>) returns (ghost pushed: seq<nat>)
      requires Valid() && 0 < entry.End() <= TWO_32 * PAGE_SIZE
      requires Distinct(before) && forall p: nat :: Holds(entry, p) ==> p !in before
      modifies this, bitmap
      ensures forall p: nat :: p < LOW_PAGES ==> (bitmap[p] <==> old(bitmap[p]) || (Holds(entry, p) && p != skip))
      ensures before <= pushed && stack == old(stack) + pushed[|before|..] && Distinct(pushed)
      ensures forall p: nat :: p in pushed <==> p in before || (Holds(entry, p) && p >= LOW_PAGES && p != skip)
    {
      var startPage, endPage := entry.base / PAGE_SIZE, (entry.End() - 1) / PAGE_SIZE;
      var j := startPage;
      pushed := before;
      while j <= endPage
        invariant startPage <= j
        invariant forall p: nat :: p < LOW_PAGES ==>
          (bitmap[p] <==> old(bitmap[p]) || (Holds(entry, p) && p < j && p != skip))
        invariant before <= pushed && stack == old(stack) + pushed[|before|..] && Distinct(pushed)
        invariant forall p: nat :: p in pushed <==>
          p in before || (Holds(entry, p) && p < j && p >= LOW_PAGES && p != skip)
      {
        if j == skip {
          j := j + 1;
          continue;
        }
        if j < LOW_PAGES {
          bitmap[j / 64 * 64 + j % 64] := true;
        } else {
          stack := stack + [j % TWO_32];
          assert Holds(entry, j) && j !in pushed;
          assert (pushed + [j])[|before|..] == pushed[|before|..] + [j];
          pushed := pushed + [j];
        }
        j := j + 1;
      }
    }

    /** mman_init up to the page tables: it finds a home for the bitmap and the stack and fills both. */
    method Init(entries: seq<Entry>) returns (home: Option<nat>)
      requires Valid() && Sound(entries)
      modifies this, bitmap
      ensures home.None? <==> forall e :: e in entries ==> !Roomy(e, Reserve(entries))
      ensures home.Some? ==> Partitioned(entries, State(), home.value, Reserve(entries))
      ensures home.Some? ==> exists h: nat :: (
        && HomeAt(entries, h, home.value, Reserve(entries))
        && forall k :: 0 <= k < h ==> !Roomy(entries[k], Reserve(entries)))
    {
      var size, i := 0, 0;
      while i < |entries|
        invariant 0 <= i <= |entries|
        invariant size == MemSize(entries[..i])
      {
        assert entries[..i + 1][..i] == entries[..i];
        if Counted(entries[i].kind) {
          size := size + entries[i].length;
        }
        i := i + 1;
      }
      assert entries[..|entries|] == entries;
      var reserve := (size / PAGE_SIZE * STACK_ENTRY + BITMAP_SIZE + 0xfff) / PAGE_SIZE;
      i := 0;
      while i < |entries|
        invariant 0 <= i <= |entries|
        invariant forall k :: 0 <= k < i ==> !Roomy(entries[k], reserve)
      {
        if Roomy(entries[i], reserve) {
          break;
        }
        i := i + 1;
      }
      if i == |entries| {
        return None;
      }
      assert entries[i] in entries;
      home := Some(HighBase(entries[i]) / PAGE_SIZE);
      assert HomeAt(entries, i, home.value, reserve);
      SetupBitmap(entries);
      SetupStack(entries, home.value, reserve, i);
      Partition(entries, State(), i, home.value, reserve);
    }
  }

  lemma LowestFrom(bits: seq<bool>, p: nat)
    requires p <= |bits| && forall q :: 0 <= q < p ==> !bits[q]
    ensures Lowest(bits, 0) == Lowest(bits, p)
  {
  }

  lemma NoWord(f: Frames)
    requires |f.bits| == LOW_PAGES && f.stack == []
    requires forall q :: 0 <= q < LOW_PAGES ==> !f.bits[q]
    ensures F.AllocPage(f) == Stray
  {
  }

  /** The first nonzero word holds the lowest free page. */
  lemma FoundWord(f: Frames, i: nat, p: nat)
    requires |f.bits| == LOW_PAGES && f.stack == [] && i < LOW_PAGES / 64
    requires forall q :: 0 <= q < 64 * i ==> !f.bits[q]
    requires Lowest(f.bits, 64 * i) == Some(p) && p < 64 * i + 64
    ensures Highest(f.bits, 64 * i, 64 * i + 64).Some?
    ensures F.AllocPage(f) ==
      Got(p * PAGE_SIZE, f.(bits := StoreWord(f.bits, i, Highest(f.bits, 64 * i, 64 * i + 64).value - 64 * i)))
  {
    LowestFrom(f.bits, 64 * i);
    assert p / 64 == i;
  }

  lemma UptoNext(entries: seq<Entry>, i: nat, kind: Kind, p: nat)
    requires i < |entries|
    ensures Upto(entries, i + 1, kind, p) <==>
      Upto(entries, i, kind, p) || (entries[i].kind == kind && Holds(entries[i], p))
  {
  }

  lemma FromNext(entries: seq<Entry>, i: nat, kind: Kind, p: nat)
    requires i < |entries|
    ensures From(entries, i, kind, p) <==>
      From(entries, i + 1, kind, p) || (entries[i].kind == kind && Holds(entries[i], p))
  {
  }

  lemma NotLater(entries: seq<Entry>, i: nat, p: nat)
    requires Sound(entries) && i < |entries| && entries[i].Mapped() && Holds(entries[i], p)
    ensures !From(entries, i + 1, Usable, p)
  {
  }

  lemma NotEarlier(entries: seq<Entry>, i: nat, p: nat)
    requires Sound(entries) && i < |entries| && entries[i].Mapped() && Holds(entries[i], p)
    ensures !Upto(entries, i, BootloaderReclaimable, p)
  {
  }

  lemma Partition(entries: seq<Entry>, f: Frames, h: nat, home: nat, reserve: nat)
    requires Sound(entries) && HomeAt(entries, h, home, reserve) && |f.bits| == LOW_PAGES
    requires forall p: nat :: p < LOW_PAGES ==> (f.bits[p] <==> From(entries, 0, Usable, p))
    requires Distinct(f.stack)
    requires forall p: nat :: p in f.stack <==>
      From(entries, 0, Usable, p) && p >= LOW_PAGES && !InSpan(p, home, reserve)
    ensures Partitioned(entries, f, home, reserve)
  {
    ReservedRun(entries, h, home, reserve, h, home);
    forall p: nat | InSpan(p, home, reserve) ensures From(entries, 0, Usable, p) {
      ReservedRun(entries, h, home, reserve, h, p);
    }
    forall p | p in f.stack ensures p < TWO_32 {
      var i :| 0 <= i < |entries| && entries[i].kind == Usable && Holds(entries[i], p);
      assert entries[i] in entries;
    }
  }
}
