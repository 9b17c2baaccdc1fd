/** The slab allocator in place (kernel/src/slab.c). */
module SlabAllocator {
  import opened Wrappers
  import opened Arith
  import opened Linaddr
  import S = Slab

  /** Bitwise and. */
  function And(a: nat, b: nat): nat {
    if a == 0 || b == 0 then 0 else 2 * And(a / 2, b / 2) + (if a % 2 == 1 && b % 2 == 1 then 1 else 0)
  }

  lemma {:induction false} AndSelf(a: nat)
    ensures And(a, a) == a
  {
    if a > 0 {
      AndSelf(a / 2);
    }
  }

  /** n & (n - 1) is zero exactly for powers of two. */
  lemma {:induction false} PowerTest(n: nat)
    requires n > 0
    ensures And(n, n - 1) == 0 <==> S.PowerOfTwo(n)
  {
    if n == 1 {
    } else if n % 2 == 0 {
      PowerTest(n / 2);
      assert (n - 1) / 2 == n / 2 - 1;
    } else {
      AndSelf(n / 2);
      assert (n - 1) / 2 == n / 2;
    }
  }

  /** The links stored so far: those of the objects that end at or before upto. */
  function LinksBelow(base: nat, size: nat, upto: nat): S.Words
    requires size > 0
  {
    map a: nat | base <= a < base + PAGE_SIZE && S.StartsObject(a, base, size) && a < base + upto :: a + size
  }

  lemma NextStart(base: nat, size: nat, k: nat, a: nat)
    requires size > 0 && k % size == 0 && base <= a
    ensures k + size <= PAGE_SIZE ==> S.StartsObject(base + k, base, size)
    ensures S.StartsObject(a, base, size) && a < base + k + size ==> a <= base + k
  {
    if S.StartsObject(a, base, size) && base + k < a < base + k + size {
      AddLow(k, size, a - base - k);
    }
  }

  class Slabs {
    var words: S.Words
    var owner: map<nat, nat>
    var slabs: map<nat, S.SlabInfo>

    constructor (words: S.Words)
      ensures State() == S.Heap(words, map[], map[S.GLOBAL_SLAB := S.SlabInfo(S.SLABINFO_SIZE, 0)])
    {
      this.words := words;
      owner := map[];
      slabs := map[S.GLOBAL_SLAB := S.SlabInfo(S.SLABINFO_SIZE, 0)];
    }

    function State(): S.Heap
      reads this
    {
      S.Heap(words, owner, slabs)
    }

    /** The least power of two that is no less than n or 8. */
    static method PickSize(n: nat) returns (size: nat)
      requires 0 < n <= PAGE_SIZE / 2
      ensures size == S.Doubled(S.MIN_SIZE, n)
      ensures S.PowerOfTwo(size) && size >= n && size >= S.MIN_SIZE
      ensures forall p: nat :: S.PowerOfTwo(p) && p >= n && p >= S.MIN_SIZE ==> size <= p
    {
      assert S.PowerOfTwo(4) && S.PowerOfTwo(S.MIN_SIZE);
      S.DoubledIsLeast(S.MIN_SIZE, n);
      PowerTest(n);
      if n < S.MIN_SIZE {
        size := 8;
      } else if And(n, n - 1) != 0 {
        size := S.MIN_SIZE;
        while size < n
          invariant size > 0
          invariant S.Doubled(S.MIN_SIZE, n) == S.Doubled(size, n)
          decreases n - size
        {
          size := 2 * size;
        }
      } else {
        size := n;
      }
    }

    /** The address of the new descriptor, or 0. */
    method SlabCreate(n: nat, page: nat) returns (slab: nat)
      requires S.GLOBAL_SLAB in slabs && S.SizeOk(slabs[S.GLOBAL_SLAB].objSize)
      modifies this
      ensures S.Create(old(State()), n, page).None? ==> slab == 0 && State() == old(State())
      ensures S.Create(old(State()), n, page).Some? ==> S.Create(old(State()), n, page).value == (slab, State())
    {
      if n == 0 || n > PAGE_SIZE / 2 {
        return 0;
      }
      slab := SlabAlloc(S.GLOBAL_SLAB, page);
      var size := PickSize(n);
      slabs := slabs[slab := S.SlabInfo(size, 0)];
    }

    method SlabAlloc(id: nat, page: nat) returns (obj: nat)
      requires id in slabs && S.SizeOk(slabs[id].objSize)
      modifies this
      ensures S.Alloc(old(State()), id, page) == (obj, State())
    {
      if slabs[id].freeList == 0 {
        var base := page * PAGE_SIZE;
        slabs := slabs[id := slabs[id].(freeList := base)];
        ThreadPage(base, slabs[id].objSize);
        owner := owner[page := id];
        assert State() == S.Refill(old(State()), id, page);
      }
      obj := slabs[id].freeList;
      slabs := slabs[id := slabs[id].(freeList := S.Load(words, obj))];
    }

    /** Links the objects of a new page. */
    method ThreadPage(base: nat, size: nat)
      requires S.SizeOk(size)
      modifies this`words
      ensures words == old(words) + S.Links(base, size)
    {
      hide LinksBelow, S.Links, Whole;
      var offset := size;
      FirstOffset(words, base, size);
      while offset < PAGE_SIZE
        invariant size <= offset <= PAGE_SIZE
        invariant Whole(offset, size)
        invariant words == old(words) + LinksBelow(base, size, offset - size)
      {
        OneLinkMore(old(words), base, size, offset);
        words := words[base + offset - size := base + offset];
        offset := offset + size;
      }
      LastLink(old(words), base, size);
      words := words[base + PAGE_SIZE - size := 0];
    }

    method SlabFree2(id: nat, obj: nat)
      requires id in slabs
      modifies this
      ensures State() == S.Free2(old(State()), id, obj)
    {
      words := words[obj := slabs[id].freeList];
      slabs := slabs[id := slabs[id].(freeList := obj)];
    }

    /** False when the call panics. */
    method SlabFree(obj: nat) returns (ok: bool)
      requires obj / PAGE_SIZE in owner ==> owner[obj / PAGE_SIZE] in slabs
      modifies this
      ensures ok ==> S.Free(old(State()), obj) == Done(State())
      ensures !ok ==> S.Free(old(State()), obj).Panic? && State() == old(State())
    {
      var page := obj / PAGE_SIZE;
      if page !in owner {
        return false;
      }
      SlabFree2(owner[page], obj);
      ok := true;
    }
  }

  predicate Whole(offset: nat, size: nat) {
    size > 0 && offset % size == 0
  }

  lemma FirstOffset(words: S.Words, base: nat, size: nat)
    requires S.SizeOk(size)
    ensures size <= PAGE_SIZE && Whole(size, size)
    ensures words == words + LinksBelow(base, size, 0)
  {
    DivModUnique(size, size, 1, 0);
    WholeFits(0, size);
    assert LinksBelow(base, size, 0) == map[];
  }

  lemma WholeFits(offset: nat, size: nat)
    requires S.SizeOk(size) && Whole(offset, size) && offset < PAGE_SIZE
    ensures offset + size <= PAGE_SIZE && Whole(offset + size, size)
  {
    var k, n := offset / size, PAGE_SIZE / size;
    assert offset == k * size && PAGE_SIZE == n * size;
    S.IndexBound(k, n, size);
    AtLeast(n - k, size);
    assert (n - k) * size == PAGE_SIZE - offset;
    DivModUnique(offset + size, size, k + 1, 0);
  }

  lemma WholeBefore(offset: nat, size: nat)
    requires Whole(offset, size) && offset >= size
    ensures Whole(offset - size, size)
  {
    var k := offset / size;
    assert offset == k * size;
    assert k != 0;
    DivModUnique(offset - size, size, k - 1, 0);
  }

  /** One turn of the loop adds the link of the object that ends at offset. */
  lemma OneLinkMore(words: S.Words, base: nat, size: nat, offset: nat)
    requires S.SizeOk(size) && Whole(offset, size) && size <= offset < PAGE_SIZE
    ensures offset + size <= PAGE_SIZE && Whole(offset + size, size)
    ensures words + LinksBelow(base, size, offset) ==
      (words + LinksBelow(base, size, offset - size))[base + offset - size := base + offset]
  {
    var k: nat := offset - size;
    WholeFits(offset, size);
    WholeBefore(offset, size);
    forall a: nat | base <= a < base + PAGE_SIZE
      ensures S.StartsObject(a, base, size) && a < base + offset <==>
        (S.StartsObject(a, base, size) && a < base + k) || a == base + k
    {
      NextStart(base, size, k, a);
    }
  }

  /** The last object ends the list. */
  lemma LastLink(words: S.Words, base: nat, size: nat)
    requires S.SizeOk(size) && size <= PAGE_SIZE
    ensures words + S.Links(base, size) ==
      (words + LinksBelow(base, size, PAGE_SIZE - size))[base + PAGE_SIZE - size := 0]
  {
    WholeBefore(PAGE_SIZE, size);
    forall a: nat | base <= a < base + PAGE_SIZE
      ensures S.StartsObject(a, base, size) <==>
        (S.StartsObject(a, base, size) && a < base + PAGE_SIZE - size) || a == base + PAGE_SIZE - size
    {
      NextStart(base, size, PAGE_SIZE - size, a);
    }
  }
}
