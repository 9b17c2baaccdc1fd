/** The slab allocator, on values (kernel/src/slab.c). */
module Slab {
  import opened Wrappers
  import opened Arith
  import opened Linaddr

  /** The words that have been stored, by their address. */
  type Words = map<nat, nat>

  /** A descriptor: the object size and the first free object, 0 for none. */
  datatype SlabInfo = SlabInfo(objSize: nat, freeList: nat)

  /** Memory; the owner of each page flagged PAGEINFO_SLAB; the descriptors by address.
    * Addresses are direct-map addresses, and page numbers count from the start of that space. */
  datatype Heap = Heap(words: Words, owner: map<nat, nat>, slabs: map<nat, SlabInfo>)

  /** The address of the static descriptor that hands out all others, below the direct map. */
  const GLOBAL_SLAB := 8
  const SLABINFO_SIZE := 32
  const MIN_SIZE := 8

  function Load(words: Words, a: nat): nat {
    if a in words then words[a] else 0
  }

  // ---- Operations ----

  predicate InPage(a: nat, base: nat) {
    base <= a < base + PAGE_SIZE
  }

  predicate StartsObject(a: nat, base: nat, size: nat)
    requires size > 0
  {
    InPage(a, base) && (a - base) % size == 0
  }

  /** The links slab_alloc stores in a new page: each object leads to the next, the last to none. */
  function Links(base: nat, size: nat): Words
    requires size > 0
  {
    map a: nat | base <= a < base + PAGE_SIZE && StartsObject(a, base, size) ::
      if a + size == base + PAGE_SIZE then 0 else a + size
  }

  function Refill(h: Heap, id: nat, page: nat): Heap
    requires id in h.slabs && h.slabs[id].objSize > 0
  {
    var base := page * PAGE_SIZE;
    Heap(h.words + Links(base, h.slabs[id].objSize), h.owner[page := id], h.slabs[id := h.slabs[id].(freeList := base)])
  }

  function Pop(h: Heap, id: nat): (nat, Heap)
    requires id in h.slabs
  {
    var obj := h.slabs[id].freeList;
    (obj, h.(slabs := h.slabs[id := h.slabs[id].(freeList := Load(h.words, obj))]))
  }

  /** slab_alloc, where alloc_page would return the given page. */
  function Alloc(h: Heap, id: nat, page: nat): (nat, Heap)
    requires id in h.slabs && h.slabs[id].objSize > 0
  {
    Pop(if h.slabs[id].freeList == 0 then Refill(h, id, page) else h, id)
  }

  function Free2(h: Heap, id: nat, obj: nat): Heap
    requires id in h.slabs
  {
    Heap(h.words[obj := h.slabs[id].freeList], h.owner, h.slabs[id := h.slabs[id].(freeList := obj)])
  }

  function Free(h: Heap, obj: nat): Outcome<Heap>
    requires obj / PAGE_SIZE in h.owner ==> h.owner[obj / PAGE_SIZE] in h.slabs
  {
    if obj / PAGE_SIZE !in h.owner then Panic else Done(Free2(h, h.owner[obj / PAGE_SIZE], obj))
  }

  /** The object size slab_create picks: the first of size, 2 * size, 4 * size, ... that is no less than n. */
  function Doubled(size: nat, n: nat): (r: nat)
    requires size > 0
    decreases n - size
  {
    if size >= n then size else Doubled(2 * size, n)
  }

  function Create(h: Heap, n: nat, page: nat): Option<(nat, Heap)>
    requires GLOBAL_SLAB in h.slabs && h.slabs[GLOBAL_SLAB].objSize > 0
  {
    if n == 0 || n > PAGE_SIZE / 2 then None
    else
      var (id, h1) := Alloc(h, GLOBAL_SLAB, page);
      Some((id, h1.(slabs := h1.slabs[id := SlabInfo(Doubled(MIN_SIZE, n), 0)])))
  }

  function Store(h: Heap, a: nat, v: nat): Heap {
    h.(words := h.words[a := v])
  }

  // ---- Object sizes ----

  predicate PowerOfTwo(n: nat)
  {
    n == 1 || (n > 1 && n % 2 == 0 && PowerOfTwo(n / 2))
  }

  lemma {:induction false} PowersApart(p: nat, q: nat)
    requires PowerOfTwo(p) && PowerOfTwo(q) && p < q
    ensures 2 * p <= q
  {
    if p > 1 {
      PowersApart(p / 2, q / 2);
    }
  }

  /** Doubling finds the least power of two at or above both bounds. */
  lemma {:induction false} DoubledIsLeast(size: nat, n: nat)
    requires PowerOfTwo(size)
    ensures PowerOfTwo(Doubled(size, n)) && Doubled(size, n) >= size && Doubled(size, n) >= n
    ensures forall p: nat :: PowerOfTwo(p) && p >= size && p >= n ==> Doubled(size, n) <= p
    decreases n - size
  {
    if size < n {
      assert PowerOfTwo(2 * size) && Doubled(size, n) == Doubled(2 * size, n);
      hide PowerOfTwo, Doubled;
      DoubledIsLeast(2 * size, n);
      forall p: nat | PowerOfTwo(p) && p >= size && p >= n ensures 2 * size <= p {
        PowersApart(size, p);
      }
    }
  }

  /** An object size that tiles a page and leaves room for a link. */
  predicate SizeOk(size: nat) {
    size > 0 && size % MIN_SIZE == 0 && PAGE_SIZE % size == 0
  }

  lemma {:induction false} PowersDivide(p: nat, q: nat)
    requires PowerOfTwo(p) && PowerOfTwo(q) && p <= q
    ensures p > 0 && q % p == 0
  {
    if p > 1 {
      PowersDivide(p / 2, q / 2);
      var k := q / 2 / (p / 2);
      assert q / 2 == k * (p / 2);
      assert q == k * p;
      DivModUnique(q, p, k, 0);
    } else {
      DivModUnique(q, 1, q, 0);
    }
  }

  lemma CreatedSizeOk(n: nat)
    requires 0 < n <= PAGE_SIZE / 2
    ensures SizeOk(Doubled(MIN_SIZE, n))
  {
    assert PowerOfTwo(4) && PowerOfTwo(8);
    assert PowerOfTwo(64) by { assert PowerOfTwo(16); }
    assert PowerOfTwo(512) by { assert PowerOfTwo(128); }
    assert PowerOfTwo(2048) by { assert PowerOfTwo(1024); }
    assert PowerOfTwo(PAGE_SIZE);
    DoubledIsLeast(MIN_SIZE, n);
    PowersDivide(MIN_SIZE, Doubled(MIN_SIZE, n));
    PowersDivide(Doubled(MIN_SIZE, n), PAGE_SIZE);
  }

  // ---- What holds of a heap ----

  /** Each slab's free objects in list order, and the slab each live object came from. */
  datatype View = View(chains: map<nat, seq<nat>>, live: map<nat, nat>)

  /** The list from head runs through the chain and ends. */
  predicate Linked(words: Words, head: nat, chain: seq<nat>)
    decreases |chain|
  {
    if chain == [] then head == 0
    else head == chain[0] && head != 0 && Linked(words, Load(words, head), chain[1..])
  }

  /** The address starts an object of a page of the slab. */
  predicate IsObject(h: Heap, id: nat, o: nat)
    requires id in h.slabs && h.slabs[id].objSize > 0
  {
    && o / PAGE_SIZE in h.owner
    && h.owner[o / PAGE_SIZE] == id
    && o % h.slabs[id].objSize == 0
  }

  ghost predicate Shape(h: Heap, v: View) {
    && GLOBAL_SLAB in h.slabs
    && v.chains.Keys == h.slabs.Keys
    && (forall id :: id in h.slabs ==> SizeOk(h.slabs[id].objSize))
    && (forall p :: p in h.owner ==> p > 0 && h.owner[p] in h.slabs)
    && h.slabs[GLOBAL_SLAB].objSize == SLABINFO_SIZE
  }

  /** The slab's free list is its chain, without a repeated object. */
  ghost predicate ChainOk(h: Heap, v: View, id: nat)
    requires id in h.slabs && id in v.chains
  {
    Linked(h.words, h.slabs[id].freeList, v.chains[id]) && Distinct(v.chains[id])
  }

  ghost predicate Chained(h: Heap, v: View)
    requires Shape(h, v)
  {
    forall id :: id in h.slabs ==> ChainOk(h, v, id)
  }

  /** The address is an object of the slab exactly when the slab's chain holds it or the slab handed it out;
    * it is not both. */
  ghost predicate Placed(h: Heap, v: View, id: nat, o: nat)
    requires Shape(h, v) && id in h.slabs
  {
    && (IsObject(h, id, o) <==> o in v.chains[id] || (o in v.live && v.live[o] == id))
    && (o in v.chains[id] ==> o !in v.live)
  }

  ghost predicate Complete(h: Heap, v: View)
    requires Shape(h, v)
  {
    && (forall id, o: nat :: id in h.slabs ==> Placed(h, v, id, o))
    && (forall o :: o in v.live ==> v.live[o] in h.slabs)
  }

  /** Each descriptor but the global one is a live object of the global slab. */
  ghost predicate Described(h: Heap, v: View) {
    forall id :: id in h.slabs && id != GLOBAL_SLAB ==> id in v.live && v.live[id] == GLOBAL_SLAB
  }

  ghost predicate Inv(h: Heap, v: View) {
    Shape(h, v) && Chained(h, v) && Complete(h, v) && Described(h, v)
  }

  // ---- Chains ----

  /** A chain is untouched by stores elsewhere. */
  lemma {:induction false} LinkedKeeps(w: Words, w': Words, head: nat, chain: seq<nat>)
    requires Linked(w, head, chain)
    requires forall o :: o in chain ==> Load(w', o) == Load(w, o)
    ensures Linked(w', head, chain)
    decreases |chain|
  {
    if chain != [] {
      forall o | o in chain[1..] ensures o in chain {
      }
      LinkedKeeps(w, w', Load(w, head), chain[1..]);
    }
  }

  function Objects(base: nat, size: nat, n: nat): (s: seq<nat>)
    ensures |s| == n
  {
    seq(n, i requires 0 <= i < n => base + i * size)
  }

  lemma {:induction false} LinksChain(w: Words, base: nat, size: nat, i: nat, n: nat)
    requires SizeOk(size) && base > 0 && n * size == PAGE_SIZE && i < n
    ensures Linked(w + Links(base, size), base + i * size, Objects(base, size, n)[i..])
    decreases n - i
  {
    var w' := w + Links(base, size);
    var o := base + i * size;
    var rest := Objects(base, size, n)[i..];
    AtLeast(n - i, size);
    assert (n - i) * size == PAGE_SIZE - i * size;
    DivModUnique(i * size, size, i, 0);
    assert StartsObject(o, base, size);
    assert rest[0] == o;
    if i + 1 < n {
      AtLeast(n - i - 1, size);
      assert (n - i - 1) * size == PAGE_SIZE - i * size - size;
      assert base + (i + 1) * size == o + size;
      assert Load(w', o) == o + size;
      LinksChain(w, base, size, i + 1, n);
      assert rest[1..] == Objects(base, size, n)[i + 1..];
    } else {
      assert n * size == i * size + size;
      assert Load(w', o) == 0;
      assert rest[1..] == [];
    }
  }

  lemma ObjectsDistinct(base: nat, size: nat, n: nat)
    requires size > 0
    ensures Distinct(Objects(base, size, n))
  {
    var objs := Objects(base, size, n);
    forall i, j | 0 <= i < j < n ensures objs[i] != objs[j] {
      AtLeast(j - i, size);
      assert (j - i) * size == j * size - i * size;
    }
  }

  lemma ObjectAt(page: nat, size: nat, n: nat, i: nat)
    requires SizeOk(size) && n * size == PAGE_SIZE && i < n
    ensures var o := page * PAGE_SIZE + i * size; o / PAGE_SIZE == page && o % size == 0
  {
    AtLeast(n - i, size);
    assert (n - i) * size == PAGE_SIZE - i * size;
    DivModUnique(page * PAGE_SIZE + i * size, PAGE_SIZE, page, i * size);
    DivModUnique(i * size, size, i, 0);
    BaseAligned(page, size, n);
    SumAligned(page * PAGE_SIZE, i * size, size);
  }

  lemma ObjectIndex(page: nat, size: nat, n: nat, o: nat) returns (i: nat)
    requires SizeOk(size) && n * size == PAGE_SIZE
    requires o / PAGE_SIZE == page && o % size == 0
    ensures i < n && o == page * PAGE_SIZE + i * size
  {
    var base := page * PAGE_SIZE;
    BaseAligned(page, size, n);
    Multiples(base, o, size);
    i := o / size - base / size;
    IndexBound(i, n, size);
  }

  lemma Multiples(base: nat, o: nat, size: nat)
    requires size > 0 && base % size == 0 && o % size == 0 && base <= o
    ensures o / size - base / size >= 0 && o - base == (o / size - base / size) * size
  {
    var p, q := base / size, o / size;
    assert base == p * size && o == q * size;
    assert o - base == (q - p) * size;
    if q < p {
      AtLeast(p - q, size);
    }
  }

  lemma IndexBound(i: nat, n: nat, size: nat)
    requires size > 0 && i * size < n * size
    ensures i < n
  {
    if i > n {
      AtLeast(i - n, size);
    }
  }

  /** The objects of a page are the addresses in it that the size divides. */
  lemma ObjectsOfPage(page: nat, size: nat, n: nat, o: nat)
    requires SizeOk(size) && n * size == PAGE_SIZE
    ensures o in Objects(page * PAGE_SIZE, size, n) <==> o / PAGE_SIZE == page && o % size == 0
  {
    var objs := Objects(page * PAGE_SIZE, size, n);
    if o in objs {
      var i :| 0 <= i < n && objs[i] == o;
      ObjectAt(page, size, n, i);
    }
    if o / PAGE_SIZE == page && o % size == 0 {
      var i := ObjectIndex(page, size, n, o);
      assert objs[i] == o;
    }
  }

  lemma BaseAligned(page: nat, size: nat, n: nat)
    requires size > 0 && n * size == PAGE_SIZE
    ensures page * PAGE_SIZE % size == 0
  {
    assert page * PAGE_SIZE == page * n * size;
    DivModUnique(page * PAGE_SIZE, size, page * n, 0);
  }

  // ---- The steps ----

  function PerPage(size: nat): (n: nat)
    requires SizeOk(size)
    ensures n * size == PAGE_SIZE
  {
    PAGE_SIZE / size
  }

  ghost predicate Fresh(h: Heap, page: nat) {
    page > 0 && page !in h.owner
  }

  /** The view when the slab has a page to take from. */
  ghost function RefilledView(h: Heap, v: View, id: nat, page: nat): View
    requires Shape(h, v) && id in h.slabs
  {
    var size := h.slabs[id].objSize;
    v.(chains := v.chains[id := Objects(page * PAGE_SIZE, size, PerPage(size))])
  }

  lemma RefilledChain(h: Heap, v: View, id: nat, page: nat)
    requires Inv(h, v) && id in h.slabs && Fresh(h, page)
    ensures ChainOk(Refill(h, id, page), RefilledView(h, v, id, page), id)
  {
    var size := h.slabs[id].objSize;
    var n, base := PerPage(size), page * PAGE_SIZE;
    AtLeast(n, size);
    LinksChain(h.words, base, size, 0, n);
    ObjectsDistinct(base, size, n);
    assert Objects(base, size, n)[0..] == Objects(base, size, n);
  }

  lemma OtherChain(h: Heap, v: View, id: nat, page: nat, k: nat)
    requires Inv(h, v) && id in h.slabs && Fresh(h, page) && k in h.slabs && k != id
    ensures ChainOk(Refill(h, id, page), RefilledView(h, v, id, page), k)
  {
    var h' := Refill(h, id, page);
    assert ChainOk(h, v, k);
    forall o | o in v.chains[k] ensures Load(h'.words, o) == Load(h.words, o) {
      assert Placed(h, v, k, o);
      NotInPage(o, page);
    }
    LinkedKeeps(h.words, h'.words, h.slabs[k].freeList, v.chains[k]);
  }

  lemma RefillShape(h: Heap, v: View, id: nat, page: nat)
    requires Shape(h, v) && Described(h, v) && id in h.slabs && Fresh(h, page)
    ensures Shape(Refill(h, id, page), RefilledView(h, v, id, page))
    ensures Described(Refill(h, id, page), RefilledView(h, v, id, page))
    ensures Refill(h, id, page).slabs.Keys == h.slabs.Keys && RefilledView(h, v, id, page).live == v.live
  {
    hide Links, Objects;
  }

  lemma RefillKeeps(h: Heap, v: View, id: nat, page: nat)
    requires Inv(h, v) && id in h.slabs && h.slabs[id].freeList == 0 && Fresh(h, page)
    ensures Inv(Refill(h, id, page), RefilledView(h, v, id, page))
  {
    var h', v' := Refill(h, id, page), RefilledView(h, v, id, page);
    assert v.chains[id] == [] by {
      assert ChainOk(h, v, id);
    }
    RefillShape(h, v, id, page);
    hide Placed, ChainOk, Refill, RefilledView, Shape, Described, Fresh;
    forall k | k in h'.slabs ensures k in v'.chains && ChainOk(h', v', k) {
      if k == id {
        RefilledChain(h, v, id, page);
      } else {
        OtherChain(h, v, id, page, k);
      }
    }
    forall k, o: nat | k in h'.slabs ensures Placed(h', v', k, o) {
      RefillPlaced(h, v, id, page, k, o);
    }
  }

  lemma RefillPlaced(h: Heap, v: View, id: nat, page: nat, k: nat, o: nat)
    requires Inv(h, v) && id in h.slabs && v.chains[id] == [] && Fresh(h, page) && k in h.slabs
    requires Shape(Refill(h, id, page), RefilledView(h, v, id, page))
    ensures Placed(Refill(h, id, page), RefilledView(h, v, id, page), k, o)
  {
    var size := h.slabs[id].objSize;
    ObjectsOfPage(page, size, PerPage(size), o);
    assert Placed(h, v, k, o) && Placed(h, v, id, o);
    if o in v.live {
      assert Placed(h, v, v.live[o], o);
    }
  }

  lemma NotInPage(o: nat, page: nat)
    requires o / PAGE_SIZE != page
    ensures !InPage(o, page * PAGE_SIZE)
  {
  }

  ghost function PoppedView(v: View, id: nat): View
    requires id in v.chains && v.chains[id] != []
  {
    View(v.chains[id := v.chains[id][1..]], v.live[v.chains[id][0] := id])
  }

  lemma PopChain(h: Heap, v: View, id: nat, k: nat)
    requires Shape(h, v) && Chained(h, v) && id in h.slabs && v.chains[id] != [] && k in h.slabs
    ensures Pop(h, id).0 == v.chains[id][0] && v.chains[id][0] !in v.chains[id][1..]
    ensures ChainOk(Pop(h, id).1, PoppedView(v, id), k)
  {
    assert ChainOk(h, v, id) && ChainOk(h, v, k);
  }

  lemma PopShape(h: Heap, v: View, id: nat)
    requires Shape(h, v) && Described(h, v) && id in h.slabs && v.chains[id] != [] && v.chains[id][0] !in v.live
    ensures Shape(Pop(h, id).1, PoppedView(v, id)) && Described(Pop(h, id).1, PoppedView(v, id))
    ensures Pop(h, id).1.slabs.Keys == h.slabs.Keys && PoppedView(v, id).live == v.live[v.chains[id][0] := id]
  {
  }

  lemma PopPlaced(h: Heap, v: View, id: nat, k: nat, o: nat)
    requires Inv(h, v) && id in h.slabs && v.chains[id] != [] && k in h.slabs
    requires v.chains[id][0] !in v.chains[id][1..]
    requires Shape(Pop(h, id).1, PoppedView(v, id))
    ensures Placed(Pop(h, id).1, PoppedView(v, id), k, o)
  {
    var obj := v.chains[id][0];
    assert v.chains[id] == [obj] + v.chains[id][1..];
    assert Placed(h, v, k, o) && Placed(h, v, k, obj) && Placed(h, v, id, obj);
  }

  lemma PopKeeps(h: Heap, v: View, id: nat)
    requires Inv(h, v) && id in h.slabs && v.chains[id] != []
    ensures Pop(h, id).0 == v.chains[id][0]
    ensures Pop(h, id).0 !in v.live && IsObject(h, id, Pop(h, id).0)
    ensures Inv(Pop(h, id).1, PoppedView(v, id))
  {
    var h', v' := Pop(h, id).1, PoppedView(v, id);
    assert Placed(h, v, id, v.chains[id][0]);
    PopChain(h, v, id, id);
    PopShape(h, v, id);
    hide ChainOk, Placed, Shape, Described, Pop, PoppedView;
    forall k | k in h'.slabs ensures k in v'.chains && ChainOk(h', v', k) {
      PopChain(h, v, id, k);
    }
    forall k, o: nat | k in h'.slabs ensures Placed(h', v', k, o) {
      PopPlaced(h, v, id, k, o);
    }
  }

  /** The view after slab_alloc. */
  ghost function AllocView(h: Heap, v: View, id: nat, page: nat): View
    requires Inv(h, v) && id in h.slabs
  {
    if h.slabs[id].freeList == 0 then
      var size := h.slabs[id].objSize;
      assert PerPage(size) > 0;
      PoppedView(RefilledView(h, v, id, page), id)
    else PoppedView(v, id)
  }

  /** slab_alloc hands out an object of the slab that was not live, and keeps the invariant. */
  lemma AllocKeeps(h: Heap, v: View, id: nat, page: nat)
    requires Inv(h, v) && id in h.slabs
    requires h.slabs[id].freeList == 0 ==> Fresh(h, page)
    ensures var (obj, h') := Alloc(h, id, page);
      && obj !in v.live
      && IsObject(h', id, obj)
      && AllocView(h, v, id, page).live == v.live[obj := id]
      && Inv(h', AllocView(h, v, id, page))
  {
    if h.slabs[id].freeList == 0 {
      RefillKeeps(h, v, id, page);
      PopKeeps(Refill(h, id, page), RefilledView(h, v, id, page), id);
    } else {
      PopKeeps(h, v, id);
    }
  }

  /** The view after slab_free: the object leads the chain of the slab it came from. */
  ghost function FreeView(v: View, obj: nat): View
    requires obj in v.live && v.live[obj] in v.chains
  {
    var id := v.live[obj];
    View(v.chains[id := [obj] + v.chains[id]], v.live - {obj})
  }

  lemma FreeChain(h: Heap, v: View, obj: nat, k: nat)
    requires Inv(h, v) && obj in v.live && k in h.slabs && v.live[obj] in h.slabs
    ensures ChainOk(Free2(h, v.live[obj], obj), FreeView(v, obj), k)
  {
    var id := v.live[obj];
    assert Placed(h, v, id, obj) && Placed(h, v, k, obj) && ChainOk(h, v, k);
    var h', v' := Free2(h, id, obj), FreeView(v, obj);
    LinkedKeeps(h.words, h'.words, h.slabs[k].freeList, v.chains[k]);
    assert v'.chains[id][1..] == v.chains[id];
    assert obj > 0;
  }

  lemma FreePlaced(h: Heap, v: View, obj: nat, k: nat, o: nat)
    requires Inv(h, v) && obj in v.live && k in h.slabs && v.live[obj] in h.slabs
    requires Shape(Free2(h, v.live[obj], obj), FreeView(v, obj))
    ensures Placed(Free2(h, v.live[obj], obj), FreeView(v, obj), k, o)
  {
    assert Placed(h, v, k, o) && Placed(h, v, k, obj) && Placed(h, v, v.live[obj], obj);
  }

  /** slab_free returns a live object to the slab it came from, and keeps the invariant. */
  lemma FreeKeeps(h: Heap, v: View, obj: nat)
    requires Inv(h, v) && obj in v.live && obj !in h.slabs
    ensures obj / PAGE_SIZE in h.owner && h.owner[obj / PAGE_SIZE] == v.live[obj]
    ensures Free(h, obj) == Done(Free2(h, v.live[obj], obj))
    ensures Inv(Free(h, obj).value, FreeView(v, obj))
  {
    var id := v.live[obj];
    assert Placed(h, v, id, obj);
    var h', v' := Free2(h, id, obj), FreeView(v, obj);
    assert Shape(h', v') && Described(h', v');
    hide ChainOk, Placed, Shape, Described;
    forall k | k in h'.slabs ensures ChainOk(h', v', k) {
      FreeChain(h, v, obj, k);
    }
    forall k, o: nat | k in h'.slabs ensures Placed(h', v', k, o) {
      FreePlaced(h, v, obj, k, o);
    }
  }

  /** Two objects of one page that share an address are one object. */
  lemma SameObject(h: Heap, v: View, o1: nat, id1: nat, o2: nat, id2: nat, a: nat)
    requires Shape(h, v) && id1 in h.slabs && id2 in h.slabs
    requires IsObject(h, id1, o1) && IsObject(h, id2, o2)
    requires o1 <= a < o1 + h.slabs[id1].objSize
    requires o2 <= a < o2 + h.slabs[id2].objSize
    ensures o1 == o2 && id1 == id2
  {
    ObjectInPage(o1, h.slabs[id1].objSize, a);
    ObjectInPage(o2, h.slabs[id2].objSize, a);
    var size := h.slabs[id1].objSize;
    AddLow(o1, size, a - o1);
    AddLow(o2, size, a - o2);
    assert o1 == o1 / size * size && o2 == o2 / size * size;
  }

  lemma ObjectInPage(o: nat, size: nat, a: nat)
    requires SizeOk(size) && o % size == 0 && o <= a < o + size
    ensures a / PAGE_SIZE == o / PAGE_SIZE
  {
    var page := o / PAGE_SIZE;
    BaseAligned(page, size, PerPage(size));
    var base := page * PAGE_SIZE;
    var i := ObjectIndex(page, size, PerPage(size), o);
    AtLeast(PerPage(size) - i, size);
    assert (PerPage(size) - i) * size == PAGE_SIZE - i * size;
    DivModUnique(a, PAGE_SIZE, page, a - base);
  }

  /** A store inside a live object changes no free list. */
  lemma StoreKeeps(h: Heap, v: View, obj: nat, a: nat, x: nat)
    requires Inv(h, v) && obj in v.live && obj <= a < obj + h.slabs[v.live[obj]].objSize
    ensures Inv(Store(h, a, x), v)
  {
    var h' := Store(h, a, x);
    assert Placed(h, v, v.live[obj], obj);
    forall k | k in h.slabs ensures ChainOk(h', v, k) {
      assert ChainOk(h, v, k);
      forall o | o in v.chains[k] ensures o != a {
        assert Placed(h, v, k, o);
        if o == a {
          SameObject(h, v, obj, v.live[obj], o, k, a);
        }
      }
      LinkedKeeps(h.words, h'.words, h.slabs[k].freeList, v.chains[k]);
    }
    forall k, o: nat | k in h.slabs ensures Placed(h', v, k, o) {
      assert Placed(h, v, k, o);
    }
    assert Complete(h', v);
  }

  /** The view after slab_create. */
  ghost function CreateView(h: Heap, v: View, page: nat): View
    requires Inv(h, v)
  {
    var v1 := AllocView(h, v, GLOBAL_SLAB, page);
    v1.(chains := v1.chains[Alloc(h, GLOBAL_SLAB, page).0 := []])
  }

  /** slab_create refuses exactly size 0 and sizes above half a page, and adds an empty slab at a fresh address. */
  lemma CreateKeeps(h: Heap, v: View, n: nat, page: nat)
    requires Inv(h, v)
    requires h.slabs[GLOBAL_SLAB].freeList == 0 ==> Fresh(h, page)
    ensures Create(h, n, page).None? <==> n == 0 || n > PAGE_SIZE / 2
    ensures Create(h, n, page).Some? ==>
      var (id, h') := Create(h, n, page).value;
      && id !in h.slabs
      && h'.slabs[id].freeList == 0
      && id !in v.live && CreateView(h, v, page).live == v.live[id := GLOBAL_SLAB]
      && PowerOfTwo(h'.slabs[id].objSize) && h'.slabs[id].objSize >= n && h'.slabs[id].objSize >= MIN_SIZE
      && (forall p: nat :: PowerOfTwo(p) && p >= n && p >= MIN_SIZE ==> h'.slabs[id].objSize <= p)
      && Inv(h', CreateView(h, v, page))
  {
    if Create(h, n, page).Some? {
      AllocKeeps(h, v, GLOBAL_SLAB, page);
      var (id, h1) := Alloc(h, GLOBAL_SLAB, page);
      var v1 := AllocView(h, v, GLOBAL_SLAB, page);
      CreatedSizeOk(n);
      assert PowerOfTwo(4) && PowerOfTwo(MIN_SIZE);
      DoubledIsLeast(MIN_SIZE, n);
      assert id != GLOBAL_SLAB;
      AddSlab(h1, v1, id, Doubled(MIN_SIZE, n));
    }
  }

  lemma AddSlab(h: Heap, v: View, id: nat, size: nat)
    requires Inv(h, v) && id !in h.slabs && SizeOk(size)
    requires id in v.live && v.live[id] == GLOBAL_SLAB
    ensures Inv(h.(slabs := h.slabs[id := SlabInfo(size, 0)]), v.(chains := v.chains[id := []]))
  {
    var h', v' := h.(slabs := h.slabs[id := SlabInfo(size, 0)]), v.(chains := v.chains[id := []]);
    assert Shape(h', v');
    forall k, o: nat | k in h'.slabs ensures Placed(h', v', k, o) {
      if k != id {
        assert Placed(h, v, k, o);
      }
      if o / PAGE_SIZE in h.owner {
        assert h.owner[o / PAGE_SIZE] in h.slabs;
      }
    }
  }
}
