/** What every run of the slab allocator keeps (kernel/src/slab.c). */
module SlabRuns {
  import opened Wrappers
  import opened Arith
  import opened Linaddr
  import opened Slab

  // ---- Live objects ----

  /** A live object is aligned to its size. */
  lemma LiveAligned(h: Heap, v: View, o: nat)
    requires Inv(h, v) && o in v.live
    ensures o > 0 && o % h.slabs[v.live[o]].objSize == 0
  {
    assert Placed(h, v, v.live[o], o);
  }

  /** Live objects of any two slabs do not overlap. */
  lemma LiveApart(h: Heap, v: View, o1: nat, o2: nat)
    requires Inv(h, v) && o1 in v.live && o2 in v.live && o1 != o2
    ensures o1 + h.slabs[v.live[o1]].objSize <= o2 || o2 + h.slabs[v.live[o2]].objSize <= o1
  {
    assert Placed(h, v, v.live[o1], o1) && Placed(h, v, v.live[o2], o2);
    var a := if o1 < o2 then o2 else o1;
    if a < o1 + h.slabs[v.live[o1]].objSize && a < o2 + h.slabs[v.live[o2]].objSize {
      SameObject(h, v, o1, v.live[o1], o2, v.live[o2], a);
    }
  }

  // ---- Counting ----

  ghost function LiveOf(v: View, id: nat): set<nat> {
    set o | o in v.live && v.live[o] == id
  }

  ghost function PagesOf(h: Heap, id: nat): set<nat> {
    set p | p in h.owner && h.owner[p] == id
  }

  function Elems(s: seq<nat>): set<nat> {
    set o | o in s
  }

  lemma {:induction false} ElemsCount(s: seq<nat>)
    requires Distinct(s)
    ensures |Elems(s)| == |s|
    decreases |s|
  {
    if s != [] {
      var k := |s| - 1;
      ElemsCount(s[..k]);
      assert s == s[..k] + [s[k]];
      assert Elems(s) == Elems(s[..k]) + {s[k]};
    }
  }

  /** The objects of a set of pages are that many times the objects of one. */
  lemma {:induction false} ObjectsCount(objs: set<nat>, pages: set<nat>, size: nat)
    requires SizeOk(size)
    requires forall o :: o in objs <==> o / PAGE_SIZE in pages && o % size == 0
    ensures |objs| == |pages| * PerPage(size)
    decreases |pages|
  {
    var n := PerPage(size);
    if pages == {} {
      assert objs == {};
    } else {
      var p :| p in pages;
      var rest := set o | o in objs && o / PAGE_SIZE != p;
      ObjectsCount(rest, pages - {p}, size);
      var page := Objects(p * PAGE_SIZE, size, n);
      forall o: nat ensures o in page <==> o / PAGE_SIZE == p && o % size == 0 {
        ObjectsOfPage(p, size, n, o);
      }
      ObjectsDistinct(p * PAGE_SIZE, size, n);
      ElemsCount(page);
      assert forall o :: o in rest + Elems(page) <==> o in objs;
      assert objs == rest + Elems(page) && rest !! Elems(page);
      hide *;
      assert (|pages| - 1) * n + n == |pages| * n;
    }
  }

  /** Free and live objects of a slab are as many as its pages hold. */
  lemma ObjectsConserved(h: Heap, v: View, id: nat)
    requires Inv(h, v) && id in h.slabs
    ensures |v.chains[id]| + |LiveOf(v, id)| == |PagesOf(h, id)| * (PAGE_SIZE / h.slabs[id].objSize)
  {
    var size := h.slabs[id].objSize;
    var objs := Elems(v.chains[id]) + LiveOf(v, id);
    forall o: nat ensures o in objs <==> o / PAGE_SIZE in PagesOf(h, id) && o % size == 0 {
      assert Placed(h, v, id, o);
    }
    forall o | o in Elems(v.chains[id]) ensures o !in LiveOf(v, id) {
      assert Placed(h, v, id, o);
    }
    assert Elems(v.chains[id]) !! LiveOf(v, id);
    assert ChainOk(h, v, id);
    ElemsCount(v.chains[id]);
    ObjectsCount(objs, PagesOf(h, id), size);
  }

  // ---- Undo ----

  ghost predicate SameHeap(a: Heap, b: Heap) {
    && a.owner == b.owner
    && a.slabs == b.slabs
    && forall o: nat :: Load(a.words, o) == Load(b.words, o)
  }

  lemma FreeUndoesPop(h: Heap, id: nat)
    requires id in h.slabs
    ensures SameHeap(Free2(Pop(h, id).1, id, Pop(h, id).0), h)
  {
  }

  /** Freeing what slab_alloc just returned restores the heap, with the page it may have added. */
  lemma FreeUndoesAlloc(h: Heap, v: View, id: nat, page: nat)
    requires Inv(h, v) && id in h.slabs
    requires h.slabs[id].freeList == 0 ==> Fresh(h, page)
    ensures var (obj, h') := Alloc(h, id, page);
      && obj / PAGE_SIZE in h'.owner && h'.owner[obj / PAGE_SIZE] in h'.slabs
      && Free(h', obj).Done?
      && SameHeap(Free(h', obj).value, if h.slabs[id].freeList == 0 then Refill(h, id, page) else h)
  {
    AllocKeeps(h, v, id, page);
    hide Inv, SameHeap, Refill, AllocView;
    FreeUndoesPop(if h.slabs[id].freeList == 0 then Refill(h, id, page) else h, id);
  }

  /** slab_alloc hands out the object slab_free took back last, and the free lists are as before. */
  lemma AllocUndoesFree(h: Heap, v: View, obj: nat, page: nat)
    requires Inv(h, v) && obj in v.live && obj !in h.slabs && v.live[obj] in h.slabs
    ensures var h' := Free2(h, v.live[obj], obj);
      && Alloc(h', v.live[obj], page).0 == obj
      && Alloc(h', v.live[obj], page).1.slabs == h.slabs
      && Alloc(h', v.live[obj], page).1.owner == h.owner
      && forall a: nat :: a != obj ==> Load(Alloc(h', v.live[obj], page).1.words, a) == Load(h.words, a)
  {
    LiveAligned(h, v, obj);
    hide Inv;
  }

  // ---- Runs ----

  datatype Op = CreateSlab(n: nat, page: nat) | AllocObj(id: nat, page: nat) | FreeObj(obj: nat)
    | StoreWord(obj: nat, a: nat, x: nat)

  /** A page taken is new; what is freed or stored to is live and no descriptor; a store is one aligned word. */
  predicate Allowed(h: Heap, v: View, op: Op) {
    match op
    case CreateSlab(n, page) =>
      GLOBAL_SLAB in h.slabs && (h.slabs[GLOBAL_SLAB].freeList == 0 ==> page > 0 && page !in h.owner)
    case AllocObj(id, page) =>
      id in h.slabs && (h.slabs[id].freeList == 0 ==> page > 0 && page !in h.owner)
    case FreeObj(obj) =>
      obj in v.live && obj !in h.slabs
    case StoreWord(obj, a, x) =>
      && obj in v.live && obj !in h.slabs
      && v.live[obj] in h.slabs && obj <= a < obj + h.slabs[v.live[obj]].objSize && a % 8 == 0
  }

  ghost function Step(h: Heap, v: View, op: Op): (Heap, View)
    requires Inv(h, v) && Allowed(h, v, op)
  {
    match op
    case CreateSlab(n, page) =>
      var r := Create(h, n, page);
      if r.None? then (h, v) else (r.value.1, CreateView(h, v, page))
    case AllocObj(id, page) =>
      (Alloc(h, id, page).1, AllocView(h, v, id, page))
    case FreeObj(obj) =>
      FreeKeeps(h, v, obj);
      (Free(h, obj).value, FreeView(v, obj))
    case StoreWord(obj, a, x) =>
      (Store(h, a, x), v)
  }

  /** Every step keeps the invariant, and no step but slab_free ends an object's life. */
  lemma StepKeeps(h: Heap, v: View, op: Op)
    requires Inv(h, v) && Allowed(h, v, op)
    ensures var (h', v') := Step(h, v, op);
      && Inv(h', v')
      && forall o :: o in v.live && op != FreeObj(o) ==> o in v'.live && v'.live[o] == v.live[o]
  {
    hide Shape, Chained, Complete, Described, Alloc, Create, AllocView, CreateView;
    match op
    case CreateSlab(n, page) =>
      CreateKeeps(h, v, n, page);
    case AllocObj(id, page) =>
      AllocKeeps(h, v, id, page);
    case FreeObj(obj) =>
      FreeKeeps(h, v, obj);
    case StoreWord(obj, a, x) =>
      StoreKeeps(h, v, obj, a, x);
  }

  ghost function Run(h: Heap, v: View, ops: seq<Op>): Option<(Heap, View)>
    requires Inv(h, v)
    decreases |ops|
  {
    if ops == [] then Some((h, v))
    else if !Allowed(h, v, ops[0]) then None
    else
      StepKeeps(h, v, ops[0]);
      var (h', v') := Step(h, v, ops[0]);
      Run(h', v', ops[1..])
  }

  /** In every run, from any good heap: the invariant holds, live objects stay apart, and objects are conserved. */
  lemma {:induction false} RunSound(h: Heap, v: View, ops: seq<Op>)
    requires Inv(h, v) && Run(h, v, ops).Some?
    ensures var (h', v') := Run(h, v, ops).value;
      && Inv(h', v')
      && (forall o1, o2 :: o1 in v'.live && o2 in v'.live && o1 != o2 ==>
            o1 + h'.slabs[v'.live[o1]].objSize <= o2 || o2 + h'.slabs[v'.live[o2]].objSize <= o1)
      && (forall id :: id in h'.slabs ==>
            |v'.chains[id]| + |LiveOf(v', id)| == |PagesOf(h', id)| * (PAGE_SIZE / h'.slabs[id].objSize))
    decreases |ops|
  {
    if ops == [] {
      forall o1, o2 | o1 in v.live && o2 in v.live && o1 != o2
        ensures o1 + h.slabs[v.live[o1]].objSize <= o2 || o2 + h.slabs[v.live[o2]].objSize <= o1
      {
        LiveApart(h, v, o1, o2);
      }
      forall id | id in h.slabs
        ensures |v.chains[id]| + |LiveOf(v, id)| == |PagesOf(h, id)| * (PAGE_SIZE / h.slabs[id].objSize)
      {
        ObjectsConserved(h, v, id);
      }
    } else {
      StepKeeps(h, v, ops[0]);
      var (h1, v1) := Step(h, v, ops[0]);
      RunSound(h1, v1, ops[1..]);
    }
  }

  /** The kernel's first heap is a good one. */
  lemma FirstHeap(words: Words)
    ensures Inv(Heap(words, map[], map[GLOBAL_SLAB := SlabInfo(SLABINFO_SIZE, 0)]), View(map[GLOBAL_SLAB := []], map[]))
  {
    var h, v := Heap(words, map[], map[GLOBAL_SLAB := SlabInfo(SLABINFO_SIZE, 0)]), View(map[GLOBAL_SLAB := []], map[]);
    assert ChainOk(h, v, GLOBAL_SLAB);
  }
}
