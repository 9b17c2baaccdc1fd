/** Runs of map_page and unmap_page: refinement of a plain map, and undoing a mapping. */
module PagingRuns {
  import opened Wrappers
  import opened Linaddr
  import opened PageTree
  import opened Paging

  // ---- refinement of a map from pages to entries ----

  /** The simple view: the entry of each mapped page and the references held on frames. */
  datatype Space = Space(pages: map<VPage, nat>, holds: multiset<nat>)

  datatype Op = Map(virt: nat, phys: nat, flags: nat) | Unmap(virt: nat)

  function FrameOf(phys: nat): nat { phys - phys % PAGE_SIZE }

  function MapSpace(a: Space, v: VPage, frame: nat, flags: nat): Space {
    if v in a.pages && EntryAddr(a.pages[v]) == frame then a
    else Space(a.pages[v := LeafWord(frame, flags)], a.holds + multiset{frame})
  }

  function UnmapSpace(a: Space, v: VPage): Outcome<Space> {
    if v !in a.pages then Done(a) else
    var f := EntryAddr(a.pages[v]);
    if f !in a.holds then Panic
    else Done(Space(if a.holds[f] == 1 then a.pages - {v} else a.pages, a.holds - multiset{f}))
  }

  function StepSpace(a: Space, op: Op): Outcome<Space> {
    match op
    case Map(virt, phys, flags) => if virt == 0 then Panic else Done(MapSpace(a, PageOf(virt), FrameOf(phys), flags))
    case Unmap(virt) => UnmapSpace(a, PageOf(virt))
  }

  function RunSpace(a: Space, ops: seq<Op>): Outcome<Space>
    decreases |ops|
  {
    if ops == [] then Done(a) else
    var a1 :- StepSpace(a, ops[0]);
    RunSpace(a1, ops[1..])
  }

  function Step(s: Machine, op: Op): Outcome<Machine> {
    match op
    case Map(virt, phys, flags) => MapPage(s, virt, phys, flags)
    case Unmap(virt) => UnmapPage(s, virt)
  }

  function Run(s: Machine, ops: seq<Op>): Outcome<Machine>
    decreases |ops|
  {
    if ops == [] then Done(s) else
    var s1 :- Step(s, ops[0]);
    Run(s1, ops[1..])
  }

  /** What callers keep to: managed addresses, and frames that are neither free nor tables. */
  ghost predicate OpOk(s: Machine, slots: set<Index>, op: Op) {
    && Pml4i(op.virt) in slots
    && (op.Map? ==> op.phys < TWO_52 && FlagsOk(op.flags) && !Owned(s, FrameOf(op.phys)))
  }

  ghost predicate Models(s: Machine, slots: set<Index>, a: Space) {
    && Inv(s, slots)
    && (forall v: VPage :: v.i4 in slots ==>
          Walk(s.mem, s.root, v) ==
            if v in a.pages then Some(Leaf4K(a.pages[v], RightsIn(a.pages[v]))) else None)
    && (forall f: nat :: !Owned(s, f) ==> s.refs(f) == a.holds[f])
  }

  /** The hardware walks outside the managed slots, and the frames in use or free, do not change. */
  ghost predicate SameRest(s: Machine, s': Machine, slots: set<Index>) {
    && s'.root == s.root
    && (forall v: VPage :: v.i4 !in slots && v.i4 != RECURSIVE_SLOT ==>
      Walk(s'.mem, s.root, v) == Walk(s.mem, s.root, v))
    && (forall f :: Owned(s', f) <==> Owned(s, f))
  }

  lemma MapRefines(s: Machine, s': Machine, slots: set<Index>, a: Space, v: VPage, frame: nat, flags: nat)
    requires Models(s, slots, a) && v.i4 in slots
    requires Inv(s', slots) && MapsOnly(s, s', v, frame, flags)
    ensures Models(s', slots, MapSpace(a, v, frame, flags)) && SameRest(s, s', slots)
  {
    assert RECURSIVE_SLOT !in slots;
    hide Present, Large, EntryAddr, Inv, RightsIn, IsPage;
  }

  lemma UnmapRefines(s: Machine, s': Machine, slots: set<Index>, a: Space, v: VPage)
    requires Models(s, slots, a) && v.i4 in slots
    requires Inv(s', slots) && UnmapsOnly(s, s', v)
    ensures UnmapSpace(a, v).Done? && Models(s', slots, UnmapSpace(a, v).value) && SameRest(s, s', slots)
  {
    ManagedWalk(s, slots, v);
    assert RECURSIVE_SLOT !in slots;
    hide Present, Large, EntryAddr, Inv, RightsIn, IsPage;
  }

  lemma StepRefines(s: Machine, slots: set<Index>, a: Space, op: Op)
    requires Models(s, slots, a) && OpOk(s, slots, op)
    ensures Step(s, op).Done? ==>
      && StepSpace(a, op).Done?
      && Models(Step(s, op).value, slots, StepSpace(a, op).value)
      && SameRest(s, Step(s, op).value, slots)
    ensures Step(s, op).Panic? ==>
      StepSpace(a, op).Panic? || (op.Map? && |s.pool| < Missing(s, PageOf(op.virt)))
  {
    hide MapAt, UnmapAt, Pml4i, Pdpti, Pdi, Pti, Inv, EntryAddr;
    match op
    case Map(virt, phys, flags) =>
      FrameIsPage(phys);
      MapPageCorrect(s, slots, virt, phys, flags);
      if Step(s, op).Done? {
        MapRefines(s, Step(s, op).value, slots, a, PageOf(virt), FrameOf(phys), flags);
      }
    case Unmap(virt) =>
      UnmapPageCorrect(s, slots, virt);
      ManagedWalk(s, slots, PageOf(virt));
      if Step(s, op).Done? {
        UnmapRefines(s, Step(s, op).value, slots, a, PageOf(virt));
      }
  }

  lemma FrameIsPage(phys: nat)
    requires phys < TWO_52
    ensures PhysPage(FrameOf(phys))
  {
  }

  /** Every run of map_page and unmap_page, remaps included, is a run on the plain map: the
    * hardware translates each managed page as the map says, and nothing else. */
  lemma {:induction false} RunRefines(s: Machine, slots: set<Index>, a: Space, ops: seq<Op>)
    requires Models(s, slots, a)
    requires forall op :: op in ops ==> OpOk(s, slots, op)
    requires Run(s, ops).Done?
    ensures RunSpace(a, ops).Done?
    ensures Models(Run(s, ops).value, slots, RunSpace(a, ops).value)
    ensures SameRest(s, Run(s, ops).value, slots)
    decreases |ops|
  {
    if ops != [] {
      StepRefines(s, slots, a, ops[0]);
      var s1, a1 := Step(s, ops[0]).value, StepSpace(a, ops[0]).value;
      forall op | op in ops[1..] ensures OpOk(s1, slots, op) {
        assert op in ops;
      }
      RunRefines(s1, slots, a1, ops[1..]);
      RestTrans(s, s1, Run(s1, ops[1..]).value, slots);
    }
  }

  lemma RestTrans(s1: Machine, s2: Machine, s3: Machine, slots: set<Index>)
    requires SameRest(s1, s2, slots) && SameRest(s2, s3, slots)
    ensures SameRest(s1, s3, slots)
  {
  }

  // ---- single mappings ----

  /** Every mapped frame is mapped once and held once. */
  ghost predicate Single(a: Space) {
    && (forall v :: v in a.pages ==> a.holds[EntryAddr(a.pages[v])] == 1)
    && (forall u, v :: u in a.pages && v in a.pages && EntryAddr(a.pages[u]) == EntryAddr(a.pages[v]) ==> u == v)
  }

  /** The caller maps unused frames at unmapped pages only. */
  predicate Fresh(a: Space, op: Op) {
    op.Map? ==> op.phys < TWO_52 && FlagsOk(op.flags) && PageOf(op.virt) !in a.pages && FrameOf(op.phys) !in a.holds
  }

  ghost predicate FreshRun(a: Space, ops: seq<Op>)
    decreases |ops|
  {
    ops == [] || (Fresh(a, ops[0]) && (StepSpace(a, ops[0]).Done? ==> FreshRun(StepSpace(a, ops[0]).value, ops[1..])))
  }

  /** While frames are mapped at one page each, unmapping never panics and always removes. */
  lemma SingleStep(a: Space, op: Op)
    requires Single(a) && Fresh(a, op)
    ensures StepSpace(a, op).Panic? <==> op.Map? && op.virt == 0
    ensures StepSpace(a, op).Done? ==>
      Single(StepSpace(a, op).value) && (PageOf(op.virt) in StepSpace(a, op).value.pages <==> op.Map?)
  {
    if op.Map? {
      FrameIsPage(op.phys);
      LeafWordFacts(FrameOf(op.phys), op.flags);
    }
  }

  lemma {:induction false} SingleRun(a: Space, ops: seq<Op>)
    requires Single(a) && FreshRun(a, ops)
    ensures RunSpace(a, ops).Panic? <==> exists i :: 0 <= i < |ops| && ops[i].Map? && ops[i].virt == 0
    ensures RunSpace(a, ops).Done? ==> Single(RunSpace(a, ops).value)
    decreases |ops|
  {
    if ops != [] {
      SingleStep(a, ops[0]);
      if StepSpace(a, ops[0]).Done? {
        SingleRun(StepSpace(a, ops[0]).value, ops[1..]);
        assert forall i :: 0 < i < |ops| ==> ops[i] == ops[1..][i - 1];
      }
    }
  }

  // ---- unmapping undoes mapping ----

  predicate SameEntry(w1: nat, w2: nat) {
    if Present(w1) then w1 == w2 else !Present(w2)
  }

  /** The same tree with the same present entries, the same free frames in the same order, and
    * the same counts. */
  ghost predicate SameTree(a: Machine, b: Machine) {
    && a.root == b.root && a.pool == b.pool
    && (forall f :: a.refs(f) == b.refs(f))
    && (forall k :: T(a, k) == T(b, k))
    && (forall k, j: Index {:trigger T(a, k), a.mem(T(a, k).value, j)} :: T(a, k).Some? ==>
          SameEntry(a.mem(T(a, k).value, j), b.mem(T(a, k).value, j)))
  }

  /** The tree of b is the tree of a and one more table, in frame f under entry i of node n. */
  ghost predicate OneMore(a: Machine, b: Machine, n: Node, i: Index, f: nat)
    requires T(a, n).Some?
  {
    var t := T(a, n).value;
    && t != f && T(b, Child(n, i)) == Some(f) && T(a, Child(n, i)).None?
    && (forall k :: k != Child(n, i) ==> T(b, k) == T(a, k))
    && Present(b.mem(t, i)) && EntryAddr(b.mem(t, i)) == f
    && (forall j: Index :: !Present(b.mem(f, j)))
    && (forall k, j: Index {:trigger b.mem(T(a, k).value, j)} :: T(a, k).Some? && !(k == n && j == i) ==>
          SameEntry(a.mem(T(a, k).value, j), b.mem(T(a, k).value, j)))
  }

  lemma JustMade(a: Machine, slots: set<Index>, n: Node, i: Index)
    requires InvBut(a, slots, n) && Managed(slots, Child(n, i))
    requires T(a, n).Some? && n.Depth() < 3 && !Present(a.mem(T(a, n).value, i)) && a.pool != []
    ensures OneMore(a, EnsureTable(a, T(a, n).value, i, n.Child?).value, n, i, a.pool[|a.pool| - 1])
    ensures TreeShaped(EnsureTable(a, T(a, n).value, i, n.Child?).value.mem, a.root)
    ensures a.refs(a.pool[|a.pool| - 1]) == 0
  {
    hide Large, EntryAddr, TreeShaped, CountsOk, EntriesOk;
    var t, f := T(a, n).value, a.pool[|a.pool| - 1];
    NewTable(a, slots, n, i, f, EnsureTable(a, t, i, n.Child?).value.mem);
  }

  lemma SameOneMore(a: Machine, b: Machine, c: Machine, n: Node, i: Index, f: nat)
    requires T(a, n).Some? && OneMore(a, b, n, i, f) && SameTree(c, b) && TreeShaped(b.mem, b.root)
    ensures OneMore(a, c, n, i, f) && TreeShaped(c.mem, c.root)
  {
    assert T(b, n) == T(a, n);
    forall j: Index ensures !Present(c.mem(f, j)) {
      assert SameEntry(c.mem(T(c, Child(n, i)).value, j), b.mem(f, j));
    }
    assert SameEntry(c.mem(T(c, n).value, i), b.mem(T(a, n).value, i));
    forall k, j: Index | T(a, k).Some? && !(k == n && j == i)
      ensures SameEntry(a.mem(T(a, k).value, j), c.mem(T(a, k).value, j))
    {
      assert T(c, k) == T(a, k);
      assert SameEntry(c.mem(T(c, k).value, j), b.mem(T(c, k).value, j));
      assert SameEntry(a.mem(T(a, k).value, j), b.mem(T(a, k).value, j));
    }
    forall n1, n2 | TableAt(c.mem, c.root, n1).Some? && TableAt(c.mem, c.root, n1) == TableAt(c.mem, c.root, n2)
      ensures n1 == n2
    {
      assert T(c, n1) == T(b, n1) && T(c, n2) == T(b, n2);
    }
  }

  /** Freeing a table that was just made gives back the tree from before it was made. */
  lemma UndoTable(a: Machine, b: Machine, slots: set<Index>, n: Node, i: Index)
    requires InvBut(a, slots, n) && Managed(slots, Child(n, i))
    requires T(a, n).Some? && n.Depth() < 3 && !Present(a.mem(T(a, n).value, i)) && a.pool != []
    requires SameTree(b, EnsureTable(a, T(a, n).value, i, n.Child?).value)
    ensures T(b, n) == T(a, n) && T(b, Child(n, i)).Some? && b.refs(T(b, Child(n, i)).value) == 0
    ensures Present(b.mem(T(a, n).value, i)) && EntryAddr(b.mem(T(a, n).value, i)) == T(b, Child(n, i)).value
    ensures n.Child? ==> b.refs(T(b, n).value) > 0
    ensures SameTree(Freed(b, n, i), a)
  {
    hide Present, Large, EntryAddr, PoolOk, CountsOk, EntriesOk;
    ZeroIsAbsent();
    var t, f := T(a, n).value, a.pool[|a.pool| - 1];
    JustMade(a, slots, n, i);
    SameOneMore(a, EnsureTable(a, t, i, n.Child?).value, b, n, i, f);
    assert T(b, n) == T(a, n);
    var c := Freed(b, n, i);
    TableGone(b, n, i, f, c.mem);
    assert a.pool == a.pool[..|a.pool| - 1] + [f];
    hide InvBut, Managed, TreeShaped;
    FreedShape(a, b, c, n, i, f);
  }

  /** Without the table that was one more, the tree and its present entries are as before. */
  lemma FreedShape(a: Machine, b: Machine, c: Machine, n: Node, i: Index, f: nat)
    requires T(a, n).Some? && !Present(a.mem(T(a, n).value, i)) && OneMore(a, b, n, i, f)
    requires c.root == a.root == b.root && c.mem == Write(b.mem, T(a, n).value, i, 0)
    requires SameTablesBut(b.mem, c.mem, b.root, Child(n, i)) && TableAt(c.mem, c.root, Child(n, i)).None?
    ensures forall k :: T(c, k) == T(a, k)
    ensures forall k, j: Index {:trigger T(c, k), c.mem(T(c, k).value, j)} :: T(c, k).Some? ==>
      SameEntry(c.mem(T(c, k).value, j), a.mem(T(c, k).value, j))
  {
    hide Present, EntryAddr;
    ZeroIsAbsent();
    forall k ensures T(c, k) == T(a, k) {
      if k != Child(n, i) {
        assert T(c, k) == T(b, k);
      }
    }
    forall k, j: Index | T(c, k).Some? ensures SameEntry(c.mem(T(c, k).value, j), a.mem(T(c, k).value, j)) {
      if !(k == n && j == i) {
        assert c.mem(T(a, k).value, j) == b.mem(T(a, k).value, j);
      }
    }
  }

  /** Clearing a leaf that was just set. */
  lemma UndoLeaf(a: Machine, slots: set<Index>, v: VPage, frame: nat, flags: nat)
    requires InvBut(a, slots, Pt(v)) && v.i4 in slots && T(a, Pt(v)).Some?
    requires !Present(a.mem(T(a, Pt(v)).value, v.i1))
    requires PhysPage(frame) && FlagsOk(flags) && DataFrame(a, frame) && a.refs(frame) == 0
    ensures var t := T(a, Pt(v)).value;
      var s := SetLeaf(a, t, v.i1, frame, flags);
      && (forall k :: T(s, k) == T(a, k))
      && Walk(s.mem, s.root, v).Some? && EntryAddr(Walk(s.mem, s.root, v).value.word) == frame && s.refs(frame) == 1
      && DropEntry(DecPage(s, frame).value, t, v.i1).Done?
      && SameTree(DropEntry(DecPage(s, frame).value, t, v.i1).value, a)
  {
    var t := T(a, Pt(v)).value;
    assert IsTable(a.mem, a.root, t);
    var s := SetLeaf(a, t, v.i1, frame, flags);
    LeafWordFacts(frame, flags);
    LeafWritten(a, slots, v, LeafWord(frame, flags), s.mem);
    var b := DropEntry(DecPage(s, frame).value, t, v.i1).value;
    LeafWritten(s, slots, v, 0, b.mem);
    forall k, j: Index | T(b, k).Some? ensures SameEntry(b.mem(T(b, k).value, j), a.mem(T(b, k).value, j)) {
      if T(b, k) == Some(t) {
        assert k == Pt(v);
      }
    }
  }

  /** The machines in between when map_page walks down to the page table of v. */
  lemma Stages(s: Machine, slots: set<Index>, v: VPage) returns (s1: Machine, s2: Machine, s3: Machine)
    requires Inv(s, slots) && v.i4 in slots && BuildPath(s, v).Done?
    ensures InvBut(s1, slots, Pdpt(v)) && InvBut(s2, slots, Pd(v))
    ensures T(s1, Pdpt(v)).Some? && T(s2, Pd(v)).Some? && T(s2, Pdpt(v)) == T(s1, Pdpt(v))
    ensures EnsureTable(s, s.root, v.i4, false) == Done(s1)
    ensures EnsureTable(s1, T(s1, Pdpt(v)).value, v.i3, true) == Done(s2)
    ensures EnsureTable(s2, T(s2, Pd(v)).value, v.i2, true) == Done(s3) && s3 == BuildPath(s, v).value.0
    ensures T(s3, Pt(v)).Some? && T(s3, Pd(v)) == T(s2, Pd(v)) && T(s3, Pdpt(v)) == T(s1, Pdpt(v))
    ensures T(s, Pdpt(v)).None? <==> !Present(s.mem(s.root, v.i4))
    ensures T(s, Pd(v)).None? <==> !Present(s1.mem(T(s1, Pdpt(v)).value, v.i3))
    ensures T(s, Pt(v)).None? <==> !Present(s2.mem(T(s2, Pd(v)).value, v.i2))
    ensures (T(s, Pd(v)).Some? ==> s1 == s) && (T(s, Pt(v)).Some? ==> s2 == s)
  {
    hide Present, Large, EntryAddr;
    PathFacts(v);
    WalkByTables(s.mem, s.root, v);
    assert Reached(s, s, slots, Root);
    EnsureKeeps(s, s, slots, Root, v.i4);
    s1 := EnsureTable(s, s.root, v.i4, false).value;
    EnsureKeeps(s, s1, slots, Pdpt(v), v.i3);
    s2 := EnsureTable(s1, T(s1, Pdpt(v)).value, v.i3, true).value;
    EnsureKeeps(s, s2, slots, Pd(v), v.i2);
    s3 := EnsureTable(s2, T(s2, Pd(v)).value, v.i2, true).value;
    assert T(s1, Pd(v)) == T(s, Pd(v)) && T(s2, Pt(v)) == T(s1, Pt(v)) == T(s, Pt(v));
    NoLargeOnPath(s1, slots, v.i4, v, Pdpt(v));
    NoLargeOnPath(s2, slots, v.i4, v, Pd(v));
  }

  /** A present entry of a managed table above the page tables leads to a table. */
  lemma NoLargeOnPath(s: Machine, slots: set<Index>, i: Index, v: VPage, n: Node)
    requires EntriesOk(s, slots) && Managed(slots, n) && T(s, n).Some? && n.Depth() < 3
    ensures forall j: Index :: Present(s.mem(T(s, n).value, j)) <==> T(s, Child(n, j)).Some?
  {
  }

  /** Walking back up from any of the stages gives back the tree from before the walk down. */
  lemma PruneUndoes1(s: Machine, s1: Machine, slots: set<Index>, v: VPage, b: Machine)
    requires Inv(s, slots) && v.i4 in slots
    requires EnsureTable(s, s.root, v.i4, false) == Done(s1) && SameTree(b, s1)
    requires T(s, Pdpt(v)).None? <==> !Present(s.mem(s.root, v.i4))
    requires T(s1, Pdpt(v)).Some?
    ensures PrunePdpt(b, v, T(b, Pdpt(v)).value).Done? && SameTree(PrunePdpt(b, v, T(b, Pdpt(v)).value).value, s)
  {
    PathFacts(v);
    if T(s, Pdpt(v)).Some? {
      CountsAt(s, slots, Pdpt(v));
    } else {
      UndoTable(s, b, slots, Root, v.i4);
    }
  }

  lemma PruneUndoes2(s: Machine, slots: set<Index>, v: VPage, s1: Machine, s2: Machine, b: Machine)
    requires Inv(s, slots) && v.i4 in slots && InvBut(s1, slots, Pdpt(v))
    requires EnsureTable(s, s.root, v.i4, false) == Done(s1) && T(s1, Pdpt(v)).Some?
    requires EnsureTable(s1, T(s1, Pdpt(v)).value, v.i3, true) == Done(s2) && SameTree(b, s2)
    requires T(s, Pdpt(v)).None? <==> !Present(s.mem(s.root, v.i4))
    requires T(s, Pd(v)).None? <==> !Present(s1.mem(T(s1, Pdpt(v)).value, v.i3))
    requires T(s, Pd(v)).Some? ==> s1 == s
    requires T(s2, Pd(v)).Some? && T(s2, Pdpt(v)) == T(s1, Pdpt(v))
    ensures var r := PrunePd(b, v, T(b, Pdpt(v)).value, T(b, Pd(v)).value); r.Done? && SameTree(r.value, s)
  {
    hide Present, Large, EntryAddr, InvBut;
    PathFacts(v);
    if T(s, Pd(v)).Some? {
      CountsAt(s, slots, Pd(v));
    } else {
      UndoTable(s1, b, slots, Pdpt(v), v.i3);
      PruneUndoes1(s, s1, slots, v, Freed(b, Pdpt(v), v.i3));
    }
  }

  lemma PruneUndoes3(s: Machine, slots: set<Index>, v: VPage, s1: Machine, s2: Machine, s3: Machine, b: Machine)
    requires Inv(s, slots) && v.i4 in slots && InvBut(s1, slots, Pdpt(v)) && InvBut(s2, slots, Pd(v))
    requires EnsureTable(s, s.root, v.i4, false) == Done(s1) && T(s1, Pdpt(v)).Some?
    requires EnsureTable(s1, T(s1, Pdpt(v)).value, v.i3, true) == Done(s2)
    requires T(s2, Pd(v)).Some? && T(s2, Pdpt(v)) == T(s1, Pdpt(v))
    requires EnsureTable(s2, T(s2, Pd(v)).value, v.i2, true) == Done(s3) && SameTree(b, s3)
    requires T(s, Pdpt(v)).None? <==> !Present(s.mem(s.root, v.i4))
    requires T(s, Pd(v)).None? <==> !Present(s1.mem(T(s1, Pdpt(v)).value, v.i3))
    requires T(s, Pt(v)).None? <==> !Present(s2.mem(T(s2, Pd(v)).value, v.i2))
    requires T(s, Pd(v)).Some? ==> s1 == s
    requires T(s, Pt(v)).Some? ==> s2 == s
    requires T(s3, Pt(v)).Some? && T(s3, Pd(v)) == T(s2, Pd(v)) && T(s3, Pdpt(v)) == T(s1, Pdpt(v))
    ensures var r := Prune(b, v, T(b, Pdpt(v)).value, T(b, Pd(v)).value, T(b, Pt(v)).value);
      r.Done? && SameTree(r.value, s)
  {
    hide Present, Large, EntryAddr, InvBut;
    PathFacts(v);
    if T(s, Pt(v)).Some? {
      CountsAt(s, slots, Pt(v));
    } else {
      UndoTable(s2, b, slots, Pd(v), v.i2);
      PruneUndoes2(s, slots, v, s1, s2, Freed(b, Pd(v), v.i2));
    }
  }

  lemma PruneUndoesBuild(s: Machine, slots: set<Index>, v: VPage, b: Machine)
    requires Inv(s, slots) && v.i4 in slots && BuildPath(s, v).Done?
    requires SameTree(b, BuildPath(s, v).value.0)
    ensures T(b, Pdpt(v)).Some? && T(b, Pd(v)).Some? && T(b, Pt(v)).Some?
    ensures var r := Prune(b, v, T(b, Pdpt(v)).value, T(b, Pd(v)).value, T(b, Pt(v)).value);
      r.Done? && SameTree(r.value, s)
  {
    var s1, s2, s3 := Stages(s, slots, v);
    assert T(b, Pt(v)) == T(s3, Pt(v)) && T(b, Pd(v)) == T(s3, Pd(v)) && T(b, Pdpt(v)) == T(s3, Pdpt(v));
    PruneUndoes3(s, slots, v, s1, s2, s3, b);
  }

  lemma CountsAt(s: Machine, slots: set<Index>, n: Node)
    requires Inv(s, slots) && Managed(slots, n) && T(s, n).Some?
    ensures s.refs(T(s, n).value) > 0
  {
  }

  /** Mapping an unused frame at an unmapped page and unmapping the page again restores the
    * tree, the counts, and the free frames with their order. */
  lemma UnmapUndoesMap(s: Machine, slots: set<Index>, virt: nat, phys: nat, flags: nat, s1: Machine)
    requires Inv(s, slots) && Pml4i(virt) in slots
    requires phys < TWO_52 && FlagsOk(flags) && DataFrame(s, FrameOf(phys)) && s.refs(FrameOf(phys)) == 0
    requires Walk(s.mem, s.root, PageOf(virt)).None?
    requires MapPage(s, virt, phys, flags) == Done(s1)
    ensures UnmapPage(s1, virt).Done? && SameTree(UnmapPage(s1, virt).value, s)
  {
    FrameIsPage(phys);
    UndoAt(s, slots, PageOf(virt), FrameOf(phys), flags, s1);
  }

  lemma UndoAt(s: Machine, slots: set<Index>, v: VPage, frame: nat, flags: nat, s1: Machine)
    requires Inv(s, slots) && v.i4 in slots
    requires PhysPage(frame) && FlagsOk(flags) && DataFrame(s, frame) && s.refs(frame) == 0
    requires Walk(s.mem, s.root, v).None? && MapAt(s, v, frame, flags) == Done(s1)
    ensures UnmapAt(s1, v).Done? && SameTree(UnmapAt(s1, v).value, s)
  {
    hide Present, Large, EntryAddr, PoolOk, CountsOk, EntriesOk;
    PathKeeps(s, slots, v);
    var (a, t) := BuildPath(s, v).value;
    WalkByTables(a.mem, s.root, v);
    assert !Owned(a, frame);
    UndoLeaf(a, slots, v, frame, flags);
    var b := DropEntry(DecPage(s1, frame).value, t, v.i1).value;
    PruneUndoesBuild(s, slots, v, b);
    WalkByTables(s1.mem, s.root, v);
    assert T(s1, Pt(v)) == T(a, Pt(v)) == T(b, Pt(v)) && T(s1, Pd(v)) == T(b, Pd(v)) && T(s1, Pdpt(v)) == T(b, Pdpt(v));
  }
}
