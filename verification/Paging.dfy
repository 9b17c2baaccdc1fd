/** Mapping and unmapping of 4 KiB pages (kernel/arch/x86_64/paging.c), on values. */
module Paging {
  import opened Wrappers
  import opened Linaddr
  import opened PageTree

  /** Physical memory, the reference counts of the pageinfo array, and the free frames with
    * the next one to be handed out last. */
  datatype Machine = Machine(root: nat, mem: Memory, refs: nat -> nat, pool: seq<nat>)

  function SetRef(refs: nat -> nat, f: nat, n: nat): nat -> nat {
    g => if g == f then n else refs(g)
  }

  function IncPage(s: Machine, f: nat): Machine {
    s.(refs := SetRef(s.refs, f, s.refs(f) + 1))
  }

  function DecPage(s: Machine, f: nat): Outcome<Machine> {
    if s.refs(f) == 0 then Panic else Done(s.(refs := SetRef(s.refs, f, s.refs(f) - 1)))
  }

  function AllocPage(s: Machine): Outcome<(Machine, nat)> {
    if s.pool == [] then Panic else Done((s.(pool := s.pool[..|s.pool| - 1]), s.pool[|s.pool| - 1]))
  }

  function FreePage(s: Machine, f: nat): Machine {
    s.(pool := s.pool + [f])
  }

  /** Makes sure entry i of the table in frame t points to a table. */
  function EnsureTable(s: Machine, t: nat, i: Index, counted: bool): Outcome<Machine> {
    if Present(s.mem(t, i)) then Done(s) else
    var (s1, f) :- AllocPage(s);
    var s2 := s1.(mem := ZeroFrame(Write(s1.mem, t, i, TableWord(f)), f));
    Done(if counted then IncPage(s2, t) else s2)
  }

  /** The last step of map_page: entry i of the page table in frame t. */
  function SetLeaf(s: Machine, t: nat, i: Index, phys: nat, flags: nat): Machine {
    var e := s.mem(t, i);
    if Present(e) && EntryAddr(e) == phys then s else
    var s1 := if Present(e) then s else IncPage(s, t);
    IncPage(s1.(mem := Write(s1.mem, t, i, LeafWord(phys, flags))), phys)
  }

  /** The first steps of map_page: the tables down to the page table of v, and its frame. */
  function BuildPath(s: Machine, v: VPage): Outcome<(Machine, nat)> {
    var s1 :- EnsureTable(s, s.root, v.i4, false);
    var t3 := EntryAddr(s1.mem(s.root, v.i4));
    var s2 :- EnsureTable(s1, t3, v.i3, true);
    var t2 := EntryAddr(s2.mem(t3, v.i3));
    var s3 :- EnsureTable(s2, t2, v.i2, true);
    Done((s3, EntryAddr(s3.mem(t2, v.i2))))
  }

  function MapPage(s: Machine, virt: nat, phys: nat, flags: nat): Outcome<Machine> {
    if virt == 0 then Panic else MapAt(s, PageOf(virt), phys - phys % PAGE_SIZE, flags)
  }

  function MapAt(s: Machine, v: VPage, frame: nat, flags: nat): Outcome<Machine> {
    var (s1, t) :- BuildPath(s, v);
    Done(SetLeaf(s1, t, v.i1, frame, flags))
  }

  /** Clears entry i of the table in frame t and takes one off the table's count. */
  function DropEntry(s: Machine, t: nat, i: Index): Outcome<Machine> {
    DecPage(s.(mem := Write(s.mem, t, i, 0)), t)
  }

  function UnmapPage(s: Machine, virt: nat): Outcome<Machine> {
    UnmapAt(s, PageOf(virt))
  }

  function UnmapAt(s: Machine, v: VPage): Outcome<Machine> {
    var e4 := s.mem(s.root, v.i4);
    if !Present(e4) then Done(s) else
    var t3 := EntryAddr(e4);
    var e3 := s.mem(t3, v.i3);
    if !Present(e3) then Done(s) else
    var t2 := EntryAddr(e3);
    var e2 := s.mem(t2, v.i2);
    if !Present(e2) then Done(s) else
    var t1 := EntryAddr(e2);
    var e1 := s.mem(t1, v.i1);
    if !Present(e1) then Done(s) else
    var s1 :- DecPage(s, EntryAddr(e1));
    if s1.refs(EntryAddr(e1)) > 0 then Done(s1) else
    var s2 :- DropEntry(s1, t1, v.i1);
    Prune(s2, v, t3, t2, t1)
  }

  /** The end of unmap_page: frees the tables of the path that have become empty. */
  function Prune(s: Machine, v: VPage, t3: nat, t2: nat, t1: nat): Outcome<Machine> {
    if s.refs(t1) > 0 then Done(s) else
    var s1 :- DropEntry(FreePage(s, t1), t2, v.i2);
    PrunePd(s1, v, t3, t2)
  }

  function PrunePd(s: Machine, v: VPage, t3: nat, t2: nat): Outcome<Machine> {
    if s.refs(t2) > 0 then Done(s) else
    var s1 :- DropEntry(FreePage(s, t2), t3, v.i3);
    PrunePdpt(s1, v, t3)
  }

  function PrunePdpt(s: Machine, v: VPage, t3: nat): Outcome<Machine> {
    if s.refs(t3) > 0 then Done(s)
    else Done(FreePage(s, t3).(mem := Write(s.mem, s.root, v.i4, 0)))
  }

  // ---- the invariant ----

  function T(s: Machine, n: Node): Option<nat> { TableAt(s.mem, s.root, n) }

  /** The number of present entries of a table. */
  function Count(m: Memory, f: nat): nat {
    |PresentSet(m, f)|
  }

  function PresentSet(m: Memory, f: nat): set<Index> {
    set i: Index | 0 <= i < 512 && Present(m(f, i))
  }

  /** Below one of the PML4 slots kept for map_page and unmap_page. */
  predicate Managed(slots: set<Index>, n: Node) {
    n.Child? && n.Slot() in slots
  }

  ghost predicate PoolOk(s: Machine) {
    && (forall i, j :: 0 <= i < j < |s.pool| ==> s.pool[i] != s.pool[j])
    && (forall f :: f in s.pool ==> PhysPage(f) && s.refs(f) == 0 && !IsTable(s.mem, s.root, f))
  }

  /** The counts of managed tables are exact and, but for the table at hole, positive. */
  ghost predicate CountsOk(s: Machine, slots: set<Index>, hole: Node) {
    forall n :: Managed(slots, n) && T(s, n).Some? ==>
      s.refs(T(s, n).value) == Count(s.mem, T(s, n).value) && (n != hole ==> Count(s.mem, T(s, n).value) > 0)
  }

  /** A frame that may be mapped as data: neither free nor a table. */
  ghost predicate DataFrame(s: Machine, f: nat) {
    f !in s.pool && !IsTable(s.mem, s.root, f)
  }

  /** Managed tables hold no large leaves, and map data frames only. */
  ghost predicate EntriesOk(s: Machine, slots: set<Index>) {
    forall n, i: Index {:trigger T(s, n), s.mem(T(s, n).value, i)} ::
      Managed(slots, n) && T(s, n).Some? && Present(s.mem(T(s, n).value, i)) ==>
        if n.Depth() < 3 then !Large(s.mem(T(s, n).value, i)) else DataFrame(s, EntryAddr(s.mem(T(s, n).value, i)))
  }

  /** Every entry that leads to a table under the slots leaves all rights to the entries below it. */
  ghost predicate Permissive(m: Memory, root: nat, slots: set<Index>) {
    forall n: Node, i: Index {:trigger TableAt(m, root, Child(n, i))} ::
      Managed(slots, Child(n, i)) && TableAt(m, root, Child(n, i)).Some? ==>
        RightsIn(m(TableAt(m, root, n).value, i)) == ALL_RIGHTS
  }

  ghost predicate InvBut(s: Machine, slots: set<Index>, hole: Node) {
    && RECURSIVE_SLOT !in slots
    && TreeShaped(s.mem, s.root)
    && PoolOk(s)
    && CountsOk(s, slots, hole)
    && EntriesOk(s, slots)
    && Permissive(s.mem, s.root, slots)
  }

  /** What every run of map_page and unmap_page keeps. */
  ghost predicate Inv(s: Machine, slots: set<Index>) {
    InvBut(s, slots, Root)
  }

  /** Free frames and table frames together. */
  ghost predicate Owned(s: Machine, f: nat) {
    f in s.pool || IsTable(s.mem, s.root, f)
  }

  // ---- counting ----

  lemma CountAfter(m1: Memory, m2: Memory, f: nat, i: Index)
    requires forall j: Index :: j != i ==> m2(f, j) == m1(f, j)
    ensures Count(m2, f) == Count(m1, f) + (if Present(m2(f, i)) then 1 else 0) - (if Present(m1(f, i)) then 1 else 0)
  {
    CountSplit(m1, f, i);
    CountSplit(m2, f, i);
    assert PresentSet(m1, f) - {i} == PresentSet(m2, f) - {i};
  }

  lemma CountSplit(m: Memory, f: nat, i: Index)
    ensures Count(m, f) == |PresentSet(m, f) - {i}| + (if Present(m(f, i)) then 1 else 0)
  {
    var p := PresentSet(m, f);
    if Present(m(f, i)) {
      assert p == (p - {i}) + {i};
    } else {
      assert p == p - {i};
    }
  }

  lemma CountSame(m1: Memory, m2: Memory, f: nat)
    requires forall j: Index :: m2(f, j) == m1(f, j)
    ensures Count(m2, f) == Count(m1, f)
  {
    assert PresentSet(m1, f) == PresentSet(m2, f);
  }

  lemma CountZero(m: Memory, f: nat)
    ensures Count(m, f) == 0 <==> forall j: Index :: !Present(m(f, j))
  {
    if j: Index :| Present(m(f, j)) {
      assert j in PresentSet(m, f);
    } else {
      assert PresentSet(m, f) == {};
    }
  }

  // ---- single steps ----

  lemma AllTablesStay(m1: Memory, m2: Memory, root: nat, n: Node, i: Index)
    requires AgreeBut(m1, m2, root, n, i)
    requires TableAt(m1, root, n).Some?
    requires Barren(m1, n, TableAt(m1, root, n).value, i) && Barren(m2, n, TableAt(m1, root, n).value, i)
    ensures SameTablesBut(m1, m2, root, Child(n, i))
  {
    forall k: Node | k != Child(n, i) ensures TableAt(m2, root, k) == TableAt(m1, root, k) {
      TablesStay(m1, m2, root, n, i, k);
    }
  }

  /** A table entry that is made or cleared leaves the other entries permissive. */
  lemma StaysPermissive(m1: Memory, m2: Memory, root: nat, slots: set<Index>, n: Node, i: Index)
    requires Permissive(m1, root, slots) && TableAt(m1, root, n).Some? && TableAt(m2, root, n) == TableAt(m1, root, n)
    requires AgreeBut(m1, m2, root, n, i) && SameTablesBut(m1, m2, root, Child(n, i))
    requires TableAt(m1, root, Child(n, i)).None? || TableAt(m2, root, Child(n, i)).None?
    requires TableAt(m2, root, Child(n, i)).Some? ==> RightsIn(m2(TableAt(m1, root, n).value, i)) == ALL_RIGHTS
    ensures Permissive(m2, root, slots)
  {
    hide RightsIn, Present, Large, EntryAddr, Managed;
    forall k: Node, j: Index | Managed(slots, Child(k, j)) && TableAt(m2, root, Child(k, j)).Some?
      ensures RightsIn(m2(TableAt(m2, root, k).value, j)) == ALL_RIGHTS
    {
      if Child(k, j) != Child(n, i) {
        assert TableAt(m1, root, Child(k, j)) == TableAt(m2, root, Child(k, j));
        assert m2(TableAt(m1, root, k).value, j) == m1(TableAt(m1, root, k).value, j);
      }
    }
  }

  /** Under permissive tables a page has the rights its own entry gives. */
  lemma LeafRights(m: Memory, root: nat, slots: set<Index>, v: VPage)
    requires Permissive(m, root, slots) && v.i4 in slots && RECURSIVE_SLOT !in slots
    ensures var l := Walk(m, root, v); l.Some? ==> l.value.rights == RightsIn(l.value.word)
  {
    hide Present, Large, EntryAddr;
    PathFacts(v);
    WalkByTables(m, root, v);
    hide RightsIn, Walk;
    assert TableAt(m, root, Root) == Some(root);
    assert TableAt(m, root, Child(Root, v.i4)).Some? ==> RightsIn(m(root, v.i4)) == ALL_RIGHTS;
  }

  /** The walks of all pages outside the recursive slot agree. */
  ghost predicate SameWalks(m1: Memory, m2: Memory, root: nat) {
    forall v: VPage :: v.i4 != RECURSIVE_SLOT ==> Walk(m2, root, v) == Walk(m1, root, v)
  }

  /** What table creation and removal leave alone. */
  ghost predicate SameOutside(s1: Machine, s2: Machine) {
    && s2.root == s1.root
    && SameWalks(s1.mem, s2.mem, s1.root)
    && (forall f :: Owned(s2, f) <==> Owned(s1, f))
    && (forall f :: !Owned(s1, f) ==> s2.refs(f) == s1.refs(f))
  }

  /** A new table: entry i of the table at n now points to the zeroed frame f. */
  lemma NewTable(s: Machine, slots: set<Index>, n: Node, i: Index, f: nat, m: Memory)
    requires TreeShaped(s.mem, s.root) && PoolOk(s) && f in s.pool
    requires T(s, n).Some? && n.Depth() < 3 && Child(n, i) != Child(Root, RECURSIVE_SLOT)
    requires !Present(s.mem(T(s, n).value, i))
    requires m == ZeroFrame(Write(s.mem, T(s, n).value, i, TableWord(f)), f)
    ensures AgreeBut(s.mem, m, s.root, n, i) && SameTablesBut(s.mem, m, s.root, Child(n, i))
    ensures TableAt(m, s.root, Child(n, i)) == Some(f) == Some(EntryAddr(m(T(s, n).value, i)))
    ensures TreeShaped(m, s.root)
    ensures SameWalks(s.mem, m, s.root)
    ensures forall g :: IsTable(m, s.root, g) <==> g == f || IsTable(s.mem, s.root, g)
    ensures Present(m(T(s, n).value, i)) && !Large(m(T(s, n).value, i))
    ensures RightsIn(m(T(s, n).value, i)) == ALL_RIGHTS
    ensures forall j: Index :: !Present(m(f, j))
    ensures T(s, n).value != f
  {
    hide Present, Large, EntryAddr;
    ZeroIsAbsent();
    var t := T(s, n).value;
    TableWordFacts(f);
    assert IsTable(s.mem, s.root, t);
    AllTablesStay(s.mem, m, s.root, n, i);
    assert TableAt(m, s.root, n) == Some(t);
    forall g: nat ensures IsTable(m, s.root, g) <==> g == f || IsTable(s.mem, s.root, g) {
      if IsTable(m, s.root, g) {
        var k :| TableAt(m, s.root, k) == Some(g);
        assert k != Child(n, i) ==> TableAt(s.mem, s.root, k) == Some(g);
      }
      if IsTable(s.mem, s.root, g) {
        var k :| TableAt(s.mem, s.root, k) == Some(g);
        assert k != Child(n, i) && TableAt(m, s.root, k) == Some(g);
      }
      assert TableAt(m, s.root, Child(n, i)) == Some(f);
    }
    forall v: VPage | v.i4 != RECURSIVE_SLOT ensures Walk(m, s.root, v) == Walk(s.mem, s.root, v) {
      EmptyTableWalk(s.mem, m, s.root, n, i, v);
    }
  }

  /** s1 is s with the tables down to n made, the table at n possibly still empty. */
  ghost predicate Reached(s: Machine, s1: Machine, slots: set<Index>, n: Node) {
    InvBut(s1, slots, n) && T(s1, n).Some? && SameOutside(s, s1)
  }

  lemma EnsureKeeps(s0: Machine, s: Machine, slots: set<Index>, n: Node, i: Index)
    requires Reached(s0, s, slots, n) && n.Depth() < 3 && Managed(slots, Child(n, i))
    ensures var r, t := EnsureTable(s, T(s, n).value, i, n.Child?), T(s, Child(n, i));
      && (r.Done? <==> t.Some? || s.pool != [])
      && (r.Done? ==>
        var s' := r.value;
        && Reached(s0, s', slots, Child(n, i))
        && T(s', Child(n, i)) == Some(EntryAddr(s'.mem(T(s, n).value, i)))
        && SameTablesBut(s.mem, s'.mem, s.root, Child(n, i))
        && |s'.pool| == |s.pool| - (if t.None? then 1 else 0))
  {
    var t := T(s, n).value;
    if Present(s.mem(t, i)) {
      CountZero(s.mem, t);
    } else if s.pool != [] {
      EnsureNew(s, slots, n, i);
    }
  }

  lemma EnsureNew(s: Machine, slots: set<Index>, n: Node, i: Index)
    requires InvBut(s, slots, n)
    requires T(s, n).Some? && n.Depth() < 3 && Managed(slots, Child(n, i))
    requires !Present(s.mem(T(s, n).value, i)) && s.pool != []
    ensures var s' := EnsureTable(s, T(s, n).value, i, n.Child?).value;
      && InvBut(s', slots, Child(n, i))
      && T(s', Child(n, i)) == Some(EntryAddr(s'.mem(T(s, n).value, i)))
      && SameTablesBut(s.mem, s'.mem, s.root, Child(n, i))
      && SameOutside(s, s')
  {
    hide Present, Large, EntryAddr;
    var t := T(s, n).value;
    var s' := EnsureTable(s, t, i, n.Child?).value;
    var f := s.pool[|s.pool| - 1];
    NewTable(s, slots, n, i, f, s'.mem);
    StaysPermissive(s.mem, s'.mem, s.root, slots, n, i);
    EnsureCounts(s, slots, n, i, f, s');
    EnsureEntries(s, slots, n, i, f, s');
    EnsurePool(s, t, f, s');
  }

  lemma EnsurePool(s: Machine, t: nat, f: nat, s': Machine)
    requires PoolOk(s) && s.pool != [] && f == s.pool[|s.pool| - 1]
    requires IsTable(s.mem, s.root, t)
    requires s'.root == s.root && s'.pool == s.pool[..|s.pool| - 1]
    requires forall g :: IsTable(s'.mem, s.root, g) <==> g == f || IsTable(s.mem, s.root, g)
    requires forall g :: g != t ==> s'.refs(g) == s.refs(g)
    ensures PoolOk(s')
    ensures forall g :: Owned(s', g) <==> Owned(s, g)
    ensures forall g :: !Owned(s, g) ==> s'.refs(g) == s.refs(g)
  {
    assert s.pool == s'.pool + [f];
    forall g | g in s'.pool ensures g in s.pool && g != f {
    }
  }

  lemma EnsureCounts(s: Machine, slots: set<Index>, n: Node, i: Index, f: nat, s': Machine)
    requires CountsOk(s, slots, n) && TreeShaped(s.mem, s.root)
    requires T(s, n).Some? && T(s, n).value != f && s.refs(f) == 0
    requires AgreeBut(s.mem, s'.mem, s.root, n, i) && SameTablesBut(s.mem, s'.mem, s.root, Child(n, i))
    requires T(s', Child(n, i)) == Some(f) && s'.root == s.root && T(s, Child(n, i)).None?
    requires !Present(s.mem(T(s, n).value, i)) && Present(s'.mem(T(s, n).value, i))
    requires forall j: Index :: !Present(s'.mem(f, j))
    requires s'.refs == if n.Child? then SetRef(s.refs, T(s, n).value, s.refs(T(s, n).value) + 1) else s.refs
    ensures CountsOk(s', slots, Child(n, i))
  {
    var t := T(s, n).value;
    forall k | Managed(slots, k) && T(s', k).Some?
      ensures s'.refs(T(s', k).value) == Count(s'.mem, T(s', k).value)
      ensures k != Child(n, i) ==> Count(s'.mem, T(s', k).value) > 0
    {
      var g := T(s', k).value;
      if k == Child(n, i) {
        CountZero(s'.mem, f);
      } else if k == n {
        forall j: Index | j != i ensures s'.mem(t, j) == s.mem(t, j) {}
        CountAfter(s.mem, s'.mem, t, i);
      } else {
        forall j: Index ensures s'.mem(g, j) == s.mem(g, j) {}
        CountSame(s.mem, s'.mem, g);
      }
    }
  }

  lemma EnsureEntries(s: Machine, slots: set<Index>, n: Node, i: Index, f: nat, s': Machine)
    requires EntriesOk(s, slots)
    requires T(s, n).Some? && n.Depth() < 3 && f in s.pool
    requires AgreeBut(s.mem, s'.mem, s.root, n, i) && SameTablesBut(s.mem, s'.mem, s.root, Child(n, i))
    requires T(s', Child(n, i)) == Some(f) && s'.root == s.root
    requires !Large(s'.mem(T(s, n).value, i))
    requires forall j: Index :: !Present(s'.mem(f, j))
    requires forall g :: IsTable(s'.mem, s.root, g) <==> g == f || IsTable(s.mem, s.root, g)
    requires forall g :: g in s'.pool ==> g in s.pool
    ensures EntriesOk(s', slots)
  {
    forall k, j: Index | Managed(slots, k) && T(s', k).Some? && Present(s'.mem(T(s', k).value, j))
      ensures if k.Depth() < 3 then !Large(s'.mem(T(s', k).value, j))
        else DataFrame(s', EntryAddr(s'.mem(T(s', k).value, j)))
    {
      assert k != Child(n, i);
      if !(k == n && j == i) {
        assert s'.mem(T(s, k).value, j) == s.mem(T(s, k).value, j);
      }
    }
  }

  // ---- setting and clearing a leaf ----

  /** A barren entry of a page table is replaced by another. */
  lemma LeafWritten(s: Machine, slots: set<Index>, v: VPage, w: nat, m: Memory)
    requires TreeShaped(s.mem, s.root) && v.i4 != RECURSIVE_SLOT
    requires T(s, Pt(v)).Some? && m == Write(s.mem, T(s, Pt(v)).value, v.i1, w)
    ensures AgreeBut(s.mem, m, s.root, Pt(v), v.i1)
    ensures forall k :: TableAt(m, s.root, k) == T(s, k)
    ensures TreeShaped(m, s.root)
    ensures forall g :: IsTable(m, s.root, g) <==> IsTable(s.mem, s.root, g)
    ensures forall u: VPage :: u.i4 != RECURSIVE_SLOT && u != v ==> Walk(m, s.root, u) == Walk(s.mem, s.root, u)
    ensures var l := Walk(m, s.root, v); if Present(w) then l.Some? && l.value.Leaf4K? && l.value.word == w else l.None?
    ensures Permissive(s.mem, s.root, slots) ==> Permissive(m, s.root, slots)
  {
    hide Present, Large, EntryAddr;
    PathFacts(v);
    AllTablesStay(s.mem, m, s.root, Pt(v), v.i1);
    assert TableAt(m, s.root, Child(Pt(v), v.i1)).None? && T(s, Child(Pt(v), v.i1)).None?;
    if Permissive(s.mem, s.root, slots) {
      StaysPermissive(s.mem, m, s.root, slots, Pt(v), v.i1);
    }
    forall u: VPage | u.i4 != RECURSIVE_SLOT && u != v ensures Walk(m, s.root, u) == Walk(s.mem, s.root, u) {
      PathFacts(u);
      SameWalk(s.mem, m, s.root, Pt(v), v.i1, u);
    }
    WalkByTables(m, s.root, v);
    forall g: nat ensures IsTable(m, s.root, g) <==> IsTable(s.mem, s.root, g) {
      if IsTable(m, s.root, g) {
        var k :| TableAt(m, s.root, k) == Some(g);
        assert T(s, k) == Some(g);
      }
      if IsTable(s.mem, s.root, g) {
        var k :| TableAt(s.mem, s.root, k) == Some(g);
        assert TableAt(m, s.root, k) == Some(g);
      }
    }
  }

  /** Counts after one entry of the table at n changed and the count of n followed. */
  lemma LeafCounts(s: Machine, slots: set<Index>, n: Node, i: Index, s': Machine, hole: Node, hole': Node)
    requires CountsOk(s, slots, hole) && TreeShaped(s.mem, s.root) && s'.root == s.root
    requires Managed(slots, n) && T(s, n).Some?
    requires AgreeBut(s.mem, s'.mem, s.root, n, i)
    requires forall k :: T(s', k).Some? ==> T(s', k) == T(s, k)
    requires var t := T(s, n).value;
      s'.refs(t) == s.refs(t) + (if Present(s'.mem(t, i)) then 1 else 0) - (if Present(s.mem(t, i)) then 1 else 0)
    requires forall g :: IsTable(s.mem, s.root, g) && g != T(s, n).value ==> s'.refs(g) == s.refs(g)
    requires hole == Root || hole == n || T(s', hole).None?
    requires hole' == n || Present(s'.mem(T(s, n).value, i))
    ensures CountsOk(s', slots, hole')
  {
    var t := T(s, n).value;
    forall k | Managed(slots, k) && T(s', k).Some?
      ensures s'.refs(T(s', k).value) == Count(s'.mem, T(s', k).value)
      ensures k != hole' ==> Count(s'.mem, T(s', k).value) > 0
    {
      var g := T(s', k).value;
      if k == n {
        forall j: Index | j != i ensures s'.mem(t, j) == s.mem(t, j) {}
        CountAfter(s.mem, s'.mem, t, i);
        CountZero(s'.mem, t);
      } else {
        assert IsTable(s.mem, s.root, g);
        forall j: Index ensures s'.mem(g, j) == s.mem(g, j) {}
        CountSame(s.mem, s'.mem, g);
      }
    }
  }

  lemma SetLeafKeeps(s: Machine, slots: set<Index>, v: VPage, phys: nat, flags: nat)
    requires InvBut(s, slots, Pt(v)) && v.i4 in slots && T(s, Pt(v)).Some?
    requires PhysPage(phys) && FlagsOk(flags) && DataFrame(s, phys)
    ensures var t := T(s, Pt(v)).value; var e := s.mem(t, v.i1); var s' := SetLeaf(s, t, v.i1, phys, flags);
      var again := Present(e) && EntryAddr(e) == phys;
      && Inv(s', slots) && s'.root == s.root && s'.pool == s.pool
      && (forall u: VPage :: u.i4 != RECURSIVE_SLOT && u != v ==> Walk(s'.mem, s.root, u) == Walk(s.mem, s.root, u))
      && (var w := if again then e else LeafWord(phys, flags); Walk(s'.mem, s.root, v) == Some(Leaf4K(w, RightsIn(w))))
      && (forall f :: IsTable(s'.mem, s.root, f) <==> IsTable(s.mem, s.root, f))
      && (forall f :: !Owned(s, f) ==> s'.refs(f) == s.refs(f) + (if f == phys && !again then 1 else 0))
  {
    hide Large, EntryAddr, RightsIn, TableAt, Walk, TreeShaped, AgreeBut, Permissive, LeafWord, IsOr;
    var t := T(s, Pt(v)).value;
    var e := s.mem(t, v.i1);
    var s' := SetLeaf(s, t, v.i1, phys, flags);
    PathFacts(v);
    assert IsTable(s.mem, s.root, t) && Managed(slots, Pt(v));
    if Present(e) && EntryAddr(e) == phys {
      CountZero(s.mem, t);
      WalkByTables(s.mem, s.root, v);
      LeafRights(s.mem, s.root, slots, v);
    } else {
      LeafWordFacts(phys, flags);
      LeafWritten(s, slots, v, LeafWord(phys, flags), s'.mem);
      LeafCounts(s, slots, Pt(v), v.i1, s', Pt(v), Root);
      LeafEntries(s, slots, v, s');
      LeafRights(s'.mem, s.root, slots, v);
    }
  }

  lemma LeafEntries(s: Machine, slots: set<Index>, v: VPage, s': Machine)
    requires EntriesOk(s, slots) && s'.root == s.root && s'.pool == s.pool
    requires T(s, Pt(v)).Some?
    requires AgreeBut(s.mem, s'.mem, s.root, Pt(v), v.i1)
    requires forall k :: T(s', k) == T(s, k)
    requires forall g :: IsTable(s'.mem, s.root, g) <==> IsTable(s.mem, s.root, g)
    requires var w := s'.mem(T(s, Pt(v)).value, v.i1); Present(w) ==> DataFrame(s, EntryAddr(w))
    ensures EntriesOk(s', slots)
  {
    forall k, j: Index | Managed(slots, k) && T(s', k).Some? && Present(s'.mem(T(s', k).value, j))
      ensures if k.Depth() < 3 then !Large(s'.mem(T(s', k).value, j))
        else DataFrame(s', EntryAddr(s'.mem(T(s', k).value, j)))
    {
      PathFacts(v);
      if !(k == Pt(v) && j == v.i1) {
        assert s'.mem(T(s, k).value, j) == s.mem(T(s, k).value, j);
      }
    }
  }

  // ---- map_page ----

  /** How many tables map_page has to create for a page. */
  function Missing(s: Machine, v: VPage): nat {
    (if T(s, Pdpt(v)).None? then 1 else 0) + (if T(s, Pd(v)).None? then 1 else 0) + (if T(s, Pt(v)).None? then 1 else 0)
  }

  lemma PathKeeps(s: Machine, slots: set<Index>, v: VPage)
    requires Inv(s, slots) && v.i4 in slots
    ensures BuildPath(s, v).Done? <==> Missing(s, v) <= |s.pool|
    ensures BuildPath(s, v).Done? ==>
      var (s', t) := BuildPath(s, v).value;
      Reached(s, s', slots, Pt(v)) && T(s', Pt(v)) == Some(t) && |s'.pool| == |s.pool| - Missing(s, v)
  {
    hide Present, Large, EntryAddr;
    PathFacts(v);
    WalkByTables(s.mem, s.root, v);
    assert Reached(s, s, slots, Root);
    assert T(s, Root) == Some(s.root);
    hide InvBut, TreeShaped, TableAt, EnsureTable, Walk;
    EnsureKeeps(s, s, slots, Root, v.i4);
    var r1 := EnsureTable(s, s.root, v.i4, false);
    if r1.Done? {
      var s1 := r1.value;
      var t3 := T(s1, Pdpt(v)).value;
      EnsureKeeps(s, s1, slots, Pdpt(v), v.i3);
      var r2 := EnsureTable(s1, t3, v.i3, true);
      if r2.Done? {
        var s2 := r2.value;
        EnsureKeeps(s, s2, slots, Pd(v), v.i2);
      }
    }
  }

  /** A 4 KiB page of the frame whose entry has each flag asked for, and the rights the flags give. */
  ghost predicate IsPage(l: Option<Leaf>, frame: nat, flags: nat) {
    && l.Some? && l.value.Leaf4K? && EntryAddr(l.value.word) == frame
    && IsOr(l.value.word, frame, flags, {0})
    && l.value.rights == RightsIn(flags)
  }

  /** The walk of v leads to the frame with the flags; all other walks with their rights, free and table
    * frames together, and the counts of other data frames are as before. */
  ghost predicate MapsOnly(s: Machine, s': Machine, v: VPage, frame: nat, flags: nat) {
    var before := Walk(s.mem, s.root, v);
    var again := before.Some? && EntryAddr(before.value.word) == frame;
    && s'.root == s.root
    && (forall u: VPage :: u.i4 != RECURSIVE_SLOT && u != v ==> Walk(s'.mem, s.root, u) == Walk(s.mem, s.root, u))
    && (if again then Walk(s'.mem, s.root, v) == before else
          var w := LeafWord(frame, flags);
          Walk(s'.mem, s.root, v) == Some(Leaf4K(w, RightsIn(w))) && IsPage(Walk(s'.mem, s.root, v), frame, flags))
    && (forall f :: Owned(s', f) <==> Owned(s, f))
    && (forall f :: !Owned(s, f) ==> s'.refs(f) == s.refs(f) + (if f == frame && !again then 1 else 0))
  }

  lemma MapLeaf(s: Machine, s1: Machine, slots: set<Index>, v: VPage, t: nat, frame: nat, flags: nat)
    requires v.i4 in slots && RECURSIVE_SLOT !in slots
    requires Reached(s, s1, slots, Pt(v)) && T(s1, Pt(v)) == Some(t)
    requires PhysPage(frame) && FlagsOk(flags) && DataFrame(s, frame)
    ensures var s' := SetLeaf(s1, t, v.i1, frame, flags);
      Inv(s', slots) && MapsOnly(s, s', v, frame, flags) && s'.pool == s1.pool
  {
    assert !Owned(s1, frame);
    LeafWordFacts(frame, flags);
    SetLeafKeeps(s1, slots, v, frame, flags);
    WalkByTables(s1.mem, s.root, v);
  }

  lemma MapAtCorrect(s: Machine, slots: set<Index>, v: VPage, frame: nat, flags: nat)
    requires Inv(s, slots) && v.i4 in slots
    requires PhysPage(frame) && FlagsOk(flags) && DataFrame(s, frame)
    ensures MapAt(s, v, frame, flags).Done? <==> Missing(s, v) <= |s.pool|
    ensures MapAt(s, v, frame, flags).Done? ==>
      var s' := MapAt(s, v, frame, flags).value;
      Inv(s', slots) && MapsOnly(s, s', v, frame, flags) && |s'.pool| == |s.pool| - Missing(s, v)
  {
    PathKeeps(s, slots, v);
    var r := BuildPath(s, v);
    if r.Done? {
      MapLeaf(s, r.value.0, slots, v, r.value.1, frame, flags);
    }
  }

  /** map_page changes the walk of its own page only, to the given frame; it panics exactly for
    * the null address and when the free frames do not cover the missing tables. */
  lemma MapPageCorrect(s: Machine, slots: set<Index>, virt: nat, phys: nat, flags: nat)
    requires Inv(s, slots) && Pml4i(virt) in slots
    requires phys < TWO_52 && FlagsOk(flags) && DataFrame(s, phys - phys % PAGE_SIZE)
    ensures MapPage(s, virt, phys, flags).Done? <==> virt != 0 && Missing(s, PageOf(virt)) <= |s.pool|
    ensures MapPage(s, virt, phys, flags).Done? ==>
      var s' := MapPage(s, virt, phys, flags).value;
      && Inv(s', slots)
      && MapsOnly(s, s', PageOf(virt), phys - phys % PAGE_SIZE, flags)
      && |s'.pool| == |s.pool| - Missing(s, PageOf(virt))
  {
    MapAtCorrect(s, slots, PageOf(virt), phys - phys % PAGE_SIZE, flags);
  }

  // ---- unmap_page ----

  /** The empty table in frame f leaves the tree: entry i of the table at n is cleared. */
  lemma TableGone(s: Machine, n: Node, i: Index, f: nat, m: Memory)
    requires TreeShaped(s.mem, s.root)
    requires T(s, n).Some? && T(s, Child(n, i)) == Some(f)
    requires forall j: Index :: !Present(s.mem(f, j))
    requires m == Write(s.mem, T(s, n).value, i, 0)
    ensures AgreeBut(s.mem, m, s.root, n, i) && SameTablesBut(s.mem, m, s.root, Child(n, i))
    ensures TableAt(m, s.root, Child(n, i)).None?
    ensures TreeShaped(m, s.root)
    ensures SameWalks(s.mem, m, s.root)
    ensures forall g: nat :: IsTable(s.mem, s.root, g) <==> g == f || IsTable(m, s.root, g)
    ensures !IsTable(m, s.root, f)
  {
    var t := T(s, n).value;
    AllTablesStay(s.mem, m, s.root, n, i);
    assert TableAt(m, s.root, n) == Some(t);
    forall g: nat ensures IsTable(s.mem, s.root, g) <==> g == f || IsTable(m, s.root, g) {
      if IsTable(m, s.root, g) {
        var k :| TableAt(m, s.root, k) == Some(g);
        assert k != Child(n, i) && T(s, k) == Some(g);
      }
      if IsTable(s.mem, s.root, g) {
        var k :| TableAt(s.mem, s.root, k) == Some(g);
        assert k != Child(n, i) ==> TableAt(m, s.root, k) == Some(g);
      }
      assert T(s, Child(n, i)) == Some(f);
    }
    forall v: VPage | v.i4 != RECURSIVE_SLOT ensures Walk(m, s.root, v) == Walk(s.mem, s.root, v) {
      EmptyTableWalk(m, s.mem, s.root, n, i, v);
    }
  }

  /** What is left after freeing the empty table under entry i of the table at n. */
  function Freed(s: Machine, n: Node, i: Index): Machine
    requires T(s, n).Some? && T(s, Child(n, i)).Some?
    requires n.Child? ==> s.refs(T(s, n).value) > 0
  {
    var t := T(s, n).value;
    Machine(s.root, Write(s.mem, t, i, 0),
            if n.Child? then SetRef(s.refs, t, s.refs(t) - 1) else s.refs,
            s.pool + [T(s, Child(n, i)).value])
  }

  lemma FreedKeeps(s0: Machine, s: Machine, slots: set<Index>, n: Node, i: Index)
    requires Reached(s0, s, slots, Child(n, i)) && Managed(slots, Child(n, i))
    requires s.refs(T(s, Child(n, i)).value) == 0
    ensures T(s, n).Some? && Present(s.mem(T(s, n).value, i))
    ensures EntryAddr(s.mem(T(s, n).value, i)) == T(s, Child(n, i)).value
    ensures n.Child? ==> s.refs(T(s, n).value) > 0
    ensures Reached(s0, Freed(s, n, i), slots, n)
    ensures SameTablesBut(s.mem, Freed(s, n, i).mem, s.root, Child(n, i))
    ensures T(Freed(s, n, i), Child(n, i)).None?
  {
    var t, f := T(s, n).value, T(s, Child(n, i)).value;
    CountZero(s.mem, f);
    CountZero(s.mem, t);
    var s' := Freed(s, n, i);
    TableGone(s, n, i, f, s'.mem);
    StaysPermissive(s.mem, s'.mem, s.root, slots, n, i);
    assert PhysPage(f) by { EntryAddrIsPage(s.mem(t, i)); }
    FreedPool(s, t, f, s');
    FreedCounts(s, slots, n, i, s');
    FreedEntries(s, slots, n, i, s');
  }

  lemma EntryAddrIsPage(w: nat)
    ensures PhysPage(EntryAddr(w))
  {
  }

  lemma FreedPool(s: Machine, t: nat, f: nat, s': Machine)
    requires PoolOk(s) && s'.root == s.root && s'.pool == s.pool + [f]
    requires PhysPage(f) && s.refs(f) == 0 && t != f
    requires IsTable(s.mem, s.root, t) && IsTable(s.mem, s.root, f) && !IsTable(s'.mem, s.root, f)
    requires forall g: nat :: IsTable(s.mem, s.root, g) <==> g == f || IsTable(s'.mem, s.root, g)
    requires forall g :: g != t ==> s'.refs(g) == s.refs(g)
    ensures PoolOk(s')
    ensures forall g :: Owned(s', g) <==> Owned(s, g)
    ensures forall g :: !Owned(s, g) ==> s'.refs(g) == s.refs(g)
  {
  }

  lemma FreedCounts(s: Machine, slots: set<Index>, n: Node, i: Index, s': Machine)
    requires CountsOk(s, slots, Child(n, i)) && TreeShaped(s.mem, s.root)
    requires T(s, n).Some? && T(s, Child(n, i)).Some? && Managed(slots, Child(n, i))
    requires n.Child? ==> s.refs(T(s, n).value) > 0
    requires s' == Freed(s, n, i)
    requires AgreeBut(s.mem, s'.mem, s.root, n, i) && SameTablesBut(s.mem, s'.mem, s.root, Child(n, i))
    requires T(s', Child(n, i)).None?
    ensures CountsOk(s', slots, n)
  {
    if n.Child? {
      LeafCounts(s, slots, n, i, s', Child(n, i), n);
    } else {
      forall k | Managed(slots, k) && T(s', k).Some?
        ensures s'.refs(T(s', k).value) == Count(s'.mem, T(s', k).value) > 0
      {
        var g := T(s', k).value;
        forall j: Index ensures s'.mem(g, j) == s.mem(g, j) {}
        CountSame(s.mem, s'.mem, g);
      }
    }
  }

  lemma FreedEntries(s: Machine, slots: set<Index>, n: Node, i: Index, s': Machine)
    requires EntriesOk(s, slots)
    requires T(s, n).Some? && T(s, Child(n, i)).Some? && s'.root == s.root
    requires s'.mem(T(s, n).value, i) == 0
    requires AgreeBut(s.mem, s'.mem, s.root, n, i)
    requires forall k :: T(s', k).Some? ==> T(s', k) == T(s, k)
    requires forall g: nat :: Owned(s', g) <==> Owned(s, g)
    ensures EntriesOk(s', slots)
  {
    forall k, j: Index | Managed(slots, k) && T(s', k).Some? && Present(s'.mem(T(s', k).value, j))
      ensures if k.Depth() < 3 then !Large(s'.mem(T(s', k).value, j))
        else DataFrame(s', EntryAddr(s'.mem(T(s', k).value, j)))
    {
      assert !(k == n && j == i);
      assert s'.mem(T(s, k).value, j) == s.mem(T(s, k).value, j);
      assert !Owned(s, EntryAddr(s.mem(T(s, k).value, j))) || k.Depth() < 3;
    }
  }

  lemma NoHole(s: Machine, slots: set<Index>, n: Node)
    requires InvBut(s, slots, n) && Managed(slots, n) && T(s, n).Some? && s.refs(T(s, n).value) > 0
    ensures Inv(s, slots)
  {
  }

  /** Freeing the table under entry i of a counted table, as the code does it. */
  lemma DropIs(s: Machine, n: Node, i: Index)
    requires n.Child? && T(s, n).Some? && T(s, Child(n, i)).Some? && s.refs(T(s, n).value) > 0
    ensures DropEntry(FreePage(s, T(s, Child(n, i)).value), T(s, n).value, i) == Done(Freed(s, n, i))
  {
    hide T;
  }

  /** What is left of a node's table after its last child went. */
  lemma ReachedEnd(s0: Machine, s: Machine, slots: set<Index>, n: Node)
    requires Reached(s0, s, slots, n) && (n == Root || (Managed(slots, n) && s.refs(T(s, n).value) > 0))
    ensures Inv(s, slots) && SameOutside(s0, s)
  {
    hide SameOutside, T, TreeShaped, PoolOk, EntriesOk, Permissive;
    if n != Root {
      NoHole(s, slots, n);
    }
  }

  lemma PrunePdptKeeps(s0: Machine, s: Machine, slots: set<Index>, v: VPage)
    requires Reached(s0, s, slots, Pdpt(v)) && v.i4 in slots && T(s, Pdpt(v)).Some?
    ensures var r := PrunePdpt(s, v, T(s, Pdpt(v)).value); r.Done? && Inv(r.value, slots) && SameOutside(s0, r.value)
  {
    hide Reached, Inv, SameOutside, Present, EntryAddr, TableAt;
    PathFacts(v);
    assert T(s, Root) == Some(s.root) by { RootTable(s); }
    if s.refs(T(s, Pdpt(v)).value) > 0 {
      ReachedEnd(s0, s, slots, Pdpt(v));
    } else {
      FreedKeeps(s0, s, slots, Root, v.i4);
      ReachedEnd(s0, Freed(s, Root, v.i4), slots, Root);
    }
  }

  lemma RootTable(s: Machine)
    ensures T(s, Root) == Some(s.root)
  {
  }

  lemma PrunePdKeeps(s0: Machine, s: Machine, slots: set<Index>, v: VPage)
    requires Reached(s0, s, slots, Pd(v)) && v.i4 in slots && T(s, Pdpt(v)).Some? && T(s, Pd(v)).Some?
    ensures var r := PrunePd(s, v, T(s, Pdpt(v)).value, T(s, Pd(v)).value);
      r.Done? && Inv(r.value, slots) && SameOutside(s0, r.value)
  {
    hide Reached, Inv, SameOutside, Present, EntryAddr, TableAt, DropEntry, PrunePdpt, Freed;
    PathFacts(v);
    if s.refs(T(s, Pd(v)).value) > 0 {
      ReachedEnd(s0, s, slots, Pd(v));
    } else {
      FreedKeeps(s0, s, slots, Pdpt(v), v.i3);
      DropIs(s, Pdpt(v), v.i3);
      FreedRoot(s, Pdpt(v), v.i3);
      PrunePdptKeeps(s0, Freed(s, Pdpt(v), v.i3), slots, v);
    }
  }

  lemma FreedRoot(s: Machine, n: Node, i: Index)
    requires T(s, n).Some? && T(s, Child(n, i)).Some? && (n.Child? ==> s.refs(T(s, n).value) > 0)
    ensures Freed(s, n, i).root == s.root
  {
  }

  lemma PruneKeeps(s0: Machine, s: Machine, slots: set<Index>, v: VPage)
    requires Reached(s0, s, slots, Pt(v)) && v.i4 in slots
    requires T(s, Pdpt(v)).Some? && T(s, Pd(v)).Some?
    ensures var r := Prune(s, v, T(s, Pdpt(v)).value, T(s, Pd(v)).value, T(s, Pt(v)).value);
      r.Done? && Inv(r.value, slots) && SameOutside(s0, r.value)
  {
    assert T(s, Pt(v)).Some?;
    hide Reached, Inv, SameOutside, Present, EntryAddr, TableAt, DropEntry, PrunePd, Freed;
    PathFacts(v);
    if s.refs(T(s, Pt(v)).value) > 0 {
      ReachedEnd(s0, s, slots, Pt(v));
    } else {
      FreedKeeps(s0, s, slots, Pd(v), v.i2);
      DropIs(s, Pd(v), v.i2);
      FreedRoot(s, Pd(v), v.i2);
      PrunePdKeeps(s0, Freed(s, Pd(v), v.i2), slots, v);
    }
  }

  /** The frame mapped at v loses one reference; v loses its mapping with the last one. All
    * other walks, free and table frames together, and other counts are as before. */
  ghost predicate UnmapsOnly(s: Machine, s': Machine, v: VPage) {
    var before := Walk(s.mem, s.root, v);
    if before.None? then s' == s else
    var f := EntryAddr(before.value.word);
    && s'.root == s.root && s.refs(f) > 0
    && (forall u: VPage :: u.i4 != RECURSIVE_SLOT && u != v ==> Walk(s'.mem, s.root, u) == Walk(s.mem, s.root, u))
    && Walk(s'.mem, s.root, v) == (if s.refs(f) > 1 then before else None)
    && (forall g :: Owned(s', g) <==> Owned(s, g))
    && (forall g :: !Owned(s, g) ==> s'.refs(g) == if g == f then s.refs(f) - 1 else s.refs(g))
  }

  /** A mapped managed page is a 4 KiB leaf in its page table. */
  lemma ManagedWalk(s: Machine, slots: set<Index>, v: VPage)
    requires Inv(s, slots) && v.i4 in slots
    ensures Walk(s.mem, s.root, v).Some? ==> T(s, Pt(v)).Some? && Walk(s.mem, s.root, v).value.Leaf4K?
    ensures Walk(s.mem, s.root, v).Some? ==> DataFrame(s, EntryAddr(Walk(s.mem, s.root, v).value.word))
  {
    PathFacts(v);
    WalkByTables(s.mem, s.root, v);
    var t3, t2 := T(s, Pdpt(v)), T(s, Pd(v));
    assert t3.Some? && Present(s.mem(T(s, Pdpt(v)).value, v.i3)) ==> t2.Some?;
    assert t2.Some? && Present(s.mem(T(s, Pd(v)).value, v.i2)) ==> T(s, Pt(v)).Some?;
  }

  /** The page's own entry is cleared after its frame lost its last reference. */
  lemma ClearLeaf(s: Machine, slots: set<Index>, v: VPage)
    requires Inv(s, slots) && v.i4 in slots && Walk(s.mem, s.root, v).Some?
    requires s.refs(EntryAddr(Walk(s.mem, s.root, v).value.word)) == 1
    ensures T(s, Pt(v)).Some?
    ensures var t, f := T(s, Pt(v)).value, EntryAddr(Walk(s.mem, s.root, v).value.word);
      var s1 := DecPage(s, f).value;
      var r := DropEntry(s1, t, v.i1);
      && r.Done? && InvBut(r.value, slots, Pt(v)) && r.value.root == s.root
      && (forall k :: T(r.value, k) == T(s, k))
      && (forall u: VPage :: u.i4 != RECURSIVE_SLOT && u != v ==>
        Walk(r.value.mem, s.root, u) == Walk(s.mem, s.root, u))
      && Walk(r.value.mem, s.root, v).None?
      && (forall g :: Owned(r.value, g) <==> Owned(s, g))
      && (forall g :: !Owned(s, g) ==> r.value.refs(g) == if g == f then s.refs(f) - 1 else s.refs(g))
  {
    hide Large, EntryAddr, RightsIn, TableAt, Walk, TreeShaped, AgreeBut, Permissive;
    ManagedWalk(s, slots, v);
    PathFacts(v);
    WalkByTables(s.mem, s.root, v);
    var t, f := T(s, Pt(v)).value, EntryAddr(Walk(s.mem, s.root, v).value.word);
    CountZero(s.mem, t);
    assert IsTable(s.mem, s.root, t) && Managed(slots, Pt(v));
    var s2 := DropEntry(DecPage(s, f).value, t, v.i1).value;
    LeafWritten(s, slots, v, 0, s2.mem);
    LeafCounts(s, slots, Pt(v), v.i1, s2, Root, Pt(v));
    LeafEntries(s, slots, v, s2);
  }

  /** What the descent of unmap_page comes to. */
  lemma UnmapAtIs(s: Machine, slots: set<Index>, v: VPage)
    requires Inv(s, slots) && v.i4 in slots
    ensures var w := Walk(s.mem, s.root, v);
      if w.None? then UnmapAt(s, v) == Done(s)
      else
        var f := EntryAddr(w.value.word);
        && T(s, Pdpt(v)).Some? && T(s, Pd(v)).Some? && T(s, Pt(v)).Some?
        && (s.refs(f) == 0 ==> UnmapAt(s, v) == Panic)
        && (s.refs(f) > 1 ==> UnmapAt(s, v) == DecPage(s, f))
        && (s.refs(f) == 1 ==>
              var r := DropEntry(DecPage(s, f).value, T(s, Pt(v)).value, v.i1);
              r.Done? ==>
                UnmapAt(s, v) == Prune(r.value, v, T(s, Pdpt(v)).value, T(s, Pd(v)).value, T(s, Pt(v)).value))
  {
    hide Present, Large, EntryAddr, DropEntry, Prune;
    ManagedWalk(s, slots, v);
    WalkByTables(s.mem, s.root, v);
  }

  lemma LastUnmap(s: Machine, slots: set<Index>, v: VPage)
    requires Inv(s, slots) && v.i4 in slots && Walk(s.mem, s.root, v).Some?
    requires s.refs(EntryAddr(Walk(s.mem, s.root, v).value.word)) == 1
    ensures UnmapAt(s, v).Done? && Inv(UnmapAt(s, v).value, slots) && UnmapsOnly(s, UnmapAt(s, v).value, v)
  {
    hide Present, Large, EntryAddr, UnmapAt, DropEntry, Prune, Walk, TableAt, TreeShaped, PoolOk, CountsOk, EntriesOk;
    UnmapAtIs(s, slots, v);
    ClearLeaf(s, slots, v);
    var f := EntryAddr(Walk(s.mem, s.root, v).value.word);
    var s2 := DropEntry(DecPage(s, f).value, T(s, Pt(v)).value, v.i1).value;
    assert Reached(s2, s2, slots, Pt(v));
    PruneKeeps(s2, s2, slots, v);
  }

  lemma SharedUnmap(s: Machine, slots: set<Index>, v: VPage)
    requires Inv(s, slots) && v.i4 in slots && Walk(s.mem, s.root, v).Some?
    requires s.refs(EntryAddr(Walk(s.mem, s.root, v).value.word)) > 1
    ensures UnmapAt(s, v).Done? && Inv(UnmapAt(s, v).value, slots) && UnmapsOnly(s, UnmapAt(s, v).value, v)
  {
    hide Present, Large, EntryAddr, UnmapAt, Walk, TreeShaped, PoolOk, CountsOk, EntriesOk;
    UnmapAtIs(s, slots, v);
    ManagedWalk(s, slots, v);
    var f := EntryAddr(Walk(s.mem, s.root, v).value.word);
    DataRefsOnly(s, slots, f, s.refs(f) - 1);
  }

  lemma UnmapAtCorrect(s: Machine, slots: set<Index>, v: VPage)
    requires Inv(s, slots) && v.i4 in slots
    ensures var w := Walk(s.mem, s.root, v); UnmapAt(s, v).Done? <==> w.Some? ==> s.refs(EntryAddr(w.value.word)) > 0
    ensures UnmapAt(s, v).Done? ==> Inv(UnmapAt(s, v).value, slots) && UnmapsOnly(s, UnmapAt(s, v).value, v)
  {
    hide *;
    UnmapAtIs(s, slots, v);
    var w := Walk(s.mem, s.root, v);
    if w.None? {
      NothingUnmapped(s, v);
    } else if s.refs(EntryAddr(w.value.word)) == 1 {
      LastUnmap(s, slots, v);
    } else if s.refs(EntryAddr(w.value.word)) > 1 {
      SharedUnmap(s, slots, v);
    }
  }

  lemma NothingUnmapped(s: Machine, v: VPage)
    requires Walk(s.mem, s.root, v).None?
    ensures UnmapsOnly(s, s, v)
  {
  }

  /** The count of a data frame is no part of the invariant. */
  lemma DataRefsOnly(s: Machine, slots: set<Index>, f: nat, n: nat)
    requires Inv(s, slots) && DataFrame(s, f)
    ensures Inv(s.(refs := SetRef(s.refs, f, n)), slots)
  {
    var s' := s.(refs := SetRef(s.refs, f, n));
    forall k | Managed(slots, k) && T(s', k).Some?
      ensures s'.refs(T(s', k).value) == Count(s'.mem, T(s', k).value) > 0
    {
      assert T(s, k) == T(s', k) && IsTable(s.mem, s.root, T(s, k).value);
    }
  }

  /** unmap_page of a mapped page takes one reference from its frame, and removes the page
    * exactly when that was the last one; it panics exactly when there was none. */
  lemma UnmapPageCorrect(s: Machine, slots: set<Index>, virt: nat)
    requires Inv(s, slots) && Pml4i(virt) in slots
    ensures var w := Walk(s.mem, s.root, PageOf(virt));
      UnmapPage(s, virt).Done? <==> w.Some? ==> s.refs(EntryAddr(w.value.word)) > 0
    ensures UnmapPage(s, virt).Done? ==>
      Inv(UnmapPage(s, virt).value, slots) && UnmapsOnly(s, UnmapPage(s, virt).value, PageOf(virt))
  {
    UnmapAtCorrect(s, slots, PageOf(virt));
  }
}
