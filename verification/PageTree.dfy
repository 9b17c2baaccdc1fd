/** Four-level page tables laid out in flat physical memory. */
module PageTree {
  import opened Wrappers
  import opened Linaddr

  /** Physical memory seen as tables: the word at (physical address of a frame, index). */
  type Memory = (nat, Index) -> nat

  function Write(m: Memory, f: nat, i: Index, w: nat): Memory {
    (g, j) => if g == f && j == i then w else m(g, j)
  }

  function ZeroFrame(m: Memory, f: nat): Memory {
    (g, j) => if g == f then 0 else m(g, j)
  }

  // ---- the hardware walk (sections 4.5 and 4.6 of the Intel SDM, Volume 3A) ----

  /** The entry that ends a walk, with the size of the page it maps and the rights that all
    * entries of the walk leave. */
  datatype Leaf =
    Leaf4K(word: nat, rights: Rights) | Leaf2M(word: nat, rights: Rights) | Leaf1G(word: nat, rights: Rights)

  function Walk(m: Memory, root: nat, v: VPage): Option<Leaf> {
    var e4 := m(root, v.i4);
    if !Present(e4) then None else
    var e3 := m(EntryAddr(e4), v.i3);
    if !Present(e3) then None else
    var r3 := Both(RightsIn(e4), RightsIn(e3));
    if Large(e3) then Some(Leaf1G(e3, r3)) else
    var e2 := m(EntryAddr(e3), v.i2);
    if !Present(e2) then None else
    var r2 := Both(r3, RightsIn(e2));
    if Large(e2) then Some(Leaf2M(e2, r2)) else
    var e1 := m(EntryAddr(e2), v.i1);
    if !Present(e1) then None else Some(Leaf4K(e1, Both(r2, RightsIn(e1))))
  }

  /** The physical address of a linear address: the page frame field of the leaf, cut to the
    * size of the page, and the low bits of the address. */
  function Translate(m: Memory, root: nat, a: nat): Option<nat> {
    match Walk(m, root, PageOf(a))
    case None => None
    case Some(Leaf4K(w, _)) => Some(EntryAddr(w) + a % PAGE_SIZE)
    case Some(Leaf2M(w, _)) => Some(EntryAddr(w) / TWO_21 * TWO_21 + a % TWO_21)
    case Some(Leaf1G(w, _)) => Some(EntryAddr(w) / TWO_30 * TWO_30 + a % TWO_30)
  }

  // ---- the tree of tables ----

  /** The position of a table: the indices that lead to it from the PML4. */
  datatype Node = Root | Child(parent: Node, i: Index) {
    function Depth(): nat {
      if Root? then 0 else parent.Depth() + 1
    }

    /** The PML4 slot a node hangs under. */
    function Slot(): Index
      requires Child?
    {
      if parent.Root? then i else parent.Slot()
    }
  }

  /** The frame of the table at a position, found by following present, not large entries. */
  function TableAt(m: Memory, root: nat, n: Node): Option<nat> {
    match n
    case Root => Some(root)
    case Child(p, i) =>
      var t := TableAt(m, root, p);
      if t.None? || p.Depth() >= 3 || n == Child(Root, RECURSIVE_SLOT) then None else
      var e := m(t.value, i);
      if Present(e) && (p.Root? || !Large(e)) then Some(EntryAddr(e)) else None
  }

  function Pdpt(v: VPage): Node { Child(Root, v.i4) }

  function Pd(v: VPage): Node { Child(Pdpt(v), v.i3) }

  function Pt(v: VPage): Node { Child(Pd(v), v.i2) }

  lemma PathFacts(v: VPage)
    ensures Pdpt(v).Depth() == 1 && Pd(v).Depth() == 2 && Pt(v).Depth() == 3
    ensures Pdpt(v).Slot() == v.i4 && Pd(v).Slot() == v.i4 && Pt(v).Slot() == v.i4
  {
    assert Root.Depth() == 0;
    assert Pd(v).Slot() == Pdpt(v).Slot();
    assert Pt(v).Slot() == Pd(v).Slot();
  }

  /** Each table frame is the table of one position only. */
  ghost predicate TreeShaped(m: Memory, root: nat) {
    forall n1, n2 :: TableAt(m, root, n1).Some? && TableAt(m, root, n1) == TableAt(m, root, n2) ==> n1 == n2
  }

  ghost predicate IsTable(m: Memory, root: nat, f: nat) {
    exists n :: TableAt(m, root, n) == Some(f)
  }

  /** m2 differs from m1 at most outside the tables of m1 and at entry i of the table at n. */
  ghost predicate AgreeBut(m1: Memory, m2: Memory, root: nat, n: Node, i: Index) {
    forall k: Node, j: Index {:trigger TableAt(m1, root, k), m2(TableAt(m1, root, k).value, j)} ::
      TableAt(m1, root, k).Some? && !(k == n && j == i) ==>
        m2(TableAt(m1, root, k).value, j) == m1(TableAt(m1, root, k).value, j)
  }

  /** The same nodes are tables, except that the table under entry i of node n comes or goes. */
  ghost predicate SameTablesBut(m1: Memory, m2: Memory, root: nat, c: Node) {
    forall k: Node :: k != c ==> TableAt(m2, root, k) == TableAt(m1, root, k)
  }

  /** Entry i of the table of node n, in frame t, leads to no table or to an empty one. */
  ghost predicate Barren(m: Memory, n: Node, t: nat, i: Index) {
    var e := m(t, i);
    n.Depth() >= 3 || !Present(e) || (n.Child? && Large(e)) || forall j: Index :: !Present(m(EntryAddr(e), j))
  }

  lemma Childless(m: Memory, root: nat, n: Node, i: Index, j: Index)
    requires var t := TableAt(m, root, n); t.Some? ==> Barren(m, n, t.value, i)
    ensures TableAt(m, root, Child(Child(n, i), j)).None?
  {
    var p := TableAt(m, root, Child(n, i));
    if p.Some? {
      assert !Present(m(p.value, j));
    }
  }

  /** Replacing a barren entry by a barren entry moves no other table. */
  lemma {:induction false} TablesStay(m1: Memory, m2: Memory, root: nat, n: Node, i: Index, k: Node)
    requires AgreeBut(m1, m2, root, n, i)
    requires TableAt(m1, root, n).Some?
    requires Barren(m1, n, TableAt(m1, root, n).value, i) && Barren(m2, n, TableAt(m1, root, n).value, i)
    requires k != Child(n, i)
    ensures TableAt(m2, root, k) == TableAt(m1, root, k)
  {
    match k
    case Root =>
    case Child(p, j) =>
      if p == Child(n, i) {
        TablesStay(m1, m2, root, n, i, n);
        Childless(m1, root, n, i, j);
        Childless(m2, root, n, i, j);
      } else {
        TablesStay(m1, m2, root, n, i, p);
      }
  }

  /** The walk read off the tree of tables. */
  lemma WalkByTables(m: Memory, root: nat, v: VPage)
    requires v.i4 != RECURSIVE_SLOT
    ensures TableAt(m, root, Pdpt(v)) == (if Present(m(root, v.i4)) then Some(EntryAddr(m(root, v.i4))) else None)
    ensures TableAt(m, root, Pt(v)).Some? ==> TableAt(m, root, Pd(v)).Some?
    ensures TableAt(m, root, Pd(v)).Some? ==> TableAt(m, root, Pdpt(v)).Some?
    ensures var t3, t2, t1 := TableAt(m, root, Pdpt(v)), TableAt(m, root, Pd(v)), TableAt(m, root, Pt(v));
      var r4 := RightsIn(m(root, v.i4));
      Walk(m, root, v) ==
        if t1.Some? then
          var e, r2 := m(t1.value, v.i1), RightsIn(m(t2.value, v.i2));
          var way := Both(Both(r4, RightsIn(m(t3.value, v.i3))), r2);
          if Present(e) then Some(Leaf4K(e, Both(way, RightsIn(e)))) else None
        else if t2.Some? then
          var e := m(t2.value, v.i2);
          if Present(e) then Some(Leaf2M(e, Both(Both(r4, RightsIn(m(t3.value, v.i3))), RightsIn(e)))) else None
        else if t3.Some? then
          var e := m(t3.value, v.i3);
          if Present(e) then Some(Leaf1G(e, Both(r4, RightsIn(e)))) else None
        else None
  {
    PathFacts(v);
    assert TableAt(m, root, Root) == Some(root);
    var t3 := TableAt(m, root, Pdpt(v));
    var t2 := TableAt(m, root, Pd(v));
  }

  /** A walk depends only on its four tables, and not on an entry below the PML4 that it does not read. */
  lemma SameWalk(m1: Memory, m2: Memory, root: nat, n: Node, i: Index, v: VPage)
    requires v.i4 != RECURSIVE_SLOT
    requires AgreeBut(m1, m2, root, n, i) && n.Child?
    requires forall k :: TableAt(m2, root, k) == TableAt(m1, root, k)
    requires !(n == Pt(v) && i == v.i1) && !(n == Pd(v) && i == v.i2) && !(n == Pdpt(v) && i == v.i3)
    ensures Walk(m2, root, v) == Walk(m1, root, v)
  {
    hide RightsIn, Present, Large, EntryAddr;
    WalkByTables(m1, root, v);
    WalkByTables(m2, root, v);
    assert TableAt(m1, root, Root) == Some(root);
  }

  /** Adding or removing an empty table changes no walk. */
  lemma EmptyTableWalk(m1: Memory, m2: Memory, root: nat, n: Node, i: Index, v: VPage)
    requires v.i4 != RECURSIVE_SLOT
    requires AgreeBut(m1, m2, root, n, i)
    requires SameTablesBut(m1, m2, root, Child(n, i))
    requires TableAt(m1, root, n).Some? && n.Depth() < 3
    requires TableAt(m1, root, Child(n, i)).None? && !Present(m1(TableAt(m1, root, n).value, i))
    requires var c := TableAt(m2, root, Child(n, i)); c.Some? && forall j: Index :: !Present(m2(c.value, j))
    ensures Walk(m2, root, v) == Walk(m1, root, v)
  {
    WalkByTables(m1, root, v);
    WalkByTables(m2, root, v);
    PathFacts(v);
  }
}
