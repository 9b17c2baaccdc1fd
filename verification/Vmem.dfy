/** Virtual areas: allocation, release and lookup, on values (kernel/src/vmem.c). */
module Vmem {
  import opened Wrappers
  import opened Arith
  import opened Linaddr

  /** Sums and differences of 64-bit words. */
  function Add64(a: nat, b: nat): int { if a + b < TWO_64 then a + b else a + b - TWO_64 }

  function Sub64(a: nat, b: nat): nat { (a - b) % TWO_64 }

  datatype Area = Area(base: nat, size: nat, flags: nat) {
    function End(): nat { base + size }

    /** The fault handler's test; the end is computed in 64 bits. */
    predicate Has(x: nat) { base <= x < Add64(base, size) }
  }

  /** The areas in list order, and the number of spare list nodes. */
  datatype Vm = Vm(areas: seq<Area>, spare: nat)

  /** page_fault_handler's search: the flags of the first area that covers x. */
  function FlagsAt(areas: seq<Area>, x: nat): Option<nat> {
    if areas == [] then None
    else if areas[0].Has(x) then Some(areas[0].flags)
    else FlagsAt(areas[1..], x)
  }

  // ---- create_vma ----

  /** The number of leading areas that start before base. */
  function Before(areas: seq<Area>, base: nat): (k: nat)
    ensures k <= |areas|
    ensures forall i :: 0 <= i < k ==> areas[i].base < base
    ensures k < |areas| ==> areas[k].base >= base
  {
    if areas == [] || areas[0].base >= base then 0 else 1 + Before(areas[1..], base)
  }

  lemma BeforeFrom(areas: seq<Area>, k: nat, base: nat)
    requires k <= |areas|
    ensures Before(areas[k..], base) ==
      if k < |areas| && areas[k].base < base then 1 + Before(areas[k + 1..], base) else 0
  {
    assert k < |areas| ==> areas[k..][0] == areas[k] && areas[k..][1..] == areas[k + 1..];
  }

  function Inserted<T>(s: seq<T>, k: nat, x: T): seq<T>
    requires k <= |s|
  {
    s[..k] + [x] + s[k..]
  }

  function Removed<T>(s: seq<T>, k: nat): seq<T>
    requires k < |s|
  {
    s[..k] + s[k + 1..]
  }

  /** Panic stands for the allocator calling itself with its lock held. */
  function AddAt(vm: Vm, k: nat, a: Area): Outcome<Vm>
    requires k <= |vm.areas|
  {
    if vm.spare == 0 then Panic else Done(Vm(Inserted(vm.areas, k, a), vm.spare - 1))
  }

  // ---- vmalloc_at ----

  /** Area k ends at or after start and len free bytes follow it before the next area. */
  predicate Gap(areas: seq<Area>, k: nat, start: nat, len: nat) {
    k + 1 < |areas| && areas[k].End() >= start && areas[k].End() + len <= areas[k + 1].base
  }

  /** The gap search from area i on: where it stops, and whether that is a gap. */
  function Search(areas: seq<Area>, i: nat, start: nat, end: nat, len: nat): (r: (nat, bool))
    requires i < |areas|
    ensures i <= r.0 < |areas|
    ensures r.1 ==> Gap(areas, r.0, start, len)
    ensures forall k :: i <= k < r.0 ==> !Gap(areas, k, start, len)
    ensures !r.1 ==> r.0 + 1 == |areas| || (areas[r.0].End() >= start && areas[r.0].base >= end)
    decreases |areas| - i
  {
    if i + 1 == |areas| then (i, false)
    else if areas[i].End() >= start && areas[i].End() + len <= areas[i + 1].base then (i, true)
    else if areas[i].End() >= start && areas[i].base >= end then (i, false)
    else Search(areas, i + 1, start, end, len)
  }

  /** Area j grows to the right by len. */
  function Extended(areas: seq<Area>, j: nat, len: nat): seq<Area>
    requires j < |areas|
  {
    areas[j := areas[j].(size := areas[j].size + len)]
  }

  /** Area j takes len bytes and the whole of area j + 1, whose node is freed. */
  function Merged(areas: seq<Area>, j: nat, len: nat): seq<Area>
    requires j + 1 < |areas|
  {
    Removed(areas, j + 1)[j := areas[j].(size := areas[j].size + len + areas[j + 1].size)]
  }

  /** Area j + 1 grows to the left, down to the end of area j. */
  function Prepended(areas: seq<Area>, j: nat, len: nat): seq<Area>
    requires j + 1 < |areas|
  {
    areas[j + 1 := Area(areas[j].End(), areas[j + 1].size + len, areas[j + 1].flags)]
  }

  /** The new pages start where area j ends, before area j + 1. */
  function FillGap(vm: Vm, j: nat, len: nat, flags: nat): Outcome<Vm>
    requires j + 1 < |vm.areas|
  {
    var areas, addr := vm.areas, vm.areas[j].End();
    var joinsRight := addr + len == areas[j + 1].base && areas[j + 1].flags == flags;
    if areas[j].flags == flags then
      if joinsRight then Done(Vm(Merged(areas, j, len), vm.spare + 1)) else Done(vm.(areas := Extended(areas, j, len)))
    else if joinsRight then Done(vm.(areas := Prepended(areas, j, len)))
    else AddAt(vm, Before(areas, addr), Area(addr, len, flags))
  }

  function VmallocAt(vm: Vm, start: nat, end: nat, npages: nat, flags: nat): Outcome<(Vm, nat)> {
    var areas, len := vm.areas, npages * PAGE_SIZE;
    if areas == [] then
      var vm' :- AddAt(vm, 0, Area(start, len, flags));
      Done((vm', start))
    else if |areas| == 1 then
      if start + len <= areas[0].base then
        var vm' :- AddAt(vm, 0, Area(start, len, flags));
        Done((vm', start))
      else if areas[0].End() + len <= end then
        var vm' :- AddAt(vm, 1, Area(areas[0].End(), len, flags));
        Done((vm', areas[0].End()))
      else Panic
    else
      var (j, found) := Search(areas, 0, start, end, len);
      if found then
        var vm' :- FillGap(vm, j, len, flags);
        Done((vm', areas[j].End()))
      else if areas[j].End() + len <= end then
        // the source links the new node as the last one, after area j
        var vm' :- AddAt(vm.(areas := areas[..j + 1]), j + 1, Area(areas[j].End(), len, flags));
        Done((vm', areas[j].End()))
      else Panic
  }

  // ---- vfree ----

  /** The last area, from the second on, that starts at or before addr; else the first. */
  function Holder(areas: seq<Area>, i: nat, addr: nat): (k: nat)
    requires i < |areas|
    ensures i <= k < |areas|
    decreases |areas| - i
  {
    if i + 1 < |areas| && areas[i + 1].base <= addr then Holder(areas, i + 1, addr) else i
  }

  /** Area k loses its last len bytes. */
  function Shortened(areas: seq<Area>, k: nat, len: nat): seq<Area>
    requires k < |areas| && len <= areas[k].size
  {
    areas[k := areas[k].(size := areas[k].size - len)]
  }

  /** Area k starts len bytes later; the source leaves its size alone. */
  function Advanced(areas: seq<Area>, k: nat, len: nat): seq<Area>
    requires k < |areas|
  {
    areas[k := areas[k].(base := areas[k].base + len)]
  }

  /** Area k ends at addr, and a new area follows the freed bytes. The source sizes it from the
    * area it has just shortened, in 64 bits, and leaves the flags the spare node held. */
  function SplitAt(areas: seq<Area>, k: nat, addr: nat, len: nat, stale: nat): seq<Area>
    requires k < |areas| && areas[k].base <= addr
  {
    var front := areas[k].(size := addr - areas[k].base);
    Inserted(areas[k := front], k + 1, Area(addr + len, Sub64(front.End(), addr + len), stale))
  }

  function VfreeAt(vm: Vm, addr: nat, len: nat, stale: nat): Outcome<Vm> {
    if vm.areas == [] then Panic else
    var k := Holder(vm.areas, 0, addr);
    var a := vm.areas[k];
    if a.base > addr || addr + len > a.End() then Panic
    else if addr == a.base && len == a.size then Done(Vm(Removed(vm.areas, k), vm.spare + 1))
    else if addr == a.base then Done(vm.(areas := Advanced(vm.areas, k, len)))
    else if addr + len == a.End() then Done(vm.(areas := Shortened(vm.areas, k, len)))
    else if vm.spare == 0 then Panic
    else Done(Vm(SplitAt(vm.areas, k, addr, len, stale), vm.spare - 1))
  }

  /** The list part of vfree. stale is what the flags field of a spare node happens to hold. An
    * empty list is a null dereference in the source. */
  function Vfree(vm: Vm, address: nat, npages: nat, stale: nat): Outcome<Vm> {
    VfreeAt(vm, address - address % PAGE_SIZE, npages * PAGE_SIZE, stale)
  }

  // ---- the invariant ----

  /** Sorted, pairwise disjoint, not empty, below 2^64. */
  ghost predicate ListOk(areas: seq<Area>) {
    && (forall i :: 0 <= i < |areas| ==> areas[i].size > 0 && areas[i].End() < TWO_64)
    && (forall i, j :: 0 <= i < j < |areas| ==> areas[i].End() <= areas[j].base)
  }

  /** No sum in vmalloc_at leaves 64 bits. */
  ghost predicate NoWrap(areas: seq<Area>, start: nat, len: nat) {
    start + len < TWO_64 && forall i :: 0 <= i < |areas| ==> areas[i].End() + len < TWO_64
  }

  // ---- lookup ----

  lemma {:induction false} FlagsAtNone(areas: seq<Area>, x: nat)
    requires forall i :: 0 <= i < |areas| ==> !areas[i].Has(x)
    ensures FlagsAt(areas, x).None?
  {
    if areas != [] {
      forall i | 0 <= i < |areas[1..]| ensures !areas[1..][i].Has(x) {
        assert areas[1..][i] == areas[i + 1];
      }
      FlagsAtNone(areas[1..], x);
    }
  }

  lemma {:induction false} FlagsAtFirst(areas: seq<Area>, k: nat, x: nat)
    requires k < |areas| && areas[k].Has(x) && forall i :: 0 <= i < k ==> !areas[i].Has(x)
    ensures FlagsAt(areas, x) == Some(areas[k].flags)
  {
    if k > 0 {
      assert areas[1..][k - 1] == areas[k];
      forall i | 0 <= i < k - 1 ensures !areas[1..][i].Has(x) {
        assert areas[1..][i] == areas[i + 1];
      }
      FlagsAtFirst(areas[1..], k - 1, x);
    }
  }

  /** The search finds the area that covers an address, and there is only one. */
  lemma FindsTheArea(areas: seq<Area>, k: nat, x: nat)
    requires ListOk(areas) && k < |areas| && areas[k].Has(x)
    ensures FlagsAt(areas, x) == Some(areas[k].flags)
    ensures forall i :: 0 <= i < |areas| && areas[i].Has(x) ==> i == k
  {
    forall i | 0 <= i < |areas| && i != k ensures !areas[i].Has(x) {
      if i < k {
        assert areas[i].End() <= areas[k].base;
      } else {
        assert areas[k].End() <= areas[i].base;
      }
    }
    FlagsAtFirst(areas, k, x);
  }

  lemma {:induction false} FlagsAtConcat(a: seq<Area>, b: seq<Area>, x: nat)
    ensures FlagsAt(a + b, x) == if FlagsAt(a, x).Some? then FlagsAt(a, x) else FlagsAt(b, x)
  {
    if a == [] {
      assert a + b == b;
    } else {
      assert (a + b)[1..] == a[1..] + b;
      FlagsAtConcat(a[1..], b, x);
    }
  }

  // ---- what allocation does to coverage ----

  /** The range was free, is now covered with the given flags, and no other address changed. */
  ghost predicate Grows(areas: seq<Area>, areas': seq<Area>, addr: nat, len: nat, flags: nat) {
    && (forall x: nat :: addr <= x < addr + len ==> FlagsAt(areas, x).None?)
    && (forall x: nat :: FlagsAt(areas', x) == if addr <= x < addr + len then Some(flags) else FlagsAt(areas, x))
  }

  lemma Three(p: seq<Area>, m: seq<Area>, q: seq<Area>, x: nat)
    ensures FlagsAt(p + m + q, x) ==
      if FlagsAt(p, x).Some? then FlagsAt(p, x) else if FlagsAt(m, x).Some? then FlagsAt(m, x) else FlagsAt(q, x)
  {
    FlagsAtConcat(p + m, q, x);
    FlagsAtConcat(p, m, x);
  }

  /** Coverage by none, one and two areas. */
  lemma FewAreas()
    ensures forall x: nat :: FlagsAt([], x) == None
    ensures forall a: Area, x: nat :: FlagsAt([a], x) == if a.Has(x) then Some(a.flags) else None
    ensures forall a: Area, b: Area, x: nat ::
      FlagsAt([a, b], x) == if a.Has(x) then Some(a.flags) else if b.Has(x) then Some(b.flags) else None
  {
    forall a: Area, b: Area, x: nat
      ensures FlagsAt([a, b], x) == if a.Has(x) then Some(a.flags) else if b.Has(x) then Some(b.flags) else None
    {
      FlagsAtConcat([a], [b], x);
      assert [a] + [b] == [a, b];
    }
  }

  /** Replacing some areas in the middle by areas that cover the range as well. */
  lemma MiddleGrows(p: seq<Area>, m: seq<Area>, m': seq<Area>, q: seq<Area>, addr: nat, len: nat, flags: nat)
    requires forall x: nat :: addr <= x < addr + len ==>
      FlagsAt(p, x).None? && FlagsAt(m, x).None? && FlagsAt(q, x).None?
    requires forall x: nat :: FlagsAt(m', x) == if addr <= x < addr + len then Some(flags) else FlagsAt(m, x)
    ensures Grows(p + m + q, p + m' + q, addr, len, flags)
  {
    forall x: nat
      ensures addr <= x < addr + len ==> FlagsAt(p + m + q, x).None?
      ensures FlagsAt(p + m' + q, x) == if addr <= x < addr + len then Some(flags) else FlagsAt(p + m + q, x)
    {
      Three(p, m, q, x);
      Three(p, m', q, x);
    }
  }

  /** Areas that end before the range or start after it do not cover it. */
  lemma Apart(areas: seq<Area>, addr: nat, len: nat)
    requires forall i :: 0 <= i < |areas| ==>
      areas[i].End() < TWO_64 && (areas[i].End() <= addr || addr + len <= areas[i].base)
    ensures forall x: nat :: addr <= x < addr + len ==> FlagsAt(areas, x).None?
  {
    forall x: nat | addr <= x < addr + len ensures FlagsAt(areas, x).None? {
      FlagsAtNone(areas, x);
    }
  }

  lemma InsertOk(areas: seq<Area>, k: nat, a: Area)
    requires ListOk(areas) && k <= |areas| && a.size > 0 && a.End() < TWO_64
    requires k > 0 ==> areas[k - 1].End() <= a.base
    requires k < |areas| ==> a.End() <= areas[k].base
    ensures ListOk(Inserted(areas, k, a))
    ensures forall i :: 0 <= i < k ==> areas[i].End() <= a.base
    ensures forall i :: k <= i < |areas| ==> a.End() <= areas[i].base
  {
    InsertedAt(areas, k, a);
    hide Inserted;
    var areas' := Inserted(areas, k, a);
    forall i | 0 <= i < k ensures areas[i].End() <= a.base {
      assert i < k - 1 ==> areas[i].End() <= areas[k - 1].base;
    }
    forall i | k <= i < |areas| ensures a.End() <= areas[i].base {
      assert k < i ==> areas[k].End() <= areas[i].base;
    }
    forall i | 0 <= i < |areas'| ensures areas'[i].size > 0 && areas'[i].End() < TWO_64 {
      assert areas'[i] == (if i < k then areas[i] else if i == k then a else areas[i - 1]);
    }
    forall i, j | 0 <= i < j < |areas'| ensures areas'[i].End() <= areas'[j].base {
      assert areas'[i] == (if i < k then areas[i] else if i == k then a else areas[i - 1]);
      assert areas'[j] == (if j < k then areas[j] else if j == k then a else areas[j - 1]);
    }
  }

  lemma InsertedAt<T>(s: seq<T>, k: nat, x: T)
    requires k <= |s|
    ensures var s' := Inserted(s, k, x);
      |s'| == |s| + 1 && forall i :: 0 <= i < |s'| ==> s'[i] == if i < k then s[i] else if i == k then x else s[i - 1]
  {
  }

  /** The areas up to k and from l on leave the range alone. */
  lemma SidesApart(areas: seq<Area>, k: nat, l: nat, addr: nat, len: nat)
    requires ListOk(areas) && k <= l <= |areas|
    requires k > 0 ==> areas[k - 1].End() <= addr
    requires l < |areas| ==> addr + len <= areas[l].base
    ensures forall x: nat :: addr <= x < addr + len ==> FlagsAt(areas[..k], x).None? && FlagsAt(areas[l..], x).None?
  {
    Apart(areas[..k], addr, len);
    Apart(areas[l..], addr, len);
  }

  lemma SplitSeq<T>(s: seq<T>, k: nat, l: nat)
    requires k <= l <= |s|
    ensures s == s[..k] + s[k..l] + s[l..]
  {
  }

  lemma InsertGrows(areas: seq<Area>, k: nat, a: Area)
    requires ListOk(areas) && k <= |areas| && a.size > 0 && a.End() < TWO_64
    requires k > 0 ==> areas[k - 1].End() <= a.base
    requires k < |areas| ==> a.End() <= areas[k].base
    ensures ListOk(Inserted(areas, k, a)) && Grows(areas, Inserted(areas, k, a), a.base, a.size, a.flags)
    ensures |Inserted(areas, k, a)| == |areas| + 1
  {
    hide ListOk, FlagsAt, Grows;
    InsertOk(areas, k, a);
    SidesApart(areas, k, k, a.base, a.size);
    SplitSeq(areas, k, k);
    FewAreas();
    MiddleGrows(areas[..k], [], [a], areas[k..], a.base, a.size, a.flags);
  }

  lemma ReplaceOk(areas: seq<Area>, j: nat, a: Area)
    requires ListOk(areas) && j < |areas| && a.size > 0 && a.End() < TWO_64
    requires j > 0 ==> areas[j - 1].End() <= a.base
    requires j + 1 < |areas| ==> a.End() <= areas[j + 1].base
    ensures ListOk(areas[j := a])
  {
  }

  lemma RemoveOk(areas: seq<Area>, j: nat)
    requires ListOk(areas) && j < |areas|
    ensures ListOk(Removed(areas, j))
  {
    var s := Removed(areas, j);
    assert forall i :: 0 <= i < |s| ==> s[i] == areas[if i < j then i else i + 1];
  }

  lemma Neighbours(areas: seq<Area>, j: nat)
    requires ListOk(areas) && j < |areas|
    ensures areas[j].size > 0 && areas[j].End() < TWO_64
    ensures j > 0 ==> areas[j - 1].End() <= areas[j].base
    ensures j + 1 < |areas| ==>
      areas[j].End() <= areas[j + 1].base && areas[j + 1].size > 0 && areas[j + 1].End() < TWO_64
    ensures j + 2 < |areas| ==> areas[j + 1].End() <= areas[j + 2].base
  {
  }

  lemma ReplaceSplit<T>(s: seq<T>, j: nat, a: T)
    requires j < |s|
    ensures s == s[..j] + [s[j]] + s[j + 1..] && s[j := a] == s[..j] + [a] + s[j + 1..]
  {
  }

  lemma LeftGrows(areas: seq<Area>, j: nat, len: nat, flags: nat)
    requires ListOk(areas) && j + 1 < |areas| && areas[j].flags == flags
    requires areas[j].End() + len <= areas[j + 1].base
    ensures ListOk(Extended(areas, j, len)) && Grows(areas, Extended(areas, j, len), areas[j].End(), len, flags)
    ensures |Extended(areas, j, len)| == |areas|
  {
    hide ListOk, FlagsAt, Grows;
    var a := areas[j];
    var a' := a.(size := a.size + len);
    Neighbours(areas, j);
    ReplaceOk(areas, j, a');
    SidesApart(areas, j, j + 1, a.End(), len);
    ReplaceSplit(areas, j, a');
    FewAreas();
    MiddleGrows(areas[..j], [a], [a'], areas[j + 1..], a.End(), len, flags);
  }

  lemma RightGrows(areas: seq<Area>, j: nat, len: nat, flags: nat)
    requires ListOk(areas) && j + 1 < |areas| && areas[j + 1].flags == flags
    requires areas[j].End() + len == areas[j + 1].base
    ensures ListOk(Prepended(areas, j, len)) && Grows(areas, Prepended(areas, j, len), areas[j].End(), len, flags)
    ensures |Prepended(areas, j, len)| == |areas|
  {
    hide ListOk, FlagsAt, Grows;
    var a, addr := areas[j + 1], areas[j].End();
    var a' := Area(addr, a.size + len, flags);
    Neighbours(areas, j);
    ReplaceOk(areas, j + 1, a');
    SidesApart(areas, j + 1, j + 2, addr, len);
    ReplaceSplit(areas, j + 1, a');
    FewAreas();
    MiddleGrows(areas[..j + 1], [a], [a'], areas[j + 2..], addr, len, flags);
  }

  lemma UpdateThenRemove<T>(s: seq<T>, j: nat, a: T)
    requires j + 1 < |s|
    ensures Removed(s[j := a], j + 1) == Removed(s, j + 1)[j := a]
  {
  }

  lemma MergeSplit<T>(s: seq<T>, j: nat, a: T)
    requires j + 1 < |s|
    ensures s == s[..j] + [s[j], s[j + 1]] + s[j + 2..] && Removed(s, j + 1)[j := a] == s[..j] + [a] + s[j + 2..]
  {
  }

  lemma MergeGrows(areas: seq<Area>, j: nat, len: nat, flags: nat)
    requires ListOk(areas) && j + 1 < |areas| && areas[j].flags == flags && areas[j + 1].flags == flags
    requires areas[j].End() + len == areas[j + 1].base
    ensures ListOk(Merged(areas, j, len)) && Grows(areas, Merged(areas, j, len), areas[j].End(), len, flags)
    ensures |Merged(areas, j, len)| == |areas| - 1
  {
    hide ListOk, FlagsAt, Grows;
    var a, b := areas[j], areas[j + 1];
    var a' := a.(size := a.size + len + b.size);
    Neighbours(areas, j);
    RemoveOk(areas, j + 1);
    ReplaceOk(Removed(areas, j + 1), j, a');
    SidesApart(areas, j, j + 2, a.End(), len);
    MergeSplit(areas, j, a');
    FewAreas();
    MiddleGrows(areas[..j], [a, b], [a'], areas[j + 2..], a.End(), len, flags);
  }

  /** The new area goes right after area j. */
  lemma BeforeIsNext(areas: seq<Area>, j: nat)
    requires ListOk(areas) && j + 1 < |areas|
    ensures Before(areas, areas[j].End()) == j + 1
  {
    assert areas[j].base < areas[j].End() <= areas[j + 1].base;
    assert forall i :: 0 <= i <= j ==> areas[i].base <= areas[j].base;
  }

  lemma FillGapGrows(vm: Vm, j: nat, len: nat, flags: nat)
    requires ListOk(vm.areas) && j + 1 < |vm.areas| && len > 0
    requires vm.areas[j].End() + len <= vm.areas[j + 1].base
    requires FillGap(vm, j, len, flags).Done?
    ensures var vm' := FillGap(vm, j, len, flags).value;
      && ListOk(vm'.areas) && Grows(vm.areas, vm'.areas, vm.areas[j].End(), len, flags)
      && |vm'.areas| + vm'.spare == |vm.areas| + vm.spare
  {
    var areas, addr := vm.areas, vm.areas[j].End();
    hide ListOk, Grows, Before, Inserted, Merged, Extended, Prepended;
    Neighbours(areas, j);
    var joinsRight := addr + len == areas[j + 1].base && areas[j + 1].flags == flags;
    if areas[j].flags == flags {
      if joinsRight {
        MergeGrows(areas, j, len, flags);
      } else {
        LeftGrows(areas, j, len, flags);
      }
    } else if joinsRight {
      RightGrows(areas, j, len, flags);
    } else {
      BeforeIsNext(areas, j);
      InsertGrows(areas, j + 1, Area(addr, len, flags));
    }
  }

  /** vmalloc_at keeps the list sorted and disjoint through every arm; the returned range was
    * free and is now covered, with every other address as before; no list node is lost. */
  lemma VmallocCorrect(vm: Vm, start: nat, end: nat, npages: nat, flags: nat)
    requires ListOk(vm.areas) && npages > 0 && NoWrap(vm.areas, start, npages * PAGE_SIZE)
    requires VmallocAt(vm, start, end, npages, flags).Done?
    ensures var (vm', addr) := VmallocAt(vm, start, end, npages, flags).value;
      && ListOk(vm'.areas) && Grows(vm.areas, vm'.areas, addr, npages * PAGE_SIZE, flags)
      && |vm'.areas| + vm'.spare == |vm.areas| + vm.spare
  {
    var areas, len := vm.areas, npages * PAGE_SIZE;
    hide Grows;
    if areas == [] {
      InsertGrows(areas, 0, Area(start, len, flags));
    } else if |areas| == 1 {
      if start + len <= areas[0].base {
        InsertGrows(areas, 0, Area(start, len, flags));
      } else {
        InsertGrows(areas, 1, Area(areas[0].End(), len, flags));
      }
    } else {
      var (j, found) := Search(areas, 0, start, end, len);
      if found {
        FillGapGrows(vm, j, len, flags);
      } else {
        assert j + 1 == |areas| && areas[..j + 1] == areas;
        InsertGrows(areas, j + 1, Area(areas[j].End(), len, flags));
      }
    }
  }

  /** An area before the last that ends the gap search: it reaches start and begins at or past end. */
  predicate EndsSearch(areas: seq<Area>, k: nat, start: nat, end: nat) {
    k + 1 < |areas| && areas[k].End() >= start && areas[k].base >= end
  }

  /** While spare nodes are left, a request is refused if and only if every gap that would do lies behind an area that
    * ends the search, and there is such an area or nothing fits behind the last one. A single area refuses what fits
    * neither before nor behind it, and an empty list nothing. */
  lemma RefusedExactly(vm: Vm, start: nat, end: nat, npages: nat, flags: nat)
    requires vm.spare > 0 && ListOk(vm.areas)
    ensures var (areas, len) := (vm.areas, npages * PAGE_SIZE);
      VmallocAt(vm, start, end, npages, flags).Panic? <==>
        if areas == [] then false
        else if |areas| == 1 then start + len > areas[0].base && areas[0].End() + len > end
        else
          && (forall k: nat :: Gap(areas, k, start, len) ==> exists b: nat :: b < k && EndsSearch(areas, b, start, end))
          && ((exists b: nat :: EndsSearch(areas, b, start, end)) || areas[|areas| - 1].End() + len > end)
  {
    if |vm.areas| > 1 {
      var areas, len := vm.areas, npages * PAGE_SIZE;
      var (j, found) := Search(areas, 0, start, end, len);
      SearchPasses(areas, 0, start, end, len);
      hide Search, ListOk, Inserted, Before;
      assert !found && j + 1 < |areas| ==> EndsSearch(areas, j, start, end);
      assert found ==> Gap(areas, j, start, len);
      assert areas[j].size > 0;
    }
  }

  lemma {:induction false} SearchPasses(areas: seq<Area>, i: nat, start: nat, end: nat, len: nat)
    requires i < |areas|
    ensures forall k :: i <= k < Search(areas, i, start, end, len).0 ==> !EndsSearch(areas, k, start, end)
    ensures var (j, found) := Search(areas, i, start, end, len); !found ==> !Gap(areas, j, start, len)
    decreases |areas| - i
  {
    if i + 1 < |areas| && Search(areas, i, start, end, len).0 > i {
      SearchPasses(areas, i + 1, start, end, len);
    }
  }

  /** So a request is refused only when all gaps that would do lie at or past end and nothing fits behind the last
    * area; with one area, nothing fits before it either. An empty list never refuses. */
  lemma RefusedOnlyWhenFull(vm: Vm, start: nat, end: nat, npages: nat, flags: nat)
    requires vm.spare > 0 && VmallocAt(vm, start, end, npages, flags).Panic?
    requires ListOk(vm.areas)
    ensures vm.areas != []
    ensures |vm.areas| == 1 ==> start + npages * PAGE_SIZE > vm.areas[0].base
    ensures forall k: nat :: Gap(vm.areas, k, start, npages * PAGE_SIZE) ==> vm.areas[k].base >= end
    ensures vm.areas[|vm.areas| - 1].End() + npages * PAGE_SIZE > end
  {
    RefusedExactly(vm, start, end, npages, flags);
    hide VmallocAt;
  }

  // ---- where a request goes ----

  /** A gap that would do lies behind area k, and no area before k has one or ends the search. */
  ghost predicate FirstGap(areas: seq<Area>, k: nat, start: nat, end: nat, len: nat) {
    && Gap(areas, k, start, len)
    && forall b: nat :: b < k ==> !Gap(areas, b, start, len) && !EndsSearch(areas, b, start, end)
  }

  /** The address vmalloc_at returns: start, on an empty list or before a single area that begins late enough, and the
    * end of the single area otherwise; else the end of the area with the first gap, or of the last area. */
  ghost predicate Chosen(areas: seq<Area>, start: nat, end: nat, len: nat, addr: nat) {
    if areas == [] then addr == start
    else if |areas| == 1 then addr == if start + len <= areas[0].base then start else areas[0].End()
    else
      || (exists k: nat :: FirstGap(areas, k, start, end, len) && addr == areas[k].End())
      || ((forall k: nat :: !FirstGap(areas, k, start, end, len)) && addr == areas[|areas| - 1].End())
  }

  lemma VmallocChooses(vm: Vm, start: nat, end: nat, npages: nat, flags: nat)
    requires ListOk(vm.areas)
    ensures var r := VmallocAt(vm, start, end, npages, flags);
      r.Done? ==> Chosen(vm.areas, start, end, npages * PAGE_SIZE, r.value.1)
  {
    if |vm.areas| > 1 {
      var areas, len := vm.areas, npages * PAGE_SIZE;
      var (j, found) := Search(areas, 0, start, end, len);
      SearchPasses(areas, 0, start, end, len);
      LastStop(areas, start, end, len);
      hide Search, ListOk, Inserted, Before;
      assert found ==> FirstGap(areas, j, start, end, len);
      forall k: nat | !found && j + 1 == |areas| ensures !FirstGap(areas, k, start, end, len) {
        assert k < j ==> !Gap(areas, k, start, len);
      }
    }
  }

  /** A request at the first gap that fits, when the flags differ on both sides. */
  lemma OwnArea(vm: Vm, start: nat, end: nat, npages: nat, flags: nat, j: nat, k: nat)
    requires |vm.areas| > 1 && vm.spare > 0 && Gap(vm.areas, j, start, npages * PAGE_SIZE)
    requires forall i: nat :: i < j ==> !Gap(vm.areas, i, start, npages * PAGE_SIZE) && vm.areas[i].base < end
    requires vm.areas[j].flags != flags && vm.areas[j + 1].flags != flags
    requires k == Before(vm.areas, vm.areas[j].End())
    ensures VmallocAt(vm, start, end, npages, flags) ==
      Done((Vm(Inserted(vm.areas, k, Area(vm.areas[j].End(), npages * PAGE_SIZE, flags)), vm.spare - 1),
        vm.areas[j].End()))
  {
    SearchIs(vm.areas, 0, start, end, npages * PAGE_SIZE, j);
  }

  lemma {:induction false} SearchIs(areas: seq<Area>, i: nat, start: nat, end: nat, len: nat, j: nat)
    requires i <= j && Gap(areas, j, start, len)
    requires forall k: nat :: i <= k < j ==> !Gap(areas, k, start, len) && areas[k].base < end
    ensures Search(areas, i, start, end, len) == (j, true)
    decreases j - i
  {
    if i < j {
      assert !Gap(areas, i, start, len);
      SearchIs(areas, i + 1, start, end, len, j);
    }
  }

  /** A request for no pages leaves an empty area behind, and the next request at the same place
    * breaks the order of the list. */
  lemma NoPagesBreaksTheList(a: Area, b: Area, f: nat, g: nat, end: nat)
    requires ListOk([a, b]) && a.End() + PAGE_SIZE <= b.base && a.base < end && a.End() < end
    requires f != a.flags && f != b.flags && g != a.flags && g != b.flags && g != f
    ensures var vm1 := Vm([a, Area(a.End(), 0, f), b], 1);
      && VmallocAt(Vm([a, b], 2), 0, end, 0, f) == Done((vm1, a.End()))
      && VmallocAt(vm1, 0, end, 1, g) ==
        Done((Vm([a, Area(a.End(), PAGE_SIZE, g), Area(a.End(), 0, f), b], 0), a.End()))
  {
    var z, n := Area(a.End(), 0, f), Area(a.End(), PAGE_SIZE, g);
    BeforeIsOne([a, b]);
    OwnArea(Vm([a, b], 2), 0, end, 0, f, 0, 1);
    assert Inserted([a, b], 1, z) == [a, z, b];
    BeforeIsOne([a, z, b]);
    OwnArea(Vm([a, z, b], 1), 0, end, 1, g, 1, 1);
    assert Inserted([a, z, b], 1, n) == [a, n, z, b];
  }

  lemma BeforeIsOne(areas: seq<Area>)
    requires |areas| > 1 && areas[0].size > 0 && areas[1].base >= areas[0].End()
    ensures Before(areas, areas[0].End()) == 1
  {
  }

  // ---- requests for no pages ----

  /** A request for no pages is absorbed by a neighbour of the first gap. */
  predicate Absorbed(areas: seq<Area>, start: nat, end: nat, flags: nat) {
    |areas| > 1 &&
    var (j, found) := Search(areas, 0, start, end, 0);
    found && (areas[j].flags == flags || (areas[j].End() == areas[j + 1].base && areas[j + 1].flags == flags))
  }

  lemma EmptyAreaBreaks(areas: seq<Area>, k: nat, base: nat, flags: nat)
    requires k <= |areas|
    ensures !ListOk(Inserted(areas, k, Area(base, 0, flags)))
  {
    InsertedAt(areas, k, Area(base, 0, flags));
    assert Inserted(areas, k, Area(base, 0, flags))[k].size == 0;
  }

  lemma EmptyFill(vm: Vm, j: nat, flags: nat)
    requires ListOk(vm.areas) && j + 1 < |vm.areas| && FillGap(vm, j, 0, flags).Done?
    ensures ListOk(FillGap(vm, j, 0, flags).value.areas) <==>
      vm.areas[j].flags == flags || (vm.areas[j].End() == vm.areas[j + 1].base && vm.areas[j + 1].flags == flags)
    ensures ListOk(FillGap(vm, j, 0, flags).value.areas) ==>
      Grows(vm.areas, FillGap(vm, j, 0, flags).value.areas, vm.areas[j].End(), 0, flags)
  {
    var areas, addr := vm.areas, vm.areas[j].End();
    hide ListOk, Grows, Before, Inserted, Merged, Extended, Prepended;
    Neighbours(areas, j);
    if areas[j].flags == flags {
      if addr == areas[j + 1].base && areas[j + 1].flags == flags {
        MergeGrows(areas, j, 0, flags);
      } else {
        LeftGrows(areas, j, 0, flags);
      }
    } else if addr == areas[j + 1].base && areas[j + 1].flags == flags {
      RightGrows(areas, j, 0, flags);
    } else {
      EmptyAreaBreaks(areas, Before(areas, addr), addr, flags);
    }
  }

  /** A request for no pages keeps the list in order exactly when a neighbour of the first gap absorbs it, and
    * then no address changes. */
  lemma NoPagesExact(vm: Vm, start: nat, end: nat, flags: nat)
    requires ListOk(vm.areas) && VmallocAt(vm, start, end, 0, flags).Done?
    ensures var areas' := VmallocAt(vm, start, end, 0, flags).value.0.areas;
      && (ListOk(areas') <==> Absorbed(vm.areas, start, end, flags))
      && (ListOk(areas') ==> forall x: nat :: FlagsAt(areas', x) == FlagsAt(vm.areas, x))
  {
    var areas := vm.areas;
    hide ListOk, Inserted, FillGap, FlagsAt;
    if areas == [] {
      EmptyAreaBreaks(areas, 0, start, flags);
    } else if |areas| == 1 {
      if start <= areas[0].base {
        EmptyAreaBreaks(areas, 0, start, flags);
      } else {
        EmptyAreaBreaks(areas, 1, areas[0].End(), flags);
      }
    } else {
      var (j, found) := Search(areas, 0, start, end, 0);
      if found {
        EmptyFill(vm, j, flags);
      } else {
        EmptyAreaBreaks(areas[..j + 1], j + 1, areas[j].End(), flags);
      }
    }
  }

  // ---- vfree ----

  lemma {:induction false} HolderFrom(areas: seq<Area>, i: nat, k: nat, addr: nat)
    requires ListOk(areas) && i <= k < |areas| && areas[k].base <= addr < areas[k].End()
    ensures Holder(areas, i, addr) == k
    decreases k - i
  {
    if i < k {
      assert areas[i + 1].base <= areas[k].base;
      HolderFrom(areas, i + 1, k, addr);
    }
  }

  /** vfree's search finds the area that holds an address. */
  lemma HolderFinds(areas: seq<Area>, k: nat, addr: nat)
    requires ListOk(areas) && k < |areas| && areas[k].base <= addr < areas[k].End()
    ensures Holder(areas, 0, addr) == k
  {
    HolderFrom(areas, 0, k, addr);
  }

  /** The range is no longer covered and every other address is as before. */
  ghost predicate Shrinks(areas: seq<Area>, areas': seq<Area>, addr: nat, len: nat) {
    forall x: nat :: FlagsAt(areas', x) == if addr <= x < addr + len then None else FlagsAt(areas, x)
  }

  lemma MiddleShrinks(p: seq<Area>, m: seq<Area>, m': seq<Area>, q: seq<Area>, addr: nat, len: nat)
    requires forall x: nat :: addr <= x < addr + len ==> FlagsAt(p, x).None? && FlagsAt(q, x).None?
    requires forall x: nat :: FlagsAt(m', x) == if addr <= x < addr + len then None else FlagsAt(m, x)
    ensures Shrinks(p + m + q, p + m' + q, addr, len)
  {
    forall x: nat ensures FlagsAt(p + m' + q, x) == if addr <= x < addr + len then None else FlagsAt(p + m + q, x) {
      Three(p, m, q, x);
      Three(p, m', q, x);
    }
  }

  lemma RemovedShrinks(areas: seq<Area>, k: nat)
    requires ListOk(areas) && k < |areas|
    ensures ListOk(Removed(areas, k)) && Shrinks(areas, Removed(areas, k), areas[k].base, areas[k].size)
  {
    hide ListOk, FlagsAt, Shrinks;
    var a := areas[k];
    Neighbours(areas, k);
    RemoveOk(areas, k);
    SidesApart(areas, k, k + 1, a.base, a.size);
    ReplaceSplit(areas, k, a);
    assert Removed(areas, k) == areas[..k] + [] + areas[k + 1..];
    FewAreas();
    MiddleShrinks(areas[..k], [a], [], areas[k + 1..], a.base, a.size);
  }

  lemma ShortenedShrinks(areas: seq<Area>, k: nat, len: nat)
    requires ListOk(areas) && k < |areas| && len < areas[k].size
    ensures ListOk(Shortened(areas, k, len)) && Shrinks(areas, Shortened(areas, k, len), areas[k].End() - len, len)
  {
    hide ListOk, FlagsAt, Shrinks;
    var a := areas[k];
    var a' := a.(size := a.size - len);
    Neighbours(areas, k);
    ReplaceOk(areas, k, a');
    SidesApart(areas, k, k + 1, a.End() - len, len);
    ReplaceSplit(areas, k, a');
    FewAreas();
    MiddleShrinks(areas[..k], [a], [a'], areas[k + 1..], a.End() - len, len);
  }

  /** Freeing the head of an area moves the area instead: its end is covered although it was not,
    * or it runs into the next area. */
  lemma AdvancedIsWrong(areas: seq<Area>, k: nat, len: nat)
    requires ListOk(areas) && k < |areas| && 0 < len < areas[k].size
    ensures !(ListOk(Advanced(areas, k, len)) && Shrinks(areas, Advanced(areas, k, len), areas[k].base, len))
  {
    var a, areas' := areas[k], Advanced(areas, k, len);
    if ListOk(areas') {
      var x := a.End();
      assert areas'[k].End() == x + len;
      FindsTheArea(areas', k, x);
      forall i | 0 <= i < |areas| ensures !areas[i].Has(x) {
        if i < k {
          assert areas[i].End() <= areas[k].base;
        } else if k < i {
          assert areas'[k].End() <= areas'[i].base;
        }
      }
      FlagsAtNone(areas, x);
    }
  }

  /** Freeing the middle of an area leaves an empty area, or one that ends past 2^64. */
  lemma SplitIsWrong(areas: seq<Area>, k: nat, addr: nat, len: nat, stale: nat)
    requires ListOk(areas) && k < |areas| && areas[k].base <= addr && addr + len <= areas[k].End()
    ensures !ListOk(SplitAt(areas, k, addr, len, stale))
  {
    var front := areas[k].(size := addr - areas[k].base);
    var rest := Area(addr + len, Sub64(front.End(), addr + len), stale);
    InsertedAt(areas[k := front], k + 1, rest);
    Wrapped(len);
    assert SplitAt(areas, k, addr, len, stale)[k + 1] == rest;
  }

  lemma Wrapped(len: nat)
    requires len < TWO_64
    ensures (0 - len) % TWO_64 == if len == 0 then 0 else TWO_64 - len
  {
  }

  /** vfree frees exactly the range, and keeps the list in order, if and only if the range reaches
    * the end of its area (or is empty at its start). */
  lemma VfreeCorrect(vm: Vm, addr: nat, len: nat, stale: nat)
    requires ListOk(vm.areas) && VfreeAt(vm, addr, len, stale).Done?
    ensures var a := vm.areas[Holder(vm.areas, 0, addr)];
      var vm' := VfreeAt(vm, addr, len, stale).value;
      && (ListOk(vm'.areas) && Shrinks(vm.areas, vm'.areas, addr, len) <==>
        addr + len == a.End() || (len == 0 && addr == a.base))
      && |vm'.areas| + vm'.spare == |vm.areas| + vm.spare
  {
    var k := Holder(vm.areas, 0, addr);
    var a := vm.areas[k];
    hide ListOk, Shrinks, Removed, SplitAt, Holder;
    Neighbours(vm.areas, k);
    if addr == a.base && len == a.size {
      RemovedShrinks(vm.areas, k);
      assert |Removed(vm.areas, k)| == |vm.areas| - 1 by { RemovedLength(vm.areas, k); }
    } else if addr == a.base {
      if len == 0 {
        assert Advanced(vm.areas, k, 0) == vm.areas;
        assert Shrinks(vm.areas, vm.areas, addr, 0) by { NothingShrinks(vm.areas, addr); }
      } else {
        AdvancedIsWrong(vm.areas, k, len);
      }
    } else if addr + len == a.End() {
      ShortenedShrinks(vm.areas, k, len);
    } else {
      SplitIsWrong(vm.areas, k, addr, len, stale);
      SplitLength(vm.areas, k, addr, len, stale);
    }
  }

  lemma RemovedLength<T>(s: seq<T>, k: nat)
    requires k < |s|
    ensures |Removed(s, k)| == |s| - 1
  {
  }

  lemma SplitLength(areas: seq<Area>, k: nat, addr: nat, len: nat, stale: nat)
    requires k < |areas| && areas[k].base <= addr
    ensures |SplitAt(areas, k, addr, len, stale)| == |areas| + 1
  {
  }

  lemma NothingShrinks(areas: seq<Area>, addr: nat)
    ensures Shrinks(areas, areas, addr, 0)
  {
  }

  // ---- vfree after vmalloc_at ----

  /** The request was merged with the area to its right. */
  predicate JoinsRight(areas: seq<Area>, start: nat, end: nat, len: nat, flags: nat) {
    |areas| > 1 &&
    var (j, found) := Search(areas, 0, start, end, len);
    found && areas[j].End() + len == areas[j + 1].base && areas[j + 1].flags == flags
  }

  lemma UndoInsert(vm: Vm, k: nat, a: Area, stale: nat)
    requires k <= |vm.areas| && vm.spare > 0 && ListOk(Inserted(vm.areas, k, a)) && a.size > 0
    ensures VfreeAt(Vm(Inserted(vm.areas, k, a), vm.spare - 1), a.base, a.size, stale) == Done(vm)
  {
    var areas' := Inserted(vm.areas, k, a);
    InsertedAt(vm.areas, k, a);
    HolderFinds(areas', k, a.base);
    assert Removed(areas', k) == vm.areas;
  }

  lemma UndoExtend(vm: Vm, j: nat, len: nat, stale: nat)
    requires ListOk(vm.areas) && j < |vm.areas| && len > 0 && ListOk(Extended(vm.areas, j, len))
    ensures VfreeAt(vm.(areas := Extended(vm.areas, j, len)), vm.areas[j].End(), len, stale) == Done(vm)
  {
    var areas' := Extended(vm.areas, j, len);
    HolderFinds(areas', j, vm.areas[j].End());
    assert Shortened(areas', j, len) == vm.areas;
  }

  lemma MergedStays(vm: Vm, j: nat, len: nat, stale: nat)
    requires ListOk(vm.areas) && j + 1 < |vm.areas| && len > 0 && ListOk(Merged(vm.areas, j, len))
    requires vm.areas[j].End() + len == vm.areas[j + 1].base
    ensures VfreeAt(Vm(Merged(vm.areas, j, len), vm.spare + 1), vm.areas[j].End(), len, stale) != Done(vm)
  {
    var areas', addr := Merged(vm.areas, j, len), vm.areas[j].End();
    Neighbours(vm.areas, j);
    HolderFinds(areas', j, addr);
    SplitIsWrong(areas', j, addr, len, stale);
    hide ListOk;
  }

  lemma PrependedStays(vm: Vm, j: nat, len: nat, stale: nat)
    requires ListOk(vm.areas) && j + 1 < |vm.areas| && len > 0 && ListOk(Prepended(vm.areas, j, len))
    ensures VfreeAt(vm.(areas := Prepended(vm.areas, j, len)), vm.areas[j].End(), len, stale) != Done(vm)
  {
    var areas', addr := Prepended(vm.areas, j, len), vm.areas[j].End();
    Neighbours(vm.areas, j);
    HolderFinds(areas', j + 1, addr);
    assert Advanced(areas', j + 1, len)[j + 1].size != vm.areas[j + 1].size;
  }

  /** The four arms, with the place of a new area known. */
  lemma FillGapIs(vm: Vm, j: nat, len: nat, flags: nat)
    requires ListOk(vm.areas) && j + 1 < |vm.areas|
    ensures var areas, addr := vm.areas, vm.areas[j].End();
      var joinsRight := addr + len == areas[j + 1].base && areas[j + 1].flags == flags;
      FillGap(vm, j, len, flags) ==
        if areas[j].flags == flags && joinsRight then Done(Vm(Merged(areas, j, len), vm.spare + 1))
        else if areas[j].flags == flags then Done(vm.(areas := Extended(areas, j, len)))
        else if joinsRight then Done(vm.(areas := Prepended(areas, j, len)))
        else if vm.spare == 0 then Panic
        else Done(Vm(Inserted(areas, j + 1, Area(addr, len, flags)), vm.spare - 1))
  {
    BeforeIsNext(vm.areas, j);
    hide ListOk, Before, Inserted, Merged, Extended, Prepended;
  }

  lemma VfreeUndoesFillGap(vm: Vm, j: nat, len: nat, flags: nat, vm': Vm, stale: nat)
    requires ListOk(vm.areas) && j + 1 < |vm.areas| && len > 0 && vm.areas[j].End() + len <= vm.areas[j + 1].base
    requires FillGap(vm, j, len, flags) == Done(vm')
    ensures VfreeAt(vm', vm.areas[j].End(), len, stale) == Done(vm) <==>
      !(vm.areas[j].End() + len == vm.areas[j + 1].base && vm.areas[j + 1].flags == flags)
  {
    hide *;
    FillGapGrows(vm, j, len, flags);
    FillGapIs(vm, j, len, flags);
    var areas, addr := vm.areas, vm.areas[j].End();
    var joinsRight := addr + len == areas[j + 1].base && areas[j + 1].flags == flags;
    if areas[j].flags == flags {
      if joinsRight {
        MergedStays(vm, j, len, stale);
      } else {
        UndoExtend(vm, j, len, stale);
      }
    } else if joinsRight {
      PrependedStays(vm, j, len, stale);
    } else {
      UndoInsert(vm, j + 1, Area(addr, len, flags), stale);
    }
  }

  /** vfree of the range just returned gives back the areas and the number of spare nodes, if and
    * only if the range was not merged with the area to its right. */
  lemma VfreeUndoesVmalloc(vm: Vm, start: nat, end: nat, npages: nat, flags: nat, vm': Vm, addr: nat, stale: nat)
    requires ListOk(vm.areas) && npages > 0 && NoWrap(vm.areas, start, npages * PAGE_SIZE)
    requires VmallocAt(vm, start, end, npages, flags) == Done((vm', addr)) && addr % PAGE_SIZE == 0
    ensures Vfree(vm', addr, npages, stale) == Done(vm) <==>
      !JoinsRight(vm.areas, start, end, npages * PAGE_SIZE, flags)
  {
    VmallocCorrect(vm, start, end, npages, flags);
    if |vm.areas| <= 1 {
      UndoFew(vm, start, end, npages, flags, vm', addr, stale);
    } else {
      UndoMany(vm, start, end, npages, flags, vm', addr, stale);
    }
  }

  lemma UndoFew(vm: Vm, start: nat, end: nat, npages: nat, flags: nat, vm': Vm, addr: nat, stale: nat)
    requires |vm.areas| <= 1 && npages > 0 && ListOk(vm'.areas)
    requires VmallocAt(vm, start, end, npages, flags) == Done((vm', addr))
    ensures VfreeAt(vm', addr, npages * PAGE_SIZE, stale) == Done(vm)
  {
    hide VfreeAt, ListOk, Inserted;
    var a := Area(addr, npages * PAGE_SIZE, flags);
    UndoInsert(vm, if vm.areas == [] || start + npages * PAGE_SIZE <= vm.areas[0].base then 0 else 1, a, stale);
  }

  lemma UndoMany(vm: Vm, start: nat, end: nat, npages: nat, flags: nat, vm': Vm, addr: nat, stale: nat)
    requires |vm.areas| > 1 && npages > 0 && ListOk(vm.areas) && ListOk(vm'.areas)
    requires VmallocAt(vm, start, end, npages, flags) == Done((vm', addr))
    ensures VfreeAt(vm', addr, npages * PAGE_SIZE, stale) == Done(vm) <==>
      !JoinsRight(vm.areas, start, end, npages * PAGE_SIZE, flags)
  {
    hide VfreeAt, ListOk, Inserted, FillGap, Gap;
    var areas, len := vm.areas, npages * PAGE_SIZE;
    var (j, found) := Search(areas, 0, start, end, len);
    if found {
      GapFits(areas, j, start, len);
      VfreeUndoesFillGap(vm, j, len, flags, vm', stale);
    } else {
      LastStop(areas, start, end, len);
      assert areas[..j + 1] == areas;
      UndoInsert(vm, j + 1, Area(addr, len, flags), stale);
    }
  }

  lemma GapFits(areas: seq<Area>, j: nat, start: nat, len: nat)
    requires Gap(areas, j, start, len)
    ensures j + 1 < |areas| && areas[j].End() + len <= areas[j + 1].base
  {
  }

  /** Without a gap the allocation can only go behind the last area. */
  lemma LastStop(areas: seq<Area>, start: nat, end: nat, len: nat)
    requires ListOk(areas) && areas != []
    ensures var (j, found) := Search(areas, 0, start, end, len);
      !found && areas[j].End() + len <= end ==> j + 1 == |areas|
  {
  }

  // ---- runs of vmalloc_at ----

  datatype Request = Request(start: nat, end: nat, npages: nat, flags: nat) {
    function Len(): nat { npages * PAGE_SIZE }
  }

  /** The list after the requests, and the address each got. */
  function RunAlloc(vm: Vm, reqs: seq<Request>): (r: Outcome<(Vm, seq<nat>)>)
    ensures r.Done? ==> |r.value.1| == |reqs|
    decreases |reqs|
  {
    if reqs == [] then Done((vm, [])) else
    var (vm1, addr) :- VmallocAt(vm, reqs[0].start, reqs[0].end, reqs[0].npages, reqs[0].flags);
    var (vm2, rest) :- RunAlloc(vm1, reqs[1..]);
    Done((vm2, [addr] + rest))
  }

  /** All areas and all requests stay below bound, with room for one more request in 64 bits. */
  ghost predicate Bounded(areas: seq<Area>, reqs: seq<Request>, bound: nat) {
    && (forall i :: 0 <= i < |areas| ==> areas[i].End() <= bound)
    && (forall r :: r in reqs ==>
      r.npages > 0 && r.end <= bound && r.start + r.Len() <= bound && bound + r.Len() < TWO_64)
  }

  lemma StaysBounded(vm: Vm, r: Request, bound: nat)
    requires ListOk(vm.areas) && Bounded(vm.areas, [r], bound)
    requires VmallocAt(vm, r.start, r.end, r.npages, r.flags).Done?
    ensures NoWrap(vm.areas, r.start, r.Len())
    ensures var (vm', addr) := VmallocAt(vm, r.start, r.end, r.npages, r.flags).value;
      addr + r.Len() <= bound && forall i :: 0 <= i < |vm'.areas| ==> vm'.areas[i].End() <= bound
  {
    assert r in [r];
    VmallocCorrect(vm, r.start, r.end, r.npages, r.flags);
    var (vm', addr) := VmallocAt(vm, r.start, r.end, r.npages, r.flags).value;
    hide VmallocAt;
    forall i | 0 <= i < |vm'.areas| ensures vm'.areas[i].End() <= bound {
      var x := vm'.areas[i].End() - 1;
      FindsTheArea(vm'.areas, i, x);
      if x >= bound {
        FlagsAtNone(vm.areas, x);
      }
    }
  }

  /** No two ranges handed out overlap, each was free and is covered with its own flags, and all
    * other addresses are as before. */
  ghost predicate Granted(areas: seq<Area>, areas': seq<Area>, reqs: seq<Request>, addrs: seq<nat>)
    requires |addrs| == |reqs|
  {
    && (forall i, x: nat :: 0 <= i < |reqs| && addrs[i] <= x < addrs[i] + reqs[i].Len() ==>
          FlagsAt(areas, x).None? && FlagsAt(areas', x) == Some(reqs[i].flags))
    && (forall i, j :: 0 <= i < j < |reqs| ==>
      addrs[i] + reqs[i].Len() <= addrs[j] || addrs[j] + reqs[j].Len() <= addrs[i])
    && (forall x: nat :: (forall i :: 0 <= i < |reqs| ==> !(addrs[i] <= x < addrs[i] + reqs[i].Len())) ==>
          FlagsAt(areas', x) == FlagsAt(areas, x))
  }

  lemma GrantApart(areas: seq<Area>, areas1: seq<Area>, areas': seq<Area>, reqs: seq<Request>, addr: nat,
                   rest: seq<nat>, i: nat)
    requires |rest| == |reqs| - 1 && 1 <= i < |reqs| && reqs[0].npages > 0 && reqs[i].npages > 0
    requires Grows(areas, areas1, addr, reqs[0].Len(), reqs[0].flags) && Granted(areas1, areas', reqs[1..], rest)
    ensures addr + reqs[0].Len() <= rest[i - 1] || rest[i - 1] + reqs[i].Len() <= addr
  {
    var x := if addr <= rest[i - 1] then rest[i - 1] else addr;
    assert reqs[1..][i - 1] == reqs[i];
    assert x < addr + reqs[0].Len() ==> FlagsAt(areas1, x) == Some(reqs[0].flags);
    assert x < rest[i - 1] + reqs[i].Len() ==> FlagsAt(areas1, x) == None;
  }

  lemma RunStep(areas: seq<Area>, areas1: seq<Area>, areas': seq<Area>, reqs: seq<Request>, addr: nat, rest: seq<nat>)
    requires |rest| == |reqs| - 1 && forall r :: r in reqs ==> r.npages > 0
    requires Grows(areas, areas1, addr, reqs[0].Len(), reqs[0].flags) && Granted(areas1, areas', reqs[1..], rest)
    ensures Granted(areas, areas', reqs, [addr] + rest)
  {
    var addrs, tail := [addr] + rest, reqs[1..];
    forall i | 1 <= i < |reqs|
      ensures tail[i - 1] == reqs[i] && rest[i - 1] == addrs[i]
      ensures addr + reqs[0].Len() <= addrs[i] || addrs[i] + reqs[i].Len() <= addr
    {
      assert reqs[i] in reqs && reqs[0] in reqs;
      GrantApart(areas, areas1, areas', reqs, addr, rest, i);
    }
    forall i, x: nat | 0 <= i < |reqs| && addrs[i] <= x < addrs[i] + reqs[i].Len()
      ensures FlagsAt(areas, x).None? && FlagsAt(areas', x) == Some(reqs[i].flags)
    {
      if i > 0 {
        assert rest[i - 1] <= x < rest[i - 1] + tail[i - 1].Len();
      } else {
        forall k | 0 <= k < |tail| ensures !(rest[k] <= x < rest[k] + tail[k].Len()) {
          assert tail[k] == reqs[k + 1] && rest[k] == addrs[k + 1];
        }
      }
    }
    forall x: nat | forall i :: 0 <= i < |reqs| ==> !(addrs[i] <= x < addrs[i] + reqs[i].Len())
      ensures FlagsAt(areas', x) == FlagsAt(areas, x)
    {
      assert !(addrs[0] <= x < addrs[0] + reqs[0].Len());
      forall k | 0 <= k < |tail| ensures !(rest[k] <= x < rest[k] + tail[k].Len()) {
        assert !(addrs[k + 1] <= x < addrs[k + 1] + reqs[k + 1].Len());
      }
    }
  }

  /** Every run: the list stays in order, no two ranges handed out overlap, each is covered with
    * its own flags to the end of the run, and all other addresses are as at the start. */
  lemma {:induction false} RunAllocCorrect(vm: Vm, reqs: seq<Request>, bound: nat)
    requires ListOk(vm.areas) && Bounded(vm.areas, reqs, bound) && RunAlloc(vm, reqs).Done?
    ensures var (vm', addrs) := RunAlloc(vm, reqs).value; ListOk(vm'.areas) && Granted(vm.areas, vm'.areas, reqs, addrs)
    decreases |reqs|
  {
    if reqs != [] {
      var r := reqs[0];
      assert Bounded(vm.areas, [r], bound);
      StaysBounded(vm, r, bound);
      VmallocCorrect(vm, r.start, r.end, r.npages, r.flags);
      var (vm1, addr) := VmallocAt(vm, r.start, r.end, r.npages, r.flags).value;
      assert Bounded(vm1.areas, reqs[1..], bound);
      RunAllocCorrect(vm1, reqs[1..], bound);
      var (vm', rest) := RunAlloc(vm1, reqs[1..]).value;
      RunStep(vm.areas, vm1.areas, vm'.areas, reqs, addr, rest);
    }
  }

}
