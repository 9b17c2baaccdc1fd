/** The recursive page-table mapping: PML4 slot 0x1fe points to the PML4 itself
  * (kernel/arch/x86_64/paging.h, kernel/arch/x86_64/mman.c). */
module RecursiveMap {
  import opened Wrappers
  import opened Arith
  import opened Linaddr
  import opened PageTree

  /** (a >> (shift - 3)) masked to `width` bits with the low three clear: eight times the page
    * or table number of a, as a byte offset. */
  function Pml4ePtr(a: nat): nat {
    BuildLinaddr(0x1fe, 0x1fe, 0x1fe, 0x1fe, a / 0x10_0000_0000 % 0x1000 / 8 * 8)
  }

  function PdptePtr(a: nat): nat {
    BuildLinaddr(0x1fe, 0x1fe, 0x1fe, 0, a / 0x800_0000 % 0x20_0000 / 8 * 8)
  }

  function PdePtr(a: nat): nat {
    BuildLinaddr(0x1fe, 0x1fe, 0, 0, a / 0x4_0000 % 0x4000_0000 / 8 * 8)
  }

  function PtePtr(a: nat): nat {
    BuildLinaddr(0x1fe, 0, 0, 0, a / 0x200 % 0x80_0000_0000 / 8 * 8)
  }

  /** Masking 3 more bits and dropping the low three is masking after the shift by three. */
  lemma Masked(x: nat, n: nat)
    requires n > 0
    ensures 8 * n > 0 && x % (8 * n) / 8 == x / 8 % n
  {
    DivDiv(x, 8, n);
    var q, r, y := x / 8 / n, x / 8 % n, x / 8;
    assert y == q * n + r && x == 8 * y + x % 8;
    assert q * (8 * n) == 8 * (q * n);
    DivModUnique(x, 8 * n, q, 8 * r + x % 8);
  }

  lemma Pml4ePtrFields(a: nat)
    ensures PageOf(Pml4ePtr(a)) == VPage(0x1fe, 0x1fe, 0x1fe, 0x1fe) && Offset(Pml4ePtr(a)) == 8 * Pml4i(a)
  {
    Masked(a / 0x10_0000_0000, 512);
    BuildFields(0x1fe, 0x1fe, 0x1fe, 0x1fe, 8 * Pml4i(a));
  }

  lemma PdptePtrFields(a: nat)
    ensures PageOf(PdptePtr(a)) == VPage(0x1fe, 0x1fe, 0x1fe, Pml4i(a)) && Offset(PdptePtr(a)) == 8 * Pdpti(a)
  {
    Masked(a / 0x800_0000, TWO_18);
    Pages2(a);
    BuildFields(0x1fe, 0x1fe, 0x1fe, Pml4i(a), 8 * Pdpti(a));
  }

  lemma PdePtrFields(a: nat)
    ensures PageOf(PdePtr(a)) == VPage(0x1fe, 0x1fe, Pml4i(a), Pdpti(a)) && Offset(PdePtr(a)) == 8 * Pdi(a)
  {
    Masked(a / 0x4_0000, TWO_27);
    Pages3(a);
    BuildFields(0x1fe, 0x1fe, Pml4i(a), Pdpti(a), 8 * Pdi(a));
  }

  lemma PtePtrFields(a: nat)
    ensures PageOf(PtePtr(a)) == VPage(0x1fe, Pml4i(a), Pdpti(a), Pdi(a)) && Offset(PtePtr(a)) == 8 * Pti(a)
  {
    Masked(a / 0x200, 0x10_0000_0000);
    Pages4(a);
    BuildFields(0x1fe, Pml4i(a), Pdpti(a), Pdi(a), 8 * Pti(a));
  }

  /** The last digits in base 512. */
  lemma Digits(t: nat, n: nat)
    requires n > 0
    ensures 512 * n > 0 && t % (512 * n) == t / 512 % n * 512 + t % 512
  {
    var q, r := t / (512 * n), t % (512 * n);
    assert t == q * (512 * n) + r == (q * n + r / 512) * 512 + r % 512;
    DivModUnique(t, 512, q * n + r / 512, r % 512);
    DivModUnique(q * n + r / 512, n, q, r / 512);
  }

  lemma Pages2(a: nat)
    ensures a / 0x800_0000 / 8 % TWO_18 == Pml4i(a) * 512 + Pdpti(a)
  {
    var t := a / TWO_30;
    assert a / 0x800_0000 / 8 == t && a / TWO_39 == t / 512;
    Digits(t, 512);
  }

  lemma Pages3(a: nat)
    ensures a / 0x4_0000 / 8 % TWO_27 == (Pml4i(a) * 512 + Pdpti(a)) * 512 + Pdi(a)
  {
    var d := a / TWO_21;
    Pages2(a);
    assert a / 0x4_0000 / 8 == d && a / 0x800_0000 / 8 == d / 512;
    Digits(d, TWO_18);
  }

  lemma Pages4(a: nat)
    ensures a / 0x200 / 8 % 0x10_0000_0000 == ((Pml4i(a) * 512 + Pdpti(a)) * 512 + Pdi(a)) * 512 + Pti(a)
  {
    var p := a / PAGE_SIZE;
    Pages3(a);
    assert a / 0x200 / 8 == p && a / 0x4_0000 / 8 == p / 512;
    Digits(p, TWO_27);
  }

  /** With the recursive slot in place, the hardware walk of each pointer macro lands on the
    * entry of a at that level, as soon as the levels above lead there. */
  lemma RecursivePointers(m: Memory, root: nat, a: nat)
    requires Present(m(root, RECURSIVE_SLOT)) && !Large(m(root, RECURSIVE_SLOT))
    requires EntryAddr(m(root, RECURSIVE_SLOT)) == root
    requires !Large(m(root, Pml4i(a)))
    ensures Translate(m, root, Pml4ePtr(a)) == Some(root + 8 * Pml4i(a))
    ensures var e4 := m(root, Pml4i(a));
      Translate(m, root, PdptePtr(a)) == (if Present(e4) then Some(EntryAddr(e4) + 8 * Pdpti(a)) else None)
    ensures var e4 := m(root, Pml4i(a));
      var e3 := m(EntryAddr(e4), Pdpti(a));
      Translate(m, root, PdePtr(a)) == (if Present(e4) && Present(e3) then Some(EntryAddr(e3) + 8 * Pdi(a)) else None)
    ensures var e4 := m(root, Pml4i(a));
      var e3 := m(EntryAddr(e4), Pdpti(a));
      var e2 := m(EntryAddr(e3), Pdi(a));
      Present(e4) && Present(e3) && Present(e2) && !Large(e3) ==>
        Translate(m, root, PtePtr(a)) == Some(EntryAddr(e2) + 8 * Pti(a))
  {
    Pml4ePtrFields(a);
    PdptePtrFields(a);
    PdePtrFields(a);
    PtePtrFields(a);
  }
}
