/** Linear addresses and page-table words (kernel/arch/x86_64/paging.h).
  * Addresses and words are naturals below 2^64: `>> k` is division by 2^k and a mask of
  * low bits is a remainder. `|` of words with disjoint bits is their sum. */
module Linaddr {
  import opened Arith
  import opened Bits

  const PAGE_SIZE := 0x1000
  const TWO_18 := 0x4_0000
  const TWO_21 := 0x20_0000
  const TWO_27 := 0x800_0000
  const TWO_30 := 0x4000_0000
  const TWO_39 := 0x80_0000_0000
  const TWO_40 := 0x100_0000_0000
  const TWO_47 := 0x8000_0000_0000
  const TWO_48 := 0x1_0000_0000_0000
  const TWO_52 := 0x10_0000_0000_0000

  /** PML4 slot that points back to the PML4. */
  const RECURSIVE_SLOT: Index := 0x1fe

  type Index = i: nat | i < 512

  function Pml4i(a: nat): Index { a / TWO_39 % 512 }

  function Pdpti(a: nat): Index { a / TWO_30 % 512 }

  function Pdi(a: nat): Index { a / TWO_21 % 512 }

  function Pti(a: nat): Index { a / PAGE_SIZE % 512 }

  function Offset(a: nat): nat { a % PAGE_SIZE }

  /** The four table indices of a linear address. */
  datatype VPage = VPage(i4: Index, i3: Index, i2: Index, i1: Index)

  function PageOf(a: nat): VPage { VPage(Pml4i(a), Pdpti(a), Pdi(a), Pti(a)) }

  // ---- page-table words ----

  /** Bit 0, PAGE_PRESENT. */
  predicate Present(w: nat) { w % 2 == 1 }

  /** Bit 7, PAGE_PS. */
  predicate Large(w: nat) { w / 0x80 % 2 == 1 }

  /** What a word lets an access do: bit 1, PAGE_RW, set and bit 63, PAGE_NX, clear. */
  datatype Rights = Rights(write: bool, execute: bool)

  function RightsIn(w: nat): Rights { Rights(Bit(w, 1), !Bit(w, 63)) }

  /** What two words on one walk let an access do. */
  function Both(r1: Rights, r2: Rights): Rights { Rights(r1.write && r2.write, r1.execute && r2.execute) }

  const ALL_RIGHTS := Rights(true, true)

  /** w is phys | flags with the listed bits set as well. */
  ghost predicate IsOr(w: nat, phys: nat, flags: nat, bits: set<nat>) {
    forall k: nat :: Bit(w, k) <==> Bit(phys, k) || Bit(flags, k) || k in bits
  }

  /** TABLE_ENTRY_ADDR: bits 12 to 51. */
  function EntryAddr(w: nat): nat { w / PAGE_SIZE % TWO_40 * PAGE_SIZE }

  /** A page-aligned physical address of at most 52 bits. */
  predicate PhysPage(p: nat) { p % PAGE_SIZE == 0 && p < TWO_52 }

  /** Flag words leave the address bits alone. */
  predicate FlagsOk(flags: nat) { flags < TWO_64 && flags / PAGE_SIZE % TWO_40 == 0 }

  /** addr | PAGE_PRESENT | PAGE_RW */
  function TableWord(addr: nat): nat { addr + 3 }

  /** phys | PAGE_PRESENT | flags */
  function LeafWord(phys: nat, flags: nat): nat { phys + OrBit(flags, 1) }

  /** phys | PAGE_PRESENT | PAGE_RW | flags, after flags |= PAGE_PS */
  function LargeWord(phys: nat, flags: nat): nat { phys + OrBit(OrBit(OrBit(flags, 0x80), 1), 2) }

  lemma ZeroIsAbsent()
    ensures !Present(0)
  {
  }

  lemma TableWordFacts(addr: nat)
    requires PhysPage(addr)
    ensures Present(TableWord(addr)) && !Large(TableWord(addr)) && EntryAddr(TableWord(addr)) == addr
    ensures IsOr(TableWord(addr), addr, 0, {0, 1}) && RightsIn(TableWord(addr)) == ALL_RIGHTS
  {
    Split(addr / PAGE_SIZE, 3);
    TableIsOr(addr);
  }

  lemma TableIsOr(addr: nat)
    requires PhysPage(addr)
    ensures IsOr(TableWord(addr), addr, 0, {0, 1}) && RightsIn(TableWord(addr)) == ALL_RIGHTS
  {
    hide PhysPage, Bit, OrBit;
    forall k: nat ensures Bit(3, k) <==> Bit(0, k) || k in {0, 1} {
      LowFlags(k);
    }
    PlusIsOr(addr, 0, 3, {0, 1});
    Apart(addr, 0, 63);
    SmallHasNoBit(0, 63);
  }

  lemma LowFlags(k: nat)
    ensures Bit(3, k) <==> k in {0, 1}
    ensures !Bit(0, k)
  {
    SmallHasNoBit(0, k);
    OrSetsBit(0, 0, k);
    OrSetsBit(1, 1, k);
  }

  /** An address added to flags with some more low bits set. */
  lemma PlusIsOr(phys: nat, flags: nat, low: nat, bits: set<nat>)
    requires PhysPage(phys) && FlagsOk(flags)
    requires forall k: nat :: Bit(low, k) <==> Bit(flags, k) || k in bits
    requires forall k :: k in bits ==> k < 12
    ensures IsOr(phys + low, phys, flags, bits)
  {
    hide FlagsOk, PhysPage;
    forall k: nat ensures Bit(phys + low, k) <==> Bit(phys, k) || Bit(flags, k) || k in bits {
      forall j: nat ensures !(Bit(phys, j) && Bit(low, j)) {
        Apart(phys, flags, j);
      }
      SumIsOr(phys, low, k);
    }
  }

  /** An address has its bits in 12 to 51, and flags have none there. */
  lemma Apart(phys: nat, flags: nat, k: nat)
    requires PhysPage(phys) && FlagsOk(flags)
    ensures Bit(phys, k) ==> 12 <= k < 52
    ensures Bit(flags, k) ==> !(12 <= k < 52)
  {
    hide Bit, Pow, FlagsOk, PhysPage;
    var frame, top := WordParts(phys, flags);
    PowersOfTwo();
    SmallHasNoBit(0, k);
    BitOf(frame, 0, 12, k);
    BitOf(top * TWO_40, flags % PAGE_SIZE, 12, k);
    if k >= 12 {
      SmallHasNoBit(0, k - 12);
      BitOf(top, 0, 40, k - 12);
      if k >= 52 {
        SmallHasNoBit(0, k - 52);
        BitOf(0, frame, 40, k - 12);
      }
    }
  }

  lemma LeafWordFacts(phys: nat, flags: nat)
    requires PhysPage(phys) && FlagsOk(flags)
    ensures Present(LeafWord(phys, flags)) && EntryAddr(LeafWord(phys, flags)) == phys
    ensures Large(LeafWord(phys, flags)) <==> Large(flags)
    ensures IsOr(LeafWord(phys, flags), phys, flags, {0}) && RightsIn(LeafWord(phys, flags)) == RightsIn(flags)
  {
    LeafIsOr(phys, flags);
    var frame, top := WordParts(phys, flags);
    var low := flags % PAGE_SIZE;
    hide FlagsOk, PhysPage, OrBit;
    Split(top * TWO_40, low);
    OrPresent(top * TWO_40, low);
    var bits := OrBit(low, 1);
    assert LeafWord(phys, flags) == (top * TWO_40 + frame) * PAGE_SIZE + bits;
    hide LeafWord;
    Split(top * TWO_40 + frame, bits);
    DivModUnique(top * TWO_40 + frame, TWO_40, top, frame);
  }

  lemma LargeWordFacts(phys: nat, flags: nat)
    requires PhysPage(phys) && FlagsOk(flags)
    ensures Present(LargeWord(phys, flags)) && Large(LargeWord(phys, flags))
    ensures EntryAddr(LargeWord(phys, flags)) == phys
    ensures IsOr(LargeWord(phys, flags), phys, flags, {0, 1, 7})
    ensures RightsIn(LargeWord(phys, flags)) == Rights(true, RightsIn(flags).execute)
  {
    LargeIsOr(phys, flags);
    var frame, top := WordParts(phys, flags);
    hide FlagsOk, PhysPage, OrBit, Present, Large;
    var bits := LargeBits(top * TWO_40, flags % PAGE_SIZE);
    assert LargeWord(phys, flags) == (top * TWO_40 + frame) * PAGE_SIZE + bits;
    hide LargeWord;
    Split(top * TWO_40 + frame, bits);
    DivModUnique(top * TWO_40 + frame, TWO_40, top, frame);
  }

  lemma LeafIsOr(phys: nat, flags: nat)
    requires PhysPage(phys) && FlagsOk(flags)
    ensures IsOr(LeafWord(phys, flags), phys, flags, {0}) && RightsIn(LeafWord(phys, flags)) == RightsIn(flags)
  {
    hide FlagsOk, PhysPage, Bit, OrBit;
    assert Pow(2, 0) == 1;
    forall k: nat ensures Bit(OrBit(flags, 1), k) <==> Bit(flags, k) || k in {0} {
      OrSetsBit(flags, 0, k);
    }
    PlusIsOr(phys, flags, OrBit(flags, 1), {0});
    Apart(phys, flags, 1);
    Apart(phys, flags, 63);
  }

  lemma LargeIsOr(phys: nat, flags: nat)
    requires PhysPage(phys) && FlagsOk(flags)
    ensures IsOr(LargeWord(phys, flags), phys, flags, {0, 1, 7})
    ensures RightsIn(LargeWord(phys, flags)) == Rights(true, RightsIn(flags).execute)
  {
    hide FlagsOk, PhysPage, Bit, OrBit;
    assert Pow(2, 0) == 1 && Pow(2, 1) == 2 && Pow(2, 7) == 0x80;
    var w := OrBit(flags, 0x80);
    forall k: nat ensures Bit(OrBit(OrBit(w, 1), 2), k) <==> Bit(flags, k) || k in {0, 1, 7} {
      OrSetsBit(flags, 7, k);
      OrSetsBit(w, 0, k);
      OrSetsBit(OrBit(w, 1), 1, k);
    }
    PlusIsOr(phys, flags, OrBit(OrBit(w, 1), 2), {0, 1, 7});
    Apart(phys, flags, 63);
  }

  lemma PowersOfTwo()
    ensures Pow(2, 12) == PAGE_SIZE && Pow(2, 40) == TWO_40
  {
    PowAdd(2, 12, 12);
    PowAdd(2, 24, 12);
    PowAdd(2, 36, 4);
  }

  /** The page number of the address, and the flags above the address bits. */
  lemma WordParts(phys: nat, flags: nat) returns (frame: nat, top: nat)
    requires PhysPage(phys) && FlagsOk(flags)
    ensures phys == frame * PAGE_SIZE && frame < TWO_40
    ensures flags == top * TWO_40 * PAGE_SIZE + flags % PAGE_SIZE
  {
    frame, top := phys / PAGE_SIZE, flags / PAGE_SIZE / TWO_40;
  }

  /** The three flags of a large page, set in the low bits. */
  lemma LargeBits(page: nat, low: nat) returns (bits: nat)
    requires low < PAGE_SIZE
    ensures OrBit(OrBit(OrBit(page * PAGE_SIZE + low, 0x80), 1), 2) == page * PAGE_SIZE + bits
    ensures bits < PAGE_SIZE && Present(bits) && Large(bits)
  {
    OrLarge(page, low);
    var b1 := OrBit(low, 0x80);
    OrPresent(page, b1);
    var b2 := OrBit(b1, 1);
    OrWritable(page, b2);
    bits := OrBit(b2, 2);
    hide OrBit;
  }

  /** Setting a flag bit does not disturb the page number or the other flag bits. */
  lemma OrPresent(page: nat, low: nat)
    requires low < PAGE_SIZE
    ensures OrBit(page * PAGE_SIZE + low, 1) == page * PAGE_SIZE + OrBit(low, 1)
    ensures OrBit(low, 1) < PAGE_SIZE && Present(OrBit(low, 1)) && OrBit(low, 1) / 0x80 == low / 0x80
  {
    SplitBit(page, low, 1, 0x800);
    if low % 2 == 0 {
      NextInByte(low, 1, 0x40);
    }
  }

  lemma OrWritable(page: nat, low: nat)
    requires low < PAGE_SIZE
    ensures OrBit(page * PAGE_SIZE + low, 2) == page * PAGE_SIZE + OrBit(low, 2)
    ensures OrBit(low, 2) < PAGE_SIZE && OrBit(low, 2) % 2 == low % 2 && OrBit(low, 2) / 0x80 == low / 0x80
  {
    SplitBit(page, low, 2, 0x400);
    if low / 2 % 2 == 0 {
      NextInByte(low, 2, 0x20);
    }
  }

  lemma OrLarge(page: nat, low: nat)
    requires low < PAGE_SIZE
    ensures OrBit(page * PAGE_SIZE + low, 0x80) == page * PAGE_SIZE + OrBit(low, 0x80)
    ensures OrBit(low, 0x80) < PAGE_SIZE && OrBit(low, 0x80) % 2 == low % 2 && Large(OrBit(low, 0x80))
  {
    SplitBit(page, low, 0x80, 0x10);
    if low / 0x80 % 2 == 0 {
      var h, l := low / 0x80, low % 0x80;
      DivModUnique(low + 0x80, 0x80, h + 1, l);
      DivModUnique(h + 1, 2, h / 2, 1);
    }
  }

  /** A bit of weight `bit`, with 2 * bit * k == PAGE_SIZE, is not touched by the page number. */
  lemma SplitBit(page: nat, low: nat, bit: nat, k: nat)
    requires bit > 0 && 2 * bit * k == PAGE_SIZE
    ensures (page * PAGE_SIZE + low) / bit % 2 == low / bit % 2
  {
    var q, r := low / bit, low % bit;
    assert page * PAGE_SIZE == (page * k * 2) * bit;
    assert page * PAGE_SIZE + low == (page * k * 2 + q) * bit + r;
    DivModUnique(page * PAGE_SIZE + low, bit, page * k * 2 + q, r);
    DivModUnique(page * k * 2 + q, 2, page * k + q / 2, q % 2);
  }

  /** Setting a clear bit below bit 7 stays below bit 7. */
  lemma NextInByte(low: nat, bit: nat, k: nat)
    requires bit > 0 && 2 * bit * k == 0x80 && low / bit % 2 == 0
    ensures (low + bit) / 0x80 == low / 0x80
  {
    var h, r, d := low / bit / 2, low % bit, 2 * bit;
    assert low == h * d + r;
    DivModUnique(low, d, h, r);
    DivModUnique(low + bit, d, h, r + bit);
    DivDiv(low, d, k);
    DivDiv(low + bit, d, k);
  }

  /** The page number and the low bits of a word do not meet. */
  lemma Split(page: nat, low: nat)
    requires low < PAGE_SIZE
    ensures (page * PAGE_SIZE + low) / PAGE_SIZE == page
    ensures Large(page * PAGE_SIZE + low) <==> Large(low)
    ensures Present(page * PAGE_SIZE + low) <==> Present(low)
  {
    SplitBit(page, low, 0x80, 0x10);
    SplitBit(page, low, 1, 0x800);
    DivModUnique(page * PAGE_SIZE + low, PAGE_SIZE, page, low);
  }

  // ---- building addresses ----

  /** Bits 47 to 63 agree. */
  predicate Canonical(a: nat) {
    a < TWO_47 || TWO_64 - TWO_47 <= a < TWO_64
  }

  /** BUILD_LINADDR: the PML4 index is sign-extended from bit 47; the other fields do not
    * overlap, the offset filling the place of low fields that are zero. */
  function BuildLinaddr(i4: Index, i3: Index, i2: Index, i1: Index, offset: nat): nat {
    (if i4 >= 256 then TWO_64 - TWO_48 else 0) + i4 * TWO_39 + i3 * TWO_30 + i2 * TWO_21 + i1 * PAGE_SIZE + offset
  }

  /** An address is the indices and the offset that make it up. */
  lemma FieldsOf(a: nat)
    ensures a == a / TWO_48 * TWO_48 + Pml4i(a) * TWO_39 + Pdpti(a) * TWO_30 + Pdi(a) * TWO_21
      + Pti(a) * PAGE_SIZE + Offset(a)
  {
    assert a / TWO_21 == a / PAGE_SIZE / 512;
    assert a / TWO_30 == a / TWO_21 / 512;
    assert a / TWO_39 == a / TWO_30 / 512;
    assert a / TWO_48 == a / TWO_39 / 512;
  }

  /** The fields given to BUILD_LINADDR come back out of the address. */
  lemma BuildFields(i4: Index, i3: Index, i2: Index, i1: Index, offset: nat)
    requires offset < PAGE_SIZE
    ensures var a := BuildLinaddr(i4, i3, i2, i1, offset);
      PageOf(a) == VPage(i4, i3, i2, i1) && Offset(a) == offset && Canonical(a)
  {
    var a := BuildLinaddr(i4, i3, i2, i1, offset);
    var top := if i4 >= 256 then 0xffff else 0;
    assert a / PAGE_SIZE == (((top * 512 + i4) * 512 + i3) * 512 + i2) * 512 + i1;
    assert a / TWO_21 == ((top * 512 + i4) * 512 + i3) * 512 + i2;
    assert a / TWO_30 == (top * 512 + i4) * 512 + i3;
    assert a / TWO_39 == top * 512 + i4;
  }

  /** BUILD_LINADDR of the fields of a canonical address is the address. */
  lemma BuildOfFields(a: nat)
    requires Canonical(a)
    ensures BuildLinaddr(Pml4i(a), Pdpti(a), Pdi(a), Pti(a), Offset(a)) == a
  {
    FieldsOf(a);
    assert a / TWO_48 == if a < TWO_47 then 0 else 0xffff;
    assert a / TWO_39 == a / TWO_48 * 512 + Pml4i(a);
  }
}
