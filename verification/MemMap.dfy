/** The boot loader's memory map, as mman_init reads it. */
module MemMap {
  import opened Linaddr

  datatype Kind = Usable | Reserved | AcpiReclaimable | AcpiNvs | BadMemory | BootloaderReclaimable | Executable
    | Framebuffer

  datatype Entry = Entry(base: nat, length: nat, kind: Kind) {
    function End(): nat { base + length }

    /** Part of the direct map. */
    predicate Mapped() { kind.Usable? || kind.BootloaderReclaimable? }
  }

  /** The page p is one the loops over the entry visit. */
  predicate Holds(e: Entry, p: nat) {
    e.End() > 0 && e.base / PAGE_SIZE <= p <= (e.End() - 1) / PAGE_SIZE
  }

  /** What the boot loader promises for the mapped entries: whole pages, none in two of them. */
  ghost predicate MapOk(entries: seq<Entry>) {
    && (forall e :: e in entries && e.Mapped() ==> e.base % PAGE_SIZE == 0 && e.length % PAGE_SIZE == 0)
    && (forall i, j, p: nat :: 0 <= i < j < |entries| && Holds(entries[i], p) && Holds(entries[j], p) ==>
          !(entries[i].Mapped() && entries[j].Mapped()))
  }
}
