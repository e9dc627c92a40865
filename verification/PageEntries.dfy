/** Page-directory and page-table entries, as 32-bit words and as records.

    The kernel tests and rewrites single bits of a word; everything else in the project works on
    the records Pde and Pte.  The lemmas here show that each bit expression used by the pager is
    the record update that the model uses in its place. */
module PageEntries {

  /** Directory entry: `table` is the physical address of the page table. */
  datatype Pde = Pde(present: bool, writable: bool, user: bool, copyOnWrite: bool, table: int)

  /** Table entry: `frame` is the physical address of the page. */
  datatype Pte = Pte(present: bool, writable: bool, user: bool, copyOnWrite: bool, frame: int)

  /** Slots of a directory, entries of a table. */
  const SLOTS := 1024
  const ENTRIES := 1024

  const NO_TABLE := Pde(false, false, false, false, 0)
  const NO_PAGE := Pte(false, false, false, false, 0)

  function EmptyTable(): (r: seq<Pte>)
    ensures |r| == ENTRIES
  {
    seq(ENTRIES, i => NO_PAGE)
  }

  const PRESENT: bv32 := 0x01
  const WRITABLE: bv32 := 0x02
  const USER: bv32 := 0x04
  // The two levels use different bits for copy-on-write.
  const PTE_COW: bv32 := 0x100
  const PDE_COW: bv32 := 0x200
  const ADDRESS_MASK: bv32 := 0xFFFF_F000

  function DecodePde(w: bv32): Pde {
    Pde(w & PRESENT == PRESENT, w & WRITABLE == WRITABLE, w & USER == USER, w & PDE_COW == PDE_COW,
        (w & ADDRESS_MASK) as nat)
  }

  function DecodePte(w: bv32): Pte {
    Pte(w & PRESENT == PRESENT, w & WRITABLE == WRITABLE, w & USER == USER, w & PTE_COW == PTE_COW,
        (w & ADDRESS_MASK) as nat)
  }

  /** Record forms of the three rewrites the pager performs. */
  function ShareTable(d: Pde): Pde { d.(writable := false, copyOnWrite := true) }
  function ReleaseTable(d: Pde): Pde { d.(copyOnWrite := false, writable := true) }
  function DemotePage(e: Pte): Pte {
    if e.writable then e.(writable := false, copyOnWrite := true) else e
  }
  function ReleasePage(e: Pte): Pte { e.(copyOnWrite := false, writable := true) }

  /** What a demotion leaves of each flag: nobody may write the page, who could read it still can, and
      copy-on-write it is if it was writable or copy-on-write before. */
  lemma DemotedFlags(e: Pte)
    ensures DemotePage(e) == Pte(e.present, false, e.user, e.writable || e.copyOnWrite, e.frame)
  {
  }

  /** Fork clears the write bit and sets the directory's copy-on-write bit. */
  lemma ShareTableWord(w: bv32)
    ensures DecodePde((w & 0xFFFF_FFFD) | PDE_COW) == ShareTable(DecodePde(w))
  {
  }

  /** The last sharer of a table loses copy-on-write and becomes writable. */
  lemma ReleaseTableWord(w: bv32)
    ensures DecodePde((w & (0xFFFF_FFFF - PDE_COW)) | WRITABLE) == ReleaseTable(DecodePde(w))
  {
  }

  /** The word that the table copy loop stores in both tables. */
  function CopiedWord(w: bv32): bv32 {
    if w & WRITABLE == WRITABLE then (w & (0xFFFF_FFFF - WRITABLE)) | PTE_COW else w
  }

  /** Copying a table turns each entry whose write bit is set into a read-only copy-on-write one,
      whether or not it is present, and stores every other word as it is. */
  lemma DemotePageWord(w: bv32)
    ensures DecodePte(CopiedWord(w)) == DemotePage(DecodePte(w))
    ensures w & WRITABLE != WRITABLE ==> CopiedWord(w) == w
  {
    if w & WRITABLE == WRITABLE {
      WritableWord(w);
    } else {
      assert !DecodePte(w).writable;
    }
  }

  lemma WritableWord(w: bv32)
    requires w & WRITABLE == WRITABLE
    ensures DecodePte((w & (0xFFFF_FFFF - WRITABLE)) | PTE_COW) == DemotePage(DecodePte(w))
  {
    assert ((w & (0xFFFF_FFFF - WRITABLE)) | PTE_COW) & ADDRESS_MASK == w & ADDRESS_MASK;
  }

  lemma ReleasePageWord(w: bv32)
    ensures DecodePte((w & (0xFFFF_FFFF - PTE_COW)) | WRITABLE) == ReleasePage(DecodePte(w))
  {
  }

  /** The word written by pg_map; a physical address may carry stray low bits, which are dropped. */
  lemma MapWord(physical: bv32, supervisor: bool)
    ensures DecodePte((physical & ADDRESS_MASK) | (if supervisor then 0 else USER) | WRITABLE | PRESENT)
         == Pte(true, true, !supervisor, false, (physical & ADDRESS_MASK) as nat)
  {
  }

  /** The word written by pg_setup_pagetable. */
  lemma SetupWord(physical: bv32, supervisor: bool)
    ensures DecodePde(PRESENT | WRITABLE | (if supervisor then 0 else USER) | (physical & ADDRESS_MASK))
         == Pde(true, true, !supervisor, false, (physical & ADDRESS_MASK) as nat)
  {
  }

  /** Splitting a virtual page number into directory slot and table index loses nothing. */
  function Slot(page: nat): nat { page / 1024 }
  function Index(page: nat): nat { page % 1024 }
}
