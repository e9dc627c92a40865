/** One address space: a page directory, its page tables, and the operations that map and unmap
    single pages.  They refine a finite map from virtual page numbers to physical pages. */
module PageTables {
  import opened PageEntries
  import opened Words

  const PAGES := 0x10_0000

  /** One page table: a page of kernel memory together with its physical address. */
  class TablePage {
    const physical: int
    const entries: array<Pte>

    constructor (physical: int)
      ensures this.physical == physical && entries.Length == ENTRIES && fresh(entries)
    {
      this.physical := physical;
      entries := new Pte[ENTRIES](i => NO_PAGE);
    }
  }

  function PdeIndex(virt: Word): nat { virt / 0x40_0000 % 1024 }
  function PteIndex(virt: Word): nat { virt / 0x1000 % 1024 }
  function PageNumber(virt: Word): nat { virt / 0x1000 }

  // ----- Address spaces on values -----

  /** A table for each slot; a slot without a table translates nothing, like an empty one. */
  type Entries = es: seq<seq<Pte>> | |es| == SLOTS && forall i :: 0 <= i < SLOTS ==> |es[i]| == ENTRIES
    witness seq(SLOTS, i => seq(ENTRIES, j => NO_PAGE))

  function EntryOf(es: Entries, page: nat): Pte
    requires page < PAGES
  {
    es[Slot(page)][Index(page)]
  }

  /** The finite map an address space stands for. */
  function Translation(es: Entries): map<nat, int> {
    map page: nat | 0 <= page < PAGES && EntryOf(es, page).present :: EntryOf(es, page).frame
  }

  function SetEntries(es: Entries, slot: nat, index: nat, e: Pte): Entries
    requires slot < SLOTS && index < ENTRIES
  {
    es[slot := es[slot][index := e]]
  }

  /** Directory slot and table index of an address are its upper ten and its next ten bits; they determine
      its page, and every page arises. */
  lemma SplitIsBijection(virt: Word, other: Word)
    ensures virt == PdeIndex(virt) * 0x40_0000 + PteIndex(virt) * 0x1000 + virt % 0x1000
    ensures PdeIndex(virt) < SLOTS && PteIndex(virt) < ENTRIES
    ensures PdeIndex(virt) == Slot(PageNumber(virt)) && PteIndex(virt) == Index(PageNumber(virt))
    ensures PageNumber(virt) < PAGES
    ensures PageNumber(virt) == PageNumber(other) <==>
      PdeIndex(virt) == PdeIndex(other) && PteIndex(virt) == PteIndex(other)
  {
    assert virt / 0x40_0000 == virt / 0x1000 / 1024;
    assert other / 0x40_0000 == other / 0x1000 / 1024;
  }

  /** Storing one entry changes the translation of that one page. */
  lemma SetEntriesUpdates(es: Entries, page: nat, e: Pte)
    requires page < PAGES
    ensures Translation(SetEntries(es, Slot(page), Index(page), e)) ==
      if e.present then Translation(es)[page := e.frame] else Translation(es) - {page}
  {
  }

  /** Emptying one slot removes exactly its 1024 pages. */
  lemma EmptySlotRemoves(es: Entries, slot: nat)
    requires slot < SLOTS
    ensures Translation(es[slot := EmptyTable()]) ==
      Translation(es) - (set page: nat | page < PAGES && Slot(page) == slot)
  {
  }

  // ----- The structure and its operations -----

  /** struct pg_table_t: the directory holds physical addresses, `tables` the pointers. */
  class PageTable {
    const directory: array<Pde>
    const tables: array<TablePage?>

    constructor (directory: array<Pde>, tables: array<TablePage?>)
      ensures this.directory == directory && this.tables == tables
    {
      this.directory, this.tables := directory, tables;
    }

    /** Directory and pointers agree in every slot. */
    ghost predicate Valid()
      reads directory, tables
    {
      && directory.Length == SLOTS && tables.Length == SLOTS
      && (forall i :: 0 <= i < SLOTS && directory[i].present ==>
            tables[i] != null && directory[i].table == tables[i].physical != 0)
      && (forall i :: 0 <= i < SLOTS && !directory[i].present ==> tables[i] == null && directory[i].table == 0)
      && (forall i :: 0 <= i < SLOTS && tables[i] != null ==> tables[i].entries.Length == ENTRIES)
    }

    /** Different slots have different tables. */
    ghost predicate Separate()
      requires Valid()
      reads directory, tables
    {
      forall i, j :: 0 <= i < j < SLOTS && tables[i] != null && tables[j] != null ==>
        tables[i].entries != tables[j].entries
    }

    /** `t` is a page the allocator may hand out: not part of this address space. */
    ghost predicate Unused(t: TablePage)
      requires Valid()
      reads directory, tables
    {
      t.physical != 0 && t.entries.Length == ENTRIES &&
      forall i :: 0 <= i < SLOTS && tables[i] != null ==> tables[i].entries != t.entries
    }

    /** The table that serves a slot, if necessary after creating it. */
    function TableFor(slot: nat, newTable: TablePage?): TablePage?
      requires slot < tables.Length
      reads tables
    {
      if tables[slot] == null then newTable else tables[slot]
    }

    /** What creating or changing the slot's table writes to; nothing if there is none. */
    ghost function WriteSet(slot: nat, newTable: TablePage?): set<object>
      requires slot < tables.Length
      reads tables
    {
      if tables[slot] != null then {tables[slot].entries as object}
      else if newTable != null then {directory as object, tables as object, newTable.entries as object}
      else {}
    }

    ghost function TableArrays(): set<object>
      reads tables
    {
      set i | 0 <= i < tables.Length && tables[i] != null :: tables[i].entries
    }

    ghost function Slots(): Entries
      requires Valid()
      reads directory, tables, TableArrays()
    {
      seq(SLOTS, i requires 0 <= i < SLOTS && Valid() reads directory, tables, TableArrays() =>
        if tables[i] == null then EmptyTable() else
        assert tables[i].entries in TableArrays(); tables[i].entries[..])
    }

    /** pg_get_physical */
    method GetPhysical(virt: Word) returns (physical: int)
      requires Valid() && tables[PdeIndex(virt)] != null
      ensures physical == EntryOf(Slots(), PageNumber(virt)).frame
      ensures PageNumber(virt) in Translation(Slots()) ==> physical == Translation(Slots())[PageNumber(virt)]
    {
      SplitIsBijection(virt, virt);
      physical := tables[PdeIndex(virt)].entries[PteIndex(virt)].frame;
    }

    /** pg_setup_pagetable: creates the slot's table if there is none, and clears it either way.
        `newTable` is what kalloc_page returns; if that is NULL, the clearing would dereference it:
        `lost`. */
    method SetupPageTable(virt: Word, supervisor: bool, newTable: TablePage?) returns (lost: bool)
      requires Valid() && (tables[PdeIndex(virt)] == null && newTable != null ==> Unused(newTable))
      modifies WriteSet(PdeIndex(virt), newTable)
      ensures Valid() && (lost <==> old(TableFor(PdeIndex(virt), newTable)) == null)
      ensures var slot := PdeIndex(virt); var t := old(TableFor(slot, newTable)); t != null ==>
        tables[..] == old(tables[..])[slot := t] && t.entries[..] == EmptyTable() &&
        directory[..] == if old(tables[slot]) == null
          then old(directory[..])[slot := Pde(true, true, !supervisor, false, newTable.physical)]
          else old(directory[..])
    {
      var slot := PdeIndex(virt);
      lost := false;
      if tables[slot] == null {
        if newTable == null {
          return true;
        }
        tables[slot] := newTable;
        directory[slot] := Pde(true, true, !supervisor, false, newTable.physical);
      }
      var t: TablePage := tables[slot];
      var i := 0;
      while i < ENTRIES
        invariant 0 <= i <= ENTRIES
        invariant t.entries[..i] == EmptyTable()[..i]
        modifies t.entries
      {
        t.entries[i] := NO_PAGE;
        i := i + 1;
      }
    }

    /** pg_map */
    method Map(virt: Word, physical: int, supervisor: bool, newTable: TablePage?) returns (lost: bool)
      requires Valid() && Separate() && (tables[PdeIndex(virt)] == null && newTable != null ==> Unused(newTable))
      modifies WriteSet(PdeIndex(virt), newTable)
      ensures Valid() && Separate() && (lost <==> old(TableFor(PdeIndex(virt), newTable)) == null)
      ensures !lost ==> Translation(Slots()) == old(Translation(Slots()))[PageNumber(virt) := physical]
      ensures var slot := PdeIndex(virt); var t := old(TableFor(slot, newTable)); t != null ==>
        var before := if old(tables[slot]) == null then EmptyTable() else old(t.entries[..]);
        tables[..] == old(tables[..])[slot := t] &&
        t.entries[..] == before[PteIndex(virt) := Pte(true, true, !supervisor, false, physical)] &&
        directory[..] == if old(tables[slot]) == null
          then old(directory[..])[slot := Pde(true, true, !supervisor, false, newTable.physical)]
          else old(directory[..])
    {
      var slot := PdeIndex(virt);
      ghost var before := Slots();
      lost := false;
      if directory[slot].table == 0 {
        lost := SetupPageTable(virt, supervisor, newTable);
        if lost {
          return;
        }
      }
      assert Slots() == before;
      var e := Pte(true, true, !supervisor, false, physical);
      tables[slot].entries[PteIndex(virt)] := e;
      SplitIsBijection(virt, virt);
      assert Slots() == SetEntries(before, slot, PteIndex(virt), e);
      SetEntriesUpdates(before, PageNumber(virt), e);
    }

    /** pg_unmap */
    method Unmap(virt: Word)
      requires Valid() && Separate()
      modifies if tables[PdeIndex(virt)] == null then {} else {tables[PdeIndex(virt)].entries}
      ensures Translation(Slots()) == old(Translation(Slots())) - {PageNumber(virt)}
      ensures var slot := PdeIndex(virt); tables[slot] != null ==>
        tables[slot].entries[..] == old(tables[slot].entries[..])[PteIndex(virt) := NO_PAGE]
    {
      var slot := PdeIndex(virt);
      ghost var before := Slots();
      SplitIsBijection(virt, virt);
      SetEntriesUpdates(before, PageNumber(virt), NO_PAGE);
      if directory[slot].table == 0 {
        assert EmptyTable()[PteIndex(virt) := NO_PAGE] == EmptyTable();
        assert SetEntries(before, slot, PteIndex(virt), NO_PAGE) == before;
        return;
      }
      tables[slot].entries[PteIndex(virt)] := NO_PAGE;
      assert Slots() == SetEntries(before, slot, PteIndex(virt), NO_PAGE);
    }

    /** pg_remove_pagetable */
    method RemovePageTable(virt: Word) returns (addr: int)
      requires Valid() && Separate()
      modifies directory, tables
      ensures Valid() && Separate()
      ensures addr == old(directory[PdeIndex(virt)].table)
      ensures Translation(Slots()) == old(Translation(Slots())) -
        (set page: nat | page < PAGES && Slot(page) == PdeIndex(virt))
    {
      var slot := PdeIndex(virt);
      ghost var before := Slots();
      addr := directory[slot].table;
      directory[slot] := NO_TABLE;
      tables[slot] := null;
      assert Slots() == before[slot := EmptyTable()];
      EmptySlotRemoves(before, slot);
    }
  }
}
