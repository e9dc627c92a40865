/** The pager: fork of an address space and resolution of page faults, working in place on
    directories, page tables, physical pages and the process list.  Represents(m) says that the real
    objects hold the abstract state m of module CowModel; the methods are proved to take an m to the
    m that the corresponding function of CowModel computes. */
module Pager {
  import opened PageEntries
  import opened PageTables
  import opened Words
  import M = CowModel
  import F = CowFault
  import R = CowRefinement

  // ----- What the kernel's objects look like as values -----

  /** An address space is well-formed, its tables are known, and its directory is `dir`. */
  ghost predicate SpaceOk(space: PageTable, tableAt: map<int, TablePage>, dir: seq<Pde>)
    reads space.directory, space.tables
  {
    && space.Valid() && space.Separate() && space.directory[..] == dir
    && (forall i {:trigger space.tables[i]} :: 0 <= i < SLOTS && space.tables[i] != null ==>
          space.tables[i].physical in tableAt && tableAt[space.tables[i].physical] == space.tables[i])
  }

  ghost predicate SpacesOk(spaces: map<int, PageTable>, tableAt: map<int, TablePage>, dirs: map<int, seq<Pde>>)
    reads set n | n in spaces :: spaces[n].directory
    reads set n | n in spaces :: spaces[n].tables
  {
    && spaces.Keys == dirs.Keys
    && (forall n :: n in spaces ==> SpaceOk(spaces[n], tableAt, dirs[n]))
    && (forall n, n' :: n in spaces && n' in spaces && n != n' ==>
          spaces[n].directory != spaces[n'].directory && spaces[n].tables != spaces[n'].tables)
  }

  /** No directory or pointer array is an array of table entries or words. */
  lemma DirectoriesApart(spaces: map<int, PageTable>, entries: set<array<Pte>>, words: array<Word>)
    ensures forall n :: n in spaces ==>
      (forall a :: a in entries ==> a as object != spaces[n].directory && a as object != spaces[n].tables) &&
      words as object != spaces[n].directory && words as object != spaces[n].tables
  {
  }

  ghost predicate TablesOk(tableAt: map<int, TablePage>, tables: map<int, seq<Pte>>)
    reads set t | t in tableAt :: tableAt[t].entries
  {
    && tableAt.Keys == tables.Keys
    && (forall t :: t in tableAt ==> tableAt[t].physical == t && tableAt[t].entries.Length == ENTRIES)
    && (forall t :: t in tableAt ==> tableAt[t].entries[..] == tables[t])
    && (forall t, t' :: t in tableAt && t' in tableAt && t != t' ==> tableAt[t].entries != tableAt[t'].entries)
  }

  ghost predicate FramesOk(memory: map<int, array<Word>>, frames: map<int, seq<Word>>)
    reads set f | f in memory :: memory[f]
  {
    && memory.Keys == frames.Keys
    && (forall f :: f in memory ==> memory[f].Length == M.WORDS && memory[f][..] == frames[f])
    && (forall f, f' :: f in memory && f' in memory && f != f' ==> memory[f] != memory[f'])
  }

  ghost function Arrays(spaces: map<int, PageTable>, tableAt: map<int, TablePage>,
      memory: map<int, array<Word>>): set<object>
  {
    (set p | p in spaces :: spaces[p].directory as object) + (set p | p in spaces :: spaces[p].tables as object) +
    (set t | t in tableAt :: tableAt[t].entries as object) + (set f | f in memory :: memory[f] as object)
  }

  lemma ArraysGrow(spaces: map<int, PageTable>, tableAt: map<int, TablePage>,
      memory: map<int, array<Word>>, t: TablePage)
    ensures Arrays(spaces, tableAt[t.physical := t], memory) <= Arrays(spaces, tableAt, memory) + {t.entries}
  {
  }

  // ----- Single stores -----

  /** Rewrites the flags of one directory entry. */
  method SetDirectoryEntry(ghost spaces: map<int, PageTable>, ghost tableAt: map<int, TablePage>,
      ghost dirs: map<int, seq<Pde>>, ghost n: int, space: PageTable, s: nat, d: Pde)
    requires SpacesOk(spaces, tableAt, dirs) && n in spaces && spaces[n] == space && s < SLOTS
    requires SpaceOk(space, tableAt, dirs[n])
    requires d.present == space.directory[s].present && d.table == space.directory[s].table
    modifies space.directory
    ensures SpacesOk(spaces, tableAt, dirs[n := dirs[n][s := d]])
  {
    space.directory[s] := d;
    assert SpaceOk(space, tableAt, dirs[n][s := d]);
    forall n' | n' in spaces && n' != n ensures SpaceOk(spaces[n'], tableAt, dirs[n']) {
      assert old(SpaceOk(spaces[n'], tableAt, dirs[n']));
      assert spaces[n'].directory != space.directory;
    }
  }

  /** Stores one page-table entry. */
  method SetTableEntry(ghost tableAt: map<int, TablePage>, ghost tables: map<int, seq<Pte>>,
      t: TablePage, k: nat, e: Pte)
    requires TablesOk(tableAt, tables) && t.physical in tableAt && tableAt[t.physical] == t && k < ENTRIES
    modifies t.entries
    ensures TablesOk(tableAt, tables[t.physical := tables[t.physical][k := e]])
  {
    t.entries[k] := e;
  }

  /** The page copy loop. */
  method CopyPage(ghost memory: map<int, array<Word>>, ghost frames: map<int, seq<Word>>,
      ghost from: int, ghost to: int, src: array<Word>, dst: array<Word>)
    requires FramesOk(memory, frames) && from in memory && to in memory
    requires memory[from] == src && memory[to] == dst
    modifies dst
    ensures FramesOk(memory, frames[to := frames[from]])
  {
    assert src.Length == M.WORDS && dst.Length == M.WORDS;
    ghost var words := src[..];
    var i := 0;
    while i < M.WORDS
      invariant 0 <= i <= M.WORDS
      invariant dst[..i] == words[..i] && src[i..] == words[i..]
      modifies dst
    {
      dst[i] := src[i];
      i := i + 1;
    }
    assert dst[..] == words;
  }

  /** The table copy loop: both tables end up with the source's entries, of which the writable ones have
      become read-only and copy-on-write. */
  method CopyTable(ghost tableAt: map<int, TablePage>, ghost tables: map<int, seq<Pte>>, src: TablePage, dst: TablePage)
    requires TablesOk(tableAt, tables)
    requires src.physical in tableAt && tableAt[src.physical] == src && dst.physical in tableAt &&
      tableAt[dst.physical] == dst
    requires src.physical != dst.physical
    modifies src.entries, dst.entries
    ensures var es := M.DemoteTable(tables[src.physical]);
      TablesOk(tableAt, tables[src.physical := es][dst.physical := es])
    ensures forall k :: 0 <= k < ENTRIES ==> var e := tables[src.physical][k];
      src.entries[k] == dst.entries[k] == Pte(e.present, false, e.user, e.writable || e.copyOnWrite, e.frame)
  {
    ghost var before := src.entries[..];
    var i := 0;
    while i < ENTRIES
      invariant 0 <= i <= ENTRIES
      invariant forall k :: 0 <= k < i ==>
        src.entries[k] == DemotePage(before[k]) && dst.entries[k] == DemotePage(before[k])
      invariant forall k :: i <= k < ENTRIES ==> src.entries[k] == before[k]
      modifies src.entries, dst.entries
    {
      var c := src.entries[i];
      if c.writable {
        c := c.(writable := false, copyOnWrite := true);
      }
      src.entries[i] := c;
      dst.entries[i] := c;
      i := i + 1;
    }
    assert src.entries[..] == M.DemoteTable(before) == dst.entries[..];
  }

  /** `t` is a page of kernel memory that no address space uses. */
  ghost predicate UnknownTable(tableAt: map<int, TablePage>, t: TablePage) {
    t.physical != 0 && t.physical !in tableAt && t.entries.Length == ENTRIES &&
    forall u :: u in tableAt ==> tableAt[u].entries != t.entries
  }

  lemma SpaceKnowsMore(space: PageTable, tableAt: map<int, TablePage>, dir: seq<Pde>, t: TablePage)
    requires SpaceOk(space, tableAt, dir) && UnknownTable(tableAt, t)
    ensures SpaceOk(space, tableAt[t.physical := t], dir) && space.Unused(t)
  {
  }

  /** Forgets the table at the slot and sets up the new one there: the effect on the space itself. */
  method ReplaceTableIn(ghost tableAt: map<int, TablePage>, ghost dir: seq<Pde>,
      space: PageTable, virt: Word, supervisor: bool, newTable: TablePage)
    requires SpaceOk(space, tableAt, dir) && UnknownTable(tableAt, newTable)
    modifies space.directory, space.tables, newTable.entries
    ensures SpaceOk(space, tableAt[newTable.physical := newTable],
                    dir[PdeIndex(virt) := Pde(true, true, !supervisor, false, newTable.physical)])
    ensures newTable.entries[..] == EmptyTable()
    ensures space.tables[PdeIndex(virt)] == newTable
  {
    var s := PdeIndex(virt);
    SpaceKnowsMore(space, tableAt, dir, newTable);
    space.tables[s] := null;
    space.directory[s] := NO_TABLE;
    var lost := space.SetupPageTable(virt, supervisor, newTable);
    assert space.tables[s] == newTable;
    assert forall i :: 0 <= i < SLOTS && i != s ==> space.tables[i] == old(space.tables[i]);
  }

  method ReplaceTable(ghost spaces: map<int, PageTable>, ghost tableAt: map<int, TablePage>,
      ghost dirs: map<int, seq<Pde>>, ghost n: int, space: PageTable, virt: Word, supervisor: bool, newTable: TablePage)
    requires SpacesOk(spaces, tableAt, dirs) && UnknownTable(tableAt, newTable)
    requires n in spaces && spaces[n] == space && SpaceOk(space, tableAt, dirs[n])
    modifies space.directory, space.tables, newTable.entries
    ensures var s := PdeIndex(virt);
      SpacesOk(spaces, tableAt[newTable.physical := newTable],
               dirs[n := dirs[n][s := Pde(true, true, !supervisor, false, newTable.physical)]])
    ensures newTable.entries[..] == EmptyTable()
    ensures space.tables[PdeIndex(virt)] == newTable
  {
    ghost var known := tableAt[newTable.physical := newTable];
    forall n' | n' in spaces ensures SpaceOk(spaces[n'], known, dirs[n']) {
      SpaceKnowsMore(spaces[n'], tableAt, dirs[n'], newTable);
    }
    label before:
    ReplaceTableIn(tableAt, dirs[n], space, virt, supervisor, newTable);
    assert SpaceOk(space, known, dirs[n][PdeIndex(virt) := Pde(true, true, !supervisor, false, newTable.physical)]);
    forall n' | n' in spaces && n' != n ensures SpaceOk(spaces[n'], known, dirs[n']) {
      assert old@before(SpaceOk(spaces[n'], known, dirs[n']));
      assert spaces[n'].directory != space.directory && spaces[n'].tables != space.tables;
    }
  }

  /** A new table joins the known ones. */
  lemma TablesGrow(tableAt: map<int, TablePage>, tables: map<int, seq<Pte>>, t: TablePage)
    requires TablesOk(tableAt, tables) && UnknownTable(tableAt, t)
    ensures TablesOk(tableAt[t.physical := t], tables[t.physical := t.entries[..]])
  {
  }

  /** Gives write access back to the one process left on an old table. */
  method ReleaseSharer(ghost spaces: map<int, PageTable>, ghost tableAt: map<int, TablePage>,
      ghost dirs: map<int, seq<Pde>>, ghost n: int, space: PageTable, s: nat)
    requires SpacesOk(spaces, tableAt, dirs) && n in spaces && spaces[n] == space && s < SLOTS
    requires SpaceOk(space, tableAt, dirs[n]) && dirs[n][s].copyOnWrite
    modifies space.directory
    ensures SpacesOk(spaces, tableAt, dirs[n := dirs[n][s := ReleaseTable(dirs[n][s])]])
  {
    var c := space.directory[s];
    if c.copyOnWrite {
      SetDirectoryEntry(spaces, tableAt, dirs, n, space, s, c.(copyOnWrite := false, writable := true));
    }
  }

  /** Gives the last sharer write access back if it is `alone`, and sets up the new table. */
  method InstallTable(ghost spaces: map<int, PageTable>, ghost tableAt: map<int, TablePage>,
      ghost dirs: map<int, seq<Pde>>, ghost me: int, ghost other: int,
      mine: PageTable, last: PageTable, virt: Word, alone: bool, user: bool, newTable: TablePage)
    requires SpacesOk(spaces, tableAt, dirs) && UnknownTable(tableAt, newTable)
    requires me in spaces && spaces[me] == mine && other in spaces && spaces[other] == last && me != other
    requires SpaceOk(last, tableAt, dirs[other]) && dirs[other][PdeIndex(virt)].copyOnWrite
    modifies mine.directory, mine.tables, last.directory, newTable.entries
    ensures var s := PdeIndex(virt);
      var dirs1 := if alone then dirs[other := dirs[other][s := ReleaseTable(dirs[other][s])]] else dirs;
      SpacesOk(spaces, tableAt[newTable.physical := newTable],
               dirs1[me := dirs1[me][s := Pde(true, true, user, false, newTable.physical)]])
    ensures newTable.entries[..] == EmptyTable() && last.tables[..] == old(last.tables[..])
  {
    var s := PdeIndex(virt);
    ghost var dirs1 := dirs;
    if alone {
      ReleaseSharer(spaces, tableAt, dirs, other, last, s);
      dirs1 := dirs[other := dirs[other][s := ReleaseTable(dirs[other][s])]];
    }
    assert SpaceOk(mine, tableAt, dirs1[me]);
    assert mine.tables != last.tables;
    ReplaceTable(spaces, tableAt, dirs1, me, mine, virt, !user, newTable);
  }

  lemma OverwriteTwice<T>(tables: map<int, T>, a: int, b: int, empty: T, x: T)
    ensures a != b ==> tables[b := empty][a := x][b := x] == tables[a := x][b := x]
  {
  }

  /** First half of a fault, once the scan has found the last sharer: the new table is installed and
      filled from the old one, whose writable pages become copy-on-write on the way. */
  method PrivatiseTable(ghost spaces: map<int, PageTable>, ghost tableAt: map<int, TablePage>,
      ghost dirs: map<int, seq<Pde>>, ghost tables: map<int, seq<Pte>>, ghost me: int, ghost other: int,
      mine: PageTable, last: PageTable, virt: Word, alone: bool, user: bool, newTable: TablePage)
    requires SpacesOk(spaces, tableAt, dirs) && TablesOk(tableAt, tables) && UnknownTable(tableAt, newTable)
    requires me in spaces && spaces[me] == mine && other in spaces && spaces[other] == last && me != other
    requires SpaceOk(last, tableAt, dirs[other])
    requires dirs[other][PdeIndex(virt)].present && dirs[other][PdeIndex(virt)].copyOnWrite
    modifies mine.directory, mine.tables, last.directory, newTable.entries, last.tables[PdeIndex(virt)].entries
    ensures var s := PdeIndex(virt);
      var dirs1 := if alone then dirs[other := dirs[other][s := ReleaseTable(dirs[other][s])]] else dirs;
      SpacesOk(spaces, tableAt[newTable.physical := newTable],
               dirs1[me := dirs1[me][s := Pde(true, true, user, false, newTable.physical)]])
    ensures dirs[other][PdeIndex(virt)].table in tables
    ensures var t := dirs[other][PdeIndex(virt)].table; var es := M.DemoteTable(tables[t]);
      TablesOk(tableAt[newTable.physical := newTable], tables[t := es][newTable.physical := es])
  {
    var oldTable := last.tables[PdeIndex(virt)];
    assert oldTable.physical == dirs[other][PdeIndex(virt)].table;
    InstallTable(spaces, tableAt, dirs, me, other, mine, last, virt, alone, user, newTable);
    assert TablesOk(tableAt, tables) by {
      assert old(TablesOk(tableAt, tables));
    }
    TablesGrow(tableAt, tables, newTable);
    OverwriteTwice(tables, oldTable.physical, newTable.physical, EmptyTable(),
                   M.DemoteTable(tables[oldTable.physical]));
    CopyTable(tableAt[newTable.physical := newTable], tables[newTable.physical := EmptyTable()], oldTable, newTable);
  }

  /** pg_unmap and pg_map of the new page, in a table that is there already. */
  method RemapPage(space: PageTable, virt: Word, physical: int, supervisor: bool)
    requires space.Valid() && space.Separate() && space.tables[PdeIndex(virt)] != null
    modifies space.tables[PdeIndex(virt)].entries
    ensures space.tables[PdeIndex(virt)].entries[..] ==
      old(space.tables[PdeIndex(virt)].entries[..])[PteIndex(virt) := Pte(true, true, !supervisor, false, physical)]
  {
    space.Unmap(virt);
    var lost := space.Map(virt, physical, supervisor, null);
  }

  /** One table's entries have been rewritten. */
  method StorePage(ghost tableAt: map<int, TablePage>, ghost tables: map<int, seq<Pte>>, ghost dir: seq<Pde>,
      space: PageTable, virt: Word, physical: int, supervisor: bool)
    requires TablesOk(tableAt, tables) && SpaceOk(space, tableAt, dir) && space.tables[PdeIndex(virt)] != null
    modifies space.tables[PdeIndex(virt)].entries
    ensures dir[PdeIndex(virt)].table in tables
    ensures var t := dir[PdeIndex(virt)].table;
      TablesOk(tableAt, tables[t := tables[t][PteIndex(virt) := Pte(true, true, !supervisor, false, physical)]])
  {
    assert space.tables[PdeIndex(virt)].physical == dir[PdeIndex(virt)].table;
    RemapPage(space, virt, physical, supervisor);
  }

  /** Second half of a fault, once the scan has found the sharers: gives the last one write access
      back if it is alone, copies the page, and maps the copy. */
  method PrivatisePage(ghost tableAt: map<int, TablePage>, ghost tables: map<int, seq<Pte>>, ghost dir: seq<Pde>,
      ghost memory: map<int, array<Word>>, ghost frames: map<int, seq<Word>>,
      space: PageTable, virt: Word, d: Pte, alone: bool, last: TablePage,
      src: array<Word>, dst: array<Word>, newFrame: int)
    requires TablesOk(tableAt, tables) && SpaceOk(space, tableAt, dir) && FramesOk(memory, frames)
    requires space.tables[PdeIndex(virt)] != null && space.tables[PdeIndex(virt)] != last
    requires last.physical in tableAt && tableAt[last.physical] == last
    requires d.frame in memory && memory[d.frame] == src && newFrame in memory && memory[newFrame] == dst
    requires (alone ==> tables[last.physical][PteIndex(virt)].copyOnWrite)
    modifies space.tables[PdeIndex(virt)].entries, last.entries, dst
    ensures dir[PdeIndex(virt)].table in tables && last.physical in tables
    ensures var k := PteIndex(virt); var t := dir[PdeIndex(virt)].table;
      var tables1 := if alone
        then tables[last.physical := tables[last.physical][k := ReleasePage(tables[last.physical][k])]] else tables;
      TablesOk(tableAt, tables1[t := tables1[t][k := Pte(true, true, d.user, false, newFrame)]])
    ensures FramesOk(memory, frames[newFrame := frames[d.frame]])
  {
    var k := PteIndex(virt);
    ghost var tables1 := tables;
    if alone {
      var c := last.entries[k];
      if c.copyOnWrite {
        SetTableEntry(tableAt, tables, last, k, c.(copyOnWrite := false, writable := true));
        tables1 := tables[last.physical := tables[last.physical][k := ReleasePage(c)]];
      }
    }
    CopyPage(memory, frames, d.frame, newFrame, src, dst);
    StorePage(tableAt, tables1, dir, space, virt, newFrame, !d.user);
  }

  /** The directory copy loop of pg_copy_user_page_directory: shares every table with the new space,
      makes the entries of user tables in the user part of both read-only and copy-on-write, and leaves
      all others alone. */
  method CopyUserPageDirectory(src: PageTable, ghost tableAt: map<int, TablePage>, ghost dir: seq<Pde>)
      returns (user: PageTable)
    requires SpaceOk(src, tableAt, dir)
    modifies src.directory
    ensures fresh(user) && fresh(user.directory) && fresh(user.tables)
    ensures SpaceOk(src, tableAt, M.ForkDir(dir)) && SpaceOk(user, tableAt, M.ForkDir(dir))
    ensures forall s :: 0 <= s < SLOTS ==>
      user.directory[s] == src.directory[s] &&
      src.directory[s] ==
      if s < 0x300 && dir[s].present && dir[s].user then Pde(true, false, true, true, dir[s].table) else dir[s]
    ensures user.tables[..] == src.tables[..] == old(src.tables[..])
  {
    var directory := new Pde[SLOTS](i => NO_TABLE);
    var tables := new TablePage?[SLOTS](i => null);
    user := new PageTable(directory, tables);
    ShareEntries(src, user, dir);
    assert src.directory[..] == M.ForkDir(dir) == user.directory[..];
  }

  /** Its loop. */
  method ShareEntries(src: PageTable, user: PageTable, ghost dir: seq<Pde>)
    requires src.directory.Length == SLOTS == user.directory.Length && src.tables.Length == SLOTS == user.tables.Length
    requires src.directory != user.directory && src.tables != user.tables && src.directory[..] == dir
    modifies src.directory, user.directory, user.tables
    ensures forall k :: 0 <= k < SLOTS ==> src.directory[k] == M.ForkPde(dir[k], k) == user.directory[k]
    ensures forall k :: 0 <= k < SLOTS ==> user.tables[k] == src.tables[k]
  {
    var i := 0;
    while i < SLOTS
      invariant 0 <= i <= SLOTS
      invariant forall k :: 0 <= k < i ==> src.directory[k] == M.ForkPde(dir[k], k) == user.directory[k]
      invariant forall k :: 0 <= k < i ==> user.tables[k] == src.tables[k]
      invariant forall k :: i <= k < SLOTS ==> src.directory[k] == dir[k]
      modifies src.directory, user.directory, user.tables
    {
      if i < M.USER_SLOTS && src.directory[i].user && src.directory[i].present {
        src.directory[i] := src.directory[i].(writable := false, copyOnWrite := true);
      }
      user.directory[i] := src.directory[i];
      user.tables[i] := src.tables[i];
      i := i + 1;
    }
  }

  /** pg_create_user_page_directory: an empty user part, the kernel's tables above it. */
  method CreateUserPageDirectory(kernel: PageTable, ghost tableAt: map<int, TablePage>, ghost dir: seq<Pde>)
      returns (user: PageTable)
    requires SpaceOk(kernel, tableAt, dir)
    ensures fresh(user) && fresh(user.directory) && fresh(user.tables)
    ensures SpaceOk(user, tableAt, R.NewDirectory(dir))
    ensures forall s :: 0 <= s < 0x300 ==> user.directory[s] == NO_TABLE && user.tables[s] == null
    ensures forall s :: 0x300 <= s < SLOTS ==> user.directory[s] == dir[s] && user.tables[s] == kernel.tables[s]
  {
    var directory := new Pde[SLOTS](i => NO_TABLE);
    var tables := new TablePage?[SLOTS](i => null);
    user := new PageTable(directory, tables);
    var i := 0;
    while i < M.USER_SLOTS
      invariant 0 <= i <= M.USER_SLOTS
      invariant forall k :: 0 <= k < i ==> user.directory[k] == NO_TABLE && user.tables[k] == null
      modifies user.directory, user.tables
    {
      user.directory[i] := NO_TABLE;
      user.tables[i] := null;
      i := i + 1;
    }
    while i < SLOTS
      invariant M.USER_SLOTS <= i <= SLOTS
      invariant forall k :: 0 <= k < M.USER_SLOTS ==> user.directory[k] == NO_TABLE && user.tables[k] == null
      invariant forall k :: M.USER_SLOTS <= k < i ==>
        user.directory[k] == kernel.directory[k] && user.tables[k] == kernel.tables[k]
      modifies user.directory, user.tables
    {
      user.directory[i] := kernel.directory[i];
      user.tables[i] := kernel.tables[i];
      i := i + 1;
    }
    assert user.directory[..] == R.NewDirectory(dir);
  }

  /** pg_map of a user page with a new table, seen from the space itself. */
  method MapIn(ghost tableAt: map<int, TablePage>, ghost dir: seq<Pde>, space: PageTable, virt: Word, physical: int,
      newTable: TablePage)
    requires SpaceOk(space, tableAt, dir) && UnknownTable(tableAt, newTable) && !dir[PdeIndex(virt)].present
    modifies space.WriteSet(PdeIndex(virt), newTable)
    ensures var s := PdeIndex(virt);
      SpaceOk(space, tableAt[newTable.physical := newTable],
              dir[s := Pde(true, true, true, false, newTable.physical)]) &&
      newTable.entries[..] == EmptyTable()[PteIndex(virt) := Pte(true, true, true, false, physical)]
  {
    var s := PdeIndex(virt);
    SpaceKnowsMore(space, tableAt, dir, newTable);
    var lost := space.Map(virt, physical, false, newTable);
    assert forall i :: 0 <= i < SLOTS && i != s ==> space.tables[i] == old(space.tables[i]);
    assert space.tables[s] == newTable;
  }

  /** pg_map into a table that is there. */
  method MapPresent(ghost spaces: map<int, PageTable>, ghost tableAt: map<int, TablePage>,
      ghost dirs: map<int, seq<Pde>>, ghost tables: map<int, seq<Pte>>, ghost n: int,
      space: PageTable, virt: Word, physical: int)
    requires SpacesOk(spaces, tableAt, dirs) && TablesOk(tableAt, tables)
    requires n in spaces && spaces[n] == space && SpaceOk(space, tableAt, dirs[n]) && dirs[n][PdeIndex(virt)].present
    modifies space.WriteSet(PdeIndex(virt), null)
    ensures SpacesOk(spaces, tableAt, dirs) && dirs[n][PdeIndex(virt)].table in tables
    ensures var t := dirs[n][PdeIndex(virt)].table;
      TablesOk(tableAt, tables[t := tables[t][PteIndex(virt) := Pte(true, true, true, false, physical)]])
  {
    assert space.tables[PdeIndex(virt)].physical == dirs[n][PdeIndex(virt)].table;
    var lost := space.Map(virt, physical, false, null);
  }

  /** pg_map that first creates the table. */
  method MapAbsent(ghost spaces: map<int, PageTable>, ghost tableAt: map<int, TablePage>,
      ghost dirs: map<int, seq<Pde>>, ghost tables: map<int, seq<Pte>>, ghost n: int,
      space: PageTable, virt: Word, physical: int, newTable: TablePage)
    requires SpacesOk(spaces, tableAt, dirs) && TablesOk(tableAt, tables) && UnknownTable(tableAt, newTable)
    requires n in spaces && spaces[n] == space && SpaceOk(space, tableAt, dirs[n]) && !dirs[n][PdeIndex(virt)].present
    modifies space.WriteSet(PdeIndex(virt), newTable)
    ensures SpacesOk(spaces, tableAt[newTable.physical := newTable],
      dirs[n := dirs[n][PdeIndex(virt) := Pde(true, true, true, false, newTable.physical)]])
    ensures TablesOk(tableAt[newTable.physical := newTable],
      tables[newTable.physical := EmptyTable()[PteIndex(virt) := Pte(true, true, true, false, physical)]])
  {
    ghost var known := tableAt[newTable.physical := newTable];
    forall n' | n' in spaces ensures SpaceOk(spaces[n'], known, dirs[n']) {
      SpaceKnowsMore(spaces[n'], tableAt, dirs[n'], newTable);
    }
    label before:
    MapIn(tableAt, dirs[n], space, virt, physical, newTable);
    forall n' | n' in spaces && n' != n ensures SpaceOk(spaces[n'], known, dirs[n']) {
      assert old@before(SpaceOk(spaces[n'], known, dirs[n']));
      assert spaces[n'].directory != space.directory && spaces[n'].tables != space.tables;
    }
    assert TablesOk(tableAt, tables) by {
      assert old@before(TablesOk(tableAt, tables));
    }
    TablesGrow(tableAt, tables, newTable);
  }

  /** Adds a forked address space to the known ones. */
  method ForkSpace(ghost spaces: map<int, PageTable>, ghost tableAt: map<int, TablePage>,
      ghost dirs: map<int, seq<Pde>>, ghost n: int, ghost child: int, src: PageTable) returns (user: PageTable)
    requires SpacesOk(spaces, tableAt, dirs) && n in spaces && spaces[n] == src && child !in spaces
    requires SpaceOk(src, tableAt, dirs[n])
    modifies src.directory
    ensures fresh(user) && fresh(user.directory) && fresh(user.tables)
    ensures var dir := M.ForkDir(dirs[n]); SpacesOk(spaces[child := user], tableAt, dirs[n := dir][child := dir])
  {
    label before:
    user := CopyUserPageDirectory(src, tableAt, dirs[n]);
    forall n' | n' in spaces && n' != n ensures SpaceOk(spaces[n'], tableAt, dirs[n']) {
      assert old@before(SpaceOk(spaces[n'], tableAt, dirs[n']));
      assert spaces[n'].directory != src.directory;
    }
    assert forall n' :: n' in spaces ==> spaces[n'].directory != user.directory && spaces[n'].tables != user.tables;
  }

  /** Adds a new address space to the known ones. */
  method CreateSpace(ghost spaces: map<int, PageTable>, ghost tableAt: map<int, TablePage>,
      ghost dirs: map<int, seq<Pde>>, ghost n: int, kernel: PageTable, ghost dir: seq<Pde>) returns (user: PageTable)
    requires SpacesOk(spaces, tableAt, dirs) && n !in spaces && SpaceOk(kernel, tableAt, dir)
    ensures fresh(user) && fresh(user.directory) && fresh(user.tables)
    ensures SpacesOk(spaces[n := user], tableAt, dirs[n := R.NewDirectory(dir)])
  {
    label before:
    user := CreateUserPageDirectory(kernel, tableAt, dir);
    forall n' | n' in spaces ensures SpaceOk(spaces[n'], tableAt, dirs[n']) {
      assert old@before(SpaceOk(spaces[n'], tableAt, dirs[n']));
    }
    assert forall n' :: n' in spaces ==> spaces[n'].directory != user.directory && spaces[n'].tables != user.tables;
  }

  /** What a scan loop knows: how many it has found, and the last. */
  ghost predicate Counted(found: seq<int>, n: nat, last: int) {
    n == |found| && (n > 0 ==> last == found[n - 1])
  }

  /** The first n listed processes have a table at the slot. */
  ghost predicate HaveTables(m: M.Machine, s: nat, n: nat) {
    n <= |m.procs| && forall j {:trigger m.procs[j]} :: 0 <= j < n ==> M.PdeOf(m, m.procs[j], s).present
  }

  lemma HaveTablesStep(m: M.Machine, s: nat, i: nat)
    requires HaveTables(m, s, i) && i < |m.procs| && M.PdeOf(m, m.procs[i], s).present
    ensures HaveTables(m, s, i + 1)
  {
  }

  lemma TableMissing(m: M.Machine, s: nat, i: nat)
    requires i < |m.procs| && !M.PdeOf(m, m.procs[i], s).present
    ensures !M.AllHaveTable(m, s)
  {
  }

  /** The body of a scan loop. */
  lemma CountStep(ps: seq<int>, i: nat, me: int, f: int -> bool, n: nat, last: int)
    requires i < |ps| && Counted(M.Others(ps[..i], me, f), n, last)
    ensures Counted(M.Others(ps[..i + 1], me, f),
                    if ps[i] != me && f(ps[i]) then n + 1 else n, if ps[i] != me && f(ps[i]) then ps[i] else last)
  {
    assert ps[..i + 1][..i] == ps[..i];
  }

  /** What the fault handler comes to: it returns true or false, or meets a NULL table. */
  datatype Answer = Resolved | Unresolved | NullTable

  class Kernel {
    /** The process list from its root, the running process, and each process's address space. */
    var procs: seq<int>
    var current: int
    var spaces: map<int, PageTable>
    /** Physical pages by address. */
    var memory: map<int, array<Word>>
    /** The abstract state, and which table page lies at which physical address. */
    ghost var machine: M.Machine
    ghost var tableAt: map<int, TablePage>

    /** The real objects hold the abstract state m. */
    ghost predicate Represents(m: M.Machine, tableAt: map<int, TablePage>)
      reads this`procs, this`current, this`spaces, this`memory, Arrays(spaces, tableAt, memory)
    {
      && m.procs == procs && m.current == current && (forall p :: p in procs ==> p in spaces)
      && SpacesOk(spaces, tableAt, m.dirs) && TablesOk(tableAt, m.tables) && FramesOk(memory, m.frames)
    }

    ghost predicate Valid()
      reads this, Arrays(spaces, tableAt, memory)
    {
      Represents(machine, tableAt)
    }

    /** The real objects have come to hold m. */
    ghost method Become(m: M.Machine, tables: map<int, TablePage>)
      requires Represents(m, tables)
      modifies this`machine, this`tableAt
      ensures Valid() && machine == m && tableAt == tables
    {
      machine, tableAt := m, tables;
    }

    /** No process and no table yet; all physical pages free. */
    constructor (memory: map<int, array<Word>>, ghost frames: map<int, seq<Word>>)
      requires FramesOk(memory, frames)
      ensures Valid() && machine == M.Machine([], 0, map[], map[], frames) && tableAt == map[]
    {
      this.memory := memory;
      procs, current, spaces := [], 0, map[];
      machine, tableAt := M.Machine([], 0, map[], map[], frames), map[];
    }

    /** The address space and the listing of pr_fork_process: `child` is the new pid, and `at` is where
        the process list takes the child. */
    method Fork(src: int, child: int, at: nat)
      requires Valid() && src in spaces && child !in spaces && at <= |procs|
      modifies this, spaces[src].directory
      ensures Valid() && tableAt == old(tableAt)
      ensures src in old(machine).dirs && machine == M.Fork(old(machine), src, child, at)
    {
      assert SpaceOk(spaces[src], tableAt, machine.dirs[src]);
      var user := ForkSpace(spaces, tableAt, machine.dirs, src, child, spaces[src]);
      spaces := spaces[child := user];
      procs := procs[..at] + [child] + procs[at..];
      Become(M.Fork(machine, src, child, at), tableAt);
    }

    /** The same of pr_create_process; `dir` is what the kernel's directory holds. */
    method Create(p: int, at: nat, kernel: PageTable, ghost dir: seq<Pde>)
      requires Valid() && p !in spaces && at <= |procs| && SpaceOk(kernel, tableAt, dir)
      modifies this
      ensures Valid() && tableAt == old(tableAt) && machine == R.CreateProcess(old(machine), p, at, dir)
    {
      var user := CreateSpace(spaces, tableAt, machine.dirs, p, kernel, dir);
      spaces := spaces[p := user];
      procs := procs[..at] + [p] + procs[at..];
      Become(R.CreateProcess(machine, p, at, dir), tableAt);
    }

    /** pg_map of a user page into p's address space, with what kalloc_page returns for a new table:
        without one where one is needed, NULL would be dereferenced. */
    method MapUser(p: int, virt: Word, physical: int, newTable: TablePage?) returns (lost: bool)
      requires Valid() && p in spaces && (newTable != null ==> UnknownTable(tableAt, newTable))
      modifies this`machine, this`tableAt, spaces[p].WriteSet(PdeIndex(virt), newTable)
      ensures Valid() && (lost <==> !M.PdeOf(old(machine), p, PdeIndex(virt)).present && newTable == null)
      ensures !lost ==>
        machine == R.MapPage(old(machine), p, PdeIndex(virt), PteIndex(virt), PhysicalOf(newTable), physical)
    {
      SlotIs(p, PdeIndex(virt));
      MapPageIs(machine, p, PdeIndex(virt), PteIndex(virt), PhysicalOf(newTable), physical);
      lost := false;
      if spaces[p].directory[PdeIndex(virt)].present {
        MapIntoTable(p, virt, physical);
      } else if newTable == null {
        lost := true;
      } else {
        MapIntoNewTable(p, virt, physical, newTable);
      }
    }

    method MapIntoTable(p: int, virt: Word, physical: int)
      requires Valid() && p in spaces && p in machine.dirs
      requires SpaceOk(spaces[p], tableAt, machine.dirs[p]) && machine.dirs[p][PdeIndex(virt)].present
      modifies this`machine, this`tableAt, spaces[p].WriteSet(PdeIndex(virt), null)
      ensures Valid()
      ensures var t := old(machine).dirs[p][PdeIndex(virt)].table;
        t in old(machine).tables && |old(machine).tables[t]| == ENTRIES &&
        machine == MappedThere(old(machine), t, PteIndex(virt), physical)
    {
      MapPresent(spaces, tableAt, machine.dirs, machine.tables, p, spaces[p], virt, physical);
      Become(MappedThere(machine, machine.dirs[p][PdeIndex(virt)].table, PteIndex(virt), physical), tableAt);
    }

    method MapIntoNewTable(p: int, virt: Word, physical: int, newTable: TablePage)
      requires Valid() && p in spaces && UnknownTable(tableAt, newTable) && p in machine.dirs
      requires SpaceOk(spaces[p], tableAt, machine.dirs[p]) && !machine.dirs[p][PdeIndex(virt)].present
      modifies this`machine, this`tableAt, spaces[p].WriteSet(PdeIndex(virt), newTable)
      ensures Valid()
      ensures machine == MappedAnew(old(machine), p, PdeIndex(virt), newTable.physical, PteIndex(virt), physical)
    {
      MapAbsent(spaces, tableAt, machine.dirs, machine.tables, p, spaces[p], virt, physical, newTable);
      Become(MappedAnew(machine, p, PdeIndex(virt), newTable.physical, PteIndex(virt), physical),
             tableAt[newTable.physical := newTable]);
    }

    /** pr_resume: the process and its address space become the active ones. */
    method Resume(p: int)
      requires Valid() && p in procs
      modifies this`current, this`machine, this`tableAt
      ensures Valid() && machine == old(machine).(current := p) && tableAt == old(tableAt)
    {
      current := p;
      Become(machine.(current := p), tableAt);
    }

    /** First scan loop: the other processes whose entry at slot s points at the same table. */
    method CountTableSharers(s: nat, t: int) returns (numCopies: nat, last: int)
      requires Valid() && s < SLOTS
      ensures numCopies == |M.TableSharers(machine, s, t)|
      ensures numCopies > 0 ==> last == M.TableSharers(machine, s, t)[numCopies - 1]
    {
      numCopies, last := 0, 0;
      ghost var m := machine;
      ghost var f := (q: int) => M.UsesTable(m, q, s, t);
      for i := 0 to |procs|
        invariant Counted(M.Others(procs[..i], current, f), numCopies, last)
      {
        var proc := procs[i];
        SlotIs(proc, s);
        var c := spaces[proc].directory[s];
        CountStep(procs, i, current, f, numCopies, last);
        if c.present && proc != current && c.table == t {
          numCopies := numCopies + 1;
          last := proc;
        }
      }
      assert procs[..|procs|] == procs;
    }

    /** p's table entry, unless it has no table at the slot. */
    method ReadEntry(p: int, s: nat, k: nat) returns (missing: bool, e: Pte)
      requires Valid() && p in spaces && s < SLOTS && k < ENTRIES
      ensures missing <==> !M.PdeOf(machine, p, s).present
      ensures !missing ==> e == M.PteOf(machine, p, s, k)
    {
      SlotIs(p, s);
      if spaces[p].tables[s] == null {
        return true, NO_PAGE;
      }
      EntryIs(p, s, k);
      return false, spaces[p].tables[s].entries[k];
    }

    /** Second scan loop: the other processes that map the frame at this page.  It reads every listed
        process's table at the slot; `missing` says that one has none. */
    method CountPageSharers(s: nat, k: nat, f: int) returns (missing: bool, numCopies: nat, last: int)
      requires Valid() && s < SLOTS && k < ENTRIES
      ensures missing <==> !M.AllHaveTable(machine, s)
      ensures !missing ==> numCopies == |M.PageSharers(machine, s, k, f)|
      ensures !missing && numCopies > 0 ==> last == M.PageSharers(machine, s, k, f)[numCopies - 1]
    {
      missing, numCopies, last := false, 0, 0;
      ghost var m := machine;
      ghost var g := (q: int) => M.MapsFrame(m, q, s, k, f);
      for i := 0 to |procs|
        invariant !missing && HaveTables(m, s, i)
        invariant Counted(M.Others(procs[..i], current, g), numCopies, last)
      {
        var proc := procs[i];
        var c;
        missing, c := ReadEntry(proc, s, k);
        if missing {
          TableMissing(m, s, i);
          return;
        }
        HaveTablesStep(m, s, i);
        CountStep(procs, i, current, g, numCopies, last);
        if c.present && proc != current && c.frame == f {
          numCopies := numCopies + 1;
          last := proc;
        }
      }
      assert procs[..|procs|] == procs;
    }

    /** A slot has a table pointer exactly if its directory entry is present. */
    lemma SlotIs(p: int, s: nat)
      requires Valid() && p in spaces && s < SLOTS
      ensures SpaceOk(spaces[p], tableAt, machine.dirs[p]) && spaces[p].directory[s] == M.PdeOf(machine, p, s)
      ensures spaces[p].tables[s] == null <==> !M.PdeOf(machine, p, s).present
    {
      assert SpaceOk(spaces[p], tableAt, machine.dirs[p]);
    }

    /** Where the model's entry is stored. */
    lemma EntryIs(p: int, s: nat, k: nat)
      requires Valid() && p in spaces && s < SLOTS && k < ENTRIES && M.PdeOf(machine, p, s).present
      ensures SpaceOk(spaces[p], tableAt, machine.dirs[p]) && spaces[p].tables[s] != null
      ensures spaces[p].directory[s] == M.PdeOf(machine, p, s)
      ensures var t := spaces[p].tables[s];
        t.physical == M.PdeOf(machine, p, s).table && t.physical in tableAt && tableAt[t.physical] == t &&
        t.entries.Length == ENTRIES && t.entries[..] == machine.tables[t.physical] &&
        t.entries[k] == M.PteOf(machine, p, s, k)
    {
      assert SpaceOk(spaces[p], tableAt, machine.dirs[p]);
    }

    /** A table page outside the known ones is new to the model. */
    lemma UnknownIsFresh(t: TablePage)
      requires Valid() && UnknownTable(tableAt, t)
      ensures M.FreshTable(machine, t.physical)
    {
      forall p: int, s: nat ensures !M.UsesTable(machine, p, s, t.physical) {
        if M.PdeOf(machine, p, s).present {
          EntryIs(p, s, 0);
        }
      }
    }

    /** Everything fault resolution may write to. */
    ghost function Footprint(): set<object>
      reads this
    {
      Arrays(spaces, tableAt, memory)
    }

    lemma NotAnArray()
      ensures this !in Footprint()
    {
    }

    /** The stores of the first half, given the result of the scan. */
    method TakeTable(virt: Word, d: Pde, last: int, alone: bool, newTable: TablePage)
      requires Valid() && UnknownTable(tableAt, newTable)
      requires current in spaces && last in spaces && last != current
      requires M.PdeOf(machine, last, PdeIndex(virt)).present && M.PdeOf(machine, last, PdeIndex(virt)).copyOnWrite
      requires M.PdeOf(machine, last, PdeIndex(virt)).table == d.table
      modifies this`machine, this`tableAt, Footprint(), newTable.entries
      ensures Valid() && tableAt == old(tableAt)[newTable.physical := newTable]
      ensures Brokenable(old(machine), PdeIndex(virt), last, d)
      ensures machine == BrokenMachine(old(machine), PdeIndex(virt), last, d, alone, newTable.physical)
    {
      NotAnArray();
      EntryIs(last, PdeIndex(virt), 0);
      PrivatiseTable(spaces, tableAt, machine.dirs, machine.tables, current, last, spaces[current], spaces[last], virt,
                     alone, d.user, newTable);
      assert FramesOk(memory, machine.frames) by {
        assert old(FramesOk(memory, machine.frames));
      }
      Become(BrokenMachine(machine, PdeIndex(virt), last, d, alone, newTable.physical),
             tableAt[newTable.physical := newTable]);
    }

    /** First half of pg_resolve_fault, for a copy-on-write directory entry and a table to put there. */
    method BreakTable(virt: Word, newTable: TablePage)
      requires Valid() && UnknownTable(tableAt, newTable) && TableReady(machine, PdeIndex(virt), newTable.physical)
      modifies this`machine, this`tableAt, Footprint(), newTable.entries
      ensures Valid() && tableAt == old(tableAt)[newTable.physical := newTable]
      ensures M.BreakTable(old(machine), PdeIndex(virt), newTable.physical) == M.Done(machine, false)
    {
      EntryIs(current, PdeIndex(virt), 0);
      var d := spaces[current].directory[PdeIndex(virt)];
      var numCopies, last := CountTableSharers(PdeIndex(virt), d.table);
      TakeTable(virt, d, last, numCopies == 1, newTable);
    }

    /** The stores of the second half, given the result of the scan: on tables and pages only. */
    method StorePageCopy(virt: Word, d: Pte, last: int, alone: bool, newFrame: int)
      requires Valid() && current in spaces && last in spaces
      requires Copyable(machine, PdeIndex(virt), PteIndex(virt), last, d, newFrame)
      requires alone ==> M.PteOf(machine, last, PdeIndex(virt), PteIndex(virt)).copyOnWrite
      modifies Footprint()
      ensures unchanged(this)
      ensures var m1 := CopiedMachine(old(machine), PdeIndex(virt), PteIndex(virt), last, d, alone, newFrame);
        SpacesOk(spaces, tableAt, m1.dirs) && TablesOk(tableAt, m1.tables) && FramesOk(memory, m1.frames)
    {
      var s, k := PdeIndex(virt), PteIndex(virt);
      NotAnArray();
      EntryIs(current, s, k);
      EntryIs(last, s, k);
      DirectoriesApart(spaces, {spaces[current].tables[s].entries, spaces[last].tables[s].entries}, memory[newFrame]);
      PrivatisePage(tableAt, machine.tables, machine.dirs[current], memory, machine.frames, spaces[current],
                    virt, d, alone, spaces[last].tables[s], memory[d.frame], memory[newFrame], newFrame);
      assert SpacesOk(spaces, tableAt, machine.dirs) by {
        assert old(SpacesOk(spaces, tableAt, machine.dirs));
      }
    }

    method TakePage(virt: Word, d: Pte, last: int, alone: bool, newFrame: int)
      requires Valid() && current in spaces && last in spaces
      requires Copyable(machine, PdeIndex(virt), PteIndex(virt), last, d, newFrame)
      requires alone ==> M.PteOf(machine, last, PdeIndex(virt), PteIndex(virt)).copyOnWrite
      modifies this`machine, this`tableAt, Footprint()
      ensures Valid()
      ensures machine == CopiedMachine(old(machine), PdeIndex(virt), PteIndex(virt), last, d, alone, newFrame)
    {
      NotAnArray();
      StorePageCopy(virt, d, last, alone, newFrame);
      Become(CopiedMachine(machine, PdeIndex(virt), PteIndex(virt), last, d, alone, newFrame), tableAt);
    }

    /** Second half of pg_resolve_fault, for a copy-on-write table entry. */
    method BreakPage(virt: Word, newFrame: int) returns (missing: bool)
      requires Valid() && current in procs && M.PdeOf(machine, current, PdeIndex(virt)).present
      requires M.AllHaveTable(machine, PdeIndex(virt)) ==> CopyReady(machine, PdeIndex(virt), PteIndex(virt), newFrame)
      modifies this`machine, this`tableAt, Footprint()
      ensures Valid() && (missing <==> !M.AllHaveTable(old(machine), PdeIndex(virt)))
      ensures !missing ==> M.BreakPage(old(machine), PdeIndex(virt), PteIndex(virt), newFrame) == M.Done(machine, true)
    {
      var s, k := PdeIndex(virt), PteIndex(virt);
      EntryIs(current, s, k);
      var d := spaces[current].tables[s].entries[k];
      var numCopies, last;
      missing, numCopies, last := CountPageSharers(s, k, d.frame);
      if missing {
        return;
      }
      TakePage(virt, d, last, numCopies == 1, newFrame);
    }

    /** First half, with its guards: `lost` says that a new table is needed and there is none. */
    method ResolveDirectory(virt: Word, newTable: TablePage?, ghost footprint: set<object>) returns (lost: bool)
      requires Valid() && M.Inv(machine) && current in procs && PdeIndex(virt) < M.USER_SLOTS
      requires newTable != null ==> UnknownTable(tableAt, newTable) && newTable.entries in footprint
      requires Footprint() <= footprint && this !in footprint
      modifies this`machine, this`tableAt, footprint
      ensures Valid()
      ensures tableAt == old(tableAt) || (newTable != null && tableAt == old(tableAt)[newTable.physical := newTable])
      ensures lost <==> M.TableIsCow(old(machine), PdeIndex(virt)) && newTable == null
      ensures !lost ==> M.BreakTable(old(machine), PdeIndex(virt), PhysicalOf(newTable)) == M.Done(machine, false)
    {
      lost := false;
      SlotIs(current, PdeIndex(virt));
      var d := spaces[current].directory[PdeIndex(virt)];
      if d.present {
        if !d.writable && d.copyOnWrite {
          if newTable == null {
            return true;
          }
          UnknownIsFresh(newTable);
          LastTableSharer(machine, PdeIndex(virt), newTable.physical);
          BreakTable(virt, newTable);
        }
      }
    }

    /** Second half, with its guards. */
    method ResolveTable(virt: Word, newFrame: int, ghost footprint: set<object>) returns (answer: Answer)
      requires Valid() && current in procs
      requires Footprint() <= footprint && this !in footprint
      requires M.PageIsCow(machine, PdeIndex(virt), PteIndex(virt)) && M.AllHaveTable(machine, PdeIndex(virt)) ==>
        CopyReady(machine, PdeIndex(virt), PteIndex(virt), newFrame)
      modifies this`machine, this`tableAt, footprint
      ensures Valid()
      ensures AnswerIs(M.BreakPage(old(machine), PdeIndex(virt), PteIndex(virt), newFrame), answer, machine)
    {
      SlotIs(current, PdeIndex(virt));
      if spaces[current].tables[PdeIndex(virt)] == null {
        return NullTable;
      }
      EntryIs(current, PdeIndex(virt), PteIndex(virt));
      var e := spaces[current].tables[PdeIndex(virt)].entries[PteIndex(virt)];
      if e.present {
        if !e.writable && e.copyOnWrite {
          var missing := BreakPage(virt, newFrame);
          return if missing then NullTable else Resolved;
        }
      }
      return Unresolved;
    }

    /** pg_resolve_fault.  `newTable` and `newFrame` are what kalloc_page and mm_page_allocate return
        when they are called: NULL if there is no page for a table, and some physical page, new or
        not, for the copy. */
    method ResolveFault(virt: Word, newTable: TablePage?, newFrame: int) returns (answer: Answer)
      requires Valid() && M.Inv(machine) && current in procs && PdeIndex(virt) < M.USER_SLOTS
      requires (newTable != null ==> UnknownTable(tableAt, newTable)) && newFrame in machine.frames
      modifies this`machine, this`tableAt, Footprint(), if newTable == null then {} else {newTable.entries}
      ensures Valid()
      ensures AnswerIs(M.Fault(old(machine), PdeIndex(virt), PteIndex(virt), PhysicalOf(newTable), newFrame),
                       answer, machine)
    {
      var s, k := PdeIndex(virt), PteIndex(virt);
      if newTable != null { UnknownIsFresh(newTable); }
      ReadyForSecondHalf(machine, s, k, PhysicalOf(newTable), newFrame);
      NotAnArray();
      ghost var footprint := Footprint() + if newTable == null then {} else {newTable.entries};
      if newTable != null { ArraysGrow(spaces, tableAt, memory, newTable); }
      var lost := ResolveDirectory(virt, newTable, footprint);
      if lost {
        return NullTable;
      }
      answer := ResolveTable(virt, newFrame, footprint);
    }
  }

  /** NULL for a missing table. */
  function PhysicalOf(t: TablePage?): int { if t == null then M.NULL else t.physical }

  /** The answer is that of the model, and unless a NULL table was met so is the state. */
  ghost predicate AnswerIs(out: M.Outcome, answer: Answer, m: M.Machine) {
    match out
    case Done(m1, resolved) => m == m1 && answer == if resolved then Resolved else Unresolved
    case NullTable => answer.NullTable?
    case NoSharer => false
  }

  /** The first half, unless it is lost, prepares the second. */
  lemma ReadyForSecondHalf(m: M.Machine, s: nat, k: nat, t: int, f: int)
    requires M.Inv(m) && m.current in m.procs && s < M.USER_SLOTS && f in m.frames
    requires t != M.NULL ==> M.FreshTable(m, t)
    ensures M.TableIsCow(m, s) && t == M.NULL ==> M.BreakTable(m, s, t).NullTable?
    ensures !M.TableIsCow(m, s) || t != M.NULL ==> M.BreakTable(m, s, t).Done?
    ensures M.BreakTable(m, s, t).Done? ==>
      var m1 := M.BreakTable(m, s, t).machine;
      m1.current == m.current && m1.procs == m.procs &&
      (M.PageIsCow(m1, s, k) && M.AllHaveTable(m1, s) ==> CopyReady(m1, s, k, f))
  {
    if !M.TableIsCow(m, s) || t != M.NULL {
      var m1 := F.FirstHalf(m, s, k, t);
      if M.PageIsCow(m1, s, k) && M.AllHaveTable(m1, s) { LastPageSharer(m1, s, k, f); }
    }
  }

  /** pg_map written out: into a table that is there, and into a new one. */
  ghost function MappedThere(m: M.Machine, t: int, k: nat, f: int): M.Machine
    requires t in m.tables && k < |m.tables[t]|
  {
    m.(tables := m.tables[t := m.tables[t][k := Pte(true, true, true, false, f)]])
  }

  ghost function MappedAnew(m: M.Machine, p: int, s: nat, t: int, k: nat, f: int): M.Machine
    requires p in m.dirs && s < |m.dirs[p]| && k < ENTRIES
  {
    m.(dirs := m.dirs[p := m.dirs[p][s := Pde(true, true, true, false, t)]],
       tables := m.tables[t := EmptyTable()[k := Pte(true, true, true, false, f)]])
  }

  lemma MapPageIs(m: M.Machine, p: int, s: nat, k: nat, t: int, f: int)
    requires p in m.dirs && s < |m.dirs[p]| && k < ENTRIES
    ensures m.dirs[p][s].present && m.dirs[p][s].table in m.tables && |m.tables[m.dirs[p][s].table]| == ENTRIES ==>
      R.MapPage(m, p, s, k, t, f) == MappedThere(m, m.dirs[p][s].table, k, f)
    ensures !m.dirs[p][s].present ==> R.MapPage(m, p, s, k, t, f) == MappedAnew(m, p, s, t, k, f)
  {
  }

  ghost predicate Brokenable(m: M.Machine, s: nat, last: int, d: Pde) {
    last in m.dirs && s < |m.dirs[last]| && m.current in m.dirs && s < |m.dirs[m.current]| && d.table in m.tables
  }

  /** The state after the first half, written out. */
  ghost function BrokenMachine(m: M.Machine, s: nat, last: int, d: Pde, alone: bool, t: int): M.Machine
    requires Brokenable(m, s, last, d)
  {
    var dirs := if alone then m.dirs[last := m.dirs[last][s := ReleaseTable(m.dirs[last][s])]] else m.dirs;
    var es := M.DemoteTable(m.tables[d.table]);
    m.(dirs := dirs[m.current := dirs[m.current][s := Pde(true, true, d.user, false, t)]],
       tables := m.tables[d.table := es][t := es])
  }

  /** What the first scan guarantees about `last`, and the state that BreakTable leads to. */
  ghost predicate TableReady(m: M.Machine, s: nat, t: int) {
    var d := M.PdeOf(m, m.current, s); var sharers := M.TableSharers(m, s, d.table);
    m.current in m.procs && d.present && sharers != [] &&
    (var last := sharers[|sharers| - 1];
    last in m.procs && last != m.current && M.UsesTable(m, last, s, d.table) &&
    M.PdeOf(m, last, s).copyOnWrite && Brokenable(m, s, last, d) &&
    M.BreakTable(m, s, t) == M.Done(BrokenMachine(m, s, last, d, |sharers| == 1, t), false))
  }

  lemma LastTableSharer(m: M.Machine, s: nat, t: int)
    requires F.TableFault(m, s, t)
    ensures TableReady(m, s, t)
  {
    F.CowTableHasSharer(m, s);
    var d := M.PdeOf(m, m.current, s);
    var sharers := M.TableSharers(m, s, d.table);
    F.TableSharersExact(m, s, d.table);
    var last := sharers[|sharers| - 1];
    assert last in sharers;
    assert M.TableRuleAt(m, last, s);
    assert M.UsesTable(m, m.current, s, M.PdeOf(m, last, s).table);
  }

  ghost predicate Copyable(m: M.Machine, s: nat, k: nat, last: int, d: Pte, f: int) {
    s < SLOTS && k < ENTRIES && M.PdeOf(m, m.current, s).present && M.PdeOf(m, last, s).present &&
    M.PdeOf(m, m.current, s).table in m.tables && M.PdeOf(m, last, s).table in m.tables &&
    k < |m.tables[M.PdeOf(m, m.current, s).table]| && k < |m.tables[M.PdeOf(m, last, s).table]| &&
    M.PdeOf(m, m.current, s).table != M.PdeOf(m, last, s).table &&
    d.frame in m.frames && f in m.frames
  }

  /** The state after the second half, written out. */
  ghost function CopiedMachine(m: M.Machine, s: nat, k: nat, last: int, d: Pte, alone: bool, f: int): M.Machine
    requires Copyable(m, s, k, last, d, f)
  {
    var t, u := M.PdeOf(m, m.current, s).table, M.PdeOf(m, last, s).table;
    var tables := if alone then m.tables[u := m.tables[u][k := ReleasePage(m.tables[u][k])]] else m.tables;
    m.(tables := tables[t := tables[t][k := Pte(true, true, d.user, false, f)]],
       frames := m.frames[f := m.frames[d.frame]])
  }

  /** What the second scan guarantees about `last`, and the state that BreakPage leads to. */
  ghost predicate CopyReady(m: M.Machine, s: nat, k: nat, f: int) {
    var d := M.PteOf(m, m.current, s, k); var sharers := M.PageSharers(m, s, k, d.frame);
    sharers != [] &&
    (var last := sharers[|sharers| - 1];
    last in m.procs && Copyable(m, s, k, last, d, f) && (|sharers| == 1 ==> M.PteOf(m, last, s, k).copyOnWrite) &&
    M.BreakPage(m, s, k, f) == M.Done(CopiedMachine(m, s, k, last, d, |sharers| == 1, f), true))
  }

  lemma LastPageSharer(m: M.Machine, s: nat, k: nat, f: int)
    requires F.PageCopy(m, s, k) && f in m.frames
    ensures CopyReady(m, s, k, f)
  {
    F.CowPageHasSharer(m, s, k);
    var d := M.PteOf(m, m.current, s, k);
    var sharers := M.PageSharers(m, s, k, d.frame);
    F.PageSharersExact(m, s, k, d.frame);
    var last := sharers[|sharers| - 1];
    assert last in sharers && M.MapsFrame(m, last, s, k, d.frame);
    LastIsCopyable(m, s, k, last, f);
    CopyIs(m, s, k, last, f);
  }

  lemma LastIsCopyable(m: M.Machine, s: nat, k: nat, last: int, f: int)
    requires F.PageCopy(m, s, k) && f in m.frames
    requires last != m.current && M.MapsFrame(m, last, s, k, M.PteOf(m, m.current, s, k).frame)
    ensures Copyable(m, s, k, last, M.PteOf(m, m.current, s, k), f)
  {
    assert M.TableRuleAt(m, m.current, s);
    assert !M.UsesTable(m, last, s, M.PdeOf(m, m.current, s).table);
  }

  lemma CopyIs(m: M.Machine, s: nat, k: nat, last: int, f: int)
    requires F.PageCopy(m, s, k) && Copyable(m, s, k, last, M.PteOf(m, m.current, s, k), f)
    requires var sharers := M.PageSharers(m, s, k, M.PteOf(m, m.current, s, k).frame);
      sharers != [] && last == sharers[|sharers| - 1]
    ensures var d := M.PteOf(m, m.current, s, k); var sharers := M.PageSharers(m, s, k, d.frame);
      (|sharers| == 1 ==> M.PteOf(m, last, s, k).copyOnWrite) &&
      M.BreakPage(m, s, k, f) == M.Done(CopiedMachine(m, s, k, last, d, |sharers| == 1, f), true)
  {
    F.BreakPageReleases(m, s, k, f);
    var sharers := M.PageSharers(m, s, k, M.PteOf(m, m.current, s, k).frame);
    if |sharers| == 1 {
      var last' := F.SolePageSharer(m, s, k);
    }
  }
}
