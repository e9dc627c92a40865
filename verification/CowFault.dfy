/** Fault resolution keeps the ownership invariant, is defined whenever every process has a table
    at the faulting slot, and changes nobody's view of memory. */
module CowFault {
  import opened PageEntries
  import opened CowModel
  import opened Words

  // ----- Sharer counting -----

  lemma {:induction false} UniqueMember(xs: seq<Pid>, p: Pid, q: Pid)
    requires |xs| == 1 && p in xs && q in xs
    ensures p == q && xs == [p]
  {
  }

  lemma TwoMembers(xs: seq<Pid>, p: Pid) returns (q: Pid)
    requires NoDuplicates(xs) && |xs| >= 2
    ensures q in xs && q != p
  {
    q := if xs[0] == p then xs[1] else xs[0];
  }

  /** The scan finds exactly the other users of the table, each once. */
  lemma TableSharersExact(m: Machine, s: nat, t: int)
    requires Shape(m)
    ensures forall q: Pid :: q in TableSharers(m, s, t) <==> q != m.current && UsesTable(m, q, s, t)
    ensures NoDuplicates(TableSharers(m, s, t))
  {
    OthersMembers(m.procs, m.current, (q: Pid) => UsesTable(m, q, s, t));
  }

  lemma PageSharersExact(m: Machine, s: nat, k: nat, f: int)
    requires Shape(m)
    ensures forall q: Pid :: q in PageSharers(m, s, k, f) <==> q != m.current && MapsFrame(m, q, s, k, f)
    ensures NoDuplicates(PageSharers(m, s, k, f))
  {
    OthersMembers(m.procs, m.current, (q: Pid) => MapsFrame(m, q, s, k, f));
  }

  /** A copy-on-write directory entry always has another listed process on its table, so the scan
      leaves `last` assigned. */
  lemma CowTableHasSharer(m: Machine, s: nat)
    requires Inv(m) && s < USER_SLOTS && TableIsCow(m, s)
    ensures TableSharers(m, s, PdeOf(m, m.current, s).table) != []
  {
    assert TableRuleAt(m, m.current, s);
    TableSharersExact(m, s, PdeOf(m, m.current, s).table);
  }

  lemma CowPageHasSharer(m: Machine, s: nat, k: nat)
    requires Inv(m) && s < USER_SLOTS && PageIsCow(m, s, k)
    ensures PageSharers(m, s, k, PteOf(m, m.current, s, k).frame) != []
  {
    assert PageRuleAt(m, m.current, s, k);
    PageSharersExact(m, s, k, PteOf(m, m.current, s, k).frame);
  }

  // ----- First half -----

  /** What BreakTable requires of its caller: a listed current process and a new table. */
  ghost predicate TableFault(m: Machine, s: nat, t: int) {
    Inv(m) && m.current in m.procs && s < USER_SLOTS && TableIsCow(m, s) && FreshTable(m, t)
  }

  /** Expected directory entry after the first half: the current process has a new writable table;
      if exactly one sharer remains, that one and no other gets write access back. */
  function BrokenPde(m: Machine, s: nat, t: int, q: Pid, s': nat): Pde {
    var d := PdeOf(m, m.current, s);
    if s' != s then PdeOf(m, q, s')
    else if q == m.current then Pde(true, true, d.user, false, t)
    else
      var c := PdeOf(m, q, s);
      if [q] == TableSharers(m, s, d.table) then Pde(c.present, true, c.user, false, c.table) else c
  }

  /** Expected table entry: pages of the old table are copy-on-write for everyone who had it. */
  function BrokenPte(m: Machine, s: nat, q: Pid, s': nat, k: nat): Pte {
    var e := PteOf(m, q, s', k);
    if UsesTable(m, q, s', PdeOf(m, m.current, s).table)
    then Pte(e.present, false, e.user, e.writable || e.copyOnWrite, e.frame) else e
  }

  lemma SetPdeAt(m: Machine, p: Pid, s: nat, d: Pde, q: Pid, s': nat)
    requires p in m.dirs && s < |m.dirs[p]|
    ensures PdeOf(SetPde(m, p, s, d), q, s') == if q == p && s' == s then d else PdeOf(m, q, s')
  {
  }

  lemma BreakTableDone(m: Machine, s: nat, t: int)
    requires TableFault(m, s, t)
    ensures BreakTable(m, s, t).Done?
    ensures var m1 := BreakTable(m, s, t).machine; var d := PdeOf(m, m.current, s);
      var es := DemoteTable(m.tables[d.table]);
      m1.procs == m.procs && m1.current == m.current && m1.frames == m.frames &&
      m1.tables == m.tables[d.table := es][t := es]
    ensures var d := PdeOf(m, m.current, s); var sharers := TableSharers(m, s, d.table);
      var mine := Pde(true, true, d.user, false, t);
      BreakTable(m, s, t).machine.dirs ==
      if |sharers| == 1
      then SetPde(SetPde(m, sharers[0], s, ReleaseTable(PdeOf(m, sharers[0], s))), m.current, s, mine).dirs
      else SetPde(m, m.current, s, mine).dirs
  {
    CowTableHasSharer(m, s);
    TableSharersExact(m, s, PdeOf(m, m.current, s).table);
    var sharers := TableSharers(m, s, PdeOf(m, m.current, s).table);
    var last := sharers[|sharers| - 1];
    assert last in sharers;
    assert TableRuleAt(m, last, s);
    assert UsesTable(m, m.current, s, PdeOf(m, last, s).table);
  }

  lemma BreakTablePde(m: Machine, s: nat, t: int, q: Pid, s': nat)
    requires TableFault(m, s, t)
    ensures BreakTable(m, s, t).Done? && PdeOf(BreakTable(m, s, t).machine, q, s') == BrokenPde(m, s, t, q, s')
  {
    BreakTableDone(m, s, t);
    var d := PdeOf(m, m.current, s);
    var sharers := TableSharers(m, s, d.table);
    var mine := Pde(true, true, d.user, false, t);
    if |sharers| == 1 {
      var last := sharers[0];
      assert last in sharers && last != m.current && UsesTable(m, last, s, d.table) by {
        TableSharersExact(m, s, d.table);
      }
      assert sharers == [last];
      var m1 := SetPde(m, last, s, ReleaseTable(PdeOf(m, last, s)));
      SetPdeAt(m, last, s, ReleaseTable(PdeOf(m, last, s)), q, s');
      SetPdeAt(m1, m.current, s, mine, q, s');
    } else {
      SetPdeAt(m, m.current, s, mine, q, s');
    }
  }

  /** Only the old table's entries differ, and the new table is a copy of it. */
  lemma DemotedPte(m: Machine, s: nat, t: int, m1: Machine, q: Pid, s': nat, k: nat)
    requires TableFault(m, s, t) && s' < USER_SLOTS
    requires PdeOf(m, m.current, s).table in m.tables
    requires var u0 := PdeOf(m, m.current, s).table; var es := DemoteTable(m.tables[u0]);
      m1.tables == m.tables[u0 := es][t := es]
    requires PdeOf(m1, q, s') == BrokenPde(m, s, t, q, s')
    ensures PteOf(m1, q, s', k) == BrokenPte(m, s, q, s', k)
  {
  }

  lemma BreakTablePte(m: Machine, s: nat, t: int, q: Pid, s': nat, k: nat)
    requires TableFault(m, s, t) && s' < USER_SLOTS
    ensures BreakTable(m, s, t).Done? && PteOf(BreakTable(m, s, t).machine, q, s', k) == BrokenPte(m, s, q, s', k)
  {
    BreakTablePde(m, s, t, q, s');
    var m1 := BreakTable(m, s, t).machine;
    assert PdeOf(m, m.current, s).table in m.tables;
    assert m1.tables == m.tables[PdeOf(m, m.current, s).table := DemoteTable(m.tables[PdeOf(m, m.current, s).table])]
                                [t := DemoteTable(m.tables[PdeOf(m, m.current, s).table])] by {
      BreakTableDone(m, s, t);
    }
    DemotedPte(m, s, t, m1, q, s', k);
  }

  ghost predicate BrokenEntries(m: Machine, s: nat, t: int, m1: Machine) {
    && (forall q: Pid, s': nat :: s' < USER_SLOTS ==> PdeOf(m1, q, s') == BrokenPde(m, s, t, q, s'))
    && (forall q: Pid, s': nat, k: nat :: s' < USER_SLOTS ==> PteOf(m1, q, s', k) == BrokenPte(m, s, q, s', k))
  }

  lemma BreakTableEntries(m: Machine, s: nat, t: int)
    requires TableFault(m, s, t)
    ensures BreakTable(m, s, t).Done? && BrokenEntries(m, s, t, BreakTable(m, s, t).machine)
  {
    BreakTableDone(m, s, t);
    var m1 := BreakTable(m, s, t).machine;
    forall q: Pid, s': nat | s' < USER_SLOTS ensures PdeOf(m1, q, s') == BrokenPde(m, s, t, q, s') {
      BreakTablePde(m, s, t, q, s');
    }
    forall q: Pid, s': nat, k: nat | s' < USER_SLOTS ensures PteOf(m1, q, s', k) == BrokenPte(m, s, q, s', k) {
      BreakTablePte(m, s, t, q, s', k);
    }
  }

  /** A sharer left alone on the old table is its sole user and writable. */
  lemma BreakTableLastSharer(m: Machine, s: nat, t: int, m1: Machine, p: Pid)
    requires TableFault(m, s, t) && BrokenEntries(m, s, t, m1)
    requires p != m.current && UsesTable(m, p, s, PdeOf(m, m.current, s).table)
    requires |TableSharers(m, s, PdeOf(m, m.current, s).table)| == 1
    ensures PdeOf(m1, p, s) == ReleaseTable(PdeOf(m, p, s)) && SoleTableUser(m1, p, s)
  {
    var u := PdeOf(m, m.current, s).table;
    var sharers := TableSharers(m, s, u);
    TableSharersExact(m, s, u);
    UniqueMember(sharers, p, p);
    assert !UsesTable(m, m.current, s, t);
    forall q: Pid | q != p ensures !UsesTable(m1, q, s, u) {
      if UsesTable(m, q, s, u) && q != m.current {
        UniqueMember(sharers, p, q);
      }
    }
  }

  /** Several sharers left on the old table stay copy-on-write. */
  lemma BreakTableManySharers(m: Machine, s: nat, t: int, m1: Machine, p: Pid)
    requires TableFault(m, s, t) && BrokenEntries(m, s, t, m1)
    requires p != m.current && UsesTable(m, p, s, PdeOf(m, m.current, s).table)
    requires |TableSharers(m, s, PdeOf(m, m.current, s).table)| >= 2
    ensures PdeOf(m1, p, s) == PdeOf(m, p, s) && !SoleTableUser(m1, p, s)
  {
    var u := PdeOf(m, m.current, s).table;
    TableSharersExact(m, s, u);
    var q := TwoMembers(TableSharers(m, s, u), p);
    assert UsesTable(m1, q, s, u);
  }

  lemma BreakTableSharerRule(m: Machine, s: nat, t: int, m1: Machine, p: Pid)
    requires TableFault(m, s, t) && BrokenEntries(m, s, t, m1)
    requires p != m.current && UsesTable(m, p, s, PdeOf(m, m.current, s).table)
    ensures TableRuleAt(m1, p, s)
  {
    CowTableHasSharer(m, s);
    assert TableRuleAt(m, p, s);
    assert UsesTable(m, m.current, s, PdeOf(m, p, s).table);
    if |TableSharers(m, s, PdeOf(m, m.current, s).table)| == 1 {
      BreakTableLastSharer(m, s, t, m1, p);
    } else {
      BreakTableManySharers(m, s, t, m1, p);
    }
  }

  /** Entries of other tables are as before. */
  lemma BreakTableOtherPde(m: Machine, s: nat, t: int, m1: Machine, p: Pid, s': nat)
    requires TableFault(m, s, t) && s' < USER_SLOTS && BrokenEntries(m, s, t, m1)
    requires s' != s || (p != m.current && !UsesTable(m, p, s, PdeOf(m, m.current, s).table))
    ensures PdeOf(m1, p, s') == PdeOf(m, p, s')
  {
    TableSharersExact(m, s, PdeOf(m, m.current, s).table);
    assert p in [p];
  }

  lemma BreakTableOtherRule(m: Machine, s: nat, t: int, m1: Machine, p: Pid, s': nat)
    requires TableFault(m, s, t) && s' < USER_SLOTS && BrokenEntries(m, s, t, m1) && PdeOf(m, p, s').present
    requires s' != s || (p != m.current && !UsesTable(m, p, s, PdeOf(m, m.current, s).table))
    ensures TableRuleAt(m1, p, s')
  {
    var u := PdeOf(m, p, s').table;
    assert TableRuleAt(m, p, s');
    BreakTableOtherPde(m, s, t, m1, p, s');
    assert !UsesTable(m, p, s', t) && u != t;
    if PdeOf(m, p, s').writable {
      assert forall q: Pid :: UsesTable(m1, q, s', u) ==> UsesTable(m, q, s', u);
    } else {
      var q: Pid :| q != p && UsesTable(m, q, s', u);
      assert UsesTable(m1, q, s', u);
    }
  }

  lemma BreakTableKeepsTableRule(m: Machine, s: nat, t: int, m1: Machine, p: Pid, s': nat)
    requires TableFault(m, s, t) && s' < USER_SLOTS
    requires BrokenEntries(m, s, t, m1) && PdeOf(m1, p, s').present
    ensures TableRuleAt(m1, p, s')
  {
    if s' == s && p == m.current {
      assert forall q: Pid :: q != p ==> !UsesTable(m, q, s, t);
    } else if UsesTable(m, p, s, PdeOf(m, m.current, s).table) && s' == s {
      BreakTableSharerRule(m, s, t, m1, p);
    } else {
      BreakTableOtherPde(m, s, t, m1, p, s');
      BreakTableOtherRule(m, s, t, m1, p, s');
    }
  }

  lemma BreakTableKeepsPageRule(m: Machine, s: nat, t: int, m1: Machine, p: Pid, s': nat, k: nat)
    requires TableFault(m, s, t) && s' < USER_SLOTS
    requires BrokenEntries(m, s, t, m1) && PteOf(m1, p, s', k).present
    ensures PageRuleAt(m1, p, s', k)
  {
    var d := PdeOf(m, m.current, s);
    var e := PteOf(m, p, s', k);
    assert UsesTable(m, m.current, s, d.table);
    assert PageRuleAt(m, p, s', k);
    if UsesTable(m, p, s', d.table) {
      assert s' == s;
      assert TableRuleAt(m, m.current, s);
      var other: Pid :| other != m.current && UsesTable(m, other, s, d.table);
      var q := if p == m.current then other else m.current;
      assert MapsFrame(m1, q, s, k, e.frame);
    } else if e.writable {
      forall q: Pid | MapsFrame(m1, q, s', k, e.frame) ensures UsesTable(m1, q, s', PdeOf(m1, p, s').table) {
        assert MapsFrame(m, q, s', k, e.frame);
        assert UsesTable(m, q, s', PdeOf(m, p, s').table);
      }
    } else {
      var q: Pid :| q != p && MapsFrame(m, q, s', k, e.frame);
      assert MapsFrame(m1, q, s', k, e.frame);
    }
  }

  lemma BreakTableKeepsPlaces(m: Machine, s: nat, t: int, m1: Machine)
    requires TableFault(m, s, t) && BrokenEntries(m, s, t, m1)
    ensures OneSlotPerTable(m1) && OnePagePerFrame(m1)
  {
    forall p: Pid, s1: nat, q: Pid, s2: nat | s1 < USER_SLOTS && s2 < USER_SLOTS &&
        UsesTable(m1, p, s1, PdeOf(m1, p, s1).table) && UsesTable(m1, q, s2, PdeOf(m1, p, s1).table)
      ensures s1 == s2
    {
      assert !UsesTable(m, p, s1, t) && !UsesTable(m, q, s2, t);
      if PdeOf(m1, p, s1).table != t {
        assert UsesTable(m, p, s1, PdeOf(m, p, s1).table) && UsesTable(m, q, s2, PdeOf(m, p, s1).table);
      }
    }
    forall p: Pid, s1: nat, k1: nat, q: Pid, s2: nat, k2: nat | s1 < USER_SLOTS && s2 < USER_SLOTS &&
        PteOf(m1, p, s1, k1).present && MapsFrame(m1, q, s2, k2, PteOf(m1, p, s1, k1).frame)
      ensures s1 == s2 && k1 == k2
    {
      assert PteOf(m, p, s1, k1).present && MapsFrame(m, q, s2, k2, PteOf(m, p, s1, k1).frame);
    }
  }

  /** The parts of the state outside single entries. */
  ghost predicate TableStored(m: Machine, s: nat, t: int, m1: Machine) {
    && m1.procs == m.procs && m1.current == m.current && m1.frames == m.frames
    && (forall p :: p in m1.dirs <==> p in m.dirs)
    && (forall p :: p in m.dirs ==> |m1.dirs[p]| == |m.dirs[p]|)
    && (forall u :: u in m1.tables <==> u == t || u in m.tables)
    && (forall u :: u in m1.tables ==> |m1.tables[u]| == ENTRIES)
  }

  lemma BreakTableStored(m: Machine, s: nat, t: int)
    requires TableFault(m, s, t)
    ensures BreakTable(m, s, t).Done? && !BreakTable(m, s, t).resolved
    ensures TableStored(m, s, t, BreakTable(m, s, t).machine)
  {
    BreakTableDone(m, s, t);
    var sharers := TableSharers(m, s, PdeOf(m, m.current, s).table);
    TableSharersExact(m, s, PdeOf(m, m.current, s).table);
    assert |sharers| == 1 ==> sharers[0] in sharers;
  }

  lemma BreakTableKeepsShape(m: Machine, s: nat, t: int, m1: Machine)
    requires TableFault(m, s, t) && TableStored(m, s, t, m1) && BrokenEntries(m, s, t, m1)
    ensures Shape(m1) && TablesExist(m1) && FramesExist(m1)
  {
  }

  lemma {:induction false} BreakTableKeepsInv(m: Machine, s: nat, t: int)
    requires TableFault(m, s, t)
    ensures BreakTable(m, s, t).Done? && Inv(BreakTable(m, s, t).machine)
  {
    BreakTableStored(m, s, t);
    var m1 := BreakTable(m, s, t).machine;
    BreakTableEntries(m, s, t);
    BreakTableKeepsShape(m, s, t, m1);
    BreakTableKeepsPlaces(m, s, t, m1);
    forall p: Pid, s': nat | s' < USER_SLOTS && PdeOf(m1, p, s').present ensures TableRuleAt(m1, p, s') {
      BreakTableKeepsTableRule(m, s, t, m1, p, s');
    }
    forall p: Pid, s': nat, k: nat | s' < USER_SLOTS && PteOf(m1, p, s', k).present ensures PageRuleAt(m1, p, s', k) {
      BreakTableKeepsPageRule(m, s, t, m1, p, s', k);
    }
  }

  // ----- Second half -----

  /** What BreakPage requires of the state: the current process owns its table, and everyone has a
      table at the slot. */
  ghost predicate PageCopy(m: Machine, s: nat, k: nat) {
    Inv(m) && m.current in m.procs && s < USER_SLOTS && PageIsCow(m, s, k) &&
    PdeOf(m, m.current, s).writable && AllHaveTable(m, s)
  }

  /** And of the allocator: the new frame is in use nowhere. */
  ghost predicate PageFault(m: Machine, s: nat, k: nat, f: int) {
    PageCopy(m, s, k) && FreshFrame(m, f)
  }

  function BrokenPagePte(m: Machine, s: nat, k: nat, f: int, q: Pid, s': nat, k': nat): Pte {
    var e := PteOf(m, m.current, s, k);
    if s' != s || k' != k then PteOf(m, q, s', k')
    else if q == m.current then Pte(true, true, e.user, false, f)
    else
      var c := PteOf(m, q, s, k);
      if [q] == PageSharers(m, s, k, e.frame) then Pte(c.present, true, c.user, false, c.frame) else c
  }

  lemma SetEntryAt(m: Machine, t: int, k: nat, e: Pte, q: Pid, s': nat, k': nat)
    requires t in m.tables && k < |m.tables[t]|
    ensures PdeOf(SetEntry(m, t, k, e), q, s') == PdeOf(m, q, s')
    ensures PteOf(SetEntry(m, t, k, e), q, s', k') ==
      if UsesTable(m, q, s', t) && k' == k then e else PteOf(m, q, s', k')
  {
  }

  /** The one sharer left, if there is one: a copy-on-write entry in a table of its own. */
  lemma SolePageSharer(m: Machine, s: nat, k: nat) returns (last: Pid)
    requires PageCopy(m, s, k) && |PageSharers(m, s, k, PteOf(m, m.current, s, k).frame)| == 1
    ensures PageSharers(m, s, k, PteOf(m, m.current, s, k).frame) == [last]
    ensures last != m.current && MapsFrame(m, last, s, k, PteOf(m, m.current, s, k).frame)
    ensures PteOf(m, last, s, k).copyOnWrite
    ensures SoleTableUser(m, last, s) && PdeOf(m, last, s).table != PdeOf(m, m.current, s).table
  {
    var frame := PteOf(m, m.current, s, k).frame;
    var sharers := PageSharers(m, s, k, frame);
    PageSharersExact(m, s, k, frame);
    last := sharers[0];
    assert last in sharers;
    UniqueMember(sharers, last, last);
    assert TableRuleAt(m, m.current, s);
    assert !UsesTable(m, last, s, PdeOf(m, m.current, s).table);
    forall q: Pid | q != last ensures !UsesTable(m, q, s, PdeOf(m, last, s).table) {
      if UsesTable(m, q, s, PdeOf(m, last, s).table) {
        assert MapsFrame(m, q, s, k, frame);
        if q != m.current { UniqueMember(sharers, last, q); }
      }
    }
    assert PageRuleAt(m, last, s, k);
    if PteOf(m, last, s, k).writable {
      assert MapsFrame(m, m.current, s, k, frame);
    }
  }

  ghost predicate BrokenPageEntries(m: Machine, s: nat, k: nat, f: int, m1: Machine) {
    && (forall q: Pid, s': nat :: PdeOf(m1, q, s') == PdeOf(m, q, s'))
    && (forall q: Pid, s': nat, k': nat :: s' < USER_SLOTS ==>
          PteOf(m1, q, s', k') == BrokenPagePte(m, s, k, f, q, s', k'))
  }

  /** The state after the one remaining sharer, if there is one, has write access back. */
  function Released(m: Machine, s: nat, k: nat): Machine {
    var sharers := PageSharers(m, s, k, PteOf(m, m.current, s, k).frame);
    if |sharers| == 1
    then SetEntry(m, PdeOf(m, sharers[0], s).table, k, ReleasePage(PteOf(m, sharers[0], s, k))) else m
  }

  lemma BreakPageReleases(m: Machine, s: nat, k: nat, f: int)
    requires PageCopy(m, s, k)
    ensures var e := PteOf(m, m.current, s, k);
      BreakPage(m, s, k, f) == Done(SetEntry(Released(m, s, k).(frames := m.frames[f := Contents(m, m.current, s, k)]),
        PdeOf(m, m.current, s).table, k, Pte(true, true, e.user, false, f)), true)
  {
    if |PageSharers(m, s, k, PteOf(m, m.current, s, k).frame)| == 1 {
      var last := SolePageSharer(m, s, k);
    }
  }

  lemma SetEntryOnly(m: Machine, frames: map<int, seq<Word>>, t: int, k: nat, e: Pte)
    ensures SetEntry(m.(frames := frames), t, k, e) == SetEntry(m, t, k, e).(frames := frames)
    ensures SetEntry(m, t, k, e).(tables := m.tables) == m
  {
  }

  lemma BreakPageDone(m: Machine, s: nat, k: nat, f: int)
    requires PageCopy(m, s, k)
    ensures BreakPage(m, s, k, f).Done? && BreakPage(m, s, k, f).resolved
    ensures var m1 := BreakPage(m, s, k, f).machine; var e := PteOf(m, m.current, s, k);
      m1.procs == m.procs && m1.current == m.current && m1.dirs == m.dirs &&
      e.frame in m.frames && m1.frames == m.frames[f := m.frames[e.frame]]
    ensures var m1 := BreakPage(m, s, k, f).machine; var e := PteOf(m, m.current, s, k);
      m1.tables ==
      SetEntry(Released(m, s, k), PdeOf(m, m.current, s).table, k, Pte(true, true, e.user, false, f)).tables
  {
    BreakPageReleases(m, s, k, f);
    var m0, e := Released(m, s, k), PteOf(m, m.current, s, k);
    SetEntryOnly(m0, m.frames[f := Contents(m, m.current, s, k)], PdeOf(m, m.current, s).table, k,
                 Pte(true, true, e.user, false, f));
  }

  /** The parts of the state outside single table entries. */
  ghost predicate PageStored(m: Machine, s: nat, k: nat, f: int, m1: Machine) {
    && m1.procs == m.procs && m1.current == m.current && m1.dirs == m.dirs
    && PteOf(m, m.current, s, k).frame in m.frames
    && m1.frames == m.frames[f := m.frames[PteOf(m, m.current, s, k).frame]]
    && (forall t :: t in m1.tables <==> t in m.tables)
    && (forall t :: t in m.tables ==> |m1.tables[t]| == |m.tables[t]|)
  }

  ghost predicate SameShape(m: Machine, m1: Machine) {
    (forall t :: t in m1.tables <==> t in m.tables) && (forall t :: t in m.tables ==> |m1.tables[t]| == |m.tables[t]|)
  }

  lemma SetEntryShape(m: Machine, t: int, k: nat, e: Pte)
    ensures SameShape(m, SetEntry(m, t, k, e))
  {
  }

  lemma ReleasedShape(m: Machine, s: nat, k: nat)
    ensures SameShape(m, Released(m, s, k))
  {
  }

  lemma BreakPageStored(m: Machine, s: nat, k: nat, f: int)
    requires PageCopy(m, s, k)
    ensures BreakPage(m, s, k, f).Done? && PageStored(m, s, k, f, BreakPage(m, s, k, f).machine)
  {
    BreakPageDone(m, s, k, f);
    SetEntryShape(Released(m, s, k), PdeOf(m, m.current, s).table, k,
                  Pte(true, true, PteOf(m, m.current, s, k).user, false, f));
    ReleasedShape(m, s, k);
  }

  lemma BreakPagePte(m: Machine, s: nat, k: nat, f: int, q: Pid, s': nat, k': nat)
    requires PageCopy(m, s, k) && s' < USER_SLOTS
    ensures BreakPage(m, s, k, f).Done?
    ensures PteOf(BreakPage(m, s, k, f).machine, q, s', k') == BrokenPagePte(m, s, k, f, q, s', k')
  {
    BreakPageDone(m, s, k, f);
    var e := PteOf(m, m.current, s, k);
    var own := PdeOf(m, m.current, s).table;
    var mine := Pte(true, true, e.user, false, f);
    assert TableRuleAt(m, m.current, s);
    assert UsesTable(m, m.current, s, own);
    assert UsesTable(m, q, s', own) ==> s' == s && q == m.current;
    if |PageSharers(m, s, k, e.frame)| == 1 {
      var last := SolePageSharer(m, s, k);
      var c := PdeOf(m, last, s).table;
      assert UsesTable(m, last, s, c);
      assert UsesTable(m, q, s', c) ==> s' == s && q == last;
      SetEntryAt(m, c, k, ReleasePage(PteOf(m, last, s, k)), q, s', k');
      SetEntryAt(SetEntry(m, c, k, ReleasePage(PteOf(m, last, s, k))), own, k, mine, q, s', k');
      assert [q] == [last] <==> q == last;
    } else {
      SetEntryAt(m, own, k, mine, q, s', k');
    }
  }

  lemma BreakPageEntries(m: Machine, s: nat, k: nat, f: int)
    requires PageCopy(m, s, k)
    ensures BreakPage(m, s, k, f).Done? && BrokenPageEntries(m, s, k, f, BreakPage(m, s, k, f).machine)
  {
    BreakPageDone(m, s, k, f);
    var m1 := BreakPage(m, s, k, f).machine;
    forall q: Pid, s': nat, k': nat | s' < USER_SLOTS
      ensures PteOf(m1, q, s', k') == BrokenPagePte(m, s, k, f, q, s', k')
    {
      BreakPagePte(m, s, k, f, q, s', k');
    }
  }

  /** The old frame's other users: alone and writable, or several and copy-on-write. */
  lemma BreakPageSharerRule(m: Machine, s: nat, k: nat, f: int, m1: Machine, p: Pid)
    requires PageFault(m, s, k, f) && BrokenPageEntries(m, s, k, f, m1)
    requires p != m.current && MapsFrame(m, p, s, k, PteOf(m, m.current, s, k).frame)
    ensures PageRuleAt(m1, p, s, k)
  {
    var frame := PteOf(m, m.current, s, k).frame;
    var sharers := PageSharers(m, s, k, frame);
    PageSharersExact(m, s, k, frame);
    assert p in sharers;
    assert !MapsFrame(m, m.current, s, k, f);
    if |sharers| == 1 {
      var last := SolePageSharer(m, s, k);
      UniqueMember(sharers, last, p);
      forall q: Pid | MapsFrame(m1, q, s, k, frame) ensures q == p {
        if q != p && q != m.current {
          assert [q] != [last] by { assert [q][0] != [last][0]; }
          assert MapsFrame(m, q, s, k, frame);
          UniqueMember(sharers, last, q);
        }
      }
      assert UsesTable(m1, p, s, PdeOf(m1, p, s).table);
    } else {
      BreakPageManySharers(m, s, k, f, m1, p);
    }
  }

  lemma BreakPageManySharers(m: Machine, s: nat, k: nat, f: int, m1: Machine, p: Pid)
    requires PageFault(m, s, k, f) && BrokenPageEntries(m, s, k, f, m1)
    requires p != m.current && MapsFrame(m, p, s, k, PteOf(m, m.current, s, k).frame)
    requires |PageSharers(m, s, k, PteOf(m, m.current, s, k).frame)| != 1
    ensures PageRuleAt(m1, p, s, k)
  {
    var frame := PteOf(m, m.current, s, k).frame;
    var sharers := PageSharers(m, s, k, frame);
    PageSharersExact(m, s, k, frame);
    assert p in sharers;
    assert |[p]| == 1;
    var q := TwoMembers(sharers, p);
    assert [q] != sharers;
    assert MapsFrame(m1, q, s, k, frame);
    assert PageRuleAt(m, p, s, k);
    assert MapsFrame(m, m.current, s, k, frame);
    assert TableRuleAt(m, m.current, s);
    assert PteOf(m1, p, s, k) == PteOf(m, p, s, k);
    assert PteOf(m, p, s, k).writable ==> UsesTable(m, m.current, s, PdeOf(m, p, s).table);
  }

  lemma BreakPageKeepsPageRule(m: Machine, s: nat, k: nat, f: int, m1: Machine, p: Pid, s': nat, k': nat)
    requires PageFault(m, s, k, f) && BrokenPageEntries(m, s, k, f, m1) && s' < USER_SLOTS
    requires PteOf(m1, p, s', k').present
    ensures PageRuleAt(m1, p, s', k')
  {
    var frame := PteOf(m, m.current, s, k).frame;
    if s' == s && k' == k && p == m.current {
      forall q: Pid | MapsFrame(m1, q, s, k, f) ensures q == p {
        assert !MapsFrame(m, q, s, k, f);
      }
      assert UsesTable(m1, p, s, PdeOf(m1, p, s).table);
    } else if s' == s && k' == k && PteOf(m, p, s, k).frame == frame {
      BreakPageSharerRule(m, s, k, f, m1, p);
    } else {
      BreakPageOtherRule(m, s, k, f, m1, p, s', k');
    }
  }

  lemma BreakPageOtherRule(m: Machine, s: nat, k: nat, f: int, m1: Machine, p: Pid, s': nat, k': nat)
    requires PageFault(m, s, k, f) && BrokenPageEntries(m, s, k, f, m1) && s' < USER_SLOTS
    requires PteOf(m1, p, s', k').present
    requires s' != s || k' != k || (p != m.current && PteOf(m, p, s, k).frame != PteOf(m, m.current, s, k).frame)
    ensures PageRuleAt(m1, p, s', k')
  {
    var frame := PteOf(m, m.current, s, k).frame;
    PageSharersExact(m, s, k, frame);
    assert p in [p];
    assert PteOf(m1, p, s', k') == PteOf(m, p, s', k');
    var e := PteOf(m, p, s', k');
    assert PageRuleAt(m, p, s', k');
    assert !MapsFrame(m, p, s', k', f);
    if e.writable {
      forall q: Pid | MapsFrame(m1, q, s', k', e.frame) ensures UsesTable(m1, q, s', PdeOf(m1, p, s').table) {
        assert MapsFrame(m, q, s', k', e.frame);
        assert UsesTable(m, q, s', PdeOf(m, p, s').table);
      }
    } else {
      var q: Pid :| q != p && MapsFrame(m, q, s', k', e.frame);
      assert q in [q];
      assert MapsFrame(m1, q, s', k', e.frame);
    }
  }

  lemma BreakPageKeepsPlaces(m: Machine, s: nat, k: nat, f: int, m1: Machine)
    requires PageFault(m, s, k, f) && BrokenPageEntries(m, s, k, f, m1)
    ensures OnePagePerFrame(m1)
  {
    forall p: Pid, s1: nat, k1: nat, q: Pid, s2: nat, k2: nat | s1 < USER_SLOTS && s2 < USER_SLOTS &&
        PteOf(m1, p, s1, k1).present && MapsFrame(m1, q, s2, k2, PteOf(m1, p, s1, k1).frame)
      ensures s1 == s2 && k1 == k2
    {
      assert !MapsFrame(m, p, s1, k1, f) && !MapsFrame(m, q, s2, k2, f);
      if PteOf(m1, p, s1, k1).frame != f {
        assert PteOf(m, p, s1, k1).present && MapsFrame(m, q, s2, k2, PteOf(m, p, s1, k1).frame);
      }
    }
  }

  lemma SameDirectories(m: Machine, m1: Machine)
    requires m1.dirs == m.dirs && OneSlotPerTable(m) && TableRule(m)
    ensures OneSlotPerTable(m1) && TableRule(m1)
  {
    assert forall q: Pid, s: nat, t: int :: UsesTable(m1, q, s, t) == UsesTable(m, q, s, t);
    forall p: Pid, s: nat, q: Pid, s': nat | s < USER_SLOTS && s' < USER_SLOTS &&
        UsesTable(m1, p, s, PdeOf(m1, p, s).table) && UsesTable(m1, q, s', PdeOf(m1, p, s).table)
      ensures s == s'
    {
      assert UsesTable(m, p, s, PdeOf(m, p, s).table) && UsesTable(m, q, s', PdeOf(m, p, s).table);
    }
    forall p: Pid, s: nat | s < USER_SLOTS && PdeOf(m1, p, s).present ensures TableRuleAt(m1, p, s) {
      assert TableRuleAt(m, p, s);
    }
  }

  lemma BreakPageKeepsShape(m: Machine, s: nat, k: nat, f: int, m1: Machine)
    requires PageFault(m, s, k, f) && PageStored(m, s, k, f, m1) && BrokenPageEntries(m, s, k, f, m1)
    ensures Shape(m1) && TablesExist(m1) && FramesExist(m1)
  {
  }

  lemma {:induction false} BreakPageKeepsInv(m: Machine, s: nat, k: nat, f: int)
    requires PageFault(m, s, k, f)
    ensures BreakPage(m, s, k, f).Done? && Inv(BreakPage(m, s, k, f).machine)
  {
    BreakPageDone(m, s, k, f);
    var m1 := BreakPage(m, s, k, f).machine;
    BreakPageEntries(m, s, k, f);
    BreakPageStored(m, s, k, f);
    BreakPageKeepsShape(m, s, k, f, m1);
    SameDirectories(m, m1);
    BreakPageKeepsPlaces(m, s, k, f, m1);
    forall p: Pid, s': nat, k': nat | s' < USER_SLOTS && PteOf(m1, p, s', k').present
      ensures PageRuleAt(m1, p, s', k')
    {
      BreakPageKeepsPageRule(m, s, k, f, m1, p, s', k');
    }
  }

  // ----- Whole faults -----

  /** Nobody's translation, page contents or right to read differ between the two states. */
  ghost predicate SameView(m: Machine, m1: Machine) {
    forall p: Pid, s: nat, k: nat :: s < USER_SLOTS ==>
      Mapped(m1, p, s, k) == Mapped(m, p, s, k) &&
      (Mapped(m, p, s, k) ==>
         Contents(m1, p, s, k) == Contents(m, p, s, k) && PteOf(m1, p, s, k).user == PteOf(m, p, s, k).user)
  }

  /** The first half moves no frame. */
  lemma BreakTableKeepsFrames(m: Machine, s: nat, t: int, m1: Machine)
    requires TableFault(m, s, t) && BrokenEntries(m, s, t, m1)
    ensures forall f: int, q: Pid, s': nat, k': nat :: s' < USER_SLOTS ==>
      MapsFrame(m1, q, s', k', f) == MapsFrame(m, q, s', k', f)
  {
  }

  lemma BreakTableKeepsPresence(m: Machine, s: nat, t: int, m1: Machine)
    requires TableFault(m, s, t) && BrokenEntries(m, s, t, m1)
    ensures forall q: Pid :: PdeOf(m1, q, s).present == PdeOf(m, q, s).present
  {
    assert UsesTable(m, m.current, s, PdeOf(m, m.current, s).table);
    TableSharersExact(m, s, PdeOf(m, m.current, s).table);
  }

  lemma BreakTableKeepsView(m: Machine, s: nat, t: int, m1: Machine)
    requires TableFault(m, s, t) && TableStored(m, s, t, m1) && BrokenEntries(m, s, t, m1)
    ensures SameView(m, m1)
    ensures forall f: int :: FreshFrame(m, f) <==> FreshFrame(m1, f)
    ensures forall q: Pid :: PdeOf(m1, q, s).present == PdeOf(m, q, s).present
  {
    BreakTableKeepsPresence(m, s, t, m1);
    BreakTableKeepsFrames(m, s, t, m1);
    forall p: Pid, s': nat, k: nat | s' < USER_SLOTS
      ensures PteOf(m1, p, s', k).present == PteOf(m, p, s', k).present
      ensures PteOf(m1, p, s', k).frame == PteOf(m, p, s', k).frame
      ensures PteOf(m1, p, s', k).user == PteOf(m, p, s', k).user
    {
      assert PteOf(m1, p, s', k) == BrokenPte(m, s, p, s', k);
    }
  }

  lemma BreakPageKeepsView(m: Machine, s: nat, k: nat, f: int, m1: Machine)
    requires PageFault(m, s, k, f) && PageStored(m, s, k, f, m1) && BrokenPageEntries(m, s, k, f, m1)
    ensures SameView(m, m1)
  {
    forall p: Pid, s': nat, k': nat | s' < USER_SLOTS && Mapped(m, p, s', k')
      ensures Contents(m1, p, s', k') == Contents(m, p, s', k')
    {
      assert !MapsFrame(m, p, s', k', f);
      assert PteOf(m1, p, s', k') == BrokenPagePte(m, s, k, f, p, s', k');
    }
  }

  /** How the first half prepares the second. */
  ghost predicate Halfway(m: Machine, s: nat, k: nat, m1: Machine) {
    && Inv(m1) && SameView(m, m1)
    && m1.procs == m.procs && m1.current == m.current && m1.frames == m.frames
    && (forall p: Pid :: p in m1.dirs <==> p in m.dirs)
    && (forall q: Pid :: PdeOf(m1, q, s).present == PdeOf(m, q, s).present)
    && (PdeOf(m1, m.current, s).present ==> PdeOf(m1, m.current, s).writable)
    && (PageIsCow(m1, s, k) <==> Mapped(m, m.current, s, k) && !CanWrite(m, m.current, s, k))
    && (forall f: int :: FreshFrame(m, f) <==> FreshFrame(m1, f))
  }

  lemma FirstHalfOfTableFault(m: Machine, s: nat, k: nat, t: int)
    requires TableFault(m, s, t)
    ensures BreakTable(m, s, t).Done? && !BreakTable(m, s, t).resolved
    ensures Halfway(m, s, k, BreakTable(m, s, t).machine)
  {
    BreakTableKeepsInv(m, s, t);
    BreakTableStored(m, s, t);
    BreakTableEntries(m, s, t);
    var m1 := BreakTable(m, s, t).machine;
    BreakTableKeepsView(m, s, t, m1);
    assert UsesTable(m, m.current, s, PdeOf(m, m.current, s).table);
    assert PteOf(m1, m.current, s, k) == BrokenPte(m, s, m.current, s, k);
    assert PdeOf(m1, m.current, s) == BrokenPde(m, s, t, m.current, s);
    assert PteOf(m, m.current, s, k).present ==> PageRuleAt(m, m.current, s, k);
  }

  lemma FirstHalf(m: Machine, s: nat, k: nat, t: int) returns (m1: Machine)
    requires Inv(m) && m.current in m.procs && s < USER_SLOTS
    requires TableIsCow(m, s) ==> FreshTable(m, t)
    ensures BreakTable(m, s, t) == Done(m1, false) && Halfway(m, s, k, m1)
    ensures AllHaveTable(m1, s) == AllHaveTable(m, s)
  {
    if TableIsCow(m, s) {
      FirstHalfOfTableFault(m, s, k, t);
      m1 := BreakTable(m, s, t).machine;
    } else {
      m1 := m;
      assert PdeOf(m, m.current, s).present ==> TableRuleAt(m, m.current, s);
      assert PteOf(m, m.current, s, k).present ==> PageRuleAt(m, m.current, s, k);
    }
  }

  /** The fault handler never uses `last` unassigned; it dereferences a NULL table pointer exactly
      when the current process has no table at the slot, or needs a new table and gets none, or has to
      copy the page while some listed process has no table; otherwise it resolves the fault exactly
      when the page is mapped and not effectively writable. */
  lemma FaultOutcome(m: Machine, s: nat, k: nat, t: int, f: int)
    requires Inv(m) && m.current in m.procs && s < USER_SLOTS
    requires TableIsCow(m, s) && t != NULL ==> FreshTable(m, t)
    ensures var needsCopy := Mapped(m, m.current, s, k) && !CanWrite(m, m.current, s, k);
      var out := Fault(m, s, k, t, f);
      !out.NoSharer? &&
      (out.NullTable? <==>
        !PdeOf(m, m.current, s).present || (TableIsCow(m, s) && t == NULL) || (needsCopy && !AllHaveTable(m, s))) &&
      (out.Done? ==> out.resolved == needsCopy)
  {
    if !TableIsCow(m, s) || t != NULL {
      var m1 := FirstHalf(m, s, k, t);
    }
  }

  /** Progress and safety of one fault: the invariant holds again, nobody's view has changed, and
      if the fault was resolved the retried write goes through. */
  lemma {:induction false} FaultKeepsInv(m: Machine, s: nat, k: nat, t: int, f: int)
    requires Inv(m) && m.current in m.procs && s < USER_SLOTS
    requires TableIsCow(m, s) && t != NULL ==> FreshTable(m, t)
    requires FreshFrame(m, f)
    requires Fault(m, s, k, t, f).Done?
    ensures var out := Fault(m, s, k, t, f);
      Inv(out.machine) && SameView(m, out.machine) &&
      out.machine.procs == m.procs && out.machine.current == m.current &&
      (forall p: Pid :: p in out.machine.dirs <==> p in m.dirs) &&
      (out.resolved ==> CanWrite(out.machine, m.current, s, k))
  {
    var m1 := FirstHalf(m, s, k, t);
    if PageIsCow(m1, s, k) {
      BreakPageKeepsInv(m1, s, k, f);
      BreakPageEntries(m1, s, k, f);
      BreakPageStored(m1, s, k, f);
      BreakPageKeepsView(m1, s, k, f, BreakPage(m1, s, k, f).machine);
    }
  }

  /** The new frame must be new: a resolved fault keeps the invariant if and only if nobody maps the
      frame that the allocator has returned.  It returns frame 0 whenever it has none. */
  lemma FaultNeedsFreshFrame(m: Machine, s: nat, k: nat, t: int, f: int)
    requires Inv(m) && m.current in m.procs && s < USER_SLOTS && f in m.frames
    requires TableIsCow(m, s) && t != NULL ==> FreshTable(m, t)
    requires Fault(m, s, k, t, f).Done? && Fault(m, s, k, t, f).resolved
    ensures Inv(Fault(m, s, k, t, f).machine) <==> FreshFrame(m, f)
  {
    if FreshFrame(m, f) {
      FaultKeepsInv(m, s, k, t, f);
    } else {
      var m1 := FirstHalf(m, s, k, t);
      assert PageCopy(m1, s, k) && !FreshFrame(m1, f);
      StaleFrameBreaksInv(m1, s, k, f);
    }
  }

  lemma StaleFrameBreaksInv(m: Machine, s: nat, k: nat, f: int)
    requires PageCopy(m, s, k) && f in m.frames && !FreshFrame(m, f)
    ensures !Inv(BreakPage(m, s, k, f).machine)
  {
    BreakPageDone(m, s, k, f);
    BreakPageEntries(m, s, k, f);
    var m1 := BreakPage(m, s, k, f).machine;
    var q: Pid, s': nat, k': nat :| s' < USER_SLOTS && MapsFrame(m, q, s', k', f);
    if q == m.current && s' == s && k' == k {
      assert PageRuleAt(m, q, s, k);
      q :| q != m.current && MapsFrame(m, q, s, k, f);
    }
    assert PteOf(m1, m.current, s, k) == BrokenPagePte(m, s, k, f, m.current, s, k);
    assert PteOf(m1, q, s', k') == BrokenPagePte(m, s, k, f, q, s', k');
    SharedWritable(m1, m.current, s, k, q, s', k');
  }

  /** A frame that one process may write and that is mapped a second time. */
  lemma SharedWritable(m: Machine, p: Pid, s: nat, k: nat, q: Pid, s': nat, k': nat)
    requires s < USER_SLOTS && s' < USER_SLOTS && CanWrite(m, p, s, k) && (q != p || s' != s || k' != k)
    requires MapsFrame(m, q, s', k', PteOf(m, p, s, k).frame)
    ensures !Inv(m)
  {
    if Inv(m) && q != p {
      WritableIsPrivate(m, p, q, s, k);
    }
  }
}
