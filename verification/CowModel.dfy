/** Copy-on-write address spaces on values: the state the pager works on, its ownership
    invariant, and what fork and fault resolution do to it.  Module Pager has the imperative
    pager, which is proved to compute exactly these functions. */
module CowModel {
  import opened Lists
  import opened PageEntries
  import opened Words

  type Pid = int

  const USER_SLOTS := 0x300
  const WORDS := 1024

  /** `procs` is the process list from its root, `dirs` each process's directory, `tables` the
      page tables by physical address, `frames` the physical pages by physical address. */
  datatype Machine = Machine(
    procs: seq<Pid>,
    current: Pid,
    dirs: map<Pid, seq<Pde>>,
    tables: map<int, seq<Pte>>,
    frames: map<int, seq<Word>>)

  // ----- What one process sees -----

  function PdeOf(m: Machine, p: Pid, s: nat): Pde {
    if p in m.dirs && s < |m.dirs[p]| then m.dirs[p][s] else NO_TABLE
  }

  function TableEntry(m: Machine, t: int, k: nat): Pte {
    if t in m.tables && k < |m.tables[t]| then m.tables[t][k] else NO_PAGE
  }

  function PteOf(m: Machine, p: Pid, s: nat, k: nat): Pte {
    var d := PdeOf(m, p, s);
    if d.present then TableEntry(m, d.table, k) else NO_PAGE
  }

  /** Process p translates page (s, k). */
  predicate Mapped(m: Machine, p: Pid, s: nat, k: nat) { PteOf(m, p, s, k).present }

  /** The hardware lets p write page (s, k): both levels are present and writable. */
  predicate CanWrite(m: Machine, p: Pid, s: nat, k: nat) {
    PdeOf(m, p, s).present && PdeOf(m, p, s).writable &&
    PteOf(m, p, s, k).present && PteOf(m, p, s, k).writable
  }

  /** The words p reads in page (s, k). */
  function Contents(m: Machine, p: Pid, s: nat, k: nat): seq<Word> {
    var f := PteOf(m, p, s, k).frame;
    if f in m.frames then m.frames[f] else []
  }

  predicate UsesTable(m: Machine, p: Pid, s: nat, t: int) {
    PdeOf(m, p, s).present && PdeOf(m, p, s).table == t
  }

  predicate MapsFrame(m: Machine, p: Pid, s: nat, k: nat, f: int) {
    PteOf(m, p, s, k).present && PteOf(m, p, s, k).frame == f
  }

  // ----- Invariant -----

  ghost predicate NoDuplicates(ps: seq<Pid>) {
    forall i, j :: 0 <= i < j < |ps| ==> ps[i] != ps[j]
  }

  ghost predicate Shape(m: Machine) {
    && NoDuplicates(m.procs)
    && (forall p: Pid :: p in m.dirs <==> p in m.procs)
    && (forall p: Pid :: p in m.dirs ==> |m.dirs[p]| == SLOTS)
    && (forall t :: t in m.tables ==> |m.tables[t]| == ENTRIES)
    && (forall f :: f in m.frames ==> |m.frames[f]| == WORDS)
  }

  /** User directory entries point at user-accessible tables. */
  ghost predicate TablesExist(m: Machine) {
    forall p: Pid, s: nat :: s < USER_SLOTS && PdeOf(m, p, s).present ==>
      PdeOf(m, p, s).user && PdeOf(m, p, s).table in m.tables
  }

  ghost predicate FramesExist(m: Machine) {
    forall p: Pid, s: nat, k: nat :: s < USER_SLOTS && PteOf(m, p, s, k).present ==> PteOf(m, p, s, k).frame in m.frames
  }

  /** A table serves one directory slot only. */
  ghost predicate OneSlotPerTable(m: Machine) {
    forall p: Pid, s: nat, q: Pid, s': nat :: 
      s < USER_SLOTS && s' < USER_SLOTS && UsesTable(m, p, s, PdeOf(m, p, s).table) &&
      UsesTable(m, q, s', PdeOf(m, p, s).table)
      ==> s == s'
  }

  /** A frame is mapped at one virtual page only. */
  ghost predicate OnePagePerFrame(m: Machine) {
    forall p: Pid, s: nat, k: nat, q: Pid, s': nat, k': nat :: s < USER_SLOTS && s' < USER_SLOTS ==>
      (PteOf(m, p, s, k).present && MapsFrame(m, q, s', k', PteOf(m, p, s, k).frame) ==> s == s' && k == k')
  }

  ghost predicate SoleTableUser(m: Machine, p: Pid, s: nat) {
    forall q: Pid :: q != p ==> !UsesTable(m, q, s, PdeOf(m, p, s).table)
  }

  /** (a) A directory entry is writable and not copy-on-write exactly when its table has one user;
      otherwise it is read-only and copy-on-write. */
  ghost predicate TableRuleAt(m: Machine, p: Pid, s: nat) {
    PdeOf(m, p, s).writable == !PdeOf(m, p, s).copyOnWrite &&
    (PdeOf(m, p, s).writable <==> SoleTableUser(m, p, s))
  }

  ghost predicate TableRule(m: Machine) {
    forall p: Pid, s: nat :: s < USER_SLOTS && PdeOf(m, p, s).present ==> TableRuleAt(m, p, s)
  }

  /** Everyone who maps p's frame at (s, k) does so through p's table. */
  ghost predicate OneTableForFrame(m: Machine, p: Pid, s: nat, k: nat) {
    forall q: Pid :: MapsFrame(m, q, s, k, PteOf(m, p, s, k).frame) ==> UsesTable(m, q, s, PdeOf(m, p, s).table)
  }

  ghost predicate AnotherMaps(m: Machine, p: Pid, s: nat, k: nat) {
    exists q: Pid :: q != p && MapsFrame(m, q, s, k, PteOf(m, p, s, k).frame)
  }

  /** (b) A writable table entry's frame is reached through one table; (c) a copy-on-write entry's
      frame is mapped by at least two processes.  Every entry is one or the other. */
  ghost predicate PageRuleAt(m: Machine, p: Pid, s: nat, k: nat) {
    PteOf(m, p, s, k).writable == !PteOf(m, p, s, k).copyOnWrite &&
    (PteOf(m, p, s, k).writable ==> OneTableForFrame(m, p, s, k)) &&
    (PteOf(m, p, s, k).copyOnWrite ==> AnotherMaps(m, p, s, k))
  }

  ghost predicate PageRule(m: Machine) {
    forall p: Pid, s: nat, k: nat :: s < USER_SLOTS && PteOf(m, p, s, k).present ==> PageRuleAt(m, p, s, k)
  }

  ghost predicate Inv(m: Machine) {
    Shape(m) && TablesExist(m) && FramesExist(m) && OneSlotPerTable(m) && OnePagePerFrame(m) &&
    TableRule(m) && PageRule(m)
  }

  /** Both levels together: what may be written is private. */
  lemma {:induction false} WritableIsPrivate(m: Machine, p: Pid, q: Pid, s: nat, k: nat)
    requires Inv(m) && s < USER_SLOTS && CanWrite(m, p, s, k) && q != p
    ensures forall s': nat, k': nat :: s' < USER_SLOTS ==> !MapsFrame(m, q, s', k', PteOf(m, p, s, k).frame)
  {
  }

  // ----- Fork -----

  /** What the directory copy loop does to one slot of the source, and stores in both. */
  function ForkPde(d: Pde, s: nat): Pde {
    if s < USER_SLOTS && d.user && d.present then ShareTable(d) else d
  }

  function ForkDir(dir: seq<Pde>): seq<Pde> {
    seq(|dir|, s requires 0 <= s < |dir| => ForkPde(dir[s], s))
  }

  function Fork(m: Machine, src: Pid, child: Pid, at: nat): Machine
    requires src in m.dirs && at <= |m.procs|
  {
    var dir := ForkDir(m.dirs[src]);
    m.(procs := Insert(m.procs, at, child), dirs := m.dirs[src := dir][child := dir])
  }

  lemma InsertMembers(ps: seq<Pid>, at: nat, p: Pid)
    requires at <= |ps|
    ensures forall q: Pid :: q in Insert(ps, at, p) <==> q == p || q in ps
    ensures NoDuplicates(ps) && p !in ps ==> NoDuplicates(Insert(ps, at, p))
  {
  }

  /** The list after a fork or a creation: one process more, at its place. */
  ghost predicate Listed(ps: seq<Pid>, at: nat, p: Pid, ps1: seq<Pid>) {
    at <= |ps| && |ps1| == |ps| + 1 &&
    forall i :: 0 <= i < |ps1| ==> ps1[i] == if i < at then ps[i] else if i == at then p else ps[i - 1]
  }

  /** Fork as seen entry by entry.  Source and child get the same directory entries: in the user part
      those of user tables are read-only and copy-on-write from now on, and all others are what the
      source had before.  No table entry changes, and the child sees what the source sees. */
  lemma ForkEntries(m: Machine, src: Pid, child: Pid, at: nat)
    requires Shape(m) && src in m.dirs && child !in m.dirs && at <= |m.procs|
    ensures var m' := Fork(m, src, child, at);
      forall q: Pid, s: nat ::
        PdeOf(m', q, s) ==
        if q != src && q != child then PdeOf(m, q, s)
        else if s < USER_SLOTS && PdeOf(m, src, s).present && PdeOf(m, src, s).user
        then Pde(true, false, true, true, PdeOf(m, src, s).table)
        else PdeOf(m, src, s)
    ensures var m' := Fork(m, src, child, at);
      forall q: Pid, s: nat, k: nat :: PteOf(m', q, s, k) == PteOf(m, if q == child then src else q, s, k)
    ensures var m' := Fork(m, src, child, at);
      Listed(m.procs, at, child, m'.procs) && m'.current == m.current && m'.tables == m.tables && m'.frames == m.frames
  {
    var m' := Fork(m, src, child, at);
    forall q: Pid, s: nat
      ensures PdeOf(m', q, s) ==
        if q != src && q != child then PdeOf(m, q, s)
        else if s < USER_SLOTS && PdeOf(m, src, s).present && PdeOf(m, src, s).user
        then Pde(true, false, true, true, PdeOf(m, src, s).table)
        else PdeOf(m, src, s)
    {
    }
  }

  lemma {:induction false} ForkKeepsInv(m: Machine, src: Pid, child: Pid, at: nat)
    requires Inv(m) && src in m.dirs && child !in m.dirs && at <= |m.procs|
    ensures Inv(Fork(m, src, child, at))
  {
    var m' := Fork(m, src, child, at);
    assert Shape(m') by { InsertMembers(m.procs, at, child); }
    assert TablesExist(m') && FramesExist(m') by { ForkEntries(m, src, child, at); }
    assert OneSlotPerTable(m') && OnePagePerFrame(m') by { ForkKeepsPlaces(m, src, child, at); }
    forall p: Pid, s: nat | s < USER_SLOTS && PdeOf(m', p, s).present ensures TableRuleAt(m', p, s) {
      ForkKeepsTableRule(m, src, child, at, p, s);
    }
    forall p: Pid, s: nat, k: nat | s < USER_SLOTS && PteOf(m', p, s, k).present ensures PageRuleAt(m', p, s, k) {
      ForkKeepsPageRule(m, src, child, at, p, s, k);
    }
  }

  lemma ForkKeepsPlaces(m: Machine, src: Pid, child: Pid, at: nat)
    requires Inv(m) && src in m.dirs && child !in m.dirs && at <= |m.procs|
    ensures OneSlotPerTable(Fork(m, src, child, at)) && OnePagePerFrame(Fork(m, src, child, at))
  {
    var m' := Fork(m, src, child, at);
    ForkEntries(m, src, child, at);
    forall p: Pid, s: nat, q: Pid, s': nat | s < USER_SLOTS && s' < USER_SLOTS &&
        UsesTable(m', p, s, PdeOf(m', p, s).table) && UsesTable(m', q, s', PdeOf(m', p, s).table)
      ensures s == s'
    {
      var p0, q0 := if p == child then src else p, if q == child then src else q;
      assert UsesTable(m, p0, s, PdeOf(m, p0, s).table) && UsesTable(m, q0, s', PdeOf(m, p0, s).table);
    }
    forall p: Pid, s: nat, k: nat, q: Pid, s': nat, k': nat | s < USER_SLOTS && s' < USER_SLOTS &&
        PteOf(m', p, s, k).present && MapsFrame(m', q, s', k', PteOf(m', p, s, k).frame)
      ensures s == s' && k == k'
    {
      var p0, q0 := if p == child then src else p, if q == child then src else q;
      assert PteOf(m, p0, s, k).present && MapsFrame(m, q0, s', k', PteOf(m, p0, s, k).frame);
    }
  }

  lemma ForkKeepsTableRule(m: Machine, src: Pid, child: Pid, at: nat, p: Pid, s: nat)
    requires Inv(m) && src in m.dirs && child !in m.dirs && at <= |m.procs| && s < USER_SLOTS
    requires PdeOf(Fork(m, src, child, at), p, s).present
    ensures TableRuleAt(Fork(m, src, child, at), p, s)
  {
    var m' := Fork(m, src, child, at);
    ForkEntries(m, src, child, at);
    var t := PdeOf(m', p, s).table;
    if p == src || p == child {
      assert UsesTable(m', if p == src then child else src, s, t);
    } else {
      assert TableRuleAt(m, p, s);
      if UsesTable(m, src, s, t) {
        assert UsesTable(m', src, s, t);
      } else if PdeOf(m, p, s).writable {
        assert forall q: Pid :: UsesTable(m', q, s, t) ==> UsesTable(m, q, s, t);
      } else {
        var q: Pid :| q != p && UsesTable(m, q, s, t);
        assert UsesTable(m', q, s, t);
      }
    }
  }

  lemma ForkKeepsPageRule(m: Machine, src: Pid, child: Pid, at: nat, p: Pid, s: nat, k: nat)
    requires Inv(m) && src in m.dirs && child !in m.dirs && at <= |m.procs| && s < USER_SLOTS
    requires PteOf(Fork(m, src, child, at), p, s, k).present
    ensures PageRuleAt(Fork(m, src, child, at), p, s, k)
  {
    var m' := Fork(m, src, child, at);
    ForkEntries(m, src, child, at);
    var f := PteOf(m', p, s, k).frame;
    var p0 := if p == child then src else p;
    assert PageRuleAt(m, p0, s, k);
    if PteOf(m', p, s, k).writable {
      forall q: Pid | MapsFrame(m', q, s, k, f) ensures UsesTable(m', q, s, PdeOf(m', p, s).table) {
        var q0 := if q == child then src else q;
        assert MapsFrame(m, q0, s, k, f);
        assert UsesTable(m, q0, s, PdeOf(m, p0, s).table);
      }
    } else {
      var q: Pid :| q != p0 && MapsFrame(m, q, s, k, f);
      assert MapsFrame(m', q, s, k, f);
    }
  }

  // ----- Fault resolution -----

  /** Processes of ps other than `me` that satisfy `f`, in list order: what the scan loops count. */
  function Others(ps: seq<Pid>, me: Pid, f: Pid -> bool): seq<Pid> {
    if ps == [] then [] else
    var n := |ps| - 1;
    Others(ps[..n], me, f) + if ps[n] != me && f(ps[n]) then [ps[n]] else []
  }

  lemma {:induction false} OthersMembers(ps: seq<Pid>, me: Pid, f: Pid -> bool)
    ensures forall q: Pid :: q in Others(ps, me, f) <==> q in ps && q != me && f(q)
    ensures NoDuplicates(ps) ==> NoDuplicates(Others(ps, me, f))
  {
    if ps != [] {
      OthersMembers(ps[..|ps| - 1], me, f);
    }
  }

  function TableSharers(m: Machine, s: nat, t: int): seq<Pid> {
    Others(m.procs, m.current, (q: Pid) => UsesTable(m, q, s, t))
  }

  function PageSharers(m: Machine, s: nat, k: nat, f: int): seq<Pid> {
    Others(m.procs, m.current, (q: Pid) => MapsFrame(m, q, s, k, f))
  }

  /** Result of a fault: the new state and whether the page was resolved, or the undefined
      behaviour the code runs into: a NULL table pointer, or `last` used unassigned. */
  datatype Outcome =
    | Done(machine: Machine, resolved: bool)
    | NullTable
    | NoSharer

  function SetPde(m: Machine, p: Pid, s: nat, d: Pde): Machine {
    if p in m.dirs && s < |m.dirs[p]| then m.(dirs := m.dirs[p := m.dirs[p][s := d]]) else m
  }

  function SetEntry(m: Machine, t: int, k: nat, e: Pte): Machine {
    if t in m.tables && k < |m.tables[t]| then m.(tables := m.tables[t := m.tables[t][k := e]]) else m
  }

  function DemoteTable(es: seq<Pte>): seq<Pte> {
    seq(|es|, k requires 0 <= k < |es| => DemotePage(es[k]))
  }

  predicate TableIsCow(m: Machine, s: nat) {
    var d := PdeOf(m, m.current, s);
    d.present && !d.writable && d.copyOnWrite
  }

  predicate PageIsCow(m: Machine, s: nat, k: nat) {
    var e := PteOf(m, m.current, s, k);
    e.present && !e.writable && e.copyOnWrite
  }

  /** What kalloc_page returns for a new table when it has no page. */
  const NULL := 0

  /** First half: give the current process its own table, copied from the last sharer's. */
  function BreakTable(m: Machine, s: nat, newTable: int): Outcome {
    if !TableIsCow(m, s) then Done(m, false) else
    if newTable == NULL then NullTable else
    var d := PdeOf(m, m.current, s);
    var sharers := TableSharers(m, s, d.table);
    if sharers == [] then NoSharer else
    var last := sharers[|sharers| - 1];
    var c := PdeOf(m, last, s);
    var m1 := if |sharers| == 1 && c.copyOnWrite then SetPde(m, last, s, ReleaseTable(c)) else m;
    var m2 := SetPde(m1, m.current, s, Pde(true, true, d.user, false, newTable));
    if c.table !in m.tables then NullTable else
    var es := DemoteTable(m.tables[c.table]);
    Done(m2.(tables := m.tables[c.table := es][newTable := es]), false)
  }

  predicate AllHaveTable(m: Machine, s: nat) {
    forall i :: 0 <= i < |m.procs| ==> PdeOf(m, m.procs[i], s).present
  }

  /** Second half: give the current process its own copy of the page. */
  function BreakPage(m: Machine, s: nat, k: nat, newFrame: int): Outcome {
    if !PdeOf(m, m.current, s).present then NullTable else
    if !PageIsCow(m, s, k) then Done(m, false) else
    if !AllHaveTable(m, s) then NullTable else
    var e := PteOf(m, m.current, s, k);
    var sharers := PageSharers(m, s, k, e.frame);
    var m1 := if |sharers| == 1 then
        var c := PteOf(m, sharers[0], s, k);
        if c.copyOnWrite then SetEntry(m, PdeOf(m, sharers[0], s).table, k, ReleasePage(c)) else m
      else m;
    var m2 := m1.(frames := m.frames[newFrame := Contents(m, m.current, s, k)]);
    Done(SetEntry(m2, PdeOf(m, m.current, s).table, k, Pte(true, true, e.user, false, newFrame)), true)
  }

  function Fault(m: Machine, s: nat, k: nat, newTable: int, newFrame: int): Outcome {
    match BreakTable(m, s, newTable)
    case Done(m1, _) => BreakPage(m1, s, k, newFrame)
    case undefined => undefined
  }

  /** What the allocators promise: the new table and the new page are in use nowhere. */
  ghost predicate FreshTable(m: Machine, t: int) {
    t != NULL && t !in m.tables && forall p: Pid, s: nat :: s < USER_SLOTS ==> !UsesTable(m, p, s, t)
  }

  ghost predicate FreshFrame(m: Machine, f: int) {
    f in m.frames && forall p: Pid, s: nat, k: nat :: s < USER_SLOTS ==> !MapsFrame(m, p, s, k, f)
  }
}
