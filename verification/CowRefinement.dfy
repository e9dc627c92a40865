/** Copy-on-write refines eager copying: over every run of process creation, fork, mapping of new
    pages, switching and writing, each process sees the memory it would see on a machine whose fork
    copies every page at once. */
module CowRefinement {
  import opened Lists
  import opened PageEntries
  import opened CowModel
  import opened CowFault
  import opened Words

  datatype Page = Page(slot: nat, index: nat)

  /** One step of a run.  `newTable` and `newFrame` are the pages the allocators hand out,
      `kernel` is the kernel's directory. */
  datatype Action =
    | Switch(pid: Pid)
    | Create(pid: Pid, at: nat, kernel: seq<Pde>)
    | ForkProcess(src: Pid, child: Pid, at: nat)
    | MapNew(pid: Pid, page: Page, newTable: int, newFrame: int)
    | Write(page: Page, offset: nat, value: Word, newTable: int, newFrame: int)

  // ----- The copy-on-write machine -----

  /** A new directory: an empty user part and the kernel's upper quarter. */
  function NewDirectory(kernel: seq<Pde>): seq<Pde> {
    seq(SLOTS, i requires 0 <= i => if USER_SLOTS <= i < |kernel| then kernel[i] else NO_TABLE)
  }

  function CreateProcess(m: Machine, p: Pid, at: nat, kernel: seq<Pde>): Machine
    requires at <= |m.procs|
  {
    m.(procs := Insert(m.procs, at, p), dirs := m.dirs[p := NewDirectory(kernel)])
  }

  function EnsureTable(m: Machine, p: Pid, s: nat, t: int): Machine {
    if PdeOf(m, p, s).present then m
    else SetPde(m, p, s, Pde(true, true, true, false, t)).(tables := m.tables[t := EmptyTable()])
  }

  /** pg_map of a user page: a new table if the slot has none, then one writable entry. */
  function MapPage(m: Machine, p: Pid, s: nat, k: nat, t: int, f: int): Machine {
    var m1 := EnsureTable(m, p, s, t);
    SetEntry(m1, PdeOf(m1, p, s).table, k, Pte(true, true, true, false, f))
  }

  function SetWord(words: seq<Word>, offset: nat, value: Word): seq<Word> {
    if offset < |words| then words[..offset] + [value] + words[offset + 1..] else words
  }

  /** One word has the value and all others stay. */
  ghost predicate OneWord(words: seq<Word>, offset: nat, value: Word, words1: seq<Word>) {
    |words1| == |words| && forall i :: 0 <= i < |words| ==> words1[i] == if i == offset then value else words[i]
  }

  /** Physical memory is as before but for one frame, whoever maps the others. */
  ghost predicate OtherFrames(m: Machine, m1: Machine, f: int) {
    m1.frames.Keys == m.frames.Keys && forall g :: g in m.frames && g != f ==> m1.frames[g] == m.frames[g]
  }

  /** A store that the hardware lets through. */
  function Store(m: Machine, s: nat, k: nat, offset: nat, value: Word): Machine {
    var f := PteOf(m, m.current, s, k).frame;
    if f in m.frames then m.(frames := m.frames[f := SetWord(m.frames[f], offset, value)]) else m
  }

  /** A user write: on a fault the handler runs and the store is retried. */
  function WriteWord(m: Machine, s: nat, k: nat, offset: nat, value: Word, t: int, f: int): Machine {
    if CanWrite(m, m.current, s, k) then Store(m, s, k, offset, value) else
    match Fault(m, s, k, t, f)
    case Done(m1, _) => Store(m1, s, k, offset, value)
    case _ => m
  }

  /** The action asks for a frame: it maps a page, or it is a write that faults. */
  predicate NeedsFrame(m: Machine, a: Action) {
    match a
    case MapNew(_, _, _, _) => true
    case Write(page, _, _, _, _) => !CanWrite(m, m.current, page.slot, page.index)
    case _ => false
  }

  /** What the action requires, apart from the frame. */
  ghost predicate Asked(m: Machine, a: Action) {
    match a
    case Switch(p) => p in m.procs
    case Create(p, at, kernel) => p !in m.dirs && at <= |m.procs|
    case ForkProcess(src, child, at) => src in m.dirs && child !in m.dirs && at <= |m.procs|
    case MapNew(p, page, t, f) =>
      p in m.dirs && page.slot < USER_SLOTS && page.index < ENTRIES && !Mapped(m, p, page.slot, page.index) &&
      (if PdeOf(m, p, page.slot).present then PdeOf(m, p, page.slot).writable else FreshTable(m, t))
    case Write(page, offset, value, t, f) =>
      m.current in m.procs && page.slot < USER_SLOTS && offset < WORDS &&
      Mapped(m, m.current, page.slot, page.index) &&
      (!CanWrite(m, m.current, page.slot, page.index) ==> AllHaveTable(m, page.slot) && FreshTable(m, t))
  }

  ghost predicate Enabled(m: Machine, a: Action) {
    Asked(m, a) && (NeedsFrame(m, a) ==> FreshFrame(m, a.newFrame))
  }

  ghost function Step(m: Machine, a: Action): Machine
    requires Enabled(m, a)
  {
    match a
    case Switch(p) => m.(current := p)
    case Create(p, at, kernel) => CreateProcess(m, p, at, kernel)
    case ForkProcess(src, child, at) => Fork(m, src, child, at)
    case MapNew(p, page, t, f) => MapPage(m, p, page.slot, page.index, t, f)
    case Write(page, offset, value, t, f) => WriteWord(m, page.slot, page.index, offset, value, t, f)
  }

  ghost predicate CanRun(m: Machine, acts: seq<Action>)
    decreases acts
  {
    acts == [] || (Enabled(m, acts[0]) && CanRun(Step(m, acts[0]), acts[1..]))
  }

  ghost function Run(m: Machine, acts: seq<Action>): Machine
    requires CanRun(m, acts)
    decreases acts
  {
    if acts == [] then m else Run(Step(m, acts[0]), acts[1..])
  }

  // ----- The eager machine -----

  /** Each process owns its pages outright; fork copies them all. */
  datatype Eager = Eager(current: Pid, memory: map<Pid, map<Page, seq<Word>>>)

  /** `filler` is what a newly mapped frame happens to contain. */
  function EagerStep(e: Eager, a: Action, filler: seq<Word>): Eager {
    match a
    case Switch(p) => e.(current := p)
    case Create(p, _, _) => e.(memory := e.memory[p := map[]])
    case ForkProcess(src, child, _) =>
      if src in e.memory then e.(memory := e.memory[child := e.memory[src]]) else e
    case MapNew(p, page, _, _) =>
      if p in e.memory then e.(memory := e.memory[p := e.memory[p][page := filler]]) else e
    case Write(page, offset, value, _, _) =>
      if e.current in e.memory && page in e.memory[e.current] then
        var mine := e.memory[e.current];
        e.(memory := e.memory[e.current := mine[page := SetWord(mine[page], offset, value)]])
      else e
  }

  function Filler(m: Machine, a: Action): seq<Word> {
    if a.MapNew? && a.newFrame in m.frames then m.frames[a.newFrame] else []
  }

  ghost function EagerRun(m: Machine, e: Eager, acts: seq<Action>): Eager
    requires CanRun(m, acts)
    decreases acts
  {
    if acts == [] then e
    else EagerRun(Step(m, acts[0]), EagerStep(e, acts[0], Filler(m, acts[0])), acts[1..])
  }

  ghost predicate AgreesAt(m: Machine, e: Eager, p: Pid, page: Page)
    requires p in e.memory
  {
    (page in e.memory[p] <==> page.slot < USER_SLOTS && Mapped(m, p, page.slot, page.index)) &&
    (page in e.memory[p] ==> e.memory[p][page] == Contents(m, p, page.slot, page.index))
  }

  /** Same processes, same mapped pages, same words in each. */
  ghost predicate Refines(m: Machine, e: Eager) {
    e.current == m.current && (forall p: Pid :: p in e.memory <==> p in m.dirs) &&
    (forall p: Pid, page: Page :: p in e.memory ==> AgreesAt(m, e, p, page))
  }

  // ----- Steps keep the invariant -----

  /** A new process as seen entry by entry: no user table, the kernel's entries above, and all else as
      before. */
  lemma CreateEntries(m: Machine, p: Pid, at: nat, kernel: seq<Pde>)
    requires Shape(m) && p !in m.dirs && at <= |m.procs|
    ensures var m1 := CreateProcess(m, p, at, kernel);
      Shape(m1) && CowModel.Listed(m.procs, at, p, m1.procs) && m1.current == m.current &&
      m1.tables == m.tables && m1.frames == m.frames &&
      (forall q: Pid, s: nat :: s < USER_SLOTS || q != p ==> PdeOf(m1, q, s) == PdeOf(m, q, s)) &&
      (forall q: Pid, s: nat, k: nat :: s < USER_SLOTS || q != p ==> PteOf(m1, q, s, k) == PteOf(m, q, s, k))
    ensures var m1 := CreateProcess(m, p, at, kernel);
      (forall s: nat :: s < USER_SLOTS ==> PdeOf(m1, p, s) == NO_TABLE) &&
      (forall s: nat :: USER_SLOTS <= s < SLOTS && s < |kernel| ==> PdeOf(m1, p, s) == kernel[s])
  {
  }

  /** The invariant depends only on entries, the sets of tables and frames, and the shape. */
  lemma SameEntriesKeepInv(m: Machine, m1: Machine)
    requires Inv(m) && Shape(m1)
    requires forall q: Pid, s: nat :: s < USER_SLOTS ==> PdeOf(m1, q, s) == PdeOf(m, q, s)
    requires forall q: Pid, s: nat, k: nat :: s < USER_SLOTS ==> PteOf(m1, q, s, k) == PteOf(m, q, s, k)
    requires forall t :: t in m.tables ==> t in m1.tables
    requires forall f :: f in m.frames ==> f in m1.frames
    ensures Inv(m1)
  {
    assert forall q: Pid, s: nat, t: int :: s < USER_SLOTS ==> UsesTable(m1, q, s, t) == UsesTable(m, q, s, t);
    assert forall q: Pid, s: nat, k: nat, f: int :: s < USER_SLOTS ==>
      MapsFrame(m1, q, s, k, f) == MapsFrame(m, q, s, k, f);
    assert OnePagePerFrame(m1);
    assert OneSlotPerTable(m1) by {
      forall p: Pid, s: nat, q: Pid, s': nat | s < USER_SLOTS && s' < USER_SLOTS &&
          UsesTable(m1, p, s, PdeOf(m1, p, s).table) && UsesTable(m1, q, s', PdeOf(m1, p, s).table)
        ensures s == s'
      {
        assert UsesTable(m, p, s, PdeOf(m, p, s).table) && UsesTable(m, q, s', PdeOf(m, p, s).table);
      }
    }
    forall p: Pid, s: nat | s < USER_SLOTS && PdeOf(m1, p, s).present ensures TableRuleAt(m1, p, s) {
      assert TableRuleAt(m, p, s);
    }
    forall p: Pid, s: nat, k: nat | s < USER_SLOTS && PteOf(m1, p, s, k).present ensures PageRuleAt(m1, p, s, k) {
      assert PageRuleAt(m, p, s, k);
    }
  }

  // -- Mapping a new page

  ghost predicate CanMap(m: Machine, p: Pid, s: nat, k: nat, t: int, f: int) {
    Inv(m) && Enabled(m, MapNew(p, Page(s, k), t, f))
  }

  ghost predicate MapEntries(m: Machine, p: Pid, s: nat, k: nat, t: int, f: int, m1: Machine) {
    && (forall q: Pid, s': nat :: s' < USER_SLOTS ==>
          PdeOf(m1, q, s') ==
          if q == p && s' == s && !PdeOf(m, p, s).present then Pde(true, true, true, false, t) else PdeOf(m, q, s'))
    && (forall q: Pid, s': nat, k': nat :: s' < USER_SLOTS ==>
          PteOf(m1, q, s', k') ==
          if q == p && s' == s && k' == k then Pte(true, true, true, false, f) else PteOf(m, q, s', k'))
  }

  lemma MapPageEntries(m: Machine, p: Pid, s: nat, k: nat, t: int, f: int)
    requires CanMap(m, p, s, k, t, f)
    ensures var m1 := MapPage(m, p, s, k, t, f);
      Shape(m1) && MapEntries(m, p, s, k, t, f, m1) && m1.frames == m.frames && m1.procs == m.procs &&
      m1.current == m.current && (forall q :: q in m1.dirs <==> q in m.dirs) &&
      (forall u :: u in m.tables || u == PdeOf(m1, p, s).table ==> u in m1.tables)
  {
    var m0 := EnsureTable(m, p, s, t);
    forall q: Pid, s': nat, k': nat | s' < USER_SLOTS ensures PteOf(m0, q, s', k') == PteOf(m, q, s', k') {
      assert !UsesTable(m, q, s', t) || PdeOf(m, p, s).present;
    }
    var own := PdeOf(m0, p, s).table;
    forall q: Pid, s': nat | s' < USER_SLOTS && UsesTable(m0, q, s', own) ensures q == p && s' == s {
      if PdeOf(m, p, s).present {
        assert UsesTable(m, p, s, own) && UsesTable(m, q, s', own);
        assert TableRuleAt(m, p, s);
      } else {
        assert !UsesTable(m, q, s', t);
      }
    }
    forall q: Pid, s': nat, k': nat | s' < USER_SLOTS
      ensures PteOf(MapPage(m, p, s, k, t, f), q, s', k') ==
        if q == p && s' == s && k' == k then Pte(true, true, true, false, f) else PteOf(m, q, s', k')
    {
      SetEntryAt(m0, own, k, Pte(true, true, true, false, f), q, s', k');
    }
  }

  lemma MapPageKeepsTableRule(m: Machine, p: Pid, s: nat, k: nat, t: int, f: int, m1: Machine)
    requires CanMap(m, p, s, k, t, f) && MapEntries(m, p, s, k, t, f, m1)
    ensures TableRule(m1)
  {
    forall q: Pid, s': nat | s' < USER_SLOTS && PdeOf(m1, q, s').present ensures TableRuleAt(m1, q, s') {
      assert !PdeOf(m, p, s).present ==> forall r: Pid :: !UsesTable(m, r, s', t);
      var u := PdeOf(m1, q, s').table;
      if PdeOf(m, q, s').present {
        assert TableRuleAt(m, q, s');
        assert forall r: Pid :: UsesTable(m1, r, s', u) == UsesTable(m, r, s', u);
      }
    }
  }

  lemma MapPageKeepsRules(m: Machine, p: Pid, s: nat, k: nat, t: int, f: int, m1: Machine)
    requires CanMap(m, p, s, k, t, f) && MapEntries(m, p, s, k, t, f, m1)
    ensures TableRule(m1) && PageRule(m1)
  {
    MapPageKeepsTableRule(m, p, s, k, t, f, m1);
    forall q: Pid, s': nat, k': nat | s' < USER_SLOTS && PteOf(m1, q, s', k').present
      ensures PageRuleAt(m1, q, s', k')
    {
      assert forall r: Pid :: !MapsFrame(m, r, s', k', f);
      if q == p && s' == s && k' == k {
        forall r: Pid | MapsFrame(m1, r, s, k, f) ensures r == p {
          assert !MapsFrame(m, r, s, k, f);
        }
        assert UsesTable(m1, p, s, PdeOf(m1, p, s).table);
      } else {
        assert PageRuleAt(m, q, s', k');
        var g := PteOf(m, q, s', k').frame;
        assert MapsFrame(m, q, s', k', g);
        assert forall r: Pid :: MapsFrame(m1, r, s', k', g) == MapsFrame(m, r, s', k', g);
        assert forall r: Pid, u: int :: PdeOf(m, r, s').present ==> UsesTable(m1, r, s', u) == UsesTable(m, r, s', u);
      }
    }
  }

  lemma MapPageKeepsPlaces(m: Machine, p: Pid, s: nat, k: nat, t: int, f: int, m1: Machine)
    requires CanMap(m, p, s, k, t, f) && MapEntries(m, p, s, k, t, f, m1)
    ensures OneSlotPerTable(m1) && OnePagePerFrame(m1)
  {
    forall p1: Pid, s1: nat, q: Pid, s2: nat | s1 < USER_SLOTS && s2 < USER_SLOTS &&
        UsesTable(m1, p1, s1, PdeOf(m1, p1, s1).table) && UsesTable(m1, q, s2, PdeOf(m1, p1, s1).table)
      ensures s1 == s2
    {
      assert !PdeOf(m, p, s).present ==> !UsesTable(m, p1, s1, t) && !UsesTable(m, q, s2, t);
      if PdeOf(m, p1, s1).present && PdeOf(m, q, s2).present {
        assert UsesTable(m, p1, s1, PdeOf(m, p1, s1).table) && UsesTable(m, q, s2, PdeOf(m, p1, s1).table);
      }
    }
    forall p1: Pid, s1: nat, k1: nat, q: Pid, s2: nat, k2: nat | s1 < USER_SLOTS && s2 < USER_SLOTS &&
        PteOf(m1, p1, s1, k1).present && MapsFrame(m1, q, s2, k2, PteOf(m1, p1, s1, k1).frame)
      ensures s1 == s2 && k1 == k2
    {
      assert !MapsFrame(m, p1, s1, k1, f) && !MapsFrame(m, q, s2, k2, f);
      if PteOf(m1, p1, s1, k1).frame != f {
        assert PteOf(m, p1, s1, k1).present && MapsFrame(m, q, s2, k2, PteOf(m, p1, s1, k1).frame);
      }
    }
  }

  lemma MapPageKeepsInv(m: Machine, p: Pid, s: nat, k: nat, t: int, f: int)
    requires CanMap(m, p, s, k, t, f)
    ensures Inv(MapPage(m, p, s, k, t, f))
  {
    var m1 := MapPage(m, p, s, k, t, f);
    MapPageEntries(m, p, s, k, t, f);
    MapPageKeepsPlaces(m, p, s, k, t, f, m1);
    MapPageKeepsRules(m, p, s, k, t, f, m1);
  }

  // -- Storing a word

  /** A permitted store changes the writer's view of that page and nothing else. */
  lemma StoreIsPrivate(m: Machine, s: nat, k: nat, offset: nat, value: Word)
    requires Inv(m) && s < USER_SLOTS && offset < WORDS && CanWrite(m, m.current, s, k)
    ensures var m1 := Store(m, s, k, offset, value);
      Inv(m1) && m1.dirs == m.dirs && m1.procs == m.procs && m1.current == m.current && m1.tables == m.tables &&
      OneWord(Contents(m, m.current, s, k), offset, value, Contents(m1, m.current, s, k)) &&
      Contents(m1, m.current, s, k) == SetWord(Contents(m, m.current, s, k), offset, value) &&
      (forall p: Pid, s': nat, k': nat :: s' < USER_SLOTS && Mapped(m, p, s', k') &&
        !(p == m.current && s' == s && k' == k)
        ==> Contents(m1, p, s', k') == Contents(m, p, s', k')) &&
      OtherFrames(m, m1, PteOf(m, m.current, s, k).frame)
  {
    var m1 := Store(m, s, k, offset, value);
    SameEntriesKeepInv(m, m1);
    var f := PteOf(m, m.current, s, k).frame;
    forall p: Pid, s': nat, k': nat | s' < USER_SLOTS && Mapped(m, p, s', k') && !(p == m.current && s' == s && k' == k)
      ensures Contents(m1, p, s', k') == Contents(m, p, s', k')
    {
      if MapsFrame(m, p, s', k', f) {
        if p != m.current { WritableIsPrivate(m, m.current, p, s, k); }
      }
    }
  }

  /** A fault writes to the new frame only. */
  lemma FaultWritesOneFrame(m: Machine, s: nat, k: nat, t: int, f: int)
    requires Inv(m) && m.current in m.procs && s < USER_SLOTS && f in m.frames
    requires TableIsCow(m, s) && t != NULL ==> FreshTable(m, t)
    requires Fault(m, s, k, t, f).Done? && Fault(m, s, k, t, f).resolved
    ensures var m1 := Fault(m, s, k, t, f).machine;
      OtherFrames(m, m1, f) && PteOf(m1, m.current, s, k).frame == f
  {
    var m1 := FirstHalf(m, s, k, t);
    BreakPageDone(m1, s, k, f);
    BreakPagePte(m1, s, k, f, m.current, s, k);
  }

  lemma StoreKeepsEntries(m: Machine, s: nat, k: nat, offset: nat, value: Word)
    ensures var m1 := Store(m, s, k, offset, value);
      m1.dirs == m.dirs && forall p: Pid, s': nat, k': nat :: PteOf(m1, p, s', k') == PteOf(m, p, s', k')
  {
  }

  /** A user write, with or without a fault, changes the writer's view of one word of one page. */
  lemma WriteIsPrivate(m: Machine, page: Page, offset: nat, value: Word, t: int, f: int)
    requires Inv(m) && Enabled(m, Write(page, offset, value, t, f))
    ensures var m1 := WriteWord(m, page.slot, page.index, offset, value, t, f);
      Inv(m1) && m1.procs == m.procs && m1.current == m.current && (forall p :: p in m1.dirs <==> p in m.dirs) &&
      |Contents(m, m.current, page.slot, page.index)| == WORDS &&
      OneWord(Contents(m, m.current, page.slot, page.index), offset, value,
              Contents(m1, m.current, page.slot, page.index)) &&
      Contents(m1, m.current, page.slot, page.index) ==
      SetWord(Contents(m, m.current, page.slot, page.index), offset, value) &&
      (forall p: Pid, s: nat, k: nat :: s < USER_SLOTS ==> Mapped(m1, p, s, k) == Mapped(m, p, s, k)) &&
      (forall p: Pid, s: nat, k: nat :: s < USER_SLOTS && Mapped(m, p, s, k) &&
        !(p == m.current && s == page.slot && k == page.index)
        ==> Contents(m1, p, s, k) == Contents(m, p, s, k)) &&
      OtherFrames(m, m1, PteOf(m1, m.current, page.slot, page.index).frame)
  {
    var s, k := page.slot, page.index;
    assert |Contents(m, m.current, s, k)| == WORDS;
    if CanWrite(m, m.current, s, k) {
      StoreIsPrivate(m, s, k, offset, value);
      StoreKeepsEntries(m, s, k, offset, value);
    } else {
      FaultOutcome(m, s, k, t, f);
      assert m.current in m.procs;
      assert PdeOf(m, m.current, s).present;
      FaultKeepsInv(m, s, k, t, f);
      FaultWritesOneFrame(m, s, k, t, f);
      var m1 := Fault(m, s, k, t, f).machine;
      StoreIsPrivate(m1, s, k, offset, value);
      StoreKeepsEntries(m1, s, k, offset, value);
    }
  }

  // ----- Refinement -----

  lemma {:induction false} StepKeepsInv(m: Machine, a: Action)
    requires Inv(m) && Enabled(m, a)
    ensures Inv(Step(m, a))
  {
    match a
    case Switch(p) => SameEntriesKeepInv(m, m.(current := p));
    case Create(p, at, kernel) =>
      CreateEntries(m, p, at, kernel);
      SameEntriesKeepInv(m, CreateProcess(m, p, at, kernel));
    case ForkProcess(src, child, at) => ForkKeepsInv(m, src, child, at);
    case MapNew(p, page, t, f) => MapPageKeepsInv(m, p, page.slot, page.index, t, f);
    case Write(page, offset, value, t, f) => WriteIsPrivate(m, page, offset, value, t, f);
  }

  lemma ForkRefines(m: Machine, e: Eager, src: Pid, child: Pid, at: nat)
    requires Inv(m) && Refines(m, e) && Enabled(m, ForkProcess(src, child, at))
    ensures Refines(Fork(m, src, child, at), e.(memory := e.memory[child := e.memory[src]]))
  {
    ForkEntries(m, src, child, at);
    var m1 := Fork(m, src, child, at);
    var e1 := e.(memory := e.memory[child := e.memory[src]]);
    forall p: Pid, page: Page | p in e1.memory ensures AgreesAt(m1, e1, p, page) {
      assert AgreesAt(m, e, if p == child then src else p, page);
    }
  }

  lemma MapRefines(m: Machine, e: Eager, a: Action)
    requires Inv(m) && Refines(m, e) && a.MapNew? && Enabled(m, a)
    ensures Refines(Step(m, a), EagerStep(e, a, Filler(m, a)))
  {
    var MapNew(p, page, t, f) := a;
    MapPageEntries(m, p, page.slot, page.index, t, f);
    var m1 := Step(m, a);
    var e1 := EagerStep(e, a, Filler(m, a));
    forall q: Pid, pg: Page | q in e1.memory ensures AgreesAt(m1, e1, q, pg) {
      assert AgreesAt(m, e, q, pg);
      assert pg == page <==> pg.slot == page.slot && pg.index == page.index;
    }
  }

  lemma WriteRefines(m: Machine, e: Eager, a: Action)
    requires Inv(m) && Refines(m, e) && a.Write? && Enabled(m, a)
    ensures Refines(Step(m, a), EagerStep(e, a, []))
  {
    var Write(page, offset, value, t, f) := a;
    WriteIsPrivate(m, page, offset, value, t, f);
    assert m.current in e.memory;
    assert AgreesAt(m, e, m.current, page);
    var m1 := Step(m, a);
    var e1 := EagerStep(e, a, []);
    forall q: Pid, pg: Page | q in e1.memory ensures AgreesAt(m1, e1, q, pg) {
      assert AgreesAt(m, e, q, pg);
      assert pg == page <==> pg.slot == page.slot && pg.index == page.index;
    }
  }

  lemma {:induction false} StepRefines(m: Machine, e: Eager, a: Action)
    requires Inv(m) && Refines(m, e) && Enabled(m, a)
    ensures Refines(Step(m, a), EagerStep(e, a, Filler(m, a)))
  {
    match a
    case Switch(p) =>
      var m1, e1 := Step(m, a), EagerStep(e, a, []);
      forall q: Pid, page: Page | q in e1.memory ensures AgreesAt(m1, e1, q, page) {
        assert AgreesAt(m, e, q, page);
      }
    case Create(p, at, kernel) =>
      CreateEntries(m, p, at, kernel);
      var m1, e1 := Step(m, a), EagerStep(e, a, []);
      forall q: Pid, page: Page | q in e1.memory ensures AgreesAt(m1, e1, q, page) {
        if q != p { assert AgreesAt(m, e, q, page); }
      }
    case ForkProcess(src, child, at) => ForkRefines(m, e, src, child, at);
    case MapNew(_, _, _, _) => MapRefines(m, e, a);
    case Write(_, _, _, _, _) => WriteRefines(m, e, a);
  }

  /** The main theorem, from any related pair of states. */
  lemma {:induction false} RunRefines(m: Machine, e: Eager, acts: seq<Action>)
    requires Inv(m) && Refines(m, e) && CanRun(m, acts)
    ensures Inv(Run(m, acts)) && Refines(Run(m, acts), EagerRun(m, e, acts))
    decreases acts
  {
    if acts == [] {
    } else {
      StepKeepsInv(m, acts[0]);
      StepRefines(m, e, acts[0]);
      RunRefines(Step(m, acts[0]), EagerStep(e, acts[0], Filler(m, acts[0])), acts[1..]);
    }
  }

  // ----- What no step touches -----

  /** The kernel's part of every directory is as before, and every page of a process is still mapped and
      as accessible to the user as before. */
  ghost predicate KeepsAccess(m: Machine, m1: Machine) {
    && (forall p: Pid :: p in m.dirs ==> p in m1.dirs)
    && (forall p: Pid, s: nat :: p in m.dirs && USER_SLOTS <= s ==> PdeOf(m1, p, s) == PdeOf(m, p, s))
    && (forall p: Pid, s: nat, k: nat :: s < USER_SLOTS && Mapped(m, p, s, k) ==>
          Mapped(m1, p, s, k) && PteOf(m1, p, s, k).user == PteOf(m, p, s, k).user)
  }

  /** Every mapped page of the user part is a user page. */
  ghost predicate UserPages(m: Machine) {
    forall p: Pid, s: nat, k: nat :: s < USER_SLOTS && Mapped(m, p, s, k) ==> PteOf(m, p, s, k).user
  }

  ghost predicate SameKernelPart(m: Machine, m1: Machine) {
    forall p: Pid, s: nat :: USER_SLOTS <= s ==> PdeOf(m1, p, s) == PdeOf(m, p, s)
  }

  lemma FirstHalfKeepsKernelPart(m: Machine, s: nat, t: int)
    requires TableFault(m, s, t)
    ensures BreakTable(m, s, t).Done? && SameKernelPart(m, BreakTable(m, s, t).machine)
  {
    BreakTableStored(m, s, t);
    forall p: Pid, s': nat | USER_SLOTS <= s'
      ensures PdeOf(BreakTable(m, s, t).machine, p, s') == PdeOf(m, p, s')
    {
      BreakTablePde(m, s, t, p, s');
    }
  }

  lemma FaultKeepsAccess(m: Machine, s: nat, k: nat, t: int, f: int)
    requires Inv(m) && m.current in m.procs && s < USER_SLOTS && FreshFrame(m, f)
    requires TableIsCow(m, s) && t != NULL ==> FreshTable(m, t)
    requires Fault(m, s, k, t, f).Done?
    ensures SameKernelPart(m, Fault(m, s, k, t, f).machine) && SameView(m, Fault(m, s, k, t, f).machine)
    ensures forall p: Pid :: p in Fault(m, s, k, t, f).machine.dirs <==> p in m.dirs
  {
    FaultKeepsInv(m, s, k, t, f);
    var m1 := FirstHalf(m, s, k, t);
    if TableIsCow(m, s) { FirstHalfKeepsKernelPart(m, s, t); }
    if PageIsCow(m1, s, k) { BreakPageDone(m1, s, k, f); }
  }

  lemma SameViewKeepsAccess(m: Machine, m1: Machine)
    requires SameKernelPart(m, m1) && SameView(m, m1) && forall p: Pid :: p in m1.dirs <==> p in m.dirs
    ensures KeepsAccess(m, m1) && (UserPages(m) ==> UserPages(m1))
  {
  }

  lemma WriteKeepsAccess(m: Machine, a: Action)
    requires Inv(m) && a.Write? && Enabled(m, a)
    ensures KeepsAccess(m, Step(m, a)) && (UserPages(m) ==> UserPages(Step(m, a)))
  {
    var Write(page, offset, value, t, f) := a;
    var m1 := m;
    if NeedsFrame(m, a) {
      FaultOutcome(m, page.slot, page.index, t, f);
      FaultKeepsAccess(m, page.slot, page.index, t, f);
      m1 := Fault(m, page.slot, page.index, t, f).machine;
      SameViewKeepsAccess(m, m1);
    }
    StoreKeepsEntries(m1, page.slot, page.index, offset, value);
  }

  lemma MapKeepsAccess(m: Machine, a: Action)
    requires Inv(m) && a.MapNew? && Enabled(m, a)
    ensures KeepsAccess(m, Step(m, a)) && (UserPages(m) ==> UserPages(Step(m, a)))
  {
    MapPageEntries(m, a.pid, a.page.slot, a.page.index, a.newTable, a.newFrame);
  }

  lemma {:induction false} StepKeepsAccess(m: Machine, a: Action)
    requires Inv(m) && Enabled(m, a)
    ensures KeepsAccess(m, Step(m, a)) && (UserPages(m) ==> UserPages(Step(m, a)))
  {
    match a
    case Switch(_) =>
      assert forall p: Pid, s: nat, k: nat :: PteOf(Step(m, a), p, s, k) == PteOf(m, p, s, k);
    case Create(p, at, kernel) => CreateEntries(m, p, at, kernel);
    case ForkProcess(src, child, at) =>
      ForkEntries(m, src, child, at);
    case MapNew(_, _, _, _) => MapKeepsAccess(m, a);
    case Write(_, _, _, _, _) => WriteKeepsAccess(m, a);
  }

  /** Over every run the kernel's part of each directory stays as it was made, and no page is closed to
      its user: from boot, all pages of all processes are user pages. */
  lemma {:induction false} RunKeepsAccess(m: Machine, acts: seq<Action>)
    requires Inv(m) && CanRun(m, acts)
    ensures KeepsAccess(m, Run(m, acts)) && (UserPages(m) ==> UserPages(Run(m, acts)))
    decreases acts
  {
    if acts == [] {
    } else {
      StepKeepsInv(m, acts[0]);
      StepKeepsAccess(m, acts[0]);
      RunKeepsAccess(Step(m, acts[0]), acts[1..]);
    }
  }

  /** No process yet: any pool of physical frames, nothing mapped. */
  ghost predicate Boot(m: Machine) {
    m.procs == [] && m.dirs == map[] && m.tables == map[] && (forall f :: f in m.frames ==> |m.frames[f]| == WORDS)
  }

  /** From boot: every run keeps the ownership invariant and shows each process eager memory, and
      whatever fault comes next cannot find a copy-on-write table without another sharer. */
  lemma CopyOnWriteIsEagerCopy(m: Machine, acts: seq<Action>)
    requires Boot(m) && CanRun(m, acts)
    ensures var m1 := Run(m, acts);
      Inv(m1) && Refines(m1, EagerRun(m, Eager(m.current, map[]), acts)) &&
      (forall s: nat :: s < USER_SLOTS && TableIsCow(m1, s) ==>
        TableSharers(m1, s, PdeOf(m1, m1.current, s).table) != [])
  {
    RunRefines(m, Eager(m.current, map[]), acts);
    var m1 := Run(m, acts);
    forall s: nat | s < USER_SLOTS && TableIsCow(m1, s)
      ensures TableSharers(m1, s, PdeOf(m1, m1.current, s).table) != []
    {
      CowTableHasSharer(m1, s);
    }
  }

  // ----- Limits of the design -----

  /** pg_map as seen entry by entry, whatever was mapped: everyone on the table sees the new entry. */
  lemma MapPageReaches(m: Machine, p: Pid, s: nat, k: nat, t: int, f: int, q: Pid, s': nat, k': nat)
    requires Inv(m) && p in m.dirs && s < USER_SLOTS && k < ENTRIES && s' < USER_SLOTS
    requires !PdeOf(m, p, s).present ==> FreshTable(m, t)
    ensures PteOf(MapPage(m, p, s, k, t, f), q, s', k') ==
      if k' == k && s' == s && (q == p || (PdeOf(m, p, s).present && UsesTable(m, q, s, PdeOf(m, p, s).table)))
      then Pte(true, true, true, false, f) else PteOf(m, q, s', k')
    ensures PdeOf(MapPage(m, p, s, k, t, f), q, s') ==
      if q == p && s' == s && !PdeOf(m, p, s).present then Pde(true, true, true, false, t) else PdeOf(m, q, s')
    ensures var m1 := MapPage(m, p, s, k, t, f);
      m1.procs == m.procs && m1.current == m.current && m1.frames == m.frames
  {
    var m0 := EnsureTable(m, p, s, t);
    var own := PdeOf(m0, p, s).table;
    assert own in m0.tables && k < |m0.tables[own]|;
    SetEntryAt(m0, own, k, Pte(true, true, true, false, f), q, s', k');
    if PdeOf(m, p, s).present {
      assert UsesTable(m, p, s, own);
      assert UsesTable(m, q, s', own) ==> s' == s;
    } else {
      assert !UsesTable(m, q, s', t);
    }
  }

  /** pg_map does not look at copy-on-write.  Mapping a page, mapped before or not, leaves every entry of
      every other process alone if and only if the slot has no table, its table is not shared, or the
      entry is there already. */
  lemma MapLeaksIffShared(m: Machine, p: Pid, s: nat, k: nat, t: int, f: int)
    requires Inv(m) && p in m.dirs && s < USER_SLOTS && k < ENTRIES
    requires !PdeOf(m, p, s).present ==> FreshTable(m, t)
    ensures (forall q: Pid, s': nat, k': nat :: q != p && s' < USER_SLOTS ==>
        PteOf(MapPage(m, p, s, k, t, f), q, s', k') == PteOf(m, q, s', k'))
      <==> !PdeOf(m, p, s).present || PdeOf(m, p, s).writable || PteOf(m, p, s, k) == Pte(true, true, true, false, f)
    ensures forall s': nat, k': nat :: s' < USER_SLOTS ==>
      PteOf(MapPage(m, p, s, k, t, f), p, s', k') ==
      if s' == s && k' == k then Pte(true, true, true, false, f) else PteOf(m, p, s', k')
  {
    var m1 := MapPage(m, p, s, k, t, f);
    forall q: Pid, s': nat, k': nat | s' < USER_SLOTS
      ensures PteOf(m1, q, s', k') ==
        if k' == k && s' == s && (q == p || (PdeOf(m, p, s).present && UsesTable(m, q, s, PdeOf(m, p, s).table)))
        then Pte(true, true, true, false, f) else PteOf(m, q, s', k')
    {
      MapPageReaches(m, p, s, k, t, f, q, s', k');
    }
    if PdeOf(m, p, s).present {
      assert TableRuleAt(m, p, s);
      if !PdeOf(m, p, s).writable {
        var q: Pid :| q != p && UsesTable(m, q, s, PdeOf(m, p, s).table);
        assert PteOf(m, q, s, k) == PteOf(m, p, s, k);
        assert PteOf(m1, q, s, k) == Pte(true, true, true, false, f);
      }
    }
  }

  lemma CreatedHasNoTable(m: Machine, p: Pid, at: nat, kernel: seq<Pde>, s: nat, k: nat)
    requires Shape(m) && p !in m.dirs && at <= |m.procs| && m.current in m.procs && s < USER_SLOTS
    ensures var m1 := CreateProcess(m, p, at, kernel);
      !AllHaveTable(m1, s) && m.current in m1.procs &&
      Mapped(m1, m.current, s, k) == Mapped(m, m.current, s, k) &&
      CanWrite(m1, m.current, s, k) == CanWrite(m, m.current, s, k)
  {
    var m1 := CreateProcess(m, p, at, kernel);
    CreateEntries(m, p, at, kernel);
    InsertMembers(m.procs, at, p);
    assert m1.procs[at] == p && !PdeOf(m1, p, s).present;
  }

  lemma CreatedUsesNoTable(m: Machine, p: Pid, at: nat, kernel: seq<Pde>, t: int)
    requires p !in m.dirs && at <= |m.procs| && FreshTable(m, t)
    ensures FreshTable(CreateProcess(m, p, at, kernel), t)
  {
    var m1 := CreateProcess(m, p, at, kernel);
    forall q: Pid, s: nat | s < USER_SLOTS ensures !UsesTable(m1, q, s, t) {
      assert !UsesTable(m, q, s, t);
    }
  }

  /** The page scan reads every listed process's table.  Once a process has been created and has no
      table at the slot, any fault there that has to copy a page dereferences a NULL pointer. */
  lemma CreateBreaksFaults(m: Machine, p: Pid, at: nat, kernel: seq<Pde>, s: nat, k: nat, t: int, f: int)
    requires Inv(m) && p !in m.dirs && at <= |m.procs| && m.current in m.procs && s < USER_SLOTS
    requires Mapped(m, m.current, s, k) && !CanWrite(m, m.current, s, k) && (t != NULL ==> FreshTable(m, t))
    ensures Fault(CreateProcess(m, p, at, kernel), s, k, t, f).NullTable?
  {
    StepKeepsInv(m, Create(p, at, kernel));
    CreatedHasNoTable(m, p, at, kernel, s, k);
    if t != NULL { CreatedUsesNoTable(m, p, at, kernel, t); }
    FaultOutcome(CreateProcess(m, p, at, kernel), s, k, t, f);
  }

  /** What extracting a process from the list leaves behind: its tables stay, nobody is told. */
  function Extract(m: Machine, p: Pid): Machine {
    m.(procs := Others(m.procs, p, (q: Pid) => true), dirs := m.dirs - {p})
  }

  lemma EntriesAfterExtract(m: Machine, p: Pid, q: Pid, s: nat)
    requires q != p
    ensures PdeOf(Extract(m, p), q, s) == PdeOf(m, q, s)
  {
  }

  /** The scan after p has gone finds the old sharers except p. */
  lemma SharersAfterExtract(m: Machine, p: Pid, s: nat)
    requires Shape(m) && p != m.current
    ensures var u := PdeOf(m, m.current, s).table;
      PdeOf(Extract(m, p), m.current, s) == PdeOf(m, m.current, s) &&
      (forall q: Pid :: q in TableSharers(Extract(m, p), s, u) <==> q in TableSharers(m, s, u) && q != p)
  {
    var m1 := Extract(m, p);
    var u := PdeOf(m, m.current, s).table;
    TableSharersExact(m, s, u);
    EntriesAfterExtract(m, p, m.current, s);
    forall q: Pid ensures q in TableSharers(m1, s, u) <==> q in TableSharers(m, s, u) && q != p {
      SharerAfterExtract(m, p, s, u, q);
    }
  }

  lemma SharerAfterExtract(m: Machine, p: Pid, s: nat, u: int, q: Pid)
    requires Shape(m)
    ensures q in TableSharers(Extract(m, p), s, u) <==>
      q in m.procs && q != p && q != m.current && UsesTable(m, q, s, u)
  {
    var m1 := Extract(m, p);
    OthersMembers(m.procs, p, (r: Pid) => true);
    OthersMembers(m1.procs, m1.current, (r: Pid) => UsesTable(m1, r, s, u));
    if q != p { EntriesAfterExtract(m, p, q, s); }
  }

  lemma NothingLeft(xs: seq<Pid>, rest: seq<Pid>, p: Pid)
    requires NoDuplicates(xs) && xs != []
    requires forall q: Pid :: q in rest <==> q in xs && q != p
    ensures rest == [] <==> xs == [p]
  {
    if rest == [] {
      forall i | 0 <= i < |xs| ensures xs[i] == p {
        assert xs[i] in xs && xs[i] !in rest;
      }
      assert xs[0] == p && xs[|xs| - 1] == p;
      assert |xs| == 1;
    } else {
      assert rest[0] in rest;
      assert rest[0] in xs && rest[0] != p;
      var i :| 0 <= i < |xs| && xs[i] == rest[0];
      assert xs[i] != p && [p][0] == p;
    }
  }

  /** Why runs have no termination step: after another process has terminated, a fault at slot s
      uses `last` unassigned if and only if it needs a new table and gets one, and that process was the
      only other user of the old one. */
  lemma TerminationStrandsSharer(m: Machine, p: Pid, s: nat, k: nat, t: int, f: int)
    requires Inv(m) && m.current in m.procs && s < USER_SLOTS && p != m.current
    ensures Fault(Extract(m, p), s, k, t, f).NoSharer?
      <==> TableIsCow(m, s) && t != NULL && TableSharers(m, s, PdeOf(m, m.current, s).table) == [p]
  {
    var u := PdeOf(m, m.current, s).table;
    SharersAfterExtract(m, p, s);
    assert TableIsCow(Extract(m, p), s) == TableIsCow(m, s);
    if TableIsCow(m, s) {
      CowTableHasSharer(m, s);
      TableSharersExact(m, s, u);
      NothingLeft(TableSharers(m, s, u), TableSharers(Extract(m, p), s, u), p);
    }
  }
}
