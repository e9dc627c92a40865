/** Each limit of the copy-on-write design is met: runs from boot to a state with a shared table, and
    what goes wrong there. */
module CowFailures {
  import opened PageEntries
  import opened CowModel
  import opened CowFault
  import opened CowRefinement
  import P = Paths

  const FIRST := Page(0, 0)

  ghost predicate StepsTo(m: Machine, a: Action, m1: Machine) {
    Inv(m) && Enabled(m, a) && Step(m, a) == m1
  }

  ghost predicate Reaches(m: Machine, acts: seq<Action>, to: Machine) {
    CanRun(m, acts) && Run(m, acts) == to
  }

  /** Step by step is a run. */
  lemma {:induction false} PathRuns(m: Machine, acts: seq<Action>, to: Machine)
    requires P.Path(StepsTo, m, acts, to)
    ensures Reaches(m, acts, to)
    decreases |acts|
  {
    if acts == [] {
    } else {
      var mid :| StepsTo(m, acts[0], mid) && P.Path(StepsTo, mid, acts[1..], to);
      PathRuns(mid, acts[1..], to);
    }
  }

  /** A process with one page forks: parent and child share a copy-on-write table. */
  function Shared(p: Pid, c: Pid, t: int, f: int): seq<Action> {
    [Create(p, 0, []), MapNew(p, FIRST, t, f), ForkProcess(p, c, 1), Switch(p)]
  }

  /** What that run leads to. */
  ghost predicate IsShared(m: Machine, p: Pid, c: Pid, t: int, f: int) {
    Inv(m) && m.procs == [p, c] && m.current == p && p in m.dirs && c in m.dirs && m.tables.Keys == {t} &&
    PdeOf(m, p, 0) == Pde(true, false, true, true, t) == PdeOf(m, c, 0) &&
    PteOf(m, p, 0, 0) == Pte(true, true, true, false, f) && PteOf(m, p, 0, 1) == NO_PAGE
  }

  lemma BootHasInv(m: Machine)
    requires Boot(m)
    ensures Inv(m)
  {
  }

  lemma CreateStep(m: Machine, p: Pid)
    requires Boot(m)
    ensures var m1 := CreateProcess(m, p, 0, []);
      StepsTo(m, Create(p, 0, []), m1) && Inv(m1) && m1.procs == [p] && m1.frames == m.frames && m1.tables == map[] &&
      (forall q: Pid :: q in m1.dirs <==> q == p) &&
      (forall q: Pid, s: nat :: s < USER_SLOTS ==> !PdeOf(m1, q, s).present)
  {
    BootHasInv(m);
    CreateEntries(m, p, 0, []);
    StepKeepsInv(m, Create(p, 0, []));
  }

  lemma MapStep(m: Machine, p: Pid, t: int, f: int)
    requires Inv(m) && m.procs == [p] && f in m.frames && t != NULL && m.tables == map[] &&
      (forall q: Pid :: q in m.dirs <==> q == p)
    requires forall q: Pid, s: nat :: s < USER_SLOTS ==> !PdeOf(m, q, s).present
    ensures var m1 := MapPage(m, p, 0, 0, t, f);
      StepsTo(m, MapNew(p, FIRST, t, f), m1) && Inv(m1) && m1.procs == [p] && m1.tables.Keys == {t} &&
      (forall q: Pid :: q in m1.dirs <==> q == p) &&
      PdeOf(m1, p, 0) == Pde(true, true, true, false, t) &&
      PteOf(m1, p, 0, 0) == Pte(true, true, true, false, f) && PteOf(m1, p, 0, 1) == NO_PAGE
  {
    assert forall q: Pid, s: nat, k: nat :: s < USER_SLOTS ==> PteOf(m, q, s, k) == NO_PAGE;
    assert FreshFrame(m, f) && FreshTable(m, t);
    MapPageKeepsInv(m, p, 0, 0, t, f);
    MapPageEntries(m, p, 0, 0, t, f);
  }

  lemma ForkStep(m: Machine, p: Pid, c: Pid, t: int, f: int)
    requires Inv(m) && m.procs == [p] && m.tables.Keys == {t} && (forall q: Pid :: q in m.dirs <==> q == p) && p != c
    requires PdeOf(m, p, 0) == Pde(true, true, true, false, t)
    requires PteOf(m, p, 0, 0) == Pte(true, true, true, false, f) && PteOf(m, p, 0, 1) == NO_PAGE
    ensures var m1 := Fork(m, p, c, 1);
      StepsTo(m, ForkProcess(p, c, 1), m1) && StepsTo(m1, Switch(p), m1.(current := p)) &&
      IsShared(m1.(current := p), p, c, t, f)
  {
    var m1 := Fork(m, p, c, 1);
    ForkKeepsInv(m, p, c, 1);
    ForkEntries(m, p, c, 1);
    assert m1.procs == [p, c];
    StepKeepsInv(m1, Switch(p));
  }

  lemma SharedIsReached(m: Machine, p: Pid, c: Pid, t: int, f: int) returns (m1: Machine)
    requires Boot(m) && f in m.frames && p != c && t != NULL
    ensures Reaches(m, Shared(p, c, t, f), m1) && IsShared(m1, p, c, t, f)
  {
    CreateStep(m, p);
    var a := CreateProcess(m, p, 0, []);
    MapStep(a, p, t, f);
    var b := MapPage(a, p, 0, 0, t, f);
    ForkStep(b, p, c, t, f);
    var d := Fork(b, p, c, 1);
    m1 := d.(current := p);
    P.FourSteps(StepsTo, m, Create(p, 0, []), a, MapNew(p, FIRST, t, f), b, ForkProcess(p, c, 1), d, Switch(p), m1);
    PathRuns(m, Shared(p, c, t, f), m1);
  }

  /** pg_map gives the child a page when the parent maps one. */
  lemma MapLeaks(m: Machine, p: Pid, c: Pid, t: int, f: int, t2: int, g: int) returns (m1: Machine)
    requires Boot(m) && f in m.frames && p != c && t != NULL
    ensures Reaches(m, Shared(p, c, t, f), m1) && IsShared(m1, p, c, t, f) && !Mapped(m1, c, 0, 1)
    ensures PteOf(MapPage(m1, p, 0, 1, t2, g), c, 0, 1) == Pte(true, true, true, false, g)
  {
    m1 := SharedIsReached(m, p, c, t, f);
    MapPageReaches(m1, p, 0, 1, t2, g, c, 0, 1);
  }

  /** pg_map of a mapped page swaps the child's frame. */
  lemma RemapLeaks(m: Machine, p: Pid, c: Pid, t: int, f: int, t2: int, g: int) returns (m1: Machine)
    requires Boot(m) && f in m.frames && p != c && t != NULL && f != g
    ensures Reaches(m, Shared(p, c, t, f), m1) && MapsFrame(m1, c, 0, 0, f)
    ensures MapsFrame(MapPage(m1, p, 0, 0, t2, g), c, 0, 0, g)
  {
    m1 := SharedIsReached(m, p, c, t, f);
    MapPageReaches(m1, p, 0, 0, t2, g, c, 0, 0);
  }

  /** After one more process has been created, the parent's next write dereferences NULL. */
  lemma CreateBreaks(m: Machine, p: Pid, c: Pid, t: int, f: int, q: Pid, t2: int, g: int) returns (m1: Machine)
    requires Boot(m) && f in m.frames && p != c && t != NULL && q != p && q != c && t2 != t
    ensures Reaches(m, Shared(p, c, t, f), m1) && Enabled(m1, Create(q, 0, []))
    ensures Fault(Step(m1, Create(q, 0, [])), 0, 0, t2, g).NullTable?
  {
    m1 := SharedIsReached(m, p, c, t, f);
    CreateBreaksFaults(m1, q, 0, [], 0, 0, t2, g);
  }

  /** After the child has terminated, the parent's next write uses `last` unassigned. */
  lemma TerminationStrands(m: Machine, p: Pid, c: Pid, t: int, f: int, t2: int, g: int) returns (m1: Machine)
    requires Boot(m) && f in m.frames && p != c && t != NULL && t2 != NULL
    ensures Reaches(m, Shared(p, c, t, f), m1)
    ensures Fault(Extract(m1, c), 0, 0, t2, g).NoSharer?
  {
    m1 := SharedIsReached(m, p, c, t, f);
    TableSharersExact(m1, 0, t);
    var sharers := TableSharers(m1, 0, t);
    assert c in sharers;
    NothingLeft(sharers, [], c);
    TerminationStrandsSharer(m1, c, 0, 0, t2, g);
  }

  /** The parent has its own table, both still map frame 0, and the page has to be copied. */
  ghost predicate IsHalfway(m: Machine, p: Pid, c: Pid) {
    PageCopy(m, 0, 0) && m.current == p != c && MapsFrame(m, p, 0, 0, 0) && MapsFrame(m, c, 0, 0, 0)
  }

  lemma FirstHalfOfReuse(m: Machine, p: Pid, c: Pid, t: int, t2: int) returns (m1: Machine)
    requires IsShared(m, p, c, t, 0) && p != c && t2 != NULL && t2 != t
    ensures BreakTable(m, 0, t2) == Done(m1, false) && IsHalfway(m1, p, c)
  {
    assert forall q: Pid, s: nat :: s < USER_SLOTS && PdeOf(m, q, s).present ==> PdeOf(m, q, s).table in m.tables;
    assert TableFault(m, 0, t2);
    m1 := FirstHalf(m, 0, 0, t2);
    BreakTablePte(m, 0, t2, p, 0, 0);
    BreakTablePte(m, 0, t2, c, 0, 0);
  }

  /** The parent may write its page, and both map frame 0. */
  ghost predicate FrameIsReused(m: Machine, p: Pid, c: Pid) {
    CanWrite(m, p, 0, 0) && MapsFrame(m, p, 0, 0, 0) && MapsFrame(m, c, 0, 0, 0)
  }

  lemma EntriesAfterReuse(m: Machine, p: Pid, c: Pid, m1: Machine)
    requires m.current == p != c && PdeOf(m, p, 0).present && PdeOf(m, p, 0).writable && MapsFrame(m, c, 0, 0, 0)
    requires m1.dirs == m.dirs
    requires PteOf(m1, p, 0, 0) == BrokenPagePte(m, 0, 0, 0, p, 0, 0)
    requires PteOf(m1, c, 0, 0) == BrokenPagePte(m, 0, 0, 0, c, 0, 0)
    ensures FrameIsReused(m1, p, c)
  {
    assert PdeOf(m1, p, 0) == PdeOf(m, p, 0);
  }

  lemma SecondHalfOfReuse(m: Machine, p: Pid, c: Pid)
    requires IsHalfway(m, p, c)
    ensures var out := BreakPage(m, 0, 0, 0);
      out.Done? && out.resolved && FrameIsReused(out.machine, p, c)
  {
    BreakPageDone(m, 0, 0, 0);
    BreakPagePte(m, 0, 0, 0, p, 0, 0);
    BreakPagePte(m, 0, 0, 0, c, 0, 0);
    EntriesAfterReuse(m, p, c, BreakPage(m, 0, 0, 0).machine);
  }

  /** Mapping a page and a later copy both get frame 0, as when physical memory is exhausted: the copy
      is the original, and the child maps the frame that the parent may write. */
  lemma FrameReused(m: Machine, p: Pid, c: Pid, t: int, t2: int) returns (m1: Machine)
    requires Boot(m) && 0 in m.frames && p != c && t != NULL && t2 != NULL && t2 != t
    ensures Reaches(m, Shared(p, c, t, 0), m1) && MapsFrame(m1, c, 0, 0, 0)
    ensures var out := Fault(m1, 0, 0, t2, 0);
      out.Done? && out.resolved && !Inv(out.machine) && FrameIsReused(out.machine, p, c)
  {
    m1 := SharedIsReached(m, p, c, t, 0);
    var m2 := FirstHalfOfReuse(m1, p, c, t, t2);
    SecondHalfOfReuse(m2, p, c);
    StaleFrameBreaksInv(m2, 0, 0, 0);
  }
}
