/** The pager together with the physical frame allocator: the frames that mapping and copying use are
    what the allocator answers, and the kernel takes and returns frames in between. */
module CowMemory {
  import F = FrameStacks
  import opened CowModel
  import opened CowFault
  import R = CowRefinement

  /** `kernel` are the frames that the kernel keeps for itself, as for its heap. */
  datatype Memory = Memory(machine: Machine, frames: F.System, kernel: set<int>)

  /** Some process maps the frame. */
  ghost predicate UserMaps(m: Machine, f: int) {
    exists p: Pid, s: nat, k: nat :: s < USER_SLOTS && MapsFrame(m, p, s, k, f)
  }

  /** The invariant.  All frames of the allocator are different physical frames other than frame 0;
      those that it has handed out are the kernel's and the ones mapped, and the two differ. */
  ghost predicate Accounted(x: Memory) {
    && Inv(x.machine) && 0 in x.machine.frames
    && 0 !in F.Frames(x.frames) && F.AllDifferent(F.Frames(x.frames))
    && (forall f :: f in F.Frames(x.frames) ==> f in x.machine.frames)
    && (forall f :: f != 0 ==> (f in x.frames.issued <==> f in x.kernel || UserMaps(x.machine, f)))
    && (forall f :: f in x.kernel ==> f != 0 && !UserMaps(x.machine, f))
  }

  /** What mm_page_allocate answers next. */
  function Answer(x: Memory): int { F.Allocate(x.frames.stacks).1 }

  // ----- The allocator's answer -----

  /** The answer may be used for a page if and only if it is a frame, or it is 0 and nobody maps
      frame 0 yet. */
  lemma AnswerIsFresh(x: Memory)
    requires Accounted(x)
    ensures FreshFrame(x.machine, Answer(x)) <==> Answer(x) != 0 || !UserMaps(x.machine, 0)
  {
    F.FreshAfterRun(x.frames, []);
    assert Answer(x) != 0 ==> !UserMaps(x.machine, Answer(x));
    if Answer(x) != 0 || !UserMaps(x.machine, 0) {
      forall p: Pid, s: nat, k: nat | s < USER_SLOTS ensures !MapsFrame(x.machine, p, s, k, Answer(x)) {
      }
    }
  }

  /** One frame more is handed out. */
  lemma FrameIssued(x: Memory)
    requires Accounted(x)
    ensures var s1 := F.Step(x.frames, F.Get);
      F.Frames(s1) == F.Frames(x.frames) &&
      (forall f :: f in s1.issued <==> f in x.frames.issued || (f == Answer(x) && f != 0)) &&
      Answer(x) !in x.frames.issued
  {
    F.StepConserves(x.frames, F.Get);
    F.FreshAfterRun(x.frames, []);
    if Answer(x) == 0 { assert 0 !in x.frames.issued; }
  }

  /** One frame less is handed out. */
  lemma FrameReturned(x: Memory, page: int)
    requires Accounted(x) && page in x.kernel
    ensures var s1 := F.Step(x.frames, F.Return(page));
      F.Frames(s1) == F.Frames(x.frames) &&
      forall f :: f in s1.issued <==> f in x.frames.issued && f != page
  {
    F.StepConserves(x.frames, F.Return(page));
    assert F.Frames(x.frames)[page] <= 1;
  }

  // ----- Steps -----

  /** The frame that an action names is replaced by the allocator's answer. */
  datatype Call =
    | User(action: R.Action)
    | Take
    | GiveBack(page: int)

  function Actual(x: Memory, a: R.Action): R.Action {
    if a.MapNew? || a.Write? then a.(newFrame := Answer(x)) else a
  }

  ghost predicate Permitted(x: Memory, c: Call) {
    match c
    case User(a) =>
      R.Asked(x.machine, a) && (R.NeedsFrame(x.machine, a) ==> Answer(x) != 0 || !UserMaps(x.machine, 0))
    case Take => true
    case GiveBack(page) => page in x.kernel
  }

  lemma ActionIsEnabled(x: Memory, a: R.Action)
    requires Accounted(x) && Permitted(x, User(a))
    ensures R.Enabled(x.machine, Actual(x, a))
  {
    AnswerIsFresh(x);
  }

  ghost function Step(x: Memory, c: Call): Memory
    requires Accounted(x) && Permitted(x, c)
  {
    match c
    case User(a) =>
      ActionIsEnabled(x, a);
      Memory(R.Step(x.machine, Actual(x, a)),
             if R.NeedsFrame(x.machine, a) then F.Step(x.frames, F.Get) else x.frames, x.kernel)
    case Take =>
      Memory(x.machine, F.Step(x.frames, F.Get), if Answer(x) == 0 then x.kernel else x.kernel + {Answer(x)})
    case GiveBack(page) => Memory(x.machine, F.Step(x.frames, F.Return(page)), x.kernel - {page})
  }

  // ----- Which frames are mapped -----

  /** The frames mapped are those of before and, if there is one, the new frame. */
  ghost predicate MapsMore(m: Machine, m1: Machine, more: bool, f: int) {
    forall g :: UserMaps(m1, g) <==> UserMaps(m, g) || (more && g == f)
  }

  /** The same entries, up to flags, map the same frames. */
  lemma SameFrames(m: Machine, m1: Machine)
    requires forall p: Pid, s: nat, k: nat :: s < USER_SLOTS ==>
      PteOf(m1, p, s, k).present == PteOf(m, p, s, k).present &&
      (PteOf(m, p, s, k).present ==> PteOf(m1, p, s, k).frame == PteOf(m, p, s, k).frame)
    ensures MapsMore(m, m1, false, 0)
  {
    forall g ensures UserMaps(m1, g) <==> UserMaps(m, g) {
      if p: Pid, s: nat, k: nat :| s < USER_SLOTS && MapsFrame(m, p, s, k, g) { assert MapsFrame(m1, p, s, k, g); }
      if p: Pid, s: nat, k: nat :| s < USER_SLOTS && MapsFrame(m1, p, s, k, g) { assert MapsFrame(m, p, s, k, g); }
    }
  }

  lemma FirstHalfFrames(m: Machine, s: nat, t: int)
    requires Inv(m) && m.current in m.procs && s < USER_SLOTS && (TableIsCow(m, s) ==> FreshTable(m, t))
    ensures BreakTable(m, s, t).Done? && MapsMore(m, BreakTable(m, s, t).machine, false, 0)
  {
    if TableIsCow(m, s) {
      BreakTableDone(m, s, t);
      var m1 := BreakTable(m, s, t).machine;
      forall p: Pid, s': nat, k: nat | s' < USER_SLOTS ensures PteOf(m1, p, s', k) == BrokenPte(m, s, p, s', k) {
        BreakTablePte(m, s, t, p, s', k);
      }
      SameFrames(m, m1);
    }
  }

  /** The old frame stays mapped: whoever shared it still has it. */
  lemma SecondHalfFrames(m: Machine, s: nat, k: nat, f: int)
    requires PageCopy(m, s, k)
    ensures BreakPage(m, s, k, f).Done? && MapsMore(m, BreakPage(m, s, k, f).machine, true, f)
  {
    BreakPageDone(m, s, k, f);
    var m1 := BreakPage(m, s, k, f).machine;
    forall q: Pid, s': nat, k': nat | s' < USER_SLOTS
      ensures PteOf(m1, q, s', k') == BrokenPagePte(m, s, k, f, q, s', k')
    {
      BreakPagePte(m, s, k, f, q, s', k');
    }
    assert MapsFrame(m1, m.current, s, k, f);
    assert PageRuleAt(m, m.current, s, k);
    var other: Pid :| other != m.current && MapsFrame(m, other, s, k, PteOf(m, m.current, s, k).frame);
    CopyFrames(m, s, k, f, m1, other);
  }

  lemma CopyFrames(m: Machine, s: nat, k: nat, f: int, m1: Machine, other: Pid)
    requires s < USER_SLOTS && MapsFrame(m1, m.current, s, k, f)
    requires other != m.current && MapsFrame(m, other, s, k, PteOf(m, m.current, s, k).frame)
    requires forall q: Pid, s': nat, k': nat :: s' < USER_SLOTS ==>
      PteOf(m1, q, s', k') == BrokenPagePte(m, s, k, f, q, s', k')
    ensures MapsMore(m, m1, true, f)
  {
    forall g ensures UserMaps(m1, g) <==> UserMaps(m, g) || g == f {
      if p: Pid, s': nat, k': nat :| s' < USER_SLOTS && MapsFrame(m, p, s', k', g) {
        var q := if p == m.current && s' == s && k' == k then other else p;
        assert MapsFrame(m1, q, s', k', g);
      }
      if p: Pid, s': nat, k': nat :| s' < USER_SLOTS && MapsFrame(m1, p, s', k', g) {
        assert g == f || MapsFrame(m, p, s', k', g);
      }
    }
  }

  lemma FaultFrames(m: Machine, s: nat, k: nat, t: int, f: int)
    requires Inv(m) && m.current in m.procs && s < USER_SLOTS && Mapped(m, m.current, s, k) &&
      !CanWrite(m, m.current, s, k)
    requires AllHaveTable(m, s) && FreshTable(m, t)
    ensures Fault(m, s, k, t, f).Done? && MapsMore(m, Fault(m, s, k, t, f).machine, true, f)
  {
    FirstHalfFrames(m, s, t);
    var m1 := FirstHalf(m, s, k, t);
    SecondHalfFrames(m1, s, k, f);
  }

  lemma WriteFrames(m: Machine, a: R.Action)
    requires Inv(m) && a.Write? && R.Enabled(m, a)
    ensures MapsMore(m, R.Step(m, a), R.NeedsFrame(m, a), a.newFrame)
  {
    var Write(page, offset, value, t, f) := a;
    var m1 := m;
    if R.NeedsFrame(m, a) {
      FaultFrames(m, page.slot, page.index, t, f);
      m1 := Fault(m, page.slot, page.index, t, f).machine;
    }
    SameFrames(m1, R.Store(m1, page.slot, page.index, offset, value));
  }

  lemma ForkFrames(m: Machine, src: Pid, child: Pid, at: nat)
    requires Inv(m) && R.Enabled(m, R.ForkProcess(src, child, at))
    ensures MapsMore(m, Fork(m, src, child, at), false, 0)
  {
    var m1 := Fork(m, src, child, at);
    ForkEntries(m, src, child, at);
    forall g ensures UserMaps(m1, g) <==> UserMaps(m, g) {
      if p: Pid, s: nat, k: nat :| s < USER_SLOTS && MapsFrame(m, p, s, k, g) {
        assert MapsFrame(m1, p, s, k, g);
      }
      if p: Pid, s: nat, k: nat :| s < USER_SLOTS && MapsFrame(m1, p, s, k, g) {
        assert MapsFrame(m, if p == child then src else p, s, k, g);
      }
    }
  }

  lemma MapFrames(m: Machine, a: R.Action)
    requires Inv(m) && a.MapNew? && R.Enabled(m, a)
    ensures MapsMore(m, R.Step(m, a), true, a.newFrame)
  {
    var MapNew(p, page, t, f) := a;
    R.MapPageEntries(m, p, page.slot, page.index, t, f);
    var m1 := R.Step(m, a);
    assert MapsFrame(m1, p, page.slot, page.index, f);
    forall g ensures UserMaps(m1, g) <==> UserMaps(m, g) || g == f {
      if q: Pid, s: nat, k: nat :| s < USER_SLOTS && MapsFrame(m, q, s, k, g) { assert MapsFrame(m1, q, s, k, g); }
      if q: Pid, s: nat, k: nat :| s < USER_SLOTS && MapsFrame(m1, q, s, k, g) {
        assert g == f || MapsFrame(m, q, s, k, g);
      }
    }
  }

  /** An action maps a new frame exactly if it asks for one, and unmaps none. */
  lemma ActionFrames(m: Machine, a: R.Action)
    requires Inv(m) && R.Enabled(m, a)
    ensures MapsMore(m, R.Step(m, a), R.NeedsFrame(m, a), if R.NeedsFrame(m, a) then a.newFrame else 0)
  {
    match a
    case Switch(p) => SameFrames(m, R.Step(m, a));
    case Create(p, at, kernel) =>
      R.CreateEntries(m, p, at, kernel);
      SameFrames(m, R.Step(m, a));
    case ForkProcess(src, child, at) => ForkFrames(m, src, child, at);
    case MapNew(_, _, _, _) => MapFrames(m, a);
    case Write(_, _, _, _, _) => WriteFrames(m, a);
  }

  // ----- The invariant over runs -----

  lemma MemoryStays(m: Machine, a: R.Action)
    requires Inv(m) && R.Enabled(m, a)
    ensures forall f :: f in m.frames ==> f in R.Step(m, a).frames
  {
    if a.MapNew? {
      R.MapPageEntries(m, a.pid, a.page.slot, a.page.index, a.newTable, a.newFrame);
    } else if a.Write? && R.NeedsFrame(m, a) {
      var s, k := a.page.slot, a.page.index;
      var m1 := FirstHalf(m, s, k, a.newTable);
      BreakPageDone(m1, s, k, a.newFrame);
    }
  }

  lemma ActionKeepsAccounted(x: Memory, a: R.Action)
    requires Accounted(x) && Permitted(x, User(a))
    ensures Accounted(Step(x, User(a)))
  {
    ActionIsEnabled(x, a);
    var a1 := Actual(x, a);
    R.StepKeepsInv(x.machine, a1);
    MemoryStays(x.machine, a1);
    ActionFrames(x.machine, a1);
    FrameIssued(x);
  }

  lemma TakeKeepsAccounted(x: Memory)
    requires Accounted(x)
    ensures Accounted(Step(x, Take)) && F.Frames(Step(x, Take).frames) == F.Frames(x.frames)
  {
    FrameIssued(x);
    assert Answer(x) != 0 ==> !UserMaps(x.machine, Answer(x));
  }

  lemma GiveBackKeepsAccounted(x: Memory, page: int)
    requires Accounted(x) && page in x.kernel
    ensures Accounted(Step(x, GiveBack(page))) && F.Frames(Step(x, GiveBack(page)).frames) == F.Frames(x.frames)
  {
    FrameReturned(x, page);
  }

  lemma StepKeepsAccounted(x: Memory, c: Call)
    requires Accounted(x) && Permitted(x, c)
    ensures Accounted(Step(x, c)) && F.Frames(Step(x, c).frames) == F.Frames(x.frames)
  {
    match c
    case User(a) =>
      ActionKeepsAccounted(x, a);
      FrameIssued(x);
    case Take => TakeKeepsAccounted(x);
    case GiveBack(page) => GiveBackKeepsAccounted(x, page);
  }

  ghost predicate CanRun(x: Memory, calls: seq<Call>)
    requires Accounted(x)
    decreases calls
  {
    calls == [] ||
    (Permitted(x, calls[0]) && (StepKeepsAccounted(x, calls[0]); CanRun(Step(x, calls[0]), calls[1..])))
  }

  ghost function Run(x: Memory, calls: seq<Call>): Memory
    requires Accounted(x) && CanRun(x, calls)
    decreases calls
  {
    if calls == [] then x else
    StepKeepsAccounted(x, calls[0]);
    Run(Step(x, calls[0]), calls[1..])
  }

  /** The pager's part of the run, with the frames that the allocator answered. */
  ghost function Actions(x: Memory, calls: seq<Call>): seq<R.Action>
    requires Accounted(x) && CanRun(x, calls)
    decreases calls
  {
    if calls == [] then [] else
    StepKeepsAccounted(x, calls[0]);
    (if calls[0].User? then [Actual(x, calls[0].action)] else []) + Actions(Step(x, calls[0]), calls[1..])
  }

  /** The invariant over every run, and the frames in total stay the same. */
  lemma {:induction false} RunKeepsAccounted(x: Memory, calls: seq<Call>)
    requires Accounted(x) && CanRun(x, calls)
    ensures Accounted(Run(x, calls)) && F.Frames(Run(x, calls).frames) == F.Frames(x.frames)
    decreases calls
  {
    if calls == [] {
    } else {
      StepKeepsAccounted(x, calls[0]);
      RunKeepsAccounted(Step(x, calls[0]), calls[1..]);
    }
  }

  lemma FirstAction(m: Machine, a: R.Action, acts: seq<R.Action>)
    requires R.Enabled(m, a) && R.CanRun(R.Step(m, a), acts)
    ensures R.CanRun(m, [a] + acts) && R.Run(m, [a] + acts) == R.Run(R.Step(m, a), acts)
  {
    assert ([a] + acts)[1..] == acts;
  }

  lemma RunUnfolds(x: Memory, calls: seq<Call>) returns (x1: Memory)
    requires Accounted(x) && CanRun(x, calls) && calls != []
    ensures Permitted(x, calls[0]) && x1 == Step(x, calls[0])
    ensures Accounted(x1) && CanRun(x1, calls[1..]) && Run(x, calls) == Run(x1, calls[1..])
    ensures Actions(x, calls) ==
      (if calls[0].User? then [Actual(x, calls[0].action)] else []) + Actions(x1, calls[1..])
  {
    x1 := Step(x, calls[0]);
    StepKeepsAccounted(x, calls[0]);
  }

  /** Every run is one of the pager alone, in which all new frames are fresh. */
  lemma {:induction false} RunIsPagerRun(x: Memory, calls: seq<Call>)
    requires Accounted(x) && CanRun(x, calls)
    ensures R.CanRun(x.machine, Actions(x, calls)) && R.Run(x.machine, Actions(x, calls)) == Run(x, calls).machine
    decreases calls
  {
    if calls == [] {
    } else {
      var x1 := RunUnfolds(x, calls);
      RunIsPagerRun(x1, calls[1..]);
      var acts := Actions(x1, calls[1..]);
      if calls[0].User? {
        ActionIsEnabled(x, calls[0].action);
        FirstAction(x.machine, Actual(x, calls[0].action), acts);
      } else {
        assert Actions(x, calls) == acts;
      }
    }
  }

  // ----- From start-up -----

  /** The allocator as start-up leaves it, and no process; frame 0 and the frames of the allocator are
      physical memory. */
  ghost predicate Boot(x: Memory, firstFreePage: int, memorySize: int) {
    var fs := F.FramesBetween(F.FirstFree(firstFreePage, memorySize), memorySize);
    F.Sizes(firstFreePage, memorySize) && R.Boot(x.machine) && x.kernel == {} &&
    x.frames == F.System(F.Stacks(fs, []), multiset{}) &&
    0 in x.machine.frames && forall f :: f in fs ==> f in x.machine.frames
  }

  lemma BootIsAccounted(x: Memory, firstFreePage: int, memorySize: int)
    requires Boot(x, firstFreePage, memorySize)
    ensures Accounted(x)
    ensures F.Frames(x.frames) == multiset(F.FramesBetween(F.FirstFree(firstFreePage, memorySize), memorySize))
  {
    var fs := F.FramesBetween(F.FirstFree(firstFreePage, memorySize), memorySize);
    F.SetupFits(firstFreePage, memorySize);
    F.AscendingAllDifferent(fs);
    assert 0 !in fs;
    assert F.Frames(x.frames) == multiset(fs);
    assert forall f :: !UserMaps(x.machine, f);
  }

  /** The frame is on a stack, kept by the kernel or mapped by a process, and only one of these. */
  ghost predicate HasOnePlace(x: Memory, f: int) {
    (if f in F.Stacked(x.frames.stacks) then 1 else 0) + (if f in x.kernel then 1 else 0) +
    (if UserMaps(x.machine, f) then 1 else 0) == 1
  }

  lemma FrameHasOnePlace(x: Memory, f: int)
    requires Accounted(x) && f in F.Frames(x.frames)
    ensures HasOnePlace(x, f)
  {
    assert F.Frames(x.frames)[f] <= 1;
  }

  lemma FramesHavePlaces(x: Memory, firstFreePage: int, memorySize: int)
    requires Accounted(x) && F.Sizes(firstFreePage, memorySize)
    requires F.Frames(x.frames) == multiset(F.FramesBetween(F.FirstFree(firstFreePage, memorySize), memorySize))
    ensures forall f :: F.FrameAligned(f) && F.FirstFree(firstFreePage, memorySize) <= f < memorySize ==>
      HasOnePlace(x, f)
  {
    var first := F.FirstFree(firstFreePage, memorySize);
    F.FirstFreeIsAligned(firstFreePage, F.StackPages(memorySize));
    forall f | F.FrameAligned(f) && first <= f < memorySize ensures HasOnePlace(x, f) {
      F.PushedFrames(first, memorySize, f);
      FrameHasOnePlace(x, f);
    }
  }

  /** The whole of memory, from start-up on.  After any calls, in which a page gets frame 0 at most
      once: every process sees eager memory, and every frame that start-up found has one place. */
  lemma NoFrameIsLostOrShared(x: Memory, firstFreePage: int, memorySize: int, calls: seq<Call>)
    requires Boot(x, firstFreePage, memorySize)
    requires (BootIsAccounted(x, firstFreePage, memorySize); CanRun(x, calls))
    ensures (BootIsAccounted(x, firstFreePage, memorySize);
      var acts := Actions(x, calls);
      R.CanRun(x.machine, acts) &&
      R.Refines(Run(x, calls).machine, R.EagerRun(x.machine, R.Eager(x.machine.current, map[]), acts)))
    ensures (BootIsAccounted(x, firstFreePage, memorySize);
      forall f :: F.FrameAligned(f) && F.FirstFree(firstFreePage, memorySize) <= f < memorySize ==>
        HasOnePlace(Run(x, calls), f))
  {
    BootIsAccounted(x, firstFreePage, memorySize);
    RunKeepsAccounted(x, calls);
    RunIsPagerRun(x, calls);
    R.CopyOnWriteIsEagerCopy(x.machine, Actions(x, calls));
    FramesHavePlaces(Run(x, calls), firstFreePage, memorySize);
  }
}
