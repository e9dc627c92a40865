/** Each failure of the kernel heap happens: runs from boot that lead to it. */
module HeapFailures {
  import F = FrameStacks
  import opened FreeList
  import opened HeapModel
  import opened HeapRuns
  import P = Paths

  const ROOT := Block(BASE, 0)

  ghost predicate StepsTo(st: State, a: Action, st1: State) {
    Good(st) && Permitted(st, a) && Perform(st, a) == Next(st1)
  }

  ghost predicate Reaches(from: State, acts: seq<Action>, to: State) {
    Good(from) && CanRun(from, acts) && Run(from, acts) == to
  }

  /** Step by step is a run. */
  lemma {:induction false} PathRuns(from: State, acts: seq<Action>, to: State)
    requires P.Path(StepsTo, from, acts, to) && Good(to)
    ensures Reaches(from, acts, to)
    decreases |acts|
  {
    if acts == [] {
    } else {
      var mid :| StepsTo(from, acts[0], mid) && P.Path(StepsTo, mid, acts[1..], to);
      StepKeepsGood(from, acts[0]);
      PathRuns(mid, acts[1..], to);
    }
  }

  lemma BootGrows()
    ensures HeapOk(BOOT_HEAP) && Grow(BOOT_HEAP) == Heap([ROOT, Block(HEAP_START, PAGE)], 0, 1)
  {
    GrowShape(BOOT_HEAP);
  }

  /** The first small allocation: a page is mapped, and the block is cut off its end. */
  lemma FirstAlloc(frames: F.Stacks, n: int)
    requires 0 !in F.Stacked(frames) && FrameCount(frames) > 0 && 1 <= n < PAGE
    ensures Kalloc(BOOT_HEAP, frames, n) ==
      Got(Heap([ROOT, Block(HEAP_START, PAGE - n)], 0, 1), F.Allocate(frames).0, HEAP_START + PAGE - n)
  {
    F.ZeroIffEmpty(frames);
    BootGrows();
    var h, g := BOOT_HEAP, Heap([ROOT, Block(HEAP_START, PAGE)], 0, 1);
    assert Scan(h, frames, 0, n) == Scan(g, F.Allocate(frames).0, 1, n);
    assert Carve(g.free, 1, n) == [ROOT, Block(HEAP_START, PAGE - n)];
  }

  /** After a request of n units at boot. */
  function Small(frames: F.Stacks, n: int): State {
    State(Heap([ROOT, Block(HEAP_START, PAGE - n)], 0, 1), frames, map[HEAP_START + PAGE - n := n], true)
  }

  lemma SmallStep(frames: F.Stacks, size: int, n: int, rest: F.Stacks)
    requires 0 !in F.Stacked(frames) && FrameCount(frames) > 0 && F.Allocate(frames).0 == rest
    requires 0 <= size < 4096 && n == Units(size) < PAGE
    ensures StepsTo(Boot(frames), Alloc(size), Small(rest, n)) && Good(Small(rest, n))
  {
    BootIsGood(frames);
    FirstAlloc(frames, n);
    StepKeepsGood(Boot(frames), Alloc(size));
  }

  /** A request of `size` bytes returns NULL with a fitting block on the list. */
  ghost predicate Misses(st: State, size: int) {
    HeapOk(st.heap) && FailsWithFit(Kalloc(st.heap, st.frames, Units(size)), Units(size))
  }

  lemma SmallMisses(f: int)
    requires f != 0 && Good(Small(F.Stacks([f], []), 100))
    ensures Misses(Small(F.Stacks([f], []), 100), 3992)
  {
    var st := Small(F.Stacks([f], []), 100);
    WhenKallocMissesABlock(st.heap, st.frames, Units(3992));
  }

  /** kalloc returns NULL although a block fits: with two frames, 792 bytes and then 3992. */
  lemma KallocMissesABlock(f: int, g: int)
    requires f != 0 && g != 0
    ensures Reaches(Boot(F.Stacks([f, g], [])), [Alloc(792)], Small(F.Stacks([f], []), 100))
    ensures Misses(Small(F.Stacks([f], []), 100), 3992)
  {
    var frames := F.Stacks([f, g], []);
    SmallStep(frames, 792, 100, F.Stacks([f], []));
    var st := Small(F.Stacks([f], []), 100);
    P.FirstStep(StepsTo, Boot(frames), Alloc(792), st, [], st);
    assert [Alloc(792)] + [] == [Alloc(792)];
    PathRuns(Boot(frames), [Alloc(792)], st);
    SmallMisses(f);
  }

  // ----- kalloc_page, a page at the end of its block -----

  /** The next kalloc_page takes a page that ends its block without starting it, and loses a block. */
  ghost predicate BreaksAtTheEnd(st: State) {
    HeapOk(st.heap) && Perform(st, AllocPage).BrokenList? &&
    (var h, i := st.heap, PageBlock(st.heap);
    i >= 1 && Overhead(h.free[i]) > 0 && Avail(h.free[i]) == PAGE && !CarvedRight(h, i, CarvePage(h.free, i)))
  }

  /** The next kalloc_page takes the start of the block that kernel_heap_free points to. */
  ghost predicate BreaksTheRover(st: State) {
    HeapOk(st.heap) && Perform(st, AllocPage).BrokenList? &&
    (var h, i := st.heap, PageBlock(st.heap);
    i >= 1 && i == h.rover && Overhead(h.free[i]) == 0 && !CarvedRight(h, i, CarvePage(h.free, i)))
  }

  /** After 3992 and 88 bytes have used up one page. */
  function Full(frames: F.Stacks): State {
    State(Heap([ROOT], 0, 1), frames, map[HEAP_START + 12 := 500, HEAP_START := 12], true)
  }

  lemma FullStep(frames: F.Stacks)
    requires Good(Small(frames, 500))
    ensures StepsTo(Small(frames, 500), Alloc(88), Full(frames)) && Good(Full(frames))
  {
    var st := Small(frames, 500);
    assert Units(88) == 12;
    assert Carve(st.heap.free, 1, 12) == [ROOT];
    StepKeepsGood(st, Alloc(88));
  }

  /** After the larger region has been freed. */
  function HoleBehind(frames: F.Stacks): State {
    State(Heap([ROOT, Block(HEAP_START + 12, 500)], 0, 1), frames, map[HEAP_START := 12], true)
  }

  lemma HoleStep(frames: F.Stacks)
    requires Good(Full(frames))
    ensures StepsTo(Full(frames), FreeAt(HEAP_START + 12), HoleBehind(frames)) && Good(HoleBehind(frames))
  {
    var st := Full(frames);
    var b := Block(HEAP_START + 12, 500);
    assert Region(st.owned, HEAP_START + 12) == b;
    assert Coalesce(st.heap.free, b) == [ROOT, b];
    assert st.owned - {HEAP_START + 12} == map[HEAP_START := 12];
    StepKeepsGood(st, FreeAt(HEAP_START + 12));
  }

  /** After the heap has grown by a page, which the hole joins. */
  function Grown(frames: F.Stacks): State {
    State(Heap([ROOT, Block(HEAP_START + 12, 1012)], 1, 2), frames, map[HEAP_START := 12], true)
  }

  /** kbrk with a frame and room in the table. */
  lemma BrkGrows(st: State)
    requires Good(st) && st.initialised && FrameCount(st.frames) > 0 && st.heap.pages < TABLE_PAGES
    ensures var st1 := st.(heap := Grow(st.heap), frames := F.Allocate(st.frames).0);
      StepsTo(st, Brk, st1) && Good(st1) && FrameCount(st1.frames) == FrameCount(st.frames) - 1
  {
    F.ZeroIffEmpty(st.frames);
    BrkStepKeepsGood(st);
  }

  lemma GrownHeap(h: Heap)
    requires HeapOk(h) && h == Heap([ROOT, Block(HEAP_START + 12, 500)], 0, 1)
    ensures Grow(h) == Heap([ROOT, Block(HEAP_START + 12, 1012)], 1, 2)
  {
    GrowShape(h);
    assert h.free[..1] == [ROOT];
  }

  lemma GrownStep(frames: F.Stacks)
    requires Good(HoleBehind(frames)) && FrameCount(frames) > 0
    ensures StepsTo(HoleBehind(frames), Brk, Grown(F.Allocate(frames).0)) && Good(Grown(F.Allocate(frames).0))
  {
    var st := HoleBehind(frames);
    BrkGrows(st);
    GrownHeap(st.heap);
  }

  lemma GrownFails(frames: F.Stacks)
    requires Good(Grown(frames))
    ensures BreaksAtTheEnd(Grown(frames))
  {
    var h := Grown(frames).heap;
    BaseHoldsNoPage(h);
    assert FindPage(h, 0) == FindPage(h, 1) == 1;
    CarvingRightIffSafe(h, 1);
  }

  /** kalloc_page unlinks the wrong block: the page ends its block and does not start it. */
  lemma PageAtTheEnd(f: int, g: int)
    requires f != 0 && g != 0
    ensures Reaches(Boot(F.Stacks([f, g], [])), [Alloc(3992), Alloc(88), FreeAt(HEAP_START + 12), Brk],
                    Grown(F.Stacks([], [])))
    ensures BreaksAtTheEnd(Grown(F.Stacks([], [])))
  {
    var boot, one, none := F.Stacks([f, g], []), F.Stacks([f], []), F.Stacks([], []);
    assert F.Allocate(boot).0 == one && F.Allocate(one).0 == none;
    SmallStep(boot, 3992, 500, one);
    FullStep(one);
    HoleStep(one);
    GrownStep(one);
    P.FourSteps(StepsTo, Boot(boot), Alloc(3992), Small(one, 500), Alloc(88), Full(one), FreeAt(HEAP_START + 12),
                HoleBehind(one), Brk, Grown(none));
    PathRuns(Boot(boot), [Alloc(3992), Alloc(88), FreeAt(HEAP_START + 12), Brk], Grown(none));
    GrownFails(none);
  }

  // ----- kalloc_page, the rover's own block -----

  /** After n pages from kalloc_page at boot. */
  function OnePage(frames: F.Stacks): State {
    State(Heap([ROOT], 0, 1), frames, map[HEAP_START := PAGE], true)
  }

  function TwoPages(frames: F.Stacks): State {
    State(Heap([ROOT], 0, 2), frames, map[HEAP_START := PAGE, HEAP_START + PAGE := PAGE], true)
  }

  lemma FirstPageStep(frames: F.Stacks)
    requires 0 !in F.Stacked(frames) && FrameCount(frames) > 0
    ensures StepsTo(Boot(frames), AllocPage, OnePage(F.Allocate(frames).0)) && Good(OnePage(F.Allocate(frames).0))
  {
    BootIsGood(frames);
    F.ZeroIffEmpty(frames);
    BaseHoldsNoPage(BOOT_HEAP);
    PageStepKeepsGood(Boot(frames));
  }

  lemma SecondPageStep(frames: F.Stacks)
    requires Good(OnePage(frames)) && FrameCount(frames) > 0
    ensures StepsTo(OnePage(frames), AllocPage, TwoPages(F.Allocate(frames).0)) && Good(TwoPages(F.Allocate(frames).0))
  {
    F.ZeroIffEmpty(frames);
    BaseHoldsNoPage(OnePage(frames).heap);
    PageStepKeepsGood(OnePage(frames));
  }

  /** After both have been freed, the lower one first: one block, and the rover on it. */
  function OneFree(frames: F.Stacks): State {
    State(Heap([ROOT, Block(HEAP_START, PAGE)], 0, 2), frames, map[HEAP_START + PAGE := PAGE], true)
  }

  function BothFree(frames: F.Stacks): State {
    State(Heap([ROOT, Block(HEAP_START, 2 * PAGE)], 1, 2), frames, map[], true)
  }

  lemma FreeSteps(frames: F.Stacks)
    requires Good(TwoPages(frames))
    ensures StepsTo(TwoPages(frames), FreeAt(HEAP_START), OneFree(frames))
    ensures StepsTo(OneFree(frames), FreeAt(HEAP_START + PAGE), BothFree(frames)) && Good(BothFree(frames))
  {
    var st := TwoPages(frames);
    assert Coalesce(st.heap.free, Block(HEAP_START, PAGE)) == [ROOT, Block(HEAP_START, PAGE)];
    assert st.owned - {HEAP_START} == OneFree(frames).owned;
    StepKeepsGood(st, FreeAt(HEAP_START));
    var st1 := OneFree(frames);
    assert Gap(st1.heap.free, HEAP_START + PAGE) == 1;
    assert Coalesce(st1.heap.free, Block(HEAP_START + PAGE, PAGE)) == [ROOT, Block(HEAP_START, 2 * PAGE)];
    assert st1.owned - {HEAP_START + PAGE} == map[];
    StepKeepsGood(st1, FreeAt(HEAP_START + PAGE));
  }

  lemma BothFreeFails(frames: F.Stacks)
    requires Good(BothFree(frames))
    ensures BreaksTheRover(BothFree(frames))
  {
    var h := BothFree(frames).heap;
    BaseHoldsNoPage(h);
    assert FindPage(h, 0) == FindPage(h, 1) == 1;
    CarvingRightIffSafe(h, 1);
  }

  /** kalloc_page unlinks the block that kernel_heap_free points to. */
  lemma PageFromTheRover(f: int, g: int)
    requires f != 0 && g != 0
    ensures Reaches(Boot(F.Stacks([f, g], [])), [AllocPage, AllocPage, FreeAt(HEAP_START), FreeAt(HEAP_START + PAGE)],
                    BothFree(F.Stacks([], [])))
    ensures BreaksTheRover(BothFree(F.Stacks([], [])))
  {
    var boot, one, none := F.Stacks([f, g], []), F.Stacks([f], []), F.Stacks([], []);
    assert F.Allocate(boot).0 == one && F.Allocate(one).0 == none;
    FirstPageStep(boot);
    SecondPageStep(one);
    FreeSteps(none);
    P.FourSteps(StepsTo, Boot(boot), AllocPage, OnePage(one), AllocPage, TwoPages(none),
                FreeAt(HEAP_START), OneFree(none), FreeAt(HEAP_START + PAGE), BothFree(none));
    PathRuns(Boot(boot), [AllocPage, AllocPage, FreeAt(HEAP_START), FreeAt(HEAP_START + PAGE)], BothFree(none));
    BothFreeFails(none);
  }

  // ----- The end of the heap's page table -----

  /** With more frames than the table has room for, kbrk fills the table and then leaves it. */
  lemma {:induction false} TableFills(st: State) returns (acts: seq<Action>, to: State)
    requires Good(st) && st.initialised && FrameCount(st.frames) > TABLE_PAGES - st.heap.pages
    ensures P.Path(StepsTo, st, acts, to) && Good(to) && Perform(to, Brk).NoTable?
    decreases TABLE_PAGES - st.heap.pages
  {
    BrkOutcome(st);
    if st.heap.pages == TABLE_PAGES {
      return [], st;
    }
    BrkGrows(st);
    GrowLast(st.heap);
    var st1 := st.(heap := Grow(st.heap), frames := F.Allocate(st.frames).0);
    var rest;
    rest, to := TableFills(st1);
    P.FirstStep(StepsTo, st, Brk, st1, rest, to);
    acts := [Brk] + rest;
  }

  /** From boot, with more frames than the table has pages, some run of calls leaves the table. */
  lemma BootTableFills(frames: F.Stacks) returns (acts: seq<Action>, to: State)
    requires 0 !in F.Stacked(frames) && FrameCount(frames) > TABLE_PAGES
    ensures Reaches(Boot(frames), acts, to) && Good(to) && Perform(to, Brk).NoTable?
  {
    FirstPageStep(frames);
    F.ZeroIffEmpty(frames);
    var rest;
    rest, to := TableFills(OnePage(F.Allocate(frames).0));
    P.FirstStep(StepsTo, Boot(frames), AllocPage, OnePage(F.Allocate(frames).0), rest, to);
    acts := [AllocPage] + rest;
    PathRuns(Boot(frames), acts, to);
  }

  /** The heap's table is full, a frame is left for kalloc_page, and no free block holds a page for a
      second table: the recursion for it ends with NULL. */
  ghost predicate NoPageForTable(st: State) {
    HeapOk(st.heap) && Perform(st, AllocPage).NoTable? && NestedTable(st.heap, st.frames).1 == 0
  }

  /** kalloc_page with nothing free, a frame and room in the table. */
  lemma PageAdded(st: State)
    requires Good(st) && st.heap.free == [ROOT] && FrameCount(st.frames) > 0 && st.heap.pages < TABLE_PAGES
    ensures var st1 := State(st.heap.(pages := st.heap.pages + 1), F.Allocate(st.frames).0,
                             st.owned[Top(st.heap) := PAGE], true);
      StepsTo(st, AllocPage, st1) && Good(st1) && FrameCount(st1.frames) == FrameCount(st.frames) - 1
  {
    BaseHoldsNoPage(st.heap);
    F.ZeroIffEmpty(st.frames);
    PageStepKeepsGood(st);
  }

  lemma TableIsFull(st: State)
    requires Good(st) && st.heap.free == [ROOT] && FrameCount(st.frames) > 0 && st.heap.pages == TABLE_PAGES
    ensures NoPageForTable(st)
  {
    BaseHoldsNoPage(st.heap);
    AllocPageOutcome(st);
    NestedTableFails(st.heap, st.frames);
  }

  /** Calls of kalloc_page alone keep the list at the base block until the table is full. */
  lemma {:induction false} PagesFill(st: State) returns (acts: seq<Action>, to: State)
    requires Good(st) && st.heap.free == [ROOT] && FrameCount(st.frames) > TABLE_PAGES - st.heap.pages
    ensures P.Path(StepsTo, st, acts, to) && Good(to) && NoPageForTable(to)
    ensures forall a :: a in acts ==> a == AllocPage
    decreases TABLE_PAGES - st.heap.pages
  {
    if st.heap.pages == TABLE_PAGES {
      TableIsFull(st);
      return [], st;
    }
    PageAdded(st);
    var st1 := State(st.heap.(pages := st.heap.pages + 1), F.Allocate(st.frames).0,
                     st.owned[Top(st.heap) := PAGE], true);
    var rest;
    rest, to := PagesFill(st1);
    P.FirstStep(StepsTo, st, AllocPage, st1, rest, to);
    acts := [AllocPage] + rest;
  }

  /** From boot, with more frames than the table has pages, calls of kalloc_page alone lead there. */
  lemma TableCannotGrow(frames: F.Stacks) returns (acts: seq<Action>, to: State)
    requires 0 !in F.Stacked(frames) && FrameCount(frames) > TABLE_PAGES
    ensures Reaches(Boot(frames), acts, to) && Good(to) && NoPageForTable(to)
    ensures forall a :: a in acts ==> a == AllocPage
  {
    BootIsGood(frames);
    acts, to := PagesFill(Boot(frames));
    PathRuns(Boot(frames), acts, to);
  }
}
