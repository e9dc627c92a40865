/** The physical frame allocator: two LIFO stacks of free frames, filled at start-up. */
module FrameStacks {
  import opened Words

  const LOW_LIMIT := 0x10_0000

  // ----- The stacks on values -----

  /** Free frames of high and low memory, top of stack last. */
  datatype Stacks = Stacks(hi: seq<int>, lo: seq<int>)

  function Pop(s: seq<int>): seq<int>
    requires s != []
  {
    s[..|s| - 1]
  }

  function TopOf(s: seq<int>): int
    requires s != []
  {
    s[|s| - 1]
  }

  /** mm_page_allocate_lo: the remaining stacks and the frame, 0 if there is none. */
  function AllocateLo(s: Stacks): (Stacks, int) {
    if s.lo == [] then (s, 0) else (s.(lo := Pop(s.lo)), TopOf(s.lo))
  }

  /** mm_page_allocate prefers high memory. */
  function Allocate(s: Stacks): (Stacks, int) {
    if s.hi == [] then AllocateLo(s) else (s.(hi := Pop(s.hi)), TopOf(s.hi))
  }

  /** mm_page_free decides by address. */
  function Free(s: Stacks, page: int): Stacks {
    if page < LOW_LIMIT then s.(lo := s.lo + [page]) else s.(hi := s.hi + [page])
  }

  // ----- Runs -----

  datatype Request = Get | GetLow | Return(page: int)

  /** A running system: the stacks and the frames handed out and not yet returned. */
  datatype System = System(stacks: Stacks, issued: multiset<int>)

  /** Callers return only frames they were given. */
  predicate Allowed(s: System, r: Request) { r.Return? ==> r.page in s.issued }

  function Step(s: System, r: Request): System {
    match r
    case Get =>
      var (stacks, page) := Allocate(s.stacks);
      System(stacks, if page == 0 then s.issued else s.issued + multiset{page})
    case GetLow =>
      var (stacks, page) := AllocateLo(s.stacks);
      System(stacks, if page == 0 then s.issued else s.issued + multiset{page})
    case Return(page) => System(Free(s.stacks, page), s.issued - multiset{page})
  }

  ghost predicate CanRun(s: System, rs: seq<Request>)
    decreases rs
  {
    rs == [] || (Allowed(s, rs[0]) && CanRun(Step(s, rs[0]), rs[1..]))
  }

  function Run(s: System, rs: seq<Request>): System
    decreases rs
  {
    if rs == [] then s else Run(Step(s, rs[0]), rs[1..])
  }

  function Stacked(s: Stacks): multiset<int> { multiset(s.hi) + multiset(s.lo) }

  /** Every frame the system knows of. */
  function Frames(s: System): multiset<int> { Stacked(s.stacks) + s.issued }

  ghost predicate AllDifferent(m: multiset<int>) { forall f :: m[f] <= 1 }

  lemma PopSplits(s: seq<int>)
    requires s != []
    ensures multiset(s) == multiset(Pop(s)) + multiset{TopOf(s)} && TopOf(s) in multiset(s)
  {
    assert s == Pop(s) + [TopOf(s)];
  }

  /** With frame 0 not among the free ones, 0 means out of low memory and nothing else. */
  lemma LowZeroIffEmpty(s: Stacks)
    requires 0 !in Stacked(s)
    ensures AllocateLo(s).1 == 0 <==> s.lo == []
    ensures AllocateLo(s).1 != 0 ==> Stacked(s) == Stacked(AllocateLo(s).0) + multiset{AllocateLo(s).1}
  {
    if s.lo != [] {
      PopSplits(s.lo);
      assert TopOf(s.lo) in Stacked(s);
    }
  }

  /** The same for both stacks: 0 means that no frame is left, anything else is a stacked frame. */
  lemma ZeroIffEmpty(s: Stacks)
    requires 0 !in Stacked(s)
    ensures Allocate(s).1 == 0 <==> s.hi == [] && s.lo == []
    ensures Allocate(s).1 != 0 ==> Stacked(s) == Stacked(Allocate(s).0) + multiset{Allocate(s).1}
  {
    if s.hi == [] {
      LowZeroIffEmpty(s);
    } else {
      PopSplits(s.hi);
      assert TopOf(s.hi) in Stacked(s);
    }
  }

  lemma ReturnConserves(s: System, page: int)
    requires page in s.issued
    ensures Frames(Step(s, Return(page))) == Frames(s)
  {
  }

  lemma StepConserves(s: System, r: Request)
    requires 0 !in Frames(s) && Allowed(s, r)
    ensures Frames(Step(s, r)) == Frames(s)
  {
    match r
    case Get => ZeroIffEmpty(s.stacks);
    case GetLow => LowZeroIffEmpty(s.stacks);
    case Return(page) => ReturnConserves(s, page);
  }

  /** Conservation: over every run the stacked and the issued frames together stay the same. */
  lemma {:induction false} RunConserves(s: System, rs: seq<Request>)
    requires 0 !in Frames(s) && CanRun(s, rs)
    ensures Frames(Run(s, rs)) == Frames(s)
    decreases rs
  {
    if rs != [] {
      StepConserves(s, rs[0]);
      RunConserves(Step(s, rs[0]), rs[1..]);
    }
  }

  /** No aliasing: if the frames were all different at the start, then after any run the next frame
      handed out is neither 0 nor in use, unless both stacks are empty. */
  lemma FreshAfterRun(s: System, rs: seq<Request>)
    requires 0 !in Frames(s) && AllDifferent(Frames(s)) && CanRun(s, rs)
    ensures var s1 := Run(s, rs); var page := Allocate(s1.stacks).1;
      (page == 0 <==> s1.stacks.hi == [] && s1.stacks.lo == []) &&
      (page != 0 ==> page !in s1.issued && page !in Stacked(Allocate(s1.stacks).0) && page in Frames(s))
  {
    RunConserves(s, rs);
    var s1 := Run(s, rs);
    var page := Allocate(s1.stacks).1;
    assert Frames(s1)[0] == 0;
    ZeroIffEmpty(s1.stacks);
    if page != 0 {
      assert Frames(s1)[page] <= 1;
    }
  }

  /** What was returned last is handed out first, on its own side of the first megabyte; high memory goes
      first, and low memory is touched only when there is no high memory left. */
  lemma LastReturnedFirst(s: Stacks, page: int)
    ensures page >= LOW_LIMIT ==> Allocate(Free(s, page)) == (s, page)
    ensures page < LOW_LIMIT ==> AllocateLo(Free(s, page)) == (s, page)
    ensures s.hi != [] ==> Allocate(s).1 in s.hi && Allocate(s).0.lo == s.lo
    ensures s.hi == [] ==> Allocate(s) == AllocateLo(s)
  {
    assert Pop(s.lo + [page]) == s.lo && Pop(s.hi + [page]) == s.hi;
  }

  /** The low stack holds frames of the first megabyte, the high stack all others. */
  predicate Sorted(s: Stacks) {
    (forall f :: f in s.hi ==> f >= LOW_LIMIT) && (forall f :: f in s.lo ==> f < LOW_LIMIT)
  }

  lemma PopIsInside(s: seq<int>)
    requires s != []
    ensures forall f :: f in Pop(s) ==> f in s
  {
  }

  lemma StepKeepsSorted(s: System, r: Request)
    requires Sorted(s.stacks) && Allowed(s, r)
    ensures Sorted(Step(s, r).stacks)
  {
    if s.stacks.hi != [] { PopIsInside(s.stacks.hi); }
    if s.stacks.lo != [] { PopIsInside(s.stacks.lo); }
  }

  /** After any run mm_page_allocate_lo answers with memory below the first megabyte only. */
  lemma {:induction false} RunKeepsSorted(s: System, rs: seq<Request>)
    requires Sorted(s.stacks) && CanRun(s, rs)
    ensures Sorted(Run(s, rs).stacks) && AllocateLo(Run(s, rs).stacks).1 < 0x10_0000
    decreases rs
  {
    if rs == [] {
      assert s.stacks.lo != [] ==> TopOf(s.stacks.lo) in s.stacks.lo;
    } else {
      StepKeepsSorted(s, rs[0]);
      RunKeepsSorted(Step(s, rs[0]), rs[1..]);
    }
  }

  // ----- Start-up -----

  predicate FrameAligned(a: int) { a % 0x1000 == 0 }

  /** Frames from `from` up to `limit`, in the order the start-up loop pushes them. */
  function FramesBetween(from: int, limit: int): seq<int>
    decreases limit - from
  {
    if from < limit then [from] + FramesBetween(from + 0x1000, limit) else []
  }

  lemma {:induction false} FramesBetweenAt(from: int, limit: int)
    ensures var fs := FramesBetween(from, limit);
      (fs != [] ==> |fs| * 0x1000 < limit - from + 0x1000) &&
      (from < limit ==> |fs| * 0x1000 >= limit - from) &&
      forall i :: 0 <= i < |fs| ==> fs[i] == from + i * 0x1000 < limit
    decreases limit - from
  {
    if from < limit {
      FramesBetweenAt(from + 0x1000, limit);
    }
  }

  /** Pages mapped for the stack of free frames. */
  function StackPages(memorySize: int): int { memorySize / 0x1000 * 4 / 0x1000 + 1 }

  /** The frames that the start-up loop maps under the stack, one after the other, behind that of the
      page table. */
  function StackFrames(firstFreePage: int, memorySize: nat): seq<int> {
    seq(StackPages(memorySize), i => firstFreePage + 0x1000 + i * 0x1000)
  }

  /** First frame given to the allocator: behind the page table and the stack pages. */
  function FirstFree(firstFreePage: int, memorySize: int): int {
    firstFreePage + 0x1000 + StackPages(memorySize) * 0x1000
  }

  /** Where the high stack starts: at the page of index 256 of the one table that is set up for it. */
  const HI_STACK := 0xC150_0000
  const LO_STACK := 0xC190_0000

  /** The stack's pages fit into that table if and only if there is less than 3 GB of memory.  From
      there on, pg_map needs another table while no frame is free yet. */
  lemma StackFitsItsTable(memorySize: int)
    requires 0 <= memorySize < 0x1_0000_0000
    ensures HI_STACK / 0x1000 % 1024 + StackPages(memorySize) <= 1024 <==> memorySize < 0xC000_0000
  {
  }

  /** For no 32-bit memory size does the high stack reach the low one. */
  lemma StacksApart(memorySize: int)
    requires 0 <= memorySize < 0x1_0000_0000
    ensures StackPages(memorySize) <= 1024 && HI_STACK + StackPages(memorySize) * 0x1000 <= LO_STACK
  {
  }

  /** The start-up loop's counter after t turns, in 32 bits. */
  function Counter(first: int, t: nat): int { (first + t * 0x1000) % 0x1_0000_0000 }

  /** It starts at the first frame and takes one page at a time. */
  lemma CounterSteps(first: int, t: nat)
    ensures 0 <= first < 0x1_0000_0000 ==> Counter(first, 0) == first
    ensures Counter(first, t + 1) == (Counter(first, t) + 0x1000) % 0x1_0000_0000
  {
  }

  /** The loop ends if and only if the memory size is not in the last page of 32 bits: there the
      counter wraps around to 0 before it gets that far. */
  lemma SetupEndsIff(first: int, memorySize: int)
    requires 0 <= first < 0x1_0000_0000 && FrameAligned(first) && 0 <= memorySize < 0x1_0000_0000
    ensures (exists t: nat :: Counter(first, t) >= memorySize) <==> memorySize <= 0xFFFF_F000
  {
    if memorySize <= 0xFFFF_F000 {
      var t := (0xFFFF_F000 - first) / 0x1000;
      assert Counter(first, t) == 0xFFFF_F000;
    } else {
      forall t: nat ensures Counter(first, t) < memorySize {
        CounterIsAligned(first, t);
      }
    }
  }

  lemma CounterIsAligned(first: int, t: nat)
    requires FrameAligned(first)
    ensures 0 <= Counter(first, t) <= 0xFFFF_F000 && FrameAligned(Counter(first, t))
  {
    var q := (first + t * 0x1000) / 0x1_0000_0000;
    assert Counter(first, t) == (first / 0x1000 + t - q * 0x10_0000) * 0x1000;
  }

  /** What start-up can work with: aligned addresses, a stack inside its table, a first frame in 32
      bits. */
  predicate Sizes(firstFreePage: int, memorySize: int) {
    firstFreePage >= 0x1000 && FrameAligned(firstFreePage) && 0 <= memorySize < 0xC000_0000 &&
    FirstFree(firstFreePage, memorySize) < 0x1_0000_0000
  }

  /** Start-up sizing: the pushed frames fit in the stack pages at four bytes each, and they are
      page-aligned frames of memory in ascending order. */
  lemma SetupFits(firstFreePage: int, memorySize: int)
    requires Sizes(firstFreePage, memorySize)
    ensures var first := FirstFree(firstFreePage, memorySize); var fs := FramesBetween(first, memorySize);
      FrameAligned(first) && |fs| * 4 <= StackPages(memorySize) * 0x1000 &&
      (forall f: int :: f in fs <==> FrameAligned(f) && first <= f < memorySize) &&
      (forall i, j :: 0 <= i < j < |fs| ==> fs[i] < fs[j])
  {
    var first := FirstFree(firstFreePage, memorySize);
    FirstFreeIsAligned(firstFreePage, StackPages(memorySize));
    FramesBetweenAt(first, memorySize);
    StackPagesSuffice(memorySize);
    forall f: int ensures f in FramesBetween(first, memorySize) <==> FrameAligned(f) && first <= f < memorySize {
      PushedFrames(first, memorySize, f);
    }
  }

  /** `mapped` lies in one piece behind the page table's frame, and `pushed` is the rest of memory behind
      it: no frame is both. */
  ghost predicate BehindTheStack(tableFrame: int, mapped: seq<int>, memorySize: int, pushed: seq<int>) {
    && mapped != [] && (forall i :: 0 <= i < |mapped| ==> mapped[i] == tableFrame + (i + 1) * 0x1000)
    && |pushed| <= |mapped| * 1024
    && tableFrame !in pushed && (forall f :: f in mapped ==> f !in pushed)
    && (forall f :: f in pushed <==> FrameAligned(f) && mapped[|mapped| - 1] < f < memorySize)
    && (pushed != [] ==> pushed[0] == mapped[|mapped| - 1] + 0x1000)
  }

  lemma StackFramesBelow(firstFreePage: int, memorySize: int)
    requires Sizes(firstFreePage, memorySize)
    ensures var frames := StackFrames(firstFreePage, memorySize);
      frames != [] && frames[|frames| - 1] + 0x1000 == FirstFree(firstFreePage, memorySize) &&
      FrameAligned(frames[|frames| - 1]) &&
      forall f :: f in frames ==> f < FirstFree(firstFreePage, memorySize)
  {
    var n := StackPages(memorySize);
    FirstFreeIsAligned(firstFreePage, n - 1);
    forall i | 0 <= i < n ensures StackFrames(firstFreePage, memorySize)[i] < FirstFree(firstFreePage, memorySize) {
      assert i * 0x1000 < n * 0x1000;
    }
  }

  /** Start-up keeps the frames of its own stack: what it pushes are the frames right behind the last one
      that lies under the stack, so that the stack and its page table keep theirs. */
  lemma StackKeepsItsFrames(firstFreePage: int, memorySize: int)
    requires Sizes(firstFreePage, memorySize)
    ensures var fs := FramesBetween(FirstFree(firstFreePage, memorySize), memorySize);
      BehindTheStack(firstFreePage, StackFrames(firstFreePage, memorySize), memorySize, fs)
  {
    SetupFits(firstFreePage, memorySize);
    StackFramesBelow(firstFreePage, memorySize);
  }

  /** The frames pushed are the aligned ones. */
  lemma PushedFrames(first: int, limit: int, f: int)
    requires FrameAligned(first)
    ensures f in FramesBetween(first, limit) <==> FrameAligned(f) && first <= f < limit
  {
    FramesBetweenAt(first, limit);
    var fs := FramesBetween(first, limit);
    if FrameAligned(f) && first <= f < limit {
      var i := (f - first) / 0x1000;
      assert f == first + i * 0x1000;
      assert i < |fs| && fs[i] == f;
    }
    if f in fs {
      var i :| 0 <= i < |fs| && fs[i] == f;
      FirstFreeIsAligned(first - 0x1000, i);
    }
  }

  /** The start-up loop comes to turn t: its condition, which compares unsigned numbers, has held up to
      there. */
  ghost predicate Turn(first: int, memorySize: int, t: nat) {
    forall u: nat :: u <= t ==> Counter(first, u) < memorySize
  }

  /** The counter is a signed variable, and its increment in turn t leaves the signed numbers. */
  predicate Overflows(first: int, t: nat) { Signed(Counter(first, t)) + 0x1000 > 0x7FFF_FFFF }

  /** Some increment overflows if and only if the loop passes the last page below 2 GB: memory reaches
      above that page, and the loop starts at or below it, or never ends and comes around to it. */
  lemma CounterOverflowsIff(first: int, memorySize: int)
    requires 0 <= first < 0x1_0000_0000 && FrameAligned(first) && 0 <= memorySize < 0x1_0000_0000
    ensures (exists t: nat :: Turn(first, memorySize, t) && Overflows(first, t)) <==>
      memorySize > 0x7FFF_F000 && (first <= 0x7FFF_F000 || memorySize > 0xFFFF_F000)
  {
    if t: nat :| Turn(first, memorySize, t) && Overflows(first, t) {
      PassesLastPage(first, memorySize, t);
    }
    if memorySize > 0x7FFF_F000 && (first <= 0x7FFF_F000 || memorySize > 0xFFFF_F000) {
      var t := ComesToLastPage(first, memorySize);
      assert Turn(first, memorySize, t) && Overflows(first, t);
    }
  }

  lemma ComesToLastPage(first: int, memorySize: int) returns (t: nat)
    requires 0 <= first < 0x1_0000_0000 && FrameAligned(first)
    requires memorySize > 0x7FFF_F000 && (first <= 0x7FFF_F000 || memorySize > 0xFFFF_F000)
    ensures Turn(first, memorySize, t) && Overflows(first, t)
  {
    if first <= 0x7FFF_F000 {
      t := (0x7FFF_F000 - first) / 0x1000;
      CounterIs(first, t, 0x7FFF_F000);
      forall u: nat | u <= t ensures Counter(first, u) < memorySize {
        CounterIs(first, u, first + u * 0x1000);
      }
    } else {
      t := (0x1_7FFF_F000 - first) / 0x1000;
      CounterIs(first, t, 0x7FFF_F000);
      forall u: nat ensures Counter(first, u) < memorySize {
        CounterIsAligned(first, u);
      }
    }
  }

  lemma CounterIs(first: int, t: nat, c: int)
    requires first + t * 0x1000 == c || first + t * 0x1000 == c + 0x1_0000_0000
    requires 0 <= c < 0x1_0000_0000
    ensures Counter(first, t) == c
  {
  }

  /** The only aligned word whose increment overflows is the last page below 2 GB; a loop that starts
      above it has passed the last page of all before it comes there. */
  lemma PassesLastPage(first: int, memorySize: int, t: nat)
    requires 0 <= first < 0x1_0000_0000 && FrameAligned(first)
    requires Turn(first, memorySize, t) && Overflows(first, t)
    ensures memorySize > 0x7FFF_F000 && (first <= 0x7FFF_F000 || memorySize > 0xFFFF_F000)
  {
    CounterIsAligned(first, t);
    assert Counter(first, t) == 0x7FFF_F000;
    if first > 0x7FFF_F000 {
      var u := (0xFFFF_F000 - first) / 0x1000;
      assert Counter(first, u) == 0xFFFF_F000;
      assert u <= t;
    }
  }

  lemma NoWrap(i: int)
    requires 0 <= i < 0xC000_0000
    ensures (i + 0x1000) % 0x1_0000_0000 == i + 0x1000
  {
  }

  /** One frame of the rest. */
  lemma RestOfFrames(all: seq<int>, n: nat, from: int, limit: int)
    requires n <= |all| && all[n..] == FramesBetween(from, limit) && from < limit
    ensures n < |all| && all[n] == from && all[n + 1..] == FramesBetween(from + 0x1000, limit)
  {
    assert all[n..][0] == from && all[n..][1..] == all[n + 1..];
  }

  lemma FirstFreeIsAligned(firstFreePage: int, stackPages: int)
    requires FrameAligned(firstFreePage)
    ensures FrameAligned(firstFreePage + 0x1000 + stackPages * 0x1000)
  {
  }

  lemma StackPagesSuffice(memorySize: int)
    requires memorySize >= 0
    ensures memorySize / 0x1000 < StackPages(memorySize) * 1024
  {
  }

  lemma {:induction false} AscendingAllDifferent(fs: seq<int>)
    requires forall i, j :: 0 <= i < j < |fs| ==> fs[i] < fs[j]
    ensures AllDifferent(multiset(fs))
  {
    if fs != [] {
      var rest := Pop(fs);
      AscendingAllDifferent(rest);
      PopSplits(fs);
      forall f ensures multiset(fs)[f] <= 1 {
        if f == TopOf(fs) { assert f !in rest; }
      }
    }
  }

  /** What start-up leaves satisfies the premises of every run: after any requests of a system booted
      with these frames, the next frame is new and not one of the stack's own, and 0 means that memory is
      exhausted. */
  lemma FreshAfterBoot(firstFreePage: int, memorySize: int, rs: seq<Request>)
    requires Sizes(firstFreePage, memorySize)
    requires CanRun(System(Stacks(FramesBetween(FirstFree(firstFreePage, memorySize), memorySize), []), multiset{}), rs)
    ensures var fs := FramesBetween(FirstFree(firstFreePage, memorySize), memorySize);
      var s := Run(System(Stacks(fs, []), multiset{}), rs); var page := Allocate(s.stacks).1;
      Frames(s) == multiset(fs) &&
      (page == 0 <==> |s.issued| == |fs|) &&
      (page != 0 ==> page !in s.issued && page !in Stacked(Allocate(s.stacks).0)) &&
      (page != 0 ==> page != firstFreePage && page !in StackFrames(firstFreePage, memorySize) && page < memorySize)
  {
    SetupFits(firstFreePage, memorySize);
    StackKeepsItsFrames(firstFreePage, memorySize);
    var fs := FramesBetween(FirstFree(firstFreePage, memorySize), memorySize);
    var boot := System(Stacks(fs, []), multiset{});
    AscendingAllDifferent(fs);
    assert 0 !in fs;
    assert Frames(boot) == multiset(fs);
    FreshAfterRun(boot, rs);
    RunConserves(boot, rs);
    var s := Run(boot, rs);
    assert |Frames(s)| == |s.stacks.hi| + |s.stacks.lo| + |s.issued|;
  }

  /** The allocator's two stacks in memory. */
  class FrameAllocator {
    const hi: array<int>
    const lo: array<int>
    var hiTop: nat
    var loTop: nat

    ghost predicate Valid()
      reads this
    {
      hi != lo && hiTop <= hi.Length && loTop <= lo.Length
    }

    ghost function State(): Stacks
      requires Valid()
      reads this, hi, lo
    {
      Stacks(hi[..hiTop], lo[..loTop])
    }

    constructor (hiCapacity: nat, loCapacity: nat)
      ensures Valid() && fresh(hi) && fresh(lo) && State() == Stacks([], [])
      ensures hi.Length == hiCapacity && lo.Length == loCapacity
    {
      hi := new int[hiCapacity];
      lo := new int[loCapacity];
      hiTop, loTop := 0, 0;
    }

    /** mm_page_allocate_lo */
    method PageAllocateLo() returns (page: int)
      requires Valid()
      modifies this
      ensures Valid() && State() == AllocateLo(old(State())).0 && page == AllocateLo(old(State())).1
      ensures hi[..] == old(hi[..]) && lo[..] == old(lo[..])
    {
      if loTop == 0 {
        return 0;
      }
      assert lo[..loTop][..loTop - 1] == lo[..loTop - 1];
      loTop := loTop - 1;
      page := lo[loTop];
    }

    /** mm_page_allocate */
    method PageAllocate() returns (page: int)
      requires Valid()
      modifies this
      ensures Valid() && State() == Allocate(old(State())).0 && page == Allocate(old(State())).1
      ensures hi[..] == old(hi[..]) && lo[..] == old(lo[..])
    {
      if hiTop == 0 {
        page := PageAllocateLo();
        return;
      }
      assert hi[..hiTop][..hiTop - 1] == hi[..hiTop - 1];
      hiTop := hiTop - 1;
      page := hi[hiTop];
    }

    /** mm_page_free: there must be room on the stack the frame belongs to. */
    method PageFree(page: int)
      requires Valid() && (if page < LOW_LIMIT then loTop < lo.Length else hiTop < hi.Length)
      modifies this, hi, lo
      ensures Valid() && State() == Free(old(State()), page)
    {
      if page < LOW_LIMIT {
        lo[loTop] := page;
        loTop := loTop + 1;
      } else {
        hi[hiTop] := page;
        hiTop := hiTop + 1;
      }
    }

    /** setup_memory_manager, the loop that maps pages under the stack: the physical pages that it maps, in
        order, and the first one left. */
    method MapStack(firstFreePage: int, memorySize: int) returns (mapped: seq<int>, first: int)
      requires memorySize >= 0
      ensures mapped == StackFrames(firstFreePage, memorySize) && first == FirstFree(firstFreePage, memorySize)
    {
      mapped, first := [], firstFreePage + 0x1000;
      var i := 0;
      while i < memorySize / 0x1000 * 0x04 / 0x1000 + 0x01
        invariant 0 <= i <= StackPages(memorySize) && first == firstFreePage + 0x1000 + i * 0x1000
        invariant |mapped| == i && forall j :: 0 <= j < i ==> mapped[j] == firstFreePage + 0x1000 + j * 0x1000
      {
        mapped := mapped + [first];
        first := first + 0x1000;
        i := i + 1;
      }
    }

    /** setup_memory_manager: the pages under the stack are mapped, and all memory behind them is marked
        as free.  The mapped pages bound the high stack; nothing is pushed on the low one, because the
        kernel image ends above the first megabyte.  The counter of the second loop has 32 bits. */
    method Setup(firstFreePage: int, memorySize: int) returns (mapped: seq<int>)
      requires Valid() && State() == Stacks([], [])
      requires Sizes(firstFreePage, memorySize)
      requires FirstFree(firstFreePage, memorySize) >= LOW_LIMIT
      requires hi.Length * 4 == StackPages(memorySize) * 0x1000
      modifies this, hi, lo
      ensures Valid() && State() == Stacks(FramesBetween(FirstFree(firstFreePage, memorySize), memorySize), [])
      ensures mapped == StackFrames(firstFreePage, memorySize)
      ensures BehindTheStack(firstFreePage, mapped, memorySize, State().hi) && State().lo == []
    {
      SetupFits(firstFreePage, memorySize);
      StackKeepsItsFrames(firstFreePage, memorySize);
      var i;
      mapped, i := MapStack(firstFreePage, memorySize);
      ghost var all := FramesBetween(i, memorySize);
      assert |all| <= hi.Length;
      while i < memorySize
        invariant Valid() && loTop == 0 && i >= LOW_LIMIT && hiTop <= |all|
        invariant hi[..hiTop] == all[..hiTop] && FramesBetween(i, memorySize) == all[hiTop..]
        decreases memorySize - i
      {
        RestOfFrames(all, hiTop, i, memorySize);
        ghost var n := hiTop;
        PageFree(i);
        assert hiTop == |State().hi| == n + 1;
        NoWrap(i);
        i := (i + 0x1000) % 0x1_0000_0000;
      }
    }
  }
}
