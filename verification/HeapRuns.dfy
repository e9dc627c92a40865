/** Whole runs of the kernel heap: the live and the free blocks tile it exactly. */
module HeapRuns {
  import opened FrameStacks
  import opened FreeList
  import opened Lists
  import opened HeapModel

  /** Regions handed out and not yet freed, by address: sizes in units.  A page from kalloc_page has
      size PAGE and no header of its own. */
  type Owned = map<int, int>

  function Region(owned: Owned, a: int): Block
    requires a in owned
  {
    Block(a, owned[a])
  }

  /** The heap between its start and its top is divided, without overlap, into free blocks and owned
      regions. */
  ghost predicate Tiled(h: Heap, owned: Owned) {
    && (forall a :: a in owned ==> Freeable(h.free, Region(owned, a), Top(h)))
    && (forall a, b :: a in owned && b in owned && a != b ==> Apart(Region(owned, a), Region(owned, b)))
    && (forall u: int :: HEAP_START <= u < Top(h) ==> InFree(h.free, u) || IsOwned(owned, u))
  }

  ghost predicate IsOwned(owned: Owned, u: int) {
    exists a :: a in owned && Covers(Region(owned, a), u)
  }

  // ----- Sizes add up -----

  function FreeUnits(free: seq<Block>): int {
    if free == [] then 0 else FreeUnits(free[..|free| - 1]) + free[|free| - 1].size
  }

  lemma {:induction false} FreeUnitsConcat(a: seq<Block>, b: seq<Block>)
    ensures FreeUnits(a + b) == FreeUnits(a) + FreeUnits(b)
  {
    if b == [] {
      assert a + b == a;
    } else {
      var b' := b[..|b| - 1];
      assert (a + b)[..|a + b| - 1] == a + b';
      FreeUnitsConcat(a, b');
    }
  }

  lemma FreeUnitsSplice(free: seq<Block>, from: nat, mid: seq<Block>, to: nat)
    requires from <= to <= |free|
    ensures FreeUnits(Splice(free, from, mid, to)) == FreeUnits(free) - FreeUnits(free[from..to]) + FreeUnits(mid)
  {
    FreeUnitsConcat(free[..from] + mid, free[to..]);
    FreeUnitsConcat(free[..from], mid);
    FreeUnitsConcat(free[..from], free[from..]);
    FreeUnitsConcat(free[from..to], free[to..]);
    assert free == free[..from] + free[from..] && free[from..] == free[from..to] + free[to..];
  }

  function Optional(present: bool, b: Block): seq<Block> { if present then [b] else [] }

  lemma FreeUnitsOptional(present: bool, b: Block)
    ensures FreeUnits(Optional(present, b)) == if present then b.size else 0
  {
  }

  lemma FreeUnitsTwo(p: bool, a: Block, q: bool, b: Block)
    ensures FreeUnits(Optional(p, a) + Optional(q, b)) == (if p then a.size else 0) + (if q then b.size else 0)
  {
    FreeUnitsConcat(Optional(p, a), Optional(q, b));
    FreeUnitsOptional(p, a);
    FreeUnitsOptional(q, b);
  }

  /** The blocks that the freed one absorbs. */
  function Absorbed(free: seq<Block>, b: Block): seq<Block>
    requires |free| > 0
  {
    var i := Gap(free, b.addr);
    Optional(Left(free, b), free[i]) + Optional(Right(free, b), if Right(free, b) then free[i + 1] else b)
  }

  lemma AbsorbedStretch(free: seq<Block>, b: Block)
    requires |free| > 0
    ensures free[From(free, b)..To(free, b)] == Absorbed(free, b)
  {
    var i := Gap(free, b.addr);
    assert free[i..i + 1] == [free[i]];
    if Right(free, b) {
      assert free[i + 1..i + 2] == [free[i + 1]];
      assert free[i..i + 2] == [free[i]] + [free[i + 1]];
    }
  }

  lemma AbsorbedUnits(free: seq<Block>, b: Block)
    requires |free| > 0
    ensures FreeUnits(Absorbed(free, b)) + b.size == FreeUnits([Merged(free, b)]) == Merged(free, b).size
  {
    var i := Gap(free, b.addr);
    FreeUnitsTwo(Left(free, b), free[i], Right(free, b), if Right(free, b) then free[i + 1] else b);
    FreeUnitsOptional(true, Merged(free, b));
  }

  lemma FreeUnitsCoalesce(free: seq<Block>, b: Block)
    requires |free| > 0
    ensures FreeUnits(Coalesce(free, b)) == FreeUnits(free) + b.size
  {
    FreeUnitsSplice(free, From(free, b), [Merged(free, b)], To(free, b));
    AbsorbedStretch(free, b);
    AbsorbedUnits(free, b);
  }

  lemma FreeUnitsCarve(free: seq<Block>, i: nat, n: int)
    requires i < |free|
    ensures FreeUnits(Carve(free, i, n)) == FreeUnits(free) - n
  {
    var rest := Block(free[i].addr, free[i].size - n);
    CarveIsSplice(free, i, n);
    FreeUnitsReplace(free, i, Optional(free[i].size != n, rest));
    FreeUnitsOptional(free[i].size != n, rest);
  }

  lemma FreeUnitsPage(h: Heap, i: nat)
    requires HeapOk(h) && i < |h.free| && HoldsPage(h.free[i]) && PageSafe(h, i)
    ensures i >= 1 && FreeUnits(CarvePage(h.free, i)) == FreeUnits(h.free) - PAGE
  {
    PageRestFits(h, i);
    SafeCarvingIsSplice(h, i);
    FreeUnitsReplace(h.free, i, PageRest(h.free[i]));
    PageRestUnits(h.free[i]);
  }

  lemma FreeUnitsReplace(free: seq<Block>, i: nat, mid: seq<Block>)
    requires i < |free|
    ensures FreeUnits(Splice(free, i, mid, i + 1)) == FreeUnits(free) - free[i].size + FreeUnits(mid)
  {
    FreeUnitsSplice(free, i, mid, i + 1);
    assert free[i..i + 1] == Optional(true, free[i]);
    FreeUnitsOptional(true, free[i]);
  }

  /** What is left of a block of which a page is taken. */
  lemma PageRestUnits(b: Block)
    requires b.addr >= 0 && HoldsPage(b)
    ensures FreeUnits(PageRest(b)) == b.size - PAGE
  {
    assert PageRest(b) == Optional(Overhead(b) > 0, Block(b.addr, Overhead(b))) + Optional(Avail(b) > PAGE, Tail(b));
    FreeUnitsTwo(Overhead(b) > 0, Block(b.addr, Overhead(b)), Avail(b) > PAGE, Tail(b));
    AlignUpProperty(b.addr);
  }

  ghost function OwnedUnits(owned: Owned): int
    decreases |owned|
  {
    if !(exists a :: a in owned) then 0 else
    var a :| a in owned;
    assert owned == (owned - {a})[a := owned[a]];
    owned[a] + OwnedUnits(owned - {a})
  }

  lemma {:induction false} OwnedUnitsRemove(owned: Owned, a: int)
    requires a in owned
    ensures OwnedUnits(owned) == owned[a] + OwnedUnits(owned - {a})
    decreases |owned|
  {
    var b :| b in owned && OwnedUnits(owned) == owned[b] + OwnedUnits(owned - {b});
    if a != b {
      OwnedUnitsRemove(owned - {b}, a);
      OwnedUnitsRemove(owned - {a}, b);
      assert owned - {b} - {a} == owned - {a} - {b};
    }
  }

  lemma OwnedUnitsAdd(owned: Owned, a: int, n: int)
    requires a !in owned
    ensures OwnedUnits(owned[a := n]) == OwnedUnits(owned) + n
  {
    OwnedUnitsRemove(owned[a := n], a);
    assert owned[a := n] - {a} == owned;
  }

  // ----- Invariant of the running heap -----

  ghost predicate Inv(h: Heap, owned: Owned) {
    HeapOk(h) && Tiled(h, owned) && FreeUnits(h.free) + OwnedUnits(owned) == Pages(h.pages)
  }

  lemma TakeKeepsInv(h: Heap, owned: Owned, i: nat, n: int)
    requires Inv(h, owned) && i < |h.free| && 1 <= n <= h.free[i].size
    ensures var b := Carved(h.free, i, n);
      b.addr !in owned && Inv(Take(h, i, n), owned[b.addr := n])
  {
    CarveKeepsOrder(h.free, i, n, Top(h));
    FreeUnitsCarve(h.free, i, n);
    TakeKeepsTiles(h, owned, i, n);
    OwnedUnitsAdd(owned, Carved(h.free, i, n).addr, n);
  }

  lemma TakeKeepsTiles(h: Heap, owned: Owned, i: nat, n: int)
    requires HeapOk(h) && Tiled(h, owned) && i < |h.free| && 1 <= n <= h.free[i].size
    ensures var b := Carved(h.free, i, n);
      b.addr !in owned && Tiled(Take(h, i, n), owned[b.addr := n])
  {
    var b := Carved(h.free, i, n);
    var h1 := Take(h, i, n);
    forall a | a in owned ensures Apart(Region(owned, a), b) && Freeable(h1.free, Region(owned, a), Top(h)) {
      StillClear(h, i, n, Region(owned, a));
    }
    assert SpaceWithout(h.free, h1.free, b) by {
      forall u: int ensures InFree(h.free, u) <==> InFree(h1.free, u) || Covers(b, u) {
        CarveCovers(h.free, i, n, Top(h), u);
      }
    }
    CarveKeepsOrder(h.free, i, n, Top(h));
    TilesHandedOut(h, h1, owned, b);
  }

  lemma NotOwned(h: Heap, owned: Owned, b: Block)
    requires Tiled(h, owned) && b.size >= 1 && forall a :: a in owned ==> Apart(Region(owned, a), b)
    ensures b.addr !in owned
  {
  }

  /** A stretch b of the free space that is taken off the list becomes an owned region. */
  lemma TilesHandedOut(h: Heap, h1: Heap, owned: Owned, b: Block)
    requires Tiled(h, owned) && h1.pages == h.pages && b.size >= 1 && Freeable(h1.free, b, Top(h))
    requires SpaceWithout(h.free, h1.free, b)
    requires forall a :: a in owned ==> Apart(Region(owned, a), b) && Freeable(h1.free, Region(owned, a), Top(h))
    ensures b.addr !in owned && Tiled(h1, owned[b.addr := b.size])
  {
    NotOwned(h, owned, b);
    var owned1 := owned[b.addr := b.size];
    forall u: int | HEAP_START <= u < Top(h) ensures InFree(h1.free, u) || IsOwned(owned1, u) {
      OwnedKept(owned, b.addr, b.size, u);
      assert InFree(h.free, u) || IsOwned(owned, u);
    }
    forall a | a in owned1 ensures Freeable(h1.free, Region(owned1, a), Top(h)) {
      assert Region(owned1, a) == if a == b.addr then b else Region(owned, a);
    }
    forall a, c | a in owned1 && c in owned1 && a != c ensures Apart(Region(owned1, a), Region(owned1, c)) {
      if a in owned && c in owned { assert Apart(Region(owned, a), Region(owned, c)); }
    }
  }

  lemma StillClear(h: Heap, i: nat, n: int, r: Block)
    requires HeapOk(h) && i < |h.free| && 1 <= n <= h.free[i].size && Freeable(h.free, r, Top(h))
    ensures Apart(r, Carved(h.free, i, n)) && Freeable(Carve(h.free, i, n), r, Top(h))
  {
  }

  lemma OwnedKept(owned: Owned, a: int, n: int, u: int)
    requires a !in owned
    ensures IsOwned(owned[a := n], u) <==> IsOwned(owned, u) || Covers(Block(a, n), u)
  {
    var owned1 := owned[a := n];
    if IsOwned(owned, u) {
      var b :| b in owned && Covers(Region(owned, b), u);
      assert Covers(Region(owned1, b), u);
    }
    if Covers(Block(a, n), u) {
      assert Covers(Region(owned1, a), u);
    }
    if IsOwned(owned1, u) {
      var b :| b in owned1 && Covers(Region(owned1, b), u);
      assert b != a ==> Covers(Region(owned, b), u);
    }
  }

  lemma FreeKeepsTiles(h: Heap, owned: Owned, a: int)
    requires HeapOk(h) && Tiled(h, owned) && a in owned
    ensures Tiled(FreeBlock(h, Region(owned, a)), owned - {a})
  {
    var b := Region(owned, a);
    var h1, owned1 := FreeBlock(h, b), owned - {a};
    forall c | c in owned1 ensures Freeable(h1.free, Region(owned1, c), Top(h)) {
      ClearOfMerged(h, b, Region(owned, c));
    }
    forall u: int | HEAP_START <= u < Top(h) ensures InFree(h1.free, u) || IsOwned(owned1, u) {
      CoalesceCovers(h.free, b, Top(h), u);
      if IsOwned(owned, u) && !Covers(b, u) {
        var c :| c in owned && Covers(Region(owned, c), u);
        assert c in owned1 && Covers(Region(owned1, c), u);
      }
    }
    assert forall c, d :: c in owned1 && d in owned1 && c != d ==> Apart(Region(owned, c), Region(owned, d));
  }

  /** kfree of an owned region. */
  lemma FreeKeepsInv(h: Heap, owned: Owned, a: int)
    requires Inv(h, owned) && a in owned
    ensures Inv(FreeBlock(h, Region(owned, a)), owned - {a})
  {
    FreeBlockOk(h, Region(owned, a));
    FreeUnitsCoalesce(h.free, Region(owned, a));
    OwnedUnitsRemove(owned, a);
    FreeKeepsTiles(h, owned, a);
  }

  /** A region clear of the list and of the freed block stays clear of the merged list. */
  lemma ClearOfMerged(h: Heap, b: Block, r: Block)
    requires HeapOk(h) && Freeable(h.free, b, Top(h)) && Freeable(h.free, r, Top(h)) && Apart(b, r)
    ensures Freeable(Coalesce(h.free, b), r, Top(h))
  {
    var merged := Coalesce(h.free, b);
    CoalesceKeepsOrder(h.free, b, Top(h));
    forall j | 0 <= j < |merged| ensures Apart(merged[j], r) {
      if !Apart(merged[j], r) {
        var u := if merged[j].addr > r.addr then merged[j].addr else r.addr;
        assert j > 0 ==> merged[j].size >= 1;
        assert merged[0] == Block(BASE, 0);
        assert Covers(merged[j], u) && Covers(r, u);
        CoalesceCovers(h.free, b, Top(h), u);
        NotShared(h.free, r, u, Top(h));
      }
    }
  }

  lemma NotShared(free: seq<Block>, r: Block, u: int, top: int)
    requires Freeable(free, r, top) && Covers(r, u)
    ensures !InFree(free, u)
  {
  }

  /** One more page at the top, handed out whole. */
  lemma ExtendKeepsInv(h: Heap, owned: Owned)
    requires Inv(h, owned) && h.pages < TABLE_PAGES
    ensures Top(h) !in owned && Inv(h.(pages := h.pages + 1), owned[Top(h) := PAGE])
  {
    var h1, owned1 := h.(pages := h.pages + 1), owned[Top(h) := PAGE];
    assert h.free[0] == Block(BASE, 0);
    assert forall a :: a in owned ==> Freeable(h.free, Region(owned, a), Top(h));
    OwnedUnitsAdd(owned, Top(h), PAGE);
    forall a | a in owned1 ensures Freeable(h1.free, Region(owned1, a), Top(h1)) {
      if a != Top(h) { assert Freeable(h.free, Region(owned, a), Top(h)); }
    }
    forall u: int | HEAP_START <= u < Top(h1) ensures InFree(h1.free, u) || IsOwned(owned1, u) {
      OwnedKept(owned, Top(h), PAGE, u);
    }
  }

  lemma GrowKeepsInv(h: Heap, owned: Owned)
    requires Inv(h, owned) && h.pages < TABLE_PAGES
    ensures Inv(Grow(h), owned)
  {
    ExtendKeepsInv(h, owned);
    var owned1 := owned[Top(h) := PAGE];
    FreeKeepsInv(h.(pages := h.pages + 1), owned1, Top(h));
    assert owned1 - {Top(h)} == owned;
  }

  /** What kalloc leaves behind: one more owned region of the requested size, or nothing new and no
      frame left, or nothing new and a full table. */
  ghost predicate Allocated(r: Result, owned: Owned, n: int) {
    match r
    case Got(h, _, a) => a !in owned && Inv(h, owned[a := n])
    case OutOfMemory(h, s) => Inv(h, owned) && FrameCount(s) == 0
    case PastTable(h, _) => Inv(h, owned) && h.pages == TABLE_PAGES
  }

  lemma {:induction false} ScanKeepsInv(h: Heap, s: Stacks, i: nat, n: int, owned: Owned)
    requires Inv(h, owned) && i < |h.free| && n >= 1 && 0 !in Stacked(s)
    ensures Allocated(Scan(h, s, i, n), owned, n)
    decreases FrameCount(s), Steps(h, i)
  {
    if h.free[i].size >= n {
      TakeKeepsInv(h, owned, i, n);
    } else if i != h.rover {
      ScanKeepsInv(h, s, Succ(|h.free|, i), n, owned);
    } else if Allocate(s).1 == 0 || h.pages >= TABLE_PAGES {
      ZeroIffEmpty(s);
    } else {
      GrowForScan(h, s, n);
      GrowKeepsInv(h, owned);
      ScanKeepsInv(Grow(h), Allocate(s).0, Succ(|Grow(h).free|, i), n, owned);
    }
  }

  lemma StillClearOfPage(h: Heap, i: nat, r: Block)
    requires HeapOk(h) && i < |h.free| && HoldsPage(h.free[i]) && PageSafe(h, i) && Freeable(h.free, r, Top(h))
    ensures i >= 1 && Apart(r, CarvedPage(h.free[i])) && Freeable(CarvePage(h.free, i), r, Top(h))
  {
  }

  function TakePage(h: Heap, i: nat): Heap
    requires 1 <= i < |h.free|
  {
    h.(free := CarvePage(h.free, i), rover := NewRover(h, i))
  }

  lemma PageKeepsInv(h: Heap, owned: Owned, i: nat)
    requires Inv(h, owned) && i < |h.free| && HoldsPage(h.free[i]) && PageSafe(h, i)
    ensures i >= 1 && CarvedPage(h.free[i]).addr !in owned
    ensures Inv(TakePage(h, i), owned[CarvedPage(h.free[i]).addr := PAGE])
  {
    var p := CarvedPage(h.free[i]);
    SafeCarving(h, i);
    FreeUnitsPage(h, i);
    forall a | a in owned
      ensures Apart(Region(owned, a), p) && Freeable(CarvePage(h.free, i), Region(owned, a), Top(h))
    {
      StillClearOfPage(h, i, Region(owned, a));
    }
    TilesHandedOut(h, TakePage(h, i), owned, p);
    OwnedUnitsAdd(owned, p.addr, PAGE);
  }

  // ----- Runs -----

  datatype Action =
    | Alloc(size: int)
    | AllocPage
    | FreeAt(addr: int)
    | Brk

  /** `initialised` says whether kernel_heap_free has been set; `heap` is what its first use makes of
      it before that. */
  datatype State = State(heap: Heap, frames: Stacks, owned: Owned, initialised: bool)

  /** The new state, or what the code runs into: kernel_heap_free is NULL, the heap has to grow past
      its page table, or a page is cut out around the wrong block. */
  datatype Outcome =
    | Next(state: State)
    | NullList
    | NoTable
    | BrokenList

  /** What callers must respect: sizes are 32-bit numbers, and only owned regions are freed. */
  ghost predicate Permitted(st: State, a: Action) {
    match a
    case Alloc(size) => 0 <= size < 0x1_0000_0000
    case FreeAt(addr) => addr in st.owned
    case _ => true
  }

  const BOOT_HEAP := Heap([Block(BASE, 0)], 0, 0)

  ghost predicate Good(st: State) {
    && Inv(st.heap, st.owned) && 0 !in Stacked(st.frames)
    && (!st.initialised ==> st.heap == BOOT_HEAP && st.owned == map[])
  }

  /** kalloc of n units. */
  function AllocUnits(h: Heap, s: Stacks, owned: Owned, n: int): Outcome
    requires HeapOk(h)
  {
    match Kalloc(h, s, n)
    case Got(h1, s1, addr) => Next(State(h1, s1, owned[addr := n], true))
    case OutOfMemory(h1, s1) => Next(State(h1, s1, owned, true))
    case PastTable(_, _) => NoTable
  }

  /** kalloc_page, from block i. */
  function CutPage(h: Heap, s: Stacks, owned: Owned, i: int): Outcome
    requires 1 <= i < |h.free|
  {
    if PageSafe(h, i) then Next(State(TakePage(h, i), s, owned[CarvedPage(h.free[i]).addr := PAGE], true))
    else BrokenList
  }

  /** kalloc_page, with a new page at the top. */
  function AddPage(h: Heap, s: Stacks, owned: Owned): Outcome {
    var (frames, page) := Allocate(s);
    if page == 0 then Next(State(h, frames, owned, true))
    else if h.pages >= TABLE_PAGES then NoTable
    else Next(State(h.(pages := h.pages + 1), frames, owned[Top(h) := PAGE], true))
  }

  /** kalloc_page: from the first block that holds a page, or else at the top. */
  function AllocAligned(h: Heap, s: Stacks, owned: Owned): Outcome
    requires |h.free| > 0 && 0 <= h.rover < |h.free|
  {
    if PageBlock(h) >= 1 then CutPage(h, s, owned, PageBlock(h)) else AddPage(h, s, owned)
  }

  ghost function Perform(st: State, a: Action): Outcome
    requires HeapOk(st.heap) && Permitted(st, a)
  {
    match a
    case Alloc(size) => AllocUnits(st.heap, st.frames, st.owned, Units(size))
    case AllocPage => AllocAligned(st.heap, st.frames, st.owned)
    case FreeAt(addr) =>
      if !st.initialised then NullList
      else Next(st.(heap := FreeBlock(st.heap, Region(st.owned, addr)), owned := st.owned - {addr}))
    case Brk =>
      var (frames, page) := Allocate(st.frames);
      if page == 0 then Next(st.(frames := frames))
      else if st.heap.pages >= TABLE_PAGES then NoTable
      else if !st.initialised then NullList
      else Next(st.(heap := Grow(st.heap), frames := frames))
  }

  // ----- When calls fail -----

  /** kbrk dereferences NULL if and only if the list is uninitialised and a frame can be had; it leaves
      the heap's table if and only if the table is full and a frame can be had. */
  lemma BrkOutcome(st: State)
    requires HeapOk(st.heap) && 0 !in Stacked(st.frames) && (!st.initialised ==> st.heap == BOOT_HEAP)
    ensures Perform(st, Brk).NullList? <==> !st.initialised && FrameCount(st.frames) > 0
    ensures Perform(st, Brk).NoTable? <==> st.heap.pages == TABLE_PAGES && FrameCount(st.frames) > 0
    ensures !Perform(st, Brk).BrokenList?
  {
    ZeroIffEmpty(st.frames);
  }

  /** kalloc leaves the heap's table if and only if the request needs more pages than the table has
      room for, and there are frames for more than that room; it meets no other failure. */
  lemma AllocOutcome(st: State, size: int)
    requires HeapOk(st.heap) && 0 !in Stacked(st.frames) && Permitted(st, Alloc(size))
    ensures Perform(st, Alloc(size)).Next? || Perform(st, Alloc(size)).NoTable?
    ensures var room := TABLE_PAGES - st.heap.pages;
      Perform(st, Alloc(size)).NoTable? <==> Growths(st.heap, Units(size)) > room && FrameCount(st.frames) > room
  {
    UnitsSuffice(size);
    KallocOutcome(st.heap, st.frames, Units(size));
  }

  /** kalloc_page breaks the list if and only if the first block with a page is an unsafe one; it
      leaves the heap's table if and only if no block holds a page, the table is full and a frame can
      be had. */
  lemma AllocPageOutcome(st: State)
    requires HeapOk(st.heap) && 0 !in Stacked(st.frames)
    ensures Perform(st, AllocPage).BrokenList? <==> PageBlock(st.heap) >= 0 && !PageSafe(st.heap, PageBlock(st.heap))
    ensures Perform(st, AllocPage).NoTable? <==>
      st.heap.pages == TABLE_PAGES && FrameCount(st.frames) > 0 &&
      forall j :: 0 <= j < |st.heap.free| ==> !HoldsPage(st.heap.free[j])
    ensures !Perform(st, AllocPage).NullList?
  {
    ZeroIffEmpty(st.frames);
    PageBlockComplete(st.heap);
    BaseHoldsNoPage(st.heap);
  }

  /** Freeing an owned region never fails. */
  lemma FreeOutcome(st: State, addr: int)
    requires Good(st) && Permitted(st, FreeAt(addr))
    ensures Perform(st, FreeAt(addr)).Next?
  {
  }

  lemma BaseHoldsNoPage(h: Heap)
    requires HeapOk(h)
    ensures !HoldsPage(h.free[0]) && PageBlock(h) != 0
  {
    AlignUpProperty(BASE);
  }

  // ----- Steps and runs keep the tiling -----

  lemma PageStepKeepsGood(st: State)
    requires Good(st) && Perform(st, AllocPage).Next?
    ensures Good(Perform(st, AllocPage).state)
  {
    BaseHoldsNoPage(st.heap);
    if PageBlock(st.heap) >= 0 {
      PageKeepsInv(st.heap, st.owned, PageBlock(st.heap));
    } else {
      ZeroIffEmpty(st.frames);
      if Allocate(st.frames).1 != 0 { ExtendKeepsInv(st.heap, st.owned); }
    }
  }

  /** What kalloc_page does, in the list's terms.  If some block holds a page, it hands out the first
      aligned page of the first such block behind the rover, and uses no frame; otherwise the next page at
      the top, if there is a frame.  The rover stays where it is in both cases. */
  lemma PageStepEffect(st: State)
    requires Good(st) && Perform(st, AllocPage).Next?
    ensures var h, st1, k := st.heap, Perform(st, AllocPage).state, PageBlock(st.heap);
      HeapOk(st1.heap) && st1.heap.free[st1.heap.rover].addr == h.free[h.rover].addr && st1.initialised &&
      if exists j :: 0 <= j < |h.free| && HoldsPage(h.free[j]) then
        k >= 0 && FirstWithPage(h, k) && st1.frames == st.frames && st1.heap.pages == h.pages &&
        (var a := AlignUp(h.free[k].addr);
         Aligned(a) && h.free[k].addr <= a < h.free[k].addr + PAGE &&
         st1.owned == st.owned[a := PAGE] && SpaceWithout(h.free, st1.heap.free, Block(a, PAGE)))
      else if FrameCount(st.frames) == 0 then
        st1.heap == h && st1.owned == st.owned && FrameCount(st1.frames) == 0
      else
        st1.heap.free == h.free && st1.heap.pages == h.pages + 1 && st1.owned == st.owned[Top(h) := PAGE] &&
        FrameCount(st1.frames) == FrameCount(st.frames) - 1
  {
    BaseHoldsNoPage(st.heap);
    PageBlockComplete(st.heap);
    if PageBlock(st.heap) >= 0 {
      SafeCarving(st.heap, PageBlock(st.heap));
      AlignUpProperty(st.heap.free[PageBlock(st.heap)].addr);
    } else {
      ZeroIffEmpty(st.frames);
    }
  }

  lemma {:induction false} FramesStayNonZero(h: Heap, s: Stacks, i: nat, n: int)
    requires HeapOk(h) && i < |h.free| && 0 !in Stacked(s)
    ensures 0 !in Stacked(Scan(h, s, i, n).frames)
    decreases FrameCount(s), Steps(h, i)
  {
    ZeroIffEmpty(s);
    if h.free[i].size < n {
      if i != h.rover {
        FramesStayNonZero(h, s, Succ(|h.free|, i), n);
      } else if Allocate(s).1 != 0 && h.pages < TABLE_PAGES {
        GrowShape(h);
        FramesStayNonZero(Grow(h), Allocate(s).0, Succ(|Grow(h).free|, i), n);
      }
    }
  }

  lemma {:induction false} StepKeepsGood(st: State, a: Action)
    requires Good(st) && Permitted(st, a) && Perform(st, a).Next?
    ensures Good(Perform(st, a).state)
  {
    match a
    case Alloc(size) =>
      UnitsSuffice(size);
      var i := Succ(|st.heap.free|, st.heap.rover);
      ScanKeepsInv(st.heap, st.frames, i, Units(size), st.owned);
      FramesStayNonZero(st.heap, st.frames, i, Units(size));
    case AllocPage => PageStepKeepsGood(st);
    case FreeAt(addr) => FreeKeepsInv(st.heap, st.owned, addr);
    case Brk => BrkStepKeepsGood(st);
  }

  lemma BrkStepKeepsGood(st: State)
    requires Good(st) && Perform(st, Brk).Next?
    ensures Good(Perform(st, Brk).state)
  {
    ZeroIffEmpty(st.frames);
    if Allocate(st.frames).1 != 0 { GrowKeepsInv(st.heap, st.owned); }
  }

  /** A run: every call is permitted and none of them fails. */
  ghost predicate CanRun(st: State, acts: seq<Action>)
    requires Good(st)
    decreases acts
  {
    acts == [] ||
    (Permitted(st, acts[0]) && Perform(st, acts[0]).Next? &&
     (StepKeepsGood(st, acts[0]); CanRun(Perform(st, acts[0]).state, acts[1..])))
  }

  ghost function Run(st: State, acts: seq<Action>): State
    requires Good(st) && CanRun(st, acts)
    decreases acts
  {
    if acts == [] then st else
    StepKeepsGood(st, acts[0]);
    Run(Perform(st, acts[0]).state, acts[1..])
  }

  /** Tiling over whole runs: from boot or any other good state, after any calls, the free blocks are
      ordered and fully coalesced, free and owned regions are disjoint and cover the heap from its
      start to its top, their sizes add up to it, and the heap is inside its page table. */
  lemma {:induction false} RunsTileTheHeap(st: State, acts: seq<Action>)
    requires Good(st) && CanRun(st, acts)
    ensures var r := Run(st, acts);
      Good(r) && HeapOk(r.heap) && Tiled(r.heap, r.owned) &&
      FreeUnits(r.heap.free) + OwnedUnits(r.owned) == Pages(r.heap.pages) &&
      r.heap.pages <= TABLE_PAGES
    decreases acts
  {
    if acts == [] {
    } else {
      StepKeepsGood(st, acts[0]);
      RunsTileTheHeap(Perform(st, acts[0]).state, acts[1..]);
    }
  }

  /** kernel_heap_free is NULL, nothing is allocated and nothing is mapped. */
  function Boot(frames: Stacks): State { State(BOOT_HEAP, frames, map[], false) }

  /** Runs may start at boot, but not with kbrk: with a frame to be had it dereferences NULL. */
  lemma BootIsGood(frames: Stacks)
    requires 0 !in Stacked(frames)
    ensures Good(Boot(frames))
    ensures Perform(Boot(frames), Brk).NullList? <==> FrameCount(frames) > 0
  {
    BrkOutcome(Boot(frames));
  }
}
