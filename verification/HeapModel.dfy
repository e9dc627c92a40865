/** The kernel heap on values: free list, roving pointer, growth by pages, allocation of blocks and
    of page-aligned pages. */
module HeapModel {
  import opened FrameStacks
  import opened FreeList
  import opened Lists

  /** `rover` is the position of kernel_heap_free in the list, `pages` is kernel_heap_alloc. */
  datatype Heap = Heap(free: seq<Block>, rover: int, pages: int)

  function Top(h: Heap): int { HEAP_START + Pages(h.pages) }

  /** The page table that is set up for the heap maps this many pages. */
  const TABLE_PAGES := 1024

  ghost predicate HeapOk(h: Heap) {
    0 <= h.pages <= TABLE_PAGES && WellFormed(h.free, Top(h)) && 0 <= h.rover < |h.free|
  }

  function FrameCount(s: Stacks): nat { |s.hi| + |s.lo| }

  // ----- Freeing and growing -----

  /** kfree: the rover moves to the gap. */
  function FreeBlock(h: Heap, b: Block): Heap
    requires |h.free| > 0
  {
    h.(free := Coalesce(h.free, b), rover := Gap(h.free, b.addr))
  }

  lemma FreeBlockOk(h: Heap, b: Block)
    requires HeapOk(h) && Freeable(h.free, b, Top(h))
    ensures HeapOk(FreeBlock(h, b))
    ensures FreeBlock(h, b).free[FreeBlock(h, b).rover].addr == h.free[Gap(h.free, b.addr)].addr
  {
    CoalesceKeepsOrder(h.free, b, Top(h));
    SpliceAt(h.free, From(h.free, b), [Merged(h.free, b)], To(h.free, b), Gap(h.free, b.addr));
  }

  function FreshPage(h: Heap): Block { Block(Top(h), PAGE) }

  /** kbrk, once it has a frame: one more page at the top, freed like a block. */
  function Grow(h: Heap): Heap
    requires |h.free| > 0
  {
    FreeBlock(h.(pages := h.pages + 1), FreshPage(h))
  }

  function Last(h: Heap): Block
    requires |h.free| > 0
  {
    h.free[|h.free| - 1]
  }

  /** The highest free block reaches the top of the heap. */
  predicate TopIsFree(h: Heap)
    requires |h.free| > 0
  {
    End(Last(h)) == Top(h)
  }

  /** Growing extends the last block if it reaches the top and appends a block otherwise. */
  lemma GrowShape(h: Heap)
    requires HeapOk(h) && h.pages < TABLE_PAGES
    ensures var g := Grow(h); var n := |h.free|;
      HeapOk(g) && Freeable(h.free, FreshPage(h), Top(g)) && g.rover == n - 1 && TopIsFree(g) &&
      g.pages == h.pages + 1 &&
      g.free == (if TopIsFree(h)
        then h.free[..n - 1] + [Block(Last(h).addr, Last(h).size + PAGE)]
        else h.free + [FreshPage(h)])
  {
    FreshPageIsClear(h);
    FreeBlockOk(h.(pages := h.pages + 1), FreshPage(h));
    assert h.free[..|h.free|] == h.free && h.free[|h.free|..] == [];
  }

  /** The new page lies behind every block of the list. */
  lemma FreshPageIsClear(h: Heap)
    requires HeapOk(h)
    ensures Freeable(h.free, FreshPage(h), Top(h) + PAGE) && WellFormed(h.free, Top(h) + PAGE)
    ensures Gap(h.free, Top(h)) == |h.free| - 1
  {
    assert forall i :: 0 <= i < |h.free| ==> End(h.free[i]) <= Top(h) && h.free[i].addr < Top(h);
  }

  /** After growing, the last block is the new space, and no other block is new. */
  lemma GrowLast(h: Heap)
    requires HeapOk(h) && h.pages < TABLE_PAGES
    ensures HeapOk(Grow(h)) && TopIsFree(Grow(h)) && Grow(h).pages == h.pages + 1
    ensures Last(Grow(h)).size == TopUnits(h) + PAGE && h.rover < |Grow(h).free|
    ensures forall j :: 0 <= j < |Grow(h).free| - 1 ==> j < |h.free| && Grow(h).free[j] == h.free[j]
  {
    GrowShape(h);
  }

  // ----- kalloc -----

  /** Header units for a request of `size` bytes, in the kernel's 32-bit arithmetic. */
  function Units(size: int): int {
    (size + 7) % 0x1_0000_0000 / 8 + 1
  }

  /** The block handed out holds the requested bytes behind its header if and only if adding 7 to
      the request does not wrap around 32 bits. */
  lemma UnitsSuffice(size: int)
    requires 0 <= size < 0x1_0000_0000
    ensures Units(size) >= 1
    ensures (Units(size) - 1) * 8 >= size <==> size <= 0xFFFF_FFF8
  {
  }

  /** And no fewer units hold them. */
  lemma UnitsAreFewest(size: int, u: int)
    requires 0 <= size <= 0xFFFF_FFF8 && u >= 1
    ensures (u - 1) * 8 >= size <==> u >= Units(size)
  {
  }

  /** A block; NULL; or the heap would have to grow past the page table that is set up for it. */
  datatype Result =
    | Got(heap: Heap, frames: Stacks, addr: int)
    | OutOfMemory(heap: Heap, frames: Stacks)
    | PastTable(heap: Heap, frames: Stacks)

  /** Steps the scan still has to make before it reaches the rover. */
  function Steps(h: Heap, i: int): int {
    if i <= h.rover then h.rover - i else h.rover + |h.free| - i
  }

  /** Taking n units from block i; the rover moves to the block before. */
  function Take(h: Heap, i: nat, n: int): Heap
    requires i < |h.free|
  {
    h.(free := Carve(h.free, i, n), rover := i - 1)
  }

  /** The loop of kalloc at block i: first fit in cyclic order; at the rover the heap grows. */
  function Scan(h: Heap, s: Stacks, i: nat, n: int): Result
    requires HeapOk(h) && i < |h.free|
    decreases FrameCount(s), Steps(h, i)
  {
    if h.free[i].size >= n then
      Got(Take(h, i, n), s, Carved(h.free, i, n).addr)
    else if i != h.rover then
      Scan(h, s, Succ(|h.free|, i), n)
    else if Allocate(s).1 == 0 then
      OutOfMemory(h, Allocate(s).0)
    else if h.pages >= TABLE_PAGES then
      PastTable(h, Allocate(s).0)
    else
      GrowShape(h);
      Scan(Grow(h), Allocate(s).0, Succ(|Grow(h).free|, i), n)
  }

  function Kalloc(h: Heap, s: Stacks, n: int): Result
    requires HeapOk(h)
  {
    Scan(h, s, Succ(|h.free|, h.rover), n)
  }

  ghost predicate Fits(h: Heap, n: int) {
    exists i :: 0 <= i < |h.free| && h.free[i].size >= n
  }

  /** No block fits on the way from i to the rover: the scan gets there. */
  lemma {:induction false} ScanToRover(h: Heap, s: Stacks, i: nat, n: int)
    requires HeapOk(h) && i < |h.free|
    requires forall j :: 0 <= j < |h.free| && Steps(h, j) <= Steps(h, i) ==> h.free[j].size < n
    ensures Scan(h, s, i, n) == Scan(h, s, h.rover, n)
    decreases Steps(h, i)
  {
    if i != h.rover {
      assert Steps(h, Succ(|h.free|, i)) == Steps(h, i) - 1;
      ScanToRover(h, s, Succ(|h.free|, i), n);
    }
  }

  /** A fitting block on the way is taken without touching the frames. */
  lemma {:induction false} ScanFinds(h: Heap, s: Stacks, i: nat, n: int, j: nat)
    requires HeapOk(h) && i < |h.free| && j < |h.free| && h.free[j].size >= n && Steps(h, j) <= Steps(h, i)
    ensures Scan(h, s, i, n).Got? && Scan(h, s, i, n).frames == s
    decreases Steps(h, i)
  {
    if h.free[i].size < n {
      assert i != j;
      assert i != h.rover;
      assert Steps(h, Succ(|h.free|, i)) == Steps(h, i) - 1;
      ScanFinds(h, s, Succ(|h.free|, i), n, j);
    }
  }

  /** Block k is the first, in cyclic order behind the rover, of at least n units. */
  ghost predicate FirstFit(h: Heap, k: nat, n: int) {
    HeapOk(h) && k < |h.free| && h.free[k].size >= n &&
    forall j :: 0 <= j < |h.free| && Distance(|h.free|, h.rover, j) < Distance(|h.free|, h.rover, k) ==>
      h.free[j].size < n
  }

  /** A call that has taken the last n units of block k of the heap g and used frames up to s: the rover
      is at the block in front, and the list has lost those units only. */
  ghost predicate CutFrom(g: Heap, s: Stacks, k: nat, n: int, r: Result) {
    HeapOk(g) && 1 <= k < |g.free| && r.Got? && HeapOk(r.heap) &&
    r.addr == End(g.free[k]) - n && r.frames == s && r.heap.pages == g.pages &&
    r.heap.free[r.heap.rover].addr == g.free[k - 1].addr &&
    SpaceWithout(g.free, r.heap.free, Block(r.addr, n))
  }

  lemma TakeOk(h: Heap, i: nat, n: int)
    requires HeapOk(h) && i < |h.free| && 1 <= n <= h.free[i].size
    ensures i >= 1 && HeapOk(Take(h, i, n)) && Take(h, i, n).free[i - 1] == h.free[i - 1]
  {
  }

  lemma TakeCuts(g: Heap, s: Stacks, k: nat, n: int)
    requires HeapOk(g) && k < |g.free| && g.free[k].size >= n >= 1
    ensures CutFrom(g, s, k, n, Got(Take(g, k, n), s, Carved(g.free, k, n).addr))
  {
    CarveKeepsOrder(g.free, k, n, Top(g));
    forall u: int ensures InFree(g.free, u) <==> InFree(Carve(g.free, k, n), u) || Covers(Carved(g.free, k, n), u) {
      CarveCovers(g.free, k, n, Top(g), u);
    }
  }

  /** The scan from i on takes the first block that fits, if nothing before i does. */
  lemma {:induction false} ScanTakesFirst(h: Heap, s: Stacks, i: nat, n: int) returns (k: nat)
    requires HeapOk(h) && i < |h.free| && n >= 1 && Fits(h, n)
    requires forall j :: 0 <= j < |h.free| && Steps(h, j) > Steps(h, i) ==> h.free[j].size < n
    ensures FirstFit(h, k, n) && Scan(h, s, i, n) == Got(Take(h, k, n), s, Carved(h.free, k, n).addr)
    decreases Steps(h, i)
  {
    if h.free[i].size >= n {
      k := i;
    } else {
      assert i != h.rover;
      k := ScanTakesFirst(h, s, Succ(|h.free|, i), n);
    }
  }

  /** kalloc never grows the heap while a block fits, wherever the rover stands: it cuts the request off
      the end of the first block behind the rover that holds it, and leaves the rover in front of that
      block. */
  lemma FitsWithoutGrowing(h: Heap, s: Stacks, n: int)
    requires HeapOk(h) && Fits(h, n)
    ensures Kalloc(h, s, n).Got? && Kalloc(h, s, n).frames == s
    ensures n >= 1 ==> exists k: nat :: FirstFit(h, k, n) && CutFrom(h, s, k, n, Kalloc(h, s, n))
  {
    var j :| 0 <= j < |h.free| && h.free[j].size >= n;
    ScanFinds(h, s, Succ(|h.free|, h.rover), n, j);
    if n >= 1 {
      var k := ScanTakesFirst(h, s, Succ(|h.free|, h.rover), n);
      TakeCuts(h, s, k, n);
    }
  }

  /** Only free space that reaches the top of the heap can hold the request. */
  ghost predicate OnlyTopFits(h: Heap, n: int)
    requires HeapOk(h)
  {
    (forall j :: 0 <= j < |h.free| - 1 ==> h.free[j].size < n) && (Last(h).size >= n ==> TopIsFree(h))
  }

  lemma GrowForScan(h: Heap, s: Stacks, n: int)
    requires HeapOk(h) && h.free[h.rover].size < n && 0 !in Stacked(s) && Allocate(s).1 != 0 && h.pages < TABLE_PAGES
    ensures HeapOk(Grow(h)) && Grow(h).pages == h.pages + 1 && h.rover < |Grow(h).free|
    ensures 0 !in Stacked(Allocate(s).0) && FrameCount(Allocate(s).0) == FrameCount(s) - 1
    ensures OnlyTopFits(h, n) ==> OnlyTopFits(Grow(h), n)
  {
    GrowLast(h);
    ZeroIffEmpty(s);
  }

  /** Whatever growth it takes, kalloc ends by taking units from a block of a heap that has grown by one
      page for each frame used. */
  lemma {:induction false} ScanTakes(h: Heap, s: Stacks, i: nat, n: int) returns (g: Heap, k: nat)
    requires HeapOk(h) && i < |h.free| && n >= 1 && 0 !in Stacked(s) && Scan(h, s, i, n).Got?
    ensures var r := Scan(h, s, i, n);
      HeapOk(g) && k < |g.free| && g.free[k].size >= n &&
      r == Got(Take(g, k, n), r.frames, Carved(g.free, k, n).addr) &&
      g.pages - h.pages == FrameCount(s) - FrameCount(r.frames)
    ensures OnlyTopFits(h, n) ==> k == |g.free| - 1 && TopIsFree(g)
    decreases FrameCount(s), Steps(h, i)
  {
    if h.free[i].size >= n {
      g, k := h, i;
    } else if i != h.rover {
      g, k := ScanTakes(h, s, Succ(|h.free|, i), n);
    } else {
      GrowForScan(h, s, n);
      g, k := ScanTakes(Grow(h), Allocate(s).0, Succ(|Grow(h).free|, i), n);
    }
  }

  /** What kalloc has to grow the heap for lies at the very top of it, and the heap has grown by one page
      for each frame used. */
  lemma GrownServesFromTop(h: Heap, s: Stacks, n: int)
    requires HeapOk(h) && !Fits(h, n) && n >= 1 && 0 !in Stacked(s) && Kalloc(h, s, n).Got?
    ensures var r := Kalloc(h, s, n);
      r.addr + n == Top(r.heap) && r.heap.pages - h.pages == FrameCount(s) - FrameCount(r.frames)
  {
    var g, k := ScanTakes(h, s, Succ(|h.free|, h.rover), n);
  }

  /** After any successful call the rover stands in front of the units handed out: between the two there
      is at most what is left of their block. */
  lemma RoverInFront(h: Heap, s: Stacks, n: int)
    requires HeapOk(h) && n >= 1 && 0 !in Stacked(s) && Kalloc(h, s, n).Got?
    ensures var r := Kalloc(h, s, n);
      HeapOk(r.heap) && r.heap.free[r.heap.rover].addr < r.addr &&
      forall j :: 0 <= j < |r.heap.free| && r.heap.free[r.heap.rover].addr < r.heap.free[j].addr < r.addr ==>
        End(r.heap.free[j]) == r.addr
  {
    var g, k := ScanTakes(h, s, Succ(|h.free|, h.rover), n);
    TakeOk(g, k, n);
    TakeLeavesRover(g, k, n);
  }

  lemma TakeLeavesRover(g: Heap, k: nat, n: int)
    requires HeapOk(g) && 1 <= k < |g.free| && g.free[k].size >= n >= 1
    ensures var free, a := Carve(g.free, k, n), End(g.free[k]) - n;
      k - 1 < |free| && free[k - 1].addr < a &&
      forall j :: 0 <= j < |free| && free[k - 1].addr < free[j].addr < a ==> End(free[j]) == a
  {
    assert forall i :: 0 <= i < k ==> End(g.free[i]) < g.free[k].addr;
    assert forall i :: k < i < |g.free| ==> End(g.free[k]) < g.free[i].addr;
  }

  /** The next request goes on where the last one ended: if what is left of the block in front of the
      units handed out still holds it, it is cut off there. */
  lemma RestServesNext(h: Heap, s: Stacks, n: int, n2: int, j: nat)
    requires HeapOk(h) && n >= 1 && n2 >= 1 && 0 !in Stacked(s) && Kalloc(h, s, n).Got?
    requires var r := Kalloc(h, s, n); j < |r.heap.free| && End(r.heap.free[j]) == r.addr && r.heap.free[j].size >= n2
    ensures HeapOk(Kalloc(h, s, n).heap)
    ensures var r := Kalloc(h, s, n); var r2 := Kalloc(r.heap, r.frames, n2);
      r2.Got? && r2.addr == r.addr - n2
  {
    var g, k := ScanTakes(h, s, Succ(|h.free|, h.rover), n);
    RestIsNext(g, k, n, j);
    TakeOk(g, k, n);
    NextFit(Take(g, k, n), Kalloc(h, s, n).frames, k, n2);
  }

  /** The block right behind the rover is tried first. */
  lemma NextFit(h: Heap, s: Stacks, k: nat, n: int)
    requires HeapOk(h) && 1 <= k < |h.free| && h.rover == k - 1 && h.free[k].size >= n
    ensures Kalloc(h, s, n).Got? && Kalloc(h, s, n).addr == End(h.free[k]) - n
  {
  }

  lemma RestIsNext(g: Heap, k: nat, n: int, j: nat)
    requires HeapOk(g) && 1 <= k < |g.free| && g.free[k].size >= n >= 1
    requires var free := Carve(g.free, k, n);
      j < |free| && End(free[j]) == End(g.free[k]) - n && free[j].size >= 1
    ensures j == k && |Carve(g.free, k, n)| == |g.free|
  {
    assert forall i :: 0 <= i < k ==> End(g.free[i]) < g.free[k].addr;
    assert forall i :: k < i < |g.free| ==> End(g.free[k]) < g.free[i].addr;
  }

  /** The heap after k calls of kbrk. */
  ghost function GrownBy(h: Heap, k: nat): (g: Heap)
    requires HeapOk(h) && h.pages + k <= TABLE_PAGES
    ensures HeapOk(g) && g.pages == h.pages + k
    decreases k
  {
    if k == 0 then h else GrowLast(h); GrownBy(Grow(h), k - 1)
  }

  /** The failing result r leaves the heap grown k times, for as many frames, and one more if it came to
      the end of the page table. */
  ghost predicate FailedGrown(h: Heap, s: Stacks, k: nat, r: Result) {
    HeapOk(h) && !r.Got? && h.pages + k <= TABLE_PAGES && r.heap == GrownBy(h, k) &&
    FrameCount(s) - FrameCount(r.frames) == if r.PastTable? then k + 1 else k
  }

  lemma OneMoreGrowth(h: Heap, s: Stacks, n: int, k: nat, r: Result)
    requires HeapOk(h) && h.free[h.rover].size < n && 0 !in Stacked(s) && Allocate(s).1 != 0 && h.pages < TABLE_PAGES
    requires FailedGrown(Grow(h), Allocate(s).0, k, r)
    ensures FailedGrown(h, s, k + 1, r)
  {
    GrowForScan(h, s, n);
  }

  lemma NoGrowth(h: Heap, s: Stacks, n: int)
    requires HeapOk(h) && h.free[h.rover].size < n && 0 !in Stacked(s)
    requires Allocate(s).1 == 0 || h.pages >= TABLE_PAGES
    ensures FailedGrown(h, s, 0, Scan(h, s, h.rover, n))
  {
    ZeroIffEmpty(s);
  }

  /** A scan that fails gets to the rover. */
  lemma FailingScan(h: Heap, s: Stacks, i: nat, n: int)
    requires HeapOk(h) && i < |h.free| && !Scan(h, s, i, n).Got?
    ensures Scan(h, s, i, n) == Scan(h, s, h.rover, n) && h.free[h.rover].size < n
  {
    forall j | 0 <= j < |h.free| && Steps(h, j) <= Steps(h, i) ensures h.free[j].size < n {
      if h.free[j].size >= n { ScanFinds(h, s, i, n, j); }
    }
    ScanToRover(h, s, i, n);
  }

  /** Asking at the rover for a page and failing all the same: the scan is back at the new rover. */
  lemma FailsAgain(h: Heap, s: Stacks, n: int)
    requires HeapOk(h) && 0 !in Stacked(s) && h.free[h.rover].size < n && !Scan(h, s, h.rover, n).Got?
    requires Allocate(s).1 != 0 && h.pages < TABLE_PAGES
    ensures var g, s1 := Grow(h), Allocate(s).0;
      HeapOk(g) && 0 !in Stacked(s1) && FrameCount(s1) < FrameCount(s) && g.free[g.rover].size < n &&
      Scan(h, s, h.rover, n) == Scan(g, s1, g.rover, n)
  {
    GrowForScan(h, s, n);
    FailingScan(Grow(h), Allocate(s).0, Succ(|Grow(h).free|, h.rover), n);
  }

  lemma {:induction false} RoverFails(h: Heap, s: Stacks, n: int, r: Result) returns (k: nat)
    requires HeapOk(h) && 0 !in Stacked(s) && h.free[h.rover].size < n
    requires r == Scan(h, s, h.rover, n) && !r.Got?
    ensures FailedGrown(h, s, k, r)
    decreases FrameCount(s)
  {
    if Allocate(s).1 == 0 || h.pages >= TABLE_PAGES {
      k := 0;
      NoGrowth(h, s, n);
    } else {
      FailsAgain(h, s, n);
      var j := RoverFails(Grow(h), Allocate(s).0, n, r);
      OneMoreGrowth(h, s, n, j, r);
      k := j + 1;
    }
  }

  /** A call that fails leaves the heap as so many calls of kbrk do: as it was if there was no frame. */
  lemma FailureGrowsOnly(h: Heap, s: Stacks, n: int)
    requires HeapOk(h) && 0 !in Stacked(s) && !Kalloc(h, s, n).Got?
    ensures exists k: nat :: FailedGrown(h, s, k, Kalloc(h, s, n))
  {
    FailingScan(h, s, Succ(|h.free|, h.rover), n);
    var k := RoverFails(h, s, n, Kalloc(h, s, n));
  }

  // ----- When does kalloc fail although a block fits? -----

  /** Failure with a fitting block on the list. */
  ghost predicate FailsWithFit(r: Result, n: int) {
    r.OutOfMemory? && Fits(r.heap, n)
  }

  /** Growth will be seen by the scan before it asks for the next page. */
  predicate Safe(h: Heap)
    requires |h.free| > 0
  {
    h.rover == |h.free| - 1 || TopIsFree(h)
  }

  /** Free units that new pages would extend. */
  function TopUnits(h: Heap): int
    requires |h.free| > 0
  {
    if TopIsFree(h) then Last(h).size else 0
  }

  /** Pages that hold n units. */
  function PagesFor(n: int): int { (n + 511) / 512 }

  /** Pages by which the heap must grow before kalloc finds n units: as many as are missing at the
      top, or one page more than that if the scan misses the first one. */
  ghost function Growths(h: Heap, n: int): int
    requires |h.free| > 0
  {
    if Fits(h, n) then 0 else if !Safe(h) && n <= PAGE then 2 else PagesFor(n - TopUnits(h))
  }

  /** How a call ends that has to grow the heap k times. */
  predicate Ends(r: Result, k: int, frames: nat, room: int) {
    (r.Got? <==> k <= frames && k <= room) && (r.OutOfMemory? <==> frames < k && frames <= room)
  }

  /** From a safe heap, asking at the rover fails only if nothing fits. */
  lemma {:induction false} SafeAtRover(h: Heap, s: Stacks, n: int)
    requires HeapOk(h) && !Fits(h, n) && Safe(h) && n >= 1 && 0 !in Stacked(s)
    ensures !FailsWithFit(Scan(h, s, h.rover, n), n)
    ensures Ends(Scan(h, s, h.rover, n), Growths(h, n), FrameCount(s), TABLE_PAGES - h.pages)
    decreases FrameCount(s)
  {
    ZeroIffEmpty(s);
    assert TopUnits(h) < n;
    if FrameCount(s) > 0 && h.pages < TABLE_PAGES {
      SafeGrowth(h, s, n);
      var g, s1 := Grow(h), Allocate(s).0;
      if TopUnits(g) < n {
        SafeAtRover(g, s1, n);
      }
    }
  }

  /** One growth from a safe heap: the new space fits, or the scan is back at the rover and misses
      one page less. */
  lemma SafeGrowth(h: Heap, s: Stacks, n: int)
    requires HeapOk(h) && !Fits(h, n) && Safe(h) && n >= 1 && Allocate(s).1 != 0 && h.pages < TABLE_PAGES
    ensures var g := Grow(h); var s1 := Allocate(s).0;
      HeapOk(g) && Safe(g) && TopIsFree(g) && TopUnits(g) == TopUnits(h) + PAGE && g.pages == h.pages + 1 &&
      if TopUnits(g) >= n then Scan(h, s, h.rover, n).Got?
      else !Fits(g, n) && Scan(h, s, h.rover, n) == Scan(g, s1, g.rover, n)
  {
    GrowLast(h);
    var g, s1 := Grow(h), Allocate(s).0;
    var i, last := Succ(|g.free|, h.rover), |g.free| - 1;
    if g.free[last].size >= n {
      assert Steps(g, last) <= Steps(g, i);
      ScanFinds(g, s1, i, n, last);
    } else {
      assert forall j :: 0 <= j < |g.free| ==> g.free[j].size < n;
      ScanToRover(g, s1, i, n);
    }
  }

  /** From an unsafe heap the scan passes the old last block, now the rover, before the new page. */
  lemma {:induction false} UnsafeGrowth(h: Heap, s: Stacks, n: int)
    requires HeapOk(h) && !Fits(h, n) && !Safe(h) && n >= 1 && Allocate(s).1 != 0 && h.pages < TABLE_PAGES
    ensures var g := Grow(h);
      HeapOk(g) && g.free == h.free + [FreshPage(h)] && g.rover == |h.free| - 1 && TopIsFree(g) &&
      Scan(h, s, h.rover, n) == Scan(g, Allocate(s).0, g.rover, n)
  {
    GrowShape(h);
    var g := Grow(h);
    assert g.free == h.free + [FreshPage(h)];
    var i := Succ(|g.free|, h.rover);
    forall j | 0 <= j < |g.free| && Steps(g, j) <= Steps(g, i) ensures g.free[j].size < n {
      assert j < |h.free| && g.free[j] == h.free[j];
    }
    ScanToRover(g, Allocate(s).0, i, n);
  }

  /** At the rover with the page unseen: the next growth extends the page, and the scan takes it. */
  lemma {:induction false} SecondGrowth(g: Heap, s: Stacks, n: int)
    requires HeapOk(g) && |g.free| >= 2 && g.rover == |g.free| - 2 && TopIsFree(g) && g.pages < TABLE_PAGES
    requires g.free[g.rover].size < n <= Last(g).size && Allocate(s).1 != 0
    ensures Scan(g, s, g.rover, n).Got?
  {
    GrowShape(g);
    assert Grow(g).free[|g.free| - 1].size >= n;
  }

  /** Once the page is there: a request larger than a page is found sooner or later; a smaller one is
      found if the heap can grow again, and otherwise the scan gives up in front of the page. */
  lemma UnsafeAfterGrowth(h: Heap, g: Heap, s: Stacks, n: int)
    requires HeapOk(h) && !Fits(h, n) && n >= 1 && 0 !in Stacked(s)
    requires HeapOk(g) && g.free == h.free + [FreshPage(h)] && g.rover == |h.free| - 1 && TopIsFree(g)
    ensures FailsWithFit(Scan(g, s, g.rover, n), n) <==> FrameCount(s) == 0 && n <= PAGE
    ensures Ends(Scan(g, s, g.rover, n), if n <= PAGE then 1 else PagesFor(n - PAGE),
                 FrameCount(s), TABLE_PAGES - g.pages)
  {
    ZeroIffEmpty(s);
    assert g.free[|h.free|] == FreshPage(h) && g.free[g.rover] == h.free[g.rover];
    if n > PAGE {
      assert forall j :: 0 <= j < |h.free| ==> g.free[j] == h.free[j];
      SafeAtRover(g, s, n);
    } else if FrameCount(s) > 0 && g.pages < TABLE_PAGES {
      SecondGrowth(g, s, n);
    }
  }

  lemma UnsafeAtRover(h: Heap, s: Stacks, n: int)
    requires HeapOk(h) && !Fits(h, n) && !Safe(h) && n >= 1 && 0 !in Stacked(s)
    ensures FailsWithFit(Scan(h, s, h.rover, n), n) <==> FrameCount(s) == 1 && n <= PAGE && h.pages < TABLE_PAGES
    ensures Ends(Scan(h, s, h.rover, n), Growths(h, n), FrameCount(s), TABLE_PAGES - h.pages)
  {
    ZeroIffEmpty(s);
    if FrameCount(s) > 0 && h.pages < TABLE_PAGES {
      UnsafeGrowth(h, s, n);
      UnsafeAfterGrowth(h, Grow(h), Allocate(s).0, n);
    }
  }

  /** How kalloc ends, on every heap, with any frames and for every request: with a block if and only
      if the frames and the heap's table allow the growth that it takes, and with NULL if and only if
      the frames run out before the table does. */
  lemma KallocOutcome(h: Heap, s: Stacks, n: int)
    requires HeapOk(h) && n >= 1 && 0 !in Stacked(s)
    ensures Ends(Kalloc(h, s, n), Growths(h, n), FrameCount(s), TABLE_PAGES - h.pages)
  {
    if Fits(h, n) {
      FitsWithoutGrowing(h, s, n);
    } else {
      ScanToRover(h, s, Succ(|h.free|, h.rover), n);
      if Safe(h) {
        SafeAtRover(h, s, n);
      } else {
        UnsafeAtRover(h, s, n);
      }
    }
  }

  /** kalloc returns NULL although a free block fits if and only if: nothing fitted to begin with,
      exactly one frame was left and the heap's table had room, the request fits in a page, the rover
      was not at the last block, and the last block did not reach the top of the heap. */
  lemma WhenKallocMissesABlock(h: Heap, s: Stacks, n: int)
    requires HeapOk(h) && n >= 1 && 0 !in Stacked(s)
    ensures FailsWithFit(Kalloc(h, s, n), n) <==>
      !Fits(h, n) && FrameCount(s) == 1 && n <= PAGE && !Safe(h) && h.pages < TABLE_PAGES
  {
    if Fits(h, n) {
      FitsWithoutGrowing(h, s, n);
    } else {
      ScanToRover(h, s, Succ(|h.free|, h.rover), n);
      if Safe(h) {
        SafeAtRover(h, s, n);
      } else {
        UnsafeAtRover(h, s, n);
      }
    }
  }

  // ----- kalloc_page -----

  /** The next page boundary at or above a. */
  function AlignUp(a: int): int {
    (a + 511) / 512 * 512
  }

  /** Units lost in front of the first page boundary, and units from there on. */
  function Overhead(b: Block): int { AlignUp(b.addr) - b.addr }
  function Avail(b: Block): int { if b.size > Overhead(b) then b.size - Overhead(b) else 0 }

  /** An aligned page lies inside b. */
  predicate HoldsPage(b: Block) { AlignUp(b.addr) + PAGE <= End(b) }

  /** First block, in cyclic order from i to the rover, that holds an aligned page; -1 if none. */
  function FindPage(h: Heap, i: int): (r: int)
    requires |h.free| > 0 && 0 <= h.rover < |h.free| && 0 <= i < |h.free|
    ensures -1 <= r < |h.free| && (r >= 0 ==> HoldsPage(h.free[r]))
    decreases Steps(h, i)
  {
    if HoldsPage(h.free[i]) then i
    else if i == h.rover then -1
    else FindPage(h, Succ(|h.free|, i))
  }

  /** The block kalloc_page takes its page from; -1 if none holds one. */
  function PageBlock(h: Heap): int
    requires |h.free| > 0 && 0 <= h.rover < |h.free|
  {
    FindPage(h, Succ(|h.free|, h.rover))
  }

  /** The page that kalloc_page would take is one that it takes rightly. */
  predicate PageIsSafe(h: Heap)
    requires |h.free| > 0 && 0 <= h.rover < |h.free|
  {
    PageBlock(h) >= 0 ==> PageSafe(h, PageBlock(h))
  }

  lemma {:induction false} FindPageMisses(h: Heap, i: nat)
    requires HeapOk(h) && i < |h.free|
    ensures FindPage(h, i) < 0 <==>
      forall j :: 0 <= j < |h.free| && Steps(h, j) <= Steps(h, i) ==> !HoldsPage(h.free[j])
    decreases Steps(h, i)
  {
    if !HoldsPage(h.free[i]) && i != h.rover {
      assert Steps(h, Succ(|h.free|, i)) == Steps(h, i) - 1;
      FindPageMisses(h, Succ(|h.free|, i));
    }
  }

  lemma {:induction false} FindPageFirst(h: Heap, i: nat)
    requires HeapOk(h) && i < |h.free| && FindPage(h, i) >= 0
    ensures Steps(h, FindPage(h, i)) <= Steps(h, i)
    ensures forall j :: 0 <= j < |h.free| && Steps(h, FindPage(h, i)) < Steps(h, j) <= Steps(h, i) ==>
      !HoldsPage(h.free[j])
    decreases Steps(h, i)
  {
    if !HoldsPage(h.free[i]) {
      assert i != h.rover;
      assert Steps(h, Succ(|h.free|, i)) == Steps(h, i) - 1;
      FindPageFirst(h, Succ(|h.free|, i));
    }
  }

  /** Block k is the first, in cyclic order behind the rover, that holds an aligned page. */
  ghost predicate FirstWithPage(h: Heap, k: nat) {
    HeapOk(h) && k < |h.free| && HoldsPage(h.free[k]) &&
    forall j :: 0 <= j < |h.free| && Distance(|h.free|, h.rover, j) < Distance(|h.free|, h.rover, k) ==>
      !HoldsPage(h.free[j])
  }

  /** The search for a page is complete, and finds the first block with a page in cyclic order behind the
      rover. */
  lemma PageBlockComplete(h: Heap)
    requires HeapOk(h)
    ensures PageBlock(h) < 0 <==> forall j :: 0 <= j < |h.free| ==> !HoldsPage(h.free[j])
    ensures PageBlock(h) >= 0 ==> FirstWithPage(h, PageBlock(h))
  {
    FindPageMisses(h, Succ(|h.free|, h.rover));
    if PageBlock(h) >= 0 { PageBlockFirst(h); }
  }

  lemma PageBlockFirst(h: Heap)
    requires HeapOk(h) && PageBlock(h) >= 0
    ensures FirstWithPage(h, PageBlock(h))
  {
    var i, k := Succ(|h.free|, h.rover), PageBlock(h);
    FindPageFirst(h, i);
    forall j | 0 <= j < |h.free| && Distance(|h.free|, h.rover, j) < Distance(|h.free|, h.rover, k)
      ensures !HoldsPage(h.free[j])
    {
      assert Steps(h, k) < Steps(h, j) <= Steps(h, i);
    }
  }

  /** Behind the heap's table, pg_map lacks a table at the slot and asks kalloc_page for one, which
      without a free page takes a frame and asks pg_map for the same page again.  The frames left in
      the end, and the page that becomes the table. */
  function NestedTable(h: Heap, s: Stacks): (Stacks, int)
    requires HeapOk(h)
    decreases FrameCount(s)
  {
    if PageBlock(h) >= 0 then (s, CarvedPage(h.free[PageBlock(h)]).addr)
    else if Allocate(s).1 == 0 then (Allocate(s).0, 0)
    else NestedTable(h, Allocate(s).0)
  }

  /** The recursion comes to a page if and only if a free block holds one.  Otherwise it uses up all
      frames and ends with NULL, through which pg_setup_pagetable then writes. */
  lemma {:induction false} NestedTableFails(h: Heap, s: Stacks)
    requires HeapOk(h) && 0 !in Stacked(s)
    ensures NestedTable(h, s).1 == 0 <==> forall j :: 0 <= j < |h.free| ==> !HoldsPage(h.free[j])
    ensures NestedTable(h, s).1 == 0 ==> FrameCount(NestedTable(h, s).0) == 0
    decreases FrameCount(s)
  {
    PageBlockComplete(h);
    ZeroIffEmpty(s);
    if PageBlock(h) >= 0 {
      PageInside(h.free[PageBlock(h)]);
      assert h.free[PageBlock(h)].addr >= BASE;
    } else if Allocate(s).1 != 0 {
      NestedTableFails(h, Allocate(s).0);
    }
  }

  /** The units behind the page. */
  function Tail(b: Block): Block { Block(AlignUp(b.addr) + PAGE, Avail(b) - PAGE) }

  /** What the code does to the list.  In two of the four cases it relinks around the wrong block: if
      the page ends the block and does not start it, the block after it is unlinked. */
  function CarvePage(free: seq<Block>, i: nat): seq<Block>
    requires 1 <= i < |free|
  {
    var b := free[i];
    var head := Block(b.addr, Overhead(b));
    if Overhead(b) > 0 then
      if Avail(b) > PAGE then free[..i] + [head, Tail(b)] + free[i + 1..]
      else if i + 1 < |free| then free[..i] + [head] + free[i + 2..]
      else free[1..i] + [head]
    else
      if Avail(b) > PAGE then free[..i] + [Tail(b)] + free[i + 1..]
      else free[..i] + free[i + 1..]
  }

  /** The page handed out. */
  function CarvedPage(b: Block): Block { Block(AlignUp(b.addr), PAGE) }

  /** When the carving is right: the rover's block is not the one unlinked, and a page that does not
      start its block does not end it either. */
  predicate PageSafe(h: Heap, i: nat)
    requires i < |h.free|
  {
    if Overhead(h.free[i]) == 0 then h.rover != i else Avail(h.free[i]) != PAGE
  }

  /** What correct carving means: the new list r is well-formed, kernel_heap_free is still on it, and
      it covers the old free space without the page. */
  ghost predicate CarvedRight(h: Heap, i: nat, r: seq<Block>)
    requires 1 <= i < |h.free| && 0 <= h.rover < |h.free|
  {
    WellFormed(r, Top(h)) && Listed(r, h.free[h.rover].addr) && SpaceWithout(h.free, r, CarvedPage(h.free[i]))
  }

  /** The list r covers what `free` covers, except for b. */
  ghost predicate SpaceWithout(free: seq<Block>, r: seq<Block>, b: Block) {
    forall u: int :: InFree(free, u) <==> InFree(r, u) || Covers(b, u)
  }

  lemma AlignUpProperty(a: int)
    requires a >= 0
    ensures a <= AlignUp(a) < a + PAGE && Aligned(AlignUp(a))
  {
  }

  /** The blocks that replace block i. */
  function PageRest(b: Block): seq<Block> {
    (if Overhead(b) > 0 then [Block(b.addr, Overhead(b))] else []) + (if Avail(b) > PAGE then [Tail(b)] else [])
  }

  lemma PageRestFits(h: Heap, i: nat)
    requires HeapOk(h) && i < |h.free| && HoldsPage(h.free[i])
    ensures i >= 1 && FitsBetween(h.free, i, PageRest(h.free[i]), i + 1, Top(h))
  {
  }

  lemma PageRestCovers(b: Block, u: int)
    requires b.addr >= 0 && HoldsPage(b)
    ensures Covers(b, u) <==> InFree(PageRest(b), u) || Covers(CarvedPage(b), u)
  {
    AlignUpProperty(b.addr);
    var l := if Overhead(b) > 0 then [Block(b.addr, Overhead(b))] else [];
    var r := if Avail(b) > PAGE then [Tail(b)] else [];
    CoversConcat(l, r, u);
    CoversOne(Block(b.addr, Overhead(b)), u);
    CoversOne(Tail(b), u);
  }

  /** Where the rover's block is after a safe carving. */
  function NewRover(h: Heap, i: nat): int
    requires i < |h.free|
  {
    if h.rover <= i then h.rover else h.rover + |PageRest(h.free[i])| - 1
  }

  lemma PageIsClear(h: Heap, i: nat)
    requires HeapOk(h) && i < |h.free| && HoldsPage(h.free[i])
    ensures Freeable(Splice(h.free, i, PageRest(h.free[i]), i + 1), CarvedPage(h.free[i]), Top(h))
  {
  }

  /** The replaced block's units are those that stay free and the page. */
  lemma PageCovers(h: Heap, i: nat, u: int)
    requires HeapOk(h) && 1 <= i < |h.free| && HoldsPage(h.free[i])
    ensures InFree(h.free, u) <==>
      InFree(Splice(h.free, i, PageRest(h.free[i]), i + 1), u) || Covers(CarvedPage(h.free[i]), u)
  {
    SpliceCovers(h.free, i, PageRest(h.free[i]), i + 1, u);
    assert h.free[i..i + 1] == [h.free[i]];
    CoversOne(h.free[i], u);
    PageRestCovers(h.free[i], u);
  }

  lemma RoverSurvives(h: Heap, i: nat)
    requires HeapOk(h) && i < |h.free| && HoldsPage(h.free[i]) && PageSafe(h, i)
    ensures var r := Splice(h.free, i, PageRest(h.free[i]), i + 1);
      0 <= NewRover(h, i) < |r| && r[NewRover(h, i)].addr == h.free[h.rover].addr
  {
  }

  /** In the safe cases the code's relinking replaces the block by what is left of it. */
  lemma SafeCarvingIsSplice(h: Heap, i: nat)
    requires HeapOk(h) && 1 <= i < |h.free| && HoldsPage(h.free[i]) && PageSafe(h, i)
    ensures CarvePage(h.free, i) == Splice(h.free, i, PageRest(h.free[i]), i + 1)
  {
    var b := h.free[i];
    if Overhead(b) > 0 {
      assert Avail(b) > PAGE;
      assert PageRest(b) == [Block(b.addr, Overhead(b)), Tail(b)];
    } else if Avail(b) > PAGE {
      assert PageRest(b) == [Tail(b)];
    } else {
      assert PageRest(b) == [];
    }
  }

  /** The page is aligned and inside one free block. */
  lemma PageInside(b: Block)
    requires b.addr >= 0 && HoldsPage(b)
    ensures Aligned(CarvedPage(b).addr) && b.addr <= CarvedPage(b).addr && End(CarvedPage(b)) <= End(b)
  {
  }

  /** Replacing the block by what is left of it carves correctly. */
  lemma CarvingBySplice(h: Heap, i: nat, r: seq<Block>)
    requires HeapOk(h) && 1 <= i < |h.free| && HoldsPage(h.free[i]) && PageSafe(h, i)
    requires r == Splice(h.free, i, PageRest(h.free[i]), i + 1)
    ensures CarvedRight(h, i, r) && 0 <= NewRover(h, i) < |r| && r[NewRover(h, i)].addr == h.free[h.rover].addr
  {
    CarvingKeepsOrder(h, i);
    PageSpace(h, i);
    RoverSurvives(h, i);
    AtIsListed(r, NewRover(h, i));
  }

  lemma CarvingKeepsOrder(h: Heap, i: nat)
    requires HeapOk(h) && 1 <= i < |h.free| && HoldsPage(h.free[i])
    ensures WellFormed(Splice(h.free, i, PageRest(h.free[i]), i + 1), Top(h))
  {
    PageRestFits(h, i);
    SpliceKeepsOrder(h.free, i, PageRest(h.free[i]), i + 1, Top(h));
  }

  lemma AtIsListed(free: seq<Block>, j: int)
    requires 0 <= j < |free|
    ensures Listed(free, free[j].addr)
  {
  }

  lemma PageSpace(h: Heap, i: nat)
    requires HeapOk(h) && 1 <= i < |h.free| && HoldsPage(h.free[i])
    ensures SpaceWithout(h.free, Splice(h.free, i, PageRest(h.free[i]), i + 1), CarvedPage(h.free[i]))
  {
    forall u: int
      ensures InFree(h.free, u) <==>
        InFree(Splice(h.free, i, PageRest(h.free[i]), i + 1), u) || Covers(CarvedPage(h.free[i]), u)
    {
      PageCovers(h, i, u);
    }
  }

  /** The safe cases carve correctly, and the page is clear of what stays free. */
  lemma SafeCarving(h: Heap, i: nat)
    requires HeapOk(h) && i < |h.free| && HoldsPage(h.free[i]) && PageSafe(h, i)
    ensures i >= 1 && CarvedRight(h, i, CarvePage(h.free, i))
    ensures HeapOk(h.(free := CarvePage(h.free, i), rover := NewRover(h, i)))
    ensures CarvePage(h.free, i)[NewRover(h, i)].addr == h.free[h.rover].addr
    ensures Freeable(CarvePage(h.free, i), CarvedPage(h.free[i]), Top(h))
  {
    PageRestFits(h, i);
    SafeCarvingIsSplice(h, i);
    CarvingBySplice(h, i, CarvePage(h.free, i));
    PageIsClear(h, i);
  }

  /** kalloc_page keeps the list exactly right if and only if the case is safe. */
  lemma CarvingRightIffSafe(h: Heap, i: nat)
    requires HeapOk(h) && i < |h.free| && HoldsPage(h.free[i])
    ensures i >= 1 && (CarvedRight(h, i, CarvePage(h.free, i)) <==> PageSafe(h, i))
  {
    PageRestFits(h, i);
    if PageSafe(h, i) {
      SafeCarving(h, i);
    } else {
      UnsafeCarving(h, i);
    }
  }

  lemma UnsafeCarving(h: Heap, i: nat)
    requires HeapOk(h) && 1 <= i < |h.free| && HoldsPage(h.free[i]) && !PageSafe(h, i)
    ensures !CarvedRight(h, i, CarvePage(h.free, i))
  {
    var b, r := h.free[i], CarvePage(h.free, i);
    AlignUpProperty(b.addr);
    if Overhead(b) == 0 {
      // The rover's own block is gone.
      var rest := PageRest(b);
      assert r == Splice(h.free, i, rest, i + 1);
      forall j | 0 <= j < |r| ensures r[j].addr != b.addr {
        SpliceAt(h.free, i, rest, i + 1, j);
      }
    } else if i + 1 < |h.free| {
      // The next block is lost.
      var u := h.free[i + 1].addr;
      assert Covers(h.free[i + 1], u) && InFree(h.free, u);
      assert !Covers(CarvedPage(b), u);
      forall j | 0 <= j < |r| ensures !Covers(r[j], u) {
        LostBlockAt(h, i, j);
      }
    } else {
      assert r[0] != Block(BASE, 0);
    }
  }

  /** What is lost otherwise: a page at the end of its block takes the next block off the list, or the base
      block if there is no next one; a page at the start of the rover's block takes the rover off. */
  lemma WhatIsLost(h: Heap, i: nat, a: int)
    requires HeapOk(h) && i < |h.free| && HoldsPage(h.free[i]) && !PageSafe(h, i)
    ensures i >= 1
    ensures Overhead(h.free[i]) > 0 ==>
      (Listed(CarvePage(h.free, i), a) <==>
        Listed(h.free, a) && a != if i + 1 < |h.free| then h.free[i + 1].addr else BASE)
    ensures Overhead(h.free[i]) == 0 ==> !Listed(CarvePage(h.free, i), h.free[h.rover].addr)
  {
    PageRestFits(h, i);
    AlignUpProperty(h.free[i].addr);
    if Overhead(h.free[i]) > 0 {
      LosesOneBlock(h, i, a);
    } else {
      forall j | 0 <= j < |CarvePage(h.free, i)| ensures CarvePage(h.free, i)[j].addr != h.free[i].addr {
      }
    }
  }

  lemma LosesOneBlock(h: Heap, i: nat, a: int)
    requires HeapOk(h) && 1 <= i < |h.free| && HoldsPage(h.free[i])
    requires Overhead(h.free[i]) > 0 && Avail(h.free[i]) == PAGE
    ensures Listed(CarvePage(h.free, i), a) <==>
      Listed(h.free, a) && a != if i + 1 < |h.free| then h.free[i + 1].addr else BASE
  {
    var lost := if i + 1 < |h.free| then i + 1 else 0;
    LostAt(h, i, lost);
    ListedWithout(h.free, CarvePage(h.free, i), lost, a);
  }

  lemma LostAt(h: Heap, i: nat, lost: nat)
    requires HeapOk(h) && 1 <= i < |h.free| && HoldsPage(h.free[i])
    requires Overhead(h.free[i]) > 0 && Avail(h.free[i]) == PAGE && lost == if i + 1 < |h.free| then i + 1 else 0
    ensures var r := CarvePage(h.free, i);
      |r| == |h.free| - 1 && forall j :: 0 <= j < |r| ==> r[j].addr == h.free[if j < lost then j else j + 1].addr
  {
  }

  lemma ListedWithout(free: seq<Block>, r: seq<Block>, lost: nat, a: int)
    requires lost < |free| && |r| == |free| - 1
    requires forall j :: 0 <= j < |r| ==> r[j].addr == free[if j < lost then j else j + 1].addr
    requires forall i, j :: 0 <= i < j < |free| ==> free[i].addr < free[j].addr
    ensures Listed(r, a) <==> Listed(free, a) && a != free[lost].addr
  {
    if Listed(free, a) {
      var k :| 0 <= k < |free| && free[k].addr == a;
      if k != lost { assert r[if k < lost then k else k - 1].addr == a; }
    }
  }

  lemma LostBlockAt(h: Heap, i: nat, j: nat)
    requires HeapOk(h) && 1 <= i && i + 1 < |h.free| && Avail(h.free[i]) == PAGE && Overhead(h.free[i]) > 0
    requires j < |CarvePage(h.free, i)|
    ensures !Covers(CarvePage(h.free, i)[j], h.free[i + 1].addr)
  {
  }
}
