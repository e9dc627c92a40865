/** The kernel heap in memory: block headers linked in a ring, the roving pointer kernel_heap_free,
    and the loops of kalloc, kfree, kbrk, kalloc_page and kfree_page. */
module KernelHeap {
  import opened FrameStacks
  import opened FreeList
  import opened Lists
  import opened HeapModel
  import R = HeapRuns

  /** heap_block_hdr_t: pointers and sizes in header units. */
  datatype Header = Header(next: int, size: int)

  type Memory = map<int, Header>

  function NextAddr(free: seq<Block>, i: int): int
    requires 0 <= i < |free|
  {
    if i + 1 < |free| then free[i + 1].addr else free[0].addr
  }

  ghost predicate HeaderAt(mem: Memory, r: seq<Block>, j: int)
    requires 0 <= j < |r|
  {
    r[j].addr in mem && mem[r[j].addr] == Header(NextAddr(r, j), r[j].size)
  }

  /** The headers in memory form the circular list `free`. */
  ghost predicate Ring(mem: Memory, free: seq<Block>) {
    forall i :: 0 <= i < |free| ==> HeaderAt(mem, free, i)
  }

  lemma SameAddress(free: seq<Block>, top: int, i: int, j: int)
    requires WellFormed(free, top) && 0 <= i < |free| && 0 <= j < |free| && free[i].addr == free[j].addr
    ensures i == j
  {
  }

  /** Positions that the updates do not touch keep their headers. */
  lemma RingElsewhere(mem: Memory, mem1: Memory, free: seq<Block>, r: seq<Block>, i: int, j: int)
    requires Ring(mem, free) && 0 <= i < |free| && 0 <= j < |r|
    requires r[j] == free[i] && NextAddr(r, j) == NextAddr(free, i)
    requires free[i].addr in mem ==> free[i].addr in mem1 && mem1[free[i].addr] == mem[free[i].addr]
    ensures HeaderAt(mem1, r, j)
  {
    assert HeaderAt(mem, free, i);
  }

  // ----- Replacing a stretch of the ring -----

  /** Blocks outside from..to, and not in front of it, keep their headers. */
  ghost predicate Kept(mem: Memory, mem1: Memory, free: seq<Block>, from: int, to: int) {
    forall k {:trigger free[k]} :: 0 <= k < |free| && (k < from - 1 || k >= to) ==>
      (free[k].addr in mem ==> free[k].addr in mem1 && mem1[free[k].addr] == mem[free[k].addr])
  }

  /** The block in front leads to the replacement, or past it if there is none. */
  ghost predicate Led(mem1: Memory, free: seq<Block>, from: int, mid: seq<Block>, to: int)
    requires 1 <= from <= to <= |free|
  {
    var front := free[from - 1];
    front.addr in mem1 &&
    mem1[front.addr] == Header(if mid == [] then NextAddr(free, to - 1) else mid[0].addr, front.size)
  }

  /** The successor of mid[x] when `mid` stands in the place of the blocks before `to`. */
  function Behind(free: seq<Block>, to: int, mid: seq<Block>, x: int): int
    requires 1 <= to <= |free| && 0 <= x < |mid|
  {
    if x + 1 < |mid| then mid[x + 1].addr else NextAddr(free, to - 1)
  }

  /** Each block of the replacement leads to the next, and the last one past the stretch. */
  ghost predicate Placed(mem1: Memory, free: seq<Block>, mid: seq<Block>, to: int)
    requires 1 <= to <= |free|
  {
    forall x {:trigger Behind(free, to, mid, x)} :: 0 <= x < |mid| ==>
      mid[x].addr in mem1 && mem1[mid[x].addr] == Header(Behind(free, to, mid, x), mid[x].size)
  }

  lemma RelinkedRing(mem: Memory, mem1: Memory, free: seq<Block>, from: int, mid: seq<Block>, to: int)
    requires Ring(mem, free) && 1 <= from <= to <= |free|
    requires Kept(mem, mem1, free, from, to) && Led(mem1, free, from, mid, to) && Placed(mem1, free, mid, to)
    ensures Ring(mem1, Splice(free, from, mid, to))
  {
    var r := Splice(free, from, mid, to);
    forall j | 0 <= j < |r| ensures HeaderAt(mem1, r, j) {
      SpliceAt(free, from, mid, to, j);
      SpliceAt(free, from, mid, to, 0);
      if j + 1 < |r| { SpliceAt(free, from, mid, to, j + 1); }
      if j < from - 1 {
        RingElsewhere(mem, mem1, free, r, j, j);
      } else if j >= from + |mid| {
        RingElsewhere(mem, mem1, free, r, j - from - |mid| + to, j);
      } else if j == from - 1 {
        assert NextAddr(r, j) == if mid == [] then NextAddr(free, to - 1) else mid[0].addr;
      } else {
        assert r[j] == mid[j - from];
        assert NextAddr(r, j) == Behind(free, to, mid, j - from);
      }
    }
  }

  // ----- kfree -----

  /** First store of kfree: the freed header, merged with the block behind it if they touch. */
  function LinkHeader(mem: Memory, free: seq<Block>, b: Block): Header
    requires |free| > 0
  {
    var i := Gap(free, b.addr);
    if Right(free, b)
    then Header(NextAddr(free, i + 1), b.size + free[i + 1].size)
    else Header(NextAddr(free, i), b.size)
  }

  /** Second store: the gap block, merged with the freed one if they touch. */
  function Linked(mem: Memory, free: seq<Block>, b: Block): Memory
    requires |free| > 0
  {
    var i := Gap(free, b.addr);
    var h := LinkHeader(mem, free, b);
    mem[b.addr := h][free[i].addr :=
      if Left(free, b) then Header(h.next, free[i].size + h.size) else Header(b.addr, free[i].size)]
  }

  /** A listed block other than the gap does not share an address with the two headers written. */
  lemma OtherBlock(free: seq<Block>, b: Block, top: int, k: int)
    requires WellFormed(free, top) && Freeable(free, b, top) && 0 <= k < |free|
    ensures free[k].addr != b.addr
    ensures k != Gap(free, b.addr) ==> free[k].addr != free[Gap(free, b.addr)].addr
  {
  }

  /** The two stores of kfree make the list's new ring. */
  lemma LinkedRing(mem: Memory, free: seq<Block>, b: Block, top: int)
    requires Ring(mem, free) && WellFormed(free, top) && Freeable(free, b, top)
    ensures Ring(Linked(mem, free, b), Coalesce(free, b))
  {
    MergedFits(free, b, top);
    LinkedElsewhere(mem, free, b, top);
    LinkedMerged(mem, free, b, top);
    RelinkedRing(mem, Linked(mem, free, b), free, From(free, b), [Merged(free, b)], To(free, b));
  }

  /** Blocks other than the gap and a merged right neighbour keep their headers. */
  lemma LinkedElsewhere(mem: Memory, free: seq<Block>, b: Block, top: int)
    requires Ring(mem, free) && WellFormed(free, top) && Freeable(free, b, top)
    ensures Kept(mem, Linked(mem, free, b), free, From(free, b), To(free, b))
  {
  }

  lemma LinkedMerged(mem: Memory, free: seq<Block>, b: Block, top: int)
    requires Ring(mem, free) && WellFormed(free, top) && Freeable(free, b, top) && From(free, b) >= 1
    ensures Led(Linked(mem, free, b), free, From(free, b), [Merged(free, b)], To(free, b))
    ensures var m := Merged(free, b);
      m.addr in Linked(mem, free, b) && Linked(mem, free, b)[m.addr] == Header(NextAddr(free, To(free, b) - 1), m.size)
  {
    var i := Gap(free, b.addr);
    OtherBlock(free, b, top, i);
    if Left(free, b) {
      OtherBlock(free, b, top, i - 1);
      assert HeaderAt(mem, free, i - 1);
    }
  }

  // ----- Taking units from a block -----

  /** No other listed header lies at an address inside block i. */
  lemma OtherAddress(free: seq<Block>, top: int, i: int, k: int, a: int)
    requires WellFormed(free, top) && 0 <= i < |free| && 0 <= k < |free| && k != i
    requires free[i].addr <= a < End(free[i])
    ensures free[k].addr != a
  {
  }

  /** kalloc, exact fit: the block before is linked past block i. */
  lemma ExactFitRing(mem: Memory, free: seq<Block>, top: int, i: int)
    requires Ring(mem, free) && WellFormed(free, top) && 1 <= i < |free|
    ensures free[i].addr in mem && free[i - 1].addr in mem
    ensures Ring(mem[free[i - 1].addr := Header(mem[free[i].addr].next, mem[free[i - 1].addr].size)],
                 free[..i] + free[i + 1..])
  {
    assert HeaderAt(mem, free, i) && HeaderAt(mem, free, i - 1);
    var mem1 := mem[free[i - 1].addr := Header(mem[free[i].addr].next, mem[free[i - 1].addr].size)];
    forall k | 0 <= k < |free| && k != i - 1 ensures free[k].addr != free[i - 1].addr {
      if free[k].addr == free[i - 1].addr { SameAddress(free, top, k, i - 1); }
    }
    RelinkedRing(mem, mem1, free, i, [], i + 1);
    assert Splice(free, i, [], i + 1) == free[..i] + free[i + 1..];
  }

  /** kalloc, larger block: its header shrinks, and a new header is written at the tail. */
  lemma TailRing(mem: Memory, free: seq<Block>, top: int, i: int, n: int, h: Header)
    requires Ring(mem, free) && WellFormed(free, top) && 1 <= i < |free| && 1 <= n < free[i].size
    ensures free[i].addr in mem
    ensures Ring(mem[free[i].addr := Header(mem[free[i].addr].next, free[i].size - n)][End(free[i]) - n := h],
                 free[i := Block(free[i].addr, free[i].size - n)])
  {
    assert HeaderAt(mem, free, i) && HeaderAt(mem, free, i - 1);
    var rest := [Block(free[i].addr, free[i].size - n)];
    var mem1 := mem[free[i].addr := Header(mem[free[i].addr].next, free[i].size - n)][End(free[i]) - n := h];
    forall k | 0 <= k < |free| && k != i ensures free[k].addr != free[i].addr && free[k].addr != End(free[i]) - n {
      OtherAddress(free, top, i, k, free[i].addr);
      OtherAddress(free, top, i, k, End(free[i]) - n);
    }
    RelinkedRing(mem, mem1, free, i, rest, i + 1);
    assert Splice(free, i, rest, i + 1) == free[i := rest[0]];
  }

  // ----- The allocator -----

  const NULL := 0

  /** The stretch of addresses behind the heap's pages is mapped. */
  ghost predicate Mapped(mem: Memory, h: Heap) {
    forall u: int :: HEAP_START <= u < Top(h) ==> u in mem
  }

  /** Memory, rover and page count hold the abstract heap h. */
  ghost predicate Holds(mem: Memory, rover: int, pages: int, h: Heap) {
    HeapOk(h) && Ring(mem, h.free) && Mapped(mem, h) && pages == h.pages && rover == h.free[h.rover].addr
  }

  /** Nothing but listed headers and the header at a differs. */
  ghost predicate OnlyHeaders(mem: Memory, mem1: Memory, free: seq<Block>, a: int) {
    forall u :: u in mem && u != a && !Listed(free, u) ==> u in mem1 && mem1[u] == mem[u]
  }

  /** The condition on which the search loop of kfree ends, at block i. */
  predicate Stops(p: int, next: int, bp: int) {
    (bp > p && bp < next) || (p >= next && (bp > p || bp < next))
  }

  /** The search ends at the gap and nowhere else. */
  lemma StopsAtGap(free: seq<Block>, b: Block, top: int, i: int)
    requires WellFormed(free, top) && Freeable(free, b, top) && 0 <= i < |free|
    ensures Stops(free[i].addr, NextAddr(free, i), b.addr) <==> i == Gap(free, b.addr)
  {
    var g := Gap(free, b.addr);
    GapNeighbours(free, b, top);
    assert free[0] == Block(BASE, 0);
    OtherBlock(free, b, top, i);
    if i + 1 < |free| { OtherBlock(free, b, top, i + 1); }
    if i < g {
      assert free[i + 1].addr <= free[g].addr < b.addr;
    }
  }

  /** Steps from block i forward to block g. */
  function Ahead(n: int, i: int, g: int): int { if i <= g then g - i else g + n - i }

  /** A header as a newly mapped page may show it. */
  function Stale(u: int): Header { Header(u, 0) }

  /** Memory after the two header stores of kfree. */
  function Stored(mem: Memory, bp: int, p: int, left: bool, right: bool, gap: Header, behind: Header): Memory
    requires bp in mem
  {
    var size := mem[bp].size;
    var h := if right then Header(behind.next, size + behind.size) else Header(gap.next, size);
    mem[bp := h][p := if left then Header(h.next, gap.size + h.size) else Header(bp, gap.size)]
  }

  /** How a step of growing or searching ends: it succeeds, there is no frame, or the heap would have to
      grow past its page table. */
  datatype Status = Ok | NoFrame | NoTable

  /** The call's result on values. */
  function Ended(status: Status, h: Heap, s: Stacks, got: Result): Result {
    match status
    case Ok => got
    case NoFrame => OutOfMemory(h, s)
    case NoTable => PastTable(h, s)
  }

  class Allocator {
    var mem: Memory
    /** kernel_heap_free and kernel_heap_alloc. */
    var rover: int
    var pages: int
    const frames: FrameAllocator
    ghost var heap: Heap
    /** Regions handed out, and those among them that start with a header. */
    ghost var owned: R.Owned
    ghost var live: set<int>

    ghost predicate Ready()
      reads this`mem, this`rover, this`pages, this`heap
    {
      Holds(mem, rover, pages, heap)
    }

    constructor (frames: FrameAllocator)
      ensures rover == NULL && pages == 0 && this.frames == frames &&
        heap == Heap([Block(BASE, 0)], 0, 0) && mem == map[]
      ensures owned == map[] && live == {}
    {
      mem, rover, pages := map[], NULL, 0;
      this.frames := frames;
      heap := Heap([Block(BASE, 0)], 0, 0);
      owned, live := map[], {};
    }

    /** The search loop of kfree: from any rover position to the gap. */
    method FindGap(bp: int, ghost b: Block) returns (p: int)
      requires Ready() && Freeable(heap.free, b, Top(heap)) && bp == b.addr
      ensures p == heap.free[Gap(heap.free, b.addr)].addr
    {
      p := rover;
      ghost var i := heap.rover;
      ghost var g := Gap(heap.free, b.addr);
      while true
        invariant 0 <= i < |heap.free| && p == heap.free[i].addr
        decreases Ahead(|heap.free|, i, g)
      {
        assert HeaderAt(mem, heap.free, i);
        StopsAtGap(heap.free, b, Top(heap), i);
        if bp > p && bp < mem[p].next {
          break;
        }
        if p >= mem[p].next && (bp > p || bp < mem[p].next) {
          break;
        }
        p := mem[p].next;
        i := Succ(|heap.free|, i);
      }
    }

    /** The stores of kfree, once the gap block p is known; `behind` is the header after it. */
    method StoreLinks(bp: int, p: int, ghost left: bool, ghost right: bool, ghost gap: Header, ghost behind: Header)
      requires bp in mem && p in mem && p != bp && mem[p] == gap
      requires right <==> bp + mem[bp].size == gap.next
      requires right ==> gap.next in mem && mem[gap.next] == behind
      requires left <==> p + gap.size == bp
      modifies this`mem
      ensures mem == Stored(old(mem), bp, p, left, right, gap, behind)
    {
      var next := mem[p].next;
      if bp + mem[bp].size == next {
        mem := mem[bp := Header(mem[next].next, mem[bp].size + mem[next].size)];
      } else {
        mem := mem[bp := Header(next, mem[bp].size)];
      }
      if p + mem[p].size == bp {
        mem := mem[p := Header(mem[bp].next, mem[p].size + mem[bp].size)];
      } else {
        mem := mem[p := Header(bp, mem[p].size)];
      }
    }

    /** kfree.  The list must be initialised, and the header in front of the address must hold the
        size of a region that may be freed. */
    method Kfree(address: int)
      requires Ready() && address - 1 in mem
      requires Freeable(heap.free, Block(address - 1, mem[address - 1].size), Top(heap))
      modifies this`mem, this`rover, this`heap
      ensures Ready() && heap == FreeBlock(old(heap), Block(address - 1, old(mem)[address - 1].size))
      ensures OnlyHeaders(old(mem), mem, old(heap).free, address - 1)
    {
      var bp := address - 1;
      ghost var b := Block(bp, mem[bp].size);
      var p := FindGap(bp, b);
      FreedHolds(mem, rover, pages, heap, b);
      ghost var gap, behind := GapHeaders(mem, heap.free, b, Top(heap));
      StoreLinks(bp, p, Left(heap.free, b), Right(heap.free, b), gap, behind);
      rover := p;
      heap := FreeBlock(heap, b);
    }

    /** First use of the heap: the list is the base block alone. */
    method Initialise()
      requires if rover == NULL then pages == 0 && heap == Heap([Block(BASE, 0)], 0, 0) else Ready()
      modifies this`mem, this`rover
      ensures Ready() && (forall u :: u in old(mem) && u != BASE ==> u in mem && mem[u] == old(mem)[u])
    {
      if rover == NULL {
        mem := mem[BASE := Header(BASE, 0)];
        rover := BASE;
        assert HeaderAt(mem, heap.free, 0);
      }
    }

    /** pg_map of one more page behind the heap; what the frame contains is not specified. */
    method MapPage()
      modifies this`mem
      ensures forall u :: u in mem <==> u in old(mem) || HEAP_START + Pages(pages) <= u < HEAP_START + Pages(pages + 1)
      ensures forall u :: u in old(mem) && u < HEAP_START + Pages(pages) ==> mem[u] == old(mem)[u]
    {
      var start := HEAP_START + Pages(pages);
      mem := mem + (map u: int | start <= u < start + PAGE :: Stale(u));
    }

    /** The end of kbrk: maps one more page, writes its header and frees it. */
    method AppendPage()
      requires Ready() && pages < TABLE_PAGES
      modifies this`mem, this`rover, this`pages, this`heap
      ensures Ready() && heap == Grow(old(heap))
      ensures Undisturbed(old(mem), old(heap), mem, heap)
    {
      ghost var before, oldMem := heap, mem;
      MapPage();
      var block := HEAP_START + Pages(pages);
      mem := mem[block := Header(0, PAGE)];
      MappedHolds(oldMem, rover, pages, before, mem);
      pages := pages + 1;
      heap := heap.(pages := heap.pages + 1);
      Kfree(block + 1);
      GrowLists(before);
    }

    /** kbrk.  The list must be initialised if there is a frame.  Once the heap's page table is full,
        pg_map cannot map another page; nothing but the frame stacks has changed then. */
    method Brk() returns (status: Status)
      requires frames.Valid() && (Ready() || Allocate(frames.State()).1 == 0)
      modifies this`mem, this`rover, this`pages, this`heap, frames
      ensures frames.Valid() && frames.State() == Allocate(old(frames.State())).0
      ensures status.NoFrame? <==> Allocate(old(frames.State())).1 == 0
      ensures status.NoTable? <==> Allocate(old(frames.State())).1 != 0 && old(heap).pages == TABLE_PAGES
      ensures status.Ok? ==> Ready() && heap == Grow(old(heap)) && Undisturbed(old(mem), old(heap), mem, heap)
      ensures !status.Ok? ==> mem == old(mem) && rover == old(rover) && pages == old(pages) && heap == old(heap)
    {
      var page := frames.PageAllocate();
      if page == 0 {
        return NoFrame;
      }
      if pages >= TABLE_PAGES {
        return NoTable;
      }
      AppendPage();
      return Ok;
    }

    /** kalloc, exact fit: unlinks block p. */
    method TakeWhole(p: int, prevp: int, ghost i: int)
      requires Ready() && 1 <= i < |heap.free| && p == heap.free[i].addr && prevp == heap.free[i - 1].addr
      modifies this`mem
      ensures Ring(mem, heap.free[..i] + heap.free[i + 1..])
      ensures OnlyHeaders(old(mem), mem, heap.free, p) && mem.Keys == old(mem).Keys
      ensures mem[p].size == heap.free[i].size
    {
      assert HeaderAt(mem, heap.free, i) && HeaderAt(mem, heap.free, i - 1);
      ExactFitRing(mem, heap.free, Top(heap), i);
      OtherAddress(heap.free, Top(heap), i, i - 1, p);
      mem := mem[prevp := Header(mem[p].next, mem[prevp].size)];
    }

    /** kalloc, larger block: cuts the tail off block p and writes its header. */
    method TakeTail(p: int, nunits: int, ghost i: int) returns (block: int)
      requires Ready() && 1 <= i < |heap.free| && p == heap.free[i].addr && 1 <= nunits < heap.free[i].size
      modifies this`mem
      ensures block == End(heap.free[i]) - nunits && block in mem && mem[block].size == nunits
      ensures Ring(mem, heap.free[i := Block(heap.free[i].addr, heap.free[i].size - nunits)])
      ensures OnlyHeaders(old(mem), mem, heap.free, block) && mem.Keys == old(mem).Keys
    {
      assert HeaderAt(mem, heap.free, i);
      block := p + (mem[p].size - nunits);
      assert block in mem;
      TailRing(mem, heap.free, Top(heap), i, nunits, Header(mem[block].next, nunits));
      mem := mem[p := Header(mem[p].next, mem[p].size - nunits)];
      mem := mem[block := Header(mem[block].next, nunits)];
    }

    /** kalloc, once block p fits: the stores, and the block handed out. */
    method TakeUnits(p: int, prevp: int, nunits: int, ghost i: int) returns (block: int)
      requires Ready() && 1 <= i < |heap.free| && p == heap.free[i].addr && prevp == heap.free[i - 1].addr
      requires 1 <= nunits <= heap.free[i].size
      modifies this`mem, this`rover, this`heap
      ensures Ready() && heap == Take(old(heap), i, nunits) && block == Carved(old(heap).free, i, nunits).addr
      ensures block in mem && mem[block].size == nunits
      ensures OnlyHeaders(old(mem), mem, old(heap).free, block)
    {
      TakeOk(heap, i, nunits);
      assert HeaderAt(mem, heap.free, i);
      if mem[p].size == nunits {
        TakeWhole(p, prevp, i);
        block := p;
      } else {
        block := TakeTail(p, nunits, i);
      }
      rover := prevp;
      heap := Take(heap, i, nunits);
    }

    /** The end of kalloc's loop body, when block p does not fit: grow if p is the rover, then step. */
    method Advance(p: int, nunits: int, ghost i: int) returns (status: Status, next: int, ghost i': int)
      requires Ready() && frames.Valid() && 0 <= i < |heap.free| && p == heap.free[i].addr
      requires heap.free[i].size < nunits
      modifies this`mem, this`rover, this`pages, this`heap, frames
      ensures Ready() && frames.Valid() && Undisturbed(old(mem), old(heap), mem, heap)
      ensures status.Ok? ==>
        0 <= i' < |heap.free| && next == heap.free[i'].addr && (i' > 0 ==> p == heap.free[i' - 1].addr)
      ensures Scan(old(heap), old(frames.State()), i, nunits) ==
        Ended(status, heap, frames.State(),
              if status.Ok? then Scan(heap, frames.State(), i', nunits) else OutOfMemory(heap, frames.State()))
      ensures !status.Ok? || FrameCount(frames.State()) < FrameCount(old(frames.State())) ||
        (frames.State() == old(frames.State()) && Steps(heap, i') < Steps(old(heap), i))
    {
      RoverIsUnique(heap, i);
      ScanSteps(heap, frames.State(), i, nunits);
      status, next, i' := Ok, p, i;
      if p == rover {
        status := Brk();
        if status != Ok {
          return;
        }
      }
      assert HeaderAt(mem, heap.free, i);
      next := mem[p].next;
      i' := Succ(|heap.free|, i);
    }

    /** kalloc's loop: from the block behind the rover to a fit, growing whenever it meets the rover. */
    method FindFit(nunits: int) returns (status: Status, p: int, prevp: int, ghost i: int)
      requires Ready() && frames.Valid() && nunits >= 1
      modifies this`mem, this`rover, this`pages, this`heap, frames
      ensures Ready() && frames.Valid() && Undisturbed(old(mem), old(heap), mem, heap)
      ensures status.Ok? ==> 1 <= i < |heap.free| && p == heap.free[i].addr && prevp == heap.free[i - 1].addr
      ensures status.Ok? ==> heap.free[i].size >= nunits
      ensures HeapModel.Kalloc(old(heap), old(frames.State()), nunits) ==
        Ended(status, heap, frames.State(), if status.Ok?
          then Got(Take(heap, i, nunits), frames.State(), Carved(heap.free, i, nunits).addr)
          else OutOfMemory(heap, frames.State()))
    {
      ghost var goal := HeapModel.Kalloc(heap, frames.State(), nunits);
      prevp := rover;
      assert HeaderAt(mem, heap.free, heap.rover);
      p := mem[prevp].next;
      i := Succ(|heap.free|, heap.rover);
      while true
        invariant Ready() && frames.Valid() && Undisturbed(old(mem), old(heap), mem, heap)
        invariant 0 <= i < |heap.free| && p == heap.free[i].addr
        invariant i > 0 ==> prevp == heap.free[i - 1].addr
        invariant Scan(heap, frames.State(), i, nunits) == goal
        decreases FrameCount(frames.State()), Steps(heap, i)
      {
        assert HeaderAt(mem, heap.free, i);
        if mem[p].size >= nunits {
          NotTheBase(heap, i, nunits);
          return Ok, p, prevp, i;
        }
        prevp := p;
        status, p, i := Advance(p, nunits, i);
        if status != Ok {
          return;
        }
      }
    }

    /** The invariant between calls: memory holds the heap, free and owned regions tile it, every
        live header still holds its block's size, and frame 0 is never handed out. */
    ghost predicate Valid()
      reads this, frames, frames.hi, frames.lo
    {
      Usable() && Accounted(heap, mem, owned, live, frames.State())
    }

    /** The part of the invariant that memory and pointers carry. */
    ghost predicate Usable()
      reads this`mem, this`rover, this`pages, this`heap, frames
    {
      (if rover == NULL then pages == 0 && heap == Heap([Block(BASE, 0)], 0, 0) else Ready()) && frames.Valid()
    }

    /** kalloc's work; `block` is the header address if it succeeds. */
    method AllocateUnits(nunits: int) returns (status: Status, block: int)
      requires Usable() && nunits >= 1
      modifies this`mem, this`rover, this`pages, this`heap, frames
      ensures Usable() && rover != NULL
      ensures HeapModel.Kalloc(old(heap), old(frames.State()), nunits) ==
        Ended(status, heap, frames.State(), Got(heap, frames.State(), block))
      ensures if status.Ok? then block in mem && mem[block].size == nunits else block == NULL
      ensures KeptExcept(old(mem), old(heap), mem, block)
    {
      Initialise();
      var p, prevp; ghost var i;
      status, p, prevp, i := FindFit(nunits);
      block := NULL;
      if status == Ok {
        block := TakeUnits(p, prevp, nunits, i);
      }
    }

    /** Notes what is handed out now. */
    ghost method Record(o: R.Owned, l: set<int>)
      requires Usable() && Accounted(heap, mem, o, l, frames.State())
      modifies this`owned, this`live
      ensures Valid() && owned == o && live == l
    {
      owned, live := o, l;
    }

    /** kalloc's work, and its books. */
    method AllocateBlock(nunits: int) returns (status: Status, block: int)
      requires Valid() && nunits >= 1
      modifies this, frames
      ensures Valid() && rover != NULL
      ensures R.AllocUnits(old(heap), old(frames.State()), old(owned), nunits) ==
        if status.NoTable? then R.NoTable else R.Next(R.State(heap, frames.State(), owned, true))
      ensures status.Ok? ==> block !in old(owned) && block >= HEAP_START
      ensures owned == if status.Ok? then old(owned)[block := nunits] else old(owned)
      ensures live == if status.Ok? then old(live) + {block} else old(live)
      ensures status.NoFrame? ==> FrameCount(frames.State()) == 0
      ensures status.NoTable? ==> pages == TABLE_PAGES
    {
      ghost var h, s, m := heap, frames.State(), mem;
      status, block := AllocateUnits(nunits);
      AllocationSound(h, s, m, owned, live, nunits, status, heap, frames.State(), mem, block);
      AllocationStep(h, s, owned, nunits, status, heap, frames.State(), block);
      Record(if status == Ok then owned[block := nunits] else owned, if status == Ok then live + {block} else live);
    }

    /** The heap as the theory of runs sees it. */
    ghost function State(): R.State
      requires frames.Valid()
      reads this`heap, this`owned, this`rover, frames, frames.hi, frames.lo
    {
      R.State(heap, frames.State(), owned, rover != NULL)
    }

    /** kalloc: NULL, or the address behind a header that holds the block's size.  If the heap would
        have to grow past its page table, `past` is true: the kernel is lost then. */
    method Kalloc(size: int) returns (address: int, past: bool)
      requires Valid() && 0 <= size < 0x1_0000_0000
      modifies this, frames
      ensures Valid() && rover != NULL
      ensures R.AllocUnits(old(heap), old(frames.State()), old(owned), Units(size)) ==
        if past then R.NoTable else R.Next(R.State(heap, frames.State(), owned, true))
      ensures past ==> address == NULL && pages == TABLE_PAGES
      ensures address == NULL ==> owned == old(owned) && live == old(live)
      ensures address == NULL && !past ==> FrameCount(frames.State()) == 0
      ensures address != NULL ==> address - 1 !in old(owned)
      ensures address != NULL ==> owned == old(owned)[address - 1 := Units(size)] && live == old(live) + {address - 1}
    {
      UnitsSuffice(size);
      var status, block := AllocateBlock(Units(size));
      return if status == Ok then block + 1 else NULL, status == NoTable;
    }

    /** kbrk, called from outside: nothing that is handed out changes. */
    method Kbrk() returns (status: Status)
      requires Valid() && (rover == NULL ==> FrameCount(frames.State()) == 0)
      modifies this, frames
      ensures Valid() && owned == old(owned) && live == old(live)
      ensures R.Perform(old(State()), R.Brk) == if status.NoTable? then R.NoTable else R.Next(State())
      ensures status.NoFrame? <==> FrameCount(old(frames.State())) == 0
    {
      ghost var h, s, m := heap, frames.State(), mem;
      ZeroIffEmpty(s);
      status := Brk();
      BrkSound(h, s, m, owned, live, rover != NULL, status, heap, frames.State(), mem);
    }

    /** kfree of a block from kalloc. */
    method Release(address: int)
      requires Valid() && rover != NULL && address - 1 in live
      modifies this
      ensures Valid() && rover != NULL
      ensures heap == FreeBlock(old(heap), R.Region(old(owned), address - 1))
      ensures owned == old(owned) - {address - 1} && live == old(live) - {address - 1}
    {
      ghost var bp := address - 1;
      ReleaseSound(heap, mem, owned, live, frames.State(), bp);
      ghost var h, m, b := heap, mem, R.Region(owned, bp);
      Kfree(address);
      assert heap == FreeBlock(h, b);
      ReleaseKeepsBooks(h, m, owned, live, frames.State(), bp, mem);
      Record(owned - {bp}, live - {bp});
    }

    /** kfree_page on any page that may be freed: its header is written first. */
    method FreePage(page: int)
      requires Ready() && page in mem && !Listed(heap.free, page) && Freeable(heap.free, Block(page, PAGE), Top(heap))
      modifies this`mem, this`rover, this`heap
      ensures Ready() && heap == FreeBlock(old(heap), Block(page, PAGE))
      ensures OnlyHeaders(old(mem), mem, old(heap).free, page)
    {
      RingUnlisted(mem, heap, page, Header(0, PAGE));
      mem := mem[page := Header(0, PAGE)];
      Kfree(page + 1);
    }

    /** kfree_page of a page from kalloc_page. */
    method KfreePage(page: int)
      requires Valid() && rover != NULL && page in owned && page !in live && owned[page] == PAGE
      modifies this
      ensures Valid() && rover != NULL
      ensures heap == FreeBlock(old(heap), R.Region(old(owned), page))
      ensures owned == old(owned) - {page} && live == old(live)
    {
      ReleaseSound(heap, mem, owned, live, frames.State(), page);
      ghost var h, m := heap, mem;
      FreePage(page);
      ReleaseKeepsBooks(h, m, owned, live, frames.State(), page, mem);
      assert live - {page} == live;
      Record(owned - {page}, live);
    }

    /** The block at p: its first page boundary, the units before it, and those from there on. */
    method Alignment(p: int, size: int) returns (aligned: int, overhead: int, n: int)
      ensures aligned == AlignUp(p) && overhead == Overhead(Block(p, size)) && n == Avail(Block(p, size))
    {
      aligned := p / 512 * 512;
      if p > aligned {
        aligned := aligned + PAGE;
      }
      overhead := aligned - p;
      n := if size > overhead then size - overhead else 0;
    }

    /** kalloc_page's loop: the first block, from behind the rover, that holds an aligned page. */
    method FindPageBlock() returns (found: bool, p: int, prevp: int, ghost i: int)
      requires Ready()
      ensures i == PageBlock(heap) && (found <==> PageBlock(heap) >= 0)
      ensures found ==> 1 <= i && p == heap.free[PageBlock(heap)].addr && prevp == heap.free[PageBlock(heap) - 1].addr
    {
      prevp := rover;
      assert HeaderAt(mem, heap.free, heap.rover);
      p := mem[prevp].next;
      ghost var prev := heap.rover;
      i := Succ(|heap.free|, prev);
      ghost var goal := FindPage(heap, i);
      while true
        invariant 0 <= prev < |heap.free| && prevp == heap.free[prev].addr
        invariant i == Succ(|heap.free|, prev) && p == heap.free[i].addr
        invariant FindPage(heap, i) == goal
        decreases Steps(heap, i)
      {
        var last, next;
        found, last, next := LookAt(p, i);
        if found || last {
          i := goal;
          break;
        }
        prevp := p;
        p := next;
        prev := i;
        i := Succ(|heap.free|, i);
      }
    }

    /** One block on the way: does it hold an aligned page, is it the rover, and which one is next? */
    method LookAt(p: int, ghost i: int) returns (holds: bool, last: bool, next: int)
      requires Ready() && 0 <= i < |heap.free| && p == heap.free[i].addr
      ensures holds ==> i > 0 && FindPage(heap, i) == i
      ensures last <==> i == heap.rover
      ensures !holds ==> FindPage(heap, i) == if last then -1 else FindPage(heap, Succ(|heap.free|, i))
      ensures next == heap.free[Succ(|heap.free|, i)].addr
      ensures !last ==> Steps(heap, Succ(|heap.free|, i)) < Steps(heap, i)
    {
      assert HeaderAt(mem, heap.free, i);
      var _, _, n := Alignment(p, mem[p].size);
      FindPageStep(heap, i);
      RoverIsUnique(heap, i);
      assert n >= PAGE <==> HoldsPage(heap.free[i]);
      return n >= PAGE, p == rover, mem[p].next;
    }

    /** kalloc_page's stores: cuts the page out of block p. */
    method CutPage(p: int, prevp: int, ghost i: int) returns (page: int)
      requires Ready() && 1 <= i < |heap.free| && p == heap.free[i].addr && prevp == heap.free[i - 1].addr
      requires HoldsPage(heap.free[i])
      modifies this`mem
      ensures page == CarvedPage(heap.free[i]).addr
      ensures mem == Cut(old(mem), heap.free, i)
    {
      CutPlaces(mem, heap, i);
      var aligned, overhead, n := Alignment(p, mem[p].size);
      var q := mem[p].next;
      var base := p;
      if overhead > 0 {
        mem := mem[p := Header(mem[p].next, overhead)];
      } else {
        base := prevp;
      }
      if n > PAGE {
        var r := aligned + PAGE;
        mem := mem[r := Header(mem[r].next, n - PAGE)];
        mem := mem[r := Header(q, mem[r].size)];
        mem := mem[base := Header(r, mem[base].size)];
      } else {
        mem := mem[base := Header(mem[mem[base].next].next, mem[base].size)];
      }
      page := aligned;
    }

    /** First use of the heap, seen from outside: nothing changes. */
    method Start()
      requires Valid()
      modifies this`mem, this`rover
      ensures Valid() && rover != NULL
    {
      LiveUnlisted(heap, owned, live);
      Initialise();
    }

    /** kalloc_page, once block p holds a page: rightly, or relinking around the wrong block. */
    method CarveFound(p: int, prevp: int, ghost i: int) returns (page: int)
      requires Valid() && rover != NULL && 1 <= i < |heap.free| && HoldsPage(heap.free[i])
      requires p == heap.free[i].addr && prevp == heap.free[i - 1].addr
      modifies this`mem, this`heap, this`owned, this`live
      ensures page == CarvedPage(old(heap).free[i]).addr && mem == Cut(old(mem), old(heap).free, i) && live == old(live)
      ensures Ring(mem, CarvePage(old(heap).free, i))
      ensures PageSafe(old(heap), i) ==> Valid() && page !in old(owned)
      ensures PageSafe(old(heap), i) ==> heap == R.TakePage(old(heap), i) && owned == old(owned)[page := PAGE]
      ensures R.CutPage(old(heap), frames.State(), old(owned), i) ==
        if PageSafe(old(heap), i) then R.Next(R.State(heap, frames.State(), owned, true)) else R.BrokenList
    {
      ghost var h, m := heap, mem;
      page := CutPage(p, prevp, i);
      CutRing(m, h, i);
      if PageSafe(h, i) {
        CarveSound(h, m, owned, live, frames.State(), i, rover, pages);
        heap := R.TakePage(h, i);
        Record(owned[page := PAGE], live);
      }
    }

    /** kalloc_page, if no block holds a page: one more page at the top. */
    method AddTopPage() returns (page: int, past: bool)
      requires Ready() && frames.Valid()
      modifies this`mem, this`pages, this`heap, frames
      ensures Ready() && frames.Valid() && frames.State() == Allocate(old(frames.State())).0
      ensures past <==> Allocate(old(frames.State())).1 != 0 && old(heap).pages == TABLE_PAGES
      ensures page == if past || Allocate(old(frames.State())).1 == 0 then NULL else Top(old(heap))
      ensures heap == if page == NULL then old(heap) else old(heap).(pages := old(heap).pages + 1)
      ensures forall u :: u in old(mem) && u < Top(old(heap)) ==> u in mem && mem[u] == old(mem)[u]
    {
      var frame := frames.PageAllocate();
      if frame == 0 {
        return NULL, false;
      }
      if pages >= TABLE_PAGES {
        return NULL, true;
      }
      ghost var m := mem;
      MapPage();
      MappedHolds(m, rover, pages, heap, mem);
      page, past := HEAP_START + Pages(pages), false;
      pages := pages + 1;
      heap := heap.(pages := heap.pages + 1);
    }

    /** The same, handed out. */
    method ExtendHeap() returns (page: int, past: bool)
      requires Valid() && rover != NULL
      modifies this`mem, this`pages, this`heap, this`owned, this`live, frames
      ensures Valid() && live == old(live)
      ensures R.AddPage(old(heap), old(frames.State()), old(owned)) ==
        if past then R.NoTable else R.Next(R.State(heap, frames.State(), owned, true))
      ensures page == NULL ==> owned == old(owned) && (past || FrameCount(frames.State()) == 0)
      ensures page != NULL ==>
        page == Top(old(heap)) && page !in old(owned) && owned == old(owned)[page := PAGE] && !past
    {
      ghost var h, s, m := heap, frames.State(), mem;
      page, past := AddTopPage();
      ExtendSound(h, s, m, owned, live, page, past, heap, frames.State(), mem);
      Record(if page == NULL then owned else owned[page := PAGE], live);
    }

    /** kalloc_page: NULL if memory has run out, or the address of an aligned page, handed out.  Where
        its relinking goes wrong, what it leaves behind is a ring of headers that is not the right
        list; `past` is as for kalloc. */
    method KallocPage() returns (page: int, past: bool)
      requires Valid()
      modifies this, frames
      ensures rover != NULL && live == old(live)
      ensures PageIsSafe(old(heap)) ==> Valid()
      ensures R.AllocAligned(old(heap), old(frames.State()), old(owned)) ==
        if !PageIsSafe(old(heap)) then R.BrokenList
        else if past then R.NoTable else R.Next(R.State(heap, frames.State(), owned, true))
      ensures PageIsSafe(old(heap)) && page == NULL ==> owned == old(owned) && (past || FrameCount(frames.State()) == 0)
      ensures PageIsSafe(old(heap)) && page != NULL ==>
        Aligned(page) && page !in old(owned) && owned == old(owned)[page := PAGE]
      ensures !PageIsSafe(old(heap)) ==> 1 <= PageBlock(old(heap)) && !past
      ensures !PageIsSafe(old(heap)) ==> Ring(mem, CarvePage(old(heap).free, PageBlock(old(heap))))
      ensures !PageIsSafe(old(heap)) ==>
        !CarvedRight(old(heap), PageBlock(old(heap)), CarvePage(old(heap).free, PageBlock(old(heap))))
    {
      PageFacts(heap, frames.State());
      Start();
      var found, p, prevp, i := FindPageBlock();
      past := false;
      if found {
        page := CarveFound(p, prevp, i);
      } else {
        page, past := ExtendHeap();
      }
    }

    /** The walk of kh_get_memory_info: once around the ring, from behind the rover to the rover. */
    method SumFree() returns (bytes: int)
      requires Ready()
      ensures bytes == R.FreeUnits(heap.free) * 8
    {
      bytes := 0;
      assert HeaderAt(mem, heap.free, heap.rover);
      var p := mem[rover].next;
      ghost var i := Succ(|heap.free|, heap.rover);
      VisitedStart(heap);
      while true
        invariant 0 <= i < |heap.free| && p == heap.free[i].addr
        invariant bytes == R.FreeUnits(Visited(heap, i)) * 8
        decreases Steps(heap, i)
      {
        assert HeaderAt(mem, heap.free, i);
        bytes := bytes + mem[p].size * 8;
        VisitedNext(heap, i);
        RoverIsUnique(heap, i);
        if p == rover {
          break;
        }
        p := mem[p].next;
        i := Succ(|heap.free|, i);
      }
    }

    /** kh_get_memory_info: bytes in use are those of all live blocks, headers included, and of all
        live pages. */
    method MemoryInfo() returns (inUse: int, total: int)
      requires Valid()
      modifies this`mem, this`rover
      ensures Valid() && rover != NULL
      ensures total == (Top(heap) - HEAP_START) * 8 && inUse == R.OwnedUnits(owned) * 8
    {
      Start();
      inUse := SumFree();
      total := pages * 4096;
      inUse := total - inUse;
    }
  }

  /** The blocks that a walk from behind the rover has met when it stands at block i. */
  function Visited(h: Heap, i: int): seq<Block>
    requires 0 <= h.rover < |h.free| && 0 <= i < |h.free|
  {
    if i > h.rover then h.free[h.rover + 1..i] else h.free[h.rover + 1..] + h.free[..i]
  }

  lemma VisitedStart(h: Heap)
    requires 0 <= h.rover < |h.free|
    ensures Visited(h, Succ(|h.free|, h.rover)) == []
  {
  }

  /** Meeting block i adds its size; at the rover, every block has been met once. */
  lemma VisitedNext(h: Heap, i: int)
    requires 0 <= h.rover < |h.free| && 0 <= i < |h.free|
    ensures i != h.rover ==>
      R.FreeUnits(Visited(h, Succ(|h.free|, i))) == R.FreeUnits(Visited(h, i)) + h.free[i].size
    ensures i == h.rover ==> R.FreeUnits(h.free) == R.FreeUnits(Visited(h, i)) + h.free[i].size
    ensures i != h.rover ==> Steps(h, Succ(|h.free|, i)) < Steps(h, i)
  {
    R.FreeUnitsConcat(Visited(h, i), [h.free[i]]);
    R.FreeUnitsOptional(true, h.free[i]);
    VisitedExtends(h, i);
    if i == h.rover { FreeUnitsRotate(h.free, i + 1); }
  }

  lemma VisitedExtends(h: Heap, i: int)
    requires 0 <= h.rover < |h.free| && 0 <= i < |h.free|
    ensures Visited(h, i) + [h.free[i]] ==
      if i != h.rover then Visited(h, Succ(|h.free|, i)) else h.free[i + 1..] + h.free[..i + 1]
  {
    var free, rover := h.free, h.rover;
    if i > rover {
      TakeOneMore(free, rover + 1, i);
      assert i + 1 == |free| ==> free[rover + 1..i + 1] == free[rover + 1..] + free[..0];
    } else {
      TakeOneMore(free, 0, i);
      assert free[0..i] == free[..i] && free[0..i + 1] == free[..i + 1];
      assert free[rover + 1..] + free[..i] + [free[i]] == free[rover + 1..] + (free[..i] + [free[i]]);
    }
  }

  lemma TakeOneMore(free: seq<Block>, from: nat, i: nat)
    requires from <= i < |free|
    ensures free[from..i] + [free[i]] == free[from..i + 1]
  {
  }

  lemma FreeUnitsRotate(free: seq<Block>, k: nat)
    requires k <= |free|
    ensures R.FreeUnits(free[k..] + free[..k]) == R.FreeUnits(free)
  {
    R.FreeUnitsConcat(free[k..], free[..k]);
    R.FreeUnitsConcat(free[..k], free[k..]);
    assert free == free[..k] + free[k..];
  }

  /** The books after a page has been cut out rightly. */
  lemma CarveSound(h: Heap, mem: Memory, owned: R.Owned, live: set<int>, s: Stacks, i: int, rover: int, pages: int)
    requires Holds(mem, rover, pages, h) && Accounted(h, mem, owned, live, s)
    requires 1 <= i < |h.free| && HoldsPage(h.free[i]) && PageSafe(h, i)
    ensures var page := CarvedPage(h.free[i]).addr; var mem1 := Cut(mem, h.free, i);
      page !in owned && Holds(mem1, rover, pages, R.TakePage(h, i)) &&
      Accounted(R.TakePage(h, i), mem1, owned[page := PAGE], live, s)
  {
    CutRing(mem, h, i);
    SafeCarving(h, i);
    R.PageKeepsInv(h, owned, i);
    LiveClear(h, owned, live, i);
    CutKeeps(mem, h, i);
    LiveHeadersKept(mem, Cut(mem, h.free, i), owned, live, CarvedPage(h.free[i]).addr);
  }

  /** Headers that were neither listed nor inside block i are as before. */
  ghost predicate KeptBut(mem: Memory, h: Heap, mem1: Memory, i: int) {
    forall u ::
      u in mem && HEAP_START <= u < Top(h) && !Listed(h.free, u) && !(1 <= i < |h.free| && Covers(h.free[i], u))
      ==> u in mem1 && mem1[u] == mem[u]
  }

  lemma CutKeeps(mem: Memory, h: Heap, i: int)
    requires HeapOk(h) && 1 <= i < |h.free| && HoldsPage(h.free[i]) && PageSafe(h, i)
    ensures KeptBut(mem, h, Cut(mem, h.free, i), i)
  {
  }

  /** The books after a page has been added at the top, or not. */
  lemma ExtendSound(h: Heap, s: Stacks, mem: Memory, owned: R.Owned, live: set<int>, page: int, past: bool,
      h1: Heap, s1: Stacks, mem1: Memory)
    requires Accounted(h, mem, owned, live, s) && s1 == Allocate(s).0
    requires past <==> Allocate(s).1 != 0 && h.pages == TABLE_PAGES
    requires page == if past || Allocate(s).1 == 0 then NULL else Top(h)
    requires h1 == if page == NULL then h else h.(pages := h.pages + 1)
    requires forall u :: u in mem && u < Top(h) ==> u in mem1 && mem1[u] == mem[u]
    ensures page != NULL ==> page !in owned && page == Top(h) && !past
    ensures page == NULL ==> past || FrameCount(s1) == 0
    ensures var owned1 := if page == NULL then owned else owned[page := PAGE];
      Accounted(h1, mem1, owned1, live, s1) &&
      R.AddPage(h, s, owned) == if past then R.NoTable else R.Next(R.State(h1, s1, owned1, true))
  {
    ZeroIffEmpty(s);
    LiveUnlisted(h, owned, live);
    if page != NULL {
      R.ExtendKeepsInv(h, owned);
      LiveHeadersKept(mem, mem1, owned, live, page);
    }
  }

  /** What is known of the page that kalloc_page takes or adds. */
  lemma PageFacts(h: Heap, s: Stacks)
    requires HeapOk(h) && 0 !in Stacked(s)
    ensures PageBlock(h) != 0 && Aligned(Top(h)) && Top(h) != NULL
    ensures PageBlock(h) >= 1 ==> FoundPage(h, PageBlock(h))
  {
    R.BaseHoldsNoPage(h);
    TopIsAligned(h);
    if PageBlock(h) >= 1 {
      PageInside(h.free[PageBlock(h)]);
      CarvingRightIffSafe(h, PageBlock(h));
    }
  }

  ghost predicate FoundPage(h: Heap, i: int)
    requires HeapOk(h)
  {
    1 <= i < |h.free| && HoldsPage(h.free[i]) &&
    Aligned(CarvedPage(h.free[i]).addr) && CarvedPage(h.free[i]).addr != NULL &&
    (!PageSafe(h, i) ==> !CarvedRight(h, i, CarvePage(h.free, i)))
  }

  lemma TopIsAligned(h: Heap)
    ensures Aligned(Top(h))
  {
  }

  /** Live headers stay in place; a new region beside them does not matter. */
  lemma LiveHeadersKept(mem: Memory, mem1: Memory, owned: R.Owned, live: set<int>, page: int)
    requires LiveHeaders(mem, owned, live) && page !in owned
    requires forall a :: a in live ==> a in mem1 && mem1[a] == mem[a]
    ensures LiveHeaders(mem1, owned, live) && LiveHeaders(mem1, owned[page := PAGE], live)
  {
  }

  /** Live headers lie outside block i, off the list and inside the heap. */
  lemma LiveClear(h: Heap, owned: R.Owned, live: set<int>, i: int)
    requires R.Inv(h, owned) && forall a :: a in live ==> a in owned
    ensures forall a :: a in live ==>
      !Listed(h.free, a) && HEAP_START <= a < Top(h) && !(1 <= i < |h.free| && Covers(h.free[i], a))
  {
  }

  lemma FindPageStep(h: Heap, i: int)
    requires HeapOk(h) && 0 <= i < |h.free|
    ensures HoldsPage(h.free[i]) ==> i > 0 && FindPage(h, i) == i
    ensures !HoldsPage(h.free[i]) ==> FindPage(h, i) == if i == h.rover then -1 else FindPage(h, Succ(|h.free|, i))
    ensures i != h.rover ==> Steps(h, Succ(|h.free|, i)) < Steps(h, i)
  {
  }

  /** Memory after the stores of kalloc_page, right or wrong. */
  function Cut(mem: Memory, free: seq<Block>, i: int): Memory
    requires 1 <= i < |free|
  {
    var b := free[i];
    var t, next, prev := Tail(b), NextAddr(free, i), free[i - 1];
    if Overhead(b) > 0 then
      if Avail(b) > PAGE then mem[b.addr := Header(t.addr, Overhead(b))][t.addr := Header(next, t.size)]
      else mem[b.addr := Header(NextAddr(free, Succ(|free|, i)), Overhead(b))]
    else
      if Avail(b) > PAGE then mem[t.addr := Header(next, t.size)][prev.addr := Header(t.addr, prev.size)]
      else mem[prev.addr := Header(next, prev.size)]
  }

  /** The headers that the stores find. */
  lemma CutPlaces(mem: Memory, h: Heap, i: int)
    requires HeapOk(h) && Mapped(mem, h) && Ring(mem, h.free) && 1 <= i < |h.free| && HoldsPage(h.free[i])
    ensures var b, prev, next := h.free[i], h.free[i - 1], NextAddr(h.free, i);
      b.addr in mem && mem[b.addr] == Header(next, b.size) &&
      prev.addr in mem && mem[prev.addr] == Header(b.addr, prev.size) && prev.addr != b.addr &&
      next in mem && mem[next].next == NextAddr(h.free, Succ(|h.free|, i)) && next != b.addr
    ensures var b, prev := h.free[i], h.free[i - 1];
      Avail(b) > PAGE ==> Tail(b).addr in mem && Tail(b).addr !in {b.addr, prev.addr}
  {
    assert HeaderAt(mem, h.free, i) && HeaderAt(mem, h.free, i - 1) && HeaderAt(mem, h.free, Succ(|h.free|, i));
  }

  /** The stores of kalloc_page leave the headers in one ring, which is that of CarvePage's list even
      where that list is wrong. */
  lemma CutRing(mem: Memory, h: Heap, i: int)
    requires HeapOk(h) && Ring(mem, h.free) && 1 <= i < |h.free| && HoldsPage(h.free[i])
    ensures Ring(Cut(mem, h.free, i), CarvePage(h.free, i))
  {
    if Overhead(h.free[i]) == 0 {
      CutRingAtStart(mem, h, i);
    } else if Avail(h.free[i]) > PAGE {
      CutRingInside(mem, h, i);
    } else if i + 1 < |h.free| {
      CutRingBehind(mem, h, i);
    } else {
      CutRingAtEnd(mem, h, i);
    }
  }

  /** The page starts its block: what is left of the block, if anything, takes its place. */
  lemma CutRingAtStart(mem: Memory, h: Heap, i: int)
    requires HeapOk(h) && Ring(mem, h.free) && 1 <= i < |h.free| && HoldsPage(h.free[i])
    requires Overhead(h.free[i]) == 0
    ensures Ring(Cut(mem, h.free, i), CarvePage(h.free, i))
  {
    assert HeaderAt(mem, h.free, i) && HeaderAt(mem, h.free, i - 1);
    CutElsewhere(h, i);
    RelinkedRing(mem, Cut(mem, h.free, i), h.free, i, PageRest(h.free[i]), i + 1);
    assert CarvePage(h.free, i) == Splice(h.free, i, PageRest(h.free[i]), i + 1);
  }

  /** The page lies inside its block: two blocks take its place. */
  lemma CutRingInside(mem: Memory, h: Heap, i: int)
    requires HeapOk(h) && Ring(mem, h.free) && 1 <= i < |h.free| && HoldsPage(h.free[i])
    requires Overhead(h.free[i]) > 0 && Avail(h.free[i]) > PAGE
    ensures Ring(Cut(mem, h.free, i), CarvePage(h.free, i))
  {
    assert HeaderAt(mem, h.free, i) && HeaderAt(mem, h.free, i - 1);
    CutElsewhere(h, i);
    RelinkedRing(mem, Cut(mem, h.free, i), h.free, i, PageRest(h.free[i]), i + 1);
    assert CarvePage(h.free, i) == Splice(h.free, i, PageRest(h.free[i]), i + 1);
  }

  /** The page ends its block, without starting it, and the block is not the last: the next one is
      unlinked. */
  lemma CutRingBehind(mem: Memory, h: Heap, i: int)
    requires HeapOk(h) && Ring(mem, h.free) && 1 <= i < |h.free| - 1 && HoldsPage(h.free[i])
    requires Overhead(h.free[i]) > 0 && Avail(h.free[i]) == PAGE
    ensures Ring(Cut(mem, h.free, i), CarvePage(h.free, i))
  {
    var b := h.free[i];
    assert HeaderAt(mem, h.free, i) && HeaderAt(mem, h.free, i - 1);
    CutElsewhere(h, i);
    RelinkedRing(mem, Cut(mem, h.free, i), h.free, i, [Block(b.addr, Overhead(b))], i + 2);
  }

  /** The page ends the last block, without starting it: the base block is unlinked. */
  lemma CutRingAtEnd(mem: Memory, h: Heap, i: int)
    requires HeapOk(h) && Ring(mem, h.free) && 1 <= i == |h.free| - 1 && HoldsPage(h.free[i])
    requires Overhead(h.free[i]) > 0 && Avail(h.free[i]) == PAGE
    ensures Ring(Cut(mem, h.free, i), CarvePage(h.free, i))
  {
    var r, mem1 := CarvePage(h.free, i), Cut(mem, h.free, i);
    CutElsewhere(h, i);
    forall j | 0 <= j < |r| ensures HeaderAt(mem1, r, j) {
      assert r[j].addr == h.free[j + 1].addr;
      assert r[0].addr == h.free[1].addr;
      if j < i - 1 {
        assert HeaderAt(mem, h.free, j + 1);
        assert r[j + 1].addr == h.free[j + 2].addr;
      }
    }
  }

  lemma CutElsewhere(h: Heap, i: int)
    requires HeapOk(h) && 1 <= i < |h.free| && HoldsPage(h.free[i])
    ensures forall k :: 0 <= k < |h.free| && k != i ==> h.free[k].addr != h.free[i].addr
    ensures Avail(h.free[i]) > PAGE ==> h.free[i].addr < Tail(h.free[i]).addr < End(h.free[i])
    ensures Avail(h.free[i]) > PAGE ==> forall k :: 0 <= k < |h.free| ==> h.free[k].addr != Tail(h.free[i]).addr
    ensures forall k :: 0 <= k < |h.free| && k != i - 1 ==> h.free[k].addr != h.free[i - 1].addr
  {
  }

  /** An owned region may be freed. */
  lemma ReleaseSound(h: Heap, mem: Memory, owned: R.Owned, live: set<int>, s: Stacks, a: int)
    requires Accounted(h, mem, owned, live, s) && a in owned
    ensures Freeable(h.free, R.Region(owned, a), Top(h)) && HEAP_START <= a < Top(h) && !Listed(h.free, a)
    ensures a in live ==> a in mem && R.Region(owned, a) == Block(a, mem[a].size)
  {
  }

  /** The books after kfree and kfree_page. */
  lemma ReleaseKeepsBooks(h: Heap, mem: Memory, owned: R.Owned, live: set<int>, s: Stacks, a: int, mem1: Memory)
    requires Accounted(h, mem, owned, live, s) && a in owned && OnlyHeaders(mem, mem1, h.free, a)
    ensures Accounted(FreeBlock(h, R.Region(owned, a)), mem1, owned - {a}, live - {a}, s)
  {
    R.FreeKeepsInv(h, owned, a);
    LiveUnlisted(h, owned, live);
  }

  /** A header written off the list leaves the list alone. */
  lemma RingUnlisted(mem: Memory, h: Heap, a: int, header: Header)
    requires Ring(mem, h.free) && !Listed(h.free, a)
    ensures Ring(mem[a := header], h.free)
  {
    var mem1 := mem[a := header];
    forall i | 0 <= i < |h.free| ensures HeaderAt(mem1, h.free, i) {
      assert HeaderAt(mem, h.free, i);
    }
  }

  /** Headers of the heap that were not on the list are as before, except at `block`. */
  ghost predicate KeptExcept(mem: Memory, h: Heap, mem1: Memory, block: int) {
    forall u :: u in mem && HEAP_START <= u < Top(h) && !Listed(h.free, u) && u != block ==>
      u in mem1 && mem1[u] == mem[u]
  }

  /** The books are right: free and owned regions tile the heap, live headers hold their sizes, and
      frame 0 is not on the stacks. */
  ghost predicate Accounted(h: Heap, mem: Memory, owned: R.Owned, live: set<int>, s: Stacks) {
    R.Inv(h, owned) && LiveHeaders(mem, owned, live) && 0 !in Stacked(s)
  }

  /** The books after kalloc. */
  lemma AllocationSound(h: Heap, s: Stacks, mem: Memory, owned: R.Owned, live: set<int>, n: int, status: Status,
      h1: Heap, s1: Stacks, mem1: Memory, block: int)
    requires Accounted(h, mem, owned, live, s) && n >= 1 && KeptExcept(mem, h, mem1, block)
    requires HeapModel.Kalloc(h, s, n) == Ended(status, h1, s1, Got(h1, s1, block))
    requires status.Ok? ==> block in mem1 && mem1[block].size == n
    requires !status.Ok? ==> block == NULL
    ensures status.NoFrame? ==> FrameCount(s1) == 0
    ensures status.NoTable? ==> h1.pages == TABLE_PAGES
    ensures status.Ok? ==> block !in owned && block >= HEAP_START
    ensures Accounted(h1, mem1, if status == Ok then owned[block := n] else owned,
                      if status == Ok then live + {block} else live, s1)
  {
    R.ScanKeepsInv(h, s, Succ(|h.free|, h.rover), n, owned);
    R.FramesStayNonZero(h, s, Succ(|h.free|, h.rover), n);
    if status == Ok {
      LiveUnlisted(h1, owned[block := n], {block});
    }
    HeadersKept(h, mem, owned, live, mem1, block);
  }

  /** Only listed headers and the one of the new block have changed. */
  lemma HeadersKept(h: Heap, mem: Memory, owned: R.Owned, live: set<int>, mem1: Memory, block: int)
    requires R.Inv(h, owned) && LiveHeaders(mem, owned, live) && KeptExcept(mem, h, mem1, block)
    ensures LiveHeaders(mem1, owned, live - {block})
  {
    LiveUnlisted(h, owned, live);
  }

  /** kalloc's step. */
  lemma AllocationStep(h: Heap, s: Stacks, owned: R.Owned, n: int, status: Status, h1: Heap, s1: Stacks, block: int)
    requires HeapOk(h) && HeapModel.Kalloc(h, s, n) == Ended(status, h1, s1, Got(h1, s1, block))
    ensures R.AllocUnits(h, s, owned, n) == if status.NoTable? then R.NoTable
      else R.Next(R.State(h1, s1, if status == Ok then owned[block := n] else owned, true))
  {
  }

  /** The books after kbrk. */
  lemma BrkSound(h: Heap, s: Stacks, mem: Memory, owned: R.Owned, live: set<int>, initialised: bool, status: Status,
      h1: Heap, s1: Stacks, mem1: Memory)
    requires Accounted(h, mem, owned, live, s) && s1 == Allocate(s).0
    requires status.Ok? ==> h.pages < TABLE_PAGES && h1 == Grow(h) && Undisturbed(mem, h, mem1, h1)
    requires !status.Ok? ==> h1 == h && mem1 == mem
    requires status.NoFrame? <==> Allocate(s).1 == 0
    requires status.NoTable? <==> Allocate(s).1 != 0 && h.pages == TABLE_PAGES
    requires initialised || status.NoFrame?
    ensures Accounted(h1, mem1, owned, live, s1)
    ensures R.Perform(R.State(h, s, owned, initialised), R.Brk) ==
      if status.NoTable? then R.NoTable else R.Next(R.State(h1, s1, owned, initialised))
  {
    ZeroIffEmpty(s);
    LiveUnlisted(h, owned, live);
    if status.Ok? { R.GrowKeepsInv(h, owned); }
  }

  lemma NotTheBase(h: Heap, i: int, n: int)
    requires HeapOk(h) && 0 <= i < |h.free| && h.free[i].size >= n >= 1
    ensures i > 0
  {
  }

  /** One turn of kalloc's loop at a block that does not fit. */
  lemma ScanSteps(h: Heap, s: Stacks, i: int, n: int)
    requires HeapOk(h) && 0 <= i < |h.free| && h.free[i].size < n
    ensures var next := Succ(|h.free|, i); i != h.rover ==>
      Scan(h, s, i, n) == Scan(h, s, next, n) && Steps(h, next) < Steps(h, i)
    ensures i == h.rover && Allocate(s).1 == 0 ==> Scan(h, s, i, n) == OutOfMemory(h, Allocate(s).0)
    ensures i == h.rover && Allocate(s).1 != 0 && h.pages == TABLE_PAGES ==>
      Scan(h, s, i, n) == PastTable(h, Allocate(s).0)
    ensures i == h.rover && Allocate(s).1 != 0 && h.pages < TABLE_PAGES ==> Grown(h, s, i, n)
  {
    if i == h.rover && Allocate(s).1 != 0 && h.pages < TABLE_PAGES { ScanGrows(h, s, n); }
  }

  lemma ScanGrows(h: Heap, s: Stacks, n: int)
    requires HeapOk(h) && h.free[h.rover].size < n && Allocate(s).1 != 0 && h.pages < TABLE_PAGES
    ensures Grown(h, s, h.rover, n)
  {
    GrowKeepsPlace(h, h.rover);
  }

  lemma GrowKeepsPlace(h: Heap, i: int)
    requires HeapOk(h) && 0 <= i < |h.free| && h.pages < TABLE_PAGES
    ensures HeapOk(Grow(h)) && i < |Grow(h).free| && Grow(h).free[i].addr == h.free[i].addr
  {
    GrowShape(h);
  }

  /** The loop goes on from the same block of the grown heap, with one frame less. */
  ghost predicate Grown(h: Heap, s: Stacks, i: int, n: int)
    requires HeapOk(h) && 0 <= i < |h.free|
  {
    var g, s1 := Grow(h), Allocate(s).0;
    HeapOk(g) && i < |g.free| && g.free[i].addr == h.free[i].addr && FrameCount(s1) < FrameCount(s) &&
    Scan(h, s, i, n) == Scan(g, s1, Succ(|g.free|, i), n)
  }

  /** Headers below the old top that were not listed are as before and still not listed. */
  ghost predicate Undisturbed(mem: Memory, h: Heap, mem1: Memory, h1: Heap) {
    Top(h) <= Top(h1) &&
    forall u :: u in mem && u < Top(h) && !Listed(h.free, u) ==> u in mem1 && mem1[u] == mem[u] && !Listed(h1.free, u)
  }

  /** Growing lists no address below the old top that was not listed. */
  lemma GrowLists(h: Heap)
    requires HeapOk(h)
    ensures forall u :: u < Top(h) && Listed(Grow(h).free, u) ==> Listed(h.free, u)
  {
  }

  ghost predicate LiveHeaders(mem: Memory, owned: R.Owned, live: set<int>) {
    forall a :: a in live ==> a in owned && a in mem && mem[a].size == owned[a]
  }

  /** Owned regions lie below the top and off the list. */
  lemma LiveUnlisted(h: Heap, owned: R.Owned, live: set<int>)
    requires R.Inv(h, owned) && forall a :: a in live ==> a in owned
    ensures forall a :: a in live ==> !Listed(h.free, a) && HEAP_START <= a < Top(h)
  {
  }

  lemma RoverIsUnique(h: Heap, i: int)
    requires HeapOk(h) && 0 <= i < |h.free|
    ensures h.free[i].addr == h.free[h.rover].addr <==> i == h.rover
  {
  }

  /** Memory below the top is as before, so the list is. */
  lemma RingKept(mem: Memory, mem1: Memory, h: Heap)
    requires HeapOk(h) && Ring(mem, h.free)
    requires forall u :: u in mem && u < Top(h) ==> u in mem1 && mem1[u] == mem[u]
    ensures Ring(mem1, h.free)
  {
    forall i | 0 <= i < |h.free| ensures HeaderAt(mem1, h.free, i) {
      assert HeaderAt(mem, h.free, i);
      assert h.free[0] == Block(BASE, 0);
    }
  }

  /** What the stores of kfree find in memory, and what they amount to. */
  lemma GapHeaders(mem: Memory, free: seq<Block>, b: Block, top: int) returns (gap: Header, behind: Header)
    requires Ring(mem, free) && WellFormed(free, top) && Freeable(free, b, top) && b.addr in mem &&
      mem[b.addr].size == b.size
    ensures var p := free[Gap(free, b.addr)].addr;
      p in mem && p != b.addr && mem[p] == gap &&
      (Right(free, b) <==> b.addr + b.size == gap.next) &&
      (Right(free, b) ==> gap.next in mem && mem[gap.next] == behind) &&
      (Left(free, b) <==> p + gap.size == b.addr)
    ensures Linked(mem, free, b) ==
      Stored(mem, b.addr, free[Gap(free, b.addr)].addr, Left(free, b), Right(free, b), gap, behind)
  {
    var i := Gap(free, b.addr);
    RightIsNext(free, b, top);
    OtherBlock(free, b, top, i);
    assert HeaderAt(mem, free, i);
    gap, behind := mem[free[i].addr], mem[free[i].addr];
    if Right(free, b) {
      assert HeaderAt(mem, free, i + 1);
      behind := mem[free[i + 1].addr];
    }
  }

  /** kfree as a whole, on values. */
  lemma FreedHolds(mem: Memory, rover: int, pages: int, h: Heap, b: Block)
    requires Holds(mem, rover, pages, h) && Freeable(h.free, b, Top(h))
    ensures Holds(Linked(mem, h.free, b), h.free[Gap(h.free, b.addr)].addr, pages, FreeBlock(h, b))
    ensures OnlyHeaders(mem, Linked(mem, h.free, b), h.free, b.addr)
  {
    LinkedRing(mem, h.free, b, Top(h));
    LinkedOnlyHeaders(mem, h.free, b);
    FreeBlockOk(h, b);
  }

  /** The new page's header and mapping, before it is freed. */
  lemma MappedHolds(mem: Memory, rover: int, pages: int, h: Heap, mem1: Memory)
    requires Holds(mem, rover, pages, h) && h.pages < TABLE_PAGES
    requires forall u :: u in mem && u < Top(h) ==> u in mem1 && mem1[u] == mem[u]
    requires forall u :: Top(h) <= u < Top(h) + PAGE ==> u in mem1
    ensures Holds(mem1, rover, pages + 1, h.(pages := h.pages + 1))
    ensures Freeable(h.free, FreshPage(h), Top(h) + PAGE)
  {
    RingKept(mem, mem1, h);
    FreshPageIsClear(h);
  }

  lemma LinkedOnlyHeaders(mem: Memory, free: seq<Block>, b: Block)
    requires |free| > 0
    ensures OnlyHeaders(mem, Linked(mem, free, b), free, b.addr)
    ensures forall u :: u in mem ==> u in Linked(mem, free, b)
  {
  }

  /** The code's test for merging to the right is the model's: the base block is never behind. */
  lemma RightIsNext(free: seq<Block>, b: Block, top: int)
    requires WellFormed(free, top) && Freeable(free, b, top)
    ensures End(b) == NextAddr(free, Gap(free, b.addr)) <==> Right(free, b)
  {
  }
}
