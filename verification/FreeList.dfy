/** The kernel heap's free list on values.  Addresses and sizes are in units of one block header
    (8 bytes); a size includes the header, as in K&R's allocator.  Module KernelHeap has the linked
    headers and the loops, which are proved to compute these functions. */
module FreeList {

  /** One page and n pages, in units, and the addresses at which pages start. */
  const PAGE := 512
  function Pages(n: int): int { n * 512 }
  predicate Aligned(a: int) { a % 512 == 0 }

  /** 0xD0000000 in units. */
  const HEAP_START: int := 0x1A00_0000
  /** Where the list's first, empty block lies: in the kernel image, below the heap. */
  const BASE: int := 0x1802_0000

  datatype Block = Block(addr: int, size: int)

  function End(b: Block): int { b.addr + b.size }

  predicate Covers(b: Block, u: int) { b.addr <= u < End(b) }

  predicate Apart(a: Block, b: Block) { End(a) <= b.addr || End(b) <= a.addr }

  /** Address-ordered, starting with the empty base block; no two free blocks touch or overlap. */
  ghost predicate WellFormed(free: seq<Block>, top: int) {
    && |free| > 0 && free[0] == Block(BASE, 0)
    && (forall i :: 1 <= i < |free| ==> HEAP_START <= free[i].addr && free[i].size >= 1 && End(free[i]) <= top)
    && Ordered(free)
  }

  ghost predicate Ordered(bs: seq<Block>) {
    forall i, j :: 0 <= i < j < |bs| ==> End(bs[i]) < bs[j].addr
  }

  /** Some block of the list starts at a. */
  ghost predicate Listed(free: seq<Block>, a: int) {
    exists k :: 0 <= k < |free| && free[k].addr == a
  }

  ghost predicate InFree(free: seq<Block>, u: int) {
    exists i :: 0 <= i < |free| && Covers(free[i], u)
  }

  // ----- Replacing a stretch of the list -----

  /** The list with the blocks from `from` up to `to` replaced by `mid`. */
  function Splice(free: seq<Block>, from: nat, mid: seq<Block>, to: nat): seq<Block>
    requires from <= to <= |free|
  {
    free[..from] + mid + free[to..]
  }

  /** `mid` fits between its new neighbours, away from the base block and inside the heap. */
  ghost predicate FitsBetween(free: seq<Block>, from: nat, mid: seq<Block>, to: nat, top: int)
    requires from <= to <= |free|
  {
    && Ordered(mid)
    && (forall x :: 0 <= x < |mid| ==> HEAP_START <= mid[x].addr && mid[x].size >= 1 && End(mid[x]) <= top)
    && (forall x :: 0 <= x < |mid| && 0 < from ==> End(free[from - 1]) < mid[x].addr)
    && (forall x :: 0 <= x < |mid| && to < |free| ==> End(mid[x]) < free[to].addr)
  }

  lemma SpliceKeepsOrder(free: seq<Block>, from: nat, mid: seq<Block>, to: nat, top: int)
    requires WellFormed(free, top) && 1 <= from <= to <= |free| && FitsBetween(free, from, mid, to, top)
    ensures WellFormed(Splice(free, from, mid, to), top)
  {
    var r := Splice(free, from, mid, to);
    var d := from + |mid|;
    forall i, j | 0 <= i < j < |r| ensures End(r[i]) < r[j].addr {
      SpliceAt(free, from, mid, to, i);
      SpliceAt(free, from, mid, to, j);
      if i < from && from <= j < d {
        assert End(free[i]) <= End(free[from - 1]) by { BeforeOrEqual(free, i, from - 1, top); }
      } else if from <= i < d && j >= d {
        assert free[to].addr <= free[j - d + to].addr by { BeforeOrEqual(free, to, j - d + to, top); }
      }
    }
    forall i | 1 <= i < |r| ensures HEAP_START <= r[i].addr && r[i].size >= 1 && End(r[i]) <= top {
      SpliceAt(free, from, mid, to, i);
    }
  }

  lemma BeforeOrEqual(free: seq<Block>, i: nat, j: nat, top: int)
    requires WellFormed(free, top) && i <= j < |free|
    ensures End(free[i]) <= End(free[j]) && free[i].addr <= free[j].addr
  {
  }

  lemma SpliceAt(free: seq<Block>, from: nat, mid: seq<Block>, to: nat, i: nat)
    requires from <= to <= |free| && i < |Splice(free, from, mid, to)|
    ensures Splice(free, from, mid, to)[i] ==
      if i < from then free[i] else if i < from + |mid| then mid[i - from] else free[i - from - |mid| + to]
  {
  }

  lemma SpliceCovers(free: seq<Block>, from: nat, mid: seq<Block>, to: nat, u: int)
    requires from <= to <= |free|
    ensures InFree(Splice(free, from, mid, to), u) <==>
      InFree(free[..from], u) || InFree(mid, u) || InFree(free[to..], u)
    ensures InFree(free, u) <==> InFree(free[..from], u) || InFree(free[from..to], u) || InFree(free[to..], u)
  {
    CoversConcat(free[..from] + mid, free[to..], u);
    CoversConcat(free[..from], mid, u);
    CoversConcat(free[..from], free[from..], u);
    CoversConcat(free[from..to], free[to..], u);
    assert free == free[..from] + free[from..] && free[from..] == free[from..to] + free[to..];
  }

  lemma CoversConcat(a: seq<Block>, b: seq<Block>, u: int)
    ensures InFree(a + b, u) <==> InFree(a, u) || InFree(b, u)
  {
    if InFree(a, u) {
      var i :| 0 <= i < |a| && Covers(a[i], u);
      assert (a + b)[i] == a[i];
    }
    if InFree(b, u) {
      var i :| 0 <= i < |b| && Covers(b[i], u);
      assert (a + b)[|a| + i] == b[i];
    }
  }

  lemma CoversOne(b: Block, u: int)
    ensures InFree([b], u) <==> Covers(b, u)
    ensures !InFree([], u)
  {
    assert [b][0] == b;
  }

  // ----- Freeing -----

  /** The last block below a: where the search loop of kfree stops. */
  function Gap(free: seq<Block>, a: int): (i: nat)
    requires |free| > 0
    ensures i < |free|
    ensures i > 0 ==> free[i].addr < a
    ensures forall j :: i < j < |free| ==> a <= free[j].addr
  {
    if |free| == 1 || free[|free| - 1].addr < a then |free| - 1 else Gap(free[..|free| - 1], a)
  }

  /** b touches the block at the gap. */
  predicate Left(free: seq<Block>, b: Block)
    requires |free| > 0
  {
    End(free[Gap(free, b.addr)]) == b.addr
  }

  /** b touches the block after the gap. */
  predicate Right(free: seq<Block>, b: Block)
    requires |free| > 0
  {
    var i := Gap(free, b.addr);
    i + 1 < |free| && End(b) == free[i + 1].addr
  }

  /** The first block that the freed one absorbs, and the first one behind it that it does not. */
  function From(free: seq<Block>, b: Block): nat
    requires |free| > 0
  {
    Gap(free, b.addr) + if Left(free, b) then 0 else 1
  }

  function To(free: seq<Block>, b: Block): (r: nat)
    requires |free| > 0
    ensures From(free, b) <= r <= |free|
  {
    Gap(free, b.addr) + if Right(free, b) then 2 else 1
  }

  /** The block that b becomes. */
  function Merged(free: seq<Block>, b: Block): Block
    requires |free| > 0
  {
    var i := Gap(free, b.addr);
    Block(if Left(free, b) then free[i].addr else b.addr,
          (if Left(free, b) then free[i].size else 0) + b.size + (if Right(free, b) then free[i + 1].size else 0))
  }

  /** kfree: links b in behind its gap and merges it with whichever neighbours it touches. */
  function Coalesce(free: seq<Block>, b: Block): seq<Block>
    requires |free| > 0
  {
    Splice(free, From(free, b), [Merged(free, b)], To(free, b))
  }

  /** A region that may be freed: inside the heap and clear of every free block. */
  ghost predicate Freeable(free: seq<Block>, b: Block, top: int) {
    HEAP_START <= b.addr && b.size >= 1 && End(b) <= top && forall i :: 0 <= i < |free| ==> Apart(free[i], b)
  }

  /** Neighbours of the gap: the block before ends at or below b, the block after starts at or above. */
  lemma GapNeighbours(free: seq<Block>, b: Block, top: int)
    requires WellFormed(free, top) && Freeable(free, b, top)
    ensures var i := Gap(free, b.addr);
      End(free[i]) <= b.addr && (i + 1 < |free| ==> End(b) <= free[i + 1].addr)
  {
  }

  /** The merged block keeps a distance from its new neighbours: nothing is left to merge. */
  lemma MergedFits(free: seq<Block>, b: Block, top: int)
    requires WellFormed(free, top) && Freeable(free, b, top)
    ensures 1 <= From(free, b) && FitsBetween(free, From(free, b), [Merged(free, b)], To(free, b), top)
  {
    GapNeighbours(free, b, top);
    MergedAfter(free, b, top);
    MergedBefore(free, b, top);
  }

  lemma MergedAfter(free: seq<Block>, b: Block, top: int)
    requires WellFormed(free, top) && Freeable(free, b, top) && End(free[Gap(free, b.addr)]) <= b.addr
    ensures var m, from := Merged(free, b), From(free, b);
      1 <= from && HEAP_START <= m.addr <= b.addr && m.size >= b.size && End(free[from - 1]) < m.addr
  {
    var i := Gap(free, b.addr);
    assert i > 0 ==> End(free[i - 1]) < free[i].addr;
    assert Right(free, b) ==> free[i + 1].size >= 1;
  }

  lemma MergedBefore(free: seq<Block>, b: Block, top: int)
    requires WellFormed(free, top) && Freeable(free, b, top)
    requires var i := Gap(free, b.addr); i + 1 < |free| ==> End(b) <= free[i + 1].addr
    ensures var m, to := Merged(free, b), To(free, b);
      End(m) <= top && (to < |free| ==> End(m) < free[to].addr)
  {
    var i := Gap(free, b.addr);
    if Right(free, b) {
      assert i + 2 < |free| ==> End(free[i + 1]) < free[i + 2].addr;
    }
  }

  lemma MergedCovers(free: seq<Block>, b: Block, top: int, u: int)
    requires WellFormed(free, top) && Freeable(free, b, top)
    ensures Covers(Merged(free, b), u) <==> Covers(b, u) || InFree(free[From(free, b)..To(free, b)], u)
  {
    var i := Gap(free, b.addr);
    var l := if Left(free, b) then [free[i]] else [];
    var r := if Right(free, b) then [free[i + 1]] else [];
    assert free[From(free, b)..To(free, b)] == l + r;
    CoversConcat(l, r, u);
    CoversOne(free[i], u);
    if Right(free, b) {
      assert free[i + 1].size >= 1;
      CoversOne(free[i + 1], u);
    }
    assert free[i].size >= 0;
  }

  /** kfree keeps the list ordered and fully coalesced. */
  lemma CoalesceKeepsOrder(free: seq<Block>, b: Block, top: int)
    requires WellFormed(free, top) && Freeable(free, b, top)
    ensures WellFormed(Coalesce(free, b), top)
  {
    MergedFits(free, b, top);
    SpliceKeepsOrder(free, From(free, b), [Merged(free, b)], To(free, b), top);
  }

  /** kfree adds exactly the freed region to the free space. */
  lemma CoalesceCovers(free: seq<Block>, b: Block, top: int, u: int)
    requires WellFormed(free, top) && Freeable(free, b, top)
    ensures InFree(Coalesce(free, b), u) <==> InFree(free, u) || Covers(b, u)
  {
    SpliceCovers(free, From(free, b), [Merged(free, b)], To(free, b), u);
    CoversOne(Merged(free, b), u);
    MergedCovers(free, b, top, u);
  }

  // ----- Carving -----

  /** kalloc takes a block that fits exactly off the list and otherwise cuts the tail off. */
  function Carve(free: seq<Block>, i: nat, n: int): seq<Block>
    requires i < |free|
  {
    if free[i].size == n then free[..i] + free[i + 1..] else free[i := Block(free[i].addr, free[i].size - n)]
  }

  /** The region it hands out. */
  function Carved(free: seq<Block>, i: nat, n: int): Block
    requires i < |free|
  {
    Block(End(free[i]) - n, n)
  }

  lemma CarveIsSplice(free: seq<Block>, i: nat, n: int)
    requires i < |free|
    ensures Carve(free, i, n) ==
      Splice(free, i, if free[i].size == n then [] else [Block(free[i].addr, free[i].size - n)], i + 1)
  {
  }

  /** kalloc keeps the list well-formed, and what it hands out is clear of the rest. */
  lemma CarveKeepsOrder(free: seq<Block>, i: nat, n: int, top: int)
    requires WellFormed(free, top) && i < |free| && 1 <= n <= free[i].size
    ensures i > 0 && WellFormed(Carve(free, i, n), top) && Freeable(Carve(free, i, n), Carved(free, i, n), top)
  {
    CarveIsSplice(free, i, n);
    var mid := if free[i].size == n then [] else [Block(free[i].addr, free[i].size - n)];
    SpliceKeepsOrder(free, i, mid, i + 1, top);
    forall j | 0 <= j < |Carve(free, i, n)| ensures Apart(Carve(free, i, n)[j], Carved(free, i, n)) {
      SpliceAt(free, i, mid, i + 1, j);
    }
  }

  lemma CarveCovers(free: seq<Block>, i: nat, n: int, top: int, u: int)
    requires WellFormed(free, top) && i < |free| && 1 <= n <= free[i].size
    ensures InFree(free, u) <==> InFree(Carve(free, i, n), u) || Covers(Carved(free, i, n), u)
  {
    CarveIsSplice(free, i, n);
    var mid := if free[i].size == n then [] else [Block(free[i].addr, free[i].size - n)];
    SpliceCovers(free, i, mid, i + 1, u);
    assert free[i..i + 1] == [free[i]];
    CoversOne(free[i], u);
    CoversOne(Block(free[i].addr, free[i].size - n), u);
  }
}
