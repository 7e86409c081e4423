/** The heap with its accounting as a value, and what one call does to it. */
module Heap {
  import opened Machine
  import opened Headers
  import opened Blocks
  import opened BlockLaws

  const TOTAL_MEMORY := MEMORY_END - MEMORY_START

  /** Largest request that word alignment does not wrap to zero. */
  const MAX_REQUEST := 0xFFFF_FFFC

  datatype Heap = Heap(
    blocks: seq<Block>,
    allocations: Word,
    frees: Word,
    current: Word,
    peak: Word,
    freeMemory: Word)

  const FRESH := Heap(INITIAL, 0, 0, 0, 0, TOTAL_MEMORY)

  /** `align_address(n, alignment)` for a power of two, where masking the low bits rounds down. */
  function AlignAddress(n: Word, alignment: Word): (r: Word)
    requires alignment > 0
  {
    var s := Add32(n, alignment - 1);
    s - s % alignment
  }

  /** Rounding up to a multiple of four loses at most three bytes, and covers the request unless the
      32-bit addition wraps. */
  lemma AlignSpec(n: Word)
    ensures AlignAddress(n, 4) % 4 == 0
    ensures n <= MAX_REQUEST <==> n <= AlignAddress(n, 4)
    ensures n <= MAX_REQUEST ==> AlignAddress(n, 4) <= n + 3
    ensures n > MAX_REQUEST ==> AlignAddress(n, 4) == 0
  {
  }

  /** Gives out the first free block with `n` bytes, if there is one, and counts it. */
  function Grant(h: Heap, n: Word): (r: Heap) {
    var k := FirstFit(h.blocks, n);
    if k == |h.blocks| then h else
      var s := Granted(h.blocks[k], n).size;
      var current := Add32(h.current, s);
      Heap(Alloc(h.blocks, n), Add32(h.allocations, 1), h.frees, current,
           if current > h.peak then current else h.peak, Sub32(h.freeMemory, s))
  }

  function Malloc(h: Heap, size: Word): (r: Heap) {
    if size == 0 then h else Grant(h, AlignAddress(size, 4))
  }

  function MallocPtr(h: Heap, size: Word): (p: int) {
    if size == 0 then 0 else AllocPtr(h.blocks, AlignAddress(size, 4))
  }

  function Free(h: Heap, p: int): (r: Heap) {
    var k := Find(h.blocks, p);
    if k == |h.blocks| || h.blocks[k].free then h else
      var s := h.blocks[k].size;
      Heap(Release(h.blocks, p), h.allocations, Add32(h.frees, 1), Sub32(h.current, s), h.peak, Add32(h.freeMemory, s))
  }

  /** Size recorded in the header of the block at `p`, free or not; 0 if there is none. */
  function BlockSize(h: Heap, p: int): (n: int) {
    var k := Find(h.blocks, p);
    if k == |h.blocks| then 0 else h.blocks[k].size
  }

  function Realloc(h: Heap, p: int, size: Word): (r: Heap) {
    if p == 0 then Malloc(h, size)
    else if size == 0 then Free(h, p)
    else if MallocPtr(h, size) != 0 && BlockSize(h, p) > 0 then Free(Malloc(h, size), p)
    else Malloc(h, size)
  }

  function ReallocPtr(h: Heap, p: int, size: Word): (q: int) {
    if p != 0 && size == 0 then 0 else MallocPtr(h, size)
  }

  // ------------------------------------------------------------------ the invariant

  /** The list is well formed and every counter equals what it is meant to count. */
  ghost predicate Sound(h: Heap) {
    && WellFormed(h.blocks)
    && Aligned(h.blocks)
    && Tallied(h)
  }

  ghost predicate Tallied(h: Heap) {
    && h.current == Bytes(h.blocks, false)
    && h.freeMemory == Bytes(h.blocks, true) + HEADER * |h.blocks|
    && h.current + h.freeMemory == TOTAL_MEMORY
    && h.current <= h.peak
    && Sub32(h.allocations, h.frees) == Count(h.blocks, false)
  }

  lemma FreshSound()
    ensures Sound(FRESH)
  {
    InitialWellFormed();
    assert INITIAL[1..] == [];
  }

  lemma LiveBytesBound(bs: seq<Block>)
    requires WellFormed(bs)
    ensures 0 <= Bytes(bs, false) <= TOTAL_MEMORY
    ensures Count(bs, false) <= TOTAL_MEMORY
  {
    BytesConserved(bs, MEMORY_START, MEMORY_END);
    BytesNonNegative(bs, MEMORY_START, MEMORY_END, false);
    BytesNonNegative(bs, MEMORY_START, MEMORY_END, true);
    CountBound(bs, MEMORY_START, MEMORY_END);
  }

  lemma {:induction false} CountBound(bs: seq<Block>, lo: int, hi: int)
    requires Tiled(bs, lo, hi)
    ensures HEADER * Count(bs, false) <= hi - lo
    decreases |bs|
  {
    if bs != [] {
      CountBound(bs[1..], bs[0].End(), hi);
    }
  }

  lemma GrantSound(h: Heap, n: Word)
    requires Sound(h) && n % 4 == 0
    ensures Sound(Grant(h, n))
  {
    var k := FirstFit(h.blocks, n);
    AllocWellFormed(h.blocks, n);
    AllocAligned(h.blocks, n);
    if k < |h.blocks| {
      AllocTally(h.blocks, n);
      LiveBytesBound(Alloc(h.blocks, n));
      BytesConserved(Alloc(h.blocks, n), MEMORY_START, MEMORY_END);
      CounterDistance(h.allocations, h.frees);
    }
  }

  lemma MallocSound(h: Heap, size: Word)
    requires Sound(h)
    ensures Sound(Malloc(h, size))
  {
    AlignSpec(size);
    GrantSound(h, AlignAddress(size, 4));
  }

  lemma FreeSound(h: Heap, p: int)
    requires Sound(h)
    ensures Sound(Free(h, p))
  {
    var k := Find(h.blocks, p);
    ReleaseWellFormed(h.blocks, p);
    ReleaseAligned(h.blocks, p);
    if k < |h.blocks| && !h.blocks[k].free {
      ReleaseTally(h.blocks, p);
      LiveBytesBound(Release(h.blocks, p));
      BytesConserved(Release(h.blocks, p), MEMORY_START, MEMORY_END);
      TiledAt(h.blocks, MEMORY_START, MEMORY_END, k);
      CounterDistance(h.allocations, h.frees);
    }
  }

  lemma ReallocSound(h: Heap, p: int, size: Word)
    requires Sound(h) && CopyFits(h, p, size)
    ensures Sound(Realloc(h, p, size))
  {
    MallocSound(h, size);
    FreeSound(h, p);
    FreeSound(Malloc(h, size), p);
  }

  // ------------------------------------------------------------------ what callers observe

  /** The block given out for `n` bytes. */
  function Given(h: Heap, n: Word): (g: Block)
    requires AllocPtr(h.blocks, n) != 0
  {
    Granted(h.blocks[FirstFit(h.blocks, n)], n)
  }

  /** The block given out is new and overlaps no live block. */
  lemma GrantGives(h: Heap, n: Word)
    requires WellFormed(h.blocks) && AllocPtr(h.blocks, n) != 0
    ensures var g := Given(h, n);
      && Live(Grant(h, n).blocks) == Live(h.blocks) + {g}
      && g.addr == AllocPtr(h.blocks, n) && n <= g.size <= n + HEADER
      && MEMORY_START <= g.Start() && g.End() <= MEMORY_END
      && forall b :: b in Live(h.blocks) ==> b.End() <= g.Start() || g.End() <= b.Start()
  {
    var k := FirstFit(h.blocks, n);
    AllocLive(h.blocks, n);
    TiledAt(h.blocks, MEMORY_START, MEMORY_END, k);
    FreeBlockIsGap(h.blocks, k);
  }

  /** `kmalloc` for a caller who knows only the live allocations: it fails, changing nothing, exactly when
      nothing is asked for or no gap has room for a header and the rounded request; else it takes the lowest
      such gap. */
  lemma MallocSpec(h: Heap, size: Word)
    requires Sound(h)
    ensures var p, n := MallocPtr(h, size), AlignAddress(size, 4);
      && (p == 0 <==> size == 0 || forall lo, hi :: !RoomyGap(Live(h.blocks), lo, hi, n))
      && (p == 0 ==> Malloc(h, size) == h)
      && (p != 0 ==>
            && RoomyGapAt(Live(h.blocks), p - HEADER, n)
            && forall lo, hi :: RoomyGap(Live(h.blocks), lo, hi, n) ==> p - HEADER <= lo)
  {
    NullMeansNoFit(h.blocks, AlignAddress(size, 4));
    AllocIsLowestGap(h.blocks, AlignAddress(size, 4));
  }

  /** The new block is the only change to the live set and overlaps no live block. It covers the request
      exactly when the request is not within three bytes of 2^32, and is then at most 23 bytes larger. */
  lemma MallocGives(h: Heap, size: Word)
    requires Sound(h) && MallocPtr(h, size) != 0
    ensures var g := Given(h, AlignAddress(size, 4));
      && Live(Malloc(h, size).blocks) == Live(h.blocks) + {g}
      && g.addr == MallocPtr(h, size)
      && (g.size >= size <==> size <= MAX_REQUEST)
      && (size <= MAX_REQUEST ==> g.size <= size + 23)
      && forall b :: b in Live(h.blocks) ==> b.End() <= g.Start() || g.End() <= b.Start()
  {
    AlignSpec(size);
    GrantGives(h, AlignAddress(size, 4));
  }

  /** How large the new block is: the rounded request when more than a header would be left of the gap,
      else all of the gap. */
  lemma GivenSize(h: Heap, size: Word, hi: int)
    requires Sound(h) && MallocPtr(h, size) != 0 && Gap(Live(h.blocks), MallocPtr(h, size) - 20, hi)
    ensures var p, n := MallocPtr(h, size), AlignAddress(size, 4);
      Given(h, n) == Block(p, if hi - p > n + 20 then n else hi - p, false)
  {
    var k := FirstFit(h.blocks, AlignAddress(size, 4));
    var b := h.blocks[k];
    FreeBlockIsGap(h.blocks, k);
    GapEnds(h.blocks, b.Start(), hi, b.End());
    GapEnds(h.blocks, b.Start(), b.End(), hi);
  }

  /** `kcalloc` multiplies in 32 bits: its block has room for `count * size` bytes exactly when the true
      product is at most 0xFFFFFFFC. */
  lemma CallocCovers(h: Heap, count: Word, size: Word)
    requires Sound(h) && MallocPtr(h, Wrap(count * size)) != 0
    ensures Given(h, AlignAddress(Wrap(count * size), 4)).size >= count * size <==> count * size <= MAX_REQUEST
  {
    var total := Wrap(count * size);
    AlignSpec(total);
    GrantGives(h, AlignAddress(total, 4));
    ProductNonNegative(count, size);
  }

  lemma ProductNonNegative(a: nat, b: nat)
    ensures 0 <= a * b
  {
  }

  /** 65536 elements of 65537 bytes need more than 4 GB; the product wraps to 65536 and succeeds. */
  lemma CallocWrapExample()
    ensures Wrap(0x1_0000 * 0x1_0001) == 0x1_0000
    ensures MallocPtr(FRESH, 0x1_0000) == 0x10_0014
    ensures Given(FRESH, AlignAddress(0x1_0000, 4)).size == 0x1_0000
  {
  }

  /** `krealloc` of a live block to a non-zero size whose copy fits: NULL with nothing changed, or one new live
      block, which replaces the old one exactly if that was not empty; an empty block is leaked. */
  lemma ReallocLive(h: Heap, b: Block, size: Word)
    requires Sound(h) && b in Live(h.blocks) && size > 0 && CopyFits(h, b.addr, size)
    ensures var q, live := ReallocPtr(h, b.addr, size), Live(Realloc(h, b.addr, size).blocks);
      && (q == 0 ==> Realloc(h, b.addr, size) == h)
      && (q != 0 ==>
            var g := Given(h, AlignAddress(size, 4));
            && g.addr == q != b.addr && g !in Live(h.blocks)
            && (b.size > 0 ==> live == Live(h.blocks) - {b} + {g})
            && (b.size == 0 ==> live == Live(h.blocks) + {g}))
  {
    var n := AlignAddress(size, 4);
    LiveAt(h.blocks, b);
    NullMeansNoFit(h.blocks, n);
    if AllocPtr(h.blocks, n) != 0 {
      GrantGives(h, n);
      MallocSound(h, size);
      ReplaceLive(Grant(h, n).blocks, Live(h.blocks), b, Given(h, n));
    }
  }

  const EMPTY_BLOCK := Block(MEMORY_START + HEADER, 0, false)

  const EMPTY_AND_REST := [EMPTY_BLOCK, Block(MEMORY_START + 2 * HEADER, TOTAL_MEMORY - 2 * HEADER, true)]

  lemma EmptyBlockAllocated()
    ensures Alloc(INITIAL, 0) == EMPTY_AND_REST
    ensures AllocPtr(EMPTY_AND_REST, 4) == MEMORY_START + 2 * HEADER
  {
    assert FirstFit(EMPTY_AND_REST, 4) == 1;
  }

  lemma EmptyBlockFromFresh()
    ensures Malloc(FRESH, 0xFFFF_FFFD).blocks == EMPTY_AND_REST
    ensures MallocPtr(Malloc(FRESH, 0xFFFF_FFFD), 4) == MEMORY_START + 2 * HEADER
  {
    hide Malloc, Alloc, AllocPtr, AlignAddress;
    EmptyBlockAllocated();
    AlignSpec(0xFFFF_FFFD);
    AlignSpec(4);
    MallocBlocks(FRESH, 0xFFFF_FFFD);
  }

  lemma MallocBlocks(h: Heap, size: Word)
    requires size > 0
    ensures Malloc(h, size).blocks == Alloc(h.blocks, AlignAddress(size, 4))
  {
  }

  /** A request of 2^32 - 3 bytes gives an empty block on the fresh heap, and `krealloc` then leaks it. */
  lemma LeakExample()
    ensures var h := Malloc(FRESH, 0xFFFF_FFFD);
      && EMPTY_BLOCK in Live(h.blocks) && ReallocPtr(h, EMPTY_BLOCK.addr, 4) != 0
      && EMPTY_BLOCK in Live(Realloc(h, EMPTY_BLOCK.addr, 4).blocks)
  {
    var h := Malloc(FRESH, 0xFFFF_FFFD);
    EmptyBlockFromFresh();
    FreshSound();
    MallocSound(FRESH, 0xFFFF_FFFD);
    hide Malloc, Realloc, AlignAddress, AllocPtr, Sound, FirstFit;
    assert h.blocks[0] == EMPTY_BLOCK;
    ReallocLive(h, EMPTY_BLOCK, 4);
  }

  lemma ReplaceLive(bs: seq<Block>, live: set<Block>, b: Block, g: Block)
    requires WellFormed(bs) && Live(bs) == live + {g} && b in live
    requires b.End() <= g.Start() || g.End() <= b.Start()
    ensures Find(bs, b.addr) < |bs| && !bs[Find(bs, b.addr)].free
    ensures Live(Release(bs, b.addr)) == live - {b} + {g} && b.addr != g.addr
  {
    ReleaseLive(bs, b.addr);
    LiveAddresses(bs);
    LiveAt(bs, b);
    LiveAt(bs, g);
  }

  /** A live block is found at its address. */
  lemma LiveAt(bs: seq<Block>, b: Block)
    requires WellFormed(bs) && b in Live(bs)
    ensures Find(bs, b.addr) < |bs| && bs[Find(bs, b.addr)] == b
    ensures MEMORY_START + HEADER <= b.addr && 0 <= b.size && b.End() <= MEMORY_END
  {
    var i :| 0 <= i < |bs| && bs[i] == b;
    var k := Find(bs, b.addr);
    TiledAt(bs, MEMORY_START, MEMORY_END, i);
    if i != k {
      AddressesDiffer(bs, i, k);
    }
  }

  lemma LiveAddresses(bs: seq<Block>)
    requires WellFormed(bs)
    ensures forall b, c :: b in Live(bs) && c in Live(bs) && b.addr == c.addr ==> b == c
  {
    forall b, c | b in Live(bs) && c in Live(bs) && b.addr == c.addr ensures b == c {
      LiveAt(bs, b);
      LiveAt(bs, c);
    }
  }

  /** A successful `kmalloc` undone by `kfree`: block list and byte counts are exactly as before. */
  lemma MallocThenFree(h: Heap, size: Word)
    requires Sound(h) && MallocPtr(h, size) != 0
    ensures var r := Free(Malloc(h, size), MallocPtr(h, size));
      r.blocks == h.blocks && r.current == h.current && r.freeMemory == h.freeMemory
  {
    var n, p := AlignAddress(size, 4), MallocPtr(h, size);
    var m := Malloc(h, size);
    AllocThenRelease(h.blocks, n);
    MallocSound(h, size);
    GrantGives(h, n);
    LiveAt(m.blocks, Given(h, n));
    FreeSound(m, p);
  }

  // ------------------------------------------------------------------ what may be written

  /** `kcalloc` may zero `total` bytes: it got no block, or the request did not wrap to 0 in alignment. */
  predicate ZeroingFits(h: Heap, total: Word) {
    MallocPtr(h, total) == 0 || total <= MAX_REQUEST
  }

  /** `krealloc` may copy: likewise, or the whole old block fits the new one all the same. */
  predicate CopyFits(h: Heap, p: int, size: Word) {
    p == 0 || size <= MAX_REQUEST || MallocPtr(h, size) == 0
    || BlockSize(h, p) <= Given(h, AlignAddress(size, 4)).size
  }

  /** Bytes `krealloc` copies. */
  function CopySize(h: Heap, p: int, size: Word): (n: int) {
    if BlockSize(h, p) < size then BlockSize(h, p) else size
  }

  /** These guards hold exactly when the bytes written fit the block given out, so beyond them the source
      overwrites what lies behind it. */
  lemma WritesFitExactly(h: Heap, p: int, size: Word)
    requires Sound(h) && MallocPtr(h, size) != 0
    ensures var room := Given(h, AlignAddress(size, 4)).size;
      && (ZeroingFits(h, size) <==> size <= room)
      && (p != 0 ==> (CopyFits(h, p, size) <==> CopySize(h, p, size) <= room))
  {
    MallocGives(h, size);
    BlockSizeBound(h, p);
  }

  /** Any live block of more than 20 bytes is too large for the copy when the size wraps to 0. */
  lemma LargeCopyOverruns(h: Heap, b: Block, size: Word)
    requires Sound(h) && b in Live(h.blocks) && b.size > HEADER && size > MAX_REQUEST && MallocPtr(h, size) != 0
    ensures !CopyFits(h, b.addr, size)
    ensures Given(h, AlignAddress(size, 4)).size <= HEADER < CopySize(h, b.addr, size)
  {
    LiveAt(h.blocks, b);
    AlignSpec(size);
    GrantGives(h, AlignAddress(size, 4));
  }

  lemma BlockSizeBound(h: Heap, p: int)
    requires Sound(h)
    ensures 0 <= BlockSize(h, p) <= TOTAL_MEMORY
  {
    var k := Find(h.blocks, p);
    if k < |h.blocks| {
      TiledAt(h.blocks, MEMORY_START, MEMORY_END, k);
    }
  }

  lemma CopyRanges(h: Heap, p: int, size: Word)
    requires Sound(h) && MallocPtr(h, size) != 0 && BlockSize(h, p) > 0
    ensures var q := MallocPtr(h, size);
      && 0 <= p && p + BlockSize(h, p) <= MEMORY_END
      && (q <= p || p + BlockSize(h, p) <= q)
  {
    var j, k := Find(h.blocks, p), FirstFit(h.blocks, AlignAddress(size, 4));
    TiledAt(h.blocks, MEMORY_START, MEMORY_END, j);
    if j < k {
      TiledApart(h.blocks, MEMORY_START, MEMORY_END, j, k);
    } else if k < j {
      TiledApart(h.blocks, MEMORY_START, MEMORY_END, k, j);
    }
  }

  /** List, allocation count and peak determine the rest. */
  lemma SoundDetermined(a: Heap, b: Heap)
    requires Sound(a) && Sound(b) && a.blocks == b.blocks && a.allocations == b.allocations && a.peak == b.peak
    ensures a == b
  {
  }

  lemma FreeParts(h: Heap, p: int)
    requires Sound(h)
    ensures Sound(Free(h, p)) && Free(h, p).blocks == Release(h.blocks, p)
    ensures Free(h, p).allocations == h.allocations && Free(h, p).peak == h.peak
  {
    FreeSound(h, p);
  }

  /** The order of two frees does not matter, counters included. */
  lemma FreesCommute(h: Heap, p: int, q: int)
    requires Sound(h)
    ensures Free(Free(h, p), q) == Free(Free(h, q), p)
  {
    hide Free, Release, Sound;
    FreeParts(h, p);
    FreeParts(h, q);
    FreeParts(Free(h, p), q);
    FreeParts(Free(h, q), p);
    assert WellFormed(h.blocks) by { SoundWellFormed(h); }
    ReleaseCommutes(h.blocks, p, q);
    SoundDetermined(Free(Free(h, p), q), Free(Free(h, q), p));
  }

  lemma SoundWellFormed(h: Heap)
    requires Sound(h)
    ensures WellFormed(h.blocks)
  {
  }
}
