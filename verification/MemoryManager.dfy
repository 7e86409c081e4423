/** The allocator of kernel/memory.c, working on headers inside byte-addressed memory. */
module Memory {
  import opened Machine
  import opened Headers
  import opened Blocks
  import opened BlockLaws
  import opened HeapLayout
  import opened Heap
  import opened HeapRuns
  import opened HeapContents

  class MemoryManager {
    var ram: seq<Byte>
    var initialized: bool
    var freeList: Word
    var freeMemory: Word
    var totalAllocations: Word
    var totalFrees: Word
    var currentAllocated: Word
    var peakAllocated: Word

    /** The blocks the linked headers in `ram` stand for. */
    ghost var blocks: seq<Block>

    /** The heap as a value. */
    ghost function View(): Heap
      reads this
    {
      Heap(blocks, totalAllocations, totalFrees, currentAllocated, peakAllocated, freeMemory)
    }

    /** The list in memory starting at `freeList` is `blocks`, which tile the managed range. */
    ghost predicate ListValid()
      reads this
    {
      Represents(ram, blocks) && Tiled(blocks, MEMORY_START, MEMORY_END) && freeList == Ptr(blocks, 0)
    }

    ghost predicate Valid()
      reads this
    {
      if initialized then ListValid() && Sound(View())
      else blocks == [] && freeList == 0
    }

    /** The state at power-on: any memory contents, all globals zero. */
    constructor (memory: seq<Byte>)
      requires |memory| == MEMORY_END
      ensures Valid() && !initialized && ram == memory
    {
      ram := memory;
      initialized := false;
      freeList, freeMemory := 0, 0;
      totalAllocations, totalFrees, currentAllocated, peakAllocated := 0, 0, 0, 0;
      blocks := [];
    }

    /** Fills in a new header, field by field. */
    method WriteHeader(h: Word, address: Word, size: Word, isFree: bool, next: Word, prev: Word)
      requires Fits(ram, h)
      modifies this`ram
      ensures SameOutside(old(ram), ram, h, h + HEADER)
      ensures Load(ram, h) == Header(address, size, isFree, next, prev)
    {
      ram := StoreAddress(ram, h, address);
      ram := StoreSize(ram, h, size);
      ram := StoreIsFree(ram, h, isFree);
      ram := StoreNext(ram, h, next);
      ram := StorePrev(ram, h, prev);
    }

    /** `init_memory_manager`, heap part. */
    method Init()
      requires |ram| == MEMORY_END
      modifies this
      ensures Valid() && initialized && View() == FRESH
      ensures Untouched({}, old(ram), ram)
    {
      freeMemory := TOTAL_MEMORY;
      totalAllocations, totalFrees, currentAllocated, peakAllocated := 0, 0, 0, 0;
      WriteHeader(MEMORY_START, MEMORY_START + HEADER, TOTAL_MEMORY - HEADER, true, 0, 0);
      freeList := MEMORY_START;
      initialized := true;
      blocks := INITIAL;
      FreshSound();
      WriteUnprotected(INITIAL, 0, old(ram), ram, MEMORY_START, MEMORY_START + HEADER);
      assert Live(INITIAL) == {};
      assert Linked(At(ram), blocks, 0);
    }

    /** A header pointer obtained from the list is the header of its block. */
    lemma AtBlock(i: nat)
      requires ListValid() && i < |blocks|
      ensures Ptr(blocks, i) != 0 && Fits(ram, Ptr(blocks, i))
      ensures HeaderIs(Load(ram, Ptr(blocks, i)), blocks[i], Ptr(blocks, i + 1), Ptr(blocks, i - 1))
    {
      TiledAt(blocks, MEMORY_START, MEMORY_END, i);
      assert Linked(At(ram), blocks, i);
    }

    /** The split in `kmalloc`: block `k` keeps `n` bytes, the rest becomes a new free block behind it. */
    method Split(current: Word, n: Word, ghost k: nat)
      requires ListValid() && k < |blocks| && current == Ptr(blocks, k)
      requires blocks[k].free && blocks[k].size > n + HEADER
      modifies this`ram, this`blocks
      ensures ListValid()
      ensures blocks == old(blocks[..k] + Halves(blocks[k], n) + blocks[k + 1..])
      ensures Untouched(Live(old(blocks)), old(ram), ram)
    {
      hide Load;
      ghost var bs, r0 := blocks, ram;
      AtBlock(k);
      TiledAt(bs, MEMORY_START, MEMORY_END, k);
      var newBlock := Add32(Load(ram, current).address, n);
      var next := Load(ram, current).next;
      var rest := Sub32(Sub32(Load(ram, current).size, n), HEADER);
      WriteHeader(newBlock, Add32(newBlock, HEADER), rest, true, next, current);
      FreePayloadWrite(bs, k, r0, ram, newBlock, newBlock + HEADER);
      assert k + 1 < |bs| ==> Linked(At(ram), bs, k + 1) && next == bs[k + 1].Start();
      LinkIn(current, newBlock, next, n, k);
      SplitLinks(At(r0), At(ram), bs, k, n);
      blocks := bs[..k] + Halves(bs[k], n) + bs[k + 1..];
      HalvesTiled(bs, k, n);
    }

    /** `h->prev = v` for a header of the list. */
    method SetPrev(h: Word, v: Word, ghost k: nat)
      requires |ram| == MEMORY_END && Tiled(blocks, MEMORY_START, MEMORY_END) && k < |blocks| && h == blocks[k].Start()
      modifies this`ram
      ensures SameOutside(old(ram), ram, h, h + HEADER) && Untouched(Live(blocks), old(ram), ram)
      ensures At(ram)(h) == old(At(ram)(h)).(prev := v)
      ensures OthersKept(blocks, {k}, At(old(ram)), At(ram))
    {
      ghost var r0 := ram;
      TiledAt(blocks, MEMORY_START, MEMORY_END, k);
      ram := StorePrev(ram, h, v);
      HeaderWrite(blocks, k, r0, ram);
    }

    /** `h->next = next; h->size = size` for a header of the list. */
    method SetNextAndSize(h: Word, next: Word, size: Word, ghost k: nat)
      requires |ram| == MEMORY_END && Tiled(blocks, MEMORY_START, MEMORY_END) && k < |blocks| && h == blocks[k].Start()
      modifies this`ram
      ensures SameOutside(old(ram), ram, h, h + HEADER) && Untouched(Live(blocks), old(ram), ram)
      ensures At(ram)(h) == old(At(ram)(h)).(next := next, size := size)
      ensures OthersKept(blocks, {k}, At(old(ram)), At(ram))
    {
      ghost var r0 := ram;
      TiledAt(blocks, MEMORY_START, MEMORY_END, k);
      ram := StoreNext(ram, h, next);
      ram := StoreSize(ram, h, size);
      HeaderWrite(blocks, k, r0, ram);
    }

    /** The link updates of the split: the successor points back at the new header, and block `k` points
        at it and shrinks. */
    method LinkIn(current: Word, newBlock: Word, next: Word, n: Word, ghost k: nat)
      requires ListValid() && k < |blocks| && current == Ptr(blocks, k) && next == Ptr(blocks, k + 1)
      requires blocks[k].addr <= newBlock && newBlock + HEADER <= blocks[k].End()
      modifies this`ram
      ensures |ram| == MEMORY_END && Untouched(Live(blocks), old(ram), ram)
      ensures At(ram)(newBlock) == old(At(ram)(newBlock))
      ensures At(ram)(current) == old(At(ram)(current)).(next := newBlock, size := n)
      ensures k + 1 < |blocks| ==> At(ram)(next) == old(At(ram)(next)).(prev := newBlock)
      ensures OthersKept(blocks, {k, k + 1}, At(old(ram)), At(ram))
    {
      hide Load;
      TiledAt(blocks, MEMORY_START, MEMORY_END, k);
      if next != 0 {
        TiledAt(blocks, MEMORY_START, MEMORY_END, k + 1);
        SetPrev(next, newBlock, k + 1);
        LoadFrame(old(ram), ram, next, next + HEADER, newBlock);
      }
      ghost var r1 := ram;
      SetNextAndSize(current, newBlock, n, k);
      LoadFrame(r1, ram, current, current + HEADER, newBlock);
    }

    /** `h->is_free = v` for block `k` of the list. */
    method SetIsFree(h: Word, v: bool, ghost k: nat)
      requires ListValid() && k < |blocks| && h == Ptr(blocks, k)
      modifies this`ram, this`blocks
      ensures ListValid() && blocks == old(blocks)[k := old(blocks)[k].(free := v)]
      ensures Untouched(Live(old(blocks)), old(ram), ram)
    {
      hide Load;
      ghost var bs, r0 := blocks, ram;
      AtBlock(k);
      ram := StoreIsFree(ram, h, v);
      HeaderWrite(bs, k, r0, ram);
      FlipLinks(At(r0), At(ram), bs, k, v);
      blocks := bs[k := bs[k].(free := v)];
      FlipTiled(bs, k, v);
    }

    /** `kmalloc`: first fit, split, mark, count. */
    method Kmalloc(size: Word) returns (p: Word)
      requires Valid()
      modifies this
      ensures Valid() && initialized == old(initialized)
      ensures View() == Malloc(old(View()), size)
      ensures p == MallocPtr(old(View()), size)
      ensures Untouched(Live(old(blocks)), old(ram), ram)
    {
      hide Load;
      if !initialized || size == 0 {
        return 0;
      }
      MallocSound(View(), size);
      var alignedSize := AlignAddress(size, 4);
      var current := freeList;
      ghost var i := 0;
      while current != 0
        invariant Valid() && initialized && View() == old(View()) && ram == old(ram)
        invariant i <= |blocks| && current == Ptr(blocks, i)
        invariant forall j :: 0 <= j < i ==> !Suits(blocks[j], alignedSize)
        decreases |blocks| - i
      {
        AtBlock(i);
        if Load(ram, current).isFree && Load(ram, current).size >= alignedSize {
          FirstFitIs(blocks, alignedSize, i);
          p := Take(current, alignedSize, i);
          return;
        }
        current := Load(ram, current).next;
        i := i + 1;
      }
      assert i == |blocks| by {
        if i < |blocks| { AtBlock(i); }
      }
      FirstFitIs(blocks, alignedSize, i);
      return 0;
    }

    /** Block `k` becomes a live block of at least `n` bytes. */
    method CarveOut(current: Word, n: Word, ghost k: nat)
      requires ListValid() && k < |blocks| && current == Ptr(blocks, k) && k == FirstFit(blocks, n)
      modifies this`ram, this`blocks
      ensures ListValid() && blocks == Alloc(old(blocks), n)
      ensures Untouched(Live(old(blocks)), old(ram), ram)
    {
      hide Load;
      ghost var bs := blocks;
      AtBlock(k);
      TiledAt(bs, MEMORY_START, MEMORY_END, k);
      if Load(ram, current).size > Add32(n, HEADER) {
        Split(current, n, k);
        HalvesLive(bs, k, n);
      }
      ghost var r1 := ram;
      SetIsFree(current, false, k);
      UntouchedTrans(Live(bs), old(ram), r1, ram);
      assert blocks == Alloc(bs, n);
    }

    /** Gives out block `k`, the first that fits. */
    method Take(current: Word, n: Word, ghost k: nat) returns (p: Word)
      requires ListValid() && k < |blocks| && current == Ptr(blocks, k) && k == FirstFit(blocks, n)
      modifies this`ram, this`blocks, this`totalAllocations, this`currentAllocated, this`peakAllocated, this`freeMemory
      ensures ListValid() && View() == Grant(old(View()), n) && p == old(blocks)[k].addr
      ensures Untouched(Live(old(blocks)), old(ram), ram)
    {
      hide Load;
      CarveOut(current, n, k);
      assert blocks[k] == Granted(old(blocks)[k], n);
      AtBlock(k);
      totalAllocations := Add32(totalAllocations, 1);
      currentAllocated := Add32(currentAllocated, Load(ram, current).size);
      if currentAllocated > peakAllocated {
        peakAllocated := currentAllocated;
      }
      freeMemory := Sub32(freeMemory, Load(ram, current).size);
      return Load(ram, current).address;
    }

    /** The merge in `compact_free_blocks`: block `k` takes over its successor. */
    method MergeNext(current: Word, toRemove: Word, ghost k: nat)
      requires ListValid() && k + 1 < |blocks| && current == Ptr(blocks, k) && toRemove == Ptr(blocks, k + 1)
      requires blocks[k].free && blocks[k + 1].free
      modifies this`ram, this`blocks
      ensures ListValid()
      ensures blocks == old(blocks[..k] + [Merge(blocks[k], blocks[k + 1])] + blocks[k + 2..])
      ensures Untouched(Live(old(blocks)), old(ram), ram)
    {
      hide Load;
      ghost var bs, r0 := blocks, ram;
      AtBlock(k);
      AtBlock(k + 1);
      MergeTiled(bs, k);
      var size := Add32(Load(ram, current).size, Add32(Load(ram, toRemove).size, HEADER));
      var next := Load(ram, toRemove).next;
      if k + 2 < |bs| { AtBlock(k + 2); }
      SetNextAndSize(current, next, size, k);
      if next != 0 {
        SetPrev(next, current, k + 2);
      }
      MergeLinks(At(r0), At(ram), bs, k);
      blocks := bs[..k] + [Merge(bs[k], bs[k + 1])] + bs[k + 2..];
    }

    /** `compact_free_blocks`: a single in-place pass. */
    method CompactFreeBlocks()
      requires ListValid()
      modifies this`ram, this`blocks
      ensures ListValid() && blocks == Coalesce(old(blocks))
      ensures Untouched(Live(old(blocks)), old(ram), ram)
    {
      hide Load;
      ghost var live := Live(blocks);
      var current := freeList;
      ghost var i := 0;
      assert blocks[0..] == blocks;
      if 0 < |blocks| { AtBlock(0); }
      while current != 0 && Load(ram, current).next != 0
        invariant ListValid() && i <= |blocks| && current == Ptr(blocks, i)
        invariant i < |blocks| ==> Fits(ram, current)
        invariant blocks[..i] + Coalesce(blocks[i..]) == Coalesce(old(blocks))
        invariant Live(blocks) == live && Untouched(live, old(ram), ram)
        decreases |blocks| - i
      {
        ghost var bs, r0 := blocks, ram;
        AtBlock(i);
        var next := Load(ram, current).next;
        AtBlock(i + 1);
        TiledAt(bs, MEMORY_START, MEMORY_END, i);
        TiledAt(bs, MEMORY_START, MEMORY_END, i + 1);
        CoalesceStep(bs, i);
        if Load(ram, current).isFree && Load(ram, next).isFree
            && Add32(Load(ram, current).address, Load(ram, current).size) == Sub32(Load(ram, next).address, HEADER) {
          MergeLive(bs, i);
          MergeNext(current, next, i);
          UntouchedTrans(live, old(ram), r0, ram);
          AtBlock(i);
          continue;
        }
        current := next;
        i := i + 1;
      }
      if i + 1 < |blocks| {
        AtBlock(i);
        AtBlock(i + 1);
      } else {
        assert blocks[..i] + blocks[i..] == blocks;
      }
    }

    /** `kfree`: a pointer that is not a live payload address is ignored. */
    method Kfree(p: Word)
      requires Valid()
      modifies this
      ensures Valid() && initialized == old(initialized)
      ensures View() == Free(old(View()), p)
      ensures Untouched(Live(blocks), old(ram), ram)
    {
      hide Load;
      if !initialized || p == 0 {
        NoBlockAtNull();
        return;
      }
      FreeSound(View(), p);
      ghost var bs := blocks;
      var blockToFree: Word := 0;
      var current := freeList;
      ghost var i := 0;
      while current != 0
        invariant Valid() && initialized && View() == old(View()) && ram == old(ram)
        invariant i <= |blocks| && current == Ptr(blocks, i)
        invariant forall j :: 0 <= j < i ==> blocks[j].addr != p
        invariant blockToFree == 0
        decreases |blocks| - i
      {
        AtBlock(i);
        if Load(ram, current).address == p {
          blockToFree := current;
          break;
        }
        current := Load(ram, current).next;
        i := i + 1;
      }
      if i < |blocks| { AtBlock(i); }
      FindIs(blocks, p, i);
      if blockToFree == 0 || Load(ram, blockToFree).isFree {
        return;
      }
      Discard(blockToFree, p, i);
    }

    /** A live block is marked free and counted, and the list is compacted. */
    method Discard(h: Word, p: Word, ghost k: nat)
      requires ListValid() && k < |blocks| && h == Ptr(blocks, k) && k == Find(blocks, p) && !blocks[k].free
      modifies this`ram, this`blocks, this`totalFrees, this`currentAllocated, this`freeMemory
      ensures ListValid() && View() == Free(old(View()), p)
      ensures Untouched(Live(blocks), old(ram), ram)
    {
      hide Load;
      ghost var bs := blocks;
      SetIsFree(h, true, k);
      ghost var r1, cs := ram, blocks;
      AtBlock(k);
      totalFrees := Add32(totalFrees, 1);
      currentAllocated := Sub32(currentAllocated, Load(ram, h).size);
      freeMemory := Add32(freeMemory, Load(ram, h).size);
      CompactFreeBlocks();
      CoalesceLive(cs);
      assert Live(cs) <= Live(bs);
      UntouchedLess(Live(bs), Live(cs), old(ram), r1);
      UntouchedTrans(Live(cs), old(ram), r1, ram);
    }

    lemma NoBlockAtNull()
      requires Valid()
      ensures Find(blocks, 0) == |blocks|
    {
      var k := Find(blocks, 0);
      if k < |blocks| {
        TiledAt(blocks, MEMORY_START, MEMORY_END, k);
      }
    }

    /** `memset`. */
    method Memset(dest: Word, value: Byte, size: Word)
      requires dest + size <= |ram|
      modifies this`ram
      ensures SameOutside(old(ram), ram, dest, dest + size)
      ensures forall i :: dest <= i < dest + size ==> ram[i] == value
    {
      var i := 0;
      while i < size
        invariant i <= size && SameOutside(old(ram), ram, dest, dest + size)
        invariant forall j :: dest <= j < dest + i ==> ram[j] == value
      {
        ram := ram[dest + i := value];
        i := i + 1;
      }
    }

    /** `memcpy`, ascending. It copies when the destination does not start inside the source; when it
        does, every byte repeats the one `dest - src` places before it. */
    method Memcpy(dest: Word, src: Word, size: Word)
      requires dest + size <= |ram| && src + size <= |ram|
      modifies this`ram
      ensures SameOutside(old(ram), ram, dest, dest + size)
      ensures dest <= src || src + size <= dest ==> Copied(old(ram), ram, src, dest, size)
      ensures src < dest ==> forall a :: dest <= a < dest + size ==> ram[a] == ram[a - dest + src]
    {
      var i := 0;
      while i < size
        invariant i <= size && |ram| == old(|ram|)
        invariant forall a :: 0 <= a < |ram| && !(dest <= a < dest + i) ==> ram[a] == old(ram)[a]
        invariant dest <= src || src + size <= dest ==>
          forall a :: dest <= a < dest + i ==> ram[a] == old(ram)[a - dest + src]
        invariant src < dest ==> forall a :: dest <= a < dest + i ==> ram[a] == ram[a - dest + src]
      {
        ram := ram[dest + i := ram[src + i]];
        i := i + 1;
      }
    }

    /** The block has room for `count` elements exactly if the product fits 32 bits and alignment. */
    static ghost predicate Covers(g: Block, count: Word, size: Word) {
      g.size >= count * size <==> count * size <= MAX_REQUEST
    }

    /** `kcalloc`: `count * size` is computed in 32 bits; the payload is zeroed. */
    method Kcalloc(count: Word, size: Word) returns (p: Word)
      requires Valid()
      requires Permitted(View(), KCalloc(count, size))
      modifies this
      ensures Valid() && initialized == old(initialized)
      ensures View() == Malloc(old(View()), Wrap(count * size))
      ensures p == MallocPtr(old(View()), Wrap(count * size))
      ensures p != 0 ==> p + Wrap(count * size) <= |ram|
      ensures forall a :: 0 < p <= a < p + Wrap(count * size) ==> ram[a] == 0
      ensures p != 0 ==>
        exists g :: g in Live(blocks) - Live(old(blocks)) && g.addr == p && Covers(g, count, size)
      ensures Untouched(Live(old(blocks)), old(ram), ram)
    {
      hide Load;
      var totalSize := Wrap(count * size);
      p := Kmalloc(totalSize);
      if p != 0 {
        ghost var h, r1 := old(View()), ram;
        ghost var g := Given(h, AlignAddress(totalSize, 4));
        MallocGives(h, totalSize);
        NewBlockApart(Live(h.blocks), g);
        LiveAt(blocks, g);
        Memset(p, 0, totalSize);
        OwnPayloadWrite(blocks, g, r1, ram, p, p + totalSize);
        UntouchedLess(Live(blocks) - {g}, Live(h.blocks), r1, ram);
        UntouchedTrans(Live(h.blocks), old(ram), r1, ram);
        CallocCovers(h, count, size);
        assert g in Live(blocks) - Live(h.blocks) && Covers(g, count, size);
      }
    }

    /** The search in `krealloc` for the size recorded at `p`. */
    method RecordedSize(p: Word) returns (n: Word)
      requires Valid()
      ensures n == BlockSize(View(), p)
    {
      hide Load;
      n := 0;
      var current := freeList;
      ghost var i := 0;
      while current != 0
        invariant initialized || (blocks == [] && current == 0)
        invariant i <= |blocks| && current == Ptr(blocks, i) && n == 0
        invariant forall j :: 0 <= j < i ==> blocks[j].addr != p
        decreases |blocks| - i
      {
        AtBlock(i);
        if Load(ram, current).address == p {
          FindIs(blocks, p, i);
          n := Load(ram, current).size;
          return;
        }
        current := Load(ram, current).next;
        i := i + 1;
      }
      if i < |blocks| { AtBlock(i); }
      FindIs(blocks, p, i);
    }

    /** `krealloc`: allocate, copy, free. */
    method Krealloc(p: Word, newSize: Word) returns (q: Word)
      requires Valid()
      requires Permitted(View(), KRealloc(p, newSize))
      modifies this
      ensures Valid() && initialized == old(initialized)
      ensures View() == Realloc(old(View()), p, newSize) && q == ReallocPtr(old(View()), p, newSize)
      ensures Untouched(Live(old(blocks)) * Live(blocks), old(ram), ram)
      ensures forall b :: b in Live(old(blocks)) && b.addr == p != 0 && q != 0 && newSize > 0 ==>
        Copied(old(ram), ram, p, q, if b.size < newSize then b.size else newSize)
    {
      if p == 0 {
        q := Kmalloc(newSize);
        UntouchedLess(Live(old(blocks)), Live(old(blocks)) * Live(blocks), old(ram), ram);
        return;
      }
      if newSize == 0 {
        Kfree(p);
        UntouchedLess(Live(blocks), Live(old(blocks)) * Live(blocks), old(ram), ram);
        return 0;
      }
      var oldSize := RecordedSize(p);
      q := Kmalloc(newSize);
      if q != 0 && oldSize > 0 {
        MoveTo(p, q, oldSize, newSize, old(View()), old(ram));
      } else {
        UntouchedLess(Live(old(blocks)), Live(old(blocks)) * Live(blocks), old(ram), ram);
        forall b | b in Live(old(blocks)) && b.addr == p
          ensures oldSize == b.size && (q != 0 ==> Copied(old(ram), ram, p, q, 0))
        {
          LiveAt(old(blocks), b);
          if q != 0 {
            GrantGives(old(View()), AlignAddress(newSize, 4));
          }
        }
      }
    }

    /** The copy in `krealloc`, into the block just given out. */
    method CopyOver(p: Word, q: Word, oldSize: Word, newSize: Word, ghost h: Heap) returns (copySize: Word)
      requires Valid() && initialized && Sound(h) && View() == Malloc(h, newSize)
      requires q == MallocPtr(h, newSize) != 0 && newSize > 0 && p != 0 && CopyFits(h, p, newSize)
      requires oldSize == BlockSize(h, p) > 0
      modifies this`ram
      ensures Valid() && copySize == if oldSize < newSize then oldSize else newSize
      ensures Copied(old(ram), ram, p, q, copySize)
      ensures Untouched(Live(h.blocks), old(ram), ram)
    {
      hide Load, AlignAddress, Granted, FirstFit, BlockSize, Malloc, CopyFits;
      ghost var g, r1 := Given(h, AlignAddress(newSize, 4)), ram;
      MallocGives(h, newSize);
      WritesFitExactly(h, p, newSize);
      NewBlockApart(Live(h.blocks), g);
      LiveAt(blocks, g);
      CopyRanges(h, p, newSize);
      copySize := if oldSize < newSize then oldSize else newSize;
      Memcpy(q, p, copySize);
      OwnPayloadWrite(blocks, g, r1, ram, q, q + copySize);
      UntouchedLess(Live(blocks) - {g}, Live(h.blocks), r1, ram);
    }

    /** The copy and the free at the end of `krealloc`. `h` and `r0` are heap and memory before the call. */
    method MoveTo(p: Word, q: Word, oldSize: Word, newSize: Word, ghost h: Heap, ghost r0: seq<Byte>)
      requires Valid() && initialized && Sound(h) && View() == Malloc(h, newSize)
      requires q == MallocPtr(h, newSize) != 0 && newSize > 0 && p != 0 && CopyFits(h, p, newSize)
      requires oldSize == BlockSize(h, p) > 0
      requires Untouched(Live(h.blocks), r0, ram)
      modifies this
      ensures Valid() && initialized
      ensures View() == Free(Malloc(h, newSize), p)
      ensures Untouched(Live(h.blocks) * Live(blocks), r0, ram)
      ensures forall b :: b in Live(h.blocks) && b.addr == p ==>
        Copied(r0, ram, p, q, if b.size < newSize then b.size else newSize)
    {
      ghost var r1 := ram;
      ghost var copySize := CopyOver(p, q, oldSize, newSize, h);
      ghost var r2 := ram;
      Kfree(p);
      KeepChain(Live(h.blocks), Live(h.blocks), Live(blocks), r0, r1, r2, ram);
      forall b | b in Live(h.blocks) && b.addr == p ensures Copied(r0, ram, p, q, copySize) && b.size == oldSize {
        MovedBlock(h, b, newSize);
        CopySurvives(Live(h.blocks), Live(blocks), b, Given(h, AlignAddress(newSize, 4)), r0, r1, r2, ram, copySize);
      }
    }

    lemma MovedBlock(h: Heap, b: Block, size: Word)
      requires Sound(h) && b in Live(h.blocks) && 0 < BlockSize(h, b.addr) && size > 0 && CopyFits(h, b.addr, size)
      requires MallocPtr(h, size) != 0
      ensures var g := Given(h, AlignAddress(size, 4));
        && b.size == BlockSize(h, b.addr) && CopySize(h, b.addr, size) <= g.size && g.addr == MallocPtr(h, size)
        && 0 <= b.addr && b.End() <= MEMORY_END && 0 <= g.addr && g.End() <= MEMORY_END
        && g in Live(Free(Malloc(h, size), b.addr).blocks)
    {
      LiveAt(h.blocks, b);
      MallocGives(h, size);
      WritesFitExactly(h, b.addr, size);
      ReallocLive(h, b, size);
      MallocSound(h, size);
      LiveAt(Malloc(h, size).blocks, Given(h, AlignAddress(size, 4)));
    }

    /** A caller's own store into a payload it holds. */
    method WritePayload(a: Word, v: Byte, ghost b: Block)
      requires Valid() && initialized && b in Live(blocks) && b.addr <= a < b.End()
      modifies this`ram
      ensures Valid() && a < |old(ram)| && ram == old(ram)[a := v]
      ensures Untouched(Live(blocks) - {b}, old(ram), ram)
    {
      ghost var r0 := ram;
      LiveAt(blocks, b);
      ram := ram[a := v];
      OwnPayloadWrite(blocks, b, r0, ram, a, a + 1);
    }

    // ---------------------------------------------------------------- runs

    /** Any one call or client store. */
    method Serve(c: Call) returns (p: Word)
      requires Valid() && Permitted(View(), c)
      modifies this
      ensures Valid() && initialized == old(initialized)
      ensures View() == Apply(old(View()), c) && p == Returned(old(View()), c)
      ensures Effect(old(View()), c, old(ram), ram)
    {
      ghost var h, r0, both := View(), ram, Live(blocks);
      hide Learnt, Kept;
      match c {
        case KMalloc(size) =>
          p := Kmalloc(size);
        case KFree(ptr) =>
          Kfree(ptr);
          p := 0;
          both := Live(blocks);
        case KCalloc(count, size) =>
          p := Kcalloc(count, size);
        case KRealloc(ptr, size) =>
          p := Krealloc(ptr, size);
          both := both * Live(blocks);
          SizesOfLive(h);
        case Store(a, v) =>
          ghost var b :| b in Live(blocks) && b.addr <= a < b.End();
          WritePayload(a, v, b);
          p := 0;
          both := both - {b};
      }
      UntouchedLess(both, {}, r0, ram);
      if !c.Store? {
        UntouchedLess(both, Live(h.blocks) * Live(blocks), r0, ram);
      }
    }

    lemma SizesOfLive(h: Heap)
      requires Sound(h) || h.blocks == []
      ensures forall b :: b in Live(h.blocks) ==> BlockSize(h, b.addr) == b.size
    {
      forall b | b in Live(h.blocks) ensures BlockSize(h, b.addr) == b.size {
        LiveAt(h.blocks, b);
      }
    }

    /** Any run of calls, interleaved with client stores: the heap in memory and the pointers returned are
        those of `Run`; every byte known to have been stored, zeroed or copied into a payload still live
        reads as it was last written; memory outside the managed range is unchanged. */
    method ServeAll(calls: seq<Call>, ghost m: Known) returns (ps: seq<int>)
      requires Valid() && AllPermitted(View(), calls)
      requires OnlyLive(m, Live(blocks)) && Agrees(m, ram)
      modifies this
      ensures Valid() && initialized == old(initialized)
      ensures View() == Run(old(View()), calls) && ps == AllReturned(old(View()), calls)
      ensures Agrees(RunKnown(old(View()), m, calls), ram)
      ensures OnlyLive(RunKnown(old(View()), m, calls), Live(blocks))
      ensures Untouched({}, old(ram), ram)
    {
      ghost var h, r0 := View(), ram;
      ps := [];
      var i := 0;
      assert calls[..|calls|] == calls;
      RunNone(h);
      hide Run, AllReturned, RunKnown, AllPermitted, Apply, Permitted, Returned, Remember, Agrees, OnlyLive;
      while i < |calls|
        invariant 0 <= i <= |calls| && Valid() && initialized == old(initialized)
        invariant View() == Run(h, calls[..i]) && ps == AllReturned(h, calls[..i])
        invariant Agrees(RunKnown(h, m, calls[..i]), ram) && OnlyLive(RunKnown(h, m, calls[..i]), Live(blocks))
        invariant Untouched({}, r0, ram)
      {
        ghost var g, r1, k := View(), ram, RunKnown(h, m, calls[..i]);
        RunNext(h, m, calls, i);
        var p := Serve(calls[i]);
        EffectRemembered(g, k, calls[i], r1, ram);
        ps := ps + [p];
        i := i + 1;
        UntouchedTrans({}, r0, r1, ram);
      }
    }

    /** From power-on: initialisation and any run of permitted calls and stores. */
    method BootAndServe(calls: seq<Call>) returns (ps: seq<int>)
      requires |ram| == MEMORY_END && AllPermitted(FRESH, calls)
      modifies this
      ensures Valid() && initialized
      ensures View() == Run(FRESH, calls) && ps == AllReturned(FRESH, calls)
      ensures Agrees(RunKnown(FRESH, map[], calls), ram)
      ensures Untouched({}, old(ram), ram)
    {
      Init();
      ghost var r1 := ram;
      ps := ServeAll(calls, map[]);
      UntouchedTrans({}, old(ram), r1, ram);
    }
  }
}
