/** What every call does, said of the live allocations alone. */
module HeapCalls {
  import opened Machine
  import opened Blocks
  import opened BlockLaws
  import opened Heap
  import opened HeapRuns

  /** Bytes the call asks for; `kcalloc` multiplies in 32 bits. */
  function Wanted(c: Call): (n: Word) {
    match c
    case KMalloc(size) => size
    case KCalloc(count, size) => (count * size) % 0x1_0000_0000
    case KRealloc(_, size) => size
    case _ => 0
  }

  /** The request rounded up to a multiple of four, in 32 bits. */
  function Rounded(n: Word): (r: Word) {
    (n + 3) % 0x1_0000_0000 / 4 * 4
  }

  /** `q` is the lowest gap with room for `n` bytes and their header, or NULL if there is none. */
  ghost predicate LowestRoom(live: set<Block>, n: int, q: int) {
    && (q == 0 <==> forall lo, hi :: !RoomyGap(live, lo, hi, n))
    && (q != 0 ==> RoomyGapAt(live, q - 20, n) && forall lo, hi :: RoomyGap(live, lo, hi, n) ==> q - 20 <= lo)
  }

  /** The live blocks a call that returns `q` gives up. `krealloc` keeps an empty one, and all if it fails. */
  ghost function Gone(live: set<Block>, c: Call, q: int): set<Block> {
    match c
    case KFree(p) => set b | b in live && b.addr == p
    case KRealloc(p, size) => set b | b in live && b.addr == p && (size == 0 || (q != 0 && b.size > 0))
    case _ => {}
  }

  /** `g` takes `n` bytes of the gap it starts, or all of it if no more than a header would be left. */
  ghost predicate Fills(live: set<Block>, n: int, g: Block) {
    && !g.free && g !in live
    && forall lo, hi :: Gap(live, lo, hi) && lo + 20 == g.addr ==>
         g.size == if hi - g.addr > n + 20 then n else hi - g.addr
  }

  /** `krealloc` was given the address of a free block, got that very block, and freed it again. */
  ghost predicate Dangles(c: Call, g: Block) {
    c.KRealloc? && c.p == g.addr && g.size > 0
  }

  /** The live set after a call that returns `q`. */
  ghost predicate LiveAfter(live: set<Block>, c: Call, q: int, after: set<Block>) {
    var kept := live - Gone(live, c, q);
    if q == 0 then after == kept
    else exists g: Block ::
      g.addr == q && Fills(live, Rounded(Wanted(c)), g) && after == if Dangles(c, g) then kept else kept + {g}
  }

  lemma RoundedIs(n: Word)
    ensures Rounded(n) == AlignAddress(n, 4)
  {
    assert Add32(n, 3) == (n + 3) % 0x1_0000_0000;
  }

  lemma ReturnedIs(h: Heap, c: Call)
    ensures Returned(h, c) == if Wanted(c) == 0 then 0 else AllocPtr(h.blocks, Rounded(Wanted(c)))
    ensures Returned(h, c) != 0 ==> Returned(h, c) == MallocPtr(h, Wanted(c))
  {
    RoundedIs(Wanted(c));
    if c.KCalloc? {
      WrapIs(c.count * c.size);
    }
  }

  /** The pointer every call returns: NULL when it asks for nothing, else the lowest gap with room. */
  lemma PointerSpec(h: Heap, c: Call)
    requires Sound(h)
    ensures Wanted(c) == 0 ==> Returned(h, c) == 0
    ensures Wanted(c) > 0 ==> LowestRoom(Live(h.blocks), Rounded(Wanted(c)), Returned(h, c))
  {
    ReturnedIs(h, c);
    if Wanted(c) > 0 {
      AllocIsLowestGap(h.blocks, Rounded(Wanted(c)));
    }
  }

  /** What a successful request gives. */
  lemma GrabFills(h: Heap, size: Word)
    requires Sound(h) && MallocPtr(h, size) != 0
    ensures var g := Given(h, AlignAddress(size, 4));
      g.addr == MallocPtr(h, size) && Fills(Live(h.blocks), Rounded(size), g)
      && Live(Malloc(h, size).blocks) == Live(h.blocks) + {g}
  {
    hide Malloc, AlignAddress, Granted, FirstFit, Gap, Sound;
    var n := AlignAddress(size, 4);
    var g := Given(h, n);
    MallocGives(h, size);
    assert g !in Live(h.blocks) && !g.free by { GivenNew(h, size); }
    RoundedIs(size);
    forall lo, hi | Gap(Live(h.blocks), lo, hi) && lo + 20 == g.addr
      ensures g.size == if hi - g.addr > n + 20 then n else hi - g.addr
    {
      GivenSize(h, size, hi);
    }
  }

  lemma GivenNew(h: Heap, size: Word)
    requires Sound(h) && MallocPtr(h, size) != 0
    ensures var g := Given(h, AlignAddress(size, 4)); g !in Live(h.blocks) && !g.free
  {
    hide AlignAddress;
    AllocLive(h.blocks, AlignAddress(size, 4));
  }

  lemma NoneAtNull(h: Heap)
    requires Sound(h)
    ensures forall b :: b in Live(h.blocks) ==> b.addr != 0
  {
    forall b | b in Live(h.blocks) ensures b.addr != 0 {
      LiveAt(h.blocks, b);
    }
  }

  /** A call that only allocates. */
  lemma GrabLive(h: Heap, c: Call, size: Word)
    requires Sound(h) && Wanted(c) == size && (c.KMalloc? || c.KCalloc? || (c.KRealloc? && c.p == 0))
    ensures LiveAfter(Live(h.blocks), c, MallocPtr(h, size), Live(Malloc(h, size).blocks))
  {
    hide Malloc, Fills, AlignAddress;
    NoneAtNull(h);
    assert Gone(Live(h.blocks), c, MallocPtr(h, size)) == {};
    if MallocPtr(h, size) == 0 {
      MallocSpec(h, size);
    } else {
      GrabFills(h, size);
    }
  }

  /** `krealloc` of any non-null pointer to a non-zero size. */
  lemma MoveLive(h: Heap, p: Word, size: Word)
    requires Sound(h) && p != 0 && size > 0 && CopyFits(h, p, size)
    ensures LiveAfter(Live(h.blocks), KRealloc(p, size), MallocPtr(h, size), Live(Realloc(h, p, size).blocks))
  {
    hide Malloc, Fills, AlignAddress, FirstFit, Granted;
    var live, q := Live(h.blocks), MallocPtr(h, size);
    var gone := Gone(live, KRealloc(p, size), q);
    forall b | b in live && b.addr == p ensures b.size == BlockSize(h, p) {
      LiveAt(h.blocks, b);
    }
    if q == 0 {
      MallocSpec(h, size);
    } else {
      GrabFills(h, size);
      var g := Given(h, AlignAddress(size, 4));
      if p == q {
        OwnBlock(h, size);
      }
      if BlockSize(h, p) > 0 {
        MallocSound(h, size);
        ReleaseLive(Malloc(h, size).blocks, p);
        FreeBlocks(Malloc(h, size), p);
        assert gone == set b | b in live && b.addr == p;
      }
    }
  }

  lemma FreeBlocks(h: Heap, p: int)
    ensures Free(h, p).blocks == Release(h.blocks, p)
  {
  }

  /** The block at the address about to be returned is the one about to be given out. */
  lemma OwnBlock(h: Heap, size: Word)
    requires Sound(h) && MallocPtr(h, size) != 0 && CopyFits(h, MallocPtr(h, size), size)
    ensures BlockSize(h, MallocPtr(h, size)) > 0 <==> Given(h, AlignAddress(size, 4)).size > 0
  {
    var n, p := AlignAddress(size, 4), MallocPtr(h, size);
    var i, k := FirstFit(h.blocks, n), Find(h.blocks, p);
    if i != k {
      AddressesDiffer(h.blocks, i, k);
    }
    AlignSpec(size);
    GrantGives(h, n);
  }

  /** The live set after every permitted call, for any pointer passed: it loses what `Gone` says and gains
      the one block returned, unless `krealloc` was handed that block's own address while it was free. */
  lemma LiveSpec(h: Heap, c: Call)
    requires Sound(h) && Permitted(h, c)
    ensures LiveAfter(Live(h.blocks), c, Returned(h, c), Live(Apply(h, c).blocks))
  {
    hide Malloc, Free, Sound, Wrap, LiveAfter;
    ReturnedIs(h, c);
    match c {
      case KMalloc(size) => GrabLive(h, c, size);
      case KFree(p) => DropLive(h, c, p);
      case KCalloc(count, size) =>
        WrapIs(count * size);
        GrabLive(h, c, Wrap(count * size));
      case KRealloc(p, size) =>
        if p == 0 {
          GrabLive(h, c, size);
        } else if size == 0 {
          DropLive(h, c, p);
        } else {
          MoveLive(h, p, size);
        }
      case Store(_, _) => StoreLive(h, c);
    }
  }

  /** A call that only frees. */
  lemma DropLive(h: Heap, c: Call, p: Word)
    requires Sound(h) && (c == KFree(p) || c == KRealloc(p, 0))
    ensures LiveAfter(Live(h.blocks), c, 0, Live(Free(h, p).blocks))
  {
    ReleaseLive(h.blocks, p);
    FreeBlocks(h, p);
  }

  lemma StoreLive(h: Heap, c: Call)
    requires c.Store?
    ensures LiveAfter(Live(h.blocks), c, 0, Live(h.blocks))
  {
  }

  /** A block that became live is the one returned to the caller. */
  lemma NewIsReturned(h: Heap, c: Call, g: Block)
    requires Sound(h) && Permitted(h, c) && g in Live(Apply(h, c).blocks) && g !in Live(h.blocks)
    ensures g.addr == Returned(h, c) != 0
  {
    hide Apply, Permitted;
    LiveSpec(h, c);
  }

  /** Every block live after a run from boot was returned by one of its calls: none is held by nobody. */
  lemma {:induction false} LiveWasReturned(calls: seq<Call>, b: Block)
    requires AllPermitted(FRESH, calls) && b in Live(Run(FRESH, calls).blocks)
    ensures b.addr in AllReturned(FRESH, calls)
    decreases |calls|
  {
    if calls == [] {
      InitialWellFormed();
    } else {
      hide Apply, Permitted, Returned;
      var front, c := calls[..|calls| - 1], calls[|calls| - 1];
      RunSound(front);
      if b in Live(Run(FRESH, front).blocks) {
        LiveWasReturned(front, b);
      } else {
        NewIsReturned(Run(FRESH, front), c, b);
      }
    }
  }

  /** Only one block fills the room found. */
  lemma FillsUnique(h: Heap, size: Word, g: Block)
    requires Sound(h) && MallocPtr(h, size) == g.addr != 0 && Fills(Live(h.blocks), Rounded(size), g)
    ensures g == Given(h, AlignAddress(size, 4))
  {
    MallocSpec(h, size);
    RoundedIs(size);
    var hi :| RoomyGap(Live(h.blocks), g.addr - 20, hi, AlignAddress(size, 4));
    GivenSize(h, size, hi);
  }

  /** A pointer just returned is that of a live block, exactly unless the call was a `krealloc` of that very
      address: the block there was free before, not empty, and is free again after the call. */
  lemma ReturnedIsLive(h: Heap, c: Call)
    requires Sound(h) && Permitted(h, c) && Returned(h, c) != 0
    ensures (exists g :: g in Live(Apply(h, c).blocks) && g.addr == Returned(h, c))
      <==> !(c.KRealloc? && c.p == Returned(h, c) && BlockSize(h, c.p) > 0)
  {
    var q, live, n := Returned(h, c), Live(h.blocks), AlignAddress(Wanted(c), 4);
    ReturnedIs(h, c);
    if c.KRealloc? && c.p == q {
      OwnBlock(h, c.size);
    }
    GrantGives(h, n);
    assert forall b :: b in live ==> b.addr != q by {
      forall b | b in live ensures b.addr != q {
        LiveAt(h.blocks, b);
      }
    }
    hide Apply, Permitted, AlignAddress, MallocPtr, AllocPtr, Fills, Granted, Sound;
    LiveSpec(h, c);
    var g: Block :| g.addr == q && Fills(live, Rounded(Wanted(c)), g)
      && Live(Apply(h, c).blocks) ==
         if Dangles(c, g) then live - Gone(live, c, q) else live - Gone(live, c, q) + {g};
    FillsUnique(h, Wanted(c), g);
  }

  // ------------------------------------------------------------------ the counters

  function NonNull(ps: seq<int>): (n: nat) {
    if ps == [] then 0 else NonNull(ps[..|ps| - 1]) + if ps[|ps| - 1] != 0 then 1 else 0
  }

  /** One call counts one allocation exactly if it returns a pointer. */
  lemma CallCounts(h: Heap, c: Call)
    requires WellFormed(h.blocks)
    ensures Apply(h, c).allocations == Add32(h.allocations, if Returned(h, c) != 0 then 1 else 0)
  {
    NullMeansNoFit(h.blocks, AlignAddress(Wanted(c), 4));
    if c.KCalloc? {
      WrapIs(c.count * c.size);
    }
  }

  lemma {:induction false} LiveCount(bs: seq<Block>, lo: int, hi: int)
    requires Tiled(bs, lo, hi)
    ensures Count(bs, false) == |Live(bs)|
    decreases |bs|
  {
    if bs != [] {
      LiveTail(bs, lo, hi);
      LiveCount(bs[1..], bs[0].End(), hi);
    }
  }

  /** A call adds at most the block it returns. */
  lemma LiveGrowth(h: Heap, c: Call)
    requires Sound(h) && Permitted(h, c)
    ensures |Live(Apply(h, c).blocks)| <= |Live(h.blocks)| + if Returned(h, c) != 0 then 1 else 0
  {
    hide Apply, Permitted, Returned;
    LiveSpec(h, c);
    var live, after, q := Live(h.blocks), Live(Apply(h, c).blocks), Returned(h, c);
    var kept := live - Gone(live, c, q);
    Subset(kept, live);
    if after != kept {
      var g :| after == kept + {g};
    }
  }

  lemma Subset(a: set<Block>, b: set<Block>)
    requires a <= b
    ensures |a| <= |b|
  {
    assert b == a + (b - a);
  }

  lemma FreesAre(a: Word, f: Word, n: nat, c: nat)
    requires a == n % 0x1_0000_0000 && Sub32(a, f) == c <= n
    ensures f == (n - c) % 0x1_0000_0000
  {
    WrapIs(a - f);
    assert (n - c) % 0x1_0000_0000 == (a - c) % 0x1_0000_0000;
  }

  lemma LiveDifference(h: Heap)
    requires Sound(h)
    ensures WellFormed(h.blocks) && Sub32(h.allocations, h.frees) == |Live(h.blocks)|
  {
    LiveCount(h.blocks, MEMORY_START, MEMORY_END);
  }

  lemma AddNothing(a: Word)
    ensures Add32(a, 0) == a
  {
  }

  lemma {:induction false} AllocationsCounted(calls: seq<Call>)
    requires AllPermitted(FRESH, calls)
    ensures var r, n := Run(FRESH, calls), NonNull(AllReturned(FRESH, calls));
      |Live(r.blocks)| <= n && r.allocations == Wrap(n)
    decreases |calls|
  {
    hide Apply, Permitted, Returned, Live, Sound, WellFormed, Wrap, Add32;
    if calls == [] {
      InitialWellFormed();
      WrapIs(0);
    } else {
      var front, c := calls[..|calls| - 1], calls[|calls| - 1];
      var h, ps := Run(FRESH, front), AllReturned(FRESH, calls);
      RunSound(front);
      LiveDifference(h);
      AllocationsCounted(front);
      CallCounts(h, c);
      LiveGrowth(h, c);
      assert ps[..|ps| - 1] == AllReturned(FRESH, front);
      AddNothing(h.allocations);
      WrapCounts(NonNull(AllReturned(FRESH, front)));
    }
  }

  /** After any run from boot `total_allocations` is the number of pointers returned and `total_frees` that
      number less the blocks still live, modulo 2^32. */
  lemma CountersExact(calls: seq<Call>)
    requires AllPermitted(FRESH, calls)
    ensures var r, n := Run(FRESH, calls), NonNull(AllReturned(FRESH, calls));
      && |Live(r.blocks)| <= n
      && r.allocations == n % 0x1_0000_0000
      && r.frees == (n - |Live(r.blocks)|) % 0x1_0000_0000
  {
    hide Run, AllReturned, NonNull, Live, Sound, WellFormed, Wrap, Sub32, AllPermitted;
    var r, n := Run(FRESH, calls), NonNull(AllReturned(FRESH, calls));
    AllocationsCounted(calls);
    WrapIs(n);
    RunSound(calls);
    LiveDifference(r);
    FreesAre(r.allocations, r.frees, n, |Live(r.blocks)|);
  }

  /** Before initialisation every call changes nothing and returns NULL. */
  lemma BeforeInit(h: Heap, c: Call)
    requires h.blocks == []
    ensures Apply(h, c) == h && Returned(h, c) == 0
  {
  }

  // ------------------------------------------------------------------ concrete runs

  lemma OneMoreCall(h: Heap, calls: seq<Call>, c: Call)
    ensures Run(h, calls + [c]) == Apply(Run(h, calls), c)
    ensures AllReturned(h, calls + [c]) == AllReturned(h, calls) + [Returned(Run(h, calls), c)]
    ensures AllPermitted(h, calls + [c]) <==> AllPermitted(h, calls) && Permitted(Run(h, calls), c)
  {
    hide Apply, Returned, Permitted;
    assert (calls + [c])[..|calls|] == calls;
  }

  const ONE := Heap([Block(0x10_0014, 1024, false), Block(0x10_0428, 0xEF_FBD8, true)], 1, 0, 1024, 1024, 0xEF_FC00)

  const TWO := Heap(
    [Block(0x10_0014, 1024, false), Block(0x10_0428, 2048, false), Block(0x10_0C3C, 0xEF_F3C4, true)],
    2, 0, 3072, 3072, 0xEF_F400)

  const THREE := Heap(
    [Block(0x10_0014, 1024, false), Block(0x10_0428, 2048, false), Block(0x10_0C3C, 512, false),
     Block(0x10_0E50, 0xEF_F1B0, true)],
    3, 0, 3584, 3584, 0xEF_F200)

  const GAP_LEFT := Heap(
    [Block(0x10_0014, 1024, false), Block(0x10_0428, 2048, true), Block(0x10_0C3C, 512, false),
     Block(0x10_0E50, 0xEF_F1B0, true)],
    3, 1, 1536, 3584, 0xEF_FA00)

  lemma FirstMalloc()
    ensures Malloc(FRESH, 1024) == ONE && MallocPtr(FRESH, 1024) == 0x10_0014
  {
  }

  lemma SecondMalloc()
    ensures Malloc(ONE, 2048) == TWO && MallocPtr(ONE, 2048) == 0x10_0428
  {
    assert FirstFit(ONE.blocks, 2048) == 1;
  }

  lemma ThirdMalloc()
    ensures Malloc(TWO, 512) == THREE && MallocPtr(TWO, 512) == 0x10_0C3C
  {
    assert FirstFit(TWO.blocks, 512) == 2;
  }

  lemma SecondFreed()
    ensures Free(THREE, 0x10_0428) == GAP_LEFT
  {
    assert Find(THREE.blocks, 0x10_0428) == 1;
    var bs := GAP_LEFT.blocks;
    assert THREE.blocks[1 := Block(0x10_0428, 2048, true)] == bs;
    assert Coalesce(bs[2..]) == bs[2..] by { assert bs[2..][1..] == bs[3..] && Coalesce(bs[3..]) == bs[3..]; }
    assert Coalesce(bs[1..]) == bs[1..] by { assert bs[1..][1..] == bs[2..]; }
    assert Coalesce(bs) == bs;
  }

  /** The heap test in `kernel_main`: 1024, 2048 and 512 bytes, and the second block freed. */
  lemma KernelMainHeap()
    ensures var calls := [KMalloc(1024), KMalloc(2048), KMalloc(512), KFree(0x10_0428)];
      && AllReturned(FRESH, calls) == [0x10_0014, 0x10_0428, 0x10_0C3C, 0]
      && Run(FRESH, calls) == GAP_LEFT
  {
    hide Run, AllReturned, AllPermitted, Permitted, Malloc, MallocPtr, Free;
    var c1, c2, c3 := [KMalloc(1024)], [KMalloc(1024), KMalloc(2048)], [KMalloc(1024), KMalloc(2048), KMalloc(512)];
    RunNone(FRESH);
    OneMoreCall(FRESH, [], KMalloc(1024));
    assert [] + [KMalloc(1024)] == c1;
    FirstMalloc();
    OneMoreCall(FRESH, c1, KMalloc(2048));
    assert c1 + [KMalloc(2048)] == c2;
    SecondMalloc();
    OneMoreCall(FRESH, c2, KMalloc(512));
    assert c2 + [KMalloc(512)] == c3;
    ThirdMalloc();
    OneMoreCall(FRESH, c3, KFree(0x10_0428));
    assert c3 + [KFree(0x10_0428)] == [KMalloc(1024), KMalloc(2048), KMalloc(512), KFree(0x10_0428)];
    SecondFreed();
  }

  /** `krealloc` of a pointer already freed returns it with nothing live, and the next `kmalloc` hands out the
      same block. */
  lemma DanglingExample()
    ensures var calls := [KMalloc(8), KFree(0x10_0014), KRealloc(0x10_0014, 8)];
      && AllPermitted(FRESH, calls)
      && AllReturned(FRESH, calls) == [0x10_0014, 0, 0x10_0014]
      && Live(Run(FRESH, calls).blocks) == {} && Returned(Run(FRESH, calls), KMalloc(8)) == 0x10_0014
  {
    hide Run, AllReturned, AllPermitted, Malloc, MallocPtr, Free, Sound;
    var c1, c2 := [KMalloc(8)], [KMalloc(8), KFree(0x10_0014)];
    RunNone(FRESH);
    FreshSound();
    assert AllPermitted(FRESH, []) by { NonePermitted(); }
    OneMoreCall(FRESH, [], KMalloc(8));
    assert [] + [KMalloc(8)] == c1;
    assert MallocPtr(FRESH, 8) == 0x10_0014 by { EightBytes(FRESH); }
    var h1 := Malloc(FRESH, 8);
    OneMoreCall(FRESH, c1, KFree(0x10_0014));
    assert c1 + [KFree(0x10_0014)] == c2;
    MallocThenFree(FRESH, 8);
    MallocSound(FRESH, 8);
    FreeSound(h1, 0x10_0014);
    var h2 := Free(h1, 0x10_0014);
    EightBytes(h2);
    OneMoreCall(FRESH, c2, KRealloc(0x10_0014, 8));
    assert c2 + [KRealloc(0x10_0014, 8)] == [KMalloc(8), KFree(0x10_0014), KRealloc(0x10_0014, 8)];
    MallocThenFree(h2, 8);
    EightBytes(Free(Malloc(h2, 8), 0x10_0014));
    InitialWellFormed();
  }

  lemma NonePermitted()
    ensures AllPermitted(FRESH, [])
  {
  }

  lemma EightBytes(h: Heap)
    requires h.blocks == INITIAL
    ensures MallocPtr(h, 8) == 0x10_0014 && BlockSize(h, 0x10_0014) > 0
  {
  }
}
