/** Every run of allocator calls from boot. */
module HeapRuns {
  import opened Machine
  import opened Blocks
  import opened BlockLaws
  import opened Heap

  datatype Call =
    | KMalloc(size: Word)
    | KFree(p: Word)
    | KCalloc(count: Word, size: Word)
    | KRealloc(p: Word, size: Word)
    | Store(a: Word, v: Byte) // a client's own write

  function Apply(h: Heap, c: Call): (r: Heap) {
    match c
    case KMalloc(size) => Malloc(h, size)
    case KFree(p) => Free(h, p)
    case KCalloc(count, size) => Malloc(h, Wrap(count * size))
    case KRealloc(p, size) => Realloc(h, p, size)
    case Store(_, _) => h
  }

  function Run(h: Heap, calls: seq<Call>): (r: Heap)
    decreases |calls|
  {
    if calls == [] then h else Apply(Run(h, calls[..|calls| - 1]), calls[|calls| - 1])
  }

  /** The pointer a call returns. */
  function Returned(h: Heap, c: Call): (p: int) {
    match c
    case KMalloc(size) => MallocPtr(h, size)
    case KFree(_) => 0
    case KCalloc(count, size) => MallocPtr(h, Wrap(count * size))
    case KRealloc(p, size) => ReallocPtr(h, p, size)
    case Store(_, _) => 0
  }

  function AllReturned(h: Heap, calls: seq<Call>): (ps: seq<int>)
    decreases |calls|
  {
    if calls == [] then [] else
      var front := calls[..|calls| - 1];
      AllReturned(h, front) + [Returned(Run(h, front), calls[|calls| - 1])]
  }

  /** Address `a` lies in the payload of a live block. */
  ghost predicate InLive(live: set<Block>, a: int) {
    exists b :: b in live && b.addr <= a < b.End()
  }

  /** The call writes only into the block it got, see `WritesFitExactly`; a client writes only into payloads
      it holds. */
  ghost predicate Permitted(h: Heap, c: Call) {
    match c
    case KCalloc(count, size) => ZeroingFits(h, Wrap(count * size))
    case KRealloc(p, size) => CopyFits(h, p, size)
    case Store(a, _) => InLive(Live(h.blocks), a)
    case _ => true
  }

  ghost predicate AllPermitted(h: Heap, calls: seq<Call>)
    decreases |calls|
  {
    calls == [] ||
    (AllPermitted(h, calls[..|calls| - 1]) && Permitted(Run(h, calls[..|calls| - 1]), calls[|calls| - 1]))
  }

  lemma {:induction false} PrefixPermitted(h: Heap, calls: seq<Call>, i: nat)
    requires AllPermitted(h, calls) && i <= |calls|
    ensures AllPermitted(h, calls[..i])
    decreases |calls|
  {
    if i < |calls| {
      PrefixPermitted(h, calls[..|calls| - 1], i);
      assert calls[..|calls| - 1][..i] == calls[..i];
    } else {
      assert calls[..i] == calls;
    }
  }

  /** `kmalloc` and `kfree` are always permitted, and sizes up to 0xFFFFFFFC; the first `kcalloc` above may
      not be. */
  lemma PermittedInRange(h: Heap, c: Call)
    ensures c.KMalloc? || c.KFree? ==> Permitted(h, c)
    ensures c.KCalloc? && Wrap(c.count * c.size) <= MAX_REQUEST ==> Permitted(h, c)
    ensures c.KRealloc? && c.size <= MAX_REQUEST ==> Permitted(h, c)
    ensures !Permitted(FRESH, KCalloc(1, 0xFFFF_FFFD))
  {
    AlignSpec(0xFFFF_FFFD);
    assert FirstFit(INITIAL, 0) == 0;
  }

  lemma ApplySound(h: Heap, c: Call)
    requires Sound(h) && Permitted(h, c)
    ensures Sound(Apply(h, c))
  {
    match c {
      case KMalloc(size) => MallocSound(h, size);
      case KFree(p) => FreeSound(h, p);
      case KCalloc(count, size) => MallocSound(h, Wrap(count * size));
      case KRealloc(p, size) => ReallocSound(h, p, size);
      case Store(_, _) =>
    }
  }

  /** After any run of permitted calls the blocks tile the range in address order, sizes and addresses are
      multiples of four, no two neighbours are both free, and every counter is exact. */
  lemma {:induction false} RunSound(calls: seq<Call>)
    requires AllPermitted(FRESH, calls)
    ensures Sound(Run(FRESH, calls))
    ensures forall b :: b in Run(FRESH, calls).blocks ==> b.size % 4 == 0 && b.addr % 4 == 0
    decreases |calls|
  {
    if calls == [] {
      FreshSound();
    } else {
      RunSound(calls[..|calls| - 1]);
      ApplySound(Run(FRESH, calls[..|calls| - 1]), calls[|calls| - 1]);
    }
    SoundAligned(Run(FRESH, calls));
  }

  lemma SoundAligned(h: Heap)
    requires Sound(h)
    ensures forall b :: b in h.blocks ==> b.size % 4 == 0 && b.addr % 4 == 0
  {
    forall i | 0 <= i < |h.blocks| ensures h.blocks[i].addr % 4 == 0 {
      AddressAligned(h.blocks, MEMORY_START, MEMORY_END, i);
    }
  }

  /** Two runs that leave the same allocations live leave the same heap, byte counts included. */
  lemma RunsConfluent(c1: seq<Call>, c2: seq<Call>)
    requires AllPermitted(FRESH, c1) && AllPermitted(FRESH, c2)
    requires Live(Run(FRESH, c1).blocks) == Live(Run(FRESH, c2).blocks)
    ensures var h1, h2 := Run(FRESH, c1), Run(FRESH, c2);
      h1.blocks == h2.blocks && h1.current == h2.current && h1.freeMemory == h2.freeMemory
  {
    hide Run, AllPermitted;
    RunSound(c1);
    RunSound(c2);
    Canonical(Run(FRESH, c1).blocks, Run(FRESH, c2).blocks);
  }

  // ------------------------------------------------------------------ what clients read back

  /** What is known of the live payloads: the last byte stored, zeroed or copied at each address. */
  type Known = map<int, Byte>

  ghost predicate OnlyLive(m: Known, live: set<Block>) {
    forall a :: a in m ==> InLive(live, a)
  }

  /** Memory holds what is known. */
  ghost predicate Agrees(m: Known, ram: seq<Byte>) {
    forall a :: a in m ==> 0 <= a < |ram| && ram[a] == m[a]
  }

  /** Bytes `krealloc` moves to the block it returns. */
  function MovedSize(h: Heap, p: int, size: Word): (n: int) {
    if p == 0 || size == 0 || MallocPtr(h, size) == 0 || BlockSize(h, p) <= 0 then 0 else CopySize(h, p, size)
  }

  /** Knowledge about blocks that are gone is forgotten. */
  ghost function Kept(m: Known, live: set<Block>): Known {
    map a | a in m && InLive(live, a) :: m[a]
  }

  /** What a call makes known: zeroes, what was known of the old block at the same offset, or the byte stored. */
  ghost function Learnt(h: Heap, m: Known, c: Call): Known {
    match c
    case KCalloc(count, size) => Zeroes(Returned(h, c), Wrap(count * size))
    case KRealloc(p, size) => Shifted(m, p, ReallocPtr(h, p, size), MovedSize(h, p, size))
    case Store(a, v) => map[a := v]
    case _ => map[]
  }

  predicate InSpan(q: int, n: int, a: int) {
    q <= a < q + n
  }

  ghost function Zeroes(q: int, n: int): Known {
    map a: int | q != 0 && q <= a < q + n && InSpan(q, n, a) :: 0
  }

  ghost function Shifted(m: Known, p: int, q: int, n: int): Known {
    map a: int | q <= a < q + n && InSpan(q, n, a) && a - q + p in m :: m[a - q + p]
  }

  ghost function Remember(h: Heap, m: Known, c: Call): Known {
    Kept(m, Live(Apply(h, c).blocks)) + Learnt(h, m, c)
  }

  ghost function RunKnown(h: Heap, m: Known, calls: seq<Call>): Known
    decreases |calls|
  {
    if calls == [] then m else
      var front := calls[..|calls| - 1];
      Remember(Run(h, front), RunKnown(h, m, front), calls[|calls| - 1])
  }

  /** Whatever became live in a call overlaps nothing that was. */
  lemma NewLive(h: Heap, c: Call, b: Block, d: Block)
    requires Sound(h) && b in Live(h.blocks) && d in Live(Apply(h, c).blocks) && d !in Live(h.blocks)
    ensures b.End() <= d.Start() || d.End() <= b.Start()
  {
    match c {
      case KMalloc(size) => NewFromMalloc(h, size, b, d);
      case KFree(p) => ReleaseLive(h.blocks, p);
      case KCalloc(count, size) => NewFromMalloc(h, Wrap(count * size), b, d);
      case KRealloc(p, size) => NewFromRealloc(h, p, size, b, d);
      case Store(_, _) =>
    }
  }

  lemma NewFromMalloc(h: Heap, size: Word, b: Block, d: Block)
    requires Sound(h) && b in Live(h.blocks) && d in Live(Malloc(h, size).blocks) && d !in Live(h.blocks)
    ensures b.End() <= d.Start() || d.End() <= b.Start()
  {
    NullMeansNoFit(h.blocks, AlignAddress(size, 4));
    if MallocPtr(h, size) != 0 {
      MallocGives(h, size);
    }
  }

  lemma NewFromRealloc(h: Heap, p: int, size: Word, b: Block, d: Block)
    requires Sound(h) && b in Live(h.blocks) && d in Live(Realloc(h, p, size).blocks) && d !in Live(h.blocks)
    ensures b.End() <= d.Start() || d.End() <= b.Start()
  {
    if p != 0 && size == 0 {
      ReleaseLive(h.blocks, p);
    } else {
      MallocSound(h, size);
      ReleaseLive(Malloc(h, size).blocks, p);
      NewFromMalloc(h, size, b, d);
    }
  }

  /** A byte live before and after a call is in one and the same block. */
  lemma SameBlock(h: Heap, c: Call, a: int)
    requires Sound(h) && InLive(Live(h.blocks), a) && InLive(Live(Apply(h, c).blocks), a)
    ensures InLive(Live(h.blocks) * Live(Apply(h, c).blocks), a)
  {
    var b :| b in Live(h.blocks) && b.addr <= a < b.End();
    var d :| d in Live(Apply(h, c).blocks) && d.addr <= a < d.End();
    if d !in Live(h.blocks) {
      NewLive(h, c, b, d);
    }
  }

  /** The block `krealloc` copies from is live wherever anything is known of it. */
  lemma KnownSource(h: Heap, m: Known, p: int, a: int)
    requires Sound(h) && OnlyLive(m, Live(h.blocks)) && a in m && p <= a < p + BlockSize(h, p)
    ensures exists b :: b in Live(h.blocks) && b.addr == p && b.size == BlockSize(h, p)
  {
    var k := Find(h.blocks, p);
    var b :| b in Live(h.blocks) && b.addr <= a < b.End();
    var i :| 0 <= i < |h.blocks| && h.blocks[i] == b;
    if i < k {
      TiledApart(h.blocks, MEMORY_START, MEMORY_END, i, k);
    } else if k < i {
      TiledApart(h.blocks, MEMORY_START, MEMORY_END, k, i);
    }
    assert h.blocks[k] in Live(h.blocks);
  }

  /** What a call makes known lies in live payloads. */
  lemma LearntLive(h: Heap, m: Known, c: Call)
    requires Sound(h) && Permitted(h, c) && OnlyLive(m, Live(h.blocks))
    ensures OnlyLive(Learnt(h, m, c), Live(Apply(h, c).blocks))
  {
    match c {
      case KMalloc(_) =>
      case KFree(_) =>
      case KCalloc(count, size) =>
        if Returned(h, c) != 0 {
          MallocGives(h, Wrap(count * size));
        }
      case KRealloc(p, size) =>
        forall a | a in Learnt(h, m, c) ensures InLive(Live(Apply(h, c).blocks), a) {
          var q := ReallocPtr(h, p, size);
          KnownSource(h, m, p, a - q + p);
          var b :| b in Live(h.blocks) && b.addr == p && b.size == BlockSize(h, p);
          MovedInto(h, b, size, a);
        }
      case Store(_, _) =>
    }
  }

  lemma MovedInto(h: Heap, b: Block, size: Word, a: int)
    requires Sound(h) && b in Live(h.blocks) && CopyFits(h, b.addr, size) && b.size == BlockSize(h, b.addr)
    requires InSpan(ReallocPtr(h, b.addr, size), MovedSize(h, b.addr, size), a)
    ensures InLive(Live(Realloc(h, b.addr, size).blocks), a)
  {
    var g := Given(h, AlignAddress(size, 4));
    ReallocLive(h, b, size);
    WritesFitExactly(h, b.addr, size);
    assert g in Live(Realloc(h, b.addr, size).blocks) && g.addr <= a < g.End();
  }

  /** A known byte of a block live throughout the run, and not stored to in it, stays known as it was. */
  lemma {:induction false} KnownKept(h: Heap, m: Known, calls: seq<Call>, b: Block, a: int)
    requires Sound(h) && AllPermitted(h, calls) && OnlyLive(m, Live(h.blocks)) && a in m
    requires b.addr <= a < b.End() && forall i :: 0 <= i <= |calls| ==> b in Live(Run(h, calls[..i]).blocks)
    requires forall i :: 0 <= i < |calls| ==> !(calls[i].Store? && calls[i].a == a)
    ensures a in RunKnown(h, m, calls) && RunKnown(h, m, calls)[a] == m[a]
    decreases |calls|
  {
    if calls != [] {
      var n := |calls| - 1;
      var front, c := calls[..n], calls[n];
      assert calls[..n + 1] == calls;
      assert forall i :: 0 <= i <= n ==> front[..i] == calls[..i];
      KnownKept(h, m, front, b, a);
      RunFromSound(h, front);
      var g := Run(h, front);
      assert b in Live(g.blocks) && b in Live(Apply(g, c).blocks);
      NotRelearnt(g, RunKnown(h, m, front), c, b, a);
    }
  }

  lemma {:induction false} RunFromSound(h: Heap, calls: seq<Call>)
    requires Sound(h) && AllPermitted(h, calls)
    ensures Sound(Run(h, calls))
    decreases |calls|
  {
    if calls != [] {
      RunFromSound(h, calls[..|calls| - 1]);
      ApplySound(Run(h, calls[..|calls| - 1]), calls[|calls| - 1]);
    }
  }

  /** Zeroing and copying touch only the new block. */
  lemma NotRelearnt(h: Heap, m: Known, c: Call, b: Block, a: int)
    requires Sound(h) && Permitted(h, c) && b in Live(h.blocks) && b.addr <= a < b.End()
    requires !(c.Store? && c.a == a)
    ensures a !in Learnt(h, m, c)
  {
    match c {
      case KMalloc(_) =>
      case KFree(_) =>
      case KCalloc(count, size) =>
        if Returned(h, c) != 0 {
          MallocGives(h, Wrap(count * size));
        }
      case KRealloc(p, size) =>
        if MovedSize(h, p, size) > 0 {
          MallocGives(h, size);
          WritesFitExactly(h, p, size);
        }
      case Store(_, _) =>
    }
  }

  // ------------------------------------------------------------------ one more call

  lemma RunNone(h: Heap)
    ensures Run(h, []) == h && AllReturned(h, []) == []
    ensures forall m :: RunKnown(h, m, []) == m
  {
  }

  /** One more call of a run. */
  lemma RunNext(h: Heap, m: Known, calls: seq<Call>, i: nat)
    requires AllPermitted(h, calls) && i < |calls|
    ensures var done, next := calls[..i], calls[..i + 1];
      && Permitted(Run(h, done), calls[i])
      && Run(h, next) == Apply(Run(h, done), calls[i])
      && AllReturned(h, next) == AllReturned(h, done) + [Returned(Run(h, done), calls[i])]
      && RunKnown(h, m, next) == Remember(Run(h, done), RunKnown(h, m, done), calls[i])
  {
    hide Apply, Permitted, Returned, Remember;
    PrefixPermitted(h, calls, i + 1);
    assert calls[..i + 1][..i] == calls[..i] && calls[..i + 1][i] == calls[i];
  }

  // ------------------------------------------------------------------ the peak

  /** A single allocation or a single free: `krealloc` makes both, one after the other. */
  datatype Step = Grab(size: Word) | Drop(p: Word)

  function Do(h: Heap, s: Step): (r: Heap) {
    match s
    case Grab(size) => Malloc(h, size)
    case Drop(p) => Free(h, p)
  }

  function Steps(h: Heap, c: Call): (r: seq<Step>) {
    match c
    case KMalloc(size) => [Grab(size)]
    case KFree(p) => [Drop(p)]
    case KCalloc(count, size) => [Grab(Wrap(count * size))]
    case KRealloc(p, size) =>
      if p == 0 then [Grab(size)]
      else if size == 0 then [Drop(p)]
      else if MallocPtr(h, size) != 0 && BlockSize(h, p) > 0 then [Grab(size), Drop(p)]
      else [Grab(size)]
    case Store(_, _) => []
  }

  function DoAll(h: Heap, ss: seq<Step>): (r: Heap)
    decreases |ss|
  {
    if ss == [] then h else Do(DoAll(h, ss[..|ss| - 1]), ss[|ss| - 1])
  }

  function AllSteps(h: Heap, calls: seq<Call>): (r: seq<Step>)
    decreases |calls|
  {
    if calls == [] then [] else
      var front := calls[..|calls| - 1];
      AllSteps(h, front) + Steps(Run(h, front), calls[|calls| - 1])
  }

  lemma {:induction false} DoAllConcat(h: Heap, a: seq<Step>, b: seq<Step>)
    ensures DoAll(h, a + b) == DoAll(DoAll(h, a), b)
    decreases |b|
  {
    if b == [] {
      assert a + b == a;
    } else {
      assert (a + b)[..|a + b| - 1] == a + b[..|b| - 1];
      DoAllConcat(h, a, b[..|b| - 1]);
    }
  }

  lemma StepsApply(h: Heap, c: Call)
    ensures DoAll(h, Steps(h, c)) == Apply(h, c)
  {
    var ss := Steps(h, c);
    assert |ss| == 1 ==> ss[..0] == [] && DoAll(h, ss) == Do(h, ss[0]);
    if |ss| == 2 {
      assert ss[..1] == [ss[0]] && ss[..1][..0] == [];
      assert DoAll(h, ss[..1]) == Do(h, ss[0]);
    }
  }

  lemma {:induction false} AllStepsRun(h: Heap, calls: seq<Call>)
    ensures DoAll(h, AllSteps(h, calls)) == Run(h, calls)
    decreases |calls|
  {
    if calls != [] {
      var front, c := calls[..|calls| - 1], calls[|calls| - 1];
      AllStepsRun(h, front);
      DoAllConcat(h, AllSteps(h, front), Steps(Run(h, front), c));
      StepsApply(Run(h, front), c);
    }
  }

  /** Live bytes at every moment: before the first step and after each. */
  function LiveBytes(ss: seq<Step>): (r: seq<int>)
    decreases |ss|
  {
    (if ss == [] then [] else LiveBytes(ss[..|ss| - 1])) + [Bytes(DoAll(FRESH, ss).blocks, false)]
  }

  lemma {:induction false} PeakOfSteps(ss: seq<Step>)
    ensures DoAll(FRESH, ss).peak in LiveBytes(ss)
    ensures forall x :: x in LiveBytes(ss) ==> x <= DoAll(FRESH, ss).peak
    decreases |ss|
  {
    StepsSound(ss);
    if ss != [] {
      var front := ss[..|ss| - 1];
      PeakOfSteps(front);
      StepsSound(front);
      StepPeak(DoAll(FRESH, front), ss[|ss| - 1]);
    }
  }

  lemma StepPeak(h: Heap, s: Step)
    requires Sound(h)
    ensures var r := Do(h, s);
      r.peak == if r.current > h.peak then r.current else h.peak
  {
    match s {
      case Grab(size) =>
      case Drop(p) =>
        FreeSound(h, p);
        var k := Find(h.blocks, p);
        if k < |h.blocks| {
          TiledAt(h.blocks, MEMORY_START, MEMORY_END, k);
        }
    }
  }

  /** Each counter rises by one exactly when the step gives out, or takes back, a block. */
  lemma StepCounts(h: Heap, s: Step)
    requires Sound(h)
    ensures var r := Do(h, s);
      && r.allocations == Add32(h.allocations, if Count(r.blocks, false) > Count(h.blocks, false) then 1 else 0)
      && r.frees == Add32(h.frees, if Count(r.blocks, false) < Count(h.blocks, false) then 1 else 0)
  {
    hide Alloc, Release;
    match s {
      case Grab(size) =>
        if FirstFit(h.blocks, AlignAddress(size, 4)) < |h.blocks| {
          AllocTally(h.blocks, AlignAddress(size, 4));
        }
      case Drop(p) =>
        if Find(h.blocks, p) < |h.blocks| && !h.blocks[Find(h.blocks, p)].free {
          ReleaseTally(h.blocks, p);
        }
    }
  }

  lemma {:induction false} StepsSound(ss: seq<Step>)
    ensures Sound(DoAll(FRESH, ss))
    decreases |ss|
  {
    if ss == [] {
      FreshSound();
    } else {
      var h, s := DoAll(FRESH, ss[..|ss| - 1]), ss[|ss| - 1];
      StepsSound(ss[..|ss| - 1]);
      match s {
        case Grab(size) => MallocSound(h, size);
        case Drop(p) => FreeSound(h, p);
      }
    }
  }

  /** `peak_allocated` is the largest number of live bytes at any moment of the run, the moment inside
      `krealloc` when both blocks are live included. */
  lemma PeakIsMaximum(calls: seq<Call>)
    requires AllPermitted(FRESH, calls)
    ensures var history, peak := LiveBytes(AllSteps(FRESH, calls)), Run(FRESH, calls).peak;
      peak in history && forall x :: x in history ==> x <= peak
  {
    AllStepsRun(FRESH, calls);
    PeakOfSteps(AllSteps(FRESH, calls));
  }
}
