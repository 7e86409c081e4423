/** Laws of the block list: every operation keeps it well formed, the list is determined by the live
    allocations alone, and allocation is first fit over the gaps between live allocations. */
module BlockLaws {
  import opened Headers
  import opened Blocks

  // ------------------------------------------------------------------ allocation

  lemma AllocWellFormed(bs: seq<Block>, n: int)
    requires WellFormed(bs) && 0 <= n
    ensures WellFormed(Alloc(bs, n))
  {
    var k := FirstFit(bs, n);
    if k < |bs| {
      var mid := Carve(bs[k], n);
      TiledAt(bs, MEMORY_START, MEMORY_END, k);
      CarveTiled(bs[k], n);
      TiledReplace(bs, MEMORY_START, MEMORY_END, k, 1, mid);
      var r := Alloc(bs, n);
      forall i, j | 0 <= i && j == i + 1 && j < |r| ensures !(r[i].free && r[j].free) {
        if j < k {
          assert r[i] == bs[i] && r[j] == bs[j];
        } else if i >= k + |mid| {
          assert r[i] == bs[i - |mid| + 1] && r[j] == bs[j - |mid| + 1];
        } else if i == k + 1 {
          assert r[j] == bs[k + 1] && !(bs[k].free && bs[k + 1].free);
        }
      }
    }
  }

  lemma CarveTiled(b: Block, n: int)
    requires 0 <= n <= b.size
    ensures Tiled(Carve(b, n), b.Start(), b.End())
  {
  }

  /** The block a successful allocation gives out. */
  function Granted(b: Block, n: int): (g: Block) {
    Carve(b, n)[0]
  }

  /** Allocation adds exactly one live block, taken from a block that was free. It holds the `n` bytes
      and exceeds them by at most a header. */
  lemma AllocLive(bs: seq<Block>, n: int)
    requires WellFormed(bs)
    requires FirstFit(bs, n) < |bs|
    ensures var g := Granted(bs[FirstFit(bs, n)], n);
      && Live(Alloc(bs, n)) == Live(bs) + {g}
      && g.addr == AllocPtr(bs, n)
      && n <= g.size <= n + HEADER
      && forall b :: b in Live(bs) ==> b.addr != g.addr
  {
    var k := FirstFit(bs, n);
    var g := Granted(bs[k], n);
    LiveCarved(bs, k, n);
    forall b | b in Live(bs) ensures b.addr != g.addr {
      var i :| 0 <= i < |bs| && bs[i] == b;
      AddressesDiffer(bs, i, k);
    }
  }

  lemma LiveCarved(bs: seq<Block>, k: nat, n: int)
    requires k < |bs| && bs[k].free
    ensures Live(bs[..k] + Carve(bs[k], n) + bs[k + 1..]) == Live(bs) + {Granted(bs[k], n)}
  {
  }

  lemma AddressesDiffer(bs: seq<Block>, i: nat, j: nat)
    requires WellFormed(bs) && i < |bs| && j < |bs| && i != j
    ensures bs[i].addr != bs[j].addr
  {
    TiledAt(bs, MEMORY_START, MEMORY_END, i);
    TiledAt(bs, MEMORY_START, MEMORY_END, j);
    if i < j {
      TiledApart(bs, MEMORY_START, MEMORY_END, i, j);
    } else {
      TiledApart(bs, MEMORY_START, MEMORY_END, j, i);
    }
  }

  // ------------------------------------------------------------------ coalescing

  lemma {:induction false} CoalesceTiled(bs: seq<Block>, lo: int, hi: int)
    requires Tiled(bs, lo, hi)
    ensures Tiled(Coalesce(bs), lo, hi)
    decreases |bs|
  {
    if |bs| >= 2 {
      assert bs[1..][0] == bs[1] && bs[1..][1..] == bs[2..];
      if Mergeable(bs[0], bs[1]) {
        var m := [Merge(bs[0], bs[1])] + bs[2..];
        assert m[1..] == bs[2..];
        CoalesceTiled(m, lo, hi);
      } else {
        CoalesceTiled(bs[1..], bs[0].End(), hi);
        var r := Coalesce(bs);
        assert r[1..] == Coalesce(bs[1..]);
      }
    }
  }

  lemma {:induction false} CoalesceHead(bs: seq<Block>)
    requires bs != []
    ensures Coalesce(bs) != []
    ensures Coalesce(bs)[0].addr == bs[0].addr && Coalesce(bs)[0].free == bs[0].free
    decreases |bs|
  {
    if |bs| >= 2 && Mergeable(bs[0], bs[1]) {
      CoalesceHead([Merge(bs[0], bs[1])] + bs[2..]);
    }
  }

  /** One pass is enough: no two neighbours are left both free. */
  lemma {:induction false} CoalesceCoalesced(bs: seq<Block>, lo: int, hi: int)
    requires Tiled(bs, lo, hi)
    ensures Coalesced(Coalesce(bs))
    decreases |bs|
  {
    if |bs| >= 2 {
      assert bs[1..][0] == bs[1] && bs[1..][1..] == bs[2..];
      if Mergeable(bs[0], bs[1]) {
        var m := [Merge(bs[0], bs[1])] + bs[2..];
        assert m[1..] == bs[2..];
        CoalesceCoalesced(m, lo, hi);
      } else {
        CoalesceCoalesced(bs[1..], bs[0].End(), hi);
        CoalesceHead(bs[1..]);
        var t := Coalesce(bs[1..]);
        assert !(bs[0].free && t[0].free);
        ConsCoalesced(bs[0], t);
      }
    }
  }

  lemma ConsCoalesced(b: Block, t: seq<Block>)
    requires Coalesced(t) && (t == [] || !(b.free && t[0].free))
    ensures Coalesced([b] + t)
  {
  }

  lemma {:induction false} CoalesceLive(bs: seq<Block>)
    ensures Live(Coalesce(bs)) == Live(bs)
    decreases |bs|
  {
    if |bs| >= 2 {
      if Mergeable(bs[0], bs[1]) {
        var m := [Merge(bs[0], bs[1])] + bs[2..];
        CoalesceLive(m);
        assert bs == [bs[0], bs[1]] + bs[2..];
        assert Live(m) == Live(bs);
      } else {
        CoalesceLive(bs[1..]);
        var t := Coalesce(bs[1..]);
        assert bs == [bs[0]] + bs[1..];
        assert forall b :: b in Live([bs[0]] + t) <==> b in Live([bs[0]]) || b in Live(t);
        assert forall b :: b in Live(bs) <==> b in Live([bs[0]]) || b in Live(bs[1..]);
      }
    }
  }

  // ------------------------------------------------------------------ release

  lemma ReleaseWellFormed(bs: seq<Block>, p: int)
    requires WellFormed(bs)
    ensures WellFormed(Release(bs, p))
  {
    var k := Find(bs, p);
    if k < |bs| && !bs[k].free {
      var b := bs[k].(free := true);
      FlipTiled(bs, k, true);
      CoalesceTiled(bs[k := b], MEMORY_START, MEMORY_END);
      CoalesceCoalesced(bs[k := b], MEMORY_START, MEMORY_END);
    }
  }

  lemma FlipTiled(bs: seq<Block>, k: nat, free: bool)
    requires Tiled(bs, MEMORY_START, MEMORY_END) && k < |bs|
    ensures Tiled(bs[k := bs[k].(free := free)], MEMORY_START, MEMORY_END)
  {
    var b := bs[k].(free := free);
    TiledAt(bs, MEMORY_START, MEMORY_END, k);
    assert [b][1..] == [];
    TiledReplace(bs, MEMORY_START, MEMORY_END, k, 1, [b]);
    assert bs[k := b] == bs[..k] + [b] + bs[k + 1..];
  }

  /** Release takes away exactly the live block at `p`, if there is one. */
  lemma ReleaseLive(bs: seq<Block>, p: int)
    requires WellFormed(bs)
    ensures Live(Release(bs, p)) == set b | b in Live(bs) && b.addr != p
  {
    var k := Find(bs, p);
    TiledFacts(bs, MEMORY_START, MEMORY_END);
    forall i | 0 <= i < |bs| && bs[i].addr == p ensures i == k {
      assert !(i < k);
    }
    if k < |bs| && !bs[k].free {
      var r := bs[k := bs[k].(free := true)];
      CoalesceLive(r);
      forall b ensures b in Live(r) <==> b in Live(bs) && b.addr != p {
        if b in Live(bs) && b.addr != p {
          var i :| 0 <= i < |bs| && bs[i] == b;
          assert r[i] == b;
        }
        if b in Live(r) {
          var i :| 0 <= i < |r| && r[i] == b;
          assert i != k && bs[i] == b;
        }
      }
    } else {
      assert forall b :: b in Live(bs) ==> b.addr != p;
    }
  }

  // ------------------------------------------------------------------ alignment

  lemma CarveAligned(b: Block, n: int)
    requires b.size % 4 == 0 && n % 4 == 0
    ensures Aligned(Carve(b, n))
  {
  }

  lemma ConcatAligned(a: seq<Block>, b: seq<Block>)
    requires Aligned(a) && Aligned(b)
    ensures Aligned(a + b)
  {
  }

  lemma AllocAligned(bs: seq<Block>, n: int)
    requires Aligned(bs) && n % 4 == 0
    ensures Aligned(Alloc(bs, n))
  {
    hide Carve;
    var k := FirstFit(bs, n);
    if k < |bs| {
      CarveAligned(bs[k], n);
      ConcatAligned(bs[..k], Carve(bs[k], n));
      ConcatAligned(bs[..k] + Carve(bs[k], n), bs[k + 1..]);
    }
  }

  lemma {:induction false} CoalesceAligned(bs: seq<Block>)
    requires Aligned(bs)
    ensures Aligned(Coalesce(bs))
    decreases |bs|
  {
    if |bs| >= 2 {
      if Mergeable(bs[0], bs[1]) {
        assert Merge(bs[0], bs[1]).size % 4 == 0;
        CoalesceAligned([Merge(bs[0], bs[1])] + bs[2..]);
      } else {
        CoalesceAligned(bs[1..]);
      }
    }
  }

  lemma ReleaseAligned(bs: seq<Block>, p: int)
    requires Aligned(bs)
    ensures Aligned(Release(bs, p))
  {
    var k := Find(bs, p);
    if k < |bs| {
      CoalesceAligned(bs[k := bs[k].(free := true)]);
    }
  }

  /** Aligned sizes and 20-byte headers make every address a multiple of four. */
  lemma {:induction false} AddressAligned(bs: seq<Block>, lo: int, hi: int, i: nat)
    requires Tiled(bs, lo, hi) && Aligned(bs) && lo % 4 == 0 && i < |bs|
    ensures bs[i].addr % 4 == 0
    decreases i
  {
    if i > 0 {
      AddressAligned(bs[1..], bs[0].End(), hi, i - 1);
    }
  }

  // ------------------------------------------------------------------ canonical form

  /** The live block at the front of a tiling is the only block with its payload address. */
  lemma {:induction false} AddressesAhead(bs: seq<Block>, lo: int, hi: int, b: Block)
    requires Tiled(bs, lo, hi) && b in bs
    ensures lo + HEADER <= b.addr
    ensures b == bs[0] || bs[0].End() + HEADER <= b.addr
  {
    var i :| 0 <= i < |bs| && bs[i] == b;
    TiledAt(bs, lo, hi, i);
    if i > 0 {
      TiledApart(bs, lo, hi, 0, i);
    }
  }

  /** Two well formed lists whose first blocks are both free agree on that block. */
  lemma FreeHeadShorter(a: seq<Block>, b: seq<Block>, lo: int, hi: int)
    requires Tiled(a, lo, hi) && Tiled(b, lo, hi) && Coalesced(a) && Live(a) == Live(b)
    requires a != [] && b != [] && a[0].free && b[0].free
    ensures b[0].size <= a[0].size
  {
    if a[0].size < b[0].size {
      TiledAt(a, lo, hi, 0);
      TiledAt(b, lo, hi, 0);
      var c := a[1];
      assert c in Live(a) by { assert !(a[0].free && a[1].free); }
      AddressesAhead(b, lo, hi, c);
    }
  }

  lemma LiveTail(bs: seq<Block>, lo: int, hi: int)
    requires Tiled(bs, lo, hi) && bs != []
    ensures Live(bs[1..]) == Live(bs) - (if bs[0].free then {} else {bs[0]})
  {
    assert bs == [bs[0]] + bs[1..];
    TiledFacts(bs, lo, hi);
    assert forall i :: 0 <= i < |bs[1..]| ==> bs[1..][i] == bs[i + 1] && bs[i + 1] != bs[0];
  }

  /** The block list is a function of the live allocations: equal live sets mean equal lists. */
  lemma {:induction false} CanonicalOver(a: seq<Block>, b: seq<Block>, lo: int, hi: int)
    requires Tiled(a, lo, hi) && Tiled(b, lo, hi) && Coalesced(a) && Coalesced(b)
    requires Live(a) == Live(b)
    ensures a == b
    decreases |a|
  {
    if a == [] || b == [] {
      if a != [] { TiledAt(a, lo, hi, 0); }
      if b != [] { TiledAt(b, lo, hi, 0); }
    } else {
      if !a[0].free {
        assert a[0] in Live(b);
        AddressesAhead(b, lo, hi, a[0]);
      }
      if !b[0].free {
        assert b[0] in Live(a);
        AddressesAhead(a, lo, hi, b[0]);
      }
      if a[0].free && b[0].free {
        FreeHeadShorter(a, b, lo, hi);
        FreeHeadShorter(b, a, lo, hi);
      }
      assert a[0] == b[0];
      LiveTail(a, lo, hi);
      LiveTail(b, lo, hi);
      TailCoalesced(a);
      TailCoalesced(b);
      CanonicalOver(a[1..], b[1..], a[0].End(), hi);
      assert a == [a[0]] + a[1..] && b == [b[0]] + b[1..];
    }
  }

  lemma TailCoalesced(bs: seq<Block>)
    requires Coalesced(bs) && bs != []
    ensures Coalesced(bs[1..])
  {
  }

  lemma Canonical(a: seq<Block>, b: seq<Block>)
    requires WellFormed(a) && WellFormed(b)
    ensures Live(a) == Live(b) <==> a == b
  {
    if Live(a) == Live(b) {
      CanonicalOver(a, b, MEMORY_START, MEMORY_END);
    }
  }

  lemma InitialWellFormed()
    ensures WellFormed(INITIAL) && Live(INITIAL) == {}
  {
  }

  /** Frees commute. */
  lemma ReleaseCommutes(bs: seq<Block>, p: int, q: int)
    requires WellFormed(bs)
    ensures Release(Release(bs, p), q) == Release(Release(bs, q), p)
  {
    var a, b := Release(bs, p), Release(bs, q);
    ReleaseWellFormed(bs, p);
    ReleaseWellFormed(bs, q);
    ReleaseWellFormed(a, q);
    ReleaseWellFormed(b, p);
    ReleaseLive(bs, p);
    ReleaseLive(bs, q);
    ReleaseLive(a, q);
    ReleaseLive(b, p);
    Canonical(Release(a, q), Release(b, p));
  }

  /** A successful allocation followed by its free restores the exact list. */
  lemma AllocThenRelease(bs: seq<Block>, n: int)
    requires WellFormed(bs) && 0 <= n
    requires AllocPtr(bs, n) != 0
    ensures Release(Alloc(bs, n), AllocPtr(bs, n)) == bs
  {
    var a, p := Alloc(bs, n), AllocPtr(bs, n);
    AllocWellFormed(bs, n);
    AllocLive(bs, n);
    ReleaseWellFormed(a, p);
    ReleaseLive(a, p);
    Canonical(Release(a, p), bs);
  }

  function ReleaseAll(bs: seq<Block>, ps: seq<int>): (r: seq<Block>)
    decreases |ps|
  {
    if ps == [] then bs else ReleaseAll(Release(bs, ps[0]), ps[1..])
  }

  lemma {:induction false} ReleaseAllLive(bs: seq<Block>, ps: seq<int>)
    requires WellFormed(bs)
    ensures WellFormed(ReleaseAll(bs, ps))
    ensures Live(ReleaseAll(bs, ps)) == set b | b in Live(bs) && b.addr !in ps
    decreases |ps|
  {
    if ps != [] {
      ReleaseWellFormed(bs, ps[0]);
      ReleaseLive(bs, ps[0]);
      ReleaseAllLive(Release(bs, ps[0]), ps[1..]);
      assert ps == [ps[0]] + ps[1..];
    }
  }

  /** Freeing every live pointer, in any order and mixed with any other pointers, gives back the single
      initial block; leaving one out never does. */
  lemma ReleaseAllRestores(bs: seq<Block>, ps: seq<int>)
    requires WellFormed(bs)
    ensures ReleaseAll(bs, ps) == INITIAL <==> forall b :: b in Live(bs) ==> b.addr in ps
  {
    ReleaseAllLive(bs, ps);
    InitialWellFormed();
    Canonical(ReleaseAll(bs, ps), INITIAL);
    if Live(ReleaseAll(bs, ps)) == {} {
      forall b | b in Live(bs) ensures b.addr in ps {
        assert b !in Live(ReleaseAll(bs, ps));
      }
    }
  }

  // ------------------------------------------------------------------ gaps between live blocks

  /** `[lo, hi)` is a maximal stretch of the managed range without a live block. */
  ghost predicate Gap(live: set<Block>, lo: int, hi: int) {
    && (lo == MEMORY_START || exists b :: b in live && b.End() == lo)
    && (hi == MEMORY_END || exists b :: b in live && b.Start() == hi)
    && lo < hi
    && forall b :: b in live ==> b.End() <= lo || hi <= b.Start()
  }

  lemma FreeBlockIsGap(bs: seq<Block>, i: nat)
    requires WellFormed(bs) && i < |bs| && bs[i].free
    ensures Gap(Live(bs), bs[i].Start(), bs[i].End())
  {
    TiledFacts(bs, MEMORY_START, MEMORY_END);
    TiledAt(bs, MEMORY_START, MEMORY_END, i);
    if i > 0 {
      assert !bs[i - 1].free;
      assert bs[i - 1] in Live(bs) && bs[i - 1].End() == bs[i].Start();
    }
    if i + 1 < |bs| {
      assert !bs[i + 1].free;
      assert bs[i + 1] in Live(bs) && bs[i + 1].Start() == bs[i].End();
    }
    forall b | b in Live(bs) ensures b.End() <= bs[i].Start() || bs[i].End() <= b.Start() {
      var j :| 0 <= j < |bs| && bs[j] == b;
      assert j < i || i < j;
    }
  }

  /** Two gaps that start together end together. */
  lemma GapEnds(bs: seq<Block>, lo: int, h1: int, h2: int)
    requires Tiled(bs, MEMORY_START, MEMORY_END)
    requires Gap(Live(bs), lo, h1) && Gap(Live(bs), lo, h2)
    ensures h1 <= h2
  {
    TiledFacts(bs, MEMORY_START, MEMORY_END);
    GapInside(bs, lo, h1);
  }

  lemma GapInside(bs: seq<Block>, lo: int, hi: int)
    requires Tiled(bs, MEMORY_START, MEMORY_END) && Gap(Live(bs), lo, hi)
    ensures MEMORY_START <= lo && hi <= MEMORY_END
  {
    TiledFacts(bs, MEMORY_START, MEMORY_END);
  }

  lemma GapIsFreeBlock(bs: seq<Block>, lo: int, hi: int) returns (i: nat)
    requires WellFormed(bs) && Gap(Live(bs), lo, hi)
    ensures i < |bs| && bs[i].free && bs[i].Start() == lo && bs[i].End() == hi
  {
    TiledFacts(bs, MEMORY_START, MEMORY_END);
    GapInside(bs, lo, hi);
    if lo == MEMORY_START {
      i := 0;
    } else {
      var b :| b in Live(bs) && b.End() == lo;
      var j :| 0 <= j < |bs| && bs[j] == b;
      TiledAt(bs, MEMORY_START, MEMORY_END, j);
      i := j + 1;
    }
    assert bs != [];
    TiledAt(bs, MEMORY_START, MEMORY_END, i);
    assert bs[i] !in Live(bs);
    FreeBlockIsGap(bs, i);
    GapEnds(bs, lo, hi, bs[i].End());
    GapEnds(bs, lo, bs[i].End(), hi);
  }

  /** Free blocks are exactly the gaps between live blocks. */
  lemma FreeBlocksAreGaps(bs: seq<Block>, lo: int, hi: int)
    requires WellFormed(bs)
    ensures Gap(Live(bs), lo, hi) <==> Block(lo + HEADER, hi - lo - HEADER, true) in bs
  {
    if Gap(Live(bs), lo, hi) {
      var i := GapIsFreeBlock(bs, lo, hi);
      assert bs[i] == Block(lo + HEADER, hi - lo - HEADER, true);
    }
    if Block(lo + HEADER, hi - lo - HEADER, true) in bs {
      var i :| 0 <= i < |bs| && bs[i] == Block(lo + HEADER, hi - lo - HEADER, true);
      FreeBlockIsGap(bs, i);
    }
  }

  /** `[lo, hi)` is a gap with room for a header and `n` bytes. */
  ghost predicate RoomyGap(live: set<Block>, lo: int, hi: int, n: int) {
    Gap(live, lo, hi) && hi - lo >= n + HEADER
  }

  ghost predicate RoomyGapAt(live: set<Block>, lo: int, n: int) {
    exists hi :: RoomyGap(live, lo, hi, n)
  }

  /** Allocation fails exactly when no gap has room for a header and `n` bytes; otherwise it takes the
      start of the lowest gap that has. Only the live allocations matter. */
  lemma AllocIsLowestGap(bs: seq<Block>, n: int)
    requires WellFormed(bs)
    ensures AllocPtr(bs, n) == 0 <==> forall lo, hi :: !RoomyGap(Live(bs), lo, hi, n)
    ensures AllocPtr(bs, n) != 0 ==>
      && RoomyGapAt(Live(bs), AllocPtr(bs, n) - HEADER, n)
      && forall lo, hi :: RoomyGap(Live(bs), lo, hi, n) ==> AllocPtr(bs, n) - HEADER <= lo
  {
    var k := FirstFit(bs, n);
    TiledFacts(bs, MEMORY_START, MEMORY_END);
    forall lo, hi | RoomyGap(Live(bs), lo, hi, n) ensures k < |bs| && bs[k].Start() <= lo {
      var i := GapIsFreeBlock(bs, lo, hi);
      assert Suits(bs[i], n);
    }
    if k < |bs| {
      FreeBlockIsGap(bs, k);
      assert RoomyGap(Live(bs), bs[k].Start(), bs[k].End(), n);
    }
  }

  /** NULL is returned exactly when no free block suits. */
  lemma NullMeansNoFit(bs: seq<Block>, n: int)
    requires Tiled(bs, MEMORY_START, MEMORY_END)
    ensures AllocPtr(bs, n) == 0 <==> FirstFit(bs, n) == |bs|
  {
    var k := FirstFit(bs, n);
    if k < |bs| {
      TiledAt(bs, MEMORY_START, MEMORY_END, k);
    }
  }

  // ------------------------------------------------------------------ accounting

  /** Total payload of the free, or of the live, blocks. */
  function Bytes(bs: seq<Block>, free: bool): (n: int) {
    if bs == [] then 0 else (if bs[0].free == free then bs[0].size else 0) + Bytes(bs[1..], free)
  }

  function Count(bs: seq<Block>, free: bool): (n: nat) {
    if bs == [] then 0 else (if bs[0].free == free then 1 else 0) + Count(bs[1..], free)
  }

  lemma {:induction false} TallyConcat(a: seq<Block>, b: seq<Block>, free: bool)
    ensures Bytes(a + b, free) == Bytes(a, free) + Bytes(b, free)
    ensures Count(a + b, free) == Count(a, free) + Count(b, free)
    decreases |a|
  {
    if a == [] {
      assert a + b == b;
    } else {
      assert (a + b)[1..] == a[1..] + b;
      TallyConcat(a[1..], b, free);
    }
  }

  lemma {:induction false} BytesNonNegative(bs: seq<Block>, lo: int, hi: int, free: bool)
    requires Tiled(bs, lo, hi)
    ensures 0 <= Bytes(bs, free)
    decreases |bs|
  {
    if bs != [] {
      BytesNonNegative(bs[1..], bs[0].End(), hi, free);
    }
  }

  /** Conservation: live bytes, free bytes and one header per block add up to the range. */
  lemma {:induction false} BytesConserved(bs: seq<Block>, lo: int, hi: int)
    requires Tiled(bs, lo, hi)
    ensures Bytes(bs, true) + Bytes(bs, false) + HEADER * |bs| == hi - lo
    decreases |bs|
  {
    if bs != [] {
      BytesConserved(bs[1..], bs[0].End(), hi);
    }
  }

  lemma AllocTally(bs: seq<Block>, n: int)
    requires FirstFit(bs, n) < |bs|
    ensures Bytes(Alloc(bs, n), false) == Bytes(bs, false) + Granted(bs[FirstFit(bs, n)], n).size
    ensures Count(Alloc(bs, n), false) == Count(bs, false) + 1
  {
    var k := FirstFit(bs, n);
    var a, m, c := bs[..k], Carve(bs[k], n), bs[k + 1..];
    assert bs == a + [bs[k]] + c;
    TallyConcat(a + [bs[k]], c, false);
    TallyConcat(a, [bs[k]], false);
    TallyConcat(a + m, c, false);
    TallyConcat(a, m, false);
    assert [bs[k]][1..] == [];
    assert |m| == 2 ==> m[1..] == [m[1]] && m[1..][1..] == [];
    assert |m| == 1 ==> m[1..] == [];
  }

  lemma {:induction false} CoalesceTally(bs: seq<Block>)
    ensures Bytes(Coalesce(bs), false) == Bytes(bs, false)
    ensures Count(Coalesce(bs), false) == Count(bs, false)
    decreases |bs|
  {
    if |bs| >= 2 {
      assert bs[1..][0] == bs[1] && bs[1..][1..] == bs[2..];
      if Mergeable(bs[0], bs[1]) {
        var m := [Merge(bs[0], bs[1])] + bs[2..];
        assert m[1..] == bs[2..];
        CoalesceTally(m);
      } else {
        CoalesceTally(bs[1..]);
        assert Coalesce(bs)[1..] == Coalesce(bs[1..]);
      }
    }
  }

  lemma ReleaseTally(bs: seq<Block>, p: int)
    requires Find(bs, p) < |bs| && !bs[Find(bs, p)].free
    ensures Bytes(Release(bs, p), false) == Bytes(bs, false) - bs[Find(bs, p)].size
    ensures Count(Release(bs, p), false) == Count(bs, false) - 1
  {
    var k := Find(bs, p);
    var a, b, c := bs[..k], bs[k].(free := true), bs[k + 1..];
    assert bs == a + [bs[k]] + c && bs[k := b] == a + [b] + c;
    TallyConcat(a + [bs[k]], c, false);
    TallyConcat(a, [bs[k]], false);
    TallyConcat(a + [b], c, false);
    TallyConcat(a, [b], false);
    assert [bs[k]][1..] == [] && [b][1..] == [];
    CoalesceTally(bs[k := b]);
  }
}
