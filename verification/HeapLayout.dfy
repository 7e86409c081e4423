/** How a block list is laid out in memory: one linked header in front of every payload. */
module HeapLayout {
  import opened Machine
  import opened Headers
  import opened Blocks

  /** Pointer to the header of block `i`; NULL (0) before the first and after the last. */
  function Ptr(bs: seq<Block>, i: int): (p: int) {
    if 0 <= i < |bs| then bs[i].Start() else 0
  }

  ghost predicate HeaderIs(hd: Header, b: Block, next: int, prev: int) {
    hd.address == b.addr && hd.size == b.size && hd.isFree == b.free && hd.next == next && hd.prev == prev
  }

  /** Header memory seen as a function of the header's address. */
  function At(ram: seq<Byte>): (hs: int -> Header) {
    h => if Fits(ram, h) then Load(ram, h) else Header(0, 0, false, 0, 0)
  }

  /** The header of block `i` describes it and is linked to both neighbours. */
  ghost predicate Linked(hs: int -> Header, bs: seq<Block>, i: int)
    requires 0 <= i < |bs|
  {
    HeaderIs(hs(bs[i].Start()), bs[i], Ptr(bs, i + 1), Ptr(bs, i - 1))
  }

  ghost predicate AllLinked(hs: int -> Header, bs: seq<Block>) {
    forall i :: 0 <= i < |bs| ==> Linked(hs, bs, i)
  }

  /** The headers of all blocks but those in `except` are the same. */
  ghost predicate OthersKept(bs: seq<Block>, except: set<int>, h0: int -> Header, h1: int -> Header) {
    forall i :: 0 <= i < |bs| && i !in except ==> h1(bs[i].Start()) == h0(bs[i].Start())
  }

  /** Memory holds exactly the doubly linked list `bs`. */
  ghost predicate Represents(ram: seq<Byte>, bs: seq<Block>) {
    |ram| == MEMORY_END && AllLinked(At(ram), bs)
  }

  /** `w` with its bytes, least significant first. */
  predicate InBytes(w: int, b0: int, b1: int, b2: int, b3: int) {
    w == b0 + 0x100 * b1 + 0x1_0000 * b2 + 0x100_0000 * b3
  }

  /** The list byte by byte: in front of every payload five little-endian fields in the order of the struct,
      `is_free` a single byte. */
  lemma ListInBytes(ram: seq<Byte>, bs: seq<Block>, i: nat)
    requires Represents(ram, bs) && Tiled(bs, MEMORY_START, MEMORY_END) && i < |bs|
    ensures var h := bs[i].addr - 20;
      && 0 <= h && h + 20 <= |ram|
      && InBytes(bs[i].addr, ram[h], ram[h + 1], ram[h + 2], ram[h + 3])
      && InBytes(bs[i].size, ram[h + 4], ram[h + 5], ram[h + 6], ram[h + 7])
      && (bs[i].free <==> ram[h + 8] != 0)
      && InBytes(Ptr(bs, i + 1), ram[h + 12], ram[h + 13], ram[h + 14], ram[h + 15])
      && InBytes(Ptr(bs, i - 1), ram[h + 16], ram[h + 17], ram[h + 18], ram[h + 19])
  {
    TiledAt(bs, MEMORY_START, MEMORY_END, i);
    assert Linked(At(ram), bs, i);
  }

  /** Following `next` and then `prev`, or `prev` and then `next`, leads back to the same header. */
  lemma LinksInverse(ram: seq<Byte>, bs: seq<Block>, i: nat)
    requires Represents(ram, bs) && Tiled(bs, MEMORY_START, MEMORY_END) && i < |bs|
    ensures var h := bs[i].Start();
      && (At(ram)(h).next == 0 <==> i + 1 == |bs|) && (At(ram)(h).prev == 0 <==> i == 0)
      && (At(ram)(h).next != 0 ==> At(ram)(At(ram)(h).next).prev == h)
      && (At(ram)(h).prev != 0 ==> At(ram)(At(ram)(h).prev).next == h)
  {
    hide Load;
    assert Linked(At(ram), bs, i);
    if i + 1 < |bs| {
      assert Linked(At(ram), bs, i + 1);
      TiledAt(bs, MEMORY_START, MEMORY_END, i + 1);
    }
    if i > 0 {
      assert Linked(At(ram), bs, i - 1);
      TiledAt(bs, MEMORY_START, MEMORY_END, i - 1);
    }
  }

  /** Bytes the allocator must not write: live payloads, and everything outside the managed range. */
  ghost predicate Protected(live: set<Block>, a: int) {
    a < MEMORY_START || MEMORY_END <= a || exists b :: b in live && b.addr <= a < b.End()
  }

  ghost predicate Untouched(live: set<Block>, r0: seq<Byte>, r1: seq<Byte>) {
    |r0| == |r1| && forall a {:trigger Protected(live, a)} :: 0 <= a < |r0| && Protected(live, a) ==> r1[a] == r0[a]
  }

  lemma UntouchedTrans(live: set<Block>, r0: seq<Byte>, r1: seq<Byte>, r2: seq<Byte>)
    requires Untouched(live, r0, r1) && Untouched(live, r1, r2)
    ensures Untouched(live, r0, r2)
  {
  }

  lemma UntouchedLess(live: set<Block>, less: set<Block>, r0: seq<Byte>, r1: seq<Byte>)
    requires Untouched(live, r0, r1) && less <= live
    ensures Untouched(less, r0, r1)
  {
    forall a | 0 <= a < |r0| && Protected(less, a) ensures r1[a] == r0[a] {
      assert Protected(live, a);
    }
  }

  /** A write inside block `i` outside its live payload touches nothing protected. */
  lemma WriteUnprotected(bs: seq<Block>, i: nat, r0: seq<Byte>, r1: seq<Byte>, lo: int, hi: int)
    requires Tiled(bs, MEMORY_START, MEMORY_END) && i < |bs|
    requires SameOutside(r0, r1, lo, hi)
    requires bs[i].Start() <= lo && hi <= (if bs[i].free then bs[i].End() else bs[i].addr)
    ensures Untouched(Live(bs), r0, r1)
  {
    TiledFacts(bs, MEMORY_START, MEMORY_END);
    forall a | 0 <= a < |r0| && Protected(Live(bs), a) ensures r1[a] == r0[a] {
      assert Outside(lo, hi, a);
    }
  }

  /** Writing the header of block `k` leaves the other headers alone. */
  lemma OtherHeaders(bs: seq<Block>, k: nat, r0: seq<Byte>, r1: seq<Byte>)
    requires Tiled(bs, MEMORY_START, MEMORY_END) && k < |bs|
    requires |r0| == MEMORY_END && SameOutside(r0, r1, bs[k].Start(), bs[k].addr)
    ensures OthersKept(bs, {k}, At(r0), At(r1))
  {
    TiledFacts(bs, MEMORY_START, MEMORY_END);
    forall i | 0 <= i < |bs| && i != k
      ensures At(r1)(bs[i].Start()) == At(r0)(bs[i].Start())
    {
      assert i < k || k < i;
      LoadFrame(r0, r1, bs[k].Start(), bs[k].addr, bs[i].Start());
    }
  }

  /** Writing inside a payload leaves every header alone. */
  lemma PayloadWrite(bs: seq<Block>, k: nat, r0: seq<Byte>, r1: seq<Byte>, lo: int, hi: int)
    requires Tiled(bs, MEMORY_START, MEMORY_END) && k < |bs|
    requires |r0| == MEMORY_END && SameOutside(r0, r1, lo, hi)
    requires bs[k].addr <= lo && hi <= bs[k].End()
    ensures OthersKept(bs, {}, At(r0), At(r1))
  {
    TiledFacts(bs, MEMORY_START, MEMORY_END);
    forall i | 0 <= i < |bs| ensures At(r1)(bs[i].Start()) == At(r0)(bs[i].Start()) {
      assert i < k || k < i || i == k;
      LoadFrame(r0, r1, lo, hi, bs[i].Start());
    }
  }

  /** Writing the header of block `k` leaves the other headers and every protected byte alone. */
  lemma HeaderWrite(bs: seq<Block>, k: nat, r0: seq<Byte>, r1: seq<Byte>)
    requires Tiled(bs, MEMORY_START, MEMORY_END) && k < |bs|
    requires |r0| == MEMORY_END && SameOutside(r0, r1, bs[k].Start(), bs[k].addr)
    ensures OthersKept(bs, {k}, At(r0), At(r1))
    ensures Untouched(Live(bs), r0, r1)
  {
    TiledAt(bs, MEMORY_START, MEMORY_END, k);
    OtherHeaders(bs, k, r0, r1);
    WriteUnprotected(bs, k, r0, r1, bs[k].Start(), bs[k].addr);
  }

  /** Writing inside a free payload leaves the list and every protected byte alone. */
  lemma FreePayloadWrite(bs: seq<Block>, k: nat, r0: seq<Byte>, r1: seq<Byte>, lo: int, hi: int)
    requires Tiled(bs, MEMORY_START, MEMORY_END) && k < |bs| && bs[k].free
    requires Represents(r0, bs) && SameOutside(r0, r1, lo, hi)
    requires bs[k].addr <= lo && hi <= bs[k].End()
    ensures Represents(r1, bs) && Untouched(Live(bs), r0, r1)
    ensures OthersKept(bs, {}, At(r0), At(r1))
  {
    WriteUnprotected(bs, k, r0, r1, lo, hi);
    PayloadWrite(bs, k, r0, r1, lo, hi);
    SameHeaders(At(r0), At(r1), bs);
  }

  /** A caller writing inside its own live payload disturbs neither the list nor other allocations. */
  lemma OwnPayloadWrite(bs: seq<Block>, g: Block, r0: seq<Byte>, r1: seq<Byte>, lo: int, hi: int)
    requires Tiled(bs, MEMORY_START, MEMORY_END) && g in Live(bs)
    requires Represents(r0, bs) && SameOutside(r0, r1, lo, hi)
    requires g.addr <= lo && hi <= g.End()
    ensures Represents(r1, bs) && Untouched(Live(bs) - {g}, r0, r1)
  {
    var k :| 0 <= k < |bs| && bs[k] == g;
    PayloadWrite(bs, k, r0, r1, lo, hi);
    SameHeaders(At(r0), At(r1), bs);
    TiledFacts(bs, MEMORY_START, MEMORY_END);
    forall a | 0 <= a < |r0| && Protected(Live(bs) - {g}, a) ensures r1[a] == r0[a] {
      assert Outside(lo, hi, a);
    }
  }

  /** `[q, q + n)` now holds what `[p, p + n)` held. */
  ghost predicate Copied(r0: seq<Byte>, r1: seq<Byte>, p: int, q: int, n: int) {
    && 0 <= n && 0 <= p && 0 <= q && p + n <= |r0| && q + n <= |r1|
    && r1[q..q + n] == r0[p..p + n]
  }

  /** Contents of a live block survive a step that leaves it untouched. */
  lemma LivePayloadKept(live: set<Block>, b: Block, r0: seq<Byte>, r1: seq<Byte>, n: int)
    requires Untouched(live, r0, r1) && b in live && 0 <= n <= b.size && 0 <= b.addr && b.End() <= |r0|
    ensures r1[b.addr..b.addr + n] == r0[b.addr..b.addr + n]
  {
    forall a | b.addr <= a < b.addr + n ensures r1[a] == r0[a] {
      assert Protected(live, a);
    }
  }

  lemma SameHeaders(h0: int -> Header, h1: int -> Header, bs: seq<Block>)
    requires AllLinked(h0, bs)
    requires OthersKept(bs, {}, h0, h1)
    ensures AllLinked(h1, bs)
  {
    forall i | 0 <= i < |bs| ensures Linked(h1, bs, i) {
      assert Linked(h0, bs, i);
    }
  }

  // ------------------------------------------------------------------ list surgery

  /** A free block cut in two free blocks, the first keeping `n` bytes. */
  function Halves(b: Block, n: int): (r: seq<Block>) {
    [b.(size := n), Block(b.addr + n + HEADER, b.size - n - HEADER, true)]
  }

  /** Split of block `k`: the new header, the changed header and the successor's back link suffice. */
  lemma SplitLinks(h0: int -> Header, h1: int -> Header, bs: seq<Block>, k: nat, n: int)
    requires AllLinked(h0, bs) && k < |bs|
    requires HeaderIs(h1(bs[k].addr + n), Halves(bs[k], n)[1], Ptr(bs, k + 1), bs[k].Start())
    requires HeaderIs(h1(bs[k].Start()), Halves(bs[k], n)[0], bs[k].addr + n, Ptr(bs, k - 1))
    requires k + 1 < |bs| ==> HeaderIs(h1(bs[k + 1].Start()), bs[k + 1], Ptr(bs, k + 2), bs[k].addr + n)
    requires OthersKept(bs, {k, k + 1}, h0, h1)
    ensures AllLinked(h1, bs[..k] + Halves(bs[k], n) + bs[k + 1..])
  {
    var c := Halves(bs[k], n);
    var r := bs[..k] + c + bs[k + 1..];
    assert r[k] == c[0] && r[k + 1] == c[1];
    assert forall i :: 0 <= i < k ==> r[i] == bs[i];
    assert forall i :: k + 1 < i < |r| ==> r[i] == bs[i - 1];
    forall i | 0 <= i < |r| ensures Linked(h1, r, i) {
      if i < k {
        assert Linked(h0, bs, i);
      } else if i > k + 1 {
        assert Linked(h0, bs, i - 1);
      }
    }
  }

  /** Giving out block `k` whole, or freeing it, changes one header field. */
  lemma FlipLinks(h0: int -> Header, h1: int -> Header, bs: seq<Block>, k: nat, free: bool)
    requires AllLinked(h0, bs) && k < |bs|
    requires h1(bs[k].Start()) == h0(bs[k].Start()).(isFree := free)
    requires OthersKept(bs, {k}, h0, h1)
    ensures AllLinked(h1, bs[k := bs[k].(free := free)])
  {
    var r := bs[k := bs[k].(free := free)];
    forall i | 0 <= i < |r| ensures Linked(h1, r, i) {
      assert Linked(h0, bs, i);
    }
  }

  /** Merge of blocks `k` and `k + 1`. */
  lemma MergeLinks(h0: int -> Header, h1: int -> Header, bs: seq<Block>, k: nat)
    requires AllLinked(h0, bs) && k + 1 < |bs|
    requires HeaderIs(h1(bs[k].Start()), Merge(bs[k], bs[k + 1]), Ptr(bs, k + 2), Ptr(bs, k - 1))
    requires k + 2 < |bs| ==> HeaderIs(h1(bs[k + 2].Start()), bs[k + 2], Ptr(bs, k + 3), bs[k].Start())
    requires OthersKept(bs, {k, k + 1, k + 2}, h0, h1)
    ensures AllLinked(h1, bs[..k] + [Merge(bs[k], bs[k + 1])] + bs[k + 2..])
  {
    var r := bs[..k] + [Merge(bs[k], bs[k + 1])] + bs[k + 2..];
    assert forall i :: 0 <= i < k ==> r[i] == bs[i];
    assert forall i :: k < i < |r| ==> r[i] == bs[i + 1];
    forall i | 0 <= i < |r| ensures Linked(h1, r, i) {
      if i < k {
        assert Linked(h0, bs, i);
      } else if i > k + 1 {
        assert Linked(h0, bs, i + 1);
      }
    }
  }

  // ------------------------------------------------------------------ steps of the methods

  lemma HalvesTiled(bs: seq<Block>, k: nat, n: int)
    requires Tiled(bs, MEMORY_START, MEMORY_END) && k < |bs|
    requires 0 <= n && n + HEADER <= bs[k].size
    ensures Tiled(bs[..k] + Halves(bs[k], n) + bs[k + 1..], MEMORY_START, MEMORY_END)
  {
    var c := Halves(bs[k], n);
    TiledAt(bs, MEMORY_START, MEMORY_END, k);
    assert c[1..] == [c[1]] && c[1..][1..] == [];
    TiledReplace(bs, MEMORY_START, MEMORY_END, k, 1, c);
  }

  lemma HalvesLive(bs: seq<Block>, k: nat, n: int)
    requires k < |bs| && bs[k].free
    ensures Live(bs[..k] + Halves(bs[k], n) + bs[k + 1..]) == Live(bs)
  {
  }

  lemma FirstFitIs(bs: seq<Block>, n: int, i: nat)
    requires i <= |bs| && (i < |bs| ==> Suits(bs[i], n))
    requires forall j :: 0 <= j < i ==> !Suits(bs[j], n)
    ensures FirstFit(bs, n) == i
  {
  }

  lemma MergeTiled(bs: seq<Block>, k: nat)
    requires Tiled(bs, MEMORY_START, MEMORY_END) && k + 1 < |bs|
    ensures Tiled(bs[..k] + [Merge(bs[k], bs[k + 1])] + bs[k + 2..], MEMORY_START, MEMORY_END)
    ensures bs[k].size + bs[k + 1].size + HEADER <= MEMORY_END
  {
    TiledAt(bs, MEMORY_START, MEMORY_END, k);
    TiledAt(bs, MEMORY_START, MEMORY_END, k + 1);
    var m := [Merge(bs[k], bs[k + 1])];
    assert m[1..] == [];
    TiledReplace(bs, MEMORY_START, MEMORY_END, k, 2, m);
  }

  lemma MergeLive(bs: seq<Block>, k: nat)
    requires k + 1 < |bs| && bs[k].free && bs[k + 1].free
    ensures Live(bs[..k] + [Merge(bs[k], bs[k + 1])] + bs[k + 2..]) == Live(bs)
  {
  }

  /** One step of the pass, on the part of the list not yet passed. */
  lemma CoalesceStep(bs: seq<Block>, i: nat)
    requires i + 1 < |bs|
    ensures Mergeable(bs[i], bs[i + 1]) ==>
      var m := bs[..i] + [Merge(bs[i], bs[i + 1])] + bs[i + 2..];
      m[..i] == bs[..i] && Coalesce(m[i..]) == Coalesce(bs[i..])
    ensures !Mergeable(bs[i], bs[i + 1]) ==>
      bs[..i + 1] + Coalesce(bs[i + 1..]) == bs[..i] + Coalesce(bs[i..])
  {
    var t := bs[i..];
    assert t[0] == bs[i] && t[1] == bs[i + 1] && t[1..] == bs[i + 1..] && t[2..] == bs[i + 2..];
    if Mergeable(bs[i], bs[i + 1]) {
      var m := bs[..i] + [Merge(bs[i], bs[i + 1])] + bs[i + 2..];
      assert m[i..] == [Merge(t[0], t[1])] + t[2..];
    } else {
      assert bs[..i + 1] == bs[..i] + [bs[i]];
    }
  }

  lemma FindIs(bs: seq<Block>, p: int, i: nat)
    requires i <= |bs| && (i < |bs| ==> bs[i].addr == p)
    requires forall j :: 0 <= j < i ==> bs[j].addr != p
    ensures Find(bs, p) == i
  {
  }

  lemma NewBlockApart(live: set<Block>, g: Block)
    requires forall b :: b in live ==> b.End() <= g.Start() || g.End() <= b.Start()
    requires 0 <= g.size
    ensures g !in live
  {
  }

  lemma KeepChain(l0: set<Block>, l1: set<Block>, l2: set<Block>,
                  r0: seq<Byte>, r1: seq<Byte>, r2: seq<Byte>, r3: seq<Byte>)
    requires Untouched(l0, r0, r1) && Untouched(l1, r1, r2) && Untouched(l2, r2, r3) && l0 <= l1
    ensures Untouched(l0 * l2, r0, r3)
  {
    UntouchedLess(l0, l0 * l2, r0, r1);
    UntouchedLess(l1, l0 * l2, r1, r2);
    UntouchedLess(l2, l0 * l2, r2, r3);
  }

  lemma CopySurvives(l0: set<Block>, l1: set<Block>, b: Block, g: Block,
                     r0: seq<Byte>, r1: seq<Byte>, r2: seq<Byte>, r3: seq<Byte>, n: int)
    requires b in l0 && g in l1 && 0 <= n <= b.size && n <= g.size
    requires 0 <= b.addr && b.End() <= |r0| && 0 <= g.addr && g.End() <= |r2|
    requires Untouched(l0, r0, r1) && Copied(r1, r2, b.addr, g.addr, n) && Untouched(l1, r2, r3)
    ensures Copied(r0, r3, b.addr, g.addr, n)
  {
    LivePayloadKept(l0, b, r0, r1, n);
    LivePayloadKept(l1, g, r2, r3, n);
  }
}
