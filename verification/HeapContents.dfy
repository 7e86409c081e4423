/** What clients of the heap read back over any run of calls and of their own stores. */
module HeapContents {
  import opened Machine
  import opened Blocks
  import opened Heap
  import opened HeapLayout
  import opened HeapRuns

  /** What one call or client store does to memory. */
  ghost predicate Effect(h: Heap, c: Call, r0: seq<Byte>, r1: seq<Byte>) {
    && Untouched({}, r0, r1)
    && (!c.Store? ==> Untouched(Live(h.blocks) * Live(Apply(h, c).blocks), r0, r1))
    && (c.KCalloc? ==> Zeroed(r1, Returned(h, c), Wrap(c.count * c.size)))
    && (c.KRealloc? && MovedSize(h, c.p, c.size) > 0 ==>
          forall b :: b in Live(h.blocks) && b.addr == c.p ==>
            Copied(r0, r1, c.p, Returned(h, c), MovedSize(h, c.p, c.size)))
    && (c.Store? ==> c.a < |r0| && r1 == r0[c.a := c.v])
  }

  ghost predicate Zeroed(r: seq<Byte>, q: int, n: int) {
    q != 0 ==> 0 <= q && q + n <= |r| && forall a :: q <= a < q + n ==> r[a] == 0
  }

  /** Bytes kept by a call that stores nothing for a client still read as known. */
  lemma KeptAgrees(h: Heap, m: Known, c: Call, r0: seq<Byte>, r1: seq<Byte>)
    requires Sound(h) && OnlyLive(m, Live(h.blocks)) && Agrees(m, r0)
    requires Untouched(Live(h.blocks) * Live(Apply(h, c).blocks), r0, r1)
    ensures Agrees(Kept(m, Live(Apply(h, c).blocks)), r1)
  {
    hide Apply;
    forall a | a in m && InLive(Live(Apply(h, c).blocks), a) ensures r1[a] == m[a] {
      SameBlock(h, c, a);
      assert Protected(Live(h.blocks) * Live(Apply(h, c).blocks), a);
    }
  }

  /** What is copied reads as it did at its source. */
  lemma CopyAgrees(m: Known, p: int, q: int, n: int, r0: seq<Byte>, r1: seq<Byte>)
    requires Agrees(m, r0) && Copied(r0, r1, p, q, n)
    ensures Agrees(Shifted(m, p, q, n), r1)
  {
    forall a | a in Shifted(m, p, q, n) ensures 0 <= a < |r1| && r1[a] == m[a - q + p] {
      assert InSpan(q, n, a);
      assert r1[q..q + n][a - q] == r0[p..p + n][a - q];
    }
  }

  /** What a call zeroes, copies or stores reads as learnt. */
  lemma LearntAgrees(h: Heap, m: Known, c: Call, r0: seq<Byte>, r1: seq<Byte>)
    requires Sound(h) && OnlyLive(m, Live(h.blocks)) && Agrees(m, r0) && Effect(h, c, r0, r1)
    ensures Agrees(Learnt(h, m, c), r1)
  {
    if c.KRealloc? {
      hide Untouched, Copied, Returned, ReallocPtr;
      var q, n := Returned(h, c), MovedSize(h, c.p, c.size);
      assert q == ReallocPtr(h, c.p, c.size) by { ReturnedRealloc(h, c.p, c.size); }
      if a :| a in Shifted(m, c.p, q, n) {
        assert InSpan(q, n, a);
        KnownSource(h, m, c.p, a - q + c.p);
        CopyAgrees(m, c.p, q, n, r0, r1);
      }
    }
  }

  lemma ReturnedRealloc(h: Heap, p: Word, size: Word)
    ensures Returned(h, KRealloc(p, size)) == ReallocPtr(h, p, size)
  {
  }

  ghost predicate Knows(m: Known, a: int, v: Byte) {
    a in m && m[a] == v
  }

  /** A byte stored is known. */
  lemma StoreKnown(h: Heap, m: Known, c: Call)
    requires c.Store?
    ensures Knows(Remember(h, m, c), c.a, c.v)
  {
  }

  /** All over the block of `kcalloc` zeroes are known. */
  lemma ZeroesKnown(h: Heap, m: Known, c: Call, i: nat)
    requires c.KCalloc? && i < (c.count * c.size) % 0x1_0000_0000 && Returned(h, c) != 0
    ensures Knows(Remember(h, m, c), Returned(h, c) + i, 0)
  {
    hide Kept, Apply, Returned, Wrap;
    var q, n := Returned(h, c), Wrap(c.count * c.size);
    WrapIs(c.count * c.size);
    assert InSpan(q, n, q + i);
    assert q + i in Zeroes(q, n);
  }

  /** Whatever was known of the old block of `krealloc` is known of the new one at the same offset, as far as
      both reach. */
  lemma MovedKnown(h: Heap, m: Known, c: Call, b: Block, i: nat)
    requires Sound(h) && c.KRealloc? && b in Live(h.blocks) && b.addr == c.p && Returned(h, c) != 0
    requires i < b.size && i < c.size && b.addr + i in m
    ensures Knows(Remember(h, m, c), Returned(h, c) + i, m[b.addr + i])
  {
    hide Kept, Apply, MallocPtr, Sound;
    SoundWellFormed(h);
    LiveAt(h.blocks, b);
    var q, n := ReallocPtr(h, c.p, c.size), MovedSize(h, c.p, c.size);
    assert InSpan(q, n, q + i);
    assert q + i in Shifted(m, c.p, q, n);
  }

  /** After a call everything remembered is in live payloads and reads as remembered. */
  lemma EffectRemembered(h: Heap, m: Known, c: Call, r0: seq<Byte>, r1: seq<Byte>)
    requires (Sound(h) || h.blocks == []) && Permitted(h, c) && OnlyLive(m, Live(h.blocks)) && Agrees(m, r0)
    requires Effect(h, c, r0, r1)
    ensures Agrees(Remember(h, m, c), r1) && OnlyLive(Remember(h, m, c), Live(Apply(h, c).blocks))
  {
    hide Learnt, Apply, Effect;
    if h.blocks == [] {
      NothingRemembered(h, m, c);
    } else {
      LearntLive(h, m, c);
      LearntAgrees(h, m, c, r0, r1);
      if !c.Store? {
        assert Untouched(Live(h.blocks) * Live(Apply(h, c).blocks), r0, r1) by { EffectKeeps(h, c, r0, r1); }
        KeptAgrees(h, m, c, r0, r1);
      } else {
        StoreKeeps(h, m, c, r0, r1);
      }
    }
  }

  lemma EffectKeeps(h: Heap, c: Call, r0: seq<Byte>, r1: seq<Byte>)
    requires Effect(h, c, r0, r1) && !c.Store?
    ensures Untouched(Live(h.blocks) * Live(Apply(h, c).blocks), r0, r1)
  {
  }

  /** Before initialisation there is nothing to know. */
  lemma NothingRemembered(h: Heap, m: Known, c: Call)
    requires h.blocks == [] && Permitted(h, c) && OnlyLive(m, Live(h.blocks))
    ensures Remember(h, m, c) == map[]
  {
    assert forall a :: a !in m;
  }

  lemma StoreKeeps(h: Heap, m: Known, c: Call, r0: seq<Byte>, r1: seq<Byte>)
    requires c.Store? && Agrees(m, r0) && Effect(h, c, r0, r1)
    ensures forall a :: a in m && a !in Learnt(h, m, c) ==> 0 <= a < |r1| && r1[a] == m[a]
  {
  }
}
