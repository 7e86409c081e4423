/** The kernel heap as a value: the list of blocks that tile the managed range, in address order.
    A block covers `[Start, End)`: a 20-byte header followed by its payload. */
module Blocks {
  import opened Headers

  const MEMORY_START := 0x10_0000
  const MEMORY_END := 0x100_0000

  /** `addr` is the payload address handed to callers. */
  datatype Block = Block(addr: int, size: int, free: bool) {
    function Start(): int { addr - HEADER }
    function End(): int { addr + size }
  }

  /** The blocks cover `[lo, hi)` exactly, without overlap, in address order. */
  ghost predicate Tiled(bs: seq<Block>, lo: int, hi: int) {
    if bs == [] then lo == hi
    else bs[0].Start() == lo && 0 <= bs[0].size && Tiled(bs[1..], bs[0].End(), hi)
  }

  /** No two neighbouring blocks are both free. */
  ghost predicate Coalesced(bs: seq<Block>) {
    forall i, j :: 0 <= i && j == i + 1 && j < |bs| ==> !(bs[i].free && bs[j].free)
  }

  /** All sizes, and so all addresses, are multiples of four. */
  ghost predicate Aligned(bs: seq<Block>) {
    forall i :: 0 <= i < |bs| ==> bs[i].size % 4 == 0
  }

  /** The layout that holds between any two calls. */
  ghost predicate WellFormed(bs: seq<Block>) {
    Tiled(bs, MEMORY_START, MEMORY_END) && Coalesced(bs)
  }

  /** The allocations callers hold. */
  ghost function Live(bs: seq<Block>): set<Block> {
    set b | b in bs && !b.free
  }

  const INITIAL := [Block(MEMORY_START + HEADER, MEMORY_END - MEMORY_START - HEADER, true)]

  // ------------------------------------------------------------------ operations on the list

  predicate Suits(b: Block, n: int) {
    b.free && b.size >= n
  }

  /** Index of the first free block with at least `n` bytes; the length if there is none. */
  function FirstFit(bs: seq<Block>, n: int): (k: nat)
    ensures k <= |bs|
    ensures k < |bs| ==> Suits(bs[k], n)
    ensures forall i :: 0 <= i < k ==> !Suits(bs[i], n)
  {
    if bs == [] || Suits(bs[0], n) then 0 else 1 + FirstFit(bs[1..], n)
  }

  /** Index of the block whose payload starts at `p`; the length if there is none. */
  function Find(bs: seq<Block>, p: int): (k: nat)
    ensures k <= |bs|
    ensures k < |bs| ==> bs[k].addr == p
    ensures forall i :: 0 <= i < k ==> bs[i].addr != p
  {
    if bs == [] || bs[0].addr == p then 0 else 1 + Find(bs[1..], p)
  }

  /** A free block given out for `n` bytes: split when more than a header would be left over. */
  function Carve(b: Block, n: int): (r: seq<Block>) {
    if b.size > n + HEADER then
      [Block(b.addr, n, false), Block(b.addr + n + HEADER, b.size - n - HEADER, true)]
    else
      [b.(free := false)]
  }

  /** First-fit allocation of `n` (already aligned) bytes. */
  function Alloc(bs: seq<Block>, n: int): (r: seq<Block>) {
    var k := FirstFit(bs, n);
    if k == |bs| then bs else bs[..k] + Carve(bs[k], n) + bs[k + 1..]
  }

  /** The pointer returned by that allocation; 0 is NULL. */
  function AllocPtr(bs: seq<Block>, n: int): (p: int) {
    var k := FirstFit(bs, n);
    if k == |bs| then 0 else bs[k].addr
  }

  predicate Mergeable(b: Block, c: Block) {
    b.free && c.free && b.End() == c.Start()
  }

  function Merge(b: Block, c: Block): (m: Block) {
    b.(size := b.size + c.size + HEADER)
  }

  /** One left-to-right pass that merges each free block with the free blocks after it. */
  function Coalesce(bs: seq<Block>): (r: seq<Block>)
    decreases |bs|
  {
    if |bs| < 2 then bs
    else if Mergeable(bs[0], bs[1]) then Coalesce([Merge(bs[0], bs[1])] + bs[2..])
    else [bs[0]] + Coalesce(bs[1..])
  }

  /** Frees the live block at `p`; anything else is ignored. */
  function Release(bs: seq<Block>, p: int): (r: seq<Block>) {
    var k := Find(bs, p);
    if k == |bs| || bs[k].free then bs else Coalesce(bs[k := bs[k].(free := true)])
  }

  // ------------------------------------------------------------------ tiling

  /** Where the tiling stands after the blocks of `bs`, starting from `lo`. */
  ghost function EndOf(bs: seq<Block>, lo: int): int {
    if bs == [] then lo else bs[|bs| - 1].End()
  }

  /** A tiling splits at any point into two tilings that meet there, and two such tilings join. */
  lemma {:induction false} TiledSplit(a: seq<Block>, b: seq<Block>, lo: int, hi: int)
    ensures Tiled(a + b, lo, hi) <==> Tiled(a, lo, EndOf(a, lo)) && Tiled(b, EndOf(a, lo), hi)
  {
    if a == [] {
      assert a + b == b;
    } else {
      var t := a[1..];
      assert (a + b)[1..] == t + b;
      TiledSplit(t, b, a[0].End(), hi);
      assert EndOf(t, a[0].End()) == EndOf(a, lo);
    }
  }

  /** Every block of a tiling lies in the range; the next block starts where it ends. */
  lemma {:induction false} TiledAt(bs: seq<Block>, lo: int, hi: int, i: nat)
    requires Tiled(bs, lo, hi) && i < |bs|
    ensures lo <= bs[i].Start() && bs[i].End() <= hi
    ensures 0 <= bs[i].size
    ensures i == 0 ==> bs[i].Start() == lo
    ensures i + 1 < |bs| ==> bs[i + 1].Start() == bs[i].End()
    ensures i + 1 == |bs| ==> bs[i].End() == hi
    decreases i
  {
    TiledSpan(bs[1..], bs[0].End(), hi);
    if i > 0 {
      TiledAt(bs[1..], bs[0].End(), hi, i - 1);
    }
  }

  lemma {:induction false} TiledSpan(bs: seq<Block>, lo: int, hi: int)
    requires Tiled(bs, lo, hi)
    ensures lo <= hi
    decreases |bs|
  {
    if bs != [] {
      TiledSpan(bs[1..], bs[0].End(), hi);
    }
  }

  /** Blocks of a tiling do not overlap, and headers keep them at least 20 bytes apart. */
  lemma {:induction false} TiledApart(bs: seq<Block>, lo: int, hi: int, i: nat, j: nat)
    requires Tiled(bs, lo, hi) && i < j < |bs|
    ensures bs[i].End() <= bs[j].Start()
    decreases j
  {
    TiledAt(bs, lo, hi, i);
    if i + 1 < j {
      TiledApart(bs, lo, hi, i, j - 1);
      TiledAt(bs, lo, hi, j - 1);
    }
  }

  /** All the layout facts at once, for quantified reasoning. */
  lemma TiledFacts(bs: seq<Block>, lo: int, hi: int)
    requires Tiled(bs, lo, hi)
    ensures forall i :: 0 <= i < |bs| ==>
      lo <= bs[i].Start() && bs[i].End() <= hi && 0 <= bs[i].size
    ensures forall i, j :: 0 <= i < j < |bs| ==> bs[i].End() <= bs[j].Start()
    ensures forall i, j :: 0 <= i && j == i + 1 && j < |bs| ==> bs[i].End() == bs[j].Start()
  {
  }

  /** Replacing one block by a tiling of the same extent keeps the whole a tiling. */
  lemma TiledReplace(bs: seq<Block>, lo: int, hi: int, i: nat, n: nat, mid: seq<Block>)
    requires Tiled(bs, lo, hi) && i + n <= |bs| && n > 0
    requires Tiled(mid, bs[i].Start(), bs[i + n - 1].End())
    ensures Tiled(bs[..i] + mid + bs[i + n..], lo, hi)
  {
    var a, gone, c := bs[..i], bs[i..i + n], bs[i + n..];
    assert bs == a + (gone + c);
    TiledSplit(a, gone + c, lo, hi);
    TiledSplit(gone, c, EndOf(a, lo), hi);
    assert gone[0] == bs[i] && gone[n - 1] == bs[i + n - 1];
    TiledSpan(mid, bs[i].Start(), bs[i + n - 1].End());
    TiledSplit(mid, c, EndOf(a, lo), hi);
    TiledEnd(mid, bs[i].Start(), bs[i + n - 1].End());
    TiledSplit(a, mid + c, lo, hi);
    assert a + mid + c == a + (mid + c);
  }

  lemma {:induction false} TiledEnd(bs: seq<Block>, lo: int, hi: int)
    requires Tiled(bs, lo, hi)
    ensures EndOf(bs, lo) == hi
  {
    if bs != [] {
      TiledAt(bs, lo, hi, |bs| - 1);
    }
  }
}
