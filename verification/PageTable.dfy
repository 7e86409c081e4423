/** The page table allocator of kernel/memory.c. */
module PageTables {
  import opened Machine
  import opened Blocks

  const PAGE_SIZE := 4096
  const MAX_PAGES := 3840 // (MEMORY_END - MEMORY_START) / PAGE_SIZE

  datatype Status = PageFree | PageUsed | PageReserved

  datatype Page = Page(address: Word, status: Status, refCount: Word)

  function AddressOf(i: int): (a: int) {
    MEMORY_START + i * PAGE_SIZE
  }

  /** A page is in use with one reference, or free with none. */
  predicate Settled(p: Page) {
    (p.status == PageUsed && p.refCount == 1) || (p.status == PageFree && p.refCount == 0)
  }

  ghost predicate TableValid(s: seq<Page>) {
    |s| == MAX_PAGES && forall i :: 0 <= i < |s| ==> s[i].address == AddressOf(i) && Settled(s[i])
  }

  function CountStatus(s: seq<Page>, status: Status): (n: nat) {
    if s == [] then 0 else CountStatus(s[..|s| - 1], status) + (if s[|s| - 1].status == status then 1 else 0)
  }

  lemma {:induction false} CountUpdate(s: seq<Page>, i: nat, p: Page, status: Status)
    requires i < |s|
    ensures CountStatus(s[i := p], status) ==
      CountStatus(s, status) - (if s[i].status == status then 1 else 0) + if p.status == status then 1 else 0
    decreases |s|
  {
    var n := |s| - 1;
    if i < n {
      CountUpdate(s[..n], i, p, status);
      assert s[i := p][..n] == s[..n][i := p];
    } else {
      assert s[i := p][..n] == s[..n];
    }
  }

  /** Two statuses are all there is, so the counts add up. */
  lemma {:induction false} CountsAddUp(s: seq<Page>)
    requires forall i :: 0 <= i < |s| ==> Settled(s[i])
    ensures CountStatus(s, PageFree) + CountStatus(s, PageUsed) == |s|
    decreases |s|
  {
    if s != [] {
      CountsAddUp(s[..|s| - 1]);
    }
  }

  lemma {:induction false} NoneFree(s: seq<Page>)
    requires forall i :: 0 <= i < |s| ==> s[i].status != PageFree
    ensures CountStatus(s, PageFree) == 0
    decreases |s|
  {
    if s != [] {
      NoneFree(s[..|s| - 1]);
    }
  }

  /** The table after giving out its lowest free page. */
  function Allocated(s: seq<Page>): (r: seq<Page>) {
    var k := FirstFree(s);
    if k == |s| then s else s[k := s[k].(status := PageUsed, refCount := 1)]
  }

  function FirstFree(s: seq<Page>): (k: nat)
    ensures k <= |s|
    ensures k < |s| ==> s[k].status == PageFree
    ensures forall i :: 0 <= i < k ==> s[i].status != PageFree
  {
    if s == [] || s[0].status == PageFree then 0 else 1 + FirstFree(s[1..])
  }

  /** Index of the page that starts at `a`; the length if there is none. */
  function PageAt(s: seq<Page>, a: int): (k: nat)
    ensures k <= |s|
    ensures k < |s| ==> s[k].address == a
    ensures forall i :: 0 <= i < k ==> s[i].address != a
  {
    if s == [] || s[0].address == a then 0 else 1 + PageAt(s[1..], a)
  }

  /** The table after `free_page(a)`: only a used page that starts at `a` loses a reference. */
  function Released(s: seq<Page>, a: int): (r: seq<Page>) {
    var k := PageAt(s, a);
    if k == |s| || s[k].status != PageUsed then s else
      var refs := Sub32(s[k].refCount, 1);
      s[k := s[k].(status := if refs == 0 then PageFree else PageUsed, refCount := refs)]
  }

  /** The scan by address finds the page by arithmetic: exactly the page starts in range are found. */
  lemma PageAtSpec(s: seq<Page>, a: int)
    requires TableValid(s)
    ensures PageAt(s, a) < |s| <==> MEMORY_START <= a < MEMORY_END && (a - MEMORY_START) % PAGE_SIZE == 0
    ensures PageAt(s, a) < |s| ==> PageAt(s, a) == (a - MEMORY_START) / PAGE_SIZE
  {
    var k := PageAt(s, a);
    if MEMORY_START <= a < MEMORY_END && (a - MEMORY_START) % PAGE_SIZE == 0 {
      var j := (a - MEMORY_START) / PAGE_SIZE;
      assert a == AddressOf(j) && 0 <= j < MAX_PAGES;
      assert s[j].address == a;
    }
  }

  /** `alloc_page` changes the lowest free page only: it is used, with one reference. */
  lemma AllocatedSpec(s: seq<Page>, i: nat)
    requires TableValid(s) && i < |s| && s[i].status == PageFree && forall j :: 0 <= j < i ==> s[j].status != PageFree
    ensures Allocated(s) == s[i := Page(0x10_0000 + 4096 * i, PageUsed, 1)]
  {
  }

  /** `free_page` of the start of any used page makes it free and leaves the others alone; any other address
      changes nothing. */
  lemma ReleasedSpec(s: seq<Page>, a: int)
    requires TableValid(s)
    ensures forall i :: 0 <= i < |s| && s[i].status == PageUsed && a == 0x10_0000 + 4096 * i ==>
      Released(s, a) == s[i := Page(a, PageFree, 0)]
    ensures (forall i :: 0 <= i < |s| && s[i].status == PageUsed ==> a != 0x10_0000 + 4096 * i) ==>
      Released(s, a) == s
  {
    forall i | 0 <= i < |s| && s[i].status == PageUsed && a == 0x10_0000 + 4096 * i
      ensures Released(s, a) == s[i := Page(a, PageFree, 0)]
    {
      assert PageAt(s, a) == i by { PageAtSpec(s, a); assert AddressOf(i) == a; }
    }
  }

  /** `alloc_page` undone by `free_page`: the table is exactly as before. */
  lemma AllocThenFree(s: seq<Page>)
    requires TableValid(s) && FirstFree(s) < |s|
    ensures Released(Allocated(s), AddressOf(FirstFree(s))) == s
  {
  }

  class PageTable {
    const pages: array<Page>
    var freePages: Word
    var usedPages: Word

    ghost predicate Valid()
      reads this, pages
    {
      && TableValid(pages[..])
      && freePages == CountStatus(pages[..], PageFree)
      && usedPages == CountStatus(pages[..], PageUsed)
      && freePages + usedPages == MAX_PAGES
    }

    /** `init_memory_manager`, page part. */
    constructor ()
      ensures Valid() && freePages == MAX_PAGES && fresh(pages)
    {
      var a := new Page[MAX_PAGES](_ => Page(0, PageFree, 0));
      var pageAddr: Word := MEMORY_START;
      for i := 0 to MAX_PAGES
        invariant pageAddr == AddressOf(i)
        invariant forall k :: 0 <= k < i ==> a[k] == Page(AddressOf(k), PageFree, 0)
      {
        a[i] := Page(pageAddr, PageFree, 0);
        pageAddr := pageAddr + PAGE_SIZE;
      }
      pages := a;
      freePages, usedPages := MAX_PAGES, 0;
      new;
      NoneUsed(pages[..]);
    }

    static lemma {:induction false} NoneUsed(s: seq<Page>)
      requires forall i :: 0 <= i < |s| ==> s[i].status == PageFree
      ensures CountStatus(s, PageFree) == |s| && CountStatus(s, PageUsed) == 0
      decreases |s|
    {
      if s != [] {
        NoneUsed(s[..|s| - 1]);
      }
    }

    /** `alloc_page`: the lowest free page, or NULL when none is left. */
    method AllocPage() returns (p: Word)
      requires Valid()
      modifies this, pages
      ensures Valid() && pages[..] == Allocated(old(pages[..]))
      ensures old(freePages) == 0 ==> p == 0 && freePages == 0
      ensures old(freePages) > 0 ==> p == AddressOf(FirstFree(old(pages[..]))) && freePages == old(freePages) - 1
    {
      ghost var s := pages[..];
      var i := 0;
      while i < MAX_PAGES
        invariant 0 <= i <= MAX_PAGES && Valid() && pages[..] == s && freePages == old(freePages)
        invariant forall k :: 0 <= k < i ==> s[k].status != PageFree
      {
        if pages[i].status == PageFree {
          var p' := pages[i].(status := PageUsed, refCount := 1);
          CountUpdate(s, i, p', PageFree);
          CountUpdate(s, i, p', PageUsed);
          assert FirstFree(s) == i;
          pages[i] := p';
          freePages := Sub32(freePages, 1);
          usedPages := Add32(usedPages, 1);
          assert pages[..] == s[i := p'];
          return pages[i].address;
        }
        i := i + 1;
      }
      NoneFree(s);
      return 0;
    }

    /** `free_page`: anything but the start of a used page is ignored. */
    method FreePage(addr: Word)
      requires Valid()
      modifies this, pages
      ensures Valid() && pages[..] == Released(old(pages[..]), addr)
      ensures freePages == old(freePages) + if pages[..] != old(pages[..]) then 1 else 0
    {
      ghost var s := pages[..];
      var i := 0;
      while i < MAX_PAGES
        invariant 0 <= i <= MAX_PAGES && Valid() && pages[..] == s && freePages == old(freePages)
        invariant forall k :: 0 <= k < i ==> s[k].address != addr
      {
        if pages[i].address == addr {
          assert PageAt(s, addr) == i;
          if pages[i].status == PageUsed {
            DropReference(i);
          }
          return;
        }
        i := i + 1;
      }
    }

    method DropReference(i: int)
      requires Valid() && 0 <= i < MAX_PAGES && pages[i].status == PageUsed
      modifies this, pages
      ensures Valid() && pages[..] == old(pages[..])[i := old(pages[i]).(status := PageFree, refCount := 0)]
      ensures freePages == old(freePages) + 1 && pages[..][i] != old(pages[..])[i]
    {
      ghost var s := pages[..];
      pages[i] := pages[i].(refCount := Sub32(pages[i].refCount, 1));
      if pages[i].refCount == 0 {
        pages[i] := pages[i].(status := PageFree);
        freePages := Add32(freePages, 1);
        usedPages := Sub32(usedPages, 1);
      }
      CountUpdate(s, i, s[i].(status := PageFree, refCount := 0), PageFree);
      CountUpdate(s, i, s[i].(status := PageFree, refCount := 0), PageUsed);
      CountsAddUp(s);
      assert pages[..] == s[i := s[i].(status := PageFree, refCount := 0)];
    }

    /** `get_page_info`: the page holding `addr`, by scanning; arithmetic finds the same one. */
    method GetPageInfo(addr: Word) returns (i: int)
      requires Valid()
      ensures i == if MEMORY_START <= addr < MEMORY_END then (addr - MEMORY_START) / PAGE_SIZE else -1
    {
      var pageAddr := addr - addr % PAGE_SIZE; // the mask with ~(PAGE_SIZE - 1)
      PageAtSpec(pages[..], pageAddr);
      i := 0;
      while i < MAX_PAGES
        invariant 0 <= i <= MAX_PAGES
        invariant forall k :: 0 <= k < i ==> pages[k].address != pageAddr
      {
        if pages[i].address == pageAddr {
          assert PageAt(pages[..], pageAddr) == i;
          return;
        }
        i := i + 1;
      }
      assert PageAt(pages[..], pageAddr) == MAX_PAGES;
      return -1;
    }
  }
}
