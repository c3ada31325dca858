/** A bump allocator over a growing list of pages.  Addresses are numbers, and what malloc returns is
    an argument: any address of a free, suitably aligned block. */
module LinearAllocator {

  const INITIAL_PAGE_SIZE: nat := 4096
  const MAX_PAGE_SIZE: nat := 131072
  const MAX_WASTE_SIZE: nat := 1024

  predicate Alignment(a: nat) { a == 4 || a == 8 }

  function AlignToFour(x: int): (r: int)
    ensures x <= r < x + 4 && r % 4 == 0 && (x % 4 == 0 ==> r == x)
  {
    (x + 3) / 4 * 4
  }

  function AlignToEight(x: int): (r: int)
    ensures x <= r < x + 8 && r % 8 == 0 && (x % 8 == 0 ==> r == x)
  {
    (x + 7) / 8 * 8
  }

  /** ALIGN for an alignment of 4 or 8. */
  function Align(x: int, a: nat): (r: int)
    requires Alignment(a)
    ensures x <= r < x + a && r % a == 0
    ensures x % a == 0 ==> r == x
  {
    if a == 4 then AlignToFour(x) else AlignToEight(x)
  }

  lemma SumOfFours(x: int, y: int)
    requires x % 4 == 0 && y % 4 == 0
    ensures (x + y) % 4 == 0 && (x - y) % 4 == 0
  {
  }

  lemma SumOfEights(x: int, y: int)
    requires x % 8 == 0 && y % 8 == 0
    ensures (x + y) % 8 == 0 && (x - y) % 8 == 0
  {
  }

  lemma SumIsAligned(x: int, y: int, a: nat)
    requires Alignment(a) && x % a == 0 && y % a == 0
    ensures (x + y) % a == 0 && (x - y) % a == 0
  {
    if a == 4 {
      SumOfFours(x, y);
    } else {
      SumOfEights(x, y);
    }
  }

  lemma AlignedAreApart(x: int, y: int, a: nat)
    requires Alignment(a) && x % a == 0 && y % a == 0 && x <= y < x + a
    ensures x == y
  {
  }

  lemma AlignSum(x: int, y: int, a: nat)
    requires Alignment(a) && x % a == 0
    ensures Align(x + y, a) == x + Align(y, a)
  {
    hide Align;
    SumIsAligned(x, Align(y, a), a);
    if Align(x + y, a) <= x + Align(y, a) {
      AlignedAreApart(Align(x + y, a), x + Align(y, a), a);
    } else {
      AlignedAreApart(x + Align(y, a), Align(x + y, a), a);
    }
  }

  /** The size of the page behind one of this size. */
  function Doubled(pageSize: nat): nat { if pageSize * 2 < MAX_PAGE_SIZE then pageSize * 2 else MAX_PAGE_SIZE }

  datatype Range = Range(ptr: int, size: nat)

  predicate Apart(x: int, xEnd: int, y: int, yEnd: int) { xEnd <= y || yEnd <= x }

  /** A page header at the start of a malloc block. */
  class Page {
    const addr: int
    const size: nat
    var mNextPage: Page?

    constructor (addr: int, size: nat)
      ensures this.addr == addr && this.size == size && mNextPage == null
    {
      this.addr, this.size, mNextPage := addr, size, null;
    }
  }

  ghost predicate ApartFrom(buf: int, bytes: nat, pages: seq<Page>) {
    forall i :: 0 <= i < |pages| ==> Apart(buf, buf + bytes, pages[i].addr, pages[i].addr + pages[i].size)
  }

  ghost predicate DisjointBlocks(pages: seq<Page>) {
    forall i, j :: 0 <= i < j < |pages| ==>
      Apart(pages[i].addr, pages[i].addr + pages[i].size, pages[j].addr, pages[j].addr + pages[j].size)
  }

  ghost function After(pages: seq<Page>, i: nat): Page? { if i + 1 < |pages| then pages[i + 1] else null }

  ghost predicate Linked(pages: seq<Page>)
    reads pages
  {
    && (forall i, j :: 0 <= i < j < |pages| ==> pages[i] != pages[j])
    && forall i :: 0 <= i < |pages| ==> pages[i].mNextPage == After(pages, i)
  }

  lemma LinkedFront(page: Page, pages: seq<Page>)
    requires Linked(pages) && page !in pages
    requires page.mNextPage == if pages == [] then null else pages[0]
    ensures Linked([page] + pages)
  {
    var more := [page] + pages;
    forall i | 0 <= i < |more|
      ensures more[i].mNextPage == After(more, i)
    {
      if i > 0 {
        assert more[i] == pages[i - 1] && After(more, i) == After(pages, i - 1);
      }
    }
  }

  ghost predicate DisjointRanges(live: set<Range>) {
    forall r, q :: r in live && q in live && r != q && r.size > 0 && q.size > 0 ==>
      Apart(r.ptr, r.ptr + r.size, q.ptr, q.ptr + q.size)
  }

  class Allocator {
    /** ALIGN_SZ and sizeof(Page). */
    const alignSize: nat
    const pageHeader: nat
    var mPageSize: nat
    var mNext: int
    var mCurrentPage: Page?
    var mPages: Page?
    ghost var spine: seq<Page>
    ghost var live: set<Range>

    function Start(p: Page): int
      requires Alignment(alignSize)
    {
      Align(p.addr + pageHeader, alignSize)
    }

    /** The range lies behind the header of the page and within its block. */
    ghost predicate Within(r: Range, p: Page)
      requires Alignment(alignSize)
    {
      Start(p) <= r.ptr && r.ptr + r.size <= p.addr + p.size
    }

    ghost predicate GoodPages(pages: seq<Page>)
      requires Alignment(alignSize)
    {
      && DisjointBlocks(pages)
      && forall i :: 0 <= i < |pages| ==>
           0 < pages[i].addr && pages[i].addr % alignSize == 0 && pageHeader <= pages[i].size
    }

    ghost predicate Placed(r: Range, pages: seq<Page>)
      requires Alignment(alignSize)
    {
      && r.ptr % alignSize == 0 && r.size % alignSize == 0
      && exists i :: 0 <= i < |pages| && Within(r, pages[i])
    }

    /** What has been handed out: aligned, inside the pages, and no two ranges overlap. */
    ghost predicate GoodRanges(ranges: set<Range>, pages: seq<Page>)
      requires Alignment(alignSize)
    {
      DisjointRanges(ranges) && forall r :: r in ranges ==> Placed(r, pages)
    }

    /** No range reaches into the part of the block behind next. */
    ghost predicate TailFree(ranges: set<Range>, next: int, end: int) {
      forall r :: r in ranges && r.size > 0 ==> Apart(r.ptr, r.ptr + r.size, next, end)
    }

    /** The unused part of the current page. */
    ghost predicate FreeTail()
      requires Alignment(alignSize)
      reads this
    {
      mNext != 0 ==>
        && mCurrentPage != null && mNext % alignSize == 0
        && Start(mCurrentPage) <= mNext <= mCurrentPage.addr + mPageSize <= mCurrentPage.addr + mCurrentPage.size
        && TailFree(live, mNext, mCurrentPage.addr + mCurrentPage.size)
    }

    ghost predicate Valid()
      reads this, spine
    {
      && Alignment(alignSize) && (pageHeader == 4 || pageHeader == 8)
      && INITIAL_PAGE_SIZE <= mPageSize <= MAX_PAGE_SIZE && mPageSize % alignSize == 0
      && Linked(spine) && GoodPages(spine)
      && mPages == (if spine == [] then null else spine[0])
      && mCurrentPage == (if spine == [] then null else spine[|spine| - 1])
      && FreeTail() && GoodRanges(live, spine)
    }

    constructor (alignSize: nat, pageHeader: nat)
      requires Alignment(alignSize) && (pageHeader == 4 || pageHeader == 8)
      ensures Valid() && live == {} && spine == [] && this.alignSize == alignSize && this.pageHeader == pageHeader
    {
      this.alignSize, this.pageHeader := alignSize, pageHeader;
      mPageSize, mNext, mCurrentPage, mPages := INITIAL_PAGE_SIZE, 0, null, null;
      spine, live := [], {};
    }

    predicate FitsInCurrentPage(size: nat)
      reads this
    {
      mNext != 0 && mCurrentPage != null && mNext + size <= mCurrentPage.addr + mPageSize
    }

    function NextPageSize(): (n: nat)
      requires Alignment(alignSize)
      reads this
    {
      if mCurrentPage != null && mPageSize < MAX_PAGE_SIZE
      then Align(Doubled(mPageSize), alignSize)
      else mPageSize
    }

    /** The bytes newPage asks malloc for in an allocation of this size, or 0 if it is not called. */
    function Requested(size: nat): nat
      requires Alignment(alignSize)
      reads this
    {
      var aligned := Align(size, alignSize);
      if FitsInCurrentPage(aligned) then 0
      else if aligned > MAX_WASTE_SIZE then Align(aligned + pageHeader, alignSize)
      else Align(NextPageSize() + pageHeader, alignSize)
    }

    /** What malloc may return: an aligned block that overlaps no page. */
    ghost predicate FreeBlock(buf: int, bytes: nat)
      requires Alignment(alignSize)
      reads this
    {
      0 < buf && buf % alignSize == 0 && ApartFrom(buf, bytes, spine)
    }

    // ---------------------------------------------------------- pages and ranges

    lemma PagesGrow(pages: seq<Page>, p: Page)
      requires Alignment(alignSize) && GoodPages(pages) && ApartFrom(p.addr, p.size, pages)
      requires 0 < p.addr && p.addr % alignSize == 0 && pageHeader <= p.size
      ensures GoodPages([p] + pages) && GoodPages(pages + [p])
    {
      hide Apart;
      ApartSymmetric();
    }

    lemma ApartSymmetric()
      ensures forall x, xEnd, y, yEnd :: Apart(x, xEnd, y, yEnd) <==> Apart(y, yEnd, x, xEnd)
    {
    }

    lemma RangesStay(ranges: set<Range>, pages: seq<Page>, p: Page)
      requires Alignment(alignSize) && GoodRanges(ranges, pages)
      ensures GoodRanges(ranges, [p] + pages) && GoodRanges(ranges, pages + [p])
    {
      hide Within, Apart;
      forall r | r in ranges
        ensures Placed(r, [p] + pages) && Placed(r, pages + [p])
      {
        var i :| 0 <= i < |pages| && Within(r, pages[i]);
        assert ([p] + pages)[i + 1] == pages[i] && (pages + [p])[i] == pages[i];
      }
    }

    /** A range in a new page overlaps no range in the others. */
    lemma NewPageIsApart(ranges: set<Range>, pages: seq<Page>, p: Page)
      requires Alignment(alignSize) && GoodRanges(ranges, pages) && ApartFrom(p.addr, p.size, pages)
      ensures TailFree(ranges, p.addr, p.addr + p.size)
    {
      forall r | r in ranges && r.size > 0
        ensures Apart(r.ptr, r.ptr + r.size, p.addr, p.addr + p.size)
      {
        assert Placed(r, pages);
        var i :| 0 <= i < |pages| && Within(r, pages[i]);
        assert Apart(p.addr, p.addr + p.size, pages[i].addr, pages[i].addr + pages[i].size);
      }
    }

    lemma RangeAdded(ranges: set<Range>, pages: seq<Page>, r: Range, next: int, end: int, i: nat)
      requires Alignment(alignSize) && GoodRanges(ranges, pages) && TailFree(ranges, next, end)
      requires next <= r.ptr && r.ptr + r.size <= end && r.ptr % alignSize == 0 && r.size % alignSize == 0
      requires i < |pages| && Within(r, pages[i])
      ensures GoodRanges(ranges + {r}, pages)
    {
    }

    lemma RangeIsNew(ranges: set<Range>, r: Range, next: int, end: int)
      requires TailFree(ranges, next, end) && next <= r.ptr && r.ptr + r.size <= end
      ensures r.size > 0 ==> r !in ranges
    {
    }

    // ---------------------------------------------------------- allocating

    /** newPage, and the page goes to the front of the list. */
    method PushFront(buf: int, bytes: nat) returns (page: Page)
      requires Valid() && pageHeader <= bytes && FreeBlock(buf, bytes)
      modifies this
      ensures Valid() && fresh(page) && page.addr == buf && page.size == bytes && spine == [page] + old(spine)
      ensures live == old(live) && mNext == old(mNext) && mPageSize == old(mPageSize)
      ensures TailFree(live, buf, buf + bytes)
    {
      hide Align, Apart, GoodPages, GoodRanges, TailFree, ApartFrom, Linked;
      page := new Page(buf, bytes);
      page.mNextPage := mPages;
      mPages := page;
      if mCurrentPage == null {
        mCurrentPage := mPages;
      }
      PagesGrow(spine, page);
      RangesStay(live, spine, page);
      NewPageIsApart(live, spine, page);
      LinkedFront(page, spine);
      spine := [page] + spine;
    }

    /** newPage, and the page becomes the current one at the end of the list. */
    method PushCurrent(buf: int, bytes: nat) returns (page: Page)
      requires Valid() && pageHeader <= bytes && FreeBlock(buf, bytes)
      modifies this, mCurrentPage
      ensures fresh(page) && page.addr == buf && page.size == bytes && spine == old(spine) + [page]
      ensures Linked(spine) && GoodPages(spine) && GoodRanges(live, spine) && TailFree(live, buf, buf + bytes)
      ensures mPages == spine[0] && mCurrentPage == page
      ensures live == old(live) && mNext == old(mNext) && mPageSize == old(mPageSize)
    {
      hide Align, Apart, GoodPages, GoodRanges, TailFree, FreeTail, ApartFrom;
      page := new Page(buf, bytes);
      PagesGrow(spine, page);
      RangesStay(live, spine, page);
      NewPageIsApart(live, spine, page);
      if mCurrentPage != null {
        mCurrentPage.mNextPage := page;
      }
      mCurrentPage := page;
      if mPages == null {
        mPages := mCurrentPage;
      }
      spine := spine + [page];
    }

    /** A page of its own for a large allocation. */
    method AllocDedicated(size: nat, buf: int) returns (ptr: int)
      requires Valid() && size % alignSize == 0 && FreeBlock(buf, Align(size + pageHeader, alignSize))
      modifies this
      ensures Valid() && live == old(live) + {Range(ptr, size)} && mNext == old(mNext) && mPageSize == old(mPageSize)
      ensures |spine| == |old(spine)| + 1 && fresh(spine[0]) && spine[1..] == old(spine) && ptr == Start(spine[0])
      ensures size > 0 ==> Range(ptr, size) !in old(live)
    {
      hide Align, Apart, DisjointBlocks, Placed, DisjointRanges, TailFree, Linked, GoodPages;
      AlignSum(size, pageHeader, alignSize);
      AlignSum(buf, pageHeader, alignSize);
      var page := PushFront(buf, Align(size + pageHeader, alignSize));
      ptr := Start(page);
      RangeAdded(live, spine, Range(ptr, size), page.addr, page.addr + page.size, 0);
      TailKept(Range(ptr, size), page);
      RangeIsNew(live, Range(ptr, size), page.addr, page.addr + page.size);
      live := live + {Range(ptr, size)};
    }

    /** A range in the first page does not reach into the tail of the current one. */
    lemma TailKept(r: Range, page: Page)
      requires Valid() && |spine| > 0 && page == spine[0] && Within(r, page) && (mNext != 0 ==> |spine| > 1)
      ensures mNext != 0 ==> TailFree(live + {r}, mNext, mCurrentPage.addr + mCurrentPage.size)
    {
      hide Linked, GoodRanges;
      if mNext != 0 {
        var cur := spine[|spine| - 1];
        assert Apart(page.addr, page.addr + page.size, cur.addr, cur.addr + cur.size);
      }
    }

    lemma NextPageSizeIs()
      requires Valid()
      ensures INITIAL_PAGE_SIZE <= NextPageSize() <= MAX_PAGE_SIZE && NextPageSize() % alignSize == 0
      ensures NextPageSize() == if mCurrentPage == null then mPageSize else Doubled(mPageSize)
    {
      hide Linked, GoodPages, GoodRanges, FreeTail;
      SumIsAligned(mPageSize, mPageSize, alignSize);
    }

    /** Afterwards the size fits in the current page, a new one of twice the size if it did not fit before. */
    method EnsureNext(size: nat, buf: int)
      requires Valid() && size % alignSize == 0 && (FitsInCurrentPage(size) || size <= MAX_WASTE_SIZE)
      requires !FitsInCurrentPage(size) ==> FreeBlock(buf, Align(NextPageSize() + pageHeader, alignSize))
      modifies this, mCurrentPage
      ensures Valid() && FitsInCurrentPage(size) && live == old(live)
      ensures if old(FitsInCurrentPage(size)) then spine == old(spine) && mNext == old(mNext)
        else (|spine| == |old(spine)| + 1 && fresh(spine[|spine| - 1]) && spine[..|spine| - 1] == old(spine)
              && mCurrentPage == spine[|spine| - 1] && mNext == Start(mCurrentPage))
      ensures mPageSize ==
        if old(FitsInCurrentPage(size)) || old(mCurrentPage) == null then old(mPageSize) else Doubled(old(mPageSize))
    {
      hide Align, Apart, GoodPages, GoodRanges, Linked;
      if FitsInCurrentPage(size) {
        return;
      }
      NextPageSizeIs();
      AlignSum(buf, pageHeader, alignSize);
      var pageSize := NextPageSize();
      var page := PushCurrent(buf, Align(pageSize + pageHeader, alignSize));
      mPageSize := pageSize;
      mNext := Start(page);
      SmallHeader();
      TailShrinks(live, buf, mNext, buf + page.size);
    }

    lemma SmallHeader()
      requires Alignment(alignSize) && (pageHeader == 4 || pageHeader == 8)
      ensures Align(pageHeader, alignSize) <= 8
    {
    }

    lemma TailShrinks(ranges: set<Range>, next: int, later: int, end: int)
      requires TailFree(ranges, next, end) && next <= later <= end
      ensures TailFree(ranges, later, end)
    {
    }

    /** Takes the size from the front of the free tail. */
    method Bump(size: nat) returns (ptr: int)
      requires Valid() && size % alignSize == 0 && FitsInCurrentPage(size)
      modifies `mNext, `live
      ensures Valid() && ptr == old(mNext) && mNext == ptr + size && live == old(live) + {Range(ptr, size)}
      ensures size > 0 ==> Range(ptr, size) !in old(live)
    {
      hide Align, DisjointBlocks, Linked;
      ptr := mNext;
      ghost var end := mCurrentPage.addr + mCurrentPage.size;
      assert Within(Range(ptr, size), spine[|spine| - 1]);
      RangeAdded(live, spine, Range(ptr, size), mNext, end, |spine| - 1);
      SumIsAligned(mNext, size, alignSize);
      TailShrinks(live, mNext, mNext + size, end);
      mNext := mNext + size;
      live := live + {Range(ptr, size)};
    }

    /** Returns aligned room for the size: no range handed out and not rewound overlaps it.  It is the next room
        of the current page if that is enough; else the start of a new current page, or for a large size that of
        a page of its own, which leaves the current page in use. */
    method Alloc(size: nat, buf: int) returns (ptr: int)
      requires Valid() && (Requested(size) > 0 ==> FreeBlock(buf, Requested(size)))
      modifies this, mCurrentPage
      ensures Valid() && live == old(live) + {Range(ptr, Align(size, alignSize))}
      ensures size > 0 ==> Range(ptr, Align(size, alignSize)) !in old(live)
      ensures old(FitsInCurrentPage(Align(size, alignSize))) ==>
        && spine == old(spine) && ptr == old(mNext) && mNext == ptr + Align(size, alignSize)
        && mPageSize == old(mPageSize)
      ensures !old(FitsInCurrentPage(Align(size, alignSize))) && Align(size, alignSize) <= MAX_WASTE_SIZE ==>
        && |spine| == |old(spine)| + 1 && spine[..|spine| - 1] == old(spine) && fresh(spine[|spine| - 1])
        && mCurrentPage == spine[|spine| - 1] && ptr == Start(mCurrentPage) && mNext == ptr + Align(size, alignSize)
        && mPageSize == if old(mCurrentPage) == null then old(mPageSize) else Doubled(old(mPageSize))
      ensures !old(FitsInCurrentPage(Align(size, alignSize))) && Align(size, alignSize) > MAX_WASTE_SIZE ==>
        && |spine| == |old(spine)| + 1 && spine[1..] == old(spine) && fresh(spine[0]) && ptr == Start(spine[0])
        && mNext == old(mNext) && mPageSize == old(mPageSize)
    {
      hide Align, Apart, Linked, GoodPages, GoodRanges, FreeTail;
      var aligned := Align(size, alignSize);
      if aligned > MAX_WASTE_SIZE && !FitsInCurrentPage(aligned) {
        ptr := AllocDedicated(aligned, buf);
        return;
      }
      EnsureNext(aligned, buf);
      ptr := Bump(aligned);
    }

    /** The pointer and the size pass for the last allocation of the current page. */
    predicate IsLastAlloc(ptr: int, allocSize: nat)
      requires Alignment(alignSize)
      reads this
    {
      && mCurrentPage != null && Start(mCurrentPage) <= ptr < mCurrentPage.addr + mPageSize
      && ptr == mNext - Align(allocSize, alignSize)
    }

    /** Gives back the range, and with it all that reaches behind its start in the current page; so nothing
        else if it is what was handed out last, and nothing at all if it does not end where the free tail
        begins.  Any pointer and size are accepted. */
    method RewindIfLastAlloc(ptr: int, allocSize: nat)
      requires Valid()
      modifies `mNext, `live
      ensures Valid()
      ensures if old(IsLastAlloc(ptr, allocSize))
        then mNext == ptr && live == Before(old(live), ptr, old(mNext)) - {Range(ptr, Align(allocSize, alignSize))}
        else mNext == old(mNext) && live == old(live)
      ensures old(IsLastAlloc(ptr, allocSize)) && Range(ptr, Align(allocSize, alignSize)) in old(live) ==>
        live == old(live) - {Range(ptr, Align(allocSize, alignSize))}
    {
      hide Align, Linked, DisjointBlocks;
      var aligned := Align(allocSize, alignSize);
      if mCurrentPage != null {
        if ptr >= Start(mCurrentPage) && ptr < mCurrentPage.addr + mPageSize && ptr == mNext - aligned {
          assert mNext != 0;
          ghost var r, end := Range(ptr, aligned), mCurrentPage.addr + mCurrentPage.size;
          SumIsAligned(mNext, aligned, alignSize);
          TailGrows(live, spine, r, mNext, end);
          mNext := ptr;
          live := Before(live, ptr, r.ptr + r.size) - {r};
        }
      }
    }

    /** The ranges that do not reach into the addresses from ptr to next. */
    ghost function Before(ranges: set<Range>, ptr: int, next: int): set<Range> {
      set r | r in ranges && (r.size > 0 ==> Apart(r.ptr, r.ptr + r.size, ptr, next))
    }

    /** Without the ranges that reach behind it the tail is free from there on. */
    lemma TailGrows(ranges: set<Range>, pages: seq<Page>, r: Range, next: int, end: int)
      requires Alignment(alignSize) && GoodRanges(ranges, pages) && TailFree(ranges, next, end)
      requires r.ptr + r.size == next <= end
      ensures var rest := Before(ranges, r.ptr, next) - {r};
        TailFree(rest, r.ptr, end) && GoodRanges(rest, pages)
      ensures r in ranges ==> Before(ranges, r.ptr, next) - {r} == ranges - {r}
    {
      forall q | q in ranges && q != r && r in ranges && q.size > 0
        ensures Apart(q.ptr, q.ptr + q.size, r.ptr, next)
      {
        assert r.size == 0 || Apart(q.ptr, q.ptr + q.size, r.ptr, r.ptr + r.size);
      }
    }

    /** The destructor: walks the list and frees every page exactly once. */
    method Destroy() returns (freed: seq<Page>)
      requires Valid()
      ensures freed == spine
      ensures forall i, j :: 0 <= i < j < |freed| ==> freed[i] != freed[j]
    {
      hide Align, GoodPages, GoodRanges, FreeTail;
      freed := [];
      var p := mPages;
      while p != null
        invariant |freed| <= |spine| && freed == spine[..|freed|]
        invariant p == if |freed| < |spine| then spine[|freed|] else null
        decreases |spine| - |freed|
      {
        ghost var k := |freed|;
        assert spine[k].mNextPage == After(spine, k);
        var next := p.mNextPage;
        freed := freed + [p];
        p := next;
      }
    }
  }
}
