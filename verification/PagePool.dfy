/** The page allocator over an extent (libs/job_io/job_page_pool.cpp). The extent stays mapped
    while the pool lives; each public method is one atomic step. Pointers are addresses, 0 is null. */
module PagePool {
  import opened PowersOfTwo
  import opened Bits
  import opened MemRanges
  import opened RangeSets
  import opened Tiling
  import opened PageSpans

  datatype Allocation = Allocation(firstPageIndex: nat, pageCount: nat, requestedSize: nat)

  /** Every page descriptor covers its own bytes of the extent. */
  ghost predicate PagesScaled(extent: Extent, pageSize: nat, pages: seq<Page>) {
    forall i :: 0 <= i < |pages| ==>
      pages[i] == Page(i, extent.id, i, pageSize, BytesOf(extent, pageSize, MemRange(i, i + 1)))
  }

  /** The loop of `buildPages` */
  method BuildPages(extent: Extent, pageSize: nat, count: nat) returns (pages: seq<Page>)
    ensures |pages| == count && PagesScaled(extent, pageSize, pages)
  {
    pages := [];
    for index := 0 to count
      invariant |pages| == index && PagesScaled(extent, pageSize, pages)
    {
      var first := extent.range.first + index * pageSize;
      assert first + pageSize == extent.range.first + (index + 1) * pageSize;
      pages := pages + [Page(index, extent.id, index, pageSize, MemRange(first, first + pageSize))];
    }
  }

  /** The live blocks in page coordinates. */
  function LivePages(allocations: map<nat, Allocation>): Blocks {
    map p | p in allocations :: allocations[p].pageCount
  }

  ghost predicate PageAligned(addr: nat, ps: nat, p: nat, alignment: nat)
    requires alignment >= 1
  {
    Aligned(addr + p * ps, alignment)
  }

  /** A run of n pages starting at page p is free and starts at an aligned address. */
  ghost predicate PageFits(addr: nat, ps: nat, count: nat, live: Blocks, n: nat, alignment: nat, p: nat)
    requires alignment >= 1
  {
    PageAligned(addr, ps, p, alignment) && Room(count, live, p, n)
  }

  ghost predicate FirstPageFit(addr: nat, ps: nat, count: nat, live: Blocks, n: nat, alignment: nat, p: nat)
    requires alignment >= 1
  {
    PageFits(addr, ps, count, live, n, alignment, p) &&
    forall q: nat :: PageFits(addr, ps, count, live, n, alignment, q) ==> p <= q
  }

  ghost predicate BestOfSpan(addr: nat, ps: nat, r: MemRange, n: nat, alignment: nat, p: nat)
    requires alignment >= 1
  {
    r.first <= p && p + n <= r.last && PageAligned(addr, ps, p, alignment) &&
    forall q: nat :: r.first <= q < p ==> !PageAligned(addr, ps, q, alignment)
  }

  ghost predicate NoneInSpan(addr: nat, ps: nat, r: MemRange, n: nat, alignment: nat)
    requires alignment >= 1
  {
    forall q: nat :: r.first <= q && q + n <= r.last ==> !PageAligned(addr, ps, q, alignment)
  }

  lemma FirstSpanIsFirstFit(addr: nat, ps: nat, count: nat, free: Ranges, live: Blocks, n: nat,
                            alignment: nat, i: nat, p: nat)
    requires Tiled(count, free, live) && n > 0 && alignment >= 1 && i < |free|
    requires forall j, q: nat :: 0 <= j < i && free[j].first <= q && q + n <= free[j].last ==>
             !PageAligned(addr, ps, q, alignment)
    requires BestOfSpan(addr, ps, free[i], n, alignment, p)
    ensures FirstPageFit(addr, ps, count, live, n, alignment, p)
  {
    RangeHasRoom(count, free, live, i, p, n);
    forall q: nat | PageFits(addr, ps, count, live, n, alignment, q) ensures p <= q {
      var j := RoomInOneRange(count, free, live, q, n);
    }
  }

  lemma NoSpanNoFit(addr: nat, ps: nat, count: nat, free: Ranges, live: Blocks, n: nat, alignment: nat)
    requires Tiled(count, free, live) && n > 0 && alignment >= 1
    requires forall j :: 0 <= j < |free| ==> NoneInSpan(addr, ps, free[j], n, alignment)
    ensures forall p: nat :: !PageFits(addr, ps, count, live, n, alignment, p)
  {
    forall p: nat ensures !PageFits(addr, ps, count, live, n, alignment, p) {
      if Room(count, live, p, n) {
        var j := RoomInOneRange(count, free, live, p, n);
        assert NoneInSpan(addr, ps, free[j], n, alignment);
      }
    }
  }

  lemma DividesTrans(x: nat, b: nat, a: nat)
    requires a >= 1 && b >= 1 && x % b == 0 && b % a == 0
    ensures x % a == 0
  {
    var i, j := x / b, b / a;
    assert x == a * (j * i) by { assert b == a * j && x == b * i; }
    DivModUnique(x, a, j * i, 0);
  }

  /** Line 459: rounding a page address up to any power of two lands on a page boundary. */
  lemma RoundedToPage(addr: nat, ps: nat, p: nat, alignment: nat, r: nat)
    requires 1 <= ps <= SIZE_MAX && 1 <= alignment <= SIZE_MAX && ValidAlignment(ps) && ValidAlignment(alignment)
    requires Aligned(addr, ps) && LeastAligned(r, addr + p * ps, alignment)
    ensures r >= addr && (r - addr) % ps == 0
  {
    var v := addr + p * ps;
    DivModUnique(p * ps, ps, p, 0);
    AlignedSum(addr, p * ps, ps);
    ValidAlignmentIsPow2(ps);
    ValidAlignmentIsPow2(alignment);
    if alignment <= ps {
      Pow2Divides(alignment, ps);
      DividesTrans(v, ps, alignment);
      assert Aligned(v, alignment);
      assert r == v;
    } else {
      Pow2Divides(ps, alignment);
      DividesTrans(r, alignment, ps);
    }
    AlignedSum(r - addr, addr, ps);
  }

  /** Below the rounded address no page start is aligned. */
  lemma PagesBelowRounded(addr: nat, ps: nat, first: nat, alignment: nat, r: nat, q: nat)
    requires alignment >= 1 && first <= q
    requires forall y: nat :: addr + first * ps <= y < r ==> !Aligned(y, alignment)
    requires addr + q * ps < r
    ensures !PageAligned(addr, ps, q, alignment)
  {
    ScaleMono(first, q, ps);
  }

  /** The body of the scan of `findFreeSpan`, lines 423-477, for a span of pages [first, end). */
  method PlaceIn(base: nat, ps: nat, first: nat, end: nat, pageCount: nat, alignment: nat)
    returns (placed: bool, candidate: nat)
    requires 1 <= ps <= SIZE_MAX && ValidAlignment(ps) && Aligned(base, ps)
    requires first < end && base + end * ps <= SIZE_MAX
    requires 0 < pageCount && 1 <= alignment <= SIZE_MAX && ValidAlignment(alignment)
    ensures placed ==> BestOfSpan(base, ps, MemRange(first, end), pageCount, alignment, candidate)
    ensures !placed ==> NoneInSpan(base, ps, MemRange(first, end), pageCount, alignment)
  {
    placed, candidate := false, 0;
    var mask := alignment - 1;
    if end - first < pageCount { return; }
    SpanStart(base, ps, first, end);
    if first > SIZE_MAX / ps { return; }
    var localOffset := first * ps;
    if base > SIZE_MAX - localOffset { return; }
    var firstAddress := base + localOffset;
    if firstAddress > SIZE_MAX - mask {
      NoAlignedPage(base, ps, first, end, pageCount, alignment);
      return;
    }
    RoundedPlace(base, ps, first, alignment);
    var alignedAddress := RoundUp(firstAddress, alignment);
    if alignedAddress < base { return; }
    var alignedOffset := alignedAddress - base;
    if alignedOffset % ps != 0 { return; }
    candidate := alignedOffset / ps;
    if candidate < first { return; }
    if candidate >= end { return; }
    if pageCount > end - candidate { return; }
    placed := true;
  }

  /** The rounded address is the start of the first aligned page from `first` on. */
  lemma RoundedPlace(base: nat, ps: nat, first: nat, alignment: nat)
    requires 1 <= ps <= SIZE_MAX && ValidAlignment(ps) && Aligned(base, ps)
    requires 1 <= alignment <= SIZE_MAX && ValidAlignment(alignment) && base + first * ps + (alignment - 1) <= SIZE_MAX
    ensures var r := RoundUp(base + first * ps, alignment);
            r >= base && (r - base) % ps == 0 &&
            var p := (r - base) / ps;
            first <= p && PageAligned(base, ps, p, alignment) &&
            forall q: nat :: first <= q < p ==> !PageAligned(base, ps, q, alignment)
  {
    var r := RoundUp(base + first * ps, alignment);
    RoundUpIsLeast(base + first * ps, alignment);
    RoundedToPage(base, ps, first, alignment, r);
    NoAlignedBelow(base, ps, first, alignment, r, (r - base) / ps);
  }

  lemma SpanStart(base: nat, ps: nat, first: nat, end: nat)
    requires ps >= 1 && first < end && base + end * ps <= SIZE_MAX
    ensures first <= SIZE_MAX / ps && base + first * ps < SIZE_MAX
  {
    ScaleLess(first, end, ps);
    BelowQuotient(first, ps, SIZE_MAX);
  }

  lemma NoAlignedPage(base: nat, ps: nat, first: nat, end: nat, pageCount: nat, alignment: nat)
    requires ps >= 1 && first < end && base + end * ps <= SIZE_MAX && base + first * ps < SIZE_MAX
    requires pageCount > 0 && 1 <= alignment <= SIZE_MAX && ValidAlignment(alignment)
    requires base + first * ps > SIZE_MAX - (alignment - 1)
    ensures NoneInSpan(base, ps, MemRange(first, end), pageCount, alignment)
  {
    AlignUpExact(base + first * ps, alignment);
    forall q: nat | first <= q && q + pageCount <= end ensures !PageAligned(base, ps, q, alignment) {
      ScaleLess(q, end, ps);
      PagesBelowRounded(base, ps, first, alignment, SIZE_MAX, q);
    }
  }

  lemma NoAlignedBelow(base: nat, ps: nat, first: nat, alignment: nat, r: nat, candidate: nat)
    requires ps >= 1 && alignment >= 1 && r >= base && (r - base) % ps == 0 && candidate == (r - base) / ps
    requires LeastAligned(r, base + first * ps, alignment)
    ensures first <= candidate && PageAligned(base, ps, candidate, alignment)
    ensures forall q: nat :: first <= q < candidate ==> !PageAligned(base, ps, q, alignment)
  {
    assert r == base + candidate * ps;
    if candidate < first { ScaleLess(candidate, first, ps); }
    forall q: nat | first <= q < candidate ensures !PageAligned(base, ps, q, alignment) {
      ScaleLess(q, candidate, ps);
      PagesBelowRounded(base, ps, first, alignment, r, q);
    }
  }

  class JobPagePool {
    const extent: Extent
    const pageSize: nat
    /** `m_extent` is set */
    const ready: bool
    const pages: seq<Page>
    var freeSpans: seq<Span>
    var allocations: map<nat, Allocation>
    var allocatedPages: nat
    var allocatedBytes: nat
    var nextSpanId: nat

    ghost predicate Geometry() {
      extent.Valid() && 1 <= pageSize <= SIZE_MAX && ValidAlignment(pageSize) && Aligned(extent.Addr(), pageSize) &&
      |pages| > 0 && extent.Size() == |pages| * pageSize && PagesScaled(extent, pageSize, pages)
    }

    ghost predicate Valid()
      reads this
    {
      if ready then
        Geometry() && AllScaled(extent, pageSize, freeSpans) &&
        Tiled(|pages|, PageRanges(freeSpans), LivePages(allocations)) &&
        (forall p :: p in allocations ==> allocations[p].firstPageIndex == p) &&
        allocatedPages == LiveBelow(LivePages(allocations), |pages|) && allocatedBytes == allocatedPages * pageSize
      else pages == [] && freeSpans == [] && allocations == map[] && allocatedPages == 0 && allocatedBytes == 0
    }

    /** `init(extent, pageSize)` and `buildPages` */
    constructor (extent: Extent, pageSize: nat)
      requires extent.Valid() && pageSize <= SIZE_MAX
      ensures Valid() && allocations == map[]
      ensures ready <==> ValidPageGeometry(extent, pageSize)
      ensures ready ==> this.extent == extent && this.pageSize == pageSize && |pages| == extent.Size() / pageSize
    {
      this.extent, this.pageSize := extent, pageSize;
      ready := ValidPageGeometry(extent, pageSize);
      freeSpans, allocations := [], map[];
      allocatedPages, allocatedBytes, nextSpanId := 0, 0, 0;
      if ValidPageGeometry(extent, pageSize) {
        var built := BuildPages(extent, pageSize, extent.Size() / pageSize);
        pages := built;
      } else {
        pages := [];
      }
      new;
      if ready {
        assert extent.Size() == |pages| * pageSize;
        var span := MakeSpan(0, |pages|);
        freeSpans := [span];
        WholeIsValid();
      }
    }

    lemma GeometryAccepted()
      requires Geometry()
      ensures ValidPageGeometry(extent, pageSize)
    {
      DivModUnique(extent.Size(), pageSize, |pages|, 0);
    }

    lemma WholeIsValid()
      requires |pages| > 0 && allocations == map[] && |freeSpans| == 1
      requires freeSpans[0].Pages() == MemRange(0, |pages|)
      ensures Tiled(|pages|, PageRanges(freeSpans), LivePages(allocations))
      ensures LiveBelow(LivePages(allocations), |pages|) == 0
    {
      assert LivePages(allocations) == map[];
      assert PageRanges(freeSpans) == [MemRange(0, |pages|)];
      WholeTiles(|pages|);
      LiveBelowEmpty(|pages|);
    }

    /** `alloc` */
    method Alloc(size: nat, alignment: nat) returns (ptr: nat)
      requires Valid() && size <= SIZE_MAX && alignment <= SIZE_MAX
      modifies this`freeSpans, this`allocations, this`allocatedPages, this`allocatedBytes, this`nextSpanId
      ensures Valid()
      ensures ptr != NULL ==> size > 0 && ValidAlignment(alignment) && ready &&
                              Taken(old(allocations), allocations, ptr, PagesForSize(size, pageSize), alignment, size)
      ensures ptr == NULL ==> unchanged(this)
      ensures ptr == NULL && size > 0 && ValidAlignment(alignment) && ready ==>
                forall p: nat :: !PageFits(extent.Addr(), pageSize, |pages|, LivePages(allocations),
                                           PagesForSize(size, pageSize), alignment, p)
    {
      if size == 0 || !ValidAlignment(alignment) { return NULL; }
      if !ready { return NULL; }
      var requiredPages := PagesForSize(size, pageSize);
      if requiredPages == 0 { return NULL; }
      var found, spanIndex, firstPageIndex := FindFreeSpan(requiredPages, alignment);
      if !found { return NULL; }
      ptr := Take(spanIndex, firstPageIndex, requiredPages, size);
    }

    /** `allocPages` */
    method AllocPages(pageCount: nat) returns (ptr: nat)
      requires Valid() && pageCount <= SIZE_MAX
      modifies this`freeSpans, this`allocations, this`allocatedPages, this`allocatedBytes, this`nextSpanId
      ensures Valid()
      ensures ptr != NULL ==> pageCount > 0 && ready &&
                              Taken(old(allocations), allocations, ptr, pageCount, pageSize, pageCount * pageSize)
      ensures ptr == NULL ==> unchanged(this)
      ensures ptr == NULL && pageCount > 0 && ready ==>
                forall p: nat :: !PageFits(extent.Addr(), pageSize, |pages|, LivePages(allocations),
                                           pageCount, pageSize, p)
    {
      if pageCount == 0 { return NULL; }
      if !ready { return NULL; }
      if pageCount > SIZE_MAX / pageSize {
        TooManyPages(pageCount);
        return NULL;
      }
      var found, spanIndex, firstPageIndex := FindFreeSpan(pageCount, pageSize);
      if !found { return NULL; }
      ptr := Take(spanIndex, firstPageIndex, pageCount, pageCount * pageSize);
    }

    /** The pointer and bookkeeping of a successful allocation: the first page run that fits. */
    ghost predicate Taken(before: map<nat, Allocation>, after: map<nat, Allocation>, ptr: nat,
                          pageCount: nat, alignment: nat, requested: nat)
      requires alignment >= 1 && pageSize >= 1
    {
      ptr >= extent.Addr() && (ptr - extent.Addr()) % pageSize == 0 &&
      TakenAt(before, after, ptr, (ptr - extent.Addr()) / pageSize, pageCount, alignment, requested)
    }

    ghost predicate TakenAt(before: map<nat, Allocation>, after: map<nat, Allocation>, ptr: nat, p: nat,
                            pageCount: nat, alignment: nat, requested: nat)
      requires alignment >= 1
    {
      ptr == extent.Addr() + p * pageSize &&
      FirstPageFit(extent.Addr(), pageSize, |pages|, LivePages(before), pageCount, alignment, p) &&
      p !in before && after == before[p := Allocation(p, pageCount, requested)]
    }

    /** `free` */
    method Free(ptr: nat) returns (ok: bool)
      requires Valid() && ptr <= SIZE_MAX
      modifies this`freeSpans, this`allocations, this`allocatedPages, this`allocatedBytes, this`nextSpanId
      ensures Valid()
      ensures ok <==> ready && exists p :: p in old(allocations) && ptr == extent.Addr() + p * pageSize
      ensures ok ==> forall p :: p in old(allocations) && ptr == extent.Addr() + p * pageSize ==>
              allocations == old(allocations) - {p}
      ensures !ok ==> unchanged(this)
    {
      var found, pageIndex := FindAllocation(ptr);
      if !found { return false; }
      GiveBack(pageIndex);
      return true;
    }

    /** Lines 214-223: the run starting at this page becomes free. */
    method GiveBack(pageIndex: nat)
      requires Valid() && ready && pageIndex in allocations
      modifies this`freeSpans, this`allocations, this`allocatedPages, this`allocatedBytes, this`nextSpanId
      ensures Valid() && allocations == old(allocations) - {pageIndex}
    {
      var allocationPages := allocations[pageIndex].pageCount;
      ghost var before := PageRanges(freeSpans);
      ghost var live := LivePages(allocations);
      BlockIsClear(before, live, pageIndex);
      LiveBelowFree(live, pageIndex, |pages|);
      assert LivePages(allocations - {pageIndex}) == live - {pageIndex};
      var span := MakeSpan(pageIndex, allocationPages);
      InsertFreeSpan(span);
      FreeTiles(|pages|, before, live, pageIndex, PageRanges(freeSpans));
      allocations := allocations - {pageIndex};
      ScaleMono(allocationPages, allocatedPages, pageSize);
      allocatedPages := allocatedPages - allocationPages;
      allocatedBytes := allocatedBytes - allocationPages * pageSize;
    }

    /** Lines 186-212: the allocation that starts exactly at this address, if there is one. */
    method FindAllocation(ptr: nat) returns (found: bool, pageIndex: nat)
      requires Valid() && ptr <= SIZE_MAX
      ensures found ==> ready && pageIndex in allocations && ptr == extent.Addr() + pageIndex * pageSize
      ensures found ==> forall p :: p in allocations && ptr == extent.Addr() + p * pageSize ==> p == pageIndex
      ensures !found && ready ==> forall p :: p in allocations ==> ptr != extent.Addr() + p * pageSize
    {
      found, pageIndex := false, 0;
      if ready { LiveAreInside(); }
      if ptr == NULL { return; }
      if !ready || !extent.Contains(ptr) || pageSize == 0 { return; }
      var offset := ptr - extent.Addr();
      if offset == SIZE_MAX { return; }
      OffsetsOfPages(offset);
      if offset % pageSize != 0 { return; }
      pageIndex := offset / pageSize;
      found := pageIndex in allocations;
    }

    /** `clear` */
    method Clear()
      requires Valid()
      modifies this`freeSpans, this`allocations, this`allocatedPages, this`allocatedBytes, this`nextSpanId
      ensures Valid() && allocations == map[] && allocatedPages == 0
      ensures ready ==> PageRanges(freeSpans) == [MemRange(0, |pages|)]
    {
      allocations := map[];
      freeSpans := [];
      allocatedPages := 0;
      allocatedBytes := 0;
      if !ready || pageSize == 0 { return; }
      GeometryAccepted();
      if !ValidPageGeometry(extent, pageSize) { return; }
      if pages == [] { return; }
      var span := MakeSpan(0, |pages|);
      freeSpans := freeSpans + [span];
      WholeIsValid();
    }

    /** `availablePages`: with the allocated pages it adds up to all pages. */
    method AvailablePages() returns (result: nat)
      requires Valid()
      ensures result == SumSizes(PageRanges(freeSpans))
      ensures result + allocatedPages == |pages|
    {
      result := 0;
      ghost var rs := PageRanges(freeSpans);
      for i := 0 to |freeSpans|
        invariant result == SumSizes(rs[..i])
      {
        assert rs[..i + 1][..i] == rs[..i];
        result := result + freeSpans[i].pageCount;
      }
      assert rs[..|rs|] == rs;
      if ready { Conservation(|pages|, rs, LivePages(allocations)); } else { assert rs == []; }
    }

    // ----- private parts

    /** `findFreeSpan` */
    method FindFreeSpan(pageCount: nat, alignment: nat) returns (found: bool, spanIndex: nat, firstPageIndex: nat)
      requires Valid() && ready && 0 < pageCount && 1 <= alignment <= SIZE_MAX && ValidAlignment(alignment)
      ensures found ==> spanIndex < |freeSpans| && freeSpans[spanIndex].firstPage <= firstPageIndex &&
                        firstPageIndex + pageCount <= freeSpans[spanIndex].EndPage() &&
                        FirstPageFit(extent.Addr(), pageSize, |pages|, LivePages(allocations), pageCount, alignment,
                                     firstPageIndex)
      ensures !found ==> forall p: nat ::
                !PageFits(extent.Addr(), pageSize, |pages|, LivePages(allocations), pageCount, alignment, p)
    {
      ghost var free := PageRanges(freeSpans);
      FreeRangesWithin(|pages|, free, LivePages(allocations));
      for i := 0 to |freeSpans|
        invariant forall j :: 0 <= j < i ==> NoneInSpan(extent.Addr(), pageSize, free[j], pageCount, alignment)
      {
        assert free[i] == freeSpans[i].Pages();
        SpanAddress(freeSpans[i]);
        var best, p := PlaceIn(extent.Addr(), pageSize, freeSpans[i].firstPage, freeSpans[i].EndPage(),
                               pageCount, alignment);
        if best {
          assert forall j :: 0 <= j < i ==> NoneInSpan(extent.Addr(), pageSize, free[j], pageCount, alignment);
          FirstSpanIsFirstFit(extent.Addr(), pageSize, |pages|, free, LivePages(allocations), pageCount,
                              alignment, i, p);
          return true, i, p;
        }
      }
      NoSpanNoFit(extent.Addr(), pageSize, |pages|, free, LivePages(allocations), pageCount, alignment);
      return false, 0, 0;
    }

    lemma SpanAddress(span: Span)
      requires Geometry() && span.firstPage < span.EndPage() <= |pages|
      ensures extent.Addr() + span.EndPage() * pageSize <= SIZE_MAX
    {
      ScaleMono(span.EndPage(), |pages|, pageSize);
    }

    lemma TooManyPages(pageCount: nat)
      requires Valid() && ready && pageCount > SIZE_MAX / pageSize
      ensures forall p: nat :: !PageFits(extent.Addr(), pageSize, |pages|, LivePages(allocations),
                                         pageCount, pageSize, p)
    {
      BelowQuotient(|pages|, pageSize, SIZE_MAX);
      forall p: nat ensures !Room(|pages|, LivePages(allocations), p, pageCount) {
        var last := p + pageCount - 1;
        assert !FreeAt(|pages|, LivePages(allocations), last) ==> !Room(|pages|, LivePages(allocations), p, pageCount);
      }
    }

    /** Lines 113-136 and 160-181. */
    method Take(spanIndex: nat, firstPageIndex: nat, pageCount: nat, requested: nat) returns (ptr: nat)
      requires Valid() && ready && pageCount > 0 && spanIndex < |freeSpans|
      requires freeSpans[spanIndex].firstPage <= firstPageIndex &&
               firstPageIndex + pageCount <= freeSpans[spanIndex].EndPage()
      modifies this`freeSpans, this`allocations, this`allocatedPages, this`allocatedBytes, this`nextSpanId
      ensures Valid() && ptr != NULL && ptr == extent.Addr() + firstPageIndex * pageSize
      ensures (ptr - extent.Addr()) % pageSize == 0 && (ptr - extent.Addr()) / pageSize == firstPageIndex
      ensures firstPageIndex !in old(allocations)
      ensures allocations == old(allocations)[firstPageIndex := Allocation(firstPageIndex, pageCount, requested)]
    {
      ghost var free := PageRanges(freeSpans);
      ghost var live := LivePages(allocations);
      AfterTake(free, live, spanIndex, firstPageIndex, pageCount);
      var allocation := Allocation(firstPageIndex, pageCount, requested);
      assert firstPageIndex !in live;
      if firstPageIndex in allocations { return NULL; }
      assert LivePages(allocations[firstPageIndex := allocation]) == live[firstPageIndex := pageCount];
      allocations := allocations[firstPageIndex := allocation];
      SplitSpan(spanIndex, firstPageIndex, pageCount);
      ScaleMono(allocatedPages, allocatedPages + pageCount, pageSize);
      allocatedPages := allocatedPages + pageCount;
      allocatedBytes := allocatedBytes + pageCount * pageSize;
      PageAddress(firstPageIndex);
      ptr := PtrAtPage(firstPageIndex);
    }

    lemma AfterTake(free: Ranges, live: Blocks, i: nat, p: nat, n: nat)
      requires Tiled(|pages|, free, live) && i < |free| && n > 0 && free[i].first <= p && p + n <= free[i].last
      ensures Tiled(|pages|, Cut(free, i, p, n), live[p := n]) && p !in live && p < |pages|
      ensures LiveBelow(live[p := n], |pages|) == LiveBelow(live, |pages|) + n
    {
      AllocTiles(|pages|, free, live, i, p, n);
      FreeRangesWithin(|pages|, free, live);
      assert free[i].last <= |pages|;
      LiveBelowAlloc(live, p, n, |pages|);
    }

    lemma PageAddress(p: nat)
      requires Geometry() && ready && p < |pages|
      ensures PtrAtPage(p) == extent.Addr() + p * pageSize && PtrAtPage(p) != NULL
      ensures (p * pageSize) % pageSize == 0 && (p * pageSize) / pageSize == p
    {
      ScaleLess(p, |pages|, pageSize);
      BelowQuotient(p, pageSize, SIZE_MAX);
      DivModUnique(p * pageSize, pageSize, p, 0);
    }

    /** `splitSpan` */
    method SplitSpan(spanIndex: nat, firstPageIndex: nat, pageCount: nat)
      requires spanIndex < |freeSpans| && AllScaled(extent, pageSize, freeSpans)
      requires freeSpans[spanIndex].firstPage <= firstPageIndex &&
               firstPageIndex + pageCount <= freeSpans[spanIndex].EndPage()
      modifies this`freeSpans, this`nextSpanId
      ensures PageRanges(freeSpans) == Cut(PageRanges(old(freeSpans)), spanIndex, firstPageIndex, pageCount)
      ensures AllScaled(extent, pageSize, freeSpans)
    {
      var original := freeSpans[spanIndex];
      var allocationEnd := firstPageIndex + pageCount;
      var hasPrefix := original.firstPage < firstPageIndex;
      var hasSuffix := allocationEnd < original.EndPage();
      if !hasPrefix && !hasSuffix {
        freeSpans := freeSpans[..spanIndex] + freeSpans[spanIndex + 1..];
        return;
      }
      if hasPrefix && !hasSuffix {
        var prefix := MakeSpan(original.firstPage, firstPageIndex - original.firstPage);
        freeSpans := freeSpans[spanIndex := prefix];
        return;
      }
      if !hasPrefix && hasSuffix {
        var suffix := MakeSpan(allocationEnd, original.EndPage() - allocationEnd);
        freeSpans := freeSpans[spanIndex := suffix];
        return;
      }
      var suffix := MakeSpan(allocationEnd, original.EndPage() - allocationEnd);
      freeSpans := freeSpans[..spanIndex + 1] + [suffix] + freeSpans[spanIndex + 1..];
      var prefix := MakeSpan(original.firstPage, firstPageIndex - original.firstPage);
      freeSpans := freeSpans[spanIndex := prefix];
    }

    /** `makeSpan` */
    method MakeSpan(firstPageIndex: nat, pageCount: nat) returns (span: Span)
      requires pageCount > 0
      modifies this`nextSpanId
      ensures Scaled(extent, pageSize, span) && span.Pages() == MemRange(firstPageIndex, firstPageIndex + pageCount)
      ensures span.id == old(nextSpanId) && nextSpanId == old(nextSpanId) + 1
    {
      var first := extent.range.first + firstPageIndex * pageSize;
      assert (firstPageIndex + pageCount) * pageSize == firstPageIndex * pageSize + pageCount * pageSize;
      span := Span(nextSpanId, extent.id, firstPageIndex, pageCount, pageSize,
                   MemRange(first, first + pageCount * pageSize));
      nextSpanId := nextSpanId + 1;
    }

    /** `insertFreeSpan` */
    method InsertFreeSpan(span: Span)
      requires AllScaled(extent, pageSize, freeSpans) && Scaled(extent, pageSize, span)
      requires NonEmpty(PageRanges(freeSpans) + [span.Pages()]) && NoOverlap(PageRanges(freeSpans) + [span.Pages()])
      modifies this`freeSpans, this`nextSpanId
      ensures AllScaled(extent, pageSize, freeSpans) && Canonical(PageRanges(freeSpans))
      ensures SameBytes(PageRanges(freeSpans), PageRanges(old(freeSpans)) + [span.Pages()])
    {
      assert PageRanges(freeSpans + [span]) == PageRanges(freeSpans) + [span.Pages()];
      freeSpans := freeSpans + [span];
      CoalesceSpans();
    }

    /** `coalesceSpans`: merges adjacent spans only, which suffices because none overlap. */
    method CoalesceSpans()
      requires AllScaled(extent, pageSize, freeSpans)
      requires NonEmpty(PageRanges(freeSpans)) && NoOverlap(PageRanges(freeSpans))
      modifies this`freeSpans, this`nextSpanId
      ensures AllScaled(extent, pageSize, freeSpans) && Canonical(PageRanges(freeSpans))
      ensures SameBytes(PageRanges(freeSpans), PageRanges(old(freeSpans)))
    {
      if |freeSpans| < 2 { return; }
      ghost var input := PageRanges(freeSpans);
      ghost var sorted := SortByFirst(input);
      SortedSpans(freeSpans);
      freeSpans := SortSpans(freeSpans);
      var writeIndex := SweepAll(sorted);
      SweepDone(input, PageRanges(freeSpans), writeIndex);
      assert PageRanges(freeSpans[..writeIndex + 1]) == PageRanges(freeSpans)[..writeIndex + 1];
      freeSpans := freeSpans[..writeIndex + 1];
    }

    /** The loop of `coalesceSpans`, lines 556-576. */
    method SweepAll(ghost sorted: Ranges) returns (writeIndex: nat)
      requires |freeSpans| == |sorted| >= 1 && AllScaled(extent, pageSize, freeSpans) && NonEmpty(sorted) &&
               Ordered(sorted)
      requires PageRanges(freeSpans) == sorted && Swept(sorted, sorted, 0, 1) && Behind(sorted, sorted, 0, 1)
      modifies this`freeSpans, this`nextSpanId
      ensures |freeSpans| == |sorted| && AllScaled(extent, pageSize, freeSpans)
      ensures writeIndex < |freeSpans| && Swept(sorted, PageRanges(freeSpans), writeIndex, |sorted|)
    {
      writeIndex := 0;
      for readIndex := 1 to |freeSpans|
        invariant |freeSpans| == |sorted| && AllScaled(extent, pageSize, freeSpans)
        invariant Swept(sorted, PageRanges(freeSpans), writeIndex, readIndex)
        invariant Behind(sorted, PageRanges(freeSpans), writeIndex, readIndex)
      {
        writeIndex := SweepOne(sorted, writeIndex, readIndex);
      }
    }

    lemma SortedSpans(spans: seq<Span>)
      requires spans != [] && AllScaled(extent, pageSize, spans)
      requires NonEmpty(PageRanges(spans)) && NoOverlap(PageRanges(spans))
      ensures var sorted := SortByFirst(PageRanges(spans));
              PageRanges(SortSpans(spans)) == sorted && |sorted| == |SortSpans(spans)| == |spans| &&
              AllScaled(extent, pageSize, SortSpans(spans)) &&
              NonEmpty(sorted) && Ordered(sorted) && Swept(sorted, sorted, 0, 1) && Behind(sorted, sorted, 0, 1)
    {
      SweepStart(PageRanges(spans));
      SortOrders(PageRanges(spans));
      SortSpansPages(spans);
      forall e | e in SortSpans(spans) ensures Scaled(extent, pageSize, e) { SortSpansElements(spans, e); }
    }

    /** One trip of the sweep, lines 561-575. */
    method SweepOne(ghost sorted: Ranges, writeIndex: nat, readIndex: nat) returns (nextWrite: nat)
      requires writeIndex < readIndex < |freeSpans| == |sorted| && AllScaled(extent, pageSize, freeSpans)
      requires NonEmpty(sorted) && Ordered(sorted)
      requires Swept(sorted, PageRanges(freeSpans), writeIndex, readIndex)
      requires Behind(sorted, PageRanges(freeSpans), writeIndex, readIndex)
      modifies this`freeSpans, this`nextSpanId
      ensures |freeSpans| == |old(freeSpans)| && nextWrite < |freeSpans| && AllScaled(extent, pageSize, freeSpans)
      ensures Swept(sorted, PageRanges(freeSpans), nextWrite, readIndex + 1)
      ensures Behind(sorted, PageRanges(freeSpans), nextWrite, readIndex + 1)
    {
      ghost var rs := PageRanges(freeSpans);
      var current, next := freeSpans[writeIndex], freeSpans[readIndex];
      AdjacentByPages(extent, pageSize, current, next);
      OrderedIsSorted(sorted);
      BehindMergeable(sorted, rs, writeIndex, readIndex);
      if current.SpanAdjacent(next) {
        SweepMerge(sorted, rs, writeIndex, readIndex);
        var merged := MakeSpan(current.firstPage, current.pageCount + next.pageCount);
        assert PageRanges(freeSpans[writeIndex := merged]) == rs[writeIndex := merged.Pages()];
        freeSpans := freeSpans[writeIndex := merged];
        nextWrite := writeIndex;
      } else {
        SweepKeep(sorted, rs, writeIndex, readIndex);
        nextWrite := writeIndex + 1;
        assert PageRanges(freeSpans[nextWrite := next]) == rs[nextWrite := next.Pages()];
        ghost var swept := freeSpans[nextWrite := next];
        if nextWrite != readIndex { freeSpans := freeSpans[nextWrite := next]; }
        assert freeSpans == swept;
      }
    }

    /** `ptrAtPage` */
    function PtrAtPage(pageIndex: nat): nat {
      if !ready || pageIndex >= |pages| then NULL
      else if pageSize == 0 || pageIndex > SIZE_MAX / pageSize then NULL
      else extent.Addr() + pageIndex * pageSize
    }

    lemma LiveAreInside()
      requires Valid() && ready
      ensures forall p :: p in allocations ==>
                0 < allocations[p].pageCount && p + allocations[p].pageCount <= |pages| &&
                extent.Addr() <= extent.Addr() + p * pageSize < extent.Addr() + extent.Size()
    {
      forall p | p in allocations
        ensures 0 < allocations[p].pageCount && p + allocations[p].pageCount <= |pages| && p * pageSize < extent.Size()
      {
        assert p in LivePages(allocations);
        ScaleLess(p, |pages|, pageSize);
      }
    }

    lemma OffsetsOfPages(offset: nat)
      requires Valid() && ready
      ensures forall p: nat :: offset == p * pageSize ==> offset % pageSize == 0 && offset / pageSize == p
      ensures offset % pageSize == 0 ==> offset == (offset / pageSize) * pageSize
    {
      forall p: nat | offset == p * pageSize ensures offset % pageSize == 0 && offset / pageSize == p {
        DivModUnique(offset, pageSize, p, 0);
      }
    }

    lemma BlockIsClear(free: Ranges, live: Blocks, p: nat)
      requires Tiled(|pages|, free, live) && p in live
      ensures NonEmpty(free + [MemRange(p, p + live[p])]) && NoOverlap(free + [MemRange(p, p + live[p])])
    {
      var r := MemRange(p, p + live[p]);
      forall x: nat | r.Has(x) ensures !Covers(free, x) { assert InBlock(live, p, x); }
      CanonicalAndClear(free, r);
    }
  }

  /** `pagesForSize` */
  function PagesForSize(size: nat, pageSize: nat): nat {
    if size == 0 || pageSize == 0 then 0 else size / pageSize + (if size % pageSize != 0 then 1 else 0)
  }

  /** The page count is the least that holds the size. */
  lemma PagesForSizeIsLeast(size: nat, pageSize: nat)
    requires size > 0 && pageSize > 0
    ensures var n := PagesForSize(size, pageSize); n > 0 && (n - 1) * pageSize < size <= n * pageSize
  {
    var q, r := size / pageSize, size % pageSize;
    assert size == q * pageSize + r;
    assert (q + 1) * pageSize == q * pageSize + pageSize;
    assert (q - 1) * pageSize == q * pageSize - pageSize;
  }

  /** `validPageGeometry` of a mapped extent */
  predicate ValidPageGeometry(extent: Extent, pageSize: nat)
    requires extent.Valid()
  {
    if pageSize == 0 || !ValidAlignment(pageSize) then false
    else if extent.Size() == 0 then false
    else if extent.Size() % pageSize != 0 then false
    else if extent.Addr() % pageSize != 0 then false
    else if extent.Size() / pageSize == 0 then false
    else extent.Size() / pageSize - 1 <= SIZE_MAX - 1
  }

  /** The geometry tests accept exactly the power-of-two page sizes that divide size and address. */
  lemma ValidPageGeometryExact(extent: Extent, pageSize: nat)
    requires extent.Valid()
    ensures ValidPageGeometry(extent, pageSize) <==>
            IsPow2(pageSize) && extent.Size() % pageSize == 0 && (extent.mmapAddr + extent.range.first) % pageSize == 0
  {
    ValidAlignmentIsPow2(pageSize);
    if pageSize > 0 {
      var size := extent.Size();
      assert size == pageSize * (size / pageSize) + size % pageSize;
      QuotientBelow(size, pageSize);
    }
  }

  lemma QuotientBelow(a: nat, b: nat)
    requires b >= 1
    ensures a / b <= a
  {
    var q := a / b;
    assert a == b * q + a % b;
    if q > a { ScaleLess(a, q, b); ScaleMono(1, b, a); }
  }

  lemma BelowQuotient(a: nat, b: nat, m: nat)
    requires b >= 1 && a * b <= m
    ensures a <= m / b
  {
    var q := m / b;
    assert m == q * b + m % b;
    if a > q { ScaleLess(q, a, b); }
  }
}
