/** Fixed-size object pools over a shared page pool (libs/job_io/job_size_pool.cpp,
    job_mem_size.h). Any number of them may share one page pool, which nobody else clears. */
module SizePool {
  import opened PowersOfTwo
  import opened Bits
  import opened MemRanges
  import opened PageSpans
  import opened PagePool

  /** `JobMemSize` */
  datatype SizeClass = SizeClass(id: nat, objectSize: nat, alignment: nat, pageSize: nat, pagesPerSpan: nat) {
    ghost predicate Valid() {
      0 < objectSize && 1 <= alignment <= SIZE_MAX && ValidAlignment(alignment) && objectSize % alignment == 0 &&
      0 < pageSize && 0 < pagesPerSpan <= SIZE_MAX && pageSize * pagesPerSpan <= SIZE_MAX &&
      objectSize <= pageSize * pagesPerSpan
    }

    function SpanSize(): nat { pageSize * pagesPerSpan }

    function ObjectsPerSpan(): nat
      requires objectSize > 0
    {
      SpanSize() / objectSize
    }

    function WastePerSpan(): nat
      requires objectSize > 0
    {
      SpanSize() % objectSize
    }
  }

  lemma SpanLayout(sc: SizeClass)
    requires sc.Valid()
    ensures sc.ObjectsPerSpan() >= 1 && sc.WastePerSpan() < sc.objectSize
    ensures sc.ObjectsPerSpan() * sc.objectSize + sc.WastePerSpan() == sc.SpanSize()
  {
    var n, d := sc.SpanSize(), sc.objectSize;
    assert n == d * (n / d) + n % d;
    BelowQuotient(1, d, n);
  }

  datatype PageAllocation = PageAllocation(addr: nat, pageCount: nat, objectCount: nat)

  function Addrs(pas: seq<PageAllocation>): (r: seq<nat>)
    ensures |r| == |pas| && forall i :: 0 <= i < |r| ==> r[i] == pas[i].addr
  {
    seq(|pas|, i requires 0 <= i < |pas| => pas[i].addr)
  }

  // ----- objects within spans

  /** x is object number j of the span at address a. */
  ghost predicate ObjectAt(sc: SizeClass, a: nat, j: nat, x: nat)
  {
    sc.objectSize > 0 && j < sc.ObjectsPerSpan() && x == a + j * sc.objectSize
  }

  ghost predicate ObjectOf(sc: SizeClass, a: nat, x: nat) {
    exists j: nat :: ObjectAt(sc, a, j, x)
  }

  ghost predicate IsObject(sc: SizeClass, spans: seq<nat>, x: nat) {
    exists i :: 0 <= i < |spans| && ObjectOf(sc, spans[i], x)
  }

  lemma ObjectInside(sc: SizeClass, a: nat, j: nat, x: nat)
    requires sc.Valid() && ObjectAt(sc, a, j, x)
    ensures a <= x && x + sc.objectSize <= a + sc.SpanSize()
    ensures x - a < sc.ObjectsPerSpan() * sc.objectSize && (x - a) % sc.objectSize == 0
  {
    SpanLayout(sc);
    ScaleLess(j, sc.ObjectsPerSpan(), sc.objectSize);
    DivModUnique(x - a, sc.objectSize, j, 0);
  }

  /** The boundary test of `isObjectBoundaryLocked` for one span. */
  lemma BoundaryIsObject(sc: SizeClass, a: nat, x: nat)
    requires sc.Valid() && a <= x
    ensures x - a < sc.ObjectsPerSpan() * sc.objectSize && (x - a) % sc.objectSize == 0 <==> ObjectOf(sc, a, x)
  {
    if x - a < sc.ObjectsPerSpan() * sc.objectSize && (x - a) % sc.objectSize == 0 {
      var j := (x - a) / sc.objectSize;
      assert x - a == j * sc.objectSize;
      if j >= sc.ObjectsPerSpan() { ScaleMono(sc.ObjectsPerSpan(), j, sc.objectSize); }
      assert ObjectAt(sc, a, j, x);
    }
    if ObjectOf(sc, a, x) {
      var j: nat :| ObjectAt(sc, a, j, x);
      ObjectInside(sc, a, j, x);
    }
  }

  ghost predicate NoDuplicates(s: seq<nat>) {
    forall i, j :: 0 <= i < j < |s| ==> s[i] != s[j]
  }

  /** Free and live objects are disjoint and together are exactly the objects of the spans. */
  ghost predicate Laid(sc: SizeClass, spans: seq<nat>, free: seq<nat>, live: map<nat, nat>) {
    NoDuplicates(free) &&
    (forall x :: x in free ==> x !in live) &&
    (forall x: nat :: x in free || x in live <==> IsObject(sc, spans, x))
  }

  lemma TakeLast(sc: SizeClass, spans: seq<nat>, free: seq<nat>, live: map<nat, nat>, size: nat)
    requires Laid(sc, spans, free, live) && free != []
    ensures var x := free[|free| - 1]; x !in live && Laid(sc, spans, free[..|free| - 1], live[x := size])
  {
    var x, rest := free[|free| - 1], free[..|free| - 1];
    assert free == rest + [x];
    assert x !in rest;
    forall y: nat ensures y in rest || y in live[x := size] <==> IsObject(sc, spans, y) {
      assert y in free <==> y in rest || y == x;
    }
  }

  lemma GiveBack(sc: SizeClass, spans: seq<nat>, free: seq<nat>, live: map<nat, nat>, x: nat)
    requires Laid(sc, spans, free, live) && x in live
    ensures Laid(sc, spans, free + [x], live - {x})
  {
    assert x !in free;
    forall y: nat ensures y in free + [x] || y in live - {x} <==> IsObject(sc, spans, y) {
      assert y in free + [x] <==> y in free || y == x;
    }
  }

  /** The free list `buildFreeList` appends for a span at address a. */
  function ObjectList(a: nat, size: nat, count: nat): (r: seq<nat>)
    ensures |r| == count && forall j :: 0 <= j < count ==> r[j] == a + j * size
  {
    if count == 0 then [] else ObjectList(a, size, count - 1) + [a + (count - 1) * size]
  }

  lemma ObjectListIsSpan(sc: SizeClass, a: nat)
    requires sc.Valid()
    ensures NoDuplicates(ObjectList(a, sc.objectSize, sc.ObjectsPerSpan()))
    ensures forall x: nat :: x in ObjectList(a, sc.objectSize, sc.ObjectsPerSpan()) <==> ObjectOf(sc, a, x)
  {
    var r := ObjectList(a, sc.objectSize, sc.ObjectsPerSpan());
    forall i, j | 0 <= i < j < |r| ensures r[i] != r[j] { ScaleLess(i, j, sc.objectSize); }
    forall x: nat ensures x in r <==> ObjectOf(sc, a, x) {
      if x in r {
        var j: nat :| j < |r| && r[j] == x;
        assert ObjectAt(sc, a, j, x);
      }
      if ObjectOf(sc, a, x) {
        var j: nat :| ObjectAt(sc, a, j, x);
        assert r[j] == x;
      }
    }
  }

  /** Two spans this far apart share no byte. */
  predicate Apart(a: nat, b: nat, na: nat, nb: nat) { a + na <= b || b + nb <= a }

  lemma ObjectsOfApartSpans(sc: SizeClass, tc: SizeClass, a: nat, b: nat, x: nat, y: nat)
    requires sc.Valid() && tc.Valid() && Apart(a, b, sc.SpanSize(), tc.SpanSize())
    requires ObjectOf(sc, a, x) && ObjectOf(tc, b, y)
    ensures Apart(x, y, sc.objectSize, tc.objectSize)
  {
    var i: nat :| ObjectAt(sc, a, i, x);
    var j: nat :| ObjectAt(tc, b, j, y);
    ObjectInside(sc, a, i, x);
    ObjectInside(tc, b, j, y);
  }

  lemma ObjectsOfOneSpan(sc: SizeClass, a: nat, x: nat, y: nat)
    requires sc.Valid() && ObjectOf(sc, a, x) && ObjectOf(sc, a, y) && x != y
    ensures Apart(x, y, sc.objectSize, sc.objectSize)
  {
    var i: nat :| ObjectAt(sc, a, i, x);
    var j: nat :| ObjectAt(sc, a, j, y);
    if i < j { ScaleLess(i, j, sc.objectSize); } else if j < i { ScaleLess(j, i, sc.objectSize); }
  }

  /** Adding a span whose objects are all new. */
  lemma AddSpan(sc: SizeClass, spans: seq<nat>, free: seq<nat>, live: map<nat, nat>, a: nat)
    requires sc.Valid() && Laid(sc, spans, free, live)
    requires forall i :: 0 <= i < |spans| ==> Apart(spans[i], a, sc.SpanSize(), sc.SpanSize())
    ensures Laid(sc, spans + [a], free + ObjectList(a, sc.objectSize, sc.ObjectsPerSpan()), live)
  {
    var more := ObjectList(a, sc.objectSize, sc.ObjectsPerSpan());
    ObjectListIsSpan(sc, a);
    forall x: nat | x in more ensures x !in free && x !in live {
      assert ObjectOf(sc, a, x);
      NewObject(sc, spans, a, x);
    }
    forall x: nat ensures x in free + more || x in live <==> IsObject(sc, spans + [a], x) {
      IsObjectAppend(sc, spans, a, x);
      assert x in more <==> ObjectOf(sc, a, x);
    }
    var all := free + more;
    forall i, j | 0 <= i < j < |all| ensures all[i] != all[j] {
      if i < |free| && j >= |free| { assert more[j - |free|] in more && free[i] in free; }
    }
  }

  lemma NewObject(sc: SizeClass, spans: seq<nat>, a: nat, x: nat)
    requires sc.Valid() && ObjectOf(sc, a, x)
    requires forall i :: 0 <= i < |spans| ==> Apart(spans[i], a, sc.SpanSize(), sc.SpanSize())
    ensures !IsObject(sc, spans, x)
  {
    forall i | 0 <= i < |spans| ensures !ObjectOf(sc, spans[i], x) {
      if ObjectOf(sc, spans[i], x) { ObjectsOfApartSpans(sc, sc, spans[i], a, x, x); }
    }
  }

  lemma IsObjectAppend(sc: SizeClass, spans: seq<nat>, a: nat, x: nat)
    ensures IsObject(sc, spans + [a], x) <==> IsObject(sc, spans, x) || ObjectOf(sc, a, x)
  {
    if IsObject(sc, spans, x) {
      var i :| 0 <= i < |spans| && ObjectOf(sc, spans[i], x);
      assert ObjectOf(sc, (spans + [a])[i], x);
    }
    if ObjectOf(sc, a, x) { assert ObjectOf(sc, (spans + [a])[|spans|], x); }
    if IsObject(sc, spans + [a], x) {
      var i :| 0 <= i < |spans + [a]| && ObjectOf(sc, (spans + [a])[i], x);
      if i < |spans| { assert ObjectOf(sc, spans[i], x); }
    }
  }

  // ----- spans within the page pool

  /** The address is the start of a live page run of the span size. */
  ghost predicate SpanBacked(pp: JobPagePool, sc: SizeClass, a: nat)
    reads pp
  {
    pp.ready && pp.pageSize >= 1 && a >= pp.extent.Addr() &&
    var p := (a - pp.extent.Addr()) / pp.pageSize;
    p in pp.allocations && a == pp.extent.Addr() + p * pp.pageSize && pp.allocations[p].pageCount == sc.pagesPerSpan
  }

  /** The page number of an address. */
  function PageOf(pp: JobPagePool, a: nat): int {
    if pp.pageSize == 0 then -1 else (a - pp.extent.Addr()) / pp.pageSize
  }

  /** The page pool gained the run of this span, at a page where none was live, and nothing else. */
  ghost predicate OneRunTaken(pp: JobPagePool, before: map<nat, Allocation>, after: map<nat, Allocation>,
                              a: nat, pageCount: nat)
  {
    var p := PageOf(pp, a);
    p >= 0 && p !in before && after == before[p := Allocation(p, pageCount, pageCount * pp.pageSize)]
  }

  /** Page p is the first page of one of these spans. */
  ghost predicate Released(pp: JobPagePool, spans: seq<nat>, p: int) {
    exists k :: 0 <= k < |spans| && PageOf(pp, spans[k]) == p
  }

  /** Two different spans taken from one page pool share no byte. */
  lemma BackedApart(pp: JobPagePool, sc: SizeClass, tc: SizeClass, a: nat, b: nat)
    requires pp.Valid() && sc.pageSize == tc.pageSize == pp.pageSize && a != b
    requires SpanBacked(pp, sc, a) && SpanBacked(pp, tc, b)
    ensures Apart(a, b, sc.SpanSize(), tc.SpanSize())
  {
    var p, q := PageOf(pp, a), PageOf(pp, b);
    var live := LivePages(pp.allocations);
    assert p in live && live[p] == sc.pagesPerSpan && q in live && live[q] == tc.pagesPerSpan;
    assert p != q;
    if p < q { RunBefore(p, sc.pagesPerSpan, q, pp.pageSize); } else { RunBefore(q, tc.pagesPerSpan, p, pp.pageSize); }
  }

  lemma RunBefore(p: nat, n: nat, q: nat, ps: nat)
    requires p + n <= q
    ensures p * ps + ps * n <= q * ps
  {
    ScaleMono(p + n, q, ps);
    assert (p + n) * ps == p * ps + n * ps;
  }

  lemma BackedAligned(pp: JobPagePool, sc: SizeClass, a: nat, x: nat)
    requires pp.Valid() && sc.Valid() && sc.pageSize == pp.pageSize && SpanBacked(pp, sc, a)
    requires pp.pageSize % sc.alignment == 0 && ObjectOf(sc, a, x)
    ensures Aligned(x, sc.alignment) && x > 0
  {
    var p, ps := PageOf(pp, a), pp.pageSize;
    var j: nat :| ObjectAt(sc, a, j, x);
    DivModUnique(p * ps, ps, p, 0);
    AlignedSum(pp.extent.Addr(), p * ps, ps);
    DividesTrans(a, ps, sc.alignment);
    DivModUnique(j * sc.objectSize, sc.objectSize, j, 0);
    DividesTrans(j * sc.objectSize, sc.objectSize, sc.alignment);
    AlignedSum(a, j * sc.objectSize, sc.alignment);
  }

  class JobSizePool {
    const sizeClass: SizeClass
    const pagePool: JobPagePool
    /** `m_pagePool` is set */
    const attached: bool
    var pageAllocations: seq<PageAllocation>
    var freeObjects: seq<nat>
    var allocations: map<nat, nat>
    var objectCapacity: nat
    var allocatedObjects: nat

    ghost function Spans(): seq<nat>
      reads this
    {
      Addrs(pageAllocations)
    }

    /** The pool's own bookkeeping, apart from where its spans come from. */
    ghost predicate Books()
      reads this
    {
      sizeClass.Valid() &&
      (forall i :: 0 <= i < |pageAllocations| ==>
         pageAllocations[i].addr != NULL && pageAllocations[i].pageCount == sizeClass.pagesPerSpan &&
         pageAllocations[i].objectCount == sizeClass.ObjectsPerSpan()) &&
      Laid(sizeClass, Spans(), freeObjects, allocations) &&
      |freeObjects| + |allocations| == objectCapacity == |pageAllocations| * sizeClass.ObjectsPerSpan() &&
      allocatedObjects == |allocations|
    }

    /** Every span is a live page run of the page pool, and no span is listed twice. */
    ghost predicate Backed()
      reads this, pagePool
    {
      NoDuplicates(Spans()) &&
      forall a :: a in Spans() ==> SpanBacked(pagePool, sizeClass, a)
    }

    ghost predicate Valid()
      reads this, pagePool
    {
      Books() && Backed() && pagePool.Valid() &&
      (attached ==> pagePool.ready && pagePool.pageSize == sizeClass.pageSize &&
                    sizeClass.pageSize % sizeClass.alignment == 0) &&
      (!attached ==> pageAllocations == [])
    }

    /** The constructor and `init` */
    constructor (sc: SizeClass, pp: JobPagePool)
      requires sc.Valid() && pp.Valid()
      ensures Valid() && sizeClass == sc && pagePool == pp
      ensures attached <==> pp.ready && pp.pageSize == sc.pageSize && sc.pageSize % sc.alignment == 0
      ensures pageAllocations == [] && allocations == map[]
    {
      sizeClass, pagePool := sc, pp;
      pageAllocations, freeObjects, allocations := [], [], map[];
      objectCapacity, allocatedObjects := 0, 0;
      // An unready page pool has page size 0, which no size class has.
      attached := pp.ready && pp.pageSize == sc.pageSize && sc.pageSize % sc.alignment == 0;
      new;
      forall x: nat ensures !IsObject(sc, Spans(), x) {}
    }

    /** `validRequest` */
    predicate ValidRequest(size: nat, alignment: nat) {
      if size == 0 then false
      else if !ValidAlignment(alignment) then false
      else if size > sizeClass.objectSize then false
      else if alignment > sizeClass.alignment then false
      else sizeClass.alignment % alignment == 0
    }

    /** A request is valid exactly when it fits an object and asks for a power of two not above the alignment
        of the class. */
    lemma ValidRequestExact(size: nat, alignment: nat)
      requires sizeClass.Valid()
      ensures ValidRequest(size, alignment) <==>
              0 < size <= sizeClass.objectSize && IsPow2(alignment) && alignment <= sizeClass.alignment
    {
      ValidAlignmentIsPow2(alignment);
      ValidAlignmentIsPow2(sizeClass.alignment);
      if IsPow2(alignment) && alignment <= sizeClass.alignment { Pow2Divides(alignment, sizeClass.alignment); }
    }

    /** No run of free pages is long enough for another span. */
    ghost predicate NoRoomToGrow()
      reads pagePool
      requires pagePool.pageSize >= 1
    {
      forall p: nat :: !PageFits(pagePool.extent.Addr(), pagePool.pageSize, |pagePool.pages|,
                                 LivePages(pagePool.allocations), sizeClass.pagesPerSpan, pagePool.pageSize, p)
    }

    /** The address of the span taken last. */
    ghost function NewestSpan(): nat
      reads this
    {
      if pageAllocations == [] then NULL else pageAllocations[|pageAllocations| - 1].addr
    }

    /** The pool has one more span than before, and the page pool exactly its page run more. */
    ghost predicate GrownBy(spans: seq<PageAllocation>, runs: map<nat, Allocation>)
      requires sizeClass.objectSize > 0
      reads this, pagePool
    {
      var a := NewestSpan();
      pageAllocations == spans + [PageAllocation(a, sizeClass.pagesPerSpan, sizeClass.ObjectsPerSpan())] &&
      OneRunTaken(pagePool, runs, pagePool.allocations, a, sizeClass.pagesPerSpan)
    }

    /** `alloc`. `pools` are all the pools that share the page pool. */
    method Alloc(size: nat, alignment: nat, ghost pools: set<JobSizePool>) returns (ptr: nat)
      requires System(pools, pagePool) && this in pools && size <= SIZE_MAX && alignment <= SIZE_MAX
      modifies this, pagePool`freeSpans, pagePool`allocations, pagePool`allocatedPages, pagePool`allocatedBytes,
               pagePool`nextSpanId
      ensures System(pools, pagePool)
      ensures ptr != NULL ==>
                ValidRequest(size, alignment) && attached && ptr !in old(allocations) &&
                allocations == old(allocations)[ptr := size] && Aligned(ptr, alignment)
      ensures ptr != NULL && old(freeObjects) != [] ==>
                unchanged(pagePool) && pageAllocations == old(pageAllocations) &&
                freeObjects + [ptr] == old(freeObjects)
      ensures ptr != NULL && old(freeObjects) == [] ==>
                GrownBy(old(pageAllocations), old(pagePool.allocations)) &&
                freeObjects + [ptr] == ObjectList(NewestSpan(), sizeClass.objectSize, sizeClass.ObjectsPerSpan())
      ensures ptr == NULL ==> unchanged(this) && unchanged(pagePool)
      ensures ptr == NULL && ValidRequest(size, alignment) && attached ==> freeObjects == [] && NoRoomToGrow()
    {
      if !ValidRequest(size, alignment) { return NULL; }
      if !attached { return NULL; }
      if freeObjects == [] {
        var ok := Grow(pools);
        if !ok { return NULL; }
      }
      if freeObjects == [] { return NULL; }
      ptr := Serve(size, alignment, pools);
    }

    /** Hands out the last free object, which keeps the system. */
    method Serve(size: nat, alignment: nat, ghost pools: set<JobSizePool>) returns (ptr: nat)
      requires System(pools, pagePool) && this in pools && attached && ValidRequest(size, alignment) &&
               freeObjects != []
      modifies this
      ensures System(pools, pagePool) && ptr != NULL && ptr !in old(allocations) && Aligned(ptr, alignment)
      ensures allocations == old(allocations)[ptr := size]
      ensures pageAllocations == old(pageAllocations) && freeObjects + [ptr] == old(freeObjects)
    {
      ptr := Pop(size);
      ObjectIsAligned(ptr, alignment);
      OwnChange(pools);
    }

    /** Lines 85-101 */
    method Pop(size: nat) returns (ptr: nat)
      requires Books() && freeObjects != []
      modifies this
      ensures Books() && ptr == old(freeObjects)[|old(freeObjects)| - 1] && ptr !in old(allocations)
      ensures pageAllocations == old(pageAllocations) && freeObjects == old(freeObjects)[..|old(freeObjects)| - 1]
      ensures allocations == old(allocations)[ptr := size]
    {
      TakeLast(sizeClass, Spans(), freeObjects, allocations, size);
      ptr := freeObjects[|freeObjects| - 1];
      // A failed emplace pushes the object back, that is, leaves the free list as it was.
      if ptr in allocations { return NULL; }
      freeObjects := freeObjects[..|freeObjects| - 1];
      allocations := allocations[ptr := size];
      allocatedObjects := allocatedObjects + 1;
    }

    /** A change within one pool that gives it no span of another pool keeps the system. */
    twostate lemma OwnChange(pools: set<JobSizePool>)
      requires old(System(pools, pagePool)) && this in pools && unchanged(pagePool)
      requires forall q :: q in pools && q != this ==> unchanged(q)
      requires Books() && Backed() && (!attached ==> pageAllocations == [])
      requires forall a, q :: a in Spans() && q in pools && q != this ==> a !in q.Spans()
      ensures System(pools, pagePool)
    {
      forall q | q in pools && q != this ensures q.Valid() { assert old(q.Valid()); }
    }

    lemma ObjectIsAligned(x: nat, alignment: nat)
      requires Books() && Backed() && pagePool.Valid() && pagePool.pageSize == sizeClass.pageSize &&
               sizeClass.pageSize % sizeClass.alignment == 0
      requires (x in freeObjects || x in allocations) && alignment >= 1 && sizeClass.alignment % alignment == 0
      ensures x != NULL && Aligned(x, alignment)
    {
      assert IsObject(sizeClass, Spans(), x);
      var i :| 0 <= i < |Spans()| && ObjectOf(sizeClass, Spans()[i], x);
      assert Spans()[i] in Spans();
      BackedAligned(pagePool, sizeClass, Spans()[i], x);
      DividesTrans(x, sizeClass.alignment, alignment);
    }

    /** `grow` */
    method Grow(ghost pools: set<JobSizePool>) returns (ok: bool)
      requires System(pools, pagePool) && this in pools && attached
      modifies this, pagePool`freeSpans, pagePool`allocations, pagePool`allocatedPages, pagePool`allocatedBytes,
               pagePool`nextSpanId
      ensures System(pools, pagePool) && allocations == old(allocations)
      ensures !ok ==> unchanged(this) && unchanged(pagePool) && NoRoomToGrow()
      ensures ok ==> GrownBy(old(pageAllocations), old(pagePool.allocations)) && freeObjects != [] &&
                     freeObjects == old(freeObjects) +
                                    ObjectList(NewestSpan(), sizeClass.objectSize, sizeClass.ObjectsPerSpan())
    {
      SpanLayout(sizeClass);
      var pageCount := sizeClass.pagesPerSpan;
      if pageCount == 0 { return false; }
      var objectCount := sizeClass.ObjectsPerSpan();
      if objectCount == 0 { return false; }
      var addr := TakeSpan(pageCount, pools);
      if addr == NULL { return false; }
      EnterTaken(addr, pageCount, objectCount, pools);
      ok := true;
    }

    /** Enters a span no pool has yet, which keeps the system. */
    method EnterTaken(addr: nat, pageCount: nat, objectCount: nat, ghost pools: set<JobSizePool>)
      requires System(pools, pagePool) && this in pools && attached && SpanBacked(pagePool, sizeClass, addr) &&
               addr != NULL
      requires pageCount == sizeClass.pagesPerSpan && objectCount == sizeClass.ObjectsPerSpan()
      requires forall q :: q in pools ==> addr !in q.Spans()
      requires forall i :: 0 <= i < |Spans()| ==> Apart(Spans()[i], addr, sizeClass.SpanSize(), sizeClass.SpanSize())
      modifies this
      ensures System(pools, pagePool) && allocations == old(allocations)
      ensures pageAllocations == old(pageAllocations) + [PageAllocation(addr, pageCount, objectCount)]
      ensures freeObjects == old(freeObjects) + ObjectList(addr, sizeClass.objectSize, objectCount)
    {
      Enter(addr, pageCount, objectCount);
      assert Spans() == old(Spans()) + [addr];
      OwnChange(pools);
    }

    /** Takes a page run for a new span; no pool has it yet. */
    method TakeSpan(pageCount: nat, ghost pools: set<JobSizePool>) returns (addr: nat)
      requires System(pools, pagePool) && this in pools && attached && pageCount == sizeClass.pagesPerSpan
      modifies pagePool`freeSpans, pagePool`allocations, pagePool`allocatedPages, pagePool`allocatedBytes,
               pagePool`nextSpanId
      ensures System(pools, pagePool)
      ensures addr == NULL ==> unchanged(pagePool) && NoRoomToGrow()
      ensures addr != NULL ==> SpanBacked(pagePool, sizeClass, addr)
      ensures addr != NULL ==> OneRunTaken(pagePool, old(pagePool.allocations), pagePool.allocations, addr, pageCount)
      ensures addr != NULL ==> forall q :: q in pools ==> addr !in q.Spans()
      ensures addr != NULL ==>
                forall i :: 0 <= i < |Spans()| ==> Apart(Spans()[i], addr, sizeClass.SpanSize(), sizeClass.SpanSize())
    {
      AllSpanPages(pools);
      addr := pagePool.AllocPages(pageCount);
      if addr != NULL {
        MorePages(pools);
        NewSpan(addr, PageOf(pagePool, addr), pools, old(pagePool.allocations));
      }
    }

    lemma AllSpanPages(pools: set<JobSizePool>)
      requires System(pools, pagePool)
      ensures forall q, a :: q in pools && a in q.Spans() ==> PageOf(pagePool, a) in pagePool.allocations
    {
      forall q, a | q in pools && a in q.Spans() ensures PageOf(pagePool, a) in pagePool.allocations {
        assert SpanBacked(pagePool, q.sizeClass, a);
      }
    }

    /** Taking further pages from the page pool keeps the system. */
    twostate lemma MorePages(pools: set<JobSizePool>)
      requires old(System(pools, pagePool)) && pagePool.Valid() && forall q :: q in pools ==> unchanged(q)
      requires forall q, a :: q in pools && a in q.Spans() ==> PageOf(pagePool, a) in old(pagePool.allocations)
      requires forall p :: p in old(pagePool.allocations) ==>
                 p in pagePool.allocations && pagePool.allocations[p] == old(pagePool.allocations)[p]
      ensures System(pools, pagePool)
    {
      forall q | q in pools ensures q.Valid() { StillValid(q); }
    }

    /** Lines 258-275 */
    method Enter(addr: nat, pageCount: nat, objectCount: nat)
      requires Books() && addr != NULL && pageCount == sizeClass.pagesPerSpan &&
               objectCount == sizeClass.ObjectsPerSpan()
      requires forall i :: 0 <= i < |Spans()| ==> Apart(Spans()[i], addr, sizeClass.SpanSize(), sizeClass.SpanSize())
      modifies this
      ensures Books() && allocations == old(allocations)
      ensures pageAllocations == old(pageAllocations) + [PageAllocation(addr, pageCount, objectCount)]
      ensures freeObjects == old(freeObjects) + ObjectList(addr, sizeClass.objectSize, objectCount)
    {
      ghost var spans := Spans();
      AddSpan(sizeClass, spans, freeObjects, allocations, addr);
      OneMore(|spans|, objectCount);
      pageAllocations := pageAllocations + [PageAllocation(addr, pageCount, objectCount)];
      BuildFreeList(addr, objectCount);
      objectCapacity := objectCapacity + objectCount;
      assert Spans() == spans + [addr];
    }

    /** `buildFreeList` */
    method BuildFreeList(addr: nat, objectCount: nat)
      modifies this`freeObjects
      ensures freeObjects == old(freeObjects) + ObjectList(addr, sizeClass.objectSize, objectCount)
    {
      for i := 0 to objectCount
        invariant freeObjects == old(freeObjects) + ObjectList(addr, sizeClass.objectSize, i)
      {
        freeObjects := freeObjects + [addr + i * sizeClass.objectSize];
      }
    }

    /** A span just taken from the page pool is no span of any pool yet. */
    lemma NewSpan(addr: nat, p: nat, pools: set<JobSizePool>, before: map<nat, Allocation>)
      requires System(pools, pagePool) && this in pools && attached
      requires forall q, a :: q in pools && a in q.Spans() ==> PageOf(pagePool, a) in before
      requires p == PageOf(pagePool, addr)
      requires pagePool.TakenAt(before, pagePool.allocations, addr, p, sizeClass.pagesPerSpan,
                                pagePool.pageSize, sizeClass.pagesPerSpan * pagePool.pageSize)
      ensures SpanBacked(pagePool, sizeClass, addr)
      ensures forall q :: q in pools ==> addr !in q.Spans()
      ensures forall i :: 0 <= i < |Spans()| ==> Apart(Spans()[i], addr, sizeClass.SpanSize(), sizeClass.SpanSize())
    {
      forall i | 0 <= i < |Spans()| ensures Apart(Spans()[i], addr, sizeClass.SpanSize(), sizeClass.SpanSize()) {
        assert Spans()[i] in Spans();
        BackedApart(pagePool, sizeClass, sizeClass, Spans()[i], addr);
      }
    }

    /** `free` */
    method Free(ptr: nat, ghost pools: set<JobSizePool>) returns (ok: bool)
      requires System(pools, pagePool) && this in pools && ptr <= SIZE_MAX
      modifies this
      ensures System(pools, pagePool)
      ensures ok <==> ptr in old(allocations)
      ensures ok ==> allocations == old(allocations) - {ptr} && freeObjects == old(freeObjects) + [ptr]
      ensures !ok ==> unchanged(this)
    {
      LiveIsOwned(ptr);
      if ptr == NULL { return false; }
      var owned := OwnsLocked(ptr);
      if !owned { return false; }
      var boundary := IsObjectBoundaryLocked(ptr);
      if !boundary { return false; }
      if ptr !in allocations { return false; }
      Push(ptr);
      OwnChange(pools);
      return true;
    }

    /** Lines 129-132 */
    method Push(ptr: nat)
      requires Books() && ptr in allocations
      modifies this
      ensures Books() && pageAllocations == old(pageAllocations)
      ensures allocations == old(allocations) - {ptr} && freeObjects == old(freeObjects) + [ptr]
    {
      GiveBack(sizeClass, Spans(), freeObjects, allocations, ptr);
      assert allocations == (allocations - {ptr})[ptr := allocations[ptr]];
      freeObjects := freeObjects + [ptr];
      allocations := allocations - {ptr};
      allocatedObjects := allocatedObjects - 1;
    }

    lemma LiveIsOwned(x: nat)
      requires Valid()
      ensures x in allocations ==>
                x != NULL && IsObject(sizeClass, Spans(), x) &&
                exists i :: 0 <= i < |Spans()| && Spans()[i] <= x < Spans()[i] + sizeClass.SpanSize()
    {
      if x in allocations {
        assert IsObject(sizeClass, Spans(), x);
        var i :| 0 <= i < |Spans()| && ObjectOf(sizeClass, Spans()[i], x);
        var j: nat :| ObjectAt(sizeClass, Spans()[i], j, x);
        ObjectInside(sizeClass, Spans()[i], j, x);
        assert Spans()[i] in Spans();
        BackedAligned(pagePool, sizeClass, Spans()[i], x);
      }
    }

    /** `ownsLocked` */
    method OwnsLocked(ptr: nat) returns (owned: bool)
      requires Valid()
      ensures owned <==> ptr != NULL &&
                         exists i :: 0 <= i < |Spans()| && Spans()[i] <= ptr < Spans()[i] + sizeClass.SpanSize()
    {
      if ptr == NULL { return false; }
      var spanSize := sizeClass.SpanSize();
      for i := 0 to |pageAllocations|
        invariant forall k :: 0 <= k < i ==> !(Spans()[k] <= ptr < Spans()[k] + spanSize)
      {
        var first := pageAllocations[i].addr;
        if first == NULL { continue; }
        assert first == Spans()[i] && first in Spans();
        SpanInside(first);
        if spanSize > SIZE_MAX - first { continue; }
        var last := first + spanSize;
        if ptr >= first && ptr < last { return true; }
      }
      return false;
    }

    lemma SpanInside(a: nat)
      requires Valid() && a in Spans()
      ensures a + sizeClass.SpanSize() <= SIZE_MAX
    {
      var p := PageOf(pagePool, a);
      assert p in LivePages(pagePool.allocations);
      RunBefore(p, sizeClass.pagesPerSpan, |pagePool.pages|, pagePool.pageSize);
    }

    /** `isObjectBoundaryLocked` */
    method IsObjectBoundaryLocked(ptr: nat) returns (boundary: bool)
      requires Valid()
      ensures boundary <==> ptr != NULL && IsObject(sizeClass, Spans(), ptr)
    {
      if ptr == NULL { return false; }
      var objectSize := sizeClass.objectSize;
      for i := 0 to |pageAllocations|
        invariant forall k :: 0 <= k < i ==> !ObjectOf(sizeClass, Spans()[k], ptr)
      {
        var first := pageAllocations[i].addr;
        if first == NULL { continue; }
        assert first == Spans()[i];
        BeforeSpan(first, ptr);
        if ptr < first { continue; }
        var distance := ptr - first;
        var objectBytes := pageAllocations[i].objectCount * objectSize;
        BoundaryIsObject(sizeClass, first, ptr);
        if distance >= objectBytes { continue; }
        OnlyThisSpan(i, ptr);
        return distance % objectSize == 0;
      }
      return false;
    }

    lemma BeforeSpan(a: nat, x: nat)
      requires sizeClass.Valid()
      ensures x < a ==> !ObjectOf(sizeClass, a, x)
    {
      forall j: nat ensures x < a ==> !ObjectAt(sizeClass, a, j, x) {}
    }

    /** An address within the objects of one span is no object of another. */
    lemma OnlyThisSpan(i: nat, x: nat)
      requires Valid() && i < |Spans()| &&
               Spans()[i] <= x < Spans()[i] + sizeClass.ObjectsPerSpan() * sizeClass.objectSize
      ensures IsObject(sizeClass, Spans(), x) <==> ObjectOf(sizeClass, Spans()[i], x)
    {
      SpanLayout(sizeClass);
      assert Spans()[i] in Spans();
      forall k | 0 <= k < |Spans()| && k != i ensures !ObjectOf(sizeClass, Spans()[k], x) {
        assert Spans()[k] in Spans() && Spans()[k] != Spans()[i];
        BackedApart(pagePool, sizeClass, sizeClass, Spans()[i], Spans()[k]);
        NotInApartSpan(sizeClass, Spans()[i], Spans()[k], x);
      }
    }

    /** `clear`: hands exactly the pool's own pages back. */
    method Clear(ghost pools: set<JobSizePool>)
      requires System(pools, pagePool) && this in pools
      modifies this, pagePool`freeSpans, pagePool`allocations, pagePool`allocatedPages, pagePool`allocatedBytes,
               pagePool`nextSpanId
      ensures System(pools, pagePool)
      ensures pageAllocations == [] && freeObjects == [] && allocations == map[]
      ensures objectCapacity == 0 && allocatedObjects == 0
      ensures ReleasedExactly(old(pagePool.allocations), pagePool.allocations, old(Spans()))
    {
      OtherSpanPages(pools);
      ReleasePages();
      OthersKept(pools);
      label released:
      Reset();
      Emptied@released(pools);
    }

    /** Lines 184-189 */
    method Reset()
      requires sizeClass.Valid()
      modifies this
      ensures Books() && pageAllocations == [] && freeObjects == [] && allocations == map[]
      ensures objectCapacity == 0 && allocatedObjects == 0
    {
      pageAllocations := [];
      freeObjects := [];
      allocations := map[];
      objectCapacity := 0;
      allocatedObjects := 0;
      forall x: nat ensures !IsObject(sizeClass, Spans(), x) {}
    }

    /** Dropping all spans of one pool keeps the system. */
    twostate lemma Emptied(pools: set<JobSizePool>)
      requires pagePool.Valid() && unchanged(pagePool) && this in pools && Books() && pageAllocations == []
      requires attached ==>
                 pagePool.ready && pagePool.pageSize == sizeClass.pageSize &&
                 sizeClass.pageSize % sizeClass.alignment == 0
      requires forall q :: q in pools && q != this ==> unchanged(q) && q.pagePool == pagePool && old(q.Valid())
      requires forall p, q, a :: p in pools && q in pools && p != q && p != this && q != this && a in p.Spans() ==>
               a !in q.Spans()
      ensures System(pools, pagePool)
    {
    }

    /** Lines 177-182 */
    method ReleasePages()
      requires Valid()
      modifies pagePool`freeSpans, pagePool`allocations, pagePool`allocatedPages, pagePool`allocatedBytes,
               pagePool`nextSpanId
      ensures pagePool.Valid() && ReleasedExactly(old(pagePool.allocations), pagePool.allocations, Spans())
    {
      ghost var spans, before := Spans(), pagePool.allocations;
      OwnSpanPages();
      for i := 0 to |pageAllocations|
        invariant pagePool.Valid() && ReleasedExactly(before, pagePool.allocations, spans[..i])
      {
        assert pageAllocations[i].addr == spans[i];
        FirstPageNotYetReleased(pagePool, spans, i);
        ghost var current := pagePool.allocations;
        if pageAllocations[i].addr != NULL { FreeSpan(pageAllocations[i].addr); }
        ReleasedOneMore(before, current, spans, i);
      }
      assert spans[..|spans|] == spans;
    }

    /** Gives the page run of one span back. */
    method FreeSpan(a: nat)
      requires pagePool.Valid() && pagePool.ready && a <= SIZE_MAX && PageOf(pagePool, a) in pagePool.allocations
      requires a == pagePool.extent.Addr() + PageOf(pagePool, a) * pagePool.pageSize
      modifies pagePool`freeSpans, pagePool`allocations, pagePool`allocatedPages, pagePool`allocatedBytes,
               pagePool`nextSpanId
      ensures pagePool.Valid() && pagePool.allocations == old(pagePool.allocations) - {PageOf(pagePool, a)}
    {
      var ok := pagePool.Free(a);
    }

    /** The page pool lost the page runs of these spans and nothing else. */
    ghost predicate ReleasedExactly(before: map<nat, Allocation>, after: map<nat, Allocation>, spans: seq<nat>) {
      (forall p :: p in after <==> p in before && !Released(pagePool, spans, p)) &&
      (forall p :: p in after ==> after[p] == before[p])
    }

    lemma ReleasedOneMore(before: map<nat, Allocation>, current: map<nat, Allocation>, spans: seq<nat>, i: nat)
      requires i < |spans| && ReleasedExactly(before, current, spans[..i])
      ensures ReleasedExactly(before, current - {PageOf(pagePool, spans[i])}, spans[..i + 1])
    {
      var after := current - {PageOf(pagePool, spans[i])};
      forall p ensures p in after <==> p in before && !Released(pagePool, spans[..i + 1], p) {
        ReleasedAppend(pagePool, spans, i, p);
      }
    }

    twostate lemma OthersKept(pools: set<JobSizePool>)
      requires old(System(pools, pagePool)) && this in pools && pagePool.Valid()
      requires forall q :: q in pools ==> unchanged(q)
      requires forall q, a :: q in pools && q != this && a in q.Spans() ==>
                 PageOf(pagePool, a) in old(pagePool.allocations) && !Released(pagePool, Spans(), PageOf(pagePool, a))
      requires ReleasedExactly(old(pagePool.allocations), pagePool.allocations, Spans())
      ensures forall q :: q in pools && q != this ==> q.Valid()
    {
      forall q | q in pools && q != this ensures q.Valid() { StillValid(q); }
    }

    /** Each span of the pool is one live page run of its own. */
    lemma OwnSpanPages()
      requires Valid()
      ensures forall k :: 0 <= k < |Spans()| ==>
                Spans()[k] <= SIZE_MAX && PageOf(pagePool, Spans()[k]) in pagePool.allocations &&
                Spans()[k] == pagePool.extent.Addr() + PageOf(pagePool, Spans()[k]) * pagePool.pageSize
      ensures forall j, k :: 0 <= j < k < |Spans()| ==> PageOf(pagePool, Spans()[j]) != PageOf(pagePool, Spans()[k])
    {
      forall k | 0 <= k < |Spans()| ensures SpanBacked(pagePool, sizeClass, Spans()[k]) && Spans()[k] <= SIZE_MAX {
        assert Spans()[k] in Spans();
        SpanInside(Spans()[k]);
      }
    }

    /** No other pool has one of this pool's page runs. */
    lemma OtherSpanPages(pools: set<JobSizePool>)
      requires System(pools, pagePool) && this in pools
      ensures forall q, a :: q in pools && q != this && a in q.Spans() ==>
                PageOf(pagePool, a) in pagePool.allocations && !Released(pagePool, Spans(), PageOf(pagePool, a))
    {
      forall q, a | q in pools && q != this && a in q.Spans()
        ensures PageOf(pagePool, a) in pagePool.allocations && !Released(pagePool, Spans(), PageOf(pagePool, a))
      {
        assert SpanBacked(pagePool, q.sizeClass, a);
        forall k | 0 <= k < |Spans()| ensures PageOf(pagePool, Spans()[k]) != PageOf(pagePool, a) {
          assert Spans()[k] in Spans();
          assert SpanBacked(pagePool, sizeClass, Spans()[k]);
        }
      }
    }
  }

  lemma FirstPageNotYetReleased(pp: JobPagePool, spans: seq<nat>, i: nat)
    requires i < |spans| && forall j, k :: 0 <= j < k < |spans| ==> PageOf(pp, spans[j]) != PageOf(pp, spans[k])
    ensures !Released(pp, spans[..i], PageOf(pp, spans[i]))
  {
  }

  lemma ReleasedAppend(pp: JobPagePool, spans: seq<nat>, i: nat, p: int)
    requires i < |spans|
    ensures Released(pp, spans[..i + 1], p) <==> Released(pp, spans[..i], p) || p == PageOf(pp, spans[i])
  {
    var before, after := spans[..i], spans[..i + 1];
    if Released(pp, before, p) {
      var k :| 0 <= k < |before| && PageOf(pp, before[k]) == p;
      assert PageOf(pp, after[k]) == p;
    }
    if p == PageOf(pp, spans[i]) { assert PageOf(pp, after[i]) == p; }
    if Released(pp, after, p) {
      var k :| 0 <= k < |after| && PageOf(pp, after[k]) == p;
      if k < i { assert PageOf(pp, before[k]) == p; }
    }
  }

  /** A size pool keeps its validity while its page runs stay live in the page pool. */
  twostate lemma StillValid(q: JobSizePool)
    requires old(q.Valid()) && q.pagePool.Valid() && unchanged(q)
    requires forall a :: a in q.Spans() ==>
               var p := PageOf(q.pagePool, a);
               p in old(q.pagePool.allocations) && p in q.pagePool.allocations &&
               q.pagePool.allocations[p] == old(q.pagePool.allocations)[p]
    ensures q.Valid()
  {
    forall a | a in q.Spans() ensures SpanBacked(q.pagePool, q.sizeClass, a) {
      assert old(SpanBacked(q.pagePool, q.sizeClass, a));
    }
  }

  lemma OneMore(n: nat, k: nat)
    ensures (n + 1) * k == n * k + k
  {
  }

  lemma NotInApartSpan(sc: SizeClass, a: nat, b: nat, x: nat)
    requires sc.Valid() && Apart(a, b, sc.SpanSize(), sc.SpanSize()) && a <= x < a + sc.SpanSize()
    ensures !ObjectOf(sc, b, x)
  {
    forall j: nat ensures !ObjectAt(sc, b, j, x) {
      if ObjectAt(sc, b, j, x) { ObjectInside(sc, b, j, x); }
    }
  }

  /** All pools sharing a page pool: each is consistent and no two have a span in common. */
  ghost predicate System(pools: set<JobSizePool>, pp: JobPagePool)
    reads pools, pp
  {
    pp.Valid() &&
    (forall p :: p in pools ==> p.pagePool == pp && p.Valid()) &&
    (forall p, q, a :: p in pools && q in pools && p != q && a in p.Spans() ==> a !in q.Spans())
  }

  /** Any two live objects, of any two pools of a system, are disjoint. */
  lemma LiveObjectsDisjoint(pools: set<JobSizePool>, pp: JobPagePool, p: JobSizePool, q: JobSizePool, x: nat, y: nat)
    requires System(pools, pp) && p in pools && q in pools
    requires x in p.allocations && y in q.allocations && (p != q || x != y)
    ensures Apart(x, y, p.sizeClass.objectSize, q.sizeClass.objectSize)
  {
    assert IsObject(p.sizeClass, p.Spans(), x) && IsObject(q.sizeClass, q.Spans(), y);
    var i :| 0 <= i < |p.Spans()| && ObjectOf(p.sizeClass, p.Spans()[i], x);
    var j :| 0 <= j < |q.Spans()| && ObjectOf(q.sizeClass, q.Spans()[j], y);
    var a, b := p.Spans()[i], q.Spans()[j];
    assert a in p.Spans() && b in q.Spans();
    if a != b {
      BackedApart(pp, p.sizeClass, q.sizeClass, a, b);
      ObjectsOfApartSpans(p.sizeClass, q.sizeClass, a, b, x, y);
    } else {
      assert p == q;
      ObjectsOfOneSpan(p.sizeClass, a, x, y);
    }
  }

  /** Every live object lies inside one of its pool's spans and is aligned. */
  lemma LiveObjectPlaced(p: JobSizePool, x: nat) returns (a: nat)
    requires p.Valid() && x in p.allocations
    ensures a in p.Spans() && a <= x && x + p.sizeClass.objectSize <= a + p.sizeClass.SpanSize()
    ensures Aligned(x, p.sizeClass.alignment)
  {
    assert IsObject(p.sizeClass, p.Spans(), x);
    var i :| 0 <= i < |p.Spans()| && ObjectOf(p.sizeClass, p.Spans()[i], x);
    a := p.Spans()[i];
    var j: nat :| ObjectAt(p.sizeClass, a, j, x);
    ObjectInside(p.sizeClass, a, j, x);
    BackedAligned(p.pagePool, p.sizeClass, a, x);
  }
}
