/** Extents, pages and page spans (libs/job_io/job_mem_extent.h, job_mem_page.h, job_mem_span.h):
    the two coordinate systems, pages and bytes, and how they correspond. */
module PageSpans {
  import opened MemRanges
  import opened RangeSets

  /** `JobMemExtent`: a byte range of one mapping, which stays mapped. */
  datatype Extent = Extent(id: nat, mmapAddr: nat, range: MemRange) {
    predicate Valid() {
      mmapAddr > 0 && range.first < range.last && mmapAddr + range.last <= SIZE_MAX
    }

    function Size(): nat
      requires Valid()
    {
      range.last - range.first
    }

    function Addr(): nat { mmapAddr + range.first }

    /** `contains(ptr)`, with its overflow guard */
    predicate Contains(ptr: nat)
      requires Valid()
    {
      if Size() > SIZE_MAX - Addr() then false else Addr() <= ptr < Addr() + Size()
    }
  }

  /** `JobMemPage` */
  datatype Page = Page(id: nat, extentId: nat, index: nat, pageSize: nat, range: MemRange)

  /** `JobMemSpan` */
  datatype Span = Span(id: nat, extentId: nat, firstPage: nat, pageCount: nat, pageSize: nat, range: MemRange) {
    function EndPage(): nat { firstPage + pageCount }

    /** The span in page coordinates. */
    function Pages(): MemRange { MemRange(firstPage, firstPage + pageCount) }

    predicate SpanAdjacent(other: Span) {
      if extentId != other.extentId || pageSize != other.pageSize then false
      else (EndPage() == other.firstPage || other.EndPage() == firstPage) && range.Adjacent(other.range)
    }
  }

  /** The bytes of a page run within its extent. */
  function BytesOf(extent: Extent, pageSize: nat, pages: MemRange): MemRange {
    MemRange(extent.range.first + pages.first * pageSize, extent.range.first + pages.last * pageSize)
  }

  /** The two coordinate systems of a span agree. */
  ghost predicate Scaled(extent: Extent, pageSize: nat, s: Span) {
    s.extentId == extent.id && s.pageSize == pageSize && s.pageCount > 0 &&
    s.range == BytesOf(extent, pageSize, s.Pages())
  }

  ghost predicate AllScaled(extent: Extent, pageSize: nat, spans: seq<Span>) {
    forall s :: s in spans ==> Scaled(extent, pageSize, s)
  }

  function PageRanges(spans: seq<Span>): (r: Ranges)
    ensures |r| == |spans| && forall i :: 0 <= i < |r| ==> r[i] == spans[i].Pages()
  {
    seq(|spans|, i requires 0 <= i < |spans| => spans[i].Pages())
  }

  lemma ScaleMono(a: nat, b: nat, ps: nat)
    requires a <= b
    ensures a * ps <= b * ps
    ensures (b - a) * ps == b * ps - a * ps
  {
  }

  lemma ScaleLess(a: nat, b: nat, ps: nat)
    requires ps >= 1 && a < b
    ensures a * ps + ps <= b * ps
  {
    ScaleMono(a + 1, b, ps);
    assert (a + 1) * ps == a * ps + ps;
  }

  /** For scaled spans `adjacent` is page adjacency. */
  lemma AdjacentByPages(extent: Extent, pageSize: nat, s: Span, t: Span)
    requires Scaled(extent, pageSize, s) && Scaled(extent, pageSize, t)
    ensures s.SpanAdjacent(t) <==> s.Pages().Adjacent(t.Pages())
  {
  }

  // ----- sorting and sweeping spans

  function InsertSpan(spans: seq<Span>, s: Span): seq<Span> {
    if spans == [] then [s]
    else if s.firstPage <= spans[0].firstPage then [s] + spans
    else [spans[0]] + InsertSpan(spans[1..], s)
  }

  /** std::sort by first page */
  function SortSpans(spans: seq<Span>): seq<Span> {
    if spans == [] then [] else InsertSpan(SortSpans(spans[1..]), spans[0])
  }

  lemma PageRangesCons(spans: seq<Span>)
    requires spans != []
    ensures PageRanges(spans) == [spans[0].Pages()] + PageRanges(spans[1..])
  {
  }

  lemma {:induction false} InsertSpanPages(spans: seq<Span>, s: Span)
    ensures PageRanges(InsertSpan(spans, s)) == InsertByFirst(PageRanges(spans), s.Pages())
  {
    if spans != [] {
      PageRangesCons(spans);
      PageRangesCons(InsertSpan(spans, s));
      assert PageRanges(spans)[1..] == PageRanges(spans[1..]);
      if s.firstPage > spans[0].firstPage {
        InsertSpanPages(spans[1..], s);
        assert InsertSpan(spans, s)[1..] == InsertSpan(spans[1..], s);
      } else {
        assert InsertSpan(spans, s)[1..] == spans;
      }
    }
  }

  /** In page coordinates the span sort is the range sort. */
  lemma {:induction false} SortSpansPages(spans: seq<Span>)
    ensures PageRanges(SortSpans(spans)) == SortByFirst(PageRanges(spans))
  {
    if spans != [] {
      SortSpansPages(spans[1..]);
      InsertSpanPages(SortSpans(spans[1..]), spans[0]);
      assert PageRanges(spans)[1..] == PageRanges(spans[1..]);
    }
  }

  lemma {:induction false} InsertSpanElements(spans: seq<Span>, s: Span, e: Span)
    ensures e in InsertSpan(spans, s) <==> e == s || e in spans
  {
    if spans != [] {
      assert spans == [spans[0]] + spans[1..];
      if s.firstPage > spans[0].firstPage { InsertSpanElements(spans[1..], s, e); }
    }
  }

  lemma {:induction false} SortSpansElements(spans: seq<Span>, e: Span)
    ensures e in SortSpans(spans) <==> e in spans
  {
    if spans != [] {
      assert spans == [spans[0]] + spans[1..];
      SortSpansElements(spans[1..], e);
      InsertSpanElements(SortSpans(spans[1..]), spans[0], e);
    }
  }

  /** Between the swept prefix and the rest of an ordered list nothing overlaps, so that
      "adjacent" and "mergeable" coincide. */
  ghost predicate Behind(sorted: Ranges, rs: Ranges, write: nat, read: nat)
    requires write < |rs|
  {
    forall j :: read <= j < |sorted| ==> rs[write].last <= sorted[j].first
  }

  lemma BehindMergeable(sorted: Ranges, rs: Ranges, write: nat, read: nat)
    requires Swept(sorted, rs, write, read) && read < |rs| && NonEmpty(sorted) && Ordered(sorted)
    requires Behind(sorted, rs, write, read)
    ensures rs[write].Mergeable(rs[read]) <==> rs[write].Adjacent(rs[read])
    ensures rs[write].Adjacent(rs[read]) ==> rs[write].Merged(rs[read]) == MemRange(rs[write].first, rs[read].last)
    ensures rs[write].Adjacent(rs[read]) ==> Behind(sorted, rs[write := rs[write].Merged(rs[read])], write, read + 1)
    ensures rs[write].Adjacent(rs[read]) ==> rs[write].last == rs[read].first
    ensures !rs[write].Adjacent(rs[read]) ==> Behind(sorted, rs[write + 1 := rs[read]], write + 1, read + 1)
  {
    assert rs[read] == rs[read..][0] == sorted[read];
    assert rs[..write + 1][write] == rs[write];
  }

  lemma OrderedIsSorted(rs: Ranges)
    requires NonEmpty(rs) && Ordered(rs)
    ensures SortedByFirst(rs)
  {
    forall i, j | 0 <= i < j < |rs| ensures rs[i].first <= rs[j].first { assert rs[i].last <= rs[j].first; }
  }
}
