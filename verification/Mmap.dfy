/** Mapped and locked byte ranges of one mapping (libs/job_io/job_mmap.cpp). The answers of
    munmap, mremap, ftruncate, mlock and munlock are parameters of the methods. */
module Mmap {
  import opened MemRanges
  import opened RangeSets
  import opened MemLock

  /** `normalizeRanges` */
  method NormalizeRanges(ranges: Ranges) returns (out: Ranges)
    requires NonEmpty(ranges)
    ensures Canonical(out) && SameBytes(out, ranges)
  {
    if |ranges| < 2 { return ranges; }
    SweepStart(ranges);
    SortKeepsBytes(ranges);
    var sorted := SortByFirst(ranges);
    out := [sorted[0]];
    assert sorted[..1] == [sorted[0]];
    for i := 1 to |sorted|
      invariant Folded(sorted, i, out)
    {
      out := Fold(sorted, i, out);
    }
    assert sorted[..|sorted|] == sorted;
  }

  /** The first i sorted ranges have been merged into the canonical list `out`. */
  ghost predicate Folded(sorted: Ranges, i: nat, out: Ranges) {
    i <= |sorted| && out != [] && Canonical(out) && SameBytes(out, sorted[..i]) &&
    forall j :: i <= j < |sorted| ==> out[|out| - 1].first <= sorted[j].first
  }

  /** One trip of the loop of `normalizeRanges`. */
  method Fold(sorted: Ranges, i: nat, rs: Ranges) returns (out: Ranges)
    requires NonEmpty(sorted) && SortedByFirst(sorted) && i < |sorted| && Folded(sorted, i, rs)
    ensures Folded(sorted, i + 1, out)
  {
    var last, current := rs[|rs| - 1], sorted[i];
    ExtendCanonical(rs, current);
    if last.Mergeable(current) {
      out := rs[..|rs| - 1] + [last.Merged(current)];
    } else {
      AppendCanonical(rs, current);
      out := rs + [current];
    }
    ghost var done := sorted[..i + 1];
    assert done == sorted[..i] + [current];
    forall x: nat ensures Covers(out, x) <==> Covers(done, x) {
      CoversAppend(sorted[..i], current, x);
      CoversAppend(rs, current, x);
    }
  }

  class JobMmap {
    var addr: nat
    var mapLength: nat
    var mappedRanges: Ranges
    const pageSize: nat
    const fileBacked: bool
    const readWrite: bool
    const memLock: JobMemLock

    /** Both range sets are canonical, mapped boundaries are page multiples or the map end, and
        every locked byte is mapped. */
    ghost predicate Valid()
      reads this, memLock
    {
      memLock.Valid() && memLock.addr == addr && memLock.size == mapLength && memLock.pageSize == pageSize &&
      Canonical(mappedRanges) && Within(mappedRanges, mapLength) && PageBounded(mappedRanges, pageSize, mapLength) &&
      forall x: nat :: Covers(memLock.lockedRanges, x) ==> Covers(mappedRanges, x)
    }

    /** `initAnonymousMap` and `initFileMap`, after a successful mmap at address `at` */
    constructor (at: nat, size: nat, pageSize: nat, fileBacked: bool, readWrite: bool)
      requires at != NULL && size > 0 && 1 <= pageSize <= SIZE_MAX && ValidAlignment(pageSize) &&
               size + pageSize <= SIZE_MAX
      ensures Valid() && fresh(memLock)
      ensures mappedRanges == [MemRange(0, size)] && memLock.lockedRanges == []
    {
      addr, mapLength, this.pageSize := at, size, pageSize;
      this.fileBacked, this.readWrite := fileBacked, readWrite;
      mappedRanges := [MemRange(0, size)];
      memLock := new JobMemLock(at, size, pageSize);
      new;
      ZeroAligned(pageSize);
    }

    predicate IsValid()
      reads this
    {
      addr != NULL && mappedRanges != []
    }

    /** `mappedRange`: some mapped range contains it, that is, all its bytes are mapped. */
    method MappedRange(range: MemRange) returns (mapped: bool)
      requires Valid()
      ensures mapped <==> range.first < range.last <= mapLength &&
                          forall x: nat :: range.Has(x) ==> Covers(mappedRanges, x)
      ensures mapped ==> exists i :: 0 <= i < |mappedRanges| && mappedRanges[i].Contains(range)
    {
      if range.first >= range.last || range.last > mapLength { return false; }
      for i := 0 to |mappedRanges|
        invariant forall k :: 0 <= k < i ==> !mappedRanges[k].Contains(range)
      {
        if mappedRanges[i].Contains(range) {
          forall x: nat | range.Has(x) ensures Covers(mappedRanges, x) { assert mappedRanges[i].Has(x); }
          return true;
        }
      }
      NotContained(mappedRanges, range);
      return false;
    }

    ghost predicate AllMapped(range: MemRange)
      reads this
    {
      range.first < range.last <= mapLength && forall x: nat :: range.Has(x) ==> Covers(mappedRanges, x)
    }

    /** `lock(range)`: outward rounding never leaves the mapped bytes. */
    method Lock(range: MemRange, osLocks: bool) returns (ok: bool)
      requires Valid()
      modifies memLock`lockedRanges
      ensures Valid()
      ensures ok ==> AllMapped(range) && forall x: nat ::
                Covers(memLock.lockedRanges, x) <==>
                    old(Covers(memLock.lockedRanges, x)) || memLock.AlignedRange(range).Has(x)
      ensures !ok ==> memLock.lockedRanges == old(memLock.lockedRanges) && (AllMapped(range) ==> !osLocks)
    {
      var mapped := MappedRange(range);
      if !IsValid() || !mapped { return false; }
      LockStaysMapped(range);
      ok := memLock.Lock(range, osLocks);
    }

    lemma LockStaysMapped(range: MemRange)
      requires Valid() && range.first < range.last <= mapLength
      requires exists i :: 0 <= i < |mappedRanges| && mappedRanges[i].Contains(range)
      ensures forall x: nat :: memLock.AlignedRange(range).Has(x) ==> Covers(mappedRanges, x)
    {
      var i :| 0 <= i < |mappedRanges| && mappedRanges[i].Contains(range);
      memLock.AlignedRangeOnPages(range);
      assert OnPages(mappedRanges[i], pageSize, mapLength);
      assert mappedRanges[i].Contains(memLock.AlignedRange(range));
      forall x: nat | memLock.AlignedRange(range).Has(x) ensures Covers(mappedRanges, x) {
        assert mappedRanges[i].Has(x);
      }
    }

    /** `lock()`: only of a complete mapping. */
    method LockAll(osLocks: bool) returns (ok: bool)
      requires Valid()
      modifies memLock`lockedRanges
      ensures Valid()
      ensures ok <==> mappedRanges == [MemRange(0, mapLength)] &&
                      (osLocks || old(memLock.lockedRanges) == [MemRange(0, mapLength)])
      ensures ok ==> memLock.lockedRanges == [MemRange(0, mapLength)]
      ensures !ok ==> memLock.lockedRanges == old(memLock.lockedRanges)
    {
      if !IsValid() { return false; }
      if |mappedRanges| != 1 { return false; }
      if mappedRanges[0] != MemRange(0, mapLength) { return false; }
      var whole := MemRange(0, mapLength);
      assert mappedRanges[0].Contains(whole);
      LockStaysMapped(whole);
      WholeLocked(memLock.lockedRanges, mapLength);
      assert memLock.AlignedRange(whole) == whole;
      ok := memLock.Lock(whole, osLocks);
      WholeLocked(memLock.lockedRanges, mapLength);
    }

    /** `unlock(range)` */
    method Unlock(range: MemRange, osUnlocks: bool) returns (ok: bool)
      requires Valid()
      modifies memLock`lockedRanges
      ensures Valid()
      ensures ok ==> range.first < range.last <= mapLength && forall x: nat ::
                Covers(memLock.lockedRanges, x) <==>
                    old(Covers(memLock.lockedRanges, x)) && !memLock.AlignedRange(range).Has(x)
      ensures !ok ==> memLock.lockedRanges == old(memLock.lockedRanges)
      ensures ok <==> range.first < range.last <= mapLength &&
                      (osUnlocks || forall x: nat ::
                         memLock.AlignedRange(range).Has(x) ==> !old(Covers(memLock.lockedRanges, x)))
    {
      ok := memLock.Unlock(range, osUnlocks);
    }

    /** The whole pages inside a mapped range, which `unmap` gives back. */
    function WholePages(range: MemRange): MemRange
      requires Valid() && range.first < range.last <= mapLength
      reads this, memLock
    {
      range.AlignedInward(pageSize)
    }

    /** `unmap(range)` */
    method Unmap(range: MemRange, osUnlocks: bool, osUnmaps: bool) returns (ok: bool)
      requires Valid()
      modifies this`mappedRanges, memLock`lockedRanges
      ensures Valid()
      ensures ok ==> old(AllMapped(range)) && forall x: nat ::
                (Covers(mappedRanges, x) <==> old(Covers(mappedRanges, x)) && !old(WholePages(range)).Has(x)) &&
                (Covers(memLock.lockedRanges, x) <==>
                    old(Covers(memLock.lockedRanges, x)) && !old(WholePages(range)).Has(x))
      ensures !ok ==> mappedRanges == old(mappedRanges)
      ensures !ok && osUnlocks && osUnmaps ==> !old(AllMapped(range))
      ensures !ok ==> memLock.lockedRanges == old(memLock.lockedRanges) ||
                      (old(AllMapped(range)) && !osUnmaps && forall x: nat ::
                         Covers(memLock.lockedRanges, x) <==>
                             old(Covers(memLock.lockedRanges, x)) && !old(WholePages(range)).Has(x))
    {
      var mapped := MappedRange(range);
      if !IsValid() || !mapped { return false; }
      var aligned := range.AlignedInward(pageSize);
      AlignedInwardExact(range, pageSize);
      if aligned.Empty() { return true; }
      var stillMapped := MappedRange(aligned);
      if !stillMapped { return false; }
      ok := UnmapPages(aligned, osUnlocks, osUnmaps);
    }

    /** Lines 309-319, for whole mapped pages */
    method UnmapPages(aligned: MemRange, osUnlocks: bool, osUnmaps: bool) returns (ok: bool)
      requires Valid() && aligned.first < aligned.last <= mapLength
      requires Aligned(aligned.first, pageSize) && Aligned(aligned.last, pageSize)
      modifies this`mappedRanges, memLock`lockedRanges
      ensures Valid()
      ensures ok ==> (forall x: nat :: Covers(mappedRanges, x) <==> old(Covers(mappedRanges, x)) && !aligned.Has(x)) &&
                     (forall x: nat :: Covers(memLock.lockedRanges, x) <==>
                         old(Covers(memLock.lockedRanges, x)) && !aligned.Has(x))
      ensures !ok ==> mappedRanges == old(mappedRanges) && !(osUnlocks && osUnmaps)
      ensures !ok ==> memLock.lockedRanges == old(memLock.lockedRanges) ||
                      (!osUnmaps && forall x: nat ::
                         Covers(memLock.lockedRanges, x) <==> old(Covers(memLock.lockedRanges, x)) && !aligned.Has(x))
    {
      AlignedStays(aligned);
      var unlocked := memLock.Unlock(aligned, osUnlocks);
      if !unlocked { return false; }
      if !osUnmaps { return false; }
      SubtractMapped(aligned);
      return true;
    }

    /** `subtractRange` on the mapped ranges */
    method SubtractMapped(range: MemRange)
      requires memLock.Valid() && memLock.size == mapLength && memLock.pageSize == pageSize
      requires Canonical(mappedRanges) && Within(mappedRanges, mapLength) &&
               PageBounded(mappedRanges, pageSize, mapLength)
      requires range.first < range.last <= mapLength && OnPages(range, pageSize, mapLength)
      modifies this`mappedRanges
      ensures Canonical(mappedRanges) && Within(mappedRanges, mapLength) &&
              PageBounded(mappedRanges, pageSize, mapLength)
      ensures forall x: nat :: Covers(mappedRanges, x) <==> old(Covers(mappedRanges, x)) && !range.Has(x)
    {
      var remaining := Subtracted(mappedRanges, range, pageSize, mapLength);
      var normalized := NormalizeRanges(remaining);
      CanonicalUnique(normalized, remaining);
      mappedRanges := normalized;
    }

    /** Rounding whole pages outward changes nothing. */
    lemma AlignedStays(r: MemRange)
      requires Valid() && r.first < r.last <= mapLength && Aligned(r.first, pageSize) && Aligned(r.last, pageSize)
      ensures memLock.AlignedRange(r) == r
    {
      memLock.AlignedRangeOnPages(r);
      assert r.Contains(r) && OnPages(r, pageSize, mapLength);
      assert r.Contains(memLock.AlignedRange(r));
    }

    /** `grow` */
    method Grow(newSize: nat, osTruncates: bool, osRemaps: bool, newAddr: nat) returns (ok: bool)
      requires Valid() && (osRemaps ==> newSize + pageSize <= SIZE_MAX && newAddr != NULL)
      modifies this`addr, this`mapLength, this`mappedRanges, memLock
      ensures Valid()
      ensures ok ==> mapLength == newSize && old(IsValid())
      ensures ok ==> (newSize == old(mapLength) ||
                      (mappedRanges == [MemRange(0, newSize)] && memLock.lockedRanges == []))
      ensures ok && newSize == old(mapLength) ==> unchanged(this) && unchanged(memLock)
      ensures !ok ==> unchanged(this) && unchanged(memLock)
      ensures newSize != old(mapLength) ==>
                (ok <==> newSize > old(mapLength) && old(mappedRanges) == [MemRange(0, old(mapLength))] &&
                         old(memLock.lockedRanges) == [] && (fileBacked ==> readWrite && osTruncates) && osRemaps)
    {
      if !IsValid() { return false; }
      if newSize == mapLength { return true; }
      if newSize < mapLength { return false; }
      if |mappedRanges| != 1 { return false; }
      if mappedRanges[0] != MemRange(0, mapLength) { return false; }
      if memLock.lockedRanges != [] { return false; }
      if fileBacked {
        if !readWrite { return false; }
        if !osTruncates { return false; }
      }
      if !osRemaps { return false; }
      addr := newAddr;
      mapLength := newSize;
      mappedRanges := [MemRange(0, newSize)];
      // memLock.reset: nothing is locked, so its release cannot fail.
      memLock.addr, memLock.size, memLock.pageSize := newAddr, newSize, pageSize;
      ZeroAligned(pageSize);
      return true;
    }

    /** `isLocked(range)` through the mapping */
    method IsLocked(range: MemRange) returns (locked: bool)
      requires Valid()
      ensures locked <==> range.first < range.last <= mapLength &&
                          forall x: nat :: range.Has(x) ==> Covers(memLock.lockedRanges, x)
      ensures locked ==> AllMapped(range)
    {
      locked := memLock.IsLocked(range);
    }
  }

  lemma ZeroAligned(ps: nat)
    requires ps >= 1
    ensures Aligned(0, ps)
  {
  }

  /** Everything is locked exactly when the list is the one whole range. */
  lemma WholeLocked(rs: Ranges, len: nat)
    requires Canonical(rs) && Within(rs, len) && len > 0
    ensures (forall x: nat :: MemRange(0, len).Has(x) ==> Covers(rs, x)) <==> rs == [MemRange(0, len)]
  {
    var whole := [MemRange(0, len)];
    forall x: nat ensures Covers(whole, x) <==> x < len {
      if x < len { assert whole[0].Has(x); }
    }
    if forall x: nat :: MemRange(0, len).Has(x) ==> Covers(rs, x) {
      forall x: nat ensures Covers(rs, x) <==> Covers(whole, x) { assert MemRange(0, len).Has(x) <==> x < len; }
      CanonicalUnique(rs, whole);
    }
  }
}
