/** The first-fit range allocator (libs/job_io/job_range_pool.cpp). Pointers are addresses;
    0 is the null pointer. The mapping is fixed while the pool lives, and each public method is
    one atomic step under the pool's mutex. */
module RangePool {
  import opened MemRanges
  import opened RangeSets
  import opened Tiling

  /** The address at offset p is aligned. */
  ghost predicate AlignedAt(base: nat, p: nat, alignment: nat)
    requires alignment >= 1
  {
    Aligned(base + p, alignment)
  }

  /** Offset o is aligned as an address and has `size` free bytes behind it. */
  ghost predicate Fits(base: nat, len: nat, live: Blocks, size: nat, alignment: nat, o: nat)
    requires alignment >= 1
  {
    AlignedAt(base, o, alignment) && Room(len, live, o, size)
  }

  /** The place a first-fit allocation has to go: the least offset that fits. */
  ghost predicate FirstFit(base: nat, len: nat, live: Blocks, size: nat, alignment: nat, o: nat)
    requires alignment >= 1
  {
    Fits(base, len, live, size, alignment, o) &&
    forall p: nat :: Fits(base, len, live, size, alignment, p) ==> o <= p
  }

  /** The least aligned offset of one free range, when the block fits behind it. */
  ghost predicate BestOfRange(base: nat, r: MemRange, size: nat, alignment: nat, o: nat)
    requires alignment >= 1
  {
    r.first <= o && o + size <= r.last && AlignedAt(base, o, alignment) &&
    forall p: nat :: r.first <= p < o ==> !AlignedAt(base, p, alignment)
  }

  ghost predicate NoneInRange(base: nat, r: MemRange, size: nat, alignment: nat)
    requires alignment >= 1
  {
    forall p: nat :: r.first <= p && p + size <= r.last ==> !AlignedAt(base, p, alignment)
  }

  /** Scanning the canonical free list front to back finds the least fit. */
  lemma FirstRangeIsFirstFit(base: nat, len: nat, free: Ranges, live: Blocks, size: nat, alignment: nat, i: nat, o: nat)
    requires Tiled(len, free, live) && size > 0 && alignment >= 1 && i < |free|
    requires forall j, p: nat :: 0 <= j < i && free[j].first <= p && p + size <= free[j].last ==>
             !AlignedAt(base, p, alignment)
    requires BestOfRange(base, free[i], size, alignment, o)
    ensures FirstFit(base, len, live, size, alignment, o)
  {
    RangeHasRoom(len, free, live, i, o, size);
    forall p: nat | Fits(base, len, live, size, alignment, p) ensures o <= p {
      var j := RoomInOneRange(len, free, live, p, size);
    }
  }

  lemma NoRangeNoFit(base: nat, len: nat, free: Ranges, live: Blocks, size: nat, alignment: nat)
    requires Tiled(len, free, live) && size > 0 && alignment >= 1
    requires forall j :: 0 <= j < |free| ==> NoneInRange(base, free[j], size, alignment)
    ensures forall p: nat :: !Fits(base, len, live, size, alignment, p)
  {
    forall p: nat ensures !Fits(base, len, live, size, alignment, p) {
      if Room(len, live, p, size) {
        var j := RoomInOneRange(len, free, live, p, size);
        assert NoneInRange(base, free[j], size, alignment);
      }
    }
  }

  /** First fit is a function of the live blocks alone. */
  lemma FirstFitUnique(base: nat, len: nat, live: Blocks, size: nat, alignment: nat, o: nat, p: nat)
    requires alignment >= 1
    requires FirstFit(base, len, live, size, alignment, o) && FirstFit(base, len, live, size, alignment, p)
    ensures o == p
  {
  }

  class JobRangePool {
    /** Address and length of the mapping; base is 0 when the pool holds none. */
    const base: nat
    const mapLength: nat
    const mappedRanges: Ranges
    var freeRanges: Ranges
    var allocations: Blocks
    var allocatedBytes: nat

    /** `m_mmap` is set */
    predicate Mapped() { base != 0 }

    ghost predicate Valid()
      reads this
    {
      if Mapped() then
        mapLength > 0 && base + mapLength <= SIZE_MAX && mappedRanges == [MemRange(0, mapLength)] &&
        Tiled(mapLength, freeRanges, allocations) && allocatedBytes == LiveBelow(allocations, mapLength)
      else freeRanges == [] && allocations == map[] && allocatedBytes == 0
    }

    /** `init(mmap)`: a mapping is taken over only if it is one whole mapped range. */
    constructor (addr: nat, length: nat, ranges: Ranges)
      requires addr != NULL && ranges == [MemRange(0, length)] ==> length > 0 && addr + length <= SIZE_MAX
      ensures Valid() && allocations == map[]
      ensures Mapped() <==> addr != NULL && ranges == [MemRange(0, length)]
      ensures Mapped() ==> base == addr && mapLength == length && freeRanges == [MemRange(0, length)]
    {
      allocations, allocatedBytes := map[], 0;
      mapLength, mappedRanges := length, ranges;
      if addr != NULL && |ranges| == 1 && ranges[0].first == 0 && ranges[0].last == length {
        base := addr;
        freeRanges := ranges;
      } else {
        base := 0;
        freeRanges := [];
      }
      new;
      if Mapped() { WholeTiles(length); }
      LiveBelowEmpty(length);
    }

    /** `alloc` */
    method Alloc(size: nat, alignment: nat) returns (ptr: nat)
      requires Valid() && size <= SIZE_MAX && alignment <= SIZE_MAX
      modifies this
      ensures Valid()
      ensures ptr != NULL ==>
                size > 0 && ValidAlignment(alignment) && Mapped() && ptr >= base &&
                FirstFit(base, mapLength, old(allocations), size, alignment, ptr - base) &&
                allocations == old(allocations)[ptr - base := size]
      ensures ptr == NULL ==> unchanged(this)
      ensures ptr == NULL && size > 0 && ValidAlignment(alignment) && Mapped() ==>
                forall o: nat :: !Fits(base, mapLength, allocations, size, alignment, o)
    {
      if size == 0 || !ValidAlignment(alignment) { return NULL; }
      if !Mapped() { return NULL; }
      var found, rangeIndex, offset := FindFreeRange(size, alignment);
      if !found { return NULL; }
      AllocTiles(mapLength, freeRanges, allocations, rangeIndex, offset, size);
      LiveBelowAlloc(allocations, offset, size, mapLength);
      FreeRangesWithin(mapLength, freeRanges, allocations);
      if offset in allocations { return NULL; }
      allocations := allocations[offset := size];
      SplitRange(rangeIndex, offset, size);
      allocatedBytes := allocatedBytes + size;
      return PtrAt(offset);
    }

    /** `free` */
    method Free(ptr: nat) returns (ok: bool)
      requires Valid() && ptr <= SIZE_MAX
      modifies this
      ensures Valid()
      ensures ok <==> Mapped() && ptr >= base && ptr - base in old(allocations)
      ensures ok ==> allocations == old(allocations) - {ptr - base}
      ensures !ok ==> unchanged(this)
    {
      if ptr == NULL { return false; }
      var owned := OwnsLocked(ptr);
      if !owned { return false; }
      var offset := OffsetOf(ptr);
      if offset == SIZE_MAX { return false; }
      if offset !in allocations { return false; }
      var allocationSize := allocations[offset];
      ghost var before := freeRanges;
      InsertFreeRange(MemRange(offset, offset + allocationSize));
      FreeTiles(mapLength, before, allocations, offset, freeRanges);
      LiveBelowFree(allocations, offset, mapLength);
      allocations := allocations - {offset};
      allocatedBytes := allocatedBytes - allocationSize;
      return true;
    }

    /** `clear` */
    method Clear()
      requires Valid()
      modifies this
      ensures Valid() && allocations == map[] && allocatedBytes == 0
      ensures Mapped() ==> freeRanges == [MemRange(0, mapLength)]
    {
      allocations := map[];
      allocatedBytes := 0;
      freeRanges := [];
      if !Mapped() { return; }
      if |mappedRanges| != 1 { return; }
      if mappedRanges[0].first != 0 || mappedRanges[0].last != mapLength { return; }
      freeRanges := freeRanges + [mappedRanges[0]];
      assert freeRanges == [MemRange(0, mapLength)];
      WholeTiles(mapLength);
      LiveBelowEmpty(mapLength);
    }

    /** `available`: with `allocated` it adds up to the mapped size. */
    method Available() returns (bytes: nat)
      requires Valid()
      ensures bytes == SumSizes(freeRanges)
      ensures Mapped() ==> bytes + allocatedBytes == mapLength
    {
      bytes := 0;
      for i := 0 to |freeRanges|
        invariant bytes == SumSizes(freeRanges[..i])
      {
        assert freeRanges[..i + 1][..i] == freeRanges[..i];
        bytes := bytes + freeRanges[i].Size();
      }
      assert freeRanges[..|freeRanges|] == freeRanges;
      if Mapped() { Conservation(mapLength, freeRanges, allocations); }
    }

    /** `findFreeRange`, with the C++ overflow guards */
    method FindFreeRange(size: nat, alignment: nat) returns (found: bool, rangeIndex: nat, offset: nat)
      requires Valid() && Mapped() && 0 < size <= SIZE_MAX && 1 <= alignment <= SIZE_MAX && ValidAlignment(alignment)
      ensures found ==> rangeIndex < |freeRanges| && freeRanges[rangeIndex].first <= offset &&
                        offset + size <= freeRanges[rangeIndex].last &&
                        FirstFit(base, mapLength, allocations, size, alignment, offset)
      ensures !found ==> forall o: nat :: !Fits(base, mapLength, allocations, size, alignment, o)
    {
      FreeRangesWithin(mapLength, freeRanges, allocations);
      for i := 0 to |freeRanges|
        invariant forall j :: 0 <= j < i ==> NoneInRange(base, freeRanges[j], size, alignment)
      {
        var range := freeRanges[i];
        assert range.first < range.last <= mapLength;
        var best, o := PlaceIn(range, size, alignment);
        if best {
          assert forall j :: 0 <= j < i ==> NoneInRange(base, freeRanges[j], size, alignment);
          FirstRangeIsFirstFit(base, mapLength, freeRanges, allocations, size, alignment, i, o);
          return true, i, o;
        }
      }
      NoRangeNoFit(base, mapLength, freeRanges, allocations, size, alignment);
      return false, 0, 0;
    }

    /** The body of the scan, lines 244-281. */
    method PlaceIn(range: MemRange, size: nat, alignment: nat) returns (placed: bool, offset: nat)
      requires Mapped() && base + mapLength <= SIZE_MAX && range.first < range.last <= mapLength
      requires 0 < size && 1 <= alignment <= SIZE_MAX && ValidAlignment(alignment)
      ensures placed ==> BestOfRange(base, range, size, alignment, offset)
      ensures !placed ==> NoneInRange(base, range, size, alignment)
    {
      offset := 0;
      placed := false;
      if range.Empty() { return; }
      if base > SIZE_MAX - range.first { return; }
      var firstAddress := base + range.first;
      AlignUpExact(firstAddress, alignment);
      var alignedAddress := AlignUp(firstAddress, alignment);
      ShiftAligned(base, range, alignment, alignedAddress);
      if alignedAddress == SIZE_MAX { return; }
      if alignedAddress < base { return; }
      offset := alignedAddress - base;
      if offset < range.first || offset >= range.last { return; }
      if size > range.last - offset { return; }
      placed := true;
    }

    /** `splitRange` */
    method SplitRange(rangeIndex: nat, offset: nat, size: nat)
      requires rangeIndex < |freeRanges|
      modifies this`freeRanges
      ensures freeRanges == Cut(old(freeRanges), rangeIndex, offset, size)
    {
      var original := freeRanges[rangeIndex];
      var allocationLast := offset + size;
      var hasPrefix := original.first < offset;
      var hasSuffix := allocationLast < original.last;
      if !hasPrefix && !hasSuffix {
        freeRanges := freeRanges[..rangeIndex] + freeRanges[rangeIndex + 1..];
        return;
      }
      if hasPrefix && !hasSuffix {
        freeRanges := freeRanges[rangeIndex := MemRange(original.first, offset)];
        return;
      }
      if !hasPrefix && hasSuffix {
        freeRanges := freeRanges[rangeIndex := MemRange(allocationLast, original.last)];
        return;
      }
      freeRanges := freeRanges[..rangeIndex + 1] + [MemRange(allocationLast, original.last)] +
                    freeRanges[rangeIndex + 1..];
      freeRanges := freeRanges[rangeIndex := MemRange(original.first, offset)];
    }

    /** `insertFreeRange` */
    method InsertFreeRange(range: MemRange)
      requires NonEmpty(freeRanges) && range.first < range.last
      modifies this`freeRanges
      ensures Canonical(freeRanges) && SameBytes(freeRanges, old(freeRanges) + [range])
    {
      if range.Empty() { return; }
      freeRanges := freeRanges + [range];
      CoalesceRanges();
    }

    /** `coalesceRanges`: sort, then fold touching neighbours in place. */
    method CoalesceRanges()
      requires NonEmpty(freeRanges)
      modifies this`freeRanges
      ensures Canonical(freeRanges) && SameBytes(freeRanges, old(freeRanges))
    {
      if |freeRanges| < 2 { return; }
      ghost var sorted := SortByFirst(freeRanges);
      SweepStart(freeRanges);
      freeRanges := SortByFirst(freeRanges);
      var writeIndex := 0;
      for readIndex := 1 to |freeRanges|
        invariant |freeRanges| == |sorted| && Swept(sorted, freeRanges, writeIndex, readIndex)
      {
        var current, next := freeRanges[writeIndex], freeRanges[readIndex];
        if current.Mergeable(next) {
          SweepMerge(sorted, freeRanges, writeIndex, readIndex);
          freeRanges := freeRanges[writeIndex := current.Merged(next)];
        } else {
          SweepKeep(sorted, freeRanges, writeIndex, readIndex);
          ghost var swept := freeRanges[writeIndex + 1 := next];
          writeIndex := writeIndex + 1;
          if writeIndex != readIndex { freeRanges := freeRanges[writeIndex := next]; }
          assert freeRanges == swept;
        }
      }
      SweepDone(old(freeRanges), freeRanges, writeIndex);
      freeRanges := freeRanges[..writeIndex + 1];
    }

    /** `offsetOf` */
    method OffsetOf(ptr: nat) returns (offset: nat)
      requires Valid()
      ensures offset == if ptr != NULL && Mapped() && base <= ptr < base + mapLength then ptr - base else SIZE_MAX
    {
      if ptr == NULL || !Mapped() { return SIZE_MAX; }
      if ptr < base { return SIZE_MAX; }
      if ptr - base >= mapLength { return SIZE_MAX; }
      return ptr - base;
    }

    /** `ptrAt` */
    function PtrAt(offset: nat): nat {
      if !Mapped() || offset >= mapLength then NULL else base + offset
    }

    /** `ownsLocked` */
    method OwnsLocked(ptr: nat) returns (owned: bool)
      requires Valid()
      ensures owned <==> ptr != NULL && Mapped() && base <= ptr < base + mapLength
    {
      if ptr == NULL || !Mapped() { return false; }
      if ptr < base { return false; }
      var distance := ptr - base;
      if distance >= mapLength { return false; }
      for i := 0 to |mappedRanges|
        invariant i == 0
      {
        if mappedRanges[i].Has(distance) { return true; }
      }
      return false;
    }
  }

  /** Aligned addresses of a range, as offsets. */
  lemma ShiftAligned(base: nat, range: MemRange, alignment: nat, r: nat)
    requires alignment >= 1 && base + range.last <= SIZE_MAX && range.first < range.last
    requires if r == SIZE_MAX then forall y: nat :: base + range.first <= y < SIZE_MAX ==> !Aligned(y, alignment)
             else r < SIZE_MAX && LeastAligned(r, base + range.first, alignment)
    ensures forall p: nat :: range.first <= p && base + p < r ==> !AlignedAt(base, p, alignment)
    ensures r < SIZE_MAX ==> r >= base && AlignedAt(base, r - base, alignment)
  {
  }

  /** Allocating and freeing again leaves the free list exactly as it was. */
  method AllocFreeRestores(pool: JobRangePool, size: nat, alignment: nat) returns (ptr: nat)
    requires pool.Valid() && size <= SIZE_MAX && alignment <= SIZE_MAX
    modifies pool
    ensures pool.Valid()
    ensures ptr != NULL ==> pool.freeRanges == old(pool.freeRanges) && pool.allocations == old(pool.allocations)
  {
    ptr := pool.Alloc(size, alignment);
    if ptr != NULL {
      ghost var live := old(pool.allocations);
      var o := ptr - pool.base;
      assert Room(pool.mapLength, live, o, size);
      assert FreeAt(pool.mapLength, live, o);
      assert o !in live by { if o in live { assert InBlock(live, o, o); } }
      var ok := pool.Free(ptr);
      assert pool.allocations == live;
      FreeListCanonical(pool.mapLength, pool.freeRanges, old(pool.freeRanges), live);
    }
  }
}
