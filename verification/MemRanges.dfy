/** Half-open byte ranges and the rounding of addresses (libs/job_io/job_mem_range.h). */
module MemRanges {
  import opened PowersOfTwo
  import opened Bits

  const SIZE_MAX: nat := WORD - 1

  /** The null pointer, as an address. */
  const NULL: nat := 0

  /** `JobMemRange`: [first, last) */
  datatype MemRange = MemRange(first: nat, last: nat) {
    predicate Valid() { first <= last <= SIZE_MAX }

    predicate Empty() { first == last }

    function Size(): nat
      requires first <= last
    {
      last - first
    }

    predicate Has(offset: nat) { first <= offset < last }

    predicate Contains(other: MemRange) { other.first >= first && other.last <= last }

    predicate Overlaps(other: MemRange) { first < other.last && other.first < last }

    predicate Adjacent(other: MemRange) { last == other.first || other.last == first }

    predicate Mergeable(other: MemRange) { Overlaps(other) || Adjacent(other) }

    function Merged(other: MemRange): MemRange
      requires Mergeable(other)
    {
      MemRange(if first < other.first then first else other.first, if last > other.last then last else other.last)
    }

    function AlignedInward(alignment: nat): MemRange
      requires ValidAlignment(alignment) && Valid() && alignment <= SIZE_MAX
      requires !Empty() ==> first + (alignment - 1) <= SIZE_MAX
    {
      if Empty() then this
      else
        var lo := RoundUp(first, alignment);
        var hi := RoundDown(last, alignment);
        if lo >= hi then
          var e := if lo < last then lo else last;
          MemRange(e, e)
        else MemRange(lo, hi)
    }

    function AlignedOutward(alignment: nat): MemRange
      requires ValidAlignment(alignment) && Valid() && alignment <= SIZE_MAX
      requires last <= SIZE_MAX - (alignment - 1)
    {
      if Empty() then this else MemRange(RoundDown(first, alignment), RoundUp(last, alignment))
    }
  }

  /** `validAlignment`, with the C++ bit test */
  predicate ValidAlignment(alignment: nat) {
    alignment != 0 && And(alignment, alignment - 1) == 0
  }

  lemma ValidAlignmentIsPow2(alignment: nat)
    ensures ValidAlignment(alignment) <==> IsPow2(alignment)
  {
    if alignment > 0 { AndWithPredecessor(alignment); }
  }

  /** `value & ~(alignment - 1)` */
  function RoundDown(value: nat, alignment: nat): nat
    requires 1 <= alignment <= SIZE_MAX && value <= SIZE_MAX
  {
    And(value, Not(alignment - 1))
  }

  /** `(value + alignment - 1) & ~(alignment - 1)` */
  function RoundUp(value: nat, alignment: nat): nat
    requires 1 <= alignment <= SIZE_MAX && value + (alignment - 1) <= SIZE_MAX
  {
    And(value + (alignment - 1), Not(alignment - 1))
  }

  /** `JobRangePool::alignUp`: the guarded form, SIZE_MAX when there is nothing to return. */
  function AlignUp(value: nat, alignment: nat): nat
    requires alignment <= SIZE_MAX && value <= SIZE_MAX
  {
    if !ValidAlignment(alignment) then SIZE_MAX
    else if value > SIZE_MAX - (alignment - 1) then SIZE_MAX
    else RoundUp(value, alignment)
  }

  // ----- what the bit tricks compute

  ghost predicate Aligned(x: nat, alignment: nat)
    requires alignment >= 1
  {
    x % alignment == 0
  }

  /** r is the least multiple of the alignment that is not below value. */
  ghost predicate LeastAligned(r: nat, value: nat, alignment: nat)
    requires alignment >= 1
  {
    value <= r && Aligned(r, alignment) && forall y: nat :: value <= y < r ==> !Aligned(y, alignment)
  }

  ghost predicate GreatestAligned(r: nat, value: nat, alignment: nat)
    requires alignment >= 1
  {
    r <= value && Aligned(r, alignment) && forall y: nat :: r < y <= value ==> !Aligned(y, alignment)
  }

  lemma MultiplesApart(x: nat, y: nat, a: nat)
    requires a >= 1 && Aligned(x, a) && Aligned(y, a) && x < y
    ensures y - x >= a
  {
    var i, j := x / a, y / a;
    assert x == a * i && y == a * j;
    assert a * (j - i) == y - x;
    assert j - i <= 0 ==> a * (j - i) <= 0;
    assert j - i >= 1 ==> a * (j - i) >= a;
  }

  lemma RemainderRemoved(x: nat, a: nat)
    requires a >= 1
    ensures x % a <= x && Aligned(x - x % a, a)
  {
    var q := x / a;
    assert x == a * q + x % a;
    assert q >= 0 && a * q >= 0;
    DivModUnique(x - x % a, a, q, 0);
  }

  lemma AlignedSum(x: nat, y: nat, a: nat)
    requires a >= 1 && Aligned(y, a)
    ensures Aligned(x + y, a) <==> Aligned(x, a)
  {
    var i, r, j := x / a, x % a, y / a;
    assert x + y == a * (i + j) + r by { assert a * (i + j) == a * i + a * j; }
    DivModUnique(x + y, a, i + j, r);
  }

  lemma RoundDownIsGreatest(value: nat, a: nat)
    requires 1 <= a <= SIZE_MAX && value <= SIZE_MAX && ValidAlignment(a)
    ensures RoundDown(value, a) <= value < RoundDown(value, a) + a
    ensures GreatestAligned(RoundDown(value, a), value, a)
  {
    ValidAlignmentIsPow2(a);
    WordIsPow2();
    AndClearsLow(value, a, WORD);
    RemainderRemoved(value, a);
    var r := RoundDown(value, a);
    forall y: nat | r < y <= value ensures !Aligned(y, a) {
      if Aligned(y, a) { MultiplesApart(r, y, a); }
    }
  }

  lemma RoundUpIsLeast(value: nat, a: nat)
    requires 1 <= a <= SIZE_MAX && value + (a - 1) <= SIZE_MAX && ValidAlignment(a)
    ensures value <= RoundUp(value, a) < value + a
    ensures LeastAligned(RoundUp(value, a), value, a)
  {
    RoundDownIsGreatest(value + (a - 1), a);
    var r := RoundUp(value, a);
    forall y: nat | value <= y < r ensures !Aligned(y, a) {
      if Aligned(y, a) { MultiplesApart(y, r, a); }
    }
  }

  /** `alignUp` returns the least aligned word at or above value, and SIZE_MAX exactly when
      there is none or the least one is SIZE_MAX itself. */
  lemma AlignUpExact(value: nat, a: nat)
    requires 1 <= a <= SIZE_MAX && value < SIZE_MAX && ValidAlignment(a)
    ensures var r := AlignUp(value, a);
            if r == SIZE_MAX then forall y: nat :: value <= y < SIZE_MAX ==> !Aligned(y, a)
            else r < SIZE_MAX && LeastAligned(r, value, a)
  {
    if value > SIZE_MAX - (a - 1) {
      ValidAlignmentIsPow2(a);
      WordIsPow2();
      Pow2Divides(a, WORD);
      forall y: nat | value <= y < SIZE_MAX ensures !Aligned(y, a) {
        if Aligned(y, a) { MultiplesApart(y, WORD, a); }
      }
    } else {
      RoundUpIsLeast(value, a);
    }
  }

  /** The inward rounding keeps exactly the aligned blocks that lie in the range. */
  lemma AlignedInwardExact(r: MemRange, a: nat)
    requires r.Valid() && 1 <= a <= SIZE_MAX && ValidAlignment(a) && !r.Empty() && r.first + (a - 1) <= SIZE_MAX
    ensures var t := r.AlignedInward(a);
            t.Valid() && r.Contains(t) &&
            (!t.Empty() ==> Aligned(t.first, a) && Aligned(t.last, a)) &&
            forall b: nat :: Aligned(b, a) && r.first <= b && b + a <= r.last ==> t.first <= b && b + a <= t.last
  {
    RoundUpIsLeast(r.first, a);
    RoundDownIsGreatest(r.last, a);
    var lo, hi := RoundUp(r.first, a), RoundDown(r.last, a);
    forall b: nat | Aligned(b, a) && r.first <= b && b + a <= r.last
      ensures lo <= b && b + a <= hi
    {
      assert a % a == 0;
      AlignedSum(b, a, a);
      assert Aligned(b + a, a);
    }
  }

  /** The outward rounding is the least aligned range around a non-empty range. */
  lemma AlignedOutwardExact(r: MemRange, a: nat)
    requires r.Valid() && 1 <= a <= SIZE_MAX && ValidAlignment(a) && !r.Empty() && r.last <= SIZE_MAX - (a - 1)
    ensures var t := r.AlignedOutward(a);
            t.Valid() && t.Contains(r) && Aligned(t.first, a) && Aligned(t.last, a) &&
            forall u: MemRange :: u.Contains(r) && Aligned(u.first, a) && Aligned(u.last, a) ==> u.Contains(t)
  {
    RoundDownIsGreatest(r.first, a);
    RoundUpIsLeast(r.last, a);
  }
}
