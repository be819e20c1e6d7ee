/** Free lists and live blocks that together tile [0, len): the abstract state of the range
    pool (in bytes) and of the page pool (in pages). */
module Tiling {
  import opened MemRanges
  import opened RangeSets

  /** Live blocks: start offset to size. */
  type Blocks = map<nat, nat>

  ghost predicate InBlock(live: Blocks, o: nat, x: nat)
    requires o in live
  {
    o <= x < o + live[o]
  }

  ghost predicate LiveAt(live: Blocks, x: nat) {
    exists o: nat :: o in live && InBlock(live, o, x)
  }

  /** Blocks are non-empty, inside [0, len), and pairwise disjoint. */
  ghost predicate Separated(len: nat, live: Blocks) {
    (forall o: nat :: o in live ==> live[o] > 0 && o + live[o] <= len) &&
    (forall o: nat, p: nat :: o in live && p in live && o < p ==> o + live[o] <= p)
  }

  ghost predicate FreeAt(len: nat, live: Blocks, x: nat) { x < len && !LiveAt(live, x) }

  /** The free list is canonical and covers exactly what no live block covers. */
  ghost predicate Tiled(len: nat, free: Ranges, live: Blocks) {
    Canonical(free) && Separated(len, live) &&
    forall x: nat :: Covers(free, x) <==> FreeAt(len, live, x)
  }

  /** The free list is a function of the live blocks. */
  lemma FreeListCanonical(len: nat, f: Ranges, g: Ranges, live: Blocks)
    requires Tiled(len, f, live) && Tiled(len, g, live)
    ensures f == g
  {
    CanonicalUnique(f, g);
  }

  /** With nothing live the free list is the one whole range, however it came about. */
  lemma NothingLive(len: nat, free: Ranges)
    requires len > 0 && Tiled(len, free, map[])
    ensures free == [MemRange(0, len)]
  {
    WholeTiles(len);
    FreeListCanonical(len, free, [MemRange(0, len)], map[]);
  }

  lemma WholeTiles(len: nat)
    requires len > 0
    ensures Tiled(len, [MemRange(0, len)], map[])
  {
    var whole := [MemRange(0, len)];
    forall x: nat ensures Covers(whole, x) <==> FreeAt(len, map[], x) {
      if x < len { assert whole[0].Has(x); }
    }
  }

  lemma FreeRangesWithin(len: nat, free: Ranges, live: Blocks)
    requires Tiled(len, free, live)
    ensures Within(free, len)
  {
    forall i | 0 <= i < |free| ensures free[i].last <= len {
      assert free[i].Has(free[i].last - 1);
      assert Covers(free, free[i].last - 1);
    }
  }

  /** Where a block of this size could go. */
  ghost predicate Room(len: nat, live: Blocks, o: nat, size: nat) {
    forall x: nat :: o <= x < o + size ==> FreeAt(len, live, x)
  }

  /** Every place with room lies in one free range. */
  lemma RoomInOneRange(len: nat, free: Ranges, live: Blocks, o: nat, size: nat) returns (i: nat)
    requires Tiled(len, free, live) && size > 0 && Room(len, live, o, size)
    ensures i < |free| && free[i].first <= o && o + size <= free[i].last
  {
    forall x | o <= x < o + size ensures Covers(free, x) {
      assert FreeAt(len, live, x);
    }
    i := RunInOneRange(free, o, size);
  }

  lemma RangeHasRoom(len: nat, free: Ranges, live: Blocks, i: nat, o: nat, size: nat)
    requires Tiled(len, free, live) && i < |free| && free[i].first <= o && o + size <= free[i].last
    ensures Room(len, live, o, size)
  {
    forall x: nat | o <= x < o + size ensures FreeAt(len, live, x) {
      assert free[i].Has(x);
      assert Covers(free, x);
    }
  }

  // ----- allocation

  /** What is left of a free range after [o, o + size) has been cut out. */
  function Remnants(r: MemRange, o: nat, size: nat): Ranges {
    (if r.first < o then [MemRange(r.first, o)] else []) +
    (if o + size < r.last then [MemRange(o + size, r.last)] else [])
  }

  /** The free list with [o, o + size) cut out of range i. */
  function Cut(free: Ranges, i: nat, o: nat, size: nat): Ranges
    requires i < |free|
  {
    free[..i] + Remnants(free[i], o, size) + free[i + 1..]
  }

  lemma RemnantsCover(r: MemRange, o: nat, size: nat, x: nat)
    requires r.first <= o && size > 0 && o + size <= r.last
    ensures Covers(Remnants(r, o, size), x) <==> r.Has(x) && !(o <= x < o + size)
  {
    var rs := Remnants(r, o, size);
    if r.Has(x) && x < o { assert rs[0].Has(x); }
    if r.Has(x) && o + size <= x { assert rs[|rs| - 1].Has(x); }
  }

  lemma CutCovers(free: Ranges, i: nat, o: nat, size: nat, x: nat)
    requires Canonical(free) && i < |free| && free[i].first <= o && size > 0 && o + size <= free[i].last
    ensures Covers(Cut(free, i, o, size), x) <==> Covers(free, x) && !(o <= x < o + size)
  {
    var mid := Remnants(free[i], o, size);
    CoversConcat(free[..i] + mid, free[i + 1..], x);
    CoversConcat(free[..i], mid, x);
    RemnantsCover(free[i], o, size, x);
    assert free == free[..i] + [free[i]] + free[i + 1..];
    CoversConcat(free[..i] + [free[i]], free[i + 1..], x);
    CoversAppend(free[..i], free[i], x);
    OthersMiss(free, i, x);
  }

  /** Only range i of a canonical list has an offset of range i. */
  lemma OthersMiss(free: Ranges, i: nat, x: nat)
    requires Canonical(free) && i < |free|
    ensures free[i].Has(x) ==> !Covers(free[..i], x) && !Covers(free[i + 1..], x)
  {
    forall j | 0 <= j < i ensures free[i].Has(x) ==> !free[..i][j].Has(x) {
      assert free[j].last < free[i].first;
    }
    var behind := free[i + 1..];
    forall j | 0 <= j < |behind| ensures free[i].Has(x) ==> !behind[j].Has(x) {
      assert free[i].last < free[i + 1 + j].first;
    }
  }

  lemma CutCanonical(free: Ranges, i: nat, o: nat, size: nat)
    requires Canonical(free) && i < |free| && free[i].first <= o && size > 0 && o + size <= free[i].last
    ensures Canonical(Cut(free, i, o, size))
  {
    var a, mid, b := free[..i], Remnants(free[i], o, size), free[i + 1..];
    assert Canonical(a) && Canonical(mid) && Canonical(b);
    forall j, k | 0 <= j < |a| && 0 <= k < |mid| ensures a[j].last < mid[k].first {
      assert free[j].last < free[i].first;
    }
    ConcatCanonical(a, mid);
    forall j, k | 0 <= j < |a + mid| && 0 <= k < |b| ensures (a + mid)[j].last < b[k].first {
      assert free[i].last < free[i + 1 + k].first;
      if j < |a| { assert free[j].last < free[i + 1 + k].first; }
    }
    ConcatCanonical(a + mid, b);
  }

  lemma ConcatCanonical(a: Ranges, b: Ranges)
    requires Canonical(a) && Canonical(b)
    requires forall i, j :: 0 <= i < |a| && 0 <= j < |b| ==> a[i].last < b[j].first
    ensures Canonical(a + b)
  {
    var c := a + b;
    forall i, j | 0 <= i < j < |c| ensures c[i].last < c[j].first {
      if i < |a| && j >= |a| { assert a[i].last < b[j - |a|].first; }
      if i >= |a| { assert b[i - |a|].last < b[j - |a|].first; }
    }
  }

  /** Cutting a block out of a free range and recording it keeps the tiling. */
  lemma AllocTiles(len: nat, free: Ranges, live: Blocks, i: nat, o: nat, size: nat)
    requires Tiled(len, free, live) && i < |free| && free[i].first <= o && size > 0 && o + size <= free[i].last
    ensures o !in live && Tiled(len, Cut(free, i, o, size), live[o := size])
  {
    RangeHasRoom(len, free, live, i, o, size);
    FreeRangesWithin(len, free, live);
    CutCanonical(free, i, o, size);
    AllocSeparated(len, live, o, size);
    forall x: nat ensures Covers(Cut(free, i, o, size), x) <==> FreeAt(len, live[o := size], x) {
      CutCovers(free, i, o, size, x);
      LiveAfterAlloc(live, o, size, x);
    }
  }

  lemma AllocSeparated(len: nat, live: Blocks, o: nat, size: nat)
    requires Separated(len, live) && size > 0 && Room(len, live, o, size) && o + size <= len
    ensures o !in live && Separated(len, live[o := size])
  {
    assert FreeAt(len, live, o);
    if o in live { assert InBlock(live, o, o); }
    forall p: nat | p in live ensures p < o ==> p + live[p] <= o ensures o < p ==> o + size <= p {
      if p < o { assert InBlock(live, p, o) <==> o < p + live[p]; }
      if o < p { assert FreeAt(len, live, p) || o + size <= p; assert InBlock(live, p, p); }
    }
  }

  lemma LiveAfterAlloc(live: Blocks, o: nat, size: nat, x: nat)
    requires o !in live
    ensures LiveAt(live[o := size], x) <==> LiveAt(live, x) || o <= x < o + size
  {
    var next := live[o := size];
    if LiveAt(live, x) {
      var p: nat :| p in live && InBlock(live, p, x);
      assert InBlock(next, p, x);
    }
    if o <= x < o + size { assert InBlock(next, o, x); }
    if LiveAt(next, x) {
      var p: nat :| p in next && InBlock(next, p, x);
      if p != o { assert InBlock(live, p, x); }
    }
  }

  // ----- release

  lemma LiveAfterFree(len: nat, live: Blocks, o: nat, x: nat)
    requires Separated(len, live) && o in live
    ensures LiveAt(live - {o}, x) <==> LiveAt(live, x) && !InBlock(live, o, x)
  {
    var next := live - {o};
    if LiveAt(next, x) {
      var p: nat :| p in next && InBlock(next, p, x);
      assert InBlock(live, p, x) && p != o;
    }
    if LiveAt(live, x) && !InBlock(live, o, x) {
      var p: nat :| p in live && InBlock(live, p, x);
      assert p in next && InBlock(next, p, x);
    }
  }

  /** A canonical list of the old free bytes and the bytes of a block tiles the state without it. */
  lemma FreeTiles(len: nat, free: Ranges, live: Blocks, o: nat, next: Ranges)
    requires Tiled(len, free, live) && o in live && Canonical(next)
    requires SameBytes(next, free + [MemRange(o, o + live[o])])
    ensures Tiled(len, next, live - {o})
  {
    forall x: nat ensures Covers(next, x) <==> FreeAt(len, live - {o}, x) {
      CoversAppend(free, MemRange(o, o + live[o]), x);
      LiveAfterFree(len, live, o, x);
      if InBlock(live, o, x) { assert LiveAt(live, x); }
    }
  }

  /** Allocating a block and freeing it again restores the free list exactly. */
  lemma AllocThenFree(len: nat, free: Ranges, live: Blocks, o: nat, size: nat, next: Ranges)
    requires Tiled(len, free, live) && o !in live
    requires Tiled(len, next, live[o := size] - {o})
    ensures next == free
  {
    assert live[o := size] - {o} == live;
    FreeListCanonical(len, next, free, live);
  }

  // ----- conservation

  function SumSizes(rs: Ranges): int {
    if rs == [] then 0 else SumSizes(rs[..|rs| - 1]) + (rs[|rs| - 1].last - rs[|rs| - 1].first)
  }

  /** Total size of the live blocks that start below n. */
  ghost function LiveBelow(live: Blocks, n: nat): nat {
    if n == 0 then 0 else LiveBelow(live, n - 1) + (if n - 1 in live then live[n - 1] else 0)
  }

  /** Number of offsets below n that the list covers. */
  ghost function CoveredBelow(rs: Ranges, n: nat): nat {
    if n == 0 then 0 else CoveredBelow(rs, n - 1) + (if Covers(rs, n - 1) then 1 else 0)
  }

  ghost function LiveCount(live: Blocks, n: nat): nat {
    if n == 0 then 0 else LiveCount(live, n - 1) + (if LiveAt(live, n - 1) then 1 else 0)
  }

  lemma {:induction false} CountsAddUp(len: nat, free: Ranges, live: Blocks, n: nat)
    requires Tiled(len, free, live) && n <= len
    ensures CoveredBelow(free, n) + LiveCount(live, n) == n
  {
    if n > 0 { CountsAddUp(len, free, live, n - 1); }
  }

  /** Counting covered offsets of a list with one more range behind it. */
  lemma {:induction false} CoveredAppend(rs: Ranges, r: MemRange, n: nat)
    requires Canonical(rs + [r])
    ensures CoveredBelow(rs + [r], n) == CoveredBelow(rs, n) +
            (if n <= r.first then 0 else (if n < r.last then n else r.last) - r.first)
  {
    if n > 0 {
      CoveredAppend(rs, r, n - 1);
      CoversAppend(rs, r, n - 1);
      OthersMiss(rs + [r], |rs|, n - 1);
      assert (rs + [r])[..|rs|] == rs;
    }
  }

  lemma {:induction false} CoveredIsSum(rs: Ranges, len: nat)
    requires Canonical(rs) && Within(rs, len)
    ensures CoveredBelow(rs, len) == SumSizes(rs)
  {
    if rs == [] {
      NoneCovered(len);
    } else {
      var front := rs[..|rs| - 1];
      CoveredIsSum(front, len);
      assert rs == front + [rs[|rs| - 1]];
      CoveredAppend(front, rs[|rs| - 1], len);
    }
  }

  lemma {:induction false} NoneCovered(n: nat)
    ensures CoveredBelow([], n) == 0
  {
    if n > 0 { NoneCovered(n - 1); }
  }

  /** Live offsets below n, counted block by block: blocks starting below n, less the part of the
      last one that reaches beyond n. */
  lemma {:induction false} LiveCountBlocks(len: nat, live: Blocks, n: nat)
    requires Separated(len, live) && n <= len
    ensures LiveCount(live, n) + Overhang(live, n) == LiveBelow(live, n)
  {
    if n > 0 {
      LiveCountBlocks(len, live, n - 1);
      OverhangStep(len, live, n - 1);
    } else {
      assert Overhang(live, 0) == 0;
    }
  }

  /** How far the block that is live at n - 1 reaches beyond n. */
  ghost function Overhang(live: Blocks, n: nat): nat {
    if exists o: nat :: o in live && o < n < o + live[o]
    then var o: nat :| o in live && o < n < o + live[o]; o + live[o] - n
    else 0
  }

  lemma OverhangOf(len: nat, live: Blocks, o: nat, n: nat)
    requires Separated(len, live) && o in live && o < n <= o + live[o]
    ensures Overhang(live, n) == o + live[o] - n
  {
    if exists p: nat :: p in live && p < n < p + live[p] {
      var p: nat :| p in live && p < n < p + live[p] && Overhang(live, n) == p + live[p] - n;
      assert p == o || p < o || o < p;
    }
  }

  lemma OverhangStep(len: nat, live: Blocks, n: nat)
    requires Separated(len, live)
    ensures Overhang(live, n + 1) + (if LiveAt(live, n) then 1 else 0)
         == Overhang(live, n) + (if n in live then live[n] else 0)
  {
    if LiveAt(live, n) {
      var o: nat :| o in live && InBlock(live, o, n);
      OverhangOf(len, live, o, n + 1);
      if o < n {
        OverhangOf(len, live, o, n);
      } else {
        forall p: nat | p in live ensures !(p < n < p + live[p]) { assert p < n ==> p + live[p] <= n; }
      }
    } else {
      if n in live { assert InBlock(live, n, n); }
      forall p: nat | p in live ensures !(p < n < p + live[p]) && !(p < n + 1 < p + live[p]) {
        assert !InBlock(live, p, n);
      }
    }
  }

  /** Free sizes and live sizes add up to the whole. */
  lemma Conservation(len: nat, free: Ranges, live: Blocks)
    requires Tiled(len, free, live)
    ensures SumSizes(free) + LiveBelow(live, len) == len
  {
    FreeRangesWithin(len, free, live);
    CoveredIsSum(free, len);
    CountsAddUp(len, free, live, len);
    LiveCountBlocks(len, live, len);
    forall o: nat | o in live ensures !(o < len < o + live[o]) {}
    assert Overhang(live, len) == 0;
  }

  lemma {:induction false} LiveBelowAlloc(live: Blocks, o: nat, size: nat, n: nat)
    requires o !in live
    ensures LiveBelow(live[o := size], n) == LiveBelow(live, n) + (if o < n then size else 0)
  {
    if n > 0 { LiveBelowAlloc(live, o, size, n - 1); }
  }

  lemma {:induction false} LiveBelowFree(live: Blocks, o: nat, n: nat)
    requires o in live
    ensures LiveBelow(live - {o}, n) == LiveBelow(live, n) - (if o < n then live[o] else 0)
  {
    if n > 0 { LiveBelowFree(live, o, n - 1); }
  }

  lemma {:induction false} LiveBelowEmpty(n: nat)
    ensures LiveBelow(map[], n) == 0
  {
    if n > 0 { LiveBelowEmpty(n - 1); }
  }
}
