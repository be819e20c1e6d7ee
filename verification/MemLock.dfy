/** Locked byte ranges of a mapping (libs/job_io/job_mem_lock.cpp). What mlock and munlock answer
    is a parameter of the methods. */
module MemLock {
  import opened MemRanges
  import opened RangeSets

  /** Range ends lie on page boundaries or at the end of the mapping. */
  ghost predicate PageBounded(rs: Ranges, ps: nat, len: nat)
    requires ps >= 1
  {
    forall i :: 0 <= i < |rs| ==> OnPages(rs[i], ps, len)
  }

  ghost predicate OnPages(r: MemRange, ps: nat, len: nat)
    requires ps >= 1
  {
    Aligned(r.first, ps) && (Aligned(r.last, ps) || r.last == len)
  }

  // ----- adding a range

  /** One trip of `addLockedRange`: rs[i] touches the range being merged and is absorbed by it. */
  lemma Absorb(rs: Ranges, i: nat, merged: MemRange)
    requires Canonical(rs) && i < |rs| && merged.first < merged.last
    requires forall k :: 0 <= k < i ==> rs[k].last < merged.first
    requires rs[i].last >= merged.first && merged.last >= rs[i].first
    ensures rs[i].Mergeable(merged)
    ensures var m, rest := merged.Merged(rs[i]), rs[..i] + rs[i + 1..];
            m.first < m.last && Canonical(rest) && (forall k :: 0 <= k < i ==> rest[k].last < m.first) &&
            forall x: nat :: Covers(rest, x) || m.Has(x) <==> Covers(rs, x) || merged.Has(x)
  {
    var m, rest := merged.Merged(rs[i]), rs[..i] + rs[i + 1..];
    assert rs == rs[..i] + [rs[i]] + rs[i + 1..];
    forall x: nat ensures Covers(rest, x) || m.Has(x) <==> Covers(rs, x) || merged.Has(x) {
      CoversConcat(rs[..i], rs[i + 1..], x);
      CoversConcat(rs[..i] + [rs[i]], rs[i + 1..], x);
      CoversAppend(rs[..i], rs[i], x);
      MergedHas(merged, rs[i], x);
    }
    forall k, l | 0 <= k < l < |rest| ensures rest[k].last < rest[l].first {
      assert rest[k] == rs[if k < i then k else k + 1] && rest[l] == rs[if l < i then l else l + 1];
    }
  }

  /** The final insert. */
  lemma Inserted(rs: Ranges, i: nat, merged: MemRange)
    requires Canonical(rs) && i <= |rs| && merged.first < merged.last
    requires forall k :: 0 <= k < i ==> rs[k].last < merged.first
    requires i < |rs| ==> merged.last < rs[i].first
    ensures var out := rs[..i] + [merged] + rs[i..];
            Canonical(out) && forall x: nat :: Covers(out, x) <==> Covers(rs, x) || merged.Has(x)
  {
    var out := rs[..i] + [merged] + rs[i..];
    assert rs == rs[..i] + rs[i..];
    forall x: nat ensures Covers(out, x) <==> Covers(rs, x) || merged.Has(x) {
      CoversConcat(rs[..i] + [merged], rs[i..], x);
      CoversAppend(rs[..i], merged, x);
      CoversConcat(rs[..i], rs[i..], x);
    }
    forall k, l | 0 <= k < l < |out| ensures out[k].last < out[l].first {
      if k == i { assert rs[i].first <= out[l].first; }
      if k < i && l > i { assert rs[k].last < rs[l - 1].first; }
    }
  }

  // ----- removing a range

  /** What is left of one range when r is removed. */
  function Carved(e: MemRange, r: MemRange): Ranges {
    if !e.Overlaps(r) then [e]
    else
      (if e.first < r.first then [MemRange(e.first, if r.first < e.last then r.first else e.last)] else []) +
      (if r.last < e.last then [MemRange(if r.last > e.first then r.last else e.first, e.last)] else [])
  }

  lemma CarvedCovers(e: MemRange, r: MemRange, x: nat)
    requires e.first < e.last && r.first < r.last
    ensures Covers(Carved(e, r), x) <==> e.Has(x) && !r.Has(x)
  {
    var c := Carved(e, r);
    if e.Has(x) && !r.Has(x) {
      if !e.Overlaps(r) || x < r.first { assert c[0].Has(x); } else { assert c[|c| - 1].Has(x); }
    }
  }

  /** The list after the ranges of `rs` have been carved one by one. */
  ghost predicate Removed(rs: Ranges, r: MemRange, out: Ranges) {
    Canonical(out) &&
    (forall x: nat :: Covers(out, x) <==> Covers(rs, x) && !r.Has(x)) &&
    (rs == [] ==> out == []) &&
    (rs != [] && out != [] ==> out[|out| - 1].last <= rs[|rs| - 1].last)
  }

  lemma RemoveNext(rs: Ranges, r: MemRange, out: Ranges, e: MemRange)
    requires Canonical(rs + [e]) && r.first < r.last && Removed(rs, r, out)
    ensures Removed(rs + [e], r, out + Carved(e, r))
  {
    var c, all := Carved(e, r), rs + [e];
    assert all[|rs|] == e;
    if rs != [] { assert all[|rs| - 1] == rs[|rs| - 1] && all[|rs| - 1].last < all[|rs|].first; }
    forall x: nat ensures Covers(out + c, x) <==> Covers(all, x) && !r.Has(x) {
      CoversConcat(out, c, x);
      CoversAppend(rs, e, x);
      CarvedCovers(e, r, x);
    }
    if |c| >= 1 { AppendCanonical(out, c[0]); }
    if |c| == 2 {
      AppendCanonical(out + [c[0]], c[1]);
      assert out + c == out + [c[0]] + [c[1]];
    } else if |c| == 1 {
      assert out + c == out + [c[0]];
    } else {
      assert out + c == out;
    }
  }

  class JobMemLock {
    var addr: nat
    var size: nat
    var pageSize: nat
    var lockedRanges: Ranges

    ghost predicate Valid()
      reads this
    {
      addr != NULL && size > 0 && 1 <= pageSize <= SIZE_MAX && ValidAlignment(pageSize) &&
      size + pageSize <= SIZE_MAX &&
      Canonical(lockedRanges) && Within(lockedRanges, size) && PageBounded(lockedRanges, pageSize, size)
    }

    constructor (addr: nat, size: nat, pageSize: nat)
      requires addr != NULL && size > 0 && 1 <= pageSize <= SIZE_MAX && ValidAlignment(pageSize) &&
               size + pageSize <= SIZE_MAX
      ensures Valid() && lockedRanges == []
      ensures this.addr == addr && this.size == size && this.pageSize == pageSize
    {
      this.addr, this.size, this.pageSize, lockedRanges := addr, size, pageSize, [];
    }

    /** `alignedRange`: whole pages around the range, clipped to the domain. */
    function AlignedRange(range: MemRange): (r: MemRange)
      requires Valid() && range.first < range.last <= size
      reads this
      ensures r.first <= range.first && range.last <= r.last <= size
    {
      AlignedOutwardExact(range, pageSize);
      var aligned := range.AlignedOutward(pageSize);
      MemRange(aligned.first, if aligned.last < size then aligned.last else size)
    }

    lemma AlignedRangeOnPages(range: MemRange)
      requires Valid() && range.first < range.last <= size
      ensures OnPages(AlignedRange(range), pageSize, size)
      ensures forall u: MemRange :: u.Contains(range) && u.last <= size && OnPages(u, pageSize, size) ==>
              u.Contains(AlignedRange(range))
    {
      AlignedOutwardExact(range, pageSize);
      var t := range.AlignedOutward(pageSize);
      forall u: MemRange | u.Contains(range) && u.last <= size && OnPages(u, pageSize, size)
        ensures u.Contains(AlignedRange(range))
      {
        RoundDownIsGreatest(range.first, pageSize);
        RoundUpIsLeast(range.last, pageSize);
      }
    }

    /** `lock(range)` */
    method Lock(range: MemRange, osLocks: bool) returns (ok: bool)
      requires Valid()
      modifies this`lockedRanges
      ensures Valid()
      ensures range.first >= range.last || range.last > size ==> !ok
      ensures ok ==> forall x: nat ::
                Covers(lockedRanges, x) <==> old(Covers(lockedRanges, x)) || AlignedRange(range).Has(x)
      ensures !ok ==> lockedRanges == old(lockedRanges)
      ensures range.first < range.last <= size ==>
                (ok <==> osLocks || forall x: nat :: AlignedRange(range).Has(x) ==> old(Covers(lockedRanges, x)))
    {
      if range.first >= range.last || range.last > size { return false; }
      var aligned := AlignedRange(range);
      if aligned.Empty() { return false; }
      AlignedRangeOnPages(range);
      var already := IsLocked(aligned);
      if already {
        forall x: nat | aligned.Has(x) ensures Covers(lockedRanges, x) {}
        return true;
      }
      if !osLocks { return false; }
      ok := AddLockedRange(aligned);
    }

    /** `addLockedRange`: absorbs every range it touches, in place. */
    method AddLockedRange(range: MemRange) returns (ok: bool)
      requires Valid() && range.last <= size && (range.first < range.last ==> OnPages(range, pageSize, size))
      modifies this`lockedRanges
      ensures Valid() && (ok <==> range.first < range.last)
      ensures !ok ==> lockedRanges == old(lockedRanges)
      ensures ok ==> forall x: nat :: Covers(lockedRanges, x) <==> old(Covers(lockedRanges, x)) || range.Has(x)
    {
      if range.first >= range.last { return false; }
      var merged := range;
      var it := 0;
      while it < |lockedRanges|
        invariant it <= |lockedRanges| && merged.first < merged.last <= size && OnPages(merged, pageSize, size)
        invariant Valid()
        invariant forall k :: 0 <= k < it ==> lockedRanges[k].last < merged.first
        invariant forall x: nat ::
                    Covers(lockedRanges, x) || merged.Has(x) <==> old(Covers(lockedRanges, x)) || range.Has(x)
        decreases |lockedRanges| - it
      {
        if lockedRanges[it].last < merged.first {
          it := it + 1;
          continue;
        }
        if merged.last < lockedRanges[it].first { break; }
        Absorb(lockedRanges, it, merged);
        if lockedRanges[it].Mergeable(merged) {
          merged := merged.Merged(lockedRanges[it]);
          lockedRanges := lockedRanges[..it] + lockedRanges[it + 1..];
          continue;
        }
        it := it + 1;
      }
      Inserted(lockedRanges, it, merged);
      lockedRanges := lockedRanges[..it] + [merged] + lockedRanges[it..];
      ok := true;
    }

    /** `unlock(range)` */
    method Unlock(range: MemRange, osUnlocks: bool) returns (ok: bool)
      requires Valid()
      modifies this`lockedRanges
      ensures Valid()
      ensures range.first >= range.last || range.last > size ==> !ok
      ensures ok ==> forall x: nat ::
                Covers(lockedRanges, x) <==> old(Covers(lockedRanges, x)) && !AlignedRange(range).Has(x)
      ensures !ok ==> lockedRanges == old(lockedRanges)
      ensures range.first < range.last <= size ==>
                (ok <==> osUnlocks || forall x: nat :: AlignedRange(range).Has(x) ==> !old(Covers(lockedRanges, x)))
    {
      if range.first >= range.last || range.last > size { return false; }
      var aligned := AlignedRange(range);
      if aligned.Empty() { return false; }
      AlignedRangeOnPages(range);
      var overlaps := false;
      for i := 0 to |lockedRanges|
        invariant !overlaps
        invariant forall k :: 0 <= k < i ==> !lockedRanges[k].Overlaps(aligned)
      {
        if lockedRanges[i].Overlaps(aligned) {
          overlaps := true;
          break;
        }
      }
      assert overlaps ==> exists k :: 0 <= k < |lockedRanges| && lockedRanges[k].Overlaps(aligned);
      if !overlaps {
        forall x: nat | Covers(lockedRanges, x) ensures !aligned.Has(x) {
          var k :| 0 <= k < |lockedRanges| && lockedRanges[k].Has(x);
          assert !lockedRanges[k].Overlaps(aligned);
        }
        return true;
      }
      if !osUnlocks {
        OverlapHasByte(lockedRanges, aligned);
        return false;
      }
      RemoveLockedRange(aligned);
      return true;
    }

    /** `removeLockedRange` */
    method RemoveLockedRange(range: MemRange)
      requires Valid() && range.first < range.last <= size && OnPages(range, pageSize, size)
      modifies this`lockedRanges
      ensures Valid()
      ensures forall x: nat :: Covers(lockedRanges, x) <==> old(Covers(lockedRanges, x)) && !range.Has(x)
    {
      var remaining := Subtracted(lockedRanges, range, pageSize, size);
      lockedRanges := remaining;
    }

    /** `isLocked(range)` */
    method IsLocked(range: MemRange) returns (locked: bool)
      requires Valid()
      ensures locked <==> range.first < range.last <= size && forall x: nat :: range.Has(x) ==> Covers(lockedRanges, x)
    {
      if range.first >= range.last || range.last > size { return false; }
      for i := 0 to |lockedRanges|
        invariant forall k :: 0 <= k < i ==> !lockedRanges[k].Contains(range)
      {
        if lockedRanges[i].Contains(range) {
          forall x: nat | range.Has(x) ensures Covers(lockedRanges, x) { assert lockedRanges[i].Has(x); }
          return true;
        }
      }
      NotContained(lockedRanges, range);
      return false;
    }

    /** `release`: unlocks range by range and keeps the ones the system refuses. */
    method Release(osUnlocks: MemRange -> bool) returns (ok: bool)
      requires Valid()
      modifies this`lockedRanges
      ensures Valid() && (ok <==> lockedRanges == [])
      ensures forall r :: r in lockedRanges <==> r in old(lockedRanges) && !osUnlocks(r)
    {
      if lockedRanges == [] { return true; }
      ok := true;
      var index := 0;
      ghost var was := lockedRanges;
      ghost var done := 0;
      while index < |lockedRanges|
        invariant Valid() && index <= |lockedRanges| && done <= |was|
        invariant lockedRanges[index..] == was[done..]
        invariant forall r :: r in lockedRanges[..index] <==> r in was[..done] && !osUnlocks(r)
        invariant ok <==> index == 0
        decreases |lockedRanges| - index
      {
        var range := lockedRanges[index];
        assert range == lockedRanges[index..][0] == was[done];
        assert was[..done + 1] == was[..done] + [range];
        assert lockedRanges[index..][1..] == was[done..][1..];
        if osUnlocks(range) {
          ghost var before := lockedRanges;
          DropCanonical(lockedRanges, index);
          lockedRanges := lockedRanges[..index] + lockedRanges[index + 1..];
          assert lockedRanges[..index] == before[..index] &&
                 lockedRanges[index..] == before[index + 1..] == was[done + 1..];
        } else {
          assert lockedRanges[..index + 1] == lockedRanges[..index] + [range];
          ok := false;
          index := index + 1;
        }
        done := done + 1;
      }
      assert lockedRanges[..index] == lockedRanges && was[done..] == [] && was[..done] == was;
    }
  }

  lemma OverlapHasByte(rs: Ranges, r: MemRange)
    requires NonEmpty(rs) && r.first < r.last && exists k :: 0 <= k < |rs| && rs[k].Overlaps(r)
    ensures exists x: nat :: r.Has(x) && Covers(rs, x)
  {
    var k :| 0 <= k < |rs| && rs[k].Overlaps(r);
    var x := if rs[k].first < r.first then r.first else rs[k].first;
    assert rs[k].Has(x) && r.Has(x);
  }

  lemma DropCanonical(rs: Ranges, i: nat)
    requires Canonical(rs) && i < |rs|
    ensures Canonical(rs[..i] + rs[i + 1..])
  {
    var rest := rs[..i] + rs[i + 1..];
    forall k, l | 0 <= k < l < |rest| ensures rest[k].last < rest[l].first {
      assert rest[k] == rs[if k < i then k else k + 1] && rest[l] == rs[if l < i then l else l + 1];
    }
  }

  /** A range no listed range contains has an uncovered offset. */
  lemma NotContained(rs: Ranges, r: MemRange)
    requires Canonical(rs) && r.first < r.last && forall k :: 0 <= k < |rs| ==> !rs[k].Contains(r)
    ensures exists x: nat :: r.Has(x) && !Covers(rs, x)
  {
    if Covers(rs, r.first) {
      var i :| 0 <= i < |rs| && rs[i].Has(r.first);
      GapAfter(rs, i);
      assert r.Has(rs[i].last);
    } else {
      assert r.Has(r.first);
    }
  }

  /** The loop of `removeLockedRange` and of `JobMmap::subtractRange`. */
  method Subtracted(rs: Ranges, range: MemRange, ghost ps: nat, ghost len: nat) returns (remaining: Ranges)
    requires Canonical(rs) && range.first < range.last && ps >= 1
    requires Within(rs, len) && PageBounded(rs, ps, len) && OnPages(range, ps, len) && range.last <= len
    ensures Canonical(remaining) && Within(remaining, len) && PageBounded(remaining, ps, len)
    ensures forall x: nat :: Covers(remaining, x) <==> Covers(rs, x) && !range.Has(x)
  {
    remaining := [];
    for i := 0 to |rs|
      invariant Removed(rs[..i], range, remaining) && Within(remaining, len) && PageBounded(remaining, ps, len)
    {
      assert rs[..i + 1] == rs[..i] + [rs[i]];
      RemoveNext(rs[..i], range, remaining, rs[i]);
      CarvedOnPages(rs[i], range, ps, len);
      remaining := Carve(remaining, rs[i], range);
    }
    assert rs[..|rs|] == rs;
  }

  /** One trip of that loop. */
  method Carve(before: Ranges, locked: MemRange, range: MemRange) returns (remaining: Ranges)
    ensures remaining == before + Carved(locked, range)
  {
    remaining := before;
    if !locked.Overlaps(range) {
      remaining := remaining + [locked];
      return;
    }
    if locked.first < range.first {
      remaining := remaining + [MemRange(locked.first, if range.first < locked.last then range.first else locked.last)];
    }
    if range.last < locked.last {
      remaining := remaining + [MemRange(if range.last > locked.first then range.last else locked.first, locked.last)];
    }
  }

  lemma CarvedOnPages(e: MemRange, r: MemRange, ps: nat, len: nat)
    requires ps >= 1 && e.last <= len && OnPages(e, ps, len) && OnPages(r, ps, len)
    ensures Within(Carved(e, r), len) && PageBounded(Carved(e, r), ps, len)
  {
  }
}
